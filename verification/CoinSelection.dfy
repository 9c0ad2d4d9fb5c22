/** Choosing coins for a collaborative exit, without and with fees. */
module CoinSelection {
  import opened Options
  import opened Sorting

  datatype Vtxo = Vtxo(txid: string, value: int, expiresAt: Option<int>)

  datatype Output = Output(address: string, amount: int)

  datatype Settlement =
    | Settle(inputs: seq<Vtxo>, outputs: seq<Output>)
    | InsufficientFunds

  function Total(vtxos: seq<Vtxo>): (t: int)
    ensures vtxos == [] ==> t == 0
  {
    if vtxos == [] then 0 else Total(vtxos[..|vtxos| - 1]) + vtxos[|vtxos| - 1].value
  }

  function Paid(outputs: seq<Output>): int {
    if outputs == [] then 0 else Paid(outputs[..|outputs| - 1]) + outputs[|outputs| - 1].amount
  }

  /** What the outputs to one address come to. */
  function PaidTo(outputs: seq<Output>, address: string): int {
    if outputs == [] then 0
    else PaidTo(outputs[..|outputs| - 1], address) +
         if outputs[|outputs| - 1].address == address then outputs[|outputs| - 1].amount else 0
  }

  /** `byExpiryAsc` as an order: a missing expiry counts as infinity. */
  predicate ExpiresNoLater(a: Vtxo, b: Vtxo) {
    b.expiresAt.None? || (a.expiresAt.Some? && a.expiresAt.value <= b.expiresAt.value)
  }

  function ByExpiry(vtxos: seq<Vtxo>): seq<Vtxo> {
    Sort(vtxos, (a: Vtxo, b: Vtxo) => ExpiresNoLater(a, b))
  }

  /** The first `n` coins reach the target and no fewer do. */
  ghost predicate MinimalPrefix(vtxos: seq<Vtxo>, target: int, n: nat) {
    n <= |vtxos| && Total(vtxos[..n]) >= target && forall m :: 0 <= m < n ==> Total(vtxos[..m]) < target
  }

  ghost predicate Reachable(vtxos: seq<Vtxo>, target: int) {
    exists n :: 0 <= n <= |vtxos| && Total(vtxos[..n]) >= target
  }

  lemma TotalNext(vtxos: seq<Vtxo>, i: nat)
    requires i < |vtxos|
    ensures Total(vtxos[..i + 1]) == Total(vtxos[..i]) + vtxos[i].value
  {
    assert vtxos[..i + 1][..i] == vtxos[..i];
  }

  /** The selection loop both exits share. */
  method Select(vtxos: seq<Vtxo>, target: int) returns (selected: seq<Vtxo>, amount: int)
    ensures amount == Total(selected) && |selected| <= |vtxos| && selected == vtxos[..|selected|]
    ensures amount >= target <==> Reachable(vtxos, target)
    ensures amount >= target ==> MinimalPrefix(vtxos, target, |selected|)
  {
    hide Total;
    selected, amount := [], 0;
    for i := 0 to |vtxos|
      invariant selected == vtxos[..i] && amount == Total(selected)
      invariant forall m :: 0 <= m < i ==> Total(vtxos[..m]) < target
    {
      if amount >= target {
        return;
      }
      TotalNext(vtxos, i);
      selected := selected + [vtxos[i]];
      amount := amount + vtxos[i].value;
    }
  }

  /** The destination, preceded by the change when there is any: `push` then `reverse`. */
  function OutputsFor(address: string, amount: int, change: Output): seq<Output> {
    if change.amount > 0 then [change, Output(address, amount)] else [Output(address, amount)]
  }

  method CollaborativeExit(vtxos: seq<Vtxo>, amount: int, address: string, offchainAddr: string) returns (r: Settlement)
    ensures r.Settle? <==> Reachable(vtxos, amount)
    ensures r.Settle? ==> MinimalPrefix(vtxos, amount, |r.inputs|) && r.inputs == vtxos[..|r.inputs|]
    ensures r.Settle? ==> Paid(r.outputs) == Total(r.inputs)
    ensures r.Settle? ==> r.outputs == OutputsFor(address, amount, Output(offchainAddr, Total(r.inputs) - amount))
    ensures r.Settle? && address != offchainAddr ==>
              PaidTo(r.outputs, address) == amount && PaidTo(r.outputs, offchainAddr) == Total(r.inputs) - amount
  {
    var selected, total := Select(vtxos, amount);
    if total < amount {
      return InsufficientFunds;
    }
    var outputs := [Output(address, amount)];
    var change := total - amount;
    if change > 0 {
      outputs := [Output(offchainAddr, change)] + outputs;
    }
    PaidByOutputs(address, amount, Output(offchainAddr, change));
    r := Settle(selected, outputs);
  }

  /** With fees the coins are spent soonest expiry first, and the fee is what the outputs leave over. */
  method CollaborativeExitWithFees(vtxos: seq<Vtxo>, inputAmount: int, outputAmount: int, address: string,
      offchainAddr: string)
    returns (r: Settlement)
    ensures r.Settle? <==> Reachable(ByExpiry(vtxos), inputAmount)
    ensures r.Settle? ==>
              MinimalPrefix(ByExpiry(vtxos), inputAmount, |r.inputs|) && r.inputs == ByExpiry(vtxos)[..|r.inputs|]
    ensures r.Settle? ==> Total(r.inputs) - Paid(r.outputs) == inputAmount - outputAmount
    ensures r.Settle? ==>
              r.outputs == OutputsFor(address, outputAmount, Output(offchainAddr, Total(r.inputs) - inputAmount))
    ensures r.Settle? && address != offchainAddr ==>
              PaidTo(r.outputs, address) == outputAmount &&
              PaidTo(r.outputs, offchainAddr) == Total(r.inputs) - inputAmount
  {
    var sorted := ByExpiry(vtxos);
    var selected, total := Select(sorted, inputAmount);
    if total < inputAmount {
      return InsufficientFunds;
    }
    var outputs := [Output(address, outputAmount)];
    var change := total - inputAmount;
    if change > 0 {
      outputs := [Output(offchainAddr, change)] + outputs;
    }
    PaidByOutputs(address, outputAmount, Output(offchainAddr, change));
    r := Settle(selected, outputs);
  }

  /** The destination is last and gets its amount, the change is first and goes back; with one address for both the two
    * outputs add up.
    */
  lemma {:induction false} PaidByOutputs(address: string, amount: int, change: Output)
    requires change.amount >= 0
    ensures var outputs := OutputsFor(address, amount, change);
            Paid(outputs) == amount + change.amount &&
            outputs != [] && outputs[|outputs| - 1].address == address && outputs[|outputs| - 1].amount == amount &&
            (if change.amount == 0 then |outputs| == 1 else |outputs| == 2 && outputs[0] == change) &&
            PaidTo(outputs, address) == amount + (if change.address == address then change.amount else 0) &&
            (change.address != address ==> PaidTo(outputs, change.address) == change.amount)
  {
    var pay := Output(address, amount);
    PaidNext([], pay, address);
    PaidNext([], pay, change.address);
    PaidNext([], change, address);
    PaidNext([], change, change.address);
    PaidNext([change], pay, address);
    PaidNext([change], pay, change.address);
    assert [] + [pay] == [pay] && [] + [change] == [change] && [change] + [pay] == [change, pay];
  }

  lemma {:induction false} PaidNext(outputs: seq<Output>, o: Output, address: string)
    ensures Paid(outputs + [o]) == Paid(outputs) + o.amount
    ensures PaidTo(outputs + [o], address) == PaidTo(outputs, address) + if o.address == address then o.amount else 0
  {
    assert (outputs + [o])[..|outputs|] == outputs;
  }

  lemma {:induction false} TotalOfPrefix(vtxos: seq<Vtxo>, n: nat)
    requires n <= |vtxos| && forall v <- vtxos :: v.value >= 0
    ensures 0 <= Total(vtxos[..n]) <= Total(vtxos)
  {
    if n == |vtxos| {
      assert vtxos[..n] == vtxos;
      if n > 0 { TotalOfPrefix(vtxos[..n - 1], n - 1); assert vtxos[..n - 1][..n - 1] == vtxos[..n - 1]; }
    } else {
      var init := vtxos[..|vtxos| - 1];
      TotalOfPrefix(init, n);
      assert init[..n] == vtxos[..n];
    }
  }

  /** For coins of no negative value an exit succeeds exactly when they total at least the target. */
  lemma {:induction false} ReachableIffEnough(vtxos: seq<Vtxo>, target: int)
    requires forall v <- vtxos :: v.value >= 0
    ensures Reachable(vtxos, target) <==> Total(vtxos) >= target
  {
    if Reachable(vtxos, target) {
      var n :| 0 <= n <= |vtxos| && Total(vtxos[..n]) >= target;
      TotalOfPrefix(vtxos, n);
    }
    assert vtxos[..|vtxos|] == vtxos;
  }

  lemma {:induction false} TotalOfInsert(s: seq<Vtxo>, x: Vtxo, le: (Vtxo, Vtxo) -> bool)
    ensures Total(Insert(s, x, le)) == Total(s) + x.value
  {
    if s == [] || le(s[|s| - 1], x) {
      assert (s + [x])[..|s|] == s;
    } else {
      var t := Insert(s[..|s| - 1], x, le);
      TotalOfInsert(s[..|s| - 1], x, le);
      assert (t + [s[|s| - 1]])[..|t|] == t;
    }
  }

  lemma {:induction false} TotalOfSort(s: seq<Vtxo>, le: (Vtxo, Vtxo) -> bool)
    ensures Total(Sort(s, le)) == Total(s)
  {
    if s != [] {
      TotalOfSort(s[..|s| - 1], le);
      TotalOfInsert(Sort(s[..|s| - 1], le), s[|s| - 1], le);
    }
  }

  /** The fee variant's order: the same coins, none left out expiring before one taken, missing expiry last;
    * and sorting never changes whether there is enough. */
  lemma {:induction false} SoonestExpiryFirst(vtxos: seq<Vtxo>, n: nat)
    requires n <= |vtxos|
    ensures var s := ByExpiry(vtxos);
            multiset(s[..n]) + multiset(s[n..]) == multiset(vtxos) &&
            (forall a <- s[..n], b <- s[n..] :: ExpiresNoLater(a, b)) &&
            Total(s) == Total(vtxos)
  {
    hide Insert;
    hide Sort;
    hide Total;
    var le := (a: Vtxo, b: Vtxo) => ExpiresNoLater(a, b);
    assert TotalPreorder(le);
    var s := ByExpiry(vtxos);
    SortSorts(vtxos, le);
    SortPermutes(vtxos, le);
    TotalOfSort(vtxos, le);
    assert s == s[..n] + s[n..];
    forall a <- s[..n], b <- s[n..] ensures ExpiresNoLater(a, b) {
      var i :| 0 <= i < n && s[i] == a;
      var j :| n <= j < |s| && s[j] == b;
      assert le(s[i], s[j]);
    }
  }
}
