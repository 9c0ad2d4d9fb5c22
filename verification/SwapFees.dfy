/** The fee itemized on a swap receipt: the stored payout is net, the fee grosses it back up. */
module SwapFees {
  import opened Decimals
  import opened Options
  import opened SignificantDigits

  datatype AssetSwap = AssetSwap(toAmount: Option<int>, feeBps: Option<int>)

  const BPS := 10_000

  /** `new Decimal(net).mul(bps).div(10_000 - bps).toFixed(0)` */
  function ComputedFee(net: nat, bps: nat): nat
    requires 0 < net && 0 < bps < BPS
  {
    ProductSign(net, bps);
    ToFixed0(Quotient20(Product20(net * bps), BPS - bps))
  }

  function SwapFeeAtomic(swap: Option<AssetSwap>): Option<nat> {
    if swap.None? || swap.value.toAmount.None? || swap.value.feeBps.None? then None
    else
      var (toAmount, feeBps) := (swap.value.toAmount.value, swap.value.feeBps.value);
      if toAmount <= 0 || feeBps < 0 || feeBps >= BPS then None
      else if feeBps == 0 then Some(0)
      else Some(ComputedFee(toAmount, feeBps))
  }

  /** `swapAmountBeforeFee` before it is formatted. */
  function AmountBeforeFee(swap: Option<AssetSwap>): Option<int> {
    var fee := SwapFeeAtomic(swap);
    if swap.None? || swap.value.toAmount.None? || fee.None? then None else Some(swap.value.toAmount.value + fee.value)
  }

  /** The gap between gross and net as a fraction, rounded once. */
  function ExactFee(net: nat, bps: nat): nat
    requires bps < BPS
  {
    Nearest(net * bps, BPS - bps)
  }

  function Product(a: nat, b: nat): nat { a * b }

  /** The rate taken off a gross amount, rounded to a unit. */
  function NetOf(gross: nat, bps: nat): nat
    requires bps < BPS
  {
    Nearest(Product(gross, BPS - bps), BPS)
  }

  // ---------- When the fee is exact ----------

  /** For every payout and rate: twenty digits give the exact fee, rounded once, under this condition and no other. Up
    * to a product of twenty digits it says that the decimals kept are none, or tell the fraction from a half.
    */
  lemma FeeIsExactIff(net: nat, bps: nat)
    requires 0 < net && 0 < bps < BPS
    ensures var (n, d, q) := (net * bps, BPS - bps, ExactFee(net, bps));
            n > 0 && (ComputedFee(net, bps) == q <==> Fixes(Product20(n), d, Places(Product20(n), d), q))
    ensures var (n, d, q) := (net * bps, BPS - bps, ExactFee(net, bps));
            n < TWENTY_DIGITS ==>
              var p := Places(n, d);
              p >= 0 && (ComputedFee(net, bps) == q <==> p == 0 || d < Pow10(p) * (2 * (q * d) + d - 2 * n))
  {
    var (n, d, q) := (net * bps, BPS - bps, ExactFee(net, bps));
    ProductSign(net, bps);
    assert n < TWENTY_DIGITS ==> Product20(n) == n;
    hide Product20;
    hide Places;
    hide Nearest;
    hide Fixes;
    hide ToFixed0;
    hide Quotient20;
    FixedIs(Product20(n), d, q);
    if n < TWENTY_DIGITS { NearestSpared(n, d, Places(n, d)); }
  }

  /** So a fee below 10^16 units is always exact. */
  lemma TwentyDigitsSuffice(net: nat, bps: nat)
    requires 0 < net && 0 < bps < BPS && net * bps < 1_0000_0000_0000_0000 * (BPS - bps)
    ensures ComputedFee(net, bps) == ExactFee(net, bps)
  {
    var (n, d, q) := (net * bps, BPS - bps, ExactFee(net, bps));
    FeeIsExactIff(net, bps);
    NearestIs(n, d, q);
    var p := Places(n, d);
    FourPlaces(n, d, p);
    hide Places;
    hide Pow10;
    hide Nearest;
    hide ComputedFee;
    ProductSign(2 * (q * d) + d - 2 * n, Pow10(p));
    assert Pow10(p) * (2 * (q * d) + d - 2 * n) == (2 * (q * d) + d - 2 * n) * Pow10(p);
  }

  lemma {:induction false} FourPlaces(n: nat, d: nat, p: nat)
    requires n < 1_0000_0000_0000_0000 * d && Keeps(n, d, p)
    ensures Pow10(p) >= BPS
  {
    assert Pow10(4) == 10000 by { assert Pow10(2) == 100; }
    if p < 4 {
      assert 10 * Pow10(p) <= Pow10(4) by { TenGrows(p, 4); }
      ProductGrows(n, Pow10(p), 1000);
    } else if p > 4 {
      TenGrows(4, p);
    }
  }

  // ---------- What the fee is worth ----------

  /** For every payout and rate: less than one unit off, or than two parts in 10^19. */
  lemma FeeAccuracy(net: nat, bps: nat)
    requires 0 < net && 0 < bps < BPS
    ensures var (n, d, fee) := (net * bps, BPS - bps, ComputedFee(net, bps));
            0 - NINETEEN_DIGITS * d - 2 * n <= NINETEEN_DIGITS * (fee * d - n) <= NINETEEN_DIGITS * d + 2 * n
  {
    var (n, d, fee) := (net * bps, BPS - bps, ComputedFee(net, bps));
    ProductSign(net, bps);
    hide Product20;
    hide Places;
    hide Fixes;
    hide ToFixed0;
    hide Quotient20;
    FixedIs(Product20(n), d, fee);
    FixedAccuracy(Product20(n), d, fee);
    ProductAccuracy(n);
  }

  /** So a fee below 10^18 units is off by one unit at most. */
  lemma OffByOne(net: nat, bps: nat)
    requires 0 < net && 0 < bps < BPS && net * bps < 100_0000_0000_0000_0000 * (BPS - bps)
    ensures ExactFee(net, bps) - 1 <= ComputedFee(net, bps) <= ExactFee(net, bps) + 1
  {
    var (n, d, q, fee) := (net * bps, BPS - bps, ExactFee(net, bps), ComputedFee(net, bps));
    FeeAccuracy(net, bps);
    NearestIs(n, d, q);
    hide ComputedFee;
    hide Nearest;
    NotTwo(fee, q, d);
    NotTwo(q, fee, d);
  }

  lemma NotTwo(a: nat, b: nat, d: nat)
    requires d > 0
    ensures a > b + 1 ==> a * d - b * d >= 2 * d
  {
    assert (a - b - 1) * d == a * d - b * d - d;
    ProductSign(a - b - 1, d);
  }

  /** A fee exists exactly when the payout is positive and the rate is below 100%. It is never negative, and taking the
    * rate off the gross amount gives the payout back exactly when the fee is as near to its fraction as said here,
    * which an exact fee is.
    */
  lemma GrossRecoversNet(swap: AssetSwap)
    ensures SwapFeeAtomic(Some(swap)).Some? <==>
            swap.toAmount.Some? && swap.feeBps.Some? && swap.toAmount.value > 0 && 0 <= swap.feeBps.value < BPS
    ensures SwapFeeAtomic(Some(swap)).Some? ==>
            var (net, bps, fee) := (swap.toAmount.value, swap.feeBps.value, SwapFeeAtomic(Some(swap)).value);
            var (gross, rest) := (AmountBeforeFee(Some(swap)).value, BPS - bps);
            gross == net + fee && fee == (if bps == 0 then 0 else ComputedFee(net, bps)) &&
            (NetOf(gross, bps) == net <==> 0 - BPS <= 2 * (fee * rest - net * bps) < BPS) &&
            (fee == ExactFee(net, bps) ==>
              0 - rest <= 2 * (gross * rest - BPS * net) <= rest && NetOf(gross, bps) == net)
  {
    if SwapFeeAtomic(Some(swap)).Some? {
      var (net, bps, fee) := (swap.toAmount.value, swap.feeBps.value, SwapFeeAtomic(Some(swap)).value);
      hide ComputedFee;
      Distribute(net, fee, bps);
      NearestIs(Product(net + fee, BPS - bps), BPS, net);
      NearestIs(net * bps, BPS - bps, ExactFee(net, bps));
      hide Nearest;
    }
  }

  lemma Distribute(net: nat, fee: nat, bps: nat)
    ensures (net + fee) * (BPS - bps) == BPS * net + (fee * (BPS - bps) - net * bps)
  {
  }

  /** Where the condition fails: a fraction just under a half, of a fee of 10^16, is rounded up to the half and then to
    * the next unit, and the payout is not given back.
    */
  lemma TwentyDigitsFail()
    ensures var net := 9999_0000_0000_0000_4999;
            ExactFee(net, 1) == 1_0000_0000_0000_0000 && ComputedFee(net, 1) == ExactFee(net, 1) + 1 &&
            NetOf(net + ComputedFee(net, 1), 1) == net + 1
  {
    var (net, d) := (9999_0000_0000_0000_4999, 9999);
    assert Pow10(3) == 1000;
    PlacesUnique(net, d, Places(net, d), 3);
    FixedIs(net, d, 1_0000_0000_0000_0001);
  }
}
