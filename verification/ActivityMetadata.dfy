/** The bounded store of local transaction metadata. */
module ActivityMetadata {
  import opened Options
  import opened Sorting

  const LIMIT := 250

  datatype Entry = Entry(txid: string, fields: map<string, string>, savedAt: int)

  /** What a caller saves: a field given as `undefined` is `None`. */
  type Metadata = map<string, Option<string>>

  datatype SaveCall = SaveCall(txid: string, metadata: Metadata, now: int)

  /** `{ ...old, ...metadata }` once it has been through JSON, which drops undefined fields. */
  function Merge(old_: map<string, string>, metadata: Metadata): map<string, string> {
    map k | k in old_.Keys + metadata.Keys && (k in metadata ==> metadata[k].Some?) ::
      if k in metadata then metadata[k].value else old_[k]
  }

  // ---------- The stored dictionary, as its entries in order ----------

  function IndexOf(store: seq<Entry>, txid: string): (i: nat)
    ensures i <= |store| && (i < |store| ==> store[i].txid == txid)
    ensures forall j :: 0 <= j < i ==> store[j].txid != txid
  {
    if store == [] || store[0].txid == txid then 0 else 1 + IndexOf(store[1..], txid)
  }

  predicate Has(store: seq<Entry>, txid: string) { IndexOf(store, txid) < |store| }

  function FieldsOf(store: seq<Entry>, txid: string): map<string, string> {
    if Has(store, txid) then store[IndexOf(store, txid)].fields else map[]
  }

  function Without(store: seq<Entry>, txid: string): seq<Entry> {
    var i := IndexOf(store, txid);
    if i < |store| then store[..i] + store[i + 1..] else store
  }

  /** `stored[txid] = ...`: in place for a known key, at the end for a new one. */
  function Put(store: seq<Entry>, e: Entry): seq<Entry> {
    var i := IndexOf(store, e.txid);
    if i < |store| then store[i := e] else store + [e]
  }

  function TakeLast<T>(s: seq<T>, n: nat): seq<T> {
    if |s| <= n then s else s[|s| - n..]
  }

  function BySavedAt(store: seq<Entry>): seq<Entry> {
    Sort(store, (a: Entry, b: Entry) => a.savedAt <= b.savedAt)
  }

  function Fresh(store: seq<Entry>, c: SaveCall): Entry {
    Entry(c.txid, Merge(FieldsOf(store, c.txid), c.metadata), c.now)
  }

  /** `saveTransactionActivityMetadata`. */
  function Save(store: seq<Entry>, c: SaveCall): seq<Entry> {
    if c.txid == "" then store else TakeLast(BySavedAt(Put(store, Fresh(store, c))), LIMIT)
  }

  /** The same without the bound. */
  function SaveUnbounded(store: seq<Entry>, c: SaveCall): seq<Entry> {
    if c.txid == "" then store else BySavedAt(Put(store, Fresh(store, c)))
  }

  function Run(calls: seq<SaveCall>): seq<Entry> {
    if calls == [] then [] else Save(Run(calls[..|calls| - 1]), calls[|calls| - 1])
  }

  function RunUnbounded(calls: seq<SaveCall>): seq<Entry> {
    if calls == [] then [] else SaveUnbounded(RunUnbounded(calls[..|calls| - 1]), calls[|calls| - 1])
  }

  ghost predicate ClockTicks(calls: seq<SaveCall>) {
    forall i, j :: 0 <= i < j < |calls| ==> calls[i].now < calls[j].now
  }

  // ---------- A save moves its entry to the end ----------

  ghost predicate Ascending(store: seq<Entry>) {
    forall i, j :: 0 <= i < j < |store| ==> store[i].savedAt < store[j].savedAt
  }

  ghost predicate Chronological(store: seq<Entry>) {
    Ascending(store) &&
    (forall i, j :: 0 <= i < j < |store| ==> store[i].txid != store[j].txid)
  }

  ghost predicate Before(store: seq<Entry>, now: int) {
    forall e <- store :: e.savedAt < now
  }

  lemma {:induction false} SortOfAscending(s: seq<Entry>)
    requires Ascending(s)
    ensures BySavedAt(s) == s
  {
    if s != [] {
      SortOfAscending(s[..|s| - 1]);
      assert s == s[..|s| - 1] + [s[|s| - 1]];
    }
  }

  function InsertAt(rest: seq<Entry>, k: nat, e: Entry): seq<Entry>
    requires k <= |rest|
  {
    rest[..k] + [e] + rest[k..]
  }

  lemma {:induction false} InsertBeforeNewest(init: seq<Entry>, x: Entry, e: Entry)
    requires Ascending(init + [x]) && x.savedAt < e.savedAt
    ensures Insert(init + [e], x, (a: Entry, b: Entry) => a.savedAt <= b.savedAt) == init + [x] + [e]
  {
    assert (init + [e])[..|init|] == init;
    if init != [] {
      assert (init + [x])[|init| - 1] == init[|init| - 1] && (init + [x])[|init|] == x;
    }
  }

  lemma InsertAtEnds(rest: seq<Entry>, k: nat, e: Entry)
    requires k <= |rest|
    ensures k == |rest| ==> InsertAt(rest, k, e) == rest + [e]
    ensures k < |rest| ==> InsertAt(rest, k, e) == InsertAt(rest[..|rest| - 1], k, e) + [rest[|rest| - 1]]
    ensures k < |rest| ==> InsertAt(rest, k, e)[..|rest|] == InsertAt(rest[..|rest| - 1], k, e)
  {
  }

  /** An entry newer than the rest travels to the end, the rest keeping their order. */
  lemma {:induction false} SortMovesNewest(rest: seq<Entry>, k: nat, e: Entry)
    requires k <= |rest| && Ascending(rest) && Before(rest, e.savedAt)
    ensures BySavedAt(InsertAt(rest, k, e)) == rest + [e]
  {
    hide Insert;
    hide InsertAt;
    InsertAtEnds(rest, k, e);
    if k == |rest| {
      SortOfAscending(rest + [e]);
    } else {
      var (init, x) := (rest[..|rest| - 1], rest[|rest| - 1]);
      SortMovesNewest(init, k, e);
      assert x in rest && rest == init + [x];
      InsertBeforeNewest(init, x, e);
    }
  }

  /** What `Without` leaves, index by index. */
  lemma {:induction false} WithoutAt(store: seq<Entry>, txid: string, j: nat)
    requires j < |Without(store, txid)|
    ensures Without(store, txid)[j] == store[if j < IndexOf(store, txid) then j else j + 1]
    ensures |Without(store, txid)| == if Has(store, txid) then |store| - 1 else |store|
  {
  }

  lemma WithoutIsChronological(store: seq<Entry>, txid: string, now: int)
    requires Chronological(store) && Before(store, now)
    ensures Chronological(Without(store, txid)) && Before(Without(store, txid), now)
    ensures forall e <- Without(store, txid) :: e.txid != txid
  {
    var i := IndexOf(store, txid);
    var rest := Without(store, txid);
    forall j | 0 <= j < |rest|
      ensures rest[j] == store[if j < i then j else j + 1] && rest[j].txid != txid && rest[j] in store
    {
      WithoutAt(store, txid, j);
    }
    hide Without;
    hide IndexOf;
  }

  /** The dictionary update and the sort amount to moving the entry to the end. */
  lemma SortedPut(store: seq<Entry>, e: Entry)
    requires Chronological(store) && Before(store, e.savedAt)
    ensures BySavedAt(Put(store, e)) == Without(store, e.txid) + [e]
    ensures Chronological(Without(store, e.txid) + [e]) && Before(Without(store, e.txid) + [e], e.savedAt + 1)
  {
    hide Put;
    hide Without;
    hide BySavedAt;
    hide InsertAt;
    var rest := Without(store, e.txid);
    WithoutIsChronological(store, e.txid, e.savedAt);
    PutIsInsert(store, e);
    SortMovesNewest(rest, IndexOf(store, e.txid), e);
    AppendIsChronological(rest, e);
  }

  lemma AppendIsChronological(rest: seq<Entry>, e: Entry)
    requires Chronological(rest) && Before(rest, e.savedAt) && forall x <- rest :: x.txid != e.txid
    ensures Chronological(rest + [e]) && Before(rest + [e], e.savedAt + 1)
  {
  }

  lemma {:induction false} PutIsInsert(store: seq<Entry>, e: Entry)
    ensures IndexOf(store, e.txid) <= |Without(store, e.txid)|
    ensures Put(store, e) == InsertAt(Without(store, e.txid), IndexOf(store, e.txid), e)
  {
    var i := IndexOf(store, e.txid);
    if i < |store| {
      var (head, tail) := (store[..i], store[i + 1..]);
      assert (head + tail)[..i] == head && (head + tail)[i..] == tail;
      assert store[i := e] == head + [e] + tail;
    }
  }

  /** Under a ticking clock a save is: forget the old entry, append the new one, keep the newest `LIMIT`. */
  lemma SaveIsAppend(store: seq<Entry>, c: SaveCall)
    requires Chronological(store) && Before(store, c.now) && c.txid != ""
    ensures var moved := Without(store, c.txid) + [Fresh(store, c)];
            SaveUnbounded(store, c) == moved && Save(store, c) == TakeLast(moved, LIMIT) &&
            Chronological(moved) && Before(moved, c.now + 1)
  {
    SortedPut(store, Fresh(store, c));
  }

  // ---------- Truncating at every save agrees with truncating once at the end ----------

  datatype Stamp = Stamp(txid: string, savedAt: int)

  function Stamps(store: seq<Entry>): (r: seq<Stamp>)
    ensures |r| == |store| && forall i :: 0 <= i < |r| ==> r[i] == Stamp(store[i].txid, store[i].savedAt)
  {
    seq(|store|, i requires 0 <= i < |store| => Stamp(store[i].txid, store[i].savedAt))
  }

  lemma WithoutCons(store: seq<Entry>, txid: string)
    requires store != []
    ensures Without(store, txid) ==
            if store[0].txid == txid then store[1..] else [store[0]] + Without(store[1..], txid)
  {
    var rest := store[1..];
    var i := IndexOf(rest, txid);
    if store[0].txid != txid && i < |rest| {
      assert store[..i + 1] == [store[0]] + rest[..i] && store[i + 2..] == rest[i + 1..];
    }
  }

  lemma WithoutAbsent(store: seq<Entry>, txid: string)
    requires forall e <- store :: e.txid != txid
    ensures Without(store, txid) == store
  {
  }

  lemma TailChronological(u: seq<Entry>)
    requires Chronological(u) && u != []
    ensures Chronological(u[1..]) && forall e <- u[1..] :: e.txid != u[0].txid
  {
  }

  /** Moving an entry to the end and keeping the newest commute. */
  lemma {:induction false} TruncateMoved(u: seq<Entry>, e: Entry)
    requires Chronological(u)
    ensures TakeLast(Without(TakeLast(u, LIMIT), e.txid) + [e], LIMIT) == TakeLast(Without(u, e.txid) + [e], LIMIT)
  {
    if |u| > LIMIT {
      assert u == [u[0]] + u[1..];
      TailChronological(u);
      TruncateMoved(u[1..], e);
      TakeLastCons(u[0], u[1..]);
      OldestIsDropped(u[0], u[1..], e);
    }
  }

  /** Past the limit, the oldest entry does not matter, moved or not. */
  lemma OldestIsDropped(head: Entry, rest: seq<Entry>, e: Entry)
    requires |rest| >= LIMIT && forall x <- rest :: x.txid != head.txid
    ensures TakeLast(Without([head] + rest, e.txid) + [e], LIMIT) == TakeLast(Without(rest, e.txid) + [e], LIMIT)
  {
    hide Without;
    hide TakeLast;
    WithoutCons([head] + rest, e.txid);
    WithoutLength(rest, e.txid);
    assert ([head] + rest)[1..] == rest;
    if head.txid == e.txid {
      WithoutAbsent(rest, e.txid);
    } else {
      var tail := Without(rest, e.txid) + [e];
      assert [head] + Without(rest, e.txid) + [e] == [head] + tail;
      TakeLastCons(head, tail);
    }
  }

  lemma TakeLastCons(head: Entry, tail: seq<Entry>)
    requires |tail| >= LIMIT
    ensures TakeLast([head] + tail, LIMIT) == TakeLast(tail, LIMIT)
  {
  }

  lemma WithoutLength(store: seq<Entry>, txid: string)
    ensures |store| - 1 <= |Without(store, txid)| <= |store|
  {
  }

  /** The keys and times kept do not depend on the fields stored. */
  lemma {:induction false} StampsOfWithout(a: seq<Entry>, b: seq<Entry>, txid: string)
    requires Stamps(a) == Stamps(b)
    ensures Stamps(Without(a, txid)) == Stamps(Without(b, txid))
  {
    if a != [] {
      assert b != [];
      hide Without;
      hide Stamps;
      StampsAppend([a[0]], a[1..]);
      StampsAppend([b[0]], b[1..]);
      assert [a[0]] + a[1..] == a && [b[0]] + b[1..] == b;
      assert Stamps(a)[1..] == Stamps(a[1..]) && Stamps(b)[1..] == Stamps(b[1..]);
      WithoutCons(a, txid);
      WithoutCons(b, txid);
      StampsOfWithout(a[1..], b[1..], txid);
      StampsAppend([a[0]], Without(a[1..], txid));
      StampsAppend([b[0]], Without(b[1..], txid));
    }
  }

  lemma StampsAppend(a: seq<Entry>, b: seq<Entry>)
    ensures Stamps(a + b) == Stamps(a) + Stamps(b)
  {
  }

  lemma StampsTakeLast(a: seq<Entry>, n: nat)
    ensures Stamps(TakeLast(a, n)) == TakeLast(Stamps(a), n)
  {
  }

  /** The bounded store holds exactly the newest `LIMIT` of what the unbounded one would hold, key by key, time by
   * time. */
  lemma {:induction false} BoundedIsNewest(calls: seq<SaveCall>)
    requires ClockTicks(calls)
    ensures var (b, u) := (Run(calls), RunUnbounded(calls));
            Chronological(u) && Chronological(b) && Stamps(b) == Stamps(TakeLast(u, LIMIT)) &&
            (calls != [] ==> Before(u, calls[|calls| - 1].now + 1) && Before(b, calls[|calls| - 1].now + 1))
  {
    if calls != [] {
      var (init, c) := (calls[..|calls| - 1], calls[|calls| - 1]);
      BoundedIsNewest(init);
      var (b, u) := (Run(init), RunUnbounded(init));
      assert Before(u, c.now) && Before(b, c.now);
      if c.txid != "" {
        StepIsNewest(b, u, c);
      }
    }
  }

  lemma FreshStamp(store: seq<Entry>, c: SaveCall)
    ensures Stamps([Fresh(store, c)]) == [Stamp(c.txid, c.now)] && Fresh(store, c).txid == c.txid
  {
  }

  lemma LastIsChronological(s: seq<Entry>, n: nat, now: int)
    requires Chronological(s) && Before(s, now)
    ensures Chronological(TakeLast(s, n)) && Before(TakeLast(s, n), now)
  {
  }

  lemma StepIsNewest(b: seq<Entry>, u: seq<Entry>, c: SaveCall)
    requires Chronological(b) && Chronological(u) && Before(b, c.now) && Before(u, c.now) && c.txid != ""
    requires Stamps(b) == Stamps(TakeLast(u, LIMIT))
    ensures var (b', u') := (Save(b, c), SaveUnbounded(u, c));
            Chronological(b') && Chronological(u') && Before(b', c.now + 1) && Before(u', c.now + 1) &&
            Stamps(b') == Stamps(TakeLast(u', LIMIT))
  {
    SaveIsAppend(b, c);
    SaveIsAppend(u, c);
    FreshStamp(b, c);
    FreshStamp(u, c);
    LastIsChronological(Without(b, c.txid) + [Fresh(b, c)], LIMIT, c.now + 1);
    hide Save;
    hide SaveUnbounded;
    hide Without;
    hide Fresh;
    hide TakeLast;
    hide Stamps;
    hide Chronological;
    hide Before;
    var (eb, eu, t) := (Fresh(b, c), Fresh(u, c), TakeLast(u, LIMIT));
    TruncateMoved(u, eu);
    StampsOfWithout(b, t, c.txid);
    StampsAppend(Without(b, c.txid), [eb]);
    StampsAppend(Without(t, c.txid), [eu]);
    StampsTakeLast(Without(b, c.txid) + [eb], LIMIT);
    StampsTakeLast(Without(t, c.txid) + [eu], LIMIT);
  }

  // ---------- What is on file: the last save of each of the newest txids ----------

  function LastSave(calls: seq<SaveCall>, txid: string): Option<int> {
    if calls == [] then None
    else if calls[|calls| - 1].txid == txid then Some(calls[|calls| - 1].now)
    else LastSave(calls[..|calls| - 1], txid)
  }

  function SavedAtOf(store: seq<Entry>, txid: string): Option<int> {
    if store == [] then None
    else if store[0].txid == txid then Some(store[0].savedAt)
    else SavedAtOf(store[1..], txid)
  }

  lemma {:induction false} SavedAtMoved(u: seq<Entry>, e: Entry, txid: string)
    requires Chronological(u)
    ensures SavedAtOf(Without(u, e.txid) + [e], txid) == if txid == e.txid then Some(e.savedAt) else SavedAtOf(u, txid)
  {
    hide Chronological;
    if u != [] {
      hide Without;
      var rest := u[1..];
      TailChronological(u);
      WithoutCons(u, e.txid);
      SavedAtMoved(rest, e, txid);
      if u[0].txid == e.txid {
        WithoutAbsent(rest, e.txid);
      } else {
        var tail := Without(rest, e.txid) + [e];
        assert Without(u, e.txid) + [e] == [u[0]] + tail;
        SavedAtCons(u[0], tail, txid);
      }
      SavedAtCons(u[0], rest, txid);
      assert u == [u[0]] + rest;
      hide SavedAtOf;
    }
  }

  lemma {:induction false} SavedAtCons(x: Entry, tail: seq<Entry>, txid: string)
    ensures SavedAtOf([x] + tail, txid) == if x.txid == txid then Some(x.savedAt) else SavedAtOf(tail, txid)
  {
    assert ([x] + tail)[1..] == tail;
  }

  lemma {:induction false} UnboundedHoldsLastSaves(calls: seq<SaveCall>, txid: string)
    requires ClockTicks(calls) && txid != ""
    ensures SavedAtOf(RunUnbounded(calls), txid) == LastSave(calls, txid)
  {
    if calls != [] {
      var (init, c) := (calls[..|calls| - 1], calls[|calls| - 1]);
      UnboundedHoldsLastSaves(init, txid);
      BoundedIsNewest(init);
      if c.txid != "" {
        var u := RunUnbounded(init);
        SaveIsAppend(u, c);
        SavedAtMoved(u, Fresh(u, c), txid);
      }
    }
  }

  lemma {:induction false} SavedAtOfTail(u: seq<Entry>, d: nat, txid: string)
    requires Chronological(u) && d <= |u|
    ensures var at := SavedAtOf(u[d..], txid);
            (at.Some? ==> SavedAtOf(u, txid) == at) &&
            (at.None? && SavedAtOf(u, txid).Some? ==> forall e <- u[d..] :: SavedAtOf(u, txid).value < e.savedAt)
  {
    if d > 0 {
      assert u[1..][d - 1..] == u[d..];
      SavedAtOfTail(u[1..], d - 1, txid);
      if u[0].txid == txid {
        SavedAtAbsent(u[d..], txid);
      }
    } else {
      assert u[0..] == u;
    }
  }

  lemma {:induction false} SavedAtAbsent(s: seq<Entry>, txid: string)
    requires forall e <- s :: e.txid != txid
    ensures SavedAtOf(s, txid).None?
  {
    if s != [] {
      assert s[0] in s;
      SavedAtAbsent(s[1..], txid);
    }
  }

  lemma {:induction false} SavedAtOfStamps(a: seq<Entry>, b: seq<Entry>, txid: string)
    requires Stamps(a) == Stamps(b)
    ensures SavedAtOf(a, txid) == SavedAtOf(b, txid)
  {
    if a != [] {
      assert Stamps(a)[0] == Stamps(b)[0];
      assert Stamps(a[1..]) == Stamps(a)[1..] == Stamps(b)[1..] == Stamps(b[1..]);
      SavedAtOfStamps(a[1..], b[1..], txid);
    }
  }

  /** What is on file after any run of saves: at most `LIMIT` txids, each with the time of its last save, and one
    * that was saved is missing only if `LIMIT` others have all been saved since. */
  lemma {:induction false} HoldsMostRecent(calls: seq<SaveCall>, txid: string)
    requires ClockTicks(calls) && txid != ""
    ensures var (b, last) := (Run(calls), LastSave(calls, txid));
            Chronological(b) && |b| <= LIMIT &&
            (SavedAtOf(b, txid).Some? ==> SavedAtOf(b, txid) == last) &&
            (SavedAtOf(b, txid).None? && last.Some? ==> |b| == LIMIT && forall e <- b :: last.value < e.savedAt)
  {
    BoundedIsNewest(calls);
    UnboundedHoldsLastSaves(calls, txid);
    var (b, u) := (Run(calls), RunUnbounded(calls));
    hide Run;
    hide RunUnbounded;
    hide LastSave;
    hide SavedAtOf;
    hide Chronological;
    var t := TakeLast(u, LIMIT);
    var d := |u| - |t|;
    assert t == u[d..];
    SavedAtOfStamps(b, t, txid);
    SavedAtOfTail(u, d, txid);
    SameTimes(b, t);
    hide Stamps;
  }

  lemma SameTimes(b: seq<Entry>, t: seq<Entry>)
    requires Stamps(b) == Stamps(t)
    ensures |b| == |t| && forall e <- b :: exists x :: x in t && x.savedAt == e.savedAt
  {
    assert |Stamps(b)| == |Stamps(t)|;
    forall e | e in b ensures exists x :: x in t && x.savedAt == e.savedAt {
      var i :| 0 <= i < |b| && b[i] == e;
      assert Stamps(b)[i] == Stamps(t)[i];
      assert t[i] in t;
    }
  }

  // ---------- The fields themselves: exactly when truncation loses something ----------

  /** One more save keeps the bounded store equal to the truncated unbounded one, fields included, iff the txid was
    * not evicted before or the new metadata names every field the evicted entry had. */
  lemma FieldsAgreeIff(u: seq<Entry>, c: SaveCall)
    requires Chronological(u) && Before(u, c.now) && c.txid != ""
    ensures var b := TakeLast(u, LIMIT);
            Save(b, c) == TakeLast(SaveUnbounded(u, c), LIMIT) <==>
            Has(b, c.txid) || FieldsOf(u, c.txid).Keys <= c.metadata.Keys
  {
    var b := TakeLast(u, LIMIT);
    LastIsChronological(u, LIMIT, c.now);
    SaveIsAppend(b, c);
    SaveIsAppend(u, c);
    var (eb, eu) := (Fresh(b, c), Fresh(u, c));
    TruncateMoved(u, eu);
    var (x, y) := (Without(b, c.txid) + [eb], Without(b, c.txid) + [eu]);
    LastsEqual(Without(b, c.txid), eb, eu);
    if Has(b, c.txid) {
      FieldsOfTruncated(u, c.txid);
    } else {
      MergeAgrees(FieldsOf(u, c.txid), c.metadata);
    }
  }

  lemma LastsEqual(s: seq<Entry>, a: Entry, b: Entry)
    ensures TakeLast(s + [a], LIMIT) == TakeLast(s + [b], LIMIT) <==> a == b
  {
    var (x, y) := (TakeLast(s + [a], LIMIT), TakeLast(s + [b], LIMIT));
    assert x[|x| - 1] == a && y[|y| - 1] == b;
  }

  lemma {:induction false} OnlyIndex(u: seq<Entry>, k: nat)
    requires Chronological(u) && k < |u|
    ensures IndexOf(u, u[k].txid) == k
  {
  }

  lemma FieldsOfTruncated(u: seq<Entry>, txid: string)
    requires Chronological(u) && Has(TakeLast(u, LIMIT), txid)
    ensures FieldsOf(TakeLast(u, LIMIT), txid) == FieldsOf(u, txid)
  {
    hide Chronological;
    var t := TakeLast(u, LIMIT);
    var k := |u| - |t| + IndexOf(t, txid);
    assert u[k] == t[IndexOf(t, txid)];
    OnlyIndex(u, k);
  }

  /** Merging onto a lost entry differs from merging onto nothing unless every lost field is given again. */
  lemma MergeAgrees(lost: map<string, string>, metadata: Metadata)
    ensures Merge(map[], metadata) == Merge(lost, metadata) <==> lost.Keys <= metadata.Keys
  {
    if Merge(map[], metadata) == Merge(lost, metadata) {
      forall k <- lost.Keys ensures k in metadata {
        assert k in metadata || k in Merge(lost, metadata);
      }
    }
  }

  /** After the first `n` saves the bounded store is the unbounded one truncated, fields included. */
  ghost predicate AgreesAfter(calls: seq<SaveCall>, n: nat)
    requires n <= |calls|
  {
    Run(calls[..n]) == TakeLast(RunUnbounded(calls[..n]), LIMIT)
  }

  /** Save `n` is of a transaction no longer on file, and leaves out a field saved for it before. */
  ghost predicate Loses(calls: seq<SaveCall>, n: nat)
    requires n < |calls|
  {
    var (c, prefix) := (calls[n], calls[..n]);
    c.txid != "" && !Has(Run(prefix), c.txid) && !(FieldsOf(RunUnbounded(prefix), c.txid).Keys <= c.metadata.Keys)
  }

  lemma PrefixTicks(calls: seq<SaveCall>, n: nat)
    requires ClockTicks(calls) && n < |calls|
    ensures ClockTicks(calls[..n]) && calls[..n + 1][..n] == calls[..n]
    ensures n > 0 ==> calls[..n][n - 1].now + 1 <= calls[n].now
  {
  }

  lemma NextAgrees(calls: seq<SaveCall>, n: nat)
    requires ClockTicks(calls) && n < |calls| && AgreesAfter(calls, n)
    ensures AgreesAfter(calls, n + 1) <==> !Loses(calls, n)
  {
    var (c, prefix) := (calls[n], calls[..n]);
    var u := RunUnbounded(prefix);
    PrefixTicks(calls, n);
    BoundedIsNewest(prefix);
    assert Run(calls[..n + 1]) == Save(Run(prefix), c) && RunUnbounded(calls[..n + 1]) == SaveUnbounded(u, c);
    if c.txid != "" {
      assert Before(u, c.now);
      FieldsAgreeIff(u, c);
    }
  }

  /** Over a whole run truncating at every save agrees with truncating once at the end, in every state and fields
    * included, exactly when no save is of an evicted transaction with a field of its missing.
    */
  lemma {:induction false} RunAgreesIff(calls: seq<SaveCall>, n: nat)
    requires ClockTicks(calls) && n <= |calls|
    ensures (forall k | 0 <= k <= n :: AgreesAfter(calls, k)) <==> (forall k | 0 <= k < n :: !Loses(calls, k))
  {
    hide AgreesAfter;
    hide Loses;
    if n == 0 {
      assert AgreesAfter(calls, 0) by { NothingSaved(calls); }
    } else {
      RunAgreesIff(calls, n - 1);
      if AgreesAfter(calls, n - 1) { NextAgrees(calls, n - 1); }
    }
  }

  lemma NothingSaved(calls: seq<SaveCall>)
    ensures AgreesAfter(calls, 0)
  {
  }

  // ---------- A run that loses a field ----------

  ghost predicate DistinctSaves(calls: seq<SaveCall>) {
    (forall i :: 0 <= i < |calls| ==> calls[i].txid != "") &&
    (forall i, j :: 0 <= i < j < |calls| ==> calls[i].txid != calls[j].txid)
  }

  function Entries(calls: seq<SaveCall>): (r: seq<Entry>)
    ensures |r| == |calls|
  {
    seq(|calls|, i requires 0 <= i < |calls| => Entry(calls[i].txid, Merge(map[], calls[i].metadata), calls[i].now))
  }

  /** Saves of different transactions are simply kept in order. */
  lemma {:induction false} DistinctSavesKept(calls: seq<SaveCall>)
    requires ClockTicks(calls) && DistinctSaves(calls)
    ensures RunUnbounded(calls) == Entries(calls)
  {
    if calls != [] {
      var (init, c) := (calls[..|calls| - 1], calls[|calls| - 1]);
      DistinctSavesKept(init);
      BoundedIsNewest(init);
      EntriesSnoc(calls);
      NewSave(Entries(init), c);
      hide SaveUnbounded;
    }
  }

  lemma EntriesSnoc(calls: seq<SaveCall>)
    requires ClockTicks(calls) && DistinctSaves(calls) && calls != []
    ensures var (init, c) := (calls[..|calls| - 1], calls[|calls| - 1]);
            Entries(calls) == Entries(init) + [Entry(c.txid, Merge(map[], c.metadata), c.now)] &&
            ClockTicks(init) && DistinctSaves(init) && Before(Entries(init), c.now) &&
            forall e <- Entries(init) :: e.txid != c.txid
  {
    hide Merge;
  }

  lemma NewSave(u: seq<Entry>, c: SaveCall)
    requires Chronological(u) && Before(u, c.now) && c.txid != "" && forall e <- u :: e.txid != c.txid
    ensures SaveUnbounded(u, c) == u + [Entry(c.txid, Merge(map[], c.metadata), c.now)]
  {
    WithoutAbsent(u, c.txid);
    SaveIsAppend(u, c);
    assert !Has(u, c.txid);
    hide SaveUnbounded;
    hide Save;
  }

  lemma OldestEvicted(b: seq<Entry>, u: seq<Entry>)
    requires Chronological(u) && |u| == LIMIT + 1 && Stamps(b) == Stamps(TakeLast(u, LIMIT))
    ensures !Has(b, u[0].txid)
  {
    var t := TakeLast(u, LIMIT);
    assert |Stamps(b)| == |Stamps(t)|;
    forall i | 0 <= i < |b| ensures b[i].txid != u[0].txid {
      assert Stamps(b)[i] == Stamps(t)[i] && t[i] == u[i + 1];
    }
  }

  lemma LastEntry(rest: seq<Entry>, e: Entry)
    requires Chronological(rest + [e])
    ensures FieldsOf(rest + [e], e.txid) == e.fields && FieldsOf(TakeLast(rest + [e], LIMIT), e.txid) == e.fields
  {
    var all := rest + [e];
    var t := TakeLast(all, LIMIT);
    OnlyIndex(all, |rest|);
    assert t[|t| - 1] == e && Chronological(t);
    OnlyIndex(t, |t| - 1);
  }

  /** One transaction with a field, as many others as the store holds, then the first again without that field. */
  lemma EvictedFieldIsLost(calls: seq<SaveCall>, again: SaveCall, field: string)
    requires ClockTicks(calls + [again]) && |calls| == LIMIT + 1 && DistinctSaves(calls)
    requires again.txid == calls[0].txid && field !in again.metadata
    requires field in calls[0].metadata && calls[0].metadata[field].Some?
    ensures var all := calls + [again];
            field in FieldsOf(RunUnbounded(all), again.txid) && field !in FieldsOf(Run(all), again.txid) &&
            Loses(all, LIMIT + 1) && !AgreesAfter(all, |all|)
  {
    var all := calls + [again];
    assert all[..|calls|] == calls && all[..|all|] == all;
    PrefixTicks(all, |calls|);
    DistinctSavesKept(calls);
    BoundedIsNewest(calls);
    var (b, u) := (Run(calls), RunUnbounded(calls));
    OldestEvicted(b, u);
    SaveIsAppend(b, again);
    SaveIsAppend(u, again);
    hide Run;
    hide RunUnbounded;
    assert FieldsOf(u, again.txid) == u[0].fields by { OnlyIndex(u, 0); }
    LastEntry(Without(u, again.txid), Fresh(u, again));
    LastEntry(Without(b, again.txid), Fresh(b, again));
  }

  function SomeTxid(n: nat): (t: string)
    ensures t != ""
  {
    seq(n + 1, i => 'x')
  }

  /** A first save with a destination, and `n` saves of other transactions after it. */
  function SomeSaves(n: nat): (calls: seq<SaveCall>)
    ensures |calls| == n + 1
  {
    seq(n + 1, i requires 0 <= i <= n =>
      SaveCall(SomeTxid(i), if i == 0 then map["destination" := Some("invoice")] else map[], i))
  }

  /** Such a run: the destination shown for the first transaction is gone once it is saved again. */
  lemma SomeRunLosesDestination()
    ensures var calls := SomeSaves(250) + [SaveCall(SomeTxid(0), map[], 251)];
            ClockTicks(calls) && "destination" in FieldsOf(RunUnbounded(calls), SomeTxid(0)) &&
            "destination" !in FieldsOf(Run(calls), SomeTxid(0)) && !AgreesAfter(calls, |calls|)
  {
    var (saves, again) := (SomeSaves(LIMIT), SaveCall(SomeTxid(0), map[], LIMIT + 1));
    forall i, j | 0 <= i < j < |saves| ensures saves[i].txid != saves[j].txid {
      assert |SomeTxid(i)| < |SomeTxid(j)|;
    }
    EvictedFieldIsLost(saves, again, "destination");
  }

  // ---------- The value of a stored field ----------

  function Lookup(fields: map<string, string>, field: string): Option<string> {
    if field in fields then Some(fields[field]) else None
  }

  /** What the last save of the transaction naming the field gave it, `undefined` giving none; forgotten whenever the
    * transaction is not on file.
    */
  function LastGiven(calls: seq<SaveCall>, txid: string, field: string): Option<string> {
    if calls == [] then None
    else
      var (init, c) := (calls[..|calls| - 1], calls[|calls| - 1]);
      if c.txid == txid then if field in c.metadata then c.metadata[field] else LastGiven(init, txid, field)
      else if Has(Run(calls), txid) then LastGiven(init, txid, field)
      else None
  }

  lemma {:induction false} Found(s: seq<Entry>, e: Entry)
    requires e in s && forall x <- s :: x.txid == e.txid ==> x == e
    ensures Has(s, e.txid) && FieldsOf(s, e.txid) == e.fields
  {
    var i :| 0 <= i < |s| && s[i] == e;
    assert IndexOf(s, e.txid) <= i;
  }

  lemma FoundIn(s: seq<Entry>, txid: string) returns (e: Entry)
    requires Has(s, txid)
    ensures e in s && e.txid == txid && FieldsOf(s, txid) == e.fields
  {
    e := s[IndexOf(s, txid)];
  }

  lemma OneEach(s: seq<Entry>, e: Entry)
    requires Chronological(s) && e in s
    ensures forall x <- s :: x.txid == e.txid ==> x == e
  {
    forall x <- s | x.txid == e.txid ensures x == e {
      var i :| 0 <= i < |s| && s[i] == e;
      var j :| 0 <= j < |s| && s[j] == x;
      assert i == j;
    }
  }

  lemma {:induction false} WithoutWithin(store: seq<Entry>, txid: string)
    ensures forall e <- Without(store, txid) :: e in store
  {
  }

  /** A save sets the fields it names, and leaves those of the other transactions as they are while these are on
   * file. */
  lemma FieldsAfterSave(store: seq<Entry>, c: SaveCall, txid: string)
    requires Chronological(store) && Before(store, c.now) && c.txid != ""
    ensures var after := Save(store, c);
            if txid == c.txid then Has(after, txid) && FieldsOf(after, txid) == Merge(FieldsOf(store, txid), c.metadata)
            else Has(after, txid) ==> FieldsOf(after, txid) == FieldsOf(store, txid)
  {
    SaveIsAppend(store, c);
    WithoutWithin(store, c.txid);
    var (rest, newest, after) := (Without(store, c.txid), Fresh(store, c), Save(store, c));
    var moved := rest + [newest];
    assert after[|after| - 1] == newest && forall e <- after :: e in moved;
    hide Save;
    hide SaveUnbounded;
    hide Without;
    hide Fresh;
    hide Merge;
    hide TakeLast;
    if txid == c.txid {
      OneEach(moved, newest);
      Found(after, newest);
    } else if Has(after, txid) {
      var e := FoundIn(after, txid);
      OneEach(store, e);
      Found(store, e);
    }
  }

  /** After any run a field on file has the value of the last save that named it while the transaction stayed on
   * file, and
    * is missing if that save gave none.
    */
  lemma {:induction false} FieldOnFile(calls: seq<SaveCall>, txid: string, field: string)
    requires ClockTicks(calls) && txid != ""
    ensures Lookup(FieldsOf(Run(calls), txid), field) == LastGiven(calls, txid, field)
  {
    if calls != [] {
      var (init, c) := (calls[..|calls| - 1], calls[|calls| - 1]);
      FieldOnFile(init, txid, field);
      BoundedIsNewest(init);
      assert Run(calls) == if c.txid == "" then Run(init) else Save(Run(init), c);
      hide Save;
      hide Run;
      hide RunUnbounded;
      hide Merge;
      MergeLookup(FieldsOf(Run(init), txid), c.metadata, field);
      assert !Has(Run(calls), txid) ==> FieldsOf(Run(calls), txid) == map[];
      assert !Has(Run(init), txid) ==> FieldsOf(Run(init), txid) == map[];
      hide FieldsOf;
      hide Has;
      if c.txid != "" { FieldsAfterSave(Run(init), c, txid); }
    }
  }

  lemma MergeLookup(fields: map<string, string>, metadata: Metadata, field: string)
    ensures Lookup(Merge(fields, metadata), field) ==
            if field in metadata then metadata[field] else Lookup(fields, field)
  {
  }

  // ---------- The store as it runs ----------

  class Storage {
    var stored: seq<Entry>  // the JSON dictionary under `transactionActivityMetadata`

    constructor ()
      ensures stored == Run([])
    {
      stored := [];
    }

    method SaveTransactionActivityMetadata(txid: string, metadata: Metadata, now: int)
      modifies this
      ensures stored == Save(old(stored), SaveCall(txid, metadata, now))
    {
      if txid == "" {
        return;
      }
      var entry := Entry(txid, Merge(FieldsOf(stored, txid), metadata), now);
      var entries := BySavedAt(Put(stored, entry));
      if |entries| > LIMIT {
        entries := entries[|entries| - LIMIT..];
      }
      stored := entries;
    }
  }
}
