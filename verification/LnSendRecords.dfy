/** The store behind the Lightning-send leg: one record per swap, in the swap repository.
  *
  * A record has an origin half, written once when the send is funded, and a live half that the
  * swap manager refills on every pass. Each operation on the repository is atomic here.
  */
module LnSendRecords {
  import opened Options
  import Strings = Text

  /** A profile entry is any JSON value; only texts matter here. */
  datatype Entry = Text(text: string) | Other(id: int)

  datatype Record = Record(
    rfqId: string, kind: string, lockupAddress: string, amount: Option<int>, createdAt: int,
    profile: map<string, Entry>, fundingArkTxid: Option<string>,
    state: string, updatedAt: int, refundArkTxid: Option<string>, lockupSpendArkTxids: Option<seq<string>>)

  /** The swap as the manager drives it. */
  datatype LiveSwap = LiveSwap(
    rfqId: string, kind: string, createdAt: int, state: string, updatedAt: int,
    refundArkTxid: Option<string>, lockupSpendArkTxids: Option<seq<string>>)

  /** What the swap package provides. `rebuild` reads the lockup's contract row; `None` is its failure. */
  datatype Package = Package(
    update: (Record, LiveSwap) -> Record, retain: (Record, int) -> bool, terminal: string -> bool,
    rebuild: Record -> Option<LiveSwap>)

  const FUNDING_TXID := "funding_txid"
  const SPEND_TXID := "spend_txid"
  const SEND := "lightning_send"
  const REFUNDED := "refunded"

  // ---------- What a record says ----------

  function ProfileTxid(r: Record, key: string): Option<string> {
    if key in r.profile && r.profile[key].Text? && r.profile[key].text != "" then Some(r.profile[key].text) else None
  }

  function FundingTxidOf(r: Record): Option<string> {
    if r.fundingArkTxid.Some? then r.fundingArkTxid else ProfileTxid(r, FUNDING_TXID)
  }

  /** The ending the manager stamped, if any. */
  function StampedTxid(r: Record): Option<string> {
    if r.refundArkTxid.Some? then r.refundArkTxid
    else if r.lockupSpendArkTxids.Some? && r.lockupSpendArkTxids.value != [] then Some(r.lockupSpendArkTxids.value[0])
    else None
  }

  function SpendTxidOf(r: Record): Option<string> {
    if StampedTxid(r).Some? then StampedTxid(r) else ProfileTxid(r, SPEND_TXID)
  }

  /** `spendTxidOf(record)` as a condition: an empty txid counts as none. */
  predicate HasEnding(r: Record) { SpendTxidOf(r).Some? && SpendTxidOf(r).value != "" }

  // ---------- The repository ----------

  function Find(records: seq<Record>, rfqId: string): (r: Option<Record>)
    ensures r.Some? ==> r.value.rfqId == rfqId && r.value in records
    ensures r.None? ==> forall x <- records :: x.rfqId != rfqId
  {
    if records == [] then None else if records[0].rfqId == rfqId then Some(records[0]) else Find(records[1..], rfqId)
  }

  /** Saving replaces the record with that id, or adds one. */
  function Saved(records: seq<Record>, r: Record): seq<Record> {
    if records == [] then [r]
    else if records[0].rfqId == r.rfqId then [r] + records[1..]
    else [records[0]] + Saved(records[1..], r)
  }

  function Ids(records: seq<Record>): seq<string> { seq(|records|, i requires 0 <= i < |records| => records[i].rfqId) }

  function AfterSave(p: Package, records: seq<Record>, swap: LiveSwap): seq<Record> {
    var prior := Find(records, swap.rfqId);
    if prior.None? then records else Saved(records, p.update(prior.value, swap))
  }

  function WithSpend(r: Record, spendTxid: string): Record { r.(profile := r.profile[SPEND_TXID := Text(spendTxid)]) }

  function AfterSpend(records: seq<Record>, rfqId: string, spendTxid: string): seq<Record> {
    var r := Find(records, rfqId);
    if r.None? || HasEnding(r.value) then records else Saved(records, WithSpend(r.value, spendTxid))
  }

  // ---------- Runs ----------

  datatype Op = SaveSwapUpdate(swap: LiveSwap) | RecordSpendTxid(rfqId: string, spendTxid: string)

  function Step(p: Package, records: seq<Record>, op: Op): seq<Record> {
    match op
    case SaveSwapUpdate(swap) => AfterSave(p, records, swap)
    case RecordSpendTxid(rfqId, spendTxid) => AfterSpend(records, rfqId, spendTxid)
  }

  function Run(p: Package, records: seq<Record>, ops: seq<Op>): seq<Record>
    decreases ops
  {
    if ops == [] then records else Run(p, Step(p, records, ops[0]), ops[1..])
  }

  /** What the package promises of an update: the origin half is carried through, profile included, the
    * lockup's spends are the live swap's, and the refund is the stored or the live one.
    */
  ghost predicate KeepsOrigin(p: Package) {
    forall r: Record, s: LiveSwap | r.rfqId == s.rfqId :: IsUpdate(r, s, p.update(r, s))
  }

  predicate IsUpdate(prior: Record, swap: LiveSwap, next: Record) {
    SameOrigin(prior, next) && next.profile == prior.profile && next.state == swap.state &&
    next.lockupSpendArkTxids == swap.lockupSpendArkTxids &&
    (next.refundArkTxid == swap.refundArkTxid || next.refundArkTxid == prior.refundArkTxid)
  }

  /** The origin half agrees, the profile but for the recorded spend. */
  predicate SameOrigin(a: Record, b: Record) {
    a.rfqId == b.rfqId && a.kind == b.kind && a.lockupAddress == b.lockupAddress && a.amount == b.amount &&
    a.createdAt == b.createdAt && a.fundingArkTxid == b.fundingArkTxid &&
    a.profile - {SPEND_TXID} == b.profile - {SPEND_TXID}
  }

  lemma {:induction false} FindSaved(records: seq<Record>, r: Record, id: string)
    ensures Find(Saved(records, r), id) == if id == r.rfqId then Some(r) else Find(records, id)
  {
    if records != [] && records[0].rfqId != r.rfqId {
      FindSaved(records[1..], r, id);
      assert Saved(records, r)[1..] == Saved(records[1..], r);
    } else if records != [] {
      assert Saved(records, r)[1..] == records[1..];
    }
  }

  lemma {:induction false} IdsSaved(records: seq<Record>, r: Record)
    requires Find(records, r.rfqId).Some?
    ensures Ids(Saved(records, r)) == Ids(records)
  {
    if records[0].rfqId == r.rfqId {
      assert forall i :: 0 < i < |records| ==> Saved(records, r)[i] == records[i];
    } else {
      IdsSaved(records[1..], r);
      var rest := Saved(records[1..], r);
      assert forall i :: 0 <= i < |rest| ==> Ids(rest)[i] == rest[i].rfqId;
      assert forall i :: 0 <= i < |records| - 1 ==> Ids(records[1..])[i] == records[i + 1].rfqId;
    }
  }

  /** One operation writes no unknown swap and changes no origin. */
  lemma {:induction false} StepKeeps(p: Package, records: seq<Record>, op: Op, id: string)
    requires KeepsOrigin(p)
    ensures var (before, after) := (Find(records, id), Find(Step(p, records, op), id));
            Ids(Step(p, records, op)) == Ids(records) &&
            (before.Some? <==> after.Some?) && (before.Some? ==> SameOrigin(before.value, after.value))
  {
    hide Ids;
    hide Find;
    hide Saved;
    var target := if op.SaveSwapUpdate? then op.swap.rfqId else op.rfqId;
    var found := Find(records, target);
    if found.Some? && Step(p, records, op) != records {
      var r := found.value;
      var next := if op.SaveSwapUpdate? then p.update(r, op.swap) else WithSpend(r, op.spendTxid);
      assert op.SaveSwapUpdate? ==> IsUpdate(r, op.swap, next);
      assert SameOrigin(r, next);
      FindSaved(records, next, id);
      IdsSaved(records, next);
    }
  }

  /** What an operation writes: an update the package's answer for a stored swap, an observation its txid into a stored
    * record without an ending. Every other record, and the rest of this one, is as it was.
    */
  lemma {:induction false} StepWrites(p: Package, records: seq<Record>, op: Op, id: string)
    requires op.SaveSwapUpdate? ==> forall r: Record :: p.update(r, op.swap).rfqId == r.rfqId
    ensures var (before, after) := (Find(records, id), Find(Step(p, records, op), id));
            if before.None? then after == None
            else if op.SaveSwapUpdate? then
              after == if id == op.swap.rfqId then Some(p.update(before.value, op.swap)) else before
            else if id != op.rfqId || HasEnding(before.value) then after == before
            else after.Some? && after.value.(profile := before.value.profile) == before.value &&
                 after.value.profile == before.value.profile[SPEND_TXID := Text(op.spendTxid)]
  {
    hide Saved;
    hide HasEnding;
    var target := if op.SaveSwapUpdate? then op.swap.rfqId else op.rfqId;
    var found := Find(records, target);
    hide Find;
    if found.Some? {
      FindSaved(records, if op.SaveSwapUpdate? then p.update(found.value, op.swap)
                         else WithSpend(found.value, op.spendTxid), id);
    }
  }

  lemma SameFunding(a: Record, b: Record)
    requires SameOrigin(a, b)
    ensures FundingTxidOf(a) == FundingTxidOf(b)
  {
    assert FUNDING_TXID != SPEND_TXID by { assert FUNDING_TXID[0] != SPEND_TXID[0]; }
    assert FUNDING_TXID in a.profile <==> FUNDING_TXID in a.profile - {SPEND_TXID};
    assert FUNDING_TXID in b.profile <==> FUNDING_TXID in b.profile - {SPEND_TXID};
    if FUNDING_TXID in a.profile {
      assert (a.profile - {SPEND_TXID})[FUNDING_TXID] == a.profile[FUNDING_TXID];
      assert (b.profile - {SPEND_TXID})[FUNDING_TXID] == b.profile[FUNDING_TXID];
    }
  }

  /** Over any run the stored swaps are the same swaps: none is added or lost, and each keeps its origin,
    * its funding txid with it.
    */
  lemma {:induction false} RunKeeps(p: Package, records: seq<Record>, ops: seq<Op>, id: string)
    requires KeepsOrigin(p)
    ensures var (before, after) := (Find(records, id), Find(Run(p, records, ops), id));
            Ids(Run(p, records, ops)) == Ids(records) &&
            (before.Some? <==> after.Some?) &&
            (before.Some? ==>
              SameOrigin(before.value, after.value) && FundingTxidOf(before.value) == FundingTxidOf(after.value))
    decreases ops
  {
    hide KeepsOrigin;
    hide SameOrigin;
    hide FundingTxidOf;
    hide Ids;
    hide Find;
    hide Step;
    if ops == [] {
      if Find(records, id).Some? { OriginOfItself(Find(records, id).value); }
    } else {
      var next := Step(p, records, ops[0]);
      StepKeeps(p, records, ops[0], id);
      RunKeeps(p, next, ops[1..], id);
      if Find(records, id).Some? {
        var (a, b, c) := (Find(records, id).value, Find(next, id).value, Find(Run(p, records, ops), id).value);
        SameFunding(a, b);
        OriginOfOrigin(a, b, c);
      }
    }
  }

  lemma OriginOfItself(r: Record)
    ensures SameOrigin(r, r)
  {
  }

  lemma OriginOfOrigin(a: Record, b: Record, c: Record)
    requires SameOrigin(a, b) && SameOrigin(b, c)
    ensures SameOrigin(a, c)
  {
  }

  // ---------- The recorded spend ----------

  /** The manager's stamp is there but empty: it hides the recorded spend without counting as an ending. */
  predicate Shadowed(r: Record) { StampedTxid(r) == Some("") }

  /** The operation replaces the spend recorded for `id`. */
  predicate Overwrites(records: seq<Record>, op: Op, id: string) {
    op.RecordSpendTxid? && op.rfqId == id && Find(records, id).Some? &&
    Shadowed(Find(records, id).value) && ProfileTxid(Find(records, id).value, SPEND_TXID) != Some(op.spendTxid)
  }

  function Recorded(records: seq<Record>, id: string): Option<string> {
    var r := Find(records, id);
    if r.None? then None else ProfileTxid(r.value, SPEND_TXID)
  }

  lemma ProfileAfterSpend(r: Record, spendTxid: string)
    ensures ProfileTxid(WithSpend(r, spendTxid), SPEND_TXID) == if spendTxid == "" then None else Some(spendTxid)
  {
  }

  /** A spend recorded once survives an operation exactly when the operation is no re-observation of
    * another txid on a shadowed record.
    */
  lemma StepKeepsSpend(p: Package, records: seq<Record>, op: Op, id: string)
    requires KeepsOrigin(p) && Recorded(records, id).Some?
    ensures Recorded(Step(p, records, op), id) == Recorded(records, id) <==> !Overwrites(records, op, id)
  {
    hide Ids;
    hide Find;
    hide Saved;
    var target := if op.SaveSwapUpdate? then op.swap.rfqId else op.rfqId;
    var found := Find(records, target);
    if found.Some? {
      var r := found.value;
      var next := if op.SaveSwapUpdate? then p.update(r, op.swap) else WithSpend(r, op.spendTxid);
      assert op.SaveSwapUpdate? ==> IsUpdate(r, op.swap, next);
      FindSaved(records, next, id);
      if op.RecordSpendTxid? { ProfileAfterSpend(r, op.spendTxid); }
      hide WithSpend;
      hide SameOrigin;
    }
  }

  /** In every state of the run the recorded spend of `id` is the same. */
  ghost predicate KeptThroughout(p: Package, records: seq<Record>, ops: seq<Op>, id: string, spend: Option<string>)
    decreases ops
  {
    Recorded(records, id) == spend && (ops != [] ==> KeptThroughout(p, Step(p, records, ops[0]), ops[1..], id, spend))
  }

  ghost predicate NeverOverwritten(p: Package, records: seq<Record>, ops: seq<Op>, id: string)
    decreases ops
  {
    ops != [] ==> !Overwrites(records, ops[0], id) && NeverOverwritten(p, Step(p, records, ops[0]), ops[1..], id)
  }

  lemma {:induction false} KeptIffNeverOverwritten(p: Package, records: seq<Record>, ops: seq<Op>, id: string)
    requires KeepsOrigin(p) && Recorded(records, id).Some?
    ensures KeptThroughout(p, records, ops, id, Recorded(records, id)) <==> NeverOverwritten(p, records, ops, id)
    decreases ops
  {
    hide KeepsOrigin;
    hide Recorded;
    hide Overwrites;
    hide Step;
    if ops != [] {
      StepKeepsSpend(p, records, ops[0], id);
      var next := Step(p, records, ops[0]);
      if Recorded(next, id) == Recorded(records, id) {
        KeptIffNeverOverwritten(p, next, ops[1..], id);
      }
    }
  }

  /** A stamp that is there is a real txid. */
  predicate CleanStamps(refund: Option<string>, spends: Option<seq<string>>) {
    refund != Some("") && (spends.Some? && spends.value != [] ==> spends.value[0] != "")
  }

  ghost predicate CleanOps(ops: seq<Op>) {
    forall op <- ops :: op.SaveSwapUpdate? ==> CleanStamps(op.swap.refundArkTxid, op.swap.lockupSpendArkTxids)
  }

  ghost predicate CleanRecord(records: seq<Record>, id: string) {
    Find(records, id).Some? ==>
      CleanStamps(Find(records, id).value.refundArkTxid, Find(records, id).value.lockupSpendArkTxids)
  }

  lemma StepKeepsClean(p: Package, records: seq<Record>, op: Op, id: string)
    requires KeepsOrigin(p) && CleanRecord(records, id) && CleanOps([op])
    ensures CleanRecord(Step(p, records, op), id) && !Overwrites(records, op, id)
  {
    hide Ids;
    hide Find;
    hide Saved;
    assert op in [op];
    var target := if op.SaveSwapUpdate? then op.swap.rfqId else op.rfqId;
    var found := Find(records, target);
    if found.Some? {
      var r := found.value;
      var next := if op.SaveSwapUpdate? then p.update(r, op.swap) else WithSpend(r, op.spendTxid);
      assert op.SaveSwapUpdate? ==> IsUpdate(r, op.swap, next);
      FindSaved(records, next, id);
      hide SameOrigin;
    }
  }

  /** With no empty txid ever stamped, a recorded spend never changes once set, whatever the run. */
  lemma {:induction false} RecordedSpendIsFinal(p: Package, records: seq<Record>, ops: seq<Op>, id: string)
    requires KeepsOrigin(p) && CleanRecord(records, id) && CleanOps(ops)
    ensures NeverOverwritten(p, records, ops, id)
    ensures Recorded(records, id).Some? ==> KeptThroughout(p, records, ops, id, Recorded(records, id))
    decreases ops
  {
    hide KeepsOrigin;
    hide CleanRecord;
    hide Overwrites;
    hide Recorded;
    hide Step;
    if ops != [] {
      assert ops[0] in ops && forall op <- ops[1..] :: op in ops;
      StepKeepsClean(p, records, ops[0], id);
      RecordedSpendIsFinal(p, Step(p, records, ops[0]), ops[1..], id);
    }
    if Recorded(records, id).Some? { KeptIffNeverOverwritten(p, records, ops, id); }
  }

  /** The plain update: the live half replaced by what the manager hands over. */
  function Refill(prior: Record, swap: LiveSwap): Record {
    prior.(state := swap.state, updatedAt := swap.updatedAt,
           refundArkTxid := swap.refundArkTxid, lockupSpendArkTxids := swap.lockupSpendArkTxids)
  }

  /** From a fresh record: an observation, a pass that stamps an empty refund txid, a second observation. The first is
    * overwritten, by a package that keeps its promise.
    */
  lemma {:induction false} EmptyStampIsOverwritten(p: Package, r: Record, swap: LiveSwap)
    requires p.update == Refill && r.profile == map[] && StampedTxid(r).None?
    requires swap.rfqId == r.rfqId && swap.refundArkTxid == Some("")
    ensures KeepsOrigin(p)
    ensures var (first, second) := (RecordSpendTxid(r.rfqId, "first"), RecordSpendTxid(r.rfqId, "second"));
            Recorded(Run(p, [r], [first]), r.rfqId) == Some("first") &&
            Recorded(Run(p, [r], [first, SaveSwapUpdate(swap), second]), r.rfqId) == Some("second")
  {
    var (id, r1) := (r.rfqId, WithSpend(r, "first"));
    var r2 := Refill(r1, swap);
    var r3 := WithSpend(r2, "second");
    var (first, pass, second) := (RecordSpendTxid(id, "first"), SaveSwapUpdate(swap), RecordSpendTxid(id, "second"));
    assert Step(p, [r], first) == [r1] && Step(p, [r1], pass) == [r2] && Step(p, [r2], second) == [r3];
    RunOfThree(p, [r], first, pass, second);
  }

  lemma {:induction false} RunOfThree(p: Package, records: seq<Record>, a: Op, b: Op, c: Op)
    ensures Run(p, records, [a]) == Step(p, records, a)
    ensures Run(p, records, [a, b, c]) == Step(p, Step(p, Step(p, records, a), b), c)
  {
    hide Step;
    assert [a, b, c][1..] == [b, c] && [b, c][1..] == [c] && [a][1..] == [] && [c][1..] == [];
    var (r1, r2) := (Step(p, records, a), Step(p, Step(p, records, a), b));
    assert Run(p, records, [a, b, c]) == Run(p, r1, [b, c]) == Run(p, r2, [c]);
  }

  /** A first observation is what the record then answers with; a record that has an ending is left alone. */
  lemma {:induction false} FirstObservationStands(p: Package, records: seq<Record>, id: string, spendTxid: string)
    requires Find(records, id).Some? && spendTxid != ""
    ensures var (r, next) := (Find(records, id).value, Step(p, records, RecordSpendTxid(id, spendTxid)));
            if HasEnding(r) then next == records
            else Find(next, id).Some? && Recorded(next, id) == Some(spendTxid) &&
                 (HasEnding(Find(next, id).value) <==> !Shadowed(r)) &&
                 (!Shadowed(r) ==> SpendTxidOf(Find(next, id).value) == Some(spendTxid))
  {
    var r := Find(records, id).value;
    FindSaved(records, WithSpend(r, spendTxid), id);
    ProfileAfterSpend(r, spendTxid);
    hide Find;
    hide Saved;
  }

  // ---------- What the history reads ----------

  datatype View = View(
    rfqId: string, fundingTxid: string, state: string, amount: int, createdAt: int, spendTxid: Option<string>)

  function ViewOf(r: Record): Option<View> {
    var funding := FundingTxidOf(r);
    if funding.None? || funding.value == "" then None
    else Some(View(r.rfqId, funding.value, r.state, r.amount.GetOr(0), r.createdAt, SpendTxidOf(r)))
  }

  /** What a view says of its record, and which records have one. */
  lemma ViewSays(r: Record)
    ensures var (v, funding) := (ViewOf(r), FundingTxidOf(r));
            (v.Some? <==> funding.Some? && funding.value != "") &&
            (v.Some? ==>
              v.value.rfqId == r.rfqId && v.value.state == r.state && v.value.createdAt == r.createdAt &&
              v.value.fundingTxid == funding.value &&
              (if r.amount.Some? then v.value.amount == r.amount.value else v.value.amount == 0))
  {
  }

  /** Which transaction a view names as the send's funding: the record's own field, else a text the profile holds. */
  lemma FundingIs(r: Record)
    ensures r.fundingArkTxid.Some? ==> FundingTxidOf(r) == r.fundingArkTxid
    ensures r.fundingArkTxid.None? ==>
              forall t :: FundingTxidOf(r) == Some(t) <==>
                          t != "" && "funding_txid" in r.profile && r.profile["funding_txid"] == Text(t)
  {
  }

  /** And as its end: the refund the manager stamped, else the first spend it stamped, else the one recorded here. */
  lemma SpendIs(r: Record)
    ensures r.refundArkTxid.Some? ==> SpendTxidOf(r) == r.refundArkTxid
    ensures r.refundArkTxid.None? && r.lockupSpendArkTxids.Some? && r.lockupSpendArkTxids.value != [] ==>
              SpendTxidOf(r) == Some(r.lockupSpendArkTxids.value[0])
    ensures r.refundArkTxid.None? && (r.lockupSpendArkTxids.None? || r.lockupSpendArkTxids.value == []) ==>
              forall t :: SpendTxidOf(r) == Some(t) <==>
                          t != "" && "spend_txid" in r.profile && r.profile["spend_txid"] == Text(t)
  {
  }

  function Views(records: seq<Record>): seq<View> {
    if records == [] then []
    else
      var first := if records[0].kind == SEND then ViewOf(records[0]) else None;
      (if first.Some? then [first.value] else []) + Views(records[1..])
  }

  ghost predicate DistinctIds(records: seq<Record>) {
    forall i, j :: 0 <= i < j < |records| ==> records[i].rfqId != records[j].rfqId
  }

  ghost predicate DistinctViews(views: seq<View>) {
    forall i, j :: 0 <= i < j < |views| ==> views[i].rfqId != views[j].rfqId
  }

  /** Every view is that of a stored send. */
  lemma {:induction false} ViewsOfRecords(records: seq<Record>, v: View)
    ensures v in Views(records) <==> exists r :: r in records && r.kind == SEND && ViewOf(r) == Some(v)
  {
    if records != [] {
      ViewsOfRecords(records[1..], v);
      if r :| r in records && r.kind == SEND && ViewOf(r) == Some(v) {
        assert r == records[0] || r in records[1..];
      }
    }
  }

  /** The views are in the order of their records. */
  lemma {:induction false} ViewsInOrder(a: seq<Record>, b: seq<Record>)
    ensures Views(a + b) == Views(a) + Views(b)
  {
    hide ViewOf;
    if a == [] {
      assert a + b == b;
    } else {
      assert (a + b)[0] == a[0] && (a + b)[1..] == a[1..] + b;
      ViewsInOrder(a[1..], b);
    }
  }

  /** One view a swap at most, so the history never sees two sends under one rfq id. */
  lemma {:induction false} ViewsDistinct(records: seq<Record>)
    requires DistinctIds(records)
    ensures DistinctViews(Views(records))
  {
    if records != [] {
      var rest := Views(records[1..]);
      ViewsDistinct(records[1..]);
      forall v | v in rest ensures v.rfqId != records[0].rfqId {
        ViewsOfRecords(records[1..], v);
      }
      var views := Views(records);
      assert views == rest || (views[1..] == rest && views[0].rfqId == records[0].rfqId);
      hide Views;
      hide ViewOf;
      if views != rest {
        forall i, j | 0 <= i < j < |views| ensures views[i].rfqId != views[j].rfqId {
          assert views[j] == rest[j - 1];
          if i > 0 { assert views[i] == rest[i - 1]; }
        }
      }
    }
  }

  // ---------- What the grouping reads ----------

  datatype Input = Input(rfqId: string, kind: string, state: string, txids: seq<string>)

  /** The recorded spend is named for a send that came back, unless it is named already. */
  function WithRecordedSpend(records: seq<Record>, input: Input): Input {
    if input.kind != SEND || input.state != REFUNDED then input
    else
      var spendTxid := Recorded(records, input.rfqId);
      if spendTxid.None? || spendTxid.value in input.txids then input
      else input.(txids := input.txids + [spendTxid.value])
  }

  function ActivityInputs(records: seq<Record>, inputs: seq<Input>): seq<Input> {
    seq(|inputs|, i requires 0 <= i < |inputs| => WithRecordedSpend(records, inputs[i]))
  }

  /** Same swaps in the same order, the given txids first and in order; at most one is added, only to a
    * refunded send with a spend on record, and never one that is there already.
    */
  lemma ActivityInputsAdd(records: seq<Record>, inputs: seq<Input>)
    ensures |ActivityInputs(records, inputs)| == |inputs|
    ensures forall i :: 0 <= i < |inputs| ==>
              var (given, got) := (inputs[i], ActivityInputs(records, inputs)[i]);
              got == given.(txids := got.txids) && given.txids <= got.txids && |got.txids| <= |given.txids| + 1 &&
              (Strings.Distinct(given.txids) ==> Strings.Distinct(got.txids)) &&
              (|got.txids| > |given.txids| <==>
                 given.kind == SEND && given.state == REFUNDED && Recorded(records, given.rfqId).Some? &&
                 Recorded(records, given.rfqId).value !in given.txids) &&
              (|got.txids| > |given.txids| ==> Recorded(records, given.rfqId) == Some(got.txids[|given.txids|]))
  {
  }

  // ---------- Restoring ----------

  /** What restoring keeps on file: everything but sends past their retention. */
  predicate Stays(p: Package, nowSeconds: int, r: Record) { r.kind != SEND || p.retain(r, nowSeconds) }

  function Retained(p: Package, nowSeconds: int, records: seq<Record>): seq<Record> {
    if records == [] then []
    else (if Stays(p, nowSeconds, records[0]) then [records[0]] else []) + Retained(p, nowSeconds, records[1..])
  }

  /** A retained send that has not ended and can be rebuilt is one to drive. */
  function Rebuilt(p: Package, nowSeconds: int, r: Record): seq<LiveSwap> {
    if p.retain(r, nowSeconds) && !p.terminal(r.state) && p.rebuild(r).Some? then [p.rebuild(r).value] else []
  }

  function Restored(p: Package, nowSeconds: int, sends: seq<Record>): seq<LiveSwap> {
    if sends == [] then [] else Rebuilt(p, nowSeconds, sends[0]) + Restored(p, nowSeconds, sends[1..])
  }

  function Sends(records: seq<Record>): seq<Record> {
    if records == [] then [] else (if records[0].kind == SEND then [records[0]] else []) + Sends(records[1..])
  }

  /** Removing by id. */
  function Without(records: seq<Record>, ids: set<string>): seq<Record> {
    if records == [] then []
    else (if records[0].rfqId in ids then [] else [records[0]]) + Without(records[1..], ids)
  }

  lemma {:induction false} SendsAre(records: seq<Record>, r: Record)
    ensures r in Sends(records) <==> r in records && r.kind == SEND
  {
    if records != [] {
      SendsAre(records[1..], r);
      assert r in records <==> r == records[0] || r in records[1..];
    }
  }

  lemma {:induction false} WithoutNone(records: seq<Record>)
    ensures Without(records, {}) == records
  {
    if records != [] { WithoutNone(records[1..]); }
  }

  lemma {:induction false} WithoutMore(records: seq<Record>, ids: set<string>, id: string)
    ensures Without(Without(records, ids), {id}) == Without(records, ids + {id})
  {
    if records != [] {
      WithoutMore(records[1..], ids, id);
      var rest := Without(records[1..], ids);
      if records[0].rfqId !in ids {
        assert Without(records, ids) == [records[0]] + rest;
        assert ([records[0]] + rest)[1..] == rest;
      } else {
        assert Without(records, ids) == rest;
      }
    }
  }

  lemma {:induction false} WithoutTheDead(p: Package, nowSeconds: int, records: seq<Record>, ids: set<string>)
    requires forall r <- records :: r.rfqId in ids <==> !Stays(p, nowSeconds, r)
    ensures Without(records, ids) == Retained(p, nowSeconds, records)
  {
    if records != [] {
      assert records[0] in records && forall r <- records[1..] :: r in records;
      WithoutTheDead(p, nowSeconds, records[1..], ids);
    }
  }

  /** The swaps to drive are the rebuilds of the sends that are retained, have not ended and can be rebuilt. */
  lemma {:induction false} RestoredAre(p: Package, nowSeconds: int, records: seq<Record>, swap: LiveSwap)
    ensures swap in Restored(p, nowSeconds, Sends(records)) <==>
            exists r :: r in records && r.kind == "lightning_send" && p.retain(r, nowSeconds) &&
                        !p.terminal(r.state) && p.rebuild(r) == Some(swap)
  {
    if records != [] {
      RestoredAre(p, nowSeconds, records[1..], swap);
      if records[0].kind == SEND {
        assert Sends(records)[1..] == Sends(records[1..]);
      } else {
        assert [] + Sends(records[1..]) == Sends(records[1..]);
      }
      if r :| r in records && r.kind == "lightning_send" && p.retain(r, nowSeconds) &&
              !p.terminal(r.state) && p.rebuild(r) == Some(swap) {
        assert r == records[0] || r in records[1..];
      }
    }
  }

  /** They are in the order of their records, and as many. */
  lemma {:induction false} RestoredInOrder(p: Package, nowSeconds: int, a: seq<Record>, b: seq<Record>)
    ensures Restored(p, nowSeconds, a + b) == Restored(p, nowSeconds, a) + Restored(p, nowSeconds, b)
  {
    hide Rebuilt;
    if a == [] {
      assert a + b == b;
    } else {
      assert (a + b)[0] == a[0] && (a + b)[1..] == a[1..] + b;
      RestoredInOrder(p, nowSeconds, a[1..], b);
    }
  }

  lemma SameIdSameRecord(records: seq<Record>, a: Record, b: Record)
    requires DistinctIds(records) && a in records && b in records && a.rfqId == b.rfqId
    ensures a == b
  {
  }

  lemma {:induction false} RetainedAre(p: Package, nowSeconds: int, records: seq<Record>, r: Record)
    ensures r in Retained(p, nowSeconds, records) <==> r in records && Stays(p, nowSeconds, r)
  {
    if records != [] {
      RetainedAre(p, nowSeconds, records[1..], r);
      assert r in records <==> r == records[0] || r in records[1..];
    }
  }

  /** Pruning drops nothing but sends past their retention: any other swap is still found, as it was. */
  lemma {:induction false} RetainedKeeps(p: Package, nowSeconds: int, records: seq<Record>, id: string)
    requires DistinctIds(records)
    ensures Find(Retained(p, nowSeconds, records), id) ==
            var r := Find(records, id);
            if r.Some? && Stays(p, nowSeconds, r.value) then r else None
  {
    var (before, after) := (Find(records, id), Find(Retained(p, nowSeconds, records), id));
    if after.Some? {
      RetainedAre(p, nowSeconds, records, after.value);
      SameIdSameRecord(records, before.value, after.value);
    } else if before.Some? {
      RetainedAre(p, nowSeconds, records, before.value);
    }
  }

  lemma {:induction false} SavedIds(records: seq<Record>, r: Record, x: Record)
    ensures x in Saved(records, r) ==> x == r || x in records
  {
    if records != [] {
      SavedIds(records[1..], r, x);
    }
  }

  lemma {:induction false} SavedDistinct(records: seq<Record>, r: Record)
    requires DistinctIds(records)
    ensures DistinctIds(Saved(records, r))
  {
    if records != [] && records[0].rfqId != r.rfqId {
      var rest := Saved(records[1..], r);
      SavedDistinct(records[1..], r);
      forall x | x in rest ensures x.rfqId != records[0].rfqId {
        SavedIds(records[1..], r, x);
      }
    }
  }

  // ---------- The store ----------

  class Store {
    const package: Package
    var records: seq<Record>

    ghost predicate Valid() reads this { DistinctIds(records) }

    constructor (package: Package)
      ensures Valid() && this.package == package && records == []
    {
      this.package := package;
      records := [];
    }

    method ReadRecord(rfqId: string) returns (found: Option<Record>)
      ensures found == Find(records, rfqId)
    {
      for i := 0 to |records|
        invariant Find(records, rfqId) == Find(records[i..], rfqId)
      {
        if records[i].rfqId == rfqId { return Some(records[i]); }
      }
      found := None;
    }

    method SaveRecord(record: Record)
      requires Valid()
      modifies this
      ensures Valid() && records == Saved(old(records), record)
    {
      SavedDistinct(records, record);
      records := Saved(records, record);
    }

    method SaveSwapUpdate(swap: LiveSwap)
      requires Valid()
      modifies this
      ensures Valid() && records == AfterSave(package, old(records), swap)
    {
      var prior := ReadRecord(swap.rfqId);
      if prior.Some? { SaveRecord(package.update(prior.value, swap)); }
    }

    method RecordSpendTxid(rfqId: string, spendTxid: string)
      requires Valid()
      modifies this
      ensures Valid() && records == AfterSpend(old(records), rfqId, spendTxid)
    {
      var record := ReadRecord(rfqId);
      if record.None? || HasEnding(record.value) { return; }
      SaveRecord(WithSpend(record.value, spendTxid));
    }

    method RemoveRfqSwap(rfqId: string)
      modifies this
      ensures records == Without(old(records), {rfqId})
    {
      records := Without(records, {rfqId});
    }

    /** Prunes on the way through; a send that cannot be rebuilt is skipped, not deleted. */
    method RestoreLnSendSwaps(nowSeconds: int) returns (live: seq<LiveSwap>)
      requires Valid()
      modifies this
      ensures records == Retained(package, nowSeconds, old(records))
      ensures live == Restored(package, nowSeconds, Sends(old(records)))
    {
      hide Sends;
      hide Restored;
      hide Without;
      hide Dead;
      hide DistinctIds;
      var sends := Sends(records);
      live := [];
      ghost var dead: set<string> := {};
      WithoutNone(records);
      DeadStart(package, nowSeconds, sends);
      for i := 0 to |sends|
        invariant records == Without(old(records), dead)
        invariant dead == Dead(package, nowSeconds, sends[..i])
        invariant live + Restored(package, nowSeconds, sends[i..]) == Restored(package, nowSeconds, sends)
      {
        var record := sends[i];
        RestoreStep(package, nowSeconds, sends, i, live);
        if !package.retain(record, nowSeconds) {
          WithoutMore(old(records), dead, record.rfqId);
          RemoveRfqSwap(record.rfqId);
          dead := dead + {record.rfqId};
          continue;
        }
        if package.terminal(record.state) { continue; }
        var rebuilt := package.rebuild(record);
        if rebuilt.Some? { live := live + [rebuilt.value]; }
      }
      DeadAre(package, nowSeconds, old(records), dead);
      WithoutTheDead(package, nowSeconds, old(records), dead);
    }
  }

  /** The ids pruned among `sends`. */
  ghost function Dead(p: Package, nowSeconds: int, sends: seq<Record>): set<string> {
    set r | r in sends && !p.retain(r, nowSeconds) :: r.rfqId
  }

  lemma {:induction false} DeadStart(p: Package, nowSeconds: int, sends: seq<Record>)
    ensures Dead(p, nowSeconds, sends[..0]) == {} && sends[0..] == sends && sends[..|sends|] == sends
    ensures Restored(p, nowSeconds, sends[|sends|..]) == []
  {
  }

  lemma {:induction false} RestoreStep(p: Package, nowSeconds: int, sends: seq<Record>, i: nat, live: seq<LiveSwap>)
    requires i < |sends|
    ensures var r := sends[i];
            Dead(p, nowSeconds, sends[..i + 1]) ==
              Dead(p, nowSeconds, sends[..i]) + (if p.retain(r, nowSeconds) then {} else {r.rfqId}) &&
            live + Restored(p, nowSeconds, sends[i..]) ==
              (live + Rebuilt(p, nowSeconds, r)) + Restored(p, nowSeconds, sends[i + 1..])
    ensures live + [] == live
  {
  }

  lemma {:induction false} DeadAre(p: Package, nowSeconds: int, records: seq<Record>, dead: set<string>)
    requires DistinctIds(records) && dead == Dead(p, nowSeconds, Sends(records))
    ensures forall r <- records :: r.rfqId in dead <==> !Stays(p, nowSeconds, r)
  {
    forall r | r in records ensures r.rfqId in dead <==> !Stays(p, nowSeconds, r) {
      SendsAre(records, r);
      if r.rfqId in dead {
        var x :| x in Sends(records) && !p.retain(x, nowSeconds) && x.rfqId == r.rfqId;
        SendsAre(records, x);
        SameIdSameRecord(records, x, r);
      }
    }
  }
}
