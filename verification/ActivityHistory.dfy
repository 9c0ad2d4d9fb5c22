/** The history list: the SDK's activity groups, and the stored Lightning sends no group covers. */
module ActivityHistory {
  import opened Options
  import opened Text
  import opened TransactionHistory
  import LnSendRecords

  type Send = LnSendRecords.View

  /** How a resolver tagged a group. */
  datatype Intent = Intent(
    kind: string, name: Option<string>, outcome: Option<string>, swapKind: Option<string>,
    rfqId: Option<string>, swapId: Option<string>)

  datatype Activity = Activity(id: string, intent: Option<Intent>, txs: seq<ArkTx>, amount: int)

  datatype AssetSwap = AssetSwap(id: string, fundingTxid: string)

  /** What the rows are built from beside the activities. `assetRow` is the asset-swap row builder. */
  datatype Sources = Sources(
    swaps: seq<AssetSwap>, lnSends: seq<Send>, metadata: map<string, Metadata>,
    assetRow: (AssetSwap, seq<Tx>) -> Tx, terminal: string -> bool, engine: Engine)

  const ASSET_SWAP_ACTIVITY_KIND := "swap"
  const LIGHTNING_SEND := "lightning_send"
  const LIGHTNING_RECEIVE := "lightning_receive"

  function Lookup(metadata: map<string, Metadata>, txid: string): Option<Metadata> {
    if txid in metadata then Some(metadata[txid]) else None
  }

  function GraftMetadata(tx: Tx, metadata: Option<Metadata>): Tx {
    if metadata.None? then tx
    else
      var m := metadata.value;
      tx.(assetAction := if m.assetAction.Some? then m.assetAction else tx.assetAction,
          destination := if m.destination.Some? then m.destination else tx.destination,
          lnSend := if m.lnSend.Some? then m.lnSend else tx.lnSend,
          networkFee := if m.networkFee.Some? then m.networkFee else tx.networkFee)
  }

  function SwapKindOf(a: Activity): Option<string> { if a.intent.Some? then a.intent.value.swapKind else None }

  function RfqIdOf(a: Activity): Option<string> { if a.intent.Some? then a.intent.value.rfqId else None }

  function SwapIdOf(a: Activity): Option<string> {
    if a.intent.Some? && a.intent.value.kind == ASSET_SWAP_ACTIVITY_KIND then a.intent.value.swapId else None
  }

  // ---------- Collapsed rows ----------

  function FindDirection(txs: seq<ArkTx>, d: Direction): (tx: Option<ArkTx>)
    ensures tx.Some? <==> exists t :: t in txs && t.direction == d
    ensures tx.Some? ==> tx.value in txs && tx.value.direction == d
  {
    if txs == [] then None else if txs[0].direction == d then Some(txs[0]) else FindDirection(txs[1..], d)
  }

  function FindTxid(txs: seq<ArkTx>, txid: string): Option<ArkTx> {
    if txs == [] then None else if TxidOf(txs[0]) == txid then Some(txs[0]) else FindTxid(txs[1..], txid)
  }

  function FindFunding(sends: seq<Send>, txid: string): Option<Send> {
    if sends == [] then None else if sends[0].fundingTxid == txid then Some(sends[0]) else FindFunding(sends[1..], txid)
  }

  function FindSwap(swaps: seq<AssetSwap>, id: string): Option<AssetSwap> {
    if swaps == [] then None else if swaps[0].id == id then Some(swaps[0]) else FindSwap(swaps[1..], id)
  }

  function LightningSendTx(a: Activity, s: Sources): Option<Tx> {
    var funding := FindDirection(a.txs, SENT);
    if funding.None? then None
    else
      var fundingTxid := TxidOf(funding.value);
      var record := FindFunding(s.lnSends, fundingTxid);
      Some(ArkTransactionToTx(funding.value, Lookup(s.metadata, fundingTxid)).(
        amount := Abs(a.amount), kind := if a.amount > 0 then "received" else "sent",
        lnSwap := Some(LnSwap(
          if a.intent.Some? then a.intent.value.name else None, if a.intent.Some? then a.intent.value.outcome else None,
          Some(fundingTxid), if record.Some? then record.value.spendTxid else None)),
        historyKey := a.id))
  }

  function LightningReceiveTx(a: Activity, s: Sources): Option<Tx> {
    var claim := FindDirection(a.txs, RECEIVED);
    if claim.None? then None
    else
      Some(ArkTransactionToTx(claim.value, Lookup(s.metadata, TxidOf(claim.value))).(
        amount := Abs(a.amount), kind := if a.amount < 0 then "sent" else "received",
        lnSwap := Some(LnSwap(
          if a.intent.Some? then a.intent.value.name else None,
          if a.intent.Some? then a.intent.value.outcome else None, None, None)),
        historyKey := a.id))
  }

  function AssetSwapOf(a: Activity, s: Sources): Option<AssetSwap> {
    var swapId := SwapIdOf(a).GetOr("");
    if swapId == "" then None else FindSwap(s.swaps, swapId)
  }

  function AssetSwapTx(a: Activity, swap: AssetSwap, s: Sources): Tx {
    var members := seq(|a.txs|, i requires 0 <= i < |a.txs| => ArkTransactionToTx(a.txs[i], None));
    var funding := FindTxid(a.txs, swap.fundingTxid);
    var metadata := if funding.Some? then Lookup(s.metadata, TxidOf(funding.value)) else None;
    GraftMetadata(s.assetRow(swap, members), metadata).(historyKey := a.id)
  }

  /** The one row a group is collapsed to, for the groups that are. */
  function Collapsed(a: Activity, s: Sources): (row: Option<Tx>)
    ensures row.Some? ==> row.value.historyKey == a.id
  {
    if SwapKindOf(a) == Some(LIGHTNING_SEND) && LightningSendTx(a, s).Some? then LightningSendTx(a, s)
    else if SwapKindOf(a) == Some(LIGHTNING_RECEIVE) && LightningReceiveTx(a, s).Some? then LightningReceiveTx(a, s)
    else if AssetSwapOf(a, s).Some? then Some(AssetSwapTx(a, AssetSwapOf(a, s).value, s))
    else None
  }

  // ---------- All rows ----------

  function MemberKey(a: Activity, tx: ArkTx): string { a.id + ":" + TxidOf(tx) }

  function MemberTx(a: Activity, tx: ArkTx, s: Sources): Tx {
    ArkTransactionToTx(tx, Lookup(s.metadata, TxidOf(tx))).(historyKey := MemberKey(a, tx))
  }

  function MemberRows(a: Activity, s: Sources): (rows: seq<Tx>)
    ensures |rows| == |a.txs|
  {
    seq(|a.txs|, i requires 0 <= i < |a.txs| => MemberTx(a, a.txs[i], s))
  }

  function RowsOf(a: Activity, s: Sources): seq<Tx> {
    if Collapsed(a, s).Some? then [Collapsed(a, s).value] else MemberRows(a, s)
  }

  function SendKey(rfqId: string): string { "swap:" + rfqId }

  function UngroupedLnSendTx(send: Send, s: Sources): Tx {
    GraftMetadata(
      Tx(send.amount, "sent", "", send.fundingTxid, "", send.createdAt, None, false, true, None, None, None, None, None,
         Some(LnSwap(Some("Lightning send"), Some(if s.terminal(send.state) then send.state else "pending"),
                     Some(send.fundingTxid), send.spendTxid)),
         SendKey(send.rfqId)),
      Lookup(s.metadata, send.fundingTxid))
  }

  /** The rfq ids some group carries. */
  function Grouped(activities: seq<Activity>): set<string> {
    set a | a in activities && RfqIdOf(a).Some? :: RfqIdOf(a).value
  }

  function GroupRows(activities: seq<Activity>, s: Sources): seq<Tx> {
    if activities == [] then [] else RowsOf(activities[0], s) + GroupRows(activities[1..], s)
  }

  function SendRows(sends: seq<Send>, grouped: set<string>, s: Sources): seq<Tx> {
    if sends == [] then []
    else (if sends[0].rfqId in grouped then [] else [UngroupedLnSendTx(sends[0], s)]) + SendRows(sends[1..], grouped, s)
  }

  function Rows(activities: seq<Activity>, s: Sources): seq<Tx> {
    GroupRows(activities, s) + SendRows(s.lnSends, Grouped(activities), s)
  }

  lemma {:induction false} GroupStep(activities: seq<Activity>, i: nat, s: Sources, rows: seq<Tx>)
    requires i < |activities|
    ensures rows + GroupRows(activities[i..], s) ==
            (rows + RowsOf(activities[i], s)) + GroupRows(activities[i + 1..], s)
  {
  }

  lemma MemberStep(a: Activity, j: nat, s: Sources)
    requires j < |a.txs|
    ensures MemberRows(a, s)[..j + 1] == MemberRows(a, s)[..j] + [MemberTx(a, a.txs[j], s)]
  {
  }

  lemma {:induction false} SendStep(sends: seq<Send>, i: nat, grouped: set<string>, s: Sources, rows: seq<Tx>)
    requires i < |sends|
    ensures var row := if sends[i].rfqId in grouped then [] else [UngroupedLnSendTx(sends[i], s)];
            rows + SendRows(sends[i..], grouped, s) == (rows + row) + SendRows(sends[i + 1..], grouped, s)
  {
  }

  lemma {:induction false} RowsEnds(activities: seq<Activity>, s: Sources, grouped: set<string>)
    ensures activities[0..] == activities && GroupRows(activities[|activities|..], s) == []
    ensures s.lnSends[0..] == s.lnSends && SendRows(s.lnSends[|s.lnSends|..], grouped, s) == []
  {
  }

  /** The rows of one group, pushed one by one. */
  method PushRowsOf(a: Activity, s: Sources, before: seq<Tx>) returns (rows: seq<Tx>)
    ensures rows == before + RowsOf(a, s)
  {
    hide Collapsed;
    hide MemberTx;
    hide MemberRows;
    rows := before;
    var row := Collapsed(a, s);
    if row.Some? { return rows + [row.value]; }
    for j := 0 to |a.txs|
      invariant rows == before + MemberRows(a, s)[..j]
    {
      MemberStep(a, j, s);
      rows := rows + [MemberTx(a, a.txs[j], s)];
    }
    assert MemberRows(a, s)[..|a.txs|] == MemberRows(a, s);
  }

  method ActivitiesToTxs(activities: seq<Activity>, s: Sources) returns (txs: seq<Tx>)
    ensures txs == SortLocalTxs(s.engine, Rows(activities, s))
  {
    hide RowsOf;
    hide GroupRows;
    hide SendRows;
    hide UngroupedLnSendTx;
    hide SortLocalTxs;
    hide Grouped;
    var rows: seq<Tx> := [];
    var grouped := Grouped(activities);
    RowsEnds(activities, s, grouped);
    for i := 0 to |activities|
      invariant rows + GroupRows(activities[i..], s) == GroupRows(activities, s)
    {
      GroupStep(activities, i, s, rows);
      rows := PushRowsOf(activities[i], s, rows);
    }
    ghost var groups := rows;
    assert groups == GroupRows(activities, s);
    for i := 0 to |s.lnSends|
      invariant rows + SendRows(s.lnSends[i..], grouped, s) == groups + SendRows(s.lnSends, grouped, s)
    {
      SendStep(s.lnSends, i, grouped, s, rows);
      if s.lnSends[i].rfqId !in grouped {
        rows := rows + [UngroupedLnSendTx(s.lnSends[i], s)];
      }
    }
    assert rows + [] == rows;
    txs := SortLocalTxs(s.engine, rows);
  }

  // ---------- Row keys ----------

  function Keys(rows: seq<Tx>): seq<string> { seq(|rows|, i requires 0 <= i < |rows| => rows[i].historyKey) }

  function MemberKeys(a: Activity): (keys: seq<string>)
    ensures |keys| == |a.txs|
  {
    seq(|a.txs|, i requires 0 <= i < |a.txs| => MemberKey(a, a.txs[i]))
  }

  /** A collapsed group has its own id as key, any other group one key a member. */
  function KeysOf(a: Activity, s: Sources): seq<string> { if Collapsed(a, s).Some? then [a.id] else MemberKeys(a) }

  function KeyGroups(activities: seq<Activity>, s: Sources): seq<seq<string>> {
    seq(|activities|, i requires 0 <= i < |activities| => KeysOf(activities[i], s))
  }

  function SendKeys(sends: seq<Send>, grouped: set<string>): seq<string> {
    if sends == [] then []
    else (if sends[0].rfqId in grouped then [] else [SendKey(sends[0].rfqId)]) + SendKeys(sends[1..], grouped)
  }

  function Flatten(ss: seq<seq<string>>): seq<string> { if ss == [] then [] else ss[0] + Flatten(ss[1..]) }

  lemma KeysAppend(a: seq<Tx>, b: seq<Tx>)
    ensures Keys(a + b) == Keys(a) + Keys(b)
  {
  }

  lemma KeysOfRows(a: Activity, s: Sources)
    ensures Keys(RowsOf(a, s)) == KeysOf(a, s)
  {
  }

  lemma {:induction false} GroupKeys(activities: seq<Activity>, s: Sources)
    ensures Keys(GroupRows(activities, s)) == Flatten(KeyGroups(activities, s))
  {
    hide RowsOf;
    hide KeysOf;
    if activities != [] {
      KeysOfRows(activities[0], s);
      GroupKeys(activities[1..], s);
      KeysAppend(RowsOf(activities[0], s), GroupRows(activities[1..], s));
      hide Keys;
      assert KeyGroups(activities, s)[1..] == KeyGroups(activities[1..], s);
    }
  }

  lemma {:induction false} UngroupedKeys(sends: seq<Send>, grouped: set<string>, s: Sources)
    ensures Keys(SendRows(sends, grouped, s)) == SendKeys(sends, grouped)
  {
    if sends != [] {
      UngroupedKeys(sends[1..], grouped, s);
      var first := if sends[0].rfqId in grouped then [] else [UngroupedLnSendTx(sends[0], s)];
      KeysAppend(first, SendRows(sends[1..], grouped, s));
      assert Keys(first) == if sends[0].rfqId in grouped then [] else [SendKey(sends[0].rfqId)];
    }
  }

  /** One row a collapsed group, one a member of any other, and one a stored send whose rfq id no group
    * carries: these are the keys, in row order.
    */
  lemma RowKeys(activities: seq<Activity>, s: Sources)
    ensures Keys(Rows(activities, s)) == Flatten(KeyGroups(activities, s)) + SendKeys(s.lnSends, Grouped(activities))
  {
    hide GroupRows;
    hide SendRows;
    hide Grouped;
    hide SendKeys;
    hide Flatten;
    hide KeyGroups;
    GroupKeys(activities, s);
    UngroupedKeys(s.lnSends, Grouped(activities), s);
    KeysAppend(GroupRows(activities, s), SendRows(s.lnSends, Grouped(activities), s));
  }

  // ---------- When keys are distinct ----------

  ghost predicate Disjoint(a: seq<string>, b: seq<string>) { forall x <- a :: x !in b }

  lemma DistinctAppend(a: seq<string>, b: seq<string>)
    ensures Distinct(a + b) <==> Distinct(a) && Distinct(b) && Disjoint(a, b)
  {
    var s := a + b;
    if Distinct(s) {
      forall i, j | 0 <= i < j < |b| ensures b[i] != b[j] {
        assert s[|a| + i] != s[|a| + j];
      }
      forall i, j | 0 <= i < |a| && 0 <= j < |b| ensures a[i] != b[j] {
        assert s[i] != s[|a| + j];
      }
      forall i, j | 0 <= i < j < |a| ensures a[i] != a[j] {
        assert s[i] != s[j];
      }
    } else {
      var i, j :| 0 <= i < j < |s| && s[i] == s[j];
      if i < |a| <= j { assert a[i] in a && b[j - |a|] in b; }
    }
  }

  lemma {:induction false} InFlatten(ss: seq<seq<string>>, x: string)
    ensures x in Flatten(ss) <==> exists i :: 0 <= i < |ss| && x in ss[i]
  {
    if ss != [] {
      InFlatten(ss[1..], x);
      if i :| 0 <= i < |ss| && x in ss[i] {
        assert i > 0 ==> x in ss[1..][i - 1];
      }
    }
  }

  ghost predicate AllDistinct(ss: seq<seq<string>>) { forall i :: 0 <= i < |ss| ==> Distinct(ss[i]) }

  ghost predicate AllDisjoint(ss: seq<seq<string>>) { forall i, j :: 0 <= i < j < |ss| ==> Disjoint(ss[i], ss[j]) }

  lemma DisjointFromRest(ss: seq<seq<string>>)
    requires ss != []
    ensures Disjoint(ss[0], Flatten(ss[1..])) <==> forall j :: 0 < j < |ss| ==> Disjoint(ss[0], ss[j])
  {
    hide Flatten;
    if Disjoint(ss[0], Flatten(ss[1..])) {
      forall j | 0 < j < |ss| ensures Disjoint(ss[0], ss[j]) {
        forall x | x in ss[0] ensures x !in ss[j] {
          InFlatten(ss[1..], x);
          assert ss[1..][j - 1] == ss[j];
        }
      }
    } else {
      var x :| x in ss[0] && x in Flatten(ss[1..]);
      InFlatten(ss[1..], x);
    }
  }

  lemma {:induction false} FlattenDistinct(ss: seq<seq<string>>)
    ensures Distinct(Flatten(ss)) <==> AllDistinct(ss) && AllDisjoint(ss)
  {
    if ss != [] {
      hide Distinct;
      hide Disjoint;
      var rest := ss[1..];
      FlattenDistinct(rest);
      DistinctAppend(ss[0], Flatten(rest));
      DisjointFromRest(ss);
      assert Flatten(ss) == ss[0] + Flatten(rest);
      hide Flatten;
      SplitFirst(ss);
    }
  }

  lemma SplitFirst(ss: seq<seq<string>>)
    requires ss != []
    ensures AllDistinct(ss) <==> Distinct(ss[0]) && AllDistinct(ss[1..])
    ensures AllDisjoint(ss) <==> (forall j :: 0 < j < |ss| ==> Disjoint(ss[0], ss[j])) && AllDisjoint(ss[1..])
  {
  }

  /** The last colon splits a member key. */
  lemma MemberKeysDiffer(a: string, t: string, b: string, u: string)
    requires ':' !in t && ':' !in u && a + ":" + t == b + ":" + u
    ensures a == b && t == u
  {
    var k := a + ":" + t;
    assert k[|a|] == ':' && k[|b|] == ':';
    if |a| == |b| {
      assert k[..|a|] == a && k[..|a|] == b && k[|a| + 1..] == t && k[|a| + 1..] == u;
    }
  }

  ghost predicate DistinctActivities(activities: seq<Activity>) {
    forall i, j :: 0 <= i < j < |activities| ==> activities[i].id != activities[j].id
  }

  ghost predicate ColonFree(activities: seq<Activity>) { forall a <- activities, tx <- a.txs :: ':' !in TxidOf(tx) }

  ghost predicate DistinctTxids(a: Activity) {
    forall i, j :: 0 <= i < j < |a.txs| ==> TxidOf(a.txs[i]) != TxidOf(a.txs[j])
  }

  lemma MembersDistinct(a: Activity)
    requires forall tx <- a.txs :: ':' !in TxidOf(tx)
    ensures Distinct(MemberKeys(a)) <==> DistinctTxids(a)
  {
    var keys := MemberKeys(a);
    forall i, j | 0 <= i < j < |a.txs| ensures keys[i] == keys[j] <==> TxidOf(a.txs[i]) == TxidOf(a.txs[j]) {
      if keys[i] == keys[j] { MemberKeysDiffer(a.id, TxidOf(a.txs[i]), a.id, TxidOf(a.txs[j])); }
    }
    hide TxidOf;
    if Distinct(keys) {
      forall i, j | 0 <= i < j < |a.txs| ensures TxidOf(a.txs[i]) != TxidOf(a.txs[j]) {
        assert keys[i] != keys[j];
      }
    }
  }

  lemma MembersDisjoint(a: Activity, b: Activity)
    requires a.id != b.id
    requires (forall tx <- a.txs :: ':' !in TxidOf(tx)) && (forall tx <- b.txs :: ':' !in TxidOf(tx))
    ensures Disjoint(MemberKeys(a), MemberKeys(b))
  {
    forall i, j | 0 <= i < |a.txs| && 0 <= j < |b.txs| ensures MemberKeys(a)[i] != MemberKeys(b)[j] {
      if MemberKeys(a)[i] == MemberKeys(b)[j] {
        MemberKeysDiffer(a.id, TxidOf(a.txs[i]), b.id, TxidOf(b.txs[j]));
      }
    }
  }

  /** A collapsed group's id is no member key of another group. */
  ghost predicate IdsApart(activities: seq<Activity>, s: Sources) {
    forall a <- activities, b <- activities :: Collapsed(a, s).Some? && Collapsed(b, s).None? ==> a.id !in MemberKeys(b)
  }

  ghost predicate MembersApart(activities: seq<Activity>, s: Sources) {
    forall a <- activities :: Collapsed(a, s).None? ==> DistinctTxids(a)
  }

  /** The key of a send no group covers is no group's key. */
  ghost predicate SendsApart(activities: seq<Activity>, s: Sources) {
    forall send <- s.lnSends, a <- activities :: send.rfqId !in Grouped(activities) ==>
      SendKey(send.rfqId) !in KeysOf(a, s)
  }

  lemma GroupsDistinct(activities: seq<Activity>, s: Sources)
    requires DistinctActivities(activities) && ColonFree(activities)
    ensures Distinct(Flatten(KeyGroups(activities, s))) <==> MembersApart(activities, s) && IdsApart(activities, s)
  {
    hide Collapsed;
    hide MemberKeys;
    hide Flatten;
    hide TxidOf;
    hide DistinctTxids;
    var ss := KeyGroups(activities, s);
    FlattenDistinct(ss);
    forall i | 0 <= i < |activities|
      ensures Distinct(ss[i]) <==> Collapsed(activities[i], s).Some? || DistinctTxids(activities[i])
    {
      MembersDistinct(activities[i]);
    }
    forall i, j | 0 <= i < j < |activities|
      ensures Disjoint(ss[i], ss[j]) <==>
              PairApart(activities[i], activities[j], s) && PairApart(activities[j], activities[i], s)
    {
      PairDisjoint(activities[i], activities[j], s);
    }
    hide Distinct;
    hide Disjoint;
    hide KeysOf;
    assert AllDistinct(ss) <==> MembersApart(activities, s) by { InMembers(activities, ss, s); }
    assert AllDisjoint(ss) <==> IdsApart(activities, s) by { InPairs(activities, ss, s); }
  }

  predicate PairApart(a: Activity, b: Activity, s: Sources) {
    Collapsed(a, s).Some? && Collapsed(b, s).None? ==> a.id !in MemberKeys(b)
  }

  lemma PairDisjoint(a: Activity, b: Activity, s: Sources)
    requires a.id != b.id
    requires (forall tx <- a.txs :: ':' !in TxidOf(tx)) && (forall tx <- b.txs :: ':' !in TxidOf(tx))
    ensures Disjoint(KeysOf(a, s), KeysOf(b, s)) <==> PairApart(a, b, s) && PairApart(b, a, s)
  {
    hide Collapsed;
    MembersDisjoint(a, b);
    hide MemberKeys;
    hide TxidOf;
  }

  lemma InMembers(activities: seq<Activity>, ss: seq<seq<string>>, s: Sources)
    requires |ss| == |activities|
    requires forall i :: 0 <= i < |ss| ==>
             (Distinct(ss[i]) <==> Collapsed(activities[i], s).Some? || DistinctTxids(activities[i]))
    ensures AllDistinct(ss) <==> MembersApart(activities, s)
  {
  }

  lemma InPairs(activities: seq<Activity>, ss: seq<seq<string>>, s: Sources)
    requires |ss| == |activities|
    requires forall i, j :: 0 <= i < j < |ss| ==>
               (Disjoint(ss[i], ss[j]) <==>
                PairApart(activities[i], activities[j], s) && PairApart(activities[j], activities[i], s))
    ensures AllDisjoint(ss) <==> IdsApart(activities, s)
  {
  }

  lemma {:induction false} InSendKeys(sends: seq<Send>, grouped: set<string>, x: string)
    ensures x in SendKeys(sends, grouped) <==>
            exists send :: send in sends && send.rfqId !in grouped && x == SendKey(send.rfqId)
  {
    if sends != [] {
      InSendKeys(sends[1..], grouped, x);
      if send :| send in sends && send.rfqId !in grouped && x == SendKey(send.rfqId) {
        assert send == sends[0] || send in sends[1..];
      }
    }
  }

  lemma SendKeyInjective(a: string, b: string)
    ensures SendKey(a) == SendKey(b) <==> a == b
  {
    assert SendKey(a)[5..] == a && SendKey(b)[5..] == b;
  }

  lemma {:induction false} SendKeysDistinct(sends: seq<Send>, grouped: set<string>)
    requires LnSendRecords.DistinctViews(sends)
    ensures Distinct(SendKeys(sends, grouped))
  {
    if sends != [] {
      var rest := sends[1..];
      SendKeysDistinct(rest, grouped);
      var first := if sends[0].rfqId in grouped then [] else [SendKey(sends[0].rfqId)];
      DistinctAppend(first, SendKeys(rest, grouped));
      InSendKeys(rest, grouped, SendKey(sends[0].rfqId));
      forall send | send in rest ensures SendKey(send.rfqId) != SendKey(sends[0].rfqId) {
        var k :| 0 <= k < |rest| && rest[k] == send;
        assert sends[k + 1] == send;
        SendKeyInjective(send.rfqId, sends[0].rfqId);
      }
    }
  }

  /** With distinct group ids, distinct stored sends and txids free of colons, every row has its own key
    * exactly when nothing clashes: no txid twice in one spread group, no collapsed id equal to a member key,
    * no key of an ungrouped send equal to a group's.
    */
  lemma KeysDistinctIff(activities: seq<Activity>, s: Sources)
    requires DistinctActivities(activities) && ColonFree(activities) && LnSendRecords.DistinctViews(s.lnSends)
    ensures Distinct(Keys(Rows(activities, s))) <==>
            MembersApart(activities, s) && IdsApart(activities, s) && SendsApart(activities, s)
  {
    hide KeysOf;
    hide Rows;
    hide Flatten;
    hide Keys;
    hide SendKeys;
    hide MembersApart;
    hide IdsApart;
    hide Grouped;
    hide SendKey;
    hide Distinct;
    var (groups, sends) := (Flatten(KeyGroups(activities, s)), SendKeys(s.lnSends, Grouped(activities)));
    RowKeys(activities, s);
    GroupsDistinct(activities, s);
    SendKeysDistinct(s.lnSends, Grouped(activities));
    DistinctAppend(groups, sends);
    SendsDisjoint(activities, s);
  }

  lemma SendsDisjoint(activities: seq<Activity>, s: Sources)
    ensures Disjoint(Flatten(KeyGroups(activities, s)), SendKeys(s.lnSends, Grouped(activities))) <==>
            SendsApart(activities, s)
  {
    hide KeysOf;
    hide Flatten;
    hide SendKeys;
    hide Grouped;
    hide SendKey;
    var (ss, sends) := (KeyGroups(activities, s), SendKeys(s.lnSends, Grouped(activities)));
    if SendsApart(activities, s) {
      forall x | x in Flatten(ss) ensures x !in sends {
        InFlatten(ss, x);
        var i :| 0 <= i < |ss| && x in ss[i];
        assert activities[i] in activities;
        InSendKeys(s.lnSends, Grouped(activities), x);
      }
    }
    if Disjoint(Flatten(ss), sends) {
      forall send, a | send in s.lnSends && a in activities && send.rfqId !in Grouped(activities)
        ensures SendKey(send.rfqId) !in KeysOf(a, s)
      {
        var x := SendKey(send.rfqId);
        var i :| 0 <= i < |activities| && activities[i] == a;
        assert ss[i] == KeysOf(a, s);
        InSendKeys(s.lnSends, Grouped(activities), x);
        InFlatten(ss, x);
      }
    }
  }

  /** How the resolvers name their groups: a collapsed group is `swap:` and a swap id without a colon, no
    * spread group is called `swap` or lists a transaction twice, and a group named after a stored send carries
    * that send.
    */
  ghost predicate Namespaced(activities: seq<Activity>, s: Sources) {
    (forall a <- activities ::
       if Collapsed(a, s).Some? then "swap:" <= a.id && ':' !in a.id[5..] else a.id != "swap" && DistinctTxids(a)) &&
    (forall send <- s.lnSends :: ':' !in send.rfqId) &&
    (forall send <- s.lnSends, a <- activities :: a.id == SendKey(send.rfqId) ==> RfqIdOf(a) == Some(send.rfqId))
  }

  lemma NoMemberKey(a: Activity, x: string)
    requires a.id != "swap" && ':' !in x && forall tx <- a.txs :: ':' !in TxidOf(tx)
    ensures SendKey(x) !in MemberKeys(a)
  {
    hide TxidOf;
    forall i | 0 <= i < |a.txs| ensures MemberKeys(a)[i] != SendKey(x) {
      if MemberKeys(a)[i] == SendKey(x) {
        assert SendKey(x) == "swap" + ":" + x;
        MemberKeysDiffer("swap", x, a.id, TxidOf(a.txs[i]));
      }
    }
  }

  /** With the resolvers' own ids the keys never clash. */
  lemma KeysDistinct(activities: seq<Activity>, s: Sources)
    requires DistinctActivities(activities) && ColonFree(activities) && LnSendRecords.DistinctViews(s.lnSends)
    requires Namespaced(activities, s)
    ensures Distinct(Keys(Rows(activities, s)))
  {
    hide Collapsed;
    hide MemberKeys;
    hide TxidOf;
    hide DistinctTxids;
    hide Rows;
    hide Keys;
    forall a, b | a in activities && b in activities && Collapsed(a, s).Some? && Collapsed(b, s).None?
      ensures a.id !in MemberKeys(b)
    {
      assert a.id == SendKey(a.id[5..]);
      NoMemberKey(b, a.id[5..]);
    }
    forall send, a | send in s.lnSends && a in activities && send.rfqId !in Grouped(activities)
      ensures SendKey(send.rfqId) !in KeysOf(a, s)
    {
      if Collapsed(a, s).None? { NoMemberKey(a, send.rfqId); }
    }
    KeysDistinctIff(activities, s);
  }

  /** Distinct ids alone are not enough: a collapsed group called `X:t` has the key of member `t` of group `X`. */
  lemma DistinctIdsCanClash(s: Sources, receive: Intent, tx: ArkTx)
    requires receive.swapKind == Some(LIGHTNING_RECEIVE) && tx.direction == RECEIVED
    requires s.lnSends == [] && ':' !in TxidOf(tx)
    ensures var activities := [Activity("X:" + TxidOf(tx), Some(receive), [tx], 1), Activity("X", None, [tx], 1)];
            DistinctActivities(activities) && ColonFree(activities) && !Distinct(Keys(Rows(activities, s)))
  {
    var a := Activity("X:" + TxidOf(tx), Some(receive), [tx], 1);
    var b := Activity("X", None, [tx], 1);
    assert LightningReceiveTx(a, s).Some? by { assert tx in a.txs && tx.direction == RECEIVED; }
    assert Collapsed(a, s).Some? && Collapsed(b, s).None?;
    hide Collapsed;
    hide TxidOf;
    hide Rows;
    hide Keys;
    hide Distinct;
    assert MemberKeys(b)[0] == "X" + ":" + TxidOf(tx);
    assert a.id == "X" + ":" + TxidOf(tx);
    var activities := [a, b];
    assert a in activities && b in activities && a.id in MemberKeys(b);
    assert DistinctActivities(activities) by { assert |a.id| > |b.id|; }
    KeysDistinctIff(activities, s);
  }

  // ---------- Nothing is dropped ----------

  lemma {:induction false} InGroupRows(activities: seq<Activity>, s: Sources, a: Activity, row: Tx)
    requires a in activities && row in RowsOf(a, s)
    ensures row in GroupRows(activities, s)
  {
    hide RowsOf;
    if activities[0] != a { InGroupRows(activities[1..], s, a, row); }
  }

  lemma {:induction false} InSendRows(sends: seq<Send>, grouped: set<string>, s: Sources, send: Send)
    requires send in sends && send.rfqId !in grouped
    ensures UngroupedLnSendTx(send, s) in SendRows(sends, grouped, s)
  {
    hide UngroupedLnSendTx;
    if sends[0] != send { InSendRows(sends[1..], grouped, s, send); }
  }

  lemma Listed(engine: Engine, rows: seq<Tx>, row: Tx)
    requires IsSort(engine) && row in rows
    ensures row in SortLocalTxs(engine, rows)
  {
    SortLocalTxsOrders(engine, rows);
    hide SortLocalTxs;
    assert row in multiset(rows);
    assert row in multiset(SortLocalTxs(engine, rows));
  }

  /** Every transaction of every group is listed: on its group's one row if there is one, on its own row otherwise. */
  lemma NothingDropped(activities: seq<Activity>, s: Sources, a: Activity, tx: ArkTx)
    requires IsSort(s.engine) && a in activities && tx in a.txs
    ensures var row := if Collapsed(a, s).Some? then Collapsed(a, s).value else MemberTx(a, tx, s);
            row in SortLocalTxs(s.engine, Rows(activities, s))
  {
    hide Collapsed;
    hide MemberTx;
    hide SortLocalTxs;
    var row := if Collapsed(a, s).Some? then Collapsed(a, s).value else MemberTx(a, tx, s);
    var j :| 0 <= j < |a.txs| && a.txs[j] == tx;
    assert MemberRows(a, s)[j] == MemberTx(a, tx, s);
    assert row in RowsOf(a, s);
    InGroupRows(activities, s, a, row);
    Listed(s.engine, Rows(activities, s), row);
  }

  /** Every stored send is listed on the row built from its record, unless a group carries it. */
  lemma NoSendDropped(activities: seq<Activity>, s: Sources, send: Send)
    requires IsSort(s.engine) && send in s.lnSends
    ensures UngroupedLnSendTx(send, s) in SortLocalTxs(s.engine, Rows(activities, s)) ||
            exists a :: a in activities && RfqIdOf(a) == Some(send.rfqId)
  {
    hide UngroupedLnSendTx;
    hide SortLocalTxs;
    if send.rfqId !in Grouped(activities) {
      InSendRows(s.lnSends, Grouped(activities), s, send);
      Listed(s.engine, Rows(activities, s), UngroupedLnSendTx(send, s));
    }
  }

  // ---------- What the rows say ----------

  lemma {:induction false} FirstOfDirection(txs: seq<ArkTx>, d: Direction, i: nat)
    requires i < |txs| && txs[i].direction == d && forall j :: 0 <= j < i ==> txs[j].direction != d
    ensures FindDirection(txs, d) == Some(txs[i])
  {
    if i > 0 {
      assert txs[0].direction != d;
      FirstOfDirection(txs[1..], d, i - 1);
    }
  }

  lemma {:induction false} FirstOfTxid(txs: seq<ArkTx>, txid: string, i: nat)
    requires i <= |txs| && (i < |txs| ==> TxidOf(txs[i]) == txid) && forall j :: 0 <= j < i ==> TxidOf(txs[j]) != txid
    ensures FindTxid(txs, txid) == if i < |txs| then Some(txs[i]) else None
  {
    if i > 0 {
      assert TxidOf(txs[0]) != txid;
      FirstOfTxid(txs[1..], txid, i - 1);
    }
  }

  lemma {:induction false} FirstOfFunding(sends: seq<Send>, txid: string, i: nat)
    requires i <= |sends| && (i < |sends| ==> sends[i].fundingTxid == txid)
    requires forall j :: 0 <= j < i ==> sends[j].fundingTxid != txid
    ensures FindFunding(sends, txid) == if i < |sends| then Some(sends[i]) else None
  {
    if i > 0 {
      assert sends[0].fundingTxid != txid;
      FirstOfFunding(sends[1..], txid, i - 1);
    }
  }

  lemma {:induction false} FirstOfSwap(swaps: seq<AssetSwap>, id: string, i: nat)
    requires i <= |swaps| && (i < |swaps| ==> swaps[i].id == id) && forall j :: 0 <= j < i ==> swaps[j].id != id
    ensures FindSwap(swaps, id) == if i < |swaps| then Some(swaps[i]) else None
  {
    if i > 0 {
      assert swaps[0].id != id;
      FirstOfSwap(swaps[1..], id, i - 1);
    }
  }

  ghost predicate Member(a: Activity, d: Direction, i: nat) {
    i < |a.txs| && a.txs[i].direction == d && forall j :: 0 <= j < i ==> a.txs[j].direction != d
  }

  /** But for what the group itself says, the row is that of the transaction. */
  predicate RowOfTx(row: Tx, tx: ArkTx, s: Sources) {
    var own := ArkTransactionToTx(tx, Lookup(s.metadata, TxidOf(tx)));
    own == row.(amount := own.amount, kind := own.kind, lnSwap := own.lnSwap, historyKey := own.historyKey)
  }

  /** A Lightning send is one row: that of its first sent transaction, with the group's net amount, name and outcome,
   * and
    * as second txid the spend of the first stored send this transaction funded.
    */
  lemma LightningSendRow(a: Activity, s: Sources, i: nat, k: nat)
    requires SwapKindOf(a) == Some("lightning_send") && Member(a, SENT, i)
    requires k <= |s.lnSends| && (k < |s.lnSends| ==> s.lnSends[k].fundingTxid == TxidOf(a.txs[i]))
    requires forall j :: 0 <= j < k ==> s.lnSends[j].fundingTxid != TxidOf(a.txs[i])
    ensures Collapsed(a, s).Some?
    ensures var row := Collapsed(a, s).value;
            RowOfTx(row, a.txs[i], s) && row.historyKey == a.id && row.amount >= 0 && SignedAmount(row) == a.amount &&
            (row.kind == "received" <==> a.amount > 0) && row.lnSwap.Some? &&
            row.lnSwap.value.fundingTxid == Some(TxidOf(a.txs[i])) &&
            row.lnSwap.value.spendTxid == (if k < |s.lnSends| then s.lnSends[k].spendTxid else None) &&
            row.lnSwap.value.name == (if a.intent.Some? then a.intent.value.name else None) &&
            row.lnSwap.value.outcome == (if a.intent.Some? then a.intent.value.outcome else None)
  {
    FirstOfDirection(a.txs, SENT, i);
    FirstOfFunding(s.lnSends, TxidOf(a.txs[i]), k);
    hide FindDirection;
    hide FindFunding;
    hide ArkTransactionToTx;
    hide Lookup;
    assert Collapsed(a, s) == LightningSendTx(a, s);
    NotBoth();
    hide Collapsed;
  }

  lemma NotBoth()
    ensures "sent" != "received" && LIGHTNING_SEND != LIGHTNING_RECEIVE
  {
    assert "sent"[0] != "received"[0];
    assert |LIGHTNING_SEND| != |LIGHTNING_RECEIVE|;
  }

  /** A Lightning receive is one row: that of its first received transaction, the claim, with the group's net amount,
   * name
    * and outcome, and with no funding txid.
    */
  lemma LightningReceiveRow(a: Activity, s: Sources, i: nat)
    requires SwapKindOf(a) == Some("lightning_receive") && Member(a, RECEIVED, i)
    ensures Collapsed(a, s).Some?
    ensures var row := Collapsed(a, s).value;
            RowOfTx(row, a.txs[i], s) && row.historyKey == a.id && row.amount >= 0 && SignedAmount(row) == a.amount &&
            (row.kind == "sent" <==> a.amount < 0) && row.lnSwap.Some? &&
            row.lnSwap.value.fundingTxid == None && row.lnSwap.value.spendTxid == None &&
            row.lnSwap.value.name == (if a.intent.Some? then a.intent.value.name else None) &&
            row.lnSwap.value.outcome == (if a.intent.Some? then a.intent.value.outcome else None)
  {
    FirstOfDirection(a.txs, RECEIVED, i);
    hide FindDirection;
    hide ArkTransactionToTx;
    hide Lookup;
    NotBoth();
    assert Collapsed(a, s) == LightningReceiveTx(a, s);
    hide Collapsed;
  }

  /** The facts saved for a transaction take the place of the row's own, one by one. */
  predicate Grafted(row: Tx, own: Tx, saved: Option<Metadata>) {
    var m := saved.GetOr(NO_METADATA);
    row.assetAction == (if m.assetAction.Some? then m.assetAction else own.assetAction) &&
    row.destination == (if m.destination.Some? then m.destination else own.destination) &&
    row.lnSend == (if m.lnSend.Some? then m.lnSend else own.lnSend) &&
    row.networkFee == (if m.networkFee.Some? then m.networkFee else own.networkFee) &&
    own == row.(assetAction := own.assetAction, destination := own.destination, lnSend := own.lnSend,
                networkFee := own.networkFee, historyKey := own.historyKey)
  }

  /** A group of a stored asset swap is one row: the builder's, given the members' rows, with the facts saved for the
   * member
    * that is the swap's funding transaction, if one is.
    */
  lemma AssetSwapRow(a: Activity, s: Sources, k: nat, i: nat, members: seq<Tx>)
    requires SwapIdOf(a).Some? && SwapIdOf(a).value != ""
    requires forall tx <- a.txs :: !(SwapKindOf(a) == Some("lightning_send") && tx.direction == SENT) &&
                                   !(SwapKindOf(a) == Some("lightning_receive") && tx.direction == RECEIVED)
    requires k < |s.swaps| && s.swaps[k].id == SwapIdOf(a).value
    requires forall j :: 0 <= j < k ==> s.swaps[j].id != SwapIdOf(a).value
    requires i <= |a.txs| && (i < |a.txs| ==> TxidOf(a.txs[i]) == s.swaps[k].fundingTxid)
    requires forall j :: 0 <= j < i ==> TxidOf(a.txs[j]) != s.swaps[k].fundingTxid
    requires |members| == |a.txs| && forall j :: 0 <= j < |members| ==> members[j] == ArkTransactionToTx(a.txs[j], None)
    ensures Collapsed(a, s).Some? && Collapsed(a, s).value.historyKey == a.id
    ensures Grafted(Collapsed(a, s).value, s.assetRow(s.swaps[k], members),
                    if i < |a.txs| then Lookup(s.metadata, s.swaps[k].fundingTxid) else None)
  {
    FirstOfSwap(s.swaps, SwapIdOf(a).value, k);
    FirstOfTxid(a.txs, s.swaps[k].fundingTxid, i);
    hide FindSwap;
    hide FindTxid;
    hide ArkTransactionToTx;
    hide Lookup;
    assert Collapsed(a, s) == Some(AssetSwapTx(a, s.swaps[k], s));
    hide Collapsed;
    assert members == seq(|a.txs|, j requires 0 <= j < |a.txs| => ArkTransactionToTx(a.txs[j], None));
  }

  /** Any other group has a row for each member: that of its own transaction. */
  lemma MemberRow(a: Activity, tx: ArkTx, s: Sources)
    ensures var row := MemberTx(a, tx, s);
            RowOfTx(row, tx, s) && row.historyKey == a.id + ":" + TxidOf(tx) && row.lnSwap == None &&
            (row.amount == tx.amount || row.amount == 0 - tx.amount) && row.amount >= 0 &&
            row.kind == (if tx.direction == SENT then "sent" else "received")
  {
    TransactionRow(tx, Lookup(s.metadata, TxidOf(tx)));
    hide ArkTransactionToTx;
    hide Lookup;
  }

  /** Which groups are collapsed. */
  lemma WhenCollapsed(a: Activity, s: Sources)
    ensures Collapsed(a, s).Some? <==>
            a.intent.Some? &&
            ((a.intent.value.swapKind == Some("lightning_send") && exists tx :: tx in a.txs && tx.direction == SENT) ||
             (a.intent.value.swapKind == Some("lightning_receive") &&
                exists tx :: tx in a.txs && tx.direction == RECEIVED) ||
             (a.intent.value.kind == "swap" && a.intent.value.swapId.Some? && a.intent.value.swapId.value != "" &&
                exists r :: r in s.swaps && r.id == a.intent.value.swapId.value))
  {
    if SwapIdOf(a).Some? { SwapFound(s.swaps, SwapIdOf(a).value); }
    hide FindDirection;
    hide FindSwap;
    hide ArkTransactionToTx;
    hide GraftMetadata;
    hide Lookup;
  }

  lemma {:induction false} SwapFound(swaps: seq<AssetSwap>, id: string)
    ensures FindSwap(swaps, id).Some? <==> exists r :: r in swaps && r.id == id
  {
    if swaps != [] && swaps[0].id != id {
      SwapFound(swaps[1..], id);
      if r :| r in swaps && r.id == id { assert r in swaps[1..]; }
    }
  }

  /** The row of a stored send: the amount out, when it was made, its funding and its spend, and as outcome its state if
    * that is an ending, else pending.
    */
  lemma StoredSendRow(send: Send, s: Sources)
    ensures var row := UngroupedLnSendTx(send, s);
            row.amount == send.amount && row.kind == "sent" && row.createdAt == send.createdAt &&
            row.redeemTxid == send.fundingTxid && row.boardingTxid == "" && row.roundTxid == "" &&
            row.explorable == None && row.settled && !row.preconfirmed && row.assets == None &&
            row.historyKey == "swap:" + send.rfqId && row.lnSwap.Some? &&
            row.lnSwap.value.name == Some("Lightning send") && row.lnSwap.value.fundingTxid == Some(send.fundingTxid) &&
            row.lnSwap.value.spendTxid == send.spendTxid &&
            row.lnSwap.value.outcome == Some(if s.terminal(send.state) then send.state else "pending")
    ensures var (row, m) := (UngroupedLnSendTx(send, s), Lookup(s.metadata, send.fundingTxid).GetOr(NO_METADATA));
            row.assetAction == m.assetAction && row.destination == m.destination && row.lnSend == m.lnSend &&
            row.networkFee == m.networkFee
  {
  }

  /** There are no other rows. */
  lemma {:induction false} OnlyTheseRows(activities: seq<Activity>, s: Sources, row: Tx)
    requires IsSort(s.engine) && row in SortLocalTxs(s.engine, Rows(activities, s))
    ensures (exists a :: a in activities && row in RowsOf(a, s)) ||
            (exists send :: send in s.lnSends && send.rfqId !in Grouped(activities) &&
              row == UngroupedLnSendTx(send, s))
  {
    hide RowsOf;
    hide UngroupedLnSendTx;
    SortLocalTxsOrders(s.engine, Rows(activities, s));
    hide SortLocalTxs;
    assert row in multiset(SortLocalTxs(s.engine, Rows(activities, s)));
    assert row in multiset(Rows(activities, s));
    FromGroups(activities, s, row);
    FromSends(s.lnSends, Grouped(activities), s, row);
  }

  lemma {:induction false} FromGroups(activities: seq<Activity>, s: Sources, row: Tx)
    ensures row in GroupRows(activities, s) ==> exists a :: a in activities && row in RowsOf(a, s)
  {
    hide RowsOf;
    if activities != [] {
      FromGroups(activities[1..], s, row);
      assert activities[0] in activities;
    }
  }

  lemma {:induction false} FromSends(sends: seq<Send>, grouped: set<string>, s: Sources, row: Tx)
    ensures row in SendRows(sends, grouped, s) ==>
            exists send :: send in sends && send.rfqId !in grouped && row == UngroupedLnSendTx(send, s)
  {
    hide UngroupedLnSendTx;
    if sends != [] {
      FromSends(sends[1..], grouped, s, row);
      assert sends[0] in sends;
    }
  }

  // ---------- Handover from the stored record to the group ----------

  lemma {:induction false} FlattenAppend(a: seq<seq<string>>, b: seq<seq<string>>)
    ensures Flatten(a + b) == Flatten(a) + Flatten(b)
  {
    if a == [] {
      assert a + b == b;
    } else {
      assert (a + b)[1..] == a[1..] + b;
      FlattenAppend(a[1..], b);
      Associative(a[0], Flatten(a[1..]), Flatten(b));
    }
  }

  lemma KeyGroupsAppend(a: seq<Activity>, b: seq<Activity>, s: Sources)
    ensures KeyGroups(a + b, s) == KeyGroups(a, s) + KeyGroups(b, s)
  {
  }

  lemma {:induction false} SendKeysUntouched(sends: seq<Send>, grouped: set<string>, rfqId: string)
    requires forall x <- sends :: x.rfqId != rfqId
    ensures SendKeys(sends, grouped + {rfqId}) == SendKeys(sends, grouped)
  {
    hide SendKey;
    if sends != [] {
      assert sends[0] in sends && forall x <- sends[1..] :: x in sends;
      SendKeysUntouched(sends[1..], grouped, rfqId);
    }
  }

  /** Grouping a stored send takes its key, and no other, off the ungrouped rows. */
  lemma {:induction false} SendKeysLose(sends: seq<Send>, grouped: set<string>, send: Send)
    requires LnSendRecords.DistinctViews(sends) && send in sends && send.rfqId !in grouped
    ensures multiset(SendKeys(sends, grouped)) ==
            multiset(SendKeys(sends, grouped + {send.rfqId})) + multiset{SendKey(send.rfqId)}
  {
    hide SendKey;
    hide SendKeys;
    var rest := sends[1..];
    SendKeysFirst(sends, grouped);
    SendKeysFirst(sends, grouped + {send.rfqId});
    if sends[0] == send {
      forall x | x in rest ensures x.rfqId != send.rfqId {
        var k :| 0 <= k < |rest| && rest[k] == x;
        assert sends[k + 1] == x;
      }
      SendKeysUntouched(rest, grouped, send.rfqId);
    } else {
      var k :| 0 <= k < |sends| && sends[k] == send;
      assert rest[k - 1] == send;
      SendKeysLose(rest, grouped, send);
    }
  }

  lemma {:induction false} SendKeysFirst(sends: seq<Send>, grouped: set<string>)
    requires sends != []
    ensures var first := if sends[0].rfqId in grouped then multiset{} else multiset{SendKey(sends[0].rfqId)};
            multiset(SendKeys(sends, grouped)) == first + multiset(SendKeys(sends[1..], grouped))
  {
    hide SendKey;
  }

  lemma {:induction false} KeysPermute(a: seq<Tx>, b: seq<Tx>)
    requires multiset(a) == multiset(b)
    ensures multiset(Keys(a)) == multiset(Keys(b))
  {
    if a == [] {
      assert |multiset(b)| == |b|;
      assert b == [];
    } else {
      assert a[0] in multiset(b);
      var k :| 0 <= k < |b| && b[k] == a[0];
      var (low, high) := (b[..k], b[k + 1..]);
      WithoutOne(a, b, k);
      KeysPermute(a[1..], low + high);
      KeysAppend([a[0]], a[1..]);
      KeysAppend(low + [b[k]], high);
      KeysAppend(low, [b[k]]);
      KeysAppend(low, high);
      hide Keys;
    }
  }

  lemma WithoutOne(a: seq<Tx>, b: seq<Tx>, k: nat)
    requires a != [] && k < |b| && b[k] == a[0] && multiset(a) == multiset(b)
    ensures a == [a[0]] + a[1..] && b == b[..k] + [b[k]] + b[k + 1..]
    ensures multiset(a[1..]) == multiset(b[..k] + b[k + 1..])
  {
    assert a == [a[0]] + a[1..] && b == b[..k] + [b[k]] + b[k + 1..];
    assert multiset(a) == multiset{a[0]} + multiset(a[1..]);
    assert multiset(b) == multiset(b[..k]) + multiset{b[k]} + multiset(b[k + 1..]);
    assert multiset(a[1..]) == multiset(a) - multiset{a[0]};
  }

  /** What is listed has the keys of the rows. */
  lemma ListedKeys(activities: seq<Activity>, s: Sources)
    requires IsSort(s.engine)
    ensures multiset(Keys(SortLocalTxs(s.engine, Rows(activities, s)))) ==
            multiset(Flatten(KeyGroups(activities, s))) + multiset(SendKeys(s.lnSends, Grouped(activities)))
  {
    SortLocalTxsOrders(s.engine, Rows(activities, s));
    hide SortLocalTxs;
    hide Keys;
    hide Flatten;
    hide KeyGroups;
    hide SendKeys;
    hide Grouped;
    KeysPermute(SortLocalTxs(s.engine, Rows(activities, s)), Rows(activities, s));
    RowKeys(activities, s);
    hide Rows;
  }

  /** The group a resolver forms for a stored send: named after it, carrying its rfq id, with a sent member. */
  ghost predicate IsGroupOf(g: Activity, send: Send) {
    g.id == SendKey(send.rfqId) && RfqIdOf(g) == Some(send.rfqId) && SwapKindOf(g) == Some(LIGHTNING_SEND) &&
    exists tx :: tx in g.txs && tx.direction == SENT
  }

  /** When the group of a stored send finally appears, wherever in the list, its row replaces the
    * stored one under the same key: no key is gained, lost or doubled.
    */
  lemma HandoverKeepsKeys(before: seq<Activity>, after: seq<Activity>, g: Activity, send: Send, s: Sources)
    requires IsSort(s.engine) && send in s.lnSends && LnSendRecords.DistinctViews(s.lnSends)
    requires send.rfqId !in Grouped(before + after) && IsGroupOf(g, send)
    ensures multiset(Keys(SortLocalTxs(s.engine, Rows(before + [g] + after, s)))) ==
            multiset(Keys(SortLocalTxs(s.engine, Rows(before + after, s))))
  {
    var with := before + [g] + after;
    KeysOfGroup(g, send, s);
    hide IsGroupOf;
    hide SendKey;
    hide KeysOf;
    hide SendKeys;
    hide Flatten;
    hide KeyGroups;
    hide Keys;
    hide SortLocalTxs;
    hide Rows;
    ListedKeys(with, s);
    ListedKeys(before + after, s);
    KeyGroupsAppend(before, after, s);
    KeyGroupsAppend(before + [g], after, s);
    KeyGroupsAppend(before, [g], s);
    FlattenAppend(KeyGroups(before, s), KeyGroups(after, s));
    FlattenAppend(KeyGroups(before + [g], s), KeyGroups(after, s));
    FlattenAppend(KeyGroups(before, s), KeyGroups([g], s));
    GroupedWith(before, g, after, send.rfqId);
    hide Grouped;
    SendKeysLose(s.lnSends, Grouped(before + after), send);
  }

  lemma KeysOfGroup(g: Activity, send: Send, s: Sources)
    requires IsGroupOf(g, send)
    ensures RfqIdOf(g) == Some(send.rfqId) && Flatten(KeyGroups([g], s)) == [SendKey(send.rfqId)]
  {
  }

  lemma GroupedWith(before: seq<Activity>, g: Activity, after: seq<Activity>, rfqId: string)
    requires RfqIdOf(g) == Some(rfqId)
    ensures Grouped(before + [g] + after) == Grouped(before + after) + {rfqId}
  {
  }

  lemma {:induction false} FundingFound(sends: seq<Send>, send: Send)
    requires send in sends && forall x <- sends :: x.fundingTxid == send.fundingTxid ==> x == send
    ensures FindFunding(sends, send.fundingTxid) == Some(send)
  {
    if sends[0].fundingTxid != send.fundingTxid {
      assert forall x <- sends[1..] :: x in sends;
      FundingFound(sends[1..], send);
    } else {
      assert sends[0] in sends;
    }
  }

  /** The group tells the send's story as its record does: the resolver's name for it, its state or pending. */
  predicate SameStory(g: Activity, send: Send, s: Sources) {
    g.intent.Some? && g.intent.value.name == Some("Lightning send") &&
    g.intent.value.outcome == Some(if s.terminal(send.state) then send.state else "pending")
  }

  /** The row that takes over says what the stored row said: the same transaction, receipt and saved facts,
    * and, for a send still in flight, the same amount going out. It never renames itself.
    */
  lemma HandoverKeepsReceipt(g: Activity, send: Send, s: Sources)
    requires IsGroupOf(g, send) && SameStory(g, send, s) && send in s.lnSends
    requires forall x <- s.lnSends :: x.fundingTxid == send.fundingTxid ==> x == send
    requires send.fundingTxid != "" && FindDirection(g.txs, SENT).value.arkTxid == send.fundingTxid
    ensures Collapsed(g, s).Some?
    ensures var (row, stored) := (Collapsed(g, s).value, UngroupedLnSendTx(send, s));
            row.historyKey == stored.historyKey && row.redeemTxid == stored.redeemTxid && row.lnSwap == stored.lnSwap &&
            row.assetAction == stored.assetAction && row.destination == stored.destination &&
            row.lnSend == stored.lnSend && row.networkFee == stored.networkFee && row.settled == stored.settled &&
            (send.amount >= 0 && g.amount == 0 - send.amount ==> row.amount == stored.amount && row.kind == stored.kind)
  {
    FundingFound(s.lnSends, send);
    hide FindDirection;
    hide FindFunding;
    assert Collapsed(g, s) == LightningSendTx(g, s);
    hide Collapsed;
  }
}
