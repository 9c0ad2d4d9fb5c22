/** From the SDK's transactions to the wallet's history rows, and the order they are listed in. */
module TransactionHistory {
  import opened Options
  import opened Sorting

  datatype Direction = SENT | RECEIVED

  type Assets = seq<(string, int)>

  /** An SDK transaction; `createdAt` is in milliseconds. */
  datatype ArkTx = ArkTx(
    arkTxid: string, commitmentTxid: string, boardingTxid: string, direction: Direction, amount: int, settled: bool,
    createdAt: int, assets: Option<Assets>)

  /** Locally saved facts about a transaction. */
  datatype Metadata = Metadata(
    assetAction: Option<string>, destination: Option<string>, lnSend: Option<string>, networkFee: Option<int>)

  datatype LnSwap = LnSwap(name: Option<string>, outcome: Option<string>, fundingTxid: Option<string>,
    spendTxid: Option<string>)

  /** A history row; `createdAt` is in seconds. */
  datatype Tx = Tx(
    amount: int, kind: string, boardingTxid: string, redeemTxid: string, roundTxid: string, createdAt: int,
    explorable: Option<string>, preconfirmed: bool, settled: bool, assets: Option<Assets>,
    assetAction: Option<string>, destination: Option<string>, lnSend: Option<string>, networkFee: Option<int>,
    lnSwap: Option<LnSwap>, historyKey: string)

  function Abs(n: int): nat { if n < 0 then -n else n }

  function TxidOf(tx: ArkTx): string {
    if tx.arkTxid != "" then tx.arkTxid else if tx.commitmentTxid != "" then tx.commitmentTxid else tx.boardingTxid
  }

  const NO_METADATA := Metadata(None, None, None, None)

  function ArkTransactionToTx(tx: ArkTx, metadata: Option<Metadata>): Tx {
    var m := metadata.GetOr(NO_METADATA);
    var sent := tx.direction.SENT?;
    Tx(Abs(tx.amount), if sent then "sent" else "received",
       tx.boardingTxid, tx.arkTxid, tx.commitmentTxid, tx.createdAt / 1000,
       if tx.boardingTxid != "" then Some(tx.boardingTxid)
       else if tx.commitmentTxid != "" then Some(tx.commitmentTxid) else None,
       !tx.settled, sent || tx.settled, tx.assets,
       m.assetAction, if sent then m.destination else None, if sent then m.lnSend else None, m.networkFee, None, "")
  }

  /** What a row adds to the balance. */
  function SignedAmount(row: Tx): int { if row.kind == "received" then row.amount else 0 - row.amount }

  /** The row of a transaction: its amount in its direction, its three txids, its second, what an explorer can open, and
    * the facts saved for it, those about a payment's target only if it was sent.
    */
  lemma TransactionRow(tx: ArkTx, metadata: Option<Metadata>)
    ensures var (row, sent) := (ArkTransactionToTx(tx, metadata), tx.direction == SENT);
            row.amount >= 0 && (row.amount == tx.amount || row.amount == 0 - tx.amount) &&
            row.kind == (if sent then "sent" else "received") &&
            (if sent then SignedAmount(row) <= 0 else SignedAmount(row) >= 0) &&
            row.redeemTxid == tx.arkTxid && row.roundTxid == tx.commitmentTxid && row.boardingTxid == tx.boardingTxid &&
            1000 * row.createdAt <= tx.createdAt < 1000 * (row.createdAt + 1) && row.assets == tx.assets &&
            (row.settled <==> sent || tx.settled) && (row.preconfirmed <==> !tx.settled) &&
            row.lnSwap == None && row.historyKey == ""
    ensures var row := ArkTransactionToTx(tx, metadata);
            (row.explorable == None <==> tx.boardingTxid == "" && tx.commitmentTxid == "") &&
            (tx.boardingTxid != "" ==> row.explorable == Some(tx.boardingTxid)) &&
            (tx.boardingTxid == "" && tx.commitmentTxid != "" ==> row.explorable == Some(tx.commitmentTxid))
    ensures var (row, m, sent) := (ArkTransactionToTx(tx, metadata), metadata.GetOr(NO_METADATA), tx.direction == SENT);
            row.assetAction == m.assetAction && row.networkFee == m.networkFee &&
            (if sent then row.destination == m.destination && row.lnSend == m.lnSend
             else row.destination == None && row.lnSend == None)
  {
    assert "sent"[0] != "received"[0];
  }

  /** The txid a transaction goes by: the first of the three that is there. */
  lemma TxidIs(tx: ArkTx)
    ensures tx.arkTxid != "" ==> TxidOf(tx) == tx.arkTxid
    ensures tx.arkTxid == "" && tx.commitmentTxid != "" ==> TxidOf(tx) == tx.commitmentTxid
    ensures tx.arkTxid == "" && tx.commitmentTxid == "" ==> TxidOf(tx) == tx.boardingTxid
  {
  }

  /** The comparator. Between rows of one date it contradicts itself: two sent rows each come first. */
  function Compare(a: Tx, b: Tx): int {
    if a.createdAt == b.createdAt then (if a.kind == "sent" then -1 else 1)
    else if b.createdAt == 0 then 1
    else if a.createdAt == 0 then -1
    else if a.createdAt > b.createdAt then -1
    else 1
  }

  predicate InOrder(a: Tx, b: Tx) { Compare(a, b) <= 0 }

  /** Rows without a date first, then the newest first; of one date, the sent ones first. */
  predicate ListOrder(a: Tx, b: Tx) {
    if a.createdAt == b.createdAt then a.kind == "sent" || b.kind != "sent"
    else a.createdAt == 0 || (b.createdAt != 0 && a.createdAt > b.createdAt)
  }

  /** The JavaScript engine's `sort` under this comparator. */
  type Engine = seq<Tx> -> seq<Tx>

  /** All that is relied on: nothing is lost, and the comparator put each row before the next one. */
  ghost predicate IsSort(engine: Engine) {
    forall txs :: multiset(engine(txs)) == multiset(txs) && Vouched(engine(txs), InOrder)
  }

  function SortLocalTxs(engine: Engine, txs: seq<Tx>): seq<Tx> { engine(txs) }

  /** Despite the comparator the rows are a permutation in that order, whatever sort the engine uses. */
  lemma SortLocalTxsOrders(engine: Engine, txs: seq<Tx>)
    requires IsSort(engine)
    ensures multiset(SortLocalTxs(engine, txs)) == multiset(txs)
    ensures Sorted(SortLocalTxs(engine, txs), ListOrder)
  {
    assert Respects(InOrder, ListOrder);
    assert TotalPreorder(ListOrder);
    VouchedSorts(engine(txs), InOrder, ListOrder);
  }

  function InsertionSort(txs: seq<Tx>): seq<Tx> { Sort(txs, InOrder) }

  function MergeSort(txs: seq<Tx>): seq<Tx>
    decreases |txs|
  {
    if |txs| <= 1 then txs
    else MergeRuns(MergeSort(txs[..|txs| / 2]), MergeSort(txs[|txs| / 2..]), InOrder)
  }

  lemma {:induction false} MergeSortVouches(txs: seq<Tx>)
    ensures Vouched(MergeSort(txs), InOrder)
    decreases |txs|
  {
    if |txs| > 1 {
      hide Vouched;
      hide MergeRuns;
      var (a, b) := (txs[..|txs| / 2], txs[|txs| / 2..]);
      MergeSortVouches(a);
      MergeSortVouches(b);
      MergeVouches(MergeSort(a), MergeSort(b), InOrder);
    }
  }

  lemma {:induction false} MergeSortHalves(txs: seq<Tx>)
    requires |txs| > 1
    ensures MergeSort(txs) == MergeRuns(MergeSort(txs[..|txs| / 2]), MergeSort(txs[|txs| / 2..]), InOrder)
  {
    hide MergeRuns;
  }

  lemma {:induction false} MergeSortPermutes(txs: seq<Tx>)
    ensures multiset(MergeSort(txs)) == multiset(txs)
    decreases |txs|
  {
    if |txs| > 1 {
      var k := |txs| / 2;
      MergeSortPermutes(txs[..k]);
      MergeSortPermutes(txs[k..]);
      MergePermutes(MergeSort(txs[..k]), MergeSort(txs[k..]), InOrder);
      MergeSortHalves(txs);
      hide MergeSort;
      hide MergeRuns;
      Halves(txs, k);
    }
  }

  /** Insertion and merging, which engines combine, are such sorts, however they find the place or cut the runs. */
  lemma EnginesSort()
    ensures IsSort(InsertionSort) && IsSort(MergeSort)
  {
    forall txs ensures multiset(InsertionSort(txs)) == multiset(txs) && Vouched(InsertionSort(txs), InOrder) {
      SortVouches(txs, InOrder);
      SortPermutes(txs, InOrder);
    }
    forall txs ensures multiset(MergeSort(txs)) == multiset(txs) && Vouched(MergeSort(txs), InOrder) {
      MergeSortVouches(txs);
      MergeSortPermutes(txs);
    }
  }
}
