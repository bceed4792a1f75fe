/** Indexing a block, and the two slow paths the index must agree with: the block scan and the CometBFT search. */
module Indexing {
  import opened MachineInts
  import opened KvStore
  import opened Events
  import opened TxResultCodec
  import opened TxIndex

  // ----- blocks -----

  /** A decoded transaction: the type URLs of its extension options, and its messages. */
  datatype Tx = Tx(options: seq<string>, msgs: seq<Msg>)

  /** The bytes of a transaction, as what the decoder makes of them. */
  datatype RawTx = Garbage | Decodable(tx: Tx)

  datatype Block = Block(height: Int64, txs: seq<RawTx>)

  const ETH_OPTION := "/ethermint.evm.v1.ExtensionOptionsEthereumTx"

  predicate IsEthTx(tx: Tx) {
    |tx.options| == 1 && tx.options[0] == ETH_OPTION
  }

  /** TxSuccessOrExceedsBlockGasLimit */
  predicate Accepted(r: ExecResult) {
    r.code == 0 || r.blockGasExceeded || r.commitError
  }

  predicate AllEth(msgs: seq<Msg>) {
    forall i :: 0 <= i < |msgs| ==> msgs[i].EthMsg?
  }

  /** IndexBlock does not panic on this transaction: the parser stays in range, and the type assertion on its
      messages succeeds. */
  predicate Safe(raw: RawTx, r: ExecResult) {
    Accepted(r) && raw.Decodable? && IsEthTx(raw.tx) ==>
      var o := ParseTxResult(r, Some(raw.tx.msgs));
      !o.OutOfRange? && (o.Ok? ==> AllEth(raw.tx.msgs))
  }

  predicate SafeBlock(b: Block, results: seq<ExecResult>) {
    |b.txs| <= |results| && forall t :: 0 <= t < |b.txs| ==> Safe(b.txs[t], results[t])
  }

  // ----- the entries of a block -----

  /** Where a message sits in its block: block height, and the index of its transaction. */
  datatype Place = Place(height: Int64, tx: nat)

  /** The entry for message `j`, when `count` messages of the block are indexed so far and the transaction's
      messages have used `cum` gas. A message that has no parsed event gets none. */
  function EntryFor(at: Place, code: nat, msgs: seq<Msg>, txs: seq<ParsedTx>, j: nat, count: nat, cum: Uint64)
    : Option<Entry>
    requires j < |msgs| && msgs[j].EthMsg?
  {
    if code == 0 && j >= |txs| then None
    else
      var gas := if code != 0 then msgs[j].gas else txs[j].gasUsed;
      var failed := code != 0 || txs[j].failed;
      Some(Entry(msgs[j].hash, TxResult(at.height, ToUint32(at.tx), ToUint32(j), ToInt32(count), failed, gas,
                                        ToUint64(cum + gas))))
  }

  /** The loop over the messages from message `j` on. */
  function MsgEntries(at: Place, code: nat, msgs: seq<Msg>, txs: seq<ParsedTx>, j: nat, count: nat, cum: Uint64)
    : seq<Entry>
    requires j <= |msgs| && AllEth(msgs)
    decreases |msgs| - j
  {
    if j == |msgs| then []
    else
      match EntryFor(at, code, msgs, txs, j, count, cum)
      case None => MsgEntries(at, code, msgs, txs, j + 1, count, cum)
      case Some(e) => [e] + MsgEntries(at, code, msgs, txs, j + 1, count + 1, e.rec.cumulativeGasUsed)
  }

  function TxEntries(at: Place, raw: RawTx, r: ExecResult, count: nat): seq<Entry>
    requires Safe(raw, r)
  {
    if !Accepted(r) || raw.Garbage? || !IsEthTx(raw.tx) then []
    else
      match ParseTxResult(r, Some(raw.tx.msgs))
      case Ok(p) => MsgEntries(at, r.code, raw.tx.msgs, p.txs, 0, count, 0)
      case _ => []
  }

  /** The entries of transactions `t` and up, `count` messages of the block being indexed before them. */
  function EntriesFrom(b: Block, results: seq<ExecResult>, t: nat, count: nat): seq<Entry>
    requires SafeBlock(b, results) && t <= |b.txs|
    decreases |b.txs| - t
  {
    if t == |b.txs| then []
    else
      var es := TxEntries(Place(b.height, t), b.txs[t], results[t], count);
      es + EntriesFrom(b, results, t + 1, count + |es|)
  }

  function BlockEntries(b: Block, results: seq<ExecResult>): seq<Entry>
    requires SafeBlock(b, results)
  {
    EntriesFrom(b, results, 0, 0)
  }

  // ----- the shape of the entries -----

  /** How many messages of an Ethereum transaction are indexed: without an error code, those with an event. */
  function Indexed(code: nat, msgs: seq<Msg>, txs: seq<ParsedTx>): nat {
    if code != 0 || |txs| >= |msgs| then |msgs| else |txs|
  }

  lemma {:induction false} MsgEntriesLength(at: Place, code: nat, msgs: seq<Msg>, txs: seq<ParsedTx>,
                                            j: nat, count: nat, cum: Uint64)
    requires j <= |msgs| && AllEth(msgs)
    ensures |MsgEntries(at, code, msgs, txs, j, count, cum)|
            == if j <= Indexed(code, msgs, txs) then Indexed(code, msgs, txs) - j else 0
    decreases |msgs| - j
  {
    hide ToUint32, ToInt32, ToUint64;
    if j < |msgs| {
      if code == 0 && j >= |txs| {
        MsgEntriesLength(at, code, msgs, txs, j + 1, count, cum);
      } else {
        var gas := if code != 0 then msgs[j].gas else txs[j].gasUsed;
        MsgEntriesLength(at, code, msgs, txs, j + 1, count + 1, ToUint64(cum + gas));
      }
    }
  }

  /** Entry `k` of the loop: its place, its number in the block, and its hash. */
  lemma {:induction false} MsgEntriesAt(at: Place, code: nat, msgs: seq<Msg>, txs: seq<ParsedTx>,
                                        j: nat, count: nat, cum: Uint64, k: nat)
    requires j <= k < Indexed(code, msgs, txs) && AllEth(msgs)
    ensures var es := MsgEntries(at, code, msgs, txs, j, count, cum);
            k - j < |es| && es[k - j].hash == msgs[k].hash
            && var r := es[k - j].rec;
               r.height == at.height && r.txIndex == ToUint32(at.tx) && r.msgIndex == ToUint32(k)
               && r.ethTxIndex == ToInt32(count + (k - j))
    decreases k - j
  {
    MsgEntriesLength(at, code, msgs, txs, j, count, cum);
    hide ToUint32, ToInt32, ToUint64;
    if j < k {
      var gas := if code != 0 then msgs[j].gas else txs[j].gasUsed;
      MsgEntriesAt(at, code, msgs, txs, j + 1, count + 1, ToUint64(cum + gas), k);
    }
  }

  // ----- the index against the CometBFT search -----

  /** How a search picks a message of the transaction it has found. */
  datatype Getter = ByHash(hash: Hash) | ByIndex(index: int)

  function PickTx(p: Parsed, g: Getter): (tx: Option<ParsedTx>)
    requires Coherent(p)
    ensures tx.Some? ==> tx.value.msgIndex < |p.txs| && tx.value == p.txs[tx.value.msgIndex]
  {
    match g
    case ByHash(h) => GetTxByHash(p, h)
    case ByIndex(i) => GetTxByTxIndex(p, i)
  }

  /** The record ParseTxIndexerResult builds for the picked message. */
  function SearchRecord(height: Int64, txIndex: Uint32, p: Parsed, tx: ParsedTx): TxResult
    requires tx.msgIndex < |p.txs|
  {
    TxResult(height, txIndex, ToUint32(tx.msgIndex), tx.ethTxIndex, tx.failed, tx.gasUsed,
             GasOfFirst(p.txs, tx.msgIndex + 1))
  }

  /** What queryTendermintTxIndexer passes to the parser: the messages only when the result has an error code. */
  function SearchParse(r: ExecResult, msgs: seq<Msg>): Outcome {
    ParseTxResult(r, if r.code != 0 then Some(msgs) else None)
  }

  function SearchParsed(raw: RawTx, r: ExecResult): Outcome {
    SearchParse(r, if raw.Decodable? then raw.tx.msgs else [])
  }

  lemma SearchedIsCoherent(raw: RawTx, r: ExecResult)
    requires SearchParsed(raw, r).Ok?
    ensures Coherent(SearchParsed(raw, r).p)
  {
    var msgs := if raw.Decodable? then raw.tx.msgs else [];
    ParseCoherent(r, if r.code != 0 then Some(msgs) else None);
  }

  datatype SearchResult = Hit(rec: TxResult) | Miss | Panics

  /** The fallback lookup once the search has returned the transaction at `at`; `Miss` stands for its errors. */
  function Search(at: Place, raw: RawTx, r: ExecResult, g: Getter): SearchResult {
    if !Accepted(r) || (r.code != 0 && raw.Garbage?) then Miss
    else
      match SearchParsed(raw, r)
      case Malformed => Miss
      case OutOfRange => Panics
      case Ok(p) =>
        SearchedIsCoherent(raw, r);
        match PickTx(p, g)
        case None => Miss
        case Some(tx) => Hit(SearchRecord(at.height, ToUint32(at.tx), p, tx))
  }

  lemma ParsesAgree(r: ExecResult, msgs: seq<Msg>)
    ensures SearchParse(r, msgs) == ParseTxResult(r, Some(msgs))
  {
    hide ScanAll;
  }

  /** With an error code every parsed transaction has failed and is charged its gas limit. */
  lemma ChargedWhenFailed(r: ExecResult, msgs: seq<Msg>, k: nat)
    requires r.code != 0 && ParseTxResult(r, Some(msgs)).Ok?
    requires k < |ParseTxResult(r, Some(msgs)).p.txs|
    ensures k < |msgs| && msgs[k].EthMsg?
    ensures var tx := ParseTxResult(r, Some(msgs)).p.txs[k]; tx.failed && tx.gasUsed == msgs[k].gas
  {
    hide ScanAll;
  }

  lemma GasOfNext(txs: seq<ParsedTx>, j: nat)
    requires j < |txs|
    ensures GasOfFirst(txs, j + 1) == ToUint64(GasOfFirst(txs, j) + txs[j].gasUsed)
  {
  }

  lemma {:induction false} RunningGas(at: Place, code: nat, msgs: seq<Msg>, p: Parsed, j: nat, count: nat, k: nat)
    requires j <= k < Indexed(code, msgs, p.txs) && k < |p.txs| && AllEth(msgs) && Coherent(p)
    requires code != 0 ==>
               forall i :: 0 <= i < |p.txs| && i < |msgs| ==> p.txs[i].failed && p.txs[i].gasUsed == msgs[i].gas
    ensures var es := MsgEntries(at, code, msgs, p.txs, j, count, GasOfFirst(p.txs, j));
            k - j < |es| &&
            es[k - j].rec
            == SearchRecord(at.height, ToUint32(at.tx), p, p.txs[k]).(ethTxIndex := ToInt32(count + (k - j)))
    decreases k - j
  {
    hide ToUint32, ToInt32, ToUint64, GasOfFirst;
    MsgEntriesLength(at, code, msgs, p.txs, j, count, GasOfFirst(p.txs, j));
    var gas := if code != 0 then msgs[j].gas else p.txs[j].gasUsed;
    assert gas == p.txs[j].gasUsed;
    GasOfNext(p.txs, j);
    if j < k {
      RunningGas(at, code, msgs, p, j + 1, count + 1, k);
    }
  }

  /** Message `k` of a decodable Ethereum transaction. */
  predicate EthMessage(raw: RawTx, k: nat) {
    raw.Decodable? && IsEthTx(raw.tx) && k < |raw.tx.msgs|
  }

  /** The search finds a parsed event at position `k`. */
  predicate HasEvent(raw: RawTx, r: ExecResult, k: nat) {
    Accepted(r) && (r.code == 0 || raw.Decodable?) && SearchParsed(raw, r).Ok? && k < |SearchParsed(raw, r).p.txs|
  }

  /** Which messages the index stores: with an error code all of them, else those with an event. */
  lemma StoredIff(at: Place, raw: RawTx, r: ExecResult, count: nat, k: nat)
    requires Safe(raw, r)
    ensures k < |TxEntries(at, raw, r, count)| <==>
            && Accepted(r) && EthMessage(raw, k) && SearchParsed(raw, r).Ok?
            && (r.code != 0 || k < |SearchParsed(raw, r).p.txs|)
  {
    hide ParseTxResult, SearchParse, MsgEntries;
    if Accepted(r) && raw.Decodable? && IsEthTx(raw.tx) {
      var o := ParseTxResult(r, Some(raw.tx.msgs));
      ParsesAgree(r, raw.tx.msgs);
      if o.Ok? {
        MsgEntriesLength(at, r.code, raw.tx.msgs, o.p.txs, 0, count, 0);
      }
    }
  }

  /** The index stores message `k` and the search finds no event for it: a failed transaction with fewer events than
      messages. */
  predicate OnlyStored(raw: RawTx, r: ExecResult, k: nat) {
    && Accepted(r) && EthMessage(raw, k) && r.code != 0
    && SearchParsed(raw, r).Ok? && k >= |SearchParsed(raw, r).p.txs|
  }

  /** The search finds an event and the index stores nothing: the transaction does not decode, lacks the extension
      option, or has fewer messages than events. */
  predicate OnlySearched(raw: RawTx, r: ExecResult, k: nat) {
    HasEvent(raw, r, k) && !EthMessage(raw, k)
  }

  /** The two lookup paths know of the same messages except in these two cases. */
  lemma PathsKnowTheSame(at: Place, raw: RawTx, r: ExecResult, count: nat, k: nat)
    requires Safe(raw, r)
    ensures (k < |TxEntries(at, raw, r, count)| <==> HasEvent(raw, r, k))
            <==> !OnlyStored(raw, r, k) && !OnlySearched(raw, r, k)
  {
    hide SearchParsed, TxEntries;
    StoredIff(at, raw, r, count, k);
  }

  /** For every entry the index stores: if it has an event, the record the search builds from that event agrees with
      the stored one in gas, failed flag, position and cumulative gas (the running sum is the recomputed prefix sum,
      wrap-around included). They differ at most in the Ethereum index, which the index counts and the search reads. */
  lemma LookupPathsAgree(at: Place, raw: RawTx, r: ExecResult, count: nat, k: nat)
    requires Safe(raw, r) && k < |TxEntries(at, raw, r, count)|
    ensures EthMessage(raw, k) && SearchParsed(raw, r).Ok? && Coherent(SearchParsed(raw, r).p)
    ensures var p := SearchParsed(raw, r).p;
            var e := TxEntries(at, raw, r, count)[k];
            && e.hash == raw.tx.msgs[k].hash && e.rec.msgIndex == ToUint32(k) && e.rec.ethTxIndex == ToInt32(count + k)
            && (k < |p.txs| ==>
                  e.rec == SearchRecord(at.height, ToUint32(at.tx), p, p.txs[k]).(ethTxIndex := ToInt32(count + k)))
  {
    hide ParseTxResult, SearchParse, ToInt32, ToUint32, Coherent, MsgEntries;
    StoredIff(at, raw, r, count, k);
    SearchedIsCoherent(raw, r);
    ParsesAgree(r, raw.tx.msgs);
    var p := ParseTxResult(r, Some(raw.tx.msgs)).p;
    MsgEntriesAt(at, r.code, raw.tx.msgs, p.txs, 0, count, 0, k);
    if k < |p.txs| {
      if r.code != 0 {
        forall i | 0 <= i < |p.txs| && i < |raw.tx.msgs|
          ensures p.txs[i].failed && p.txs[i].gasUsed == raw.tx.msgs[i].gas
        {
          ChargedWhenFailed(r, raw.tx.msgs, i);
        }
      }
      NoGasYet(p.txs);
      RunningGas(at, r.code, raw.tx.msgs, p, 0, count, k);
    }
  }

  lemma NoGasYet(txs: seq<ParsedTx>)
    ensures GasOfFirst(txs, 0) == 0
  {
  }

  /** A search that picks the message at position `j` returns the stored record of message `k` exactly when these are
      the same message, and its event carries the index that was counted. */
  lemma HitExact(at: Place, raw: RawTx, r: ExecResult, count: nat, k: nat, g: Getter)
    requires Safe(raw, r) && k < |TxEntries(at, raw, r, count)| && k < TWO_32
    ensures SearchParsed(raw, r).Ok? && Coherent(SearchParsed(raw, r).p)
    ensures var p := SearchParsed(raw, r).p;
            var tx := PickTx(p, g);
            (tx.Some? ==> tx.value.msgIndex < TWO_32) ==>
              (Search(at, raw, r, g) == Hit(TxEntries(at, raw, r, count)[k].rec)
               <==> k < |p.txs| && tx == Some(p.txs[k]) && p.txs[k].ethTxIndex == ToInt32(count + k))
  {
    hide SearchParsed, TxEntries, ToInt32, PickTx, Coherent;
    StoredIff(at, raw, r, count, k);
    LookupPathsAgree(at, raw, r, count, k);
    AtItsPosition(SearchParsed(raw, r).p, k);
  }

  lemma AtItsPosition(p: Parsed, k: nat)
    requires Coherent(p)
    ensures k < |p.txs| ==> p.txs[k].msgIndex == k
  {
  }

  /** The search by index finds what the index holds for it exactly when the transaction's first event carries the
      index its first message was counted with, and so does the event of this message. */
  lemma SearchByIndexExact(at: Place, raw: RawTx, r: ExecResult, count: nat, k: nat)
    requires Safe(raw, r) && k < |TxEntries(at, raw, r, count)| && count + k < TWO_31
    ensures SearchParsed(raw, r).Ok?
    ensures var txs := SearchParsed(raw, r).p.txs;
            Search(at, raw, r, ByIndex(count + k)) == Hit(TxEntries(at, raw, r, count)[k].rec)
            <==> k < |txs| && txs[0].ethTxIndex == count && txs[k].ethTxIndex == count + k
  {
    hide SearchParsed, TxEntries, Search;
    HitExact(at, raw, r, count, k, ByIndex(count + k));
    var p := SearchParsed(raw, r).p;
    AtItsPosition(p, k);
    var j := if p.txs == [] then 0 else count + k - p.txs[0].ethTxIndex;
    if 0 <= j < |p.txs| {
      AtItsPosition(p, j);
    }
  }

  /** The search by hash, new format: it finds what the index holds for the message exactly when the hash leads to the
      message and its event (the full one if it came, else the announcement) carries the index that was counted. */
  lemma SearchByHashFormat2(at: Place, raw: RawTx, r: ExecResult, count: nat, k: nat,
                            anns: seq<seq<Attribute>>, fulls: seq<seq<Attribute>>)
    requires Safe(raw, r) && k < |TxEntries(at, raw, r, count)| && k < TWO_32
    requires EthAttributes(r.events) == anns + fulls && Format2Stream(anns, fulls) && |anns| <= TWO_32
    ensures var h := TxEntries(at, raw, r, count)[k].hash;
            Search(at, raw, r, ByHash(h)) == Hit(TxEntries(at, raw, r, count)[k].rec)
            <==> && k < |anns| && Leads(HashesOf(Filled(anns)), HashesOf(Filled(fulls)), h, k)
                 && FinalIndex(anns, fulls, k) == ToInt32(count + k)
  {
    hide TxEntries, Search, ToInt32, ParseTxResult, EthAttributes, Leads, Filled, HashesOf, Coherent, FinalIndex,
         AllFill;
    var h := TxEntries(at, raw, r, count)[k].hash;
    HitExact(at, raw, r, count, k, ByHash(h));
    var msgs := if r.code != 0 then Some(if raw.Decodable? then raw.tx.msgs else []) else None;
    FinalIndexes(r, anns, fulls, msgs);
    if k < |anns| {
      HashLookupExact(r, anns, fulls, msgs, h, k);
    }
  }

  /** The search by hash, old format. */
  lemma SearchByHashFormat1(at: Place, raw: RawTx, r: ExecResult, count: nat, k: nat, fulls: seq<seq<Attribute>>)
    requires Safe(raw, r) && k < |TxEntries(at, raw, r, count)| && k < TWO_32
    requires EthAttributes(r.events) == fulls && AllFill(fulls) && |fulls| <= TWO_32
    requires forall j :: 0 <= j < |fulls| ==> |fulls[j]| > 2
    ensures var h := TxEntries(at, raw, r, count)[k].hash;
            Search(at, raw, r, ByHash(h)) == Hit(TxEntries(at, raw, r, count)[k].rec)
            <==> && k < |fulls| && Leads(HashesOf(Filled(fulls)), [], h, k)
                 && Filled(fulls)[k].ethTxIndex == ToInt32(count + k)
  {
    hide TxEntries, Search, ToInt32, ParseTxResult, EthAttributes, AllFill, Leads, Filled, HashesOf, Coherent;
    var h := TxEntries(at, raw, r, count)[k].hash;
    HitExact(at, raw, r, count, k, ByHash(h));
    var msgs := if r.code != 0 then Some(if raw.Decodable? then raw.tx.msgs else []) else None;
    Format1Txs(r, fulls, msgs);
    if k < |fulls| {
      HashLookupFormat1(r, fulls, msgs, h, k);
    }
  }

  // One transaction with one Ethereum message, and two results without events: out of block gas, and successful.
  const ONE_MESSAGE := Decodable(Tx([ETH_OPTION], [EthMsg(ZERO_HASH, 7)]))
  const SILENT_FAILURE := ExecResult(11, true, false, 5, [])
  const SILENT_SUCCESS := ExecResult(0, false, false, 5, [])

  /** The paths do disagree: after a failure without events the index holds the message and no search finds it. */
  lemma StoredButNotSearched(at: Place, count: nat, g: Getter)
    ensures Safe(ONE_MESSAGE, SILENT_FAILURE) && OnlyStored(ONE_MESSAGE, SILENT_FAILURE, 0)
    ensures |TxEntries(at, ONE_MESSAGE, SILENT_FAILURE, count)| == 1
    ensures Search(at, ONE_MESSAGE, SILENT_FAILURE, g) == Miss
  {
    assert EthAttributes([]) == [];
    StoredIff(at, ONE_MESSAGE, SILENT_FAILURE, count, 0);
    StoredIff(at, ONE_MESSAGE, SILENT_FAILURE, count, 1);
  }

  /** And without the extension option a search finds events of a transaction the index passes over. */
  lemma SearchedButNotStored(at: Place, count: nat)
    ensures var raw := Decodable(Tx([], []));
            Safe(raw, MISLED) && TxEntries(at, raw, MISLED, count) == [] && OnlySearched(raw, MISLED, 0)
  {
    hide ParseTxResult;
    WrongTransactionFound();
  }

  // ----- the index against the block scan -----

  datatype Position = Position(tx: nat, msg: nat)

  /** The Ethereum messages of a transaction, from message `j` on. */
  function EthPositions(t: nat, msgs: seq<Msg>, j: nat): seq<Position>
    requires j <= |msgs|
    decreases |msgs| - j
  {
    if j == |msgs| then []
    else (if msgs[j].EthMsg? then [Position(t, j)] else []) + EthPositions(t, msgs, j + 1)
  }

  function TxScan(t: nat, raw: RawTx, r: ExecResult): seq<Position> {
    if !Accepted(r) || raw.Garbage? then [] else EthPositions(t, raw.tx.msgs, 0)
  }

  /** EthMsgsFromTendermintBlock from transaction `t` on, as positions. */
  function ScanFrom(b: Block, results: seq<ExecResult>, t: nat): seq<Position>
    requires t <= |b.txs| <= |results|
    decreases |b.txs| - t
  {
    if t == |b.txs| then [] else TxScan(t, b.txs[t], results[t]) + ScanFrom(b, results, t + 1)
  }

  function PositionOf(e: Entry): Position {
    Position(e.rec.txIndex, e.rec.msgIndex)
  }

  function PositionsOf(es: seq<Entry>): (ps: seq<Position>)
    ensures |ps| == |es| && forall i :: 0 <= i < |es| ==> ps[i] == PositionOf(es[i])
  {
    if es == [] then [] else [PositionOf(es[0])] + PositionsOf(es[1..])
  }

  lemma PositionsConcat(xs: seq<Entry>, ys: seq<Entry>)
    ensures PositionsOf(xs + ys) == PositionsOf(xs) + PositionsOf(ys)
  {
  }

  /** The uint32 positions of the record are wide enough. */
  ghost predicate Small(b: Block) {
    |b.txs| <= TWO_32 && forall t :: 0 <= t < |b.txs| && b.txs[t].Decodable? ==> |b.txs[t].tx.msgs| <= TWO_32
  }

  /** What has to hold of a transaction for the index and the scan to see the same messages in it: it is in no
      position to be seen, or has no Ethereum message, or carries the extension option and its events parse,
      with one entry per message unless it failed. */
  ghost predicate Consistent(raw: RawTx, r: ExecResult) {
    || !Accepted(r) || raw.Garbage?
    || (forall i :: 0 <= i < |raw.tx.msgs| ==> !raw.tx.msgs[i].EthMsg?)
    || (IsEthTx(raw.tx)
        && var o := ParseTxResult(r, Some(raw.tx.msgs));
           o.Ok? && (r.code != 0 || |o.p.txs| >= |raw.tx.msgs|))
  }

  lemma {:induction false} AllPositions(t: nat, msgs: seq<Msg>, j: nat)
    requires j <= |msgs|
    ensures AllEth(msgs) ==>
      |EthPositions(t, msgs, j)| == |msgs| - j
      && forall k :: 0 <= k < |msgs| - j ==> EthPositions(t, msgs, j)[k] == Position(t, j + k)
    ensures EthPositions(t, msgs, j) == [] <==> forall i :: j <= i < |msgs| ==> !msgs[i].EthMsg?
    ensures forall q :: q in EthPositions(t, msgs, j) ==> q.tx == t
    decreases |msgs| - j
  {
    if j < |msgs| {
      AllPositions(t, msgs, j + 1);
    }
  }

  /** One transaction: the index sees what the scan sees exactly when it is consistent. */
  lemma SegmentAgrees(at: Place, raw: RawTx, r: ExecResult, count: nat)
    requires Safe(raw, r) && at.tx < TWO_32 && (raw.Decodable? ==> |raw.tx.msgs| <= TWO_32)
    ensures PositionsOf(TxEntries(at, raw, r, count)) == TxScan(at.tx, raw, r) <==> Consistent(raw, r)
    ensures forall q :: q in PositionsOf(TxEntries(at, raw, r, count)) ==> q.tx == at.tx
    ensures forall q :: q in TxScan(at.tx, raw, r) ==> q.tx == at.tx
  {
    hide ParseTxResult, MsgEntries, EthPositions, PositionsOf;
    if Accepted(r) && raw.Decodable? {
      var msgs := raw.tx.msgs;
      AllPositions(at.tx, msgs, 0);
      var o := ParseTxResult(r, Some(msgs));
      if IsEthTx(raw.tx) && o.Ok? {
        EntryPositions(at, r.code, msgs, o.p.txs, count);
      }
    }
  }

  lemma EntryPositions(at: Place, code: nat, msgs: seq<Msg>, txs: seq<ParsedTx>, count: nat)
    requires AllEth(msgs) && at.tx < TWO_32 && |msgs| <= TWO_32
    ensures var ps := PositionsOf(MsgEntries(at, code, msgs, txs, 0, count, 0));
            |ps| == Indexed(code, msgs, txs) && forall k :: 0 <= k < |ps| ==> ps[k] == Position(at.tx, k)
  {
    hide MsgEntries, AllEth;
    MsgEntriesLength(at, code, msgs, txs, 0, count, 0);
    var ps := PositionsOf(MsgEntries(at, code, msgs, txs, 0, count, 0));
    forall k | 0 <= k < |ps| ensures ps[k] == Position(at.tx, k) {
      MsgEntriesAt(at, code, msgs, txs, 0, count, 0, k);
    }
  }

  lemma {:induction false} ConcatUnique(t: nat, xs: seq<Position>, xs': seq<Position>,
                                        ys: seq<Position>, ys': seq<Position>)
    requires forall q :: q in xs || q in xs' ==> q.tx == t
    requires forall q :: q in ys || q in ys' ==> q.tx > t
    ensures xs + ys == xs' + ys' <==> xs == xs' && ys == ys'
  {
    var z, z' := xs + ys, xs' + ys';
    if xs == [] {
      assert z == ys;
      assert if xs' == [] then z' == ys' else z'[0] == xs'[0];
    } else if xs' == [] {
      assert z' == ys' && z[0] == xs[0];
    } else {
      ConcatUnique(t, xs[1..], xs'[1..], ys, ys');
      assert z == [xs[0]] + (xs[1..] + ys) && z' == [xs'[0]] + (xs'[1..] + ys');
      assert z[1..] == xs[1..] + ys && z'[1..] == xs'[1..] + ys';
      assert xs == [xs[0]] + xs[1..] && xs' == [xs'[0]] + xs'[1..];
    }
  }

  lemma EntriesFromDef(b: Block, results: seq<ExecResult>, t: nat, count: nat)
    requires SafeBlock(b, results) && t < |b.txs|
    ensures var es := TxEntries(Place(b.height, t), b.txs[t], results[t], count);
            EntriesFrom(b, results, t, count) == es + EntriesFrom(b, results, t + 1, count + |es|)
  {
    hide TxEntries, Safe;
  }

  /** From transaction `t` on, index and scan agree exactly when the transactions are consistent. */
  ghost predicate AgreeExactly(b: Block, results: seq<ExecResult>, t: nat, count: nat)
    requires SafeBlock(b, results) && t <= |b.txs|
  {
    var ps, scan := PositionsOf(EntriesFrom(b, results, t, count)), ScanFrom(b, results, t);
    && (ps == scan <==> ConsistentFrom(b, results, t))
    && forall q :: q in ps || q in scan ==> q.tx >= t
  }

  ghost predicate ConsistentFrom(b: Block, results: seq<ExecResult>, t: nat)
    requires |b.txs| <= |results|
  {
    forall u :: t <= u < |b.txs| ==> Consistent(b.txs[u], results[u])
  }

  lemma ConsistentFromDef(b: Block, results: seq<ExecResult>, t: nat)
    requires t < |b.txs| <= |results|
    ensures ConsistentFrom(b, results, t) <==> Consistent(b.txs[t], results[t]) && ConsistentFrom(b, results, t + 1)
  {
    hide Consistent;
  }

  lemma AgreesStep(b: Block, results: seq<ExecResult>, t: nat, count: nat)
    requires SafeBlock(b, results) && Small(b) && t < |b.txs|
    requires AgreeExactly(b, results, t + 1, count + |TxEntries(Place(b.height, t), b.txs[t], results[t], count)|)
    ensures AgreeExactly(b, results, t, count)
  {
    hide *;
    SafeAt(b, results, t);
    var at, raw, r := Place(b.height, t), b.txs[t], results[t];
    var es, seen := TxEntries(at, raw, r, count), TxScan(t, raw, r);
    AgreeExactlyDef(b, results, t, count);
    AgreeExactlyDef(b, results, t + 1, count + |es|);
    EntriesFromDef(b, results, t, count);
    ScanFromDef(b, results, t);
    ConsistentFromDef(b, results, t);
    SegmentAgrees(at, raw, r, count);
    var rest, scan := EntriesFrom(b, results, t + 1, count + |es|), ScanFrom(b, results, t + 1);
    PositionsConcat(es, rest);
    ConcatUnique(t, PositionsOf(es), seen, PositionsOf(rest), scan);
    InConcat(t, PositionsOf(es), PositionsOf(rest));
    InConcat(t, seen, scan);
  }

  lemma SafeAt(b: Block, results: seq<ExecResult>, t: nat)
    requires SafeBlock(b, results) && Small(b) && t < |b.txs|
    ensures t < |results| && |b.txs| <= |results| && Safe(b.txs[t], results[t])
    ensures t < TWO_32 && (b.txs[t].Decodable? ==> |b.txs[t].tx.msgs| <= TWO_32)
  {
    hide Safe;
  }

  lemma InConcat(t: nat, xs: seq<Position>, ys: seq<Position>)
    requires forall q :: q in xs ==> q.tx == t
    requires forall q :: q in ys ==> q.tx >= t + 1
    ensures forall q :: q in xs + ys ==> q.tx >= t
  {
  }

  lemma AgreeExactlyDef(b: Block, results: seq<ExecResult>, t: nat, count: nat)
    requires SafeBlock(b, results) && t <= |b.txs|
    ensures AgreeExactly(b, results, t, count) <==>
            var ps, scan := PositionsOf(EntriesFrom(b, results, t, count)), ScanFrom(b, results, t);
            (ps == scan <==> ConsistentFrom(b, results, t))
            && (forall q :: q in ps ==> q.tx >= t) && (forall q :: q in scan ==> q.tx >= t)
  {
    hide Safe, EntriesFrom, ScanFrom, ConsistentFrom, PositionsOf;
  }

  lemma ScanFromDef(b: Block, results: seq<ExecResult>, t: nat)
    requires t < |b.txs| <= |results|
    ensures ScanFrom(b, results, t) == TxScan(t, b.txs[t], results[t]) + ScanFrom(b, results, t + 1)
  {
    hide TxScan;
  }

  lemma {:induction false} AgreesFrom(b: Block, results: seq<ExecResult>, t: nat, count: nat)
    requires SafeBlock(b, results) && Small(b) && t <= |b.txs|
    ensures AgreeExactly(b, results, t, count)
    decreases |b.txs| - t
  {
    hide TxEntries, Safe, TxScan, Consistent;
    if t < |b.txs| {
      var es := TxEntries(Place(b.height, t), b.txs[t], results[t], count);
      AgreesFrom(b, results, t + 1, count + |es|);
      hide AgreeExactly;
      AgreesStep(b, results, t, count);
    }
  }

  /** The index lists the same messages as the block scan, in the same order, if and only if every transaction
      of the block is consistent. */
  lemma IndexAgreesWithScan(b: Block, results: seq<ExecResult>)
    requires SafeBlock(b, results) && Small(b)
    ensures PositionsOf(BlockEntries(b, results)) == ScanFrom(b, results, 0)
            <==> forall t :: 0 <= t < |b.txs| ==> Consistent(b.txs[t], results[t])
  {
    AgreesFrom(b, results, 0, 0);
  }

  /** A message that succeeded without an event is in the scan and not in the index. */
  lemma ScannedButNotIndexed()
    ensures var b, results := Block(1, [ONE_MESSAGE]), [SILENT_SUCCESS];
            && SafeBlock(b, results) && !Consistent(ONE_MESSAGE, SILENT_SUCCESS)
            && BlockEntries(b, results) == [] && ScanFrom(b, results, 0) == [Position(0, 0)]
  {
    var b, results := Block(1, [ONE_MESSAGE]), [SILENT_SUCCESS];
    assert EthAttributes([]) == [];
    assert ParseTxResult(SILENT_SUCCESS, Some(ONE_MESSAGE.tx.msgs)).Ok?;
    StoredIff(Place(1, 0), ONE_MESSAGE, SILENT_SUCCESS, 0, 0);
    assert EthPositions(0, ONE_MESSAGE.tx.msgs, 0) == [Position(0, 0)];
    EntriesFromDef(b, results, 0, 0);
    ScanFromDef(b, results, 0);
  }

  // ----- numbering, and reading the index back -----

  /** Entries are of block `height` and numbered from `count`. */
  ghost predicate Numbered(es: seq<Entry>, height: int, count: nat) {
    forall i :: 0 <= i < |es| ==> es[i].rec.height == height && es[i].rec.ethTxIndex == ToInt32(count + i)
  }

  lemma TxEntriesNumbered(at: Place, raw: RawTx, r: ExecResult, count: nat)
    requires Safe(raw, r)
    ensures Numbered(TxEntries(at, raw, r, count), at.height, count)
  {
    hide ParseTxResult, MsgEntries, ToInt32;
    if Accepted(r) && raw.Decodable? && IsEthTx(raw.tx) && ParseTxResult(r, Some(raw.tx.msgs)).Ok? {
      var txs := ParseTxResult(r, Some(raw.tx.msgs)).p.txs;
      var es := MsgEntries(at, r.code, raw.tx.msgs, txs, 0, count, 0);
      MsgEntriesLength(at, r.code, raw.tx.msgs, txs, 0, count, 0);
      forall k | 0 <= k < |es|
        ensures es[k].rec.height == at.height && es[k].rec.ethTxIndex == ToInt32(count + k)
      {
        MsgEntriesAt(at, r.code, raw.tx.msgs, txs, 0, count, 0, k);
      }
    }
  }

  lemma {:induction false} EntriesNumbered(b: Block, results: seq<ExecResult>, t: nat, count: nat)
    requires SafeBlock(b, results) && t <= |b.txs|
    ensures Numbered(EntriesFrom(b, results, t, count), b.height, count)
    decreases |b.txs| - t
  {
    hide ToInt32, TxEntries, Safe;
    if t < |b.txs| {
      var es := TxEntries(Place(b.height, t), b.txs[t], results[t], count);
      TxEntriesNumbered(Place(b.height, t), b.txs[t], results[t], count);
      EntriesNumbered(b, results, t + 1, count + |es|);
    }
  }

  ghost predicate DistinctHashes(es: seq<Entry>) {
    forall i, j :: 0 <= i < j < |es| ==> es[i].hash != es[j].hash
  }

  /** No more entries than int32 numbers. */
  lemma NumberedApart(es: seq<Entry>, height: int)
    requires Numbered(es, height, 0) && DistinctHashes(es) && |es| <= TWO_31
    ensures PairwiseApart(es)
    ensures forall i :: 0 <= i < |es| ==> es[i].rec.ethTxIndex == i
  {
    forall i | 0 <= i < |es|
      ensures es[i].rec.ethTxIndex == i
    {
      assert ToInt32(i) == i;
    }
  }

  /** After IndexBlock, index `i` of the block leads to the record of the message that the block scan lists at
      place `i`, numbered `i`; and to nothing past the end of the list. */
  lemma LookupByBlockAndIndex(db: Store, b: Block, results: seq<ExecResult>, i: nat)
    requires SafeBlock(b, results) && Small(b) && b.height > 0
    requires forall t :: 0 <= t < |b.txs| ==> Consistent(b.txs[t], results[t])
    requires DistinctHashes(BlockEntries(b, results)) && |BlockEntries(b, results)| <= TWO_31
    requires i < TWO_31
    ensures var scan := ScanFrom(b, results, 0);
            var after := SaveAll(db, BlockEntries(b, results));
            if i < |scan| then
              var l := GetByBlockAndIndex(after, b.height, i);
              l.Found? && Position(l.rec.txIndex, l.rec.msgIndex) == scan[i] && l.rec.ethTxIndex == i
            else !HasHeight(db, b.height) ==> GetByBlockAndIndex(after, b.height, i).NotFound?
  {
    var es := BlockEntries(b, results);
    IndexAgreesWithScan(b, results);
    EntriesNumbered(b, results, 0, 0);
    NumberedApart(es, b.height);
    hide *;
    BlockEntriesDef(b, results);
    PositionsDef(es);
    if i < |es| {
      SaveAllHolds(db, es, i);
      LookupHeld(SaveAll(db, es), es[i]);
      NonZero(es[i].rec, b.height);
    } else {
      PastTheEnd(db, es, b.height, i);
    }
  }

  lemma BlockEntriesDef(b: Block, results: seq<ExecResult>)
    requires SafeBlock(b, results)
    ensures BlockEntries(b, results) == EntriesFrom(b, results, 0, 0)
  {
  }

  lemma PositionsDef(es: seq<Entry>)
    ensures |PositionsOf(es)| == |es|
    ensures forall i :: 0 <= i < |es| ==> PositionsOf(es)[i] == Position(es[i].rec.txIndex, es[i].rec.msgIndex)
  {
  }

  /** No block above height 0 has an entry with the record of zeros, the one that cannot be looked up. */
  lemma IndexedIsNonZero(b: Block, results: seq<ExecResult>, i: nat)
    requires SafeBlock(b, results) && b.height > 0 && i < |BlockEntries(b, results)|
    ensures BlockEntries(b, results)[i].rec != ZERO
  {
    hide EntriesFrom, SafeBlock, ToInt32;
    EntriesNumbered(b, results, 0, 0);
    NonZero(BlockEntries(b, results)[i].rec, b.height);
  }

  lemma NonZero(r: TxResult, height: int)
    requires r.height == height > 0
    ensures r != ZERO
  {
  }

  lemma PastTheEnd(db: Store, es: seq<Entry>, height: Int64, i: Int32)
    requires height >= 0 && i >= |es|
    requires forall j :: 0 <= j < |es| ==> es[j].rec.height == height && es[j].rec.ethTxIndex == j
    ensures !HasHeight(db, height) ==> GetByBlockAndIndex(SaveAll(db, es), height, i).NotFound?
  {
    if !HasHeight(db, height) {
      var k := TxIndexKey(height, i);
      SaveAllKeys(db, es, k);
      forall j | 0 <= j < |es|
        ensures !KeyOf(es[j], k)
      {
        FamiliesApart(es[j].hash, height, i);
        if k == TxIndexKey(height, j) {
          IndexKeyInjective(height, i, height, j);
        }
      }
    }
  }
}
