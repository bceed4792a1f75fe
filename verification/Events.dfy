/** Reading Ethereum transaction data out of Cosmos events, in both event formats. */
module Events {
  import opened MachineInts
  import opened KvStore
  import opened Decimal

  // ----- hashes -----

  type Hash = h: seq<Byte> | |h| == 32 witness Zeros(32)

  function HexDigit(c: char): Option<nat> {
    if '0' <= c <= '9' then Some((c - '0') as nat)
    else if 'a' <= c <= 'f' then Some((c - 'a') as nat + 10)
    else if 'A' <= c <= 'F' then Some((c - 'A') as nat + 10)
    else None
  }

  /** hex.DecodeString with its error ignored: the pairs before the first bad one. */
  function DecodeHex(s: string): seq<Byte> {
    if |s| < 2 || HexDigit(s[0]).None? || HexDigit(s[1]).None? then []
    else HexByte(s[0], s[1]) + DecodeHex(s[2..])
  }

  function HexByte(hi: char, lo: char): (bs: seq<Byte>)
    requires HexDigit(hi).Some? && HexDigit(lo).Some?
  {
    [16 * HexDigit(hi).value + HexDigit(lo).value]
  }

  /** common.BytesToHash: crops on the left, pads on the left. */
  function BytesToHash(bs: seq<Byte>): Hash {
    if |bs| > 32 then bs[|bs| - 32..] else Zeros(32 - |bs|) + bs
  }

  /** common.HexToHash */
  function HexToHash(s: string): Hash {
    var digits := if |s| >= 2 && s[0] == '0' && (s[1] == 'x' || s[1] == 'X') then s[2..] else s;
    BytesToHash(DecodeHex(if |digits| % 2 == 1 then "0" + digits else digits))
  }

  lemma HashOfHash(h: Hash)
    ensures BytesToHash(h) == h
  {
    assert Zeros(0) + h == h;
  }

  // ----- events and what is parsed from them -----

  datatype Attribute = Attribute(key: string, value: string)
  datatype Event = Event(kind: string, attributes: seq<Attribute>)

  const ETHEREUM_TX := "ethereum_tx"
  const TX_LOG := "tx_log"
  const KEY_HASH := "ethereumTxHash"
  const KEY_TX_INDEX := "txIndex"
  const KEY_GAS_USED := "txGasUsed"
  const KEY_FAILED := "ethereumTxFailed"

  datatype ParsedTx = ParsedTx(msgIndex: nat, hash: Hash, ethTxIndex: Int32, gasUsed: Uint64, failed: bool)

  const ZERO_HASH: Hash := Zeros(32)

  function NewParsedTx(msgIndex: nat): ParsedTx {
    ParsedTx(msgIndex, ZERO_HASH, -1, 0, false)
  }

  function FillAttribute(tx: ParsedTx, a: Attribute): Option<ParsedTx> {
    if a.key == KEY_HASH then Some(tx.(hash := HexToHash(a.value)))
    else if a.key == KEY_TX_INDEX then
      (match ParseUint(a.value, TWO_31) case None => None case Some(i) => Some(tx.(ethTxIndex := i)))
    else if a.key == KEY_GAS_USED then
      (match ParseUint(a.value, TWO_64) case None => None case Some(g) => Some(tx.(gasUsed := g)))
    else if a.key == KEY_FAILED then Some(tx.(failed := |a.value| > 0))
    else Some(tx)
  }

  function Fill(tx: ParsedTx, attrs: seq<Attribute>): (r: Option<ParsedTx>)
    ensures r.Some? ==> r.value.msgIndex == tx.msgIndex
    decreases |attrs|
  {
    if attrs == [] then Some(tx)
    else
      match FillAttribute(tx, attrs[0])
      case None => None
      case Some(tx') => Fill(tx', attrs[1..])
  }

  datatype Parsed = Parsed(txs: seq<ParsedTx>, hashes: map<Hash, nat>)

  /** `OutOfRange` is Go's index-out-of-range panic. */
  datatype Outcome = Ok(p: Parsed) | Malformed | OutOfRange

  function AddTx(p: Parsed, attrs: seq<Attribute>): Outcome {
    match Fill(NewParsedTx(|p.txs|), attrs)
    case None => Malformed
    case Some(tx) => Ok(Parsed(p.txs + [tx], p.hashes[tx.hash := |p.txs|]))
  }

  function UpdateTx(p: Parsed, i: nat, attrs: seq<Attribute>): Outcome {
    match Fill(NewParsedTx(i), attrs)
    case None => Malformed
    case Some(tx) =>
      if i >= |p.txs| then OutOfRange
      else Ok(Parsed(p.txs[i := tx], if tx.hash != p.txs[i].hash then p.hashes[tx.hash := i] else p.hashes))
  }

  datatype Format = Undecided | Format1 | Format2

  /** The state of the loop over the events; `seen` counts the events with other than two attributes. */
  datatype Scan = Scan(format: Format, seen: nat, p: Parsed)

  const START := Scan(Undecided, 0, Parsed([], map[]))

  function Decide(f: Format, attrs: seq<Attribute>): Format {
    if f.Undecided? then (if |attrs| > 2 then Format1 else Format2) else f
  }

  /** One `ethereum_tx` event. */
  function ScanOne(s: Scan, attrs: seq<Attribute>): (Outcome, Scan) {
    var f := Decide(s.format, attrs);
    if |attrs| == 2 then
      var o := AddTx(s.p, attrs);
      (o, Scan(f, s.seen, if o.Ok? then o.p else s.p))
    else
      var o := if f.Format1? then AddTx(s.p, attrs) else UpdateTx(s.p, s.seen, attrs);
      (o, Scan(f, s.seen + 1, if o.Ok? then o.p else s.p))
  }

  /** The attribute lists of the `ethereum_tx` events, in order. */
  function EthAttributes(events: seq<Event>): seq<seq<Attribute>> {
    if events == [] then []
    else (if events[0].kind == ETHEREUM_TX then [events[0].attributes] else []) + EthAttributes(events[1..])
  }

  function ScanAll(s: Scan, lists: seq<seq<Attribute>>): (Outcome, Scan)
    decreases |lists|
  {
    if lists == [] then (Ok(s.p), s)
    else
      var (o, s') := ScanOne(s, lists[0]);
      if o.Ok? then ScanAll(s', lists[1..]) else (o, s')
  }

  // ----- ParseTxResult -----

  datatype Msg = EthMsg(hash: Hash, gas: Uint64) | OtherMsg
  datatype ExecResult =
    ExecResult(code: nat, blockGasExceeded: bool, commitError: bool, gasUsed: Int64, events: seq<Event>)

  /** Every parsed transaction charged its message's gas limit; `OutOfRange` when there is no such message, or
      it is not an Ethereum one. */
  function ChargeLimits(txs: seq<ParsedTx>, msgs: seq<Msg>): (r: Option<seq<ParsedTx>>)
    ensures r.Some? <==> |txs| <= |msgs| && forall i :: 0 <= i < |txs| ==> msgs[i].EthMsg?
    ensures r.Some? ==> |r.value| == |txs|
    ensures r.Some? ==> forall i :: 0 <= i < |txs| ==> r.value[i] == txs[i].(failed := true, gasUsed := msgs[i].gas)
  {
    if txs == [] then Some([])
    else if msgs == [] || !msgs[0].EthMsg? then None
    else
      match ChargeLimits(txs[1..], msgs[1..])
      case None => None
      case Some(rest) => Some([txs[0].(failed := true, gasUsed := msgs[0].gas)] + rest)
  }

  function SoleGas(txs: seq<ParsedTx>, gas: Uint64): seq<ParsedTx> {
    if |txs| == 1 then [txs[0].(gasUsed := gas)] else txs
  }

  /** `msgs` is None when the caller passes no decoded transaction. */
  function ParseTxResult(result: ExecResult, msgs: Option<seq<Msg>>): Outcome {
    var (o, _) := ScanAll(START, EthAttributes(result.events));
    if !o.Ok? then o
    else
      var txs := SoleGas(o.p.txs, ToUint64(result.gasUsed));
      if result.code != 0 && msgs.Some? then
        match ChargeLimits(txs, msgs.value)
        case None => OutOfRange
        case Some(txs') => Ok(o.p.(txs := txs'))
      else Ok(o.p.(txs := txs))
  }

  // ----- what every parse keeps -----

  ghost predicate Coherent(p: Parsed) {
    && (forall i :: 0 <= i < |p.txs| ==> p.txs[i].msgIndex == i)
    && (forall h :: h in p.hashes ==> p.hashes[h] < |p.txs|)
    && (forall i :: 0 <= i < |p.txs| ==> p.txs[i].hash in p.hashes)
  }

  lemma AddTxCoherent(p: Parsed, attrs: seq<Attribute>)
    requires Coherent(p) && AddTx(p, attrs).Ok?
    ensures Coherent(AddTx(p, attrs).p)
  {
  }

  lemma UpdateTxCoherent(p: Parsed, i: nat, attrs: seq<Attribute>)
    requires Coherent(p) && UpdateTx(p, i, attrs).Ok?
    ensures Coherent(UpdateTx(p, i, attrs).p)
  {
  }

  lemma {:induction false} ScanCoherent(s: Scan, lists: seq<seq<Attribute>>)
    requires Coherent(s.p) && ScanAll(s, lists).0.Ok?
    ensures Coherent(ScanAll(s, lists).0.p)
    decreases |lists|
  {
    if lists != [] {
      var (o, s') := ScanOne(s, lists[0]);
      if |lists[0]| == 2 || Decide(s.format, lists[0]).Format1? {
        AddTxCoherent(s.p, lists[0]);
      } else {
        UpdateTxCoherent(s.p, s.seen, lists[0]);
      }
      ScanCoherent(s', lists[1..]);
    }
  }

  /** Whatever the events: message indexes are positions, every hash leads to a position, and every parsed
      hash can be looked up. */
  lemma ParseCoherent(result: ExecResult, msgs: Option<seq<Msg>>)
    requires ParseTxResult(result, msgs).Ok?
    ensures Coherent(ParseTxResult(result, msgs).p)
  {
    hide ScanAll;
    ScanCoherent(START, EthAttributes(result.events));
  }

  // ----- the two formats -----

  ghost predicate AllFill(lists: seq<seq<Attribute>>) {
    forall i :: 0 <= i < |lists| ==> Fill(NewParsedTx(i), lists[i]).Some?
  }

  /** Attribute lists read one per message. */
  function Filled(lists: seq<seq<Attribute>>): (txs: seq<ParsedTx>)
    requires AllFill(lists)
    ensures |txs| == |lists|
  {
    if lists == [] then []
    else
      var n := |lists| - 1;
      Filled(lists[..n]) + [Fill(NewParsedTx(n), lists[n]).value]
  }

  lemma {:induction false} FilledSnoc(lists: seq<seq<Attribute>>, n: nat)
    requires AllFill(lists) && n + 1 == |lists|
    ensures lists == lists[..n] + [lists[n]] && AllFill(lists[..n])
    ensures Filled(lists) == Filled(lists[..n]) + [Fill(NewParsedTx(n), lists[n]).value]
  {
    hide Fill, AllFill, Filled;
    AllFillInit(lists, n);
    FilledDef(lists, n);
    assert lists == lists[..n] + [lists[n]];
  }

  lemma AllFillInit(lists: seq<seq<Attribute>>, n: nat)
    requires AllFill(lists) && n < |lists|
    ensures AllFill(lists[..n]) && Fill(NewParsedTx(n), lists[n]).Some?
  {
    hide Fill;
  }

  lemma FilledDef(lists: seq<seq<Attribute>>, n: nat)
    requires AllFill(lists) && n + 1 == |lists| && AllFill(lists[..n]) && Fill(NewParsedTx(n), lists[n]).Some?
    ensures Filled(lists) == Filled(lists[..n]) + [Fill(NewParsedTx(n), lists[n]).value]
  {
    hide Fill, AllFill;
  }

  /** The hashes of a transaction list. */
  function HashesOf(txs: seq<ParsedTx>): (hs: seq<Hash>)
    ensures |hs| == |txs| && forall i :: 0 <= i < |txs| ==> hs[i] == txs[i].hash
  {
    if txs == [] then [] else [txs[0].hash] + HashesOf(txs[1..])
  }

  lemma {:induction false} ScanAppend(s: Scan, xs: seq<seq<Attribute>>, ys: seq<seq<Attribute>>)
    requires ScanAll(s, xs).0.Ok?
    ensures ScanAll(s, xs + ys) == ScanAll(ScanAll(s, xs).1, ys)
    decreases |xs|
  {
    if xs == [] {
      assert xs + ys == ys;
    } else {
      assert (xs + ys)[1..] == xs[1..] + ys;
      ScanAppend(ScanOne(s, xs[0]).1, xs[1..], ys);
    }
  }

  /** Where a scan of `lists` from the start stands. */
  lemma {:induction false} ScanSnoc(lists: seq<seq<Attribute>>, attrs: seq<Attribute>)
    requires ScanAll(START, lists).0.Ok?
    ensures var s := ScanAll(START, lists).1;
            ScanAll(START, lists + [attrs]) ==
            var (o, s') := ScanOne(s, attrs); (if o.Ok? then Ok(s'.p) else o, s')
  {
    ScanAppend(START, lists, [attrs]);
    var s := ScanAll(START, lists).1;
    assert [attrs][1..] == [];
  }

  /** A format-1 stream: every event appends. */
  lemma {:induction false} ScanFormat1(fulls: seq<seq<Attribute>>)
    requires AllFill(fulls) && forall i :: 0 <= i < |fulls| ==> |fulls[i]| > 2
    ensures var (o, s) := ScanAll(START, fulls);
            o == Ok(s.p) && s.p.txs == Filled(fulls) && s.seen == |fulls| && (fulls != [] ==> s.format == Format1)
            && (fulls == [] ==> s.format == Undecided)
    ensures LastAnnounced(ScanAll(START, fulls).1.p.hashes, HashesOf(Filled(fulls)))
  {
    hide Fill, Filled, HashesOf, ScanAll, LastAnnounced;
    if fulls == [] {
      NothingAnnounced(fulls);
    } else {
      var n := |fulls| - 1;
      var init := fulls[..n];
      FilledSnoc(fulls, n);
      ScanFormat1(init);
      var tx := Fill(NewParsedTx(n), fulls[n]).value;
      assert HashesOf(Filled(fulls)) == HashesOf(Filled(init)) + [tx.hash];
      LastAnnouncedSnoc(ScanAll(START, init).1.p.hashes, HashesOf(Filled(init)), tx.hash);
      ScanSnoc(init, fulls[n]);
    }
  }

  /** The announcements of a format-2 stream append, each with the hash and index it announces. */
  lemma {:induction false} ScanAnnouncements(anns: seq<seq<Attribute>>)
    requires AllFill(anns) && forall i :: 0 <= i < |anns| ==> |anns[i]| == 2
    ensures var (o, s) := ScanAll(START, anns);
            o == Ok(s.p) && s.p.txs == Filled(anns) && s.seen == 0 && (anns != [] ==> s.format == Format2)
            && (anns == [] ==> s.format == Undecided)
    ensures LastAnnounced(ScanAll(START, anns).1.p.hashes, HashesOf(Filled(anns)))
  {
    hide Fill, Filled, HashesOf, ScanAll, LastAnnounced;
    if anns == [] {
      NothingAnnounced(anns);
    } else {
      var n := |anns| - 1;
      var init := anns[..n];
      FilledSnoc(anns, n);
      ScanAnnouncements(init);
      var tx := Fill(NewParsedTx(n), anns[n]).value;
      assert HashesOf(Filled(anns)) == HashesOf(Filled(init)) + [tx.hash];
      LastAnnouncedSnoc(ScanAll(START, init).1.p.hashes, HashesOf(Filled(init)), tx.hash);
      ScanSnoc(init, anns[n]);
    }
  }

  lemma NothingAnnounced(anns: seq<seq<Attribute>>)
    requires anns == []
    ensures AllFill(anns) && Filled(anns) == [] && ScanAll(START, anns) == (Ok(START.p), START)
    ensures LastAnnounced(START.p.hashes, HashesOf(Filled(anns)))
  {
    hide Fill;
  }

  /** The hash map after transactions with the hashes `a` were added: the last one with a given hash wins. */
  ghost predicate LastAnnounced(m: map<Hash, nat>, a: seq<Hash>) {
    && (forall h :: h in m ==> m[h] < |a| && a[m[h]] == h)
    && (forall j :: 0 <= j < |a| ==> a[j] in m && j <= m[a[j]])
  }

  lemma LastAnnouncedSnoc(m: map<Hash, nat>, a: seq<Hash>, h: Hash)
    requires LastAnnounced(m, a)
    ensures LastAnnounced(m[h := |a|], a + [h])
  {
  }

  /** A format-2 stream of `n` announcements and `k <= n` full events. */
  ghost predicate Format2Stream(anns: seq<seq<Attribute>>, fulls: seq<seq<Attribute>>) {
    && AllFill(anns) && AllFill(fulls) && |fulls| <= |anns|
    && (forall i :: 0 <= i < |anns| ==> |anns[i]| == 2)
    && (forall i :: 0 <= i < |fulls| ==> |fulls[i]| != 2)
  }

  /** Each full event replaces the announced transaction at its position. */
  lemma {:induction false} ScanFormat2(anns: seq<seq<Attribute>>, fulls: seq<seq<Attribute>>)
    requires Format2Stream(anns, fulls)
    ensures var (o, s) := ScanAll(START, anns + fulls);
            o == Ok(s.p) && s.seen == |fulls| && s.p.txs == Filled(fulls) + Filled(anns)[|fulls|..]
            && (anns != [] ==> s.format == Format2)
  {
    hide Fill, Filled, ScanAll;
    if fulls == [] {
      ScanAnnouncements(anns);
      assert anns + fulls == anns;
      assert Filled(fulls) + Filled(anns)[|fulls|..] == Filled(anns);
    } else {
      var n := |fulls| - 1;
      var init := fulls[..n];
      FilledSnoc(fulls, n);
      ScanFormat2(anns, init);
      assert anns + fulls == (anns + init) + [fulls[n]];
      UpdatePrefix(Filled(init), Filled(anns), n, Fill(NewParsedTx(n), fulls[n]).value);
      ScanSnoc(anns + init, fulls[n]);
    }
  }

  lemma UpdatePrefix(done: seq<ParsedTx>, all: seq<ParsedTx>, n: nat, tx: ParsedTx)
    requires |done| == n < |all|
    ensures |done + all[n..]| == |all| && (done + all[n..])[n] == all[n]
    ensures (done + all[n..])[n := tx] == (done + [tx]) + all[n + 1..]
  {
  }

  /** Full event `j` carries the hash `h` where another was announced. */
  ghost predicate Corrects(a: seq<Hash>, f: seq<Hash>, h: Hash, j: int)
    requires |f| <= |a|
  {
    0 <= j < |f| && f[j] == h && a[j] != h
  }

  /** The hash map after full events with the hashes `f`, over announcements of `a`: a corrected hash leads to
      the last message corrected to it, any other announced hash where the announcements left it. */
  ghost predicate HashesAfter(m: map<Hash, nat>, announced: map<Hash, nat>, a: seq<Hash>, f: seq<Hash>)
    requires |f| <= |a|
  {
    && (forall h, j :: Corrects(a, f, h, j) ==> h in m && j <= m[h] && Corrects(a, f, h, m[h]))
    && (forall h :: h in announced ==> h in m && (m[h] == announced[h] || Corrects(a, f, h, m[h])))
    && (forall h :: h in m ==> h in announced || Corrects(a, f, h, m[h]))
  }

  lemma CorrectNext(m: map<Hash, nat>, announced: map<Hash, nat>, a: seq<Hash>, f: seq<Hash>, h: Hash)
    requires |f| < |a| && HashesAfter(m, announced, a, f)
    ensures HashesAfter(if h != a[|f|] then m[h := |f|] else m, announced, a, f + [h])
  {
    assert forall x, j :: Corrects(a, f + [h], x, j) <==> Corrects(a, f, x, j) || (j == |f| && x == h && a[j] != h);
  }

  lemma {:induction false} HashesFormat2(anns: seq<seq<Attribute>>, fulls: seq<seq<Attribute>>)
    requires Format2Stream(anns, fulls)
    ensures HashesAfter(ScanAll(START, anns + fulls).1.p.hashes, ScanAll(START, anns).1.p.hashes,
                        HashesOf(Filled(anns)), HashesOf(Filled(fulls)))
  {
    hide Fill, Filled, HashesOf, ScanAll, HashesAfter, Format2Stream;
    if fulls == [] {
      assert anns + fulls == anns;
      NoneCorrected(anns, fulls);
    } else {
      var n := |fulls| - 1;
      HashesNext(anns, fulls, n);
      HashesSnoc(anns, fulls, n);
      HashesFormat2(anns, fulls[..n]);
      CorrectNext(ScanAll(START, anns + fulls[..n]).1.p.hashes, ScanAll(START, anns).1.p.hashes,
                  HashesOf(Filled(anns)), HashesOf(Filled(fulls[..n])), Fill(NewParsedTx(n), fulls[n]).value.hash);
    }
  }

  lemma NoneCorrected(anns: seq<seq<Attribute>>, fulls: seq<seq<Attribute>>)
    requires Format2Stream(anns, fulls) && fulls == []
    ensures var m := ScanAll(START, anns).1.p.hashes;
            HashesAfter(m, m, HashesOf(Filled(anns)), HashesOf(Filled(fulls)))
  {
    hide Fill, ScanAll;
  }

  lemma HashesSnoc(anns: seq<seq<Attribute>>, fulls: seq<seq<Attribute>>, n: nat)
    requires Format2Stream(anns, fulls) && n + 1 == |fulls|
    ensures AllFill(fulls[..n]) && Fill(NewParsedTx(n), fulls[n]).Some?
    ensures HashesOf(Filled(fulls)) == HashesOf(Filled(fulls[..n])) + [Fill(NewParsedTx(n), fulls[n]).value.hash]
    ensures AllFill(anns) && n < |Filled(anns)| && HashesOf(Filled(anns))[n] == Filled(anns)[n].hash
  {
    hide Fill, Filled;
    FilledSnoc(fulls, n);
  }

  /** What the full event of message `n` does to the hash map. */
  lemma HashesNext(anns: seq<seq<Attribute>>, fulls: seq<seq<Attribute>>, n: nat)
    requires Format2Stream(anns, fulls) && n + 1 == |fulls|
    ensures Format2Stream(anns, fulls[..n])
    ensures var m := ScanAll(START, anns + fulls[..n]).1.p.hashes;
            var h := Fill(NewParsedTx(n), fulls[n]).value.hash;
            ScanAll(START, anns + fulls).1.p.hashes == if h != Filled(anns)[n].hash then m[h := n] else m
  {
    hide Fill;
    var init := fulls[..n];
    FilledSnoc(fulls, n);
    ScanFormat2(anns, init);
    UpdatePrefix(Filled(init), Filled(anns), n, Fill(NewParsedTx(n), fulls[n]).value);
    assert anns + fulls == (anns + init) + [fulls[n]];
    hide ScanAll, Filled;
    ScanSnoc(anns + init, fulls[n]);
  }

  /** Format equivalence: the announcements, right or wrong, leave no trace in the transactions once the full
      events have arrived. */
  lemma FormatsAgree(r1: ExecResult, r2: ExecResult, anns: seq<seq<Attribute>>, fulls: seq<seq<Attribute>>,
                     msgs: Option<seq<Msg>>)
    requires EthAttributes(r1.events) == fulls && EthAttributes(r2.events) == anns + fulls
    requires Format2Stream(anns, fulls) && |anns| == |fulls|
    requires forall i :: 0 <= i < |fulls| ==> |fulls[i]| > 2
    requires r1.code == r2.code && r1.gasUsed == r2.gasUsed
    ensures match ParseTxResult(r1, msgs)
            case Ok(p1) => ParseTxResult(r2, msgs).Ok? && ParseTxResult(r2, msgs).p.txs == p1.txs
            case o => ParseTxResult(r2, msgs) == o
  {
    hide Fill, Filled, ScanAll;
    ScanFormat1(fulls);
    ScanFormat2(anns, fulls);
    assert Filled(fulls) + Filled(anns)[|fulls|..] == Filled(fulls);
  }

  /** A transaction out of block gas emits announcements only: every message keeps its announced hash and index. */
  lemma AnnouncementsOnly(r: ExecResult, anns: seq<seq<Attribute>>, msgs: Option<seq<Msg>>)
    requires EthAttributes(r.events) == anns && Format2Stream(anns, [])
    requires ParseTxResult(r, msgs).Ok?
    ensures SameIdentity(ParseTxResult(r, msgs).p.txs, Filled(anns))
  {
    hide Fill, Filled, ScanAll;
    ScanAnnouncements(anns);
  }

  /** Two transaction lists agree in everything but gas and the failed flag. */
  ghost predicate SameIdentity(xs: seq<ParsedTx>, ys: seq<ParsedTx>) {
    && |xs| == |ys|
    && forall i :: 0 <= i < |xs| ==> xs[i].(gasUsed := 0, failed := false) == ys[i].(gasUsed := 0, failed := false)
  }

  // ----- looking a transaction up by hash -----

  function GetTxByHash(p: Parsed, h: Hash): Option<ParsedTx>
    requires Coherent(p)
  {
    if h in p.hashes then Some(p.txs[p.hashes[h]]) else None
  }

  function GetTxByMsgIndex(p: Parsed, i: int): Option<ParsedTx> {
    if i < 0 || i >= |p.txs| then None else Some(p.txs[i])
  }

  function GetTxByTxIndex(p: Parsed, txIndex: int): Option<ParsedTx> {
    if p.txs == [] then None else GetTxByMsgIndex(p, txIndex - p.txs[0].ethTxIndex)
  }

  /** The message a hash leads to: the last one corrected to it by a full event or, if there is none, the last one
      announced with it. */
  ghost predicate Leads(a: seq<Hash>, f: seq<Hash>, h: Hash, i: nat)
    requires |f| <= |a|
  {
    if exists j :: Corrects(a, f, h, j) then Corrects(a, f, h, i) && forall j :: Corrects(a, f, h, j) ==> j <= i
    else i < |a| && a[i] == h && forall j :: i < j < |a| ==> a[j] != h
  }

  /** After a format-2 stream, complete or not, looking up any hash finds message `i` exactly when the hash leads to
      it. A message is found by its own hash unless another message has taken the hash over in one of these ways. */
  lemma HashLookupExact(r: ExecResult, anns: seq<seq<Attribute>>, fulls: seq<seq<Attribute>>,
                        msgs: Option<seq<Msg>>, h: Hash, i: nat)
    requires EthAttributes(r.events) == anns + fulls && Format2Stream(anns, fulls)
    requires ParseTxResult(r, msgs).Ok? && i < |anns|
    ensures var p := ParseTxResult(r, msgs).p;
            var a, f := HashesOf(Filled(anns)), HashesOf(Filled(fulls));
            Coherent(p) && |p.txs| == |anns| && p.txs[i].hash == (f + a[|f|..])[i]
            && (GetTxByHash(p, h) == Some(p.txs[i]) <==> Leads(a, f, h, i))
  {
    hide Fill, Filled, ScanAll, ParseTxResult, EthAttributes, Leads, HashesAfter, LastAnnounced;
    var p := ParseTxResult(r, msgs).p;
    ParseCoherent(r, msgs);
    FinalTxs(r, anns, fulls, msgs);
    ScanAnnouncements(anns);
    HashesFormat2(anns, fulls);
    LookupByHash(p, ScanAll(START, anns).1.p.hashes, HashesOf(Filled(anns)), HashesOf(Filled(fulls)), h, i);
  }

  /** In the old format the last message with a hash is found by it. */
  lemma HashLookupFormat1(r: ExecResult, fulls: seq<seq<Attribute>>, msgs: Option<seq<Msg>>, h: Hash, i: nat)
    requires EthAttributes(r.events) == fulls && AllFill(fulls) && forall j :: 0 <= j < |fulls| ==> |fulls[j]| > 2
    requires ParseTxResult(r, msgs).Ok? && i < |fulls|
    ensures var p := ParseTxResult(r, msgs).p;
            var a := HashesOf(Filled(fulls));
            Coherent(p) && |p.txs| == |fulls| && p.txs[i].hash == a[i]
            && (GetTxByHash(p, h) == Some(p.txs[i]) <==> Leads(a, [], h, i))
  {
    hide Fill, Filled, ScanAll, EthAttributes, Leads, LastAnnounced;
    var p := ParseTxResult(r, msgs).p;
    ParseCoherent(r, msgs);
    ScanFormat1(fulls);
    NoneCorrectedYet(p.hashes, HashesOf(Filled(fulls)));
    LookupByHash(p, p.hashes, HashesOf(Filled(fulls)), [], h, i);
  }

  lemma Format1Txs(r: ExecResult, fulls: seq<seq<Attribute>>, msgs: Option<seq<Msg>>)
    requires EthAttributes(r.events) == fulls && AllFill(fulls) && forall j :: 0 <= j < |fulls| ==> |fulls[j]| > 2
    requires ParseTxResult(r, msgs).Ok?
    ensures SameIdentity(ParseTxResult(r, msgs).p.txs, Filled(fulls))
  {
    hide Fill, Filled, ScanAll;
    ScanFormat1(fulls);
  }

  lemma NoneCorrectedYet(m: map<Hash, nat>, a: seq<Hash>)
    ensures HashesAfter(m, m, a, [])
  {
  }

  /** What a format-2 stream leaves, gas and the failed flag aside: the full events, then the announcements that got
      none. */
  lemma FinalTxs(r: ExecResult, anns: seq<seq<Attribute>>, fulls: seq<seq<Attribute>>, msgs: Option<seq<Msg>>)
    requires EthAttributes(r.events) == anns + fulls && Format2Stream(anns, fulls)
    requires ParseTxResult(r, msgs).Ok?
    ensures SameIdentity(ParseTxResult(r, msgs).p.txs, Filled(fulls) + Filled(anns)[|fulls|..])
    ensures ParseTxResult(r, msgs).p.hashes == ScanAll(START, anns + fulls).1.p.hashes
  {
    hide Fill, Filled, ScanAll;
    ScanFormat2(anns, fulls);
  }

  /** The Ethereum index a format-2 stream leaves for message `k`. */
  ghost function FinalIndex(anns: seq<seq<Attribute>>, fulls: seq<seq<Attribute>>, k: nat): Int32
    requires Format2Stream(anns, fulls) && k < |anns|
  {
    if k < |fulls| then Filled(fulls)[k].ethTxIndex else Filled(anns)[k].ethTxIndex
  }

  lemma FinalIndexes(r: ExecResult, anns: seq<seq<Attribute>>, fulls: seq<seq<Attribute>>, msgs: Option<seq<Msg>>)
    requires EthAttributes(r.events) == anns + fulls && Format2Stream(anns, fulls)
    requires ParseTxResult(r, msgs).Ok?
    ensures var txs := ParseTxResult(r, msgs).p.txs;
            |txs| == |anns| && forall k :: 0 <= k < |anns| ==> txs[k].ethTxIndex == FinalIndex(anns, fulls, k)
  {
    hide Fill, Filled, ParseTxResult, EthAttributes;
    FinalTxs(r, anns, fulls, msgs);
  }

  lemma LookupByHash(p: Parsed, announced: map<Hash, nat>, a: seq<Hash>, f: seq<Hash>, h: Hash, i: nat)
    requires Coherent(p) && |f| <= |a| == |p.txs| && i < |a|
    requires LastAnnounced(announced, a) && HashesAfter(p.hashes, announced, a, f)
    ensures GetTxByHash(p, h) == Some(p.txs[i]) <==> Leads(a, f, h, i)
  {
    var m := p.hashes;
    assert GetTxByHash(p, h) == Some(p.txs[i]) <==> h in m && m[h] == i by {
      if h in m {
        assert p.txs[m[h]].msgIndex == m[h] && p.txs[i].msgIndex == i;
      }
    }
    if j :| Corrects(a, f, h, j) {
      assert Corrects(a, f, h, m[h]);
    } else {
      assert h in m <==> h in announced;
      assert h in m ==> m[h] == announced[h] && a[m[h]] == h;
    }
  }

  // A block with two messages: both announcements carry message 0's hash, the full events carry the right ones.
  const ANNOUNCE := [Attribute(KEY_HASH, "01"), Attribute(KEY_TX_INDEX, "0")]
  const FULL_0 := [Attribute(KEY_HASH, "01"), Attribute(KEY_TX_INDEX, "0"), Attribute(KEY_GAS_USED, "7")]
  const FULL_1 := [Attribute(KEY_HASH, "02"), Attribute(KEY_TX_INDEX, "1"), Attribute(KEY_GAS_USED, "7")]
  const MISLED := ExecResult(0, false, false, 14,
    [Event(ETHEREUM_TX, ANNOUNCE), Event(ETHEREUM_TX, ANNOUNCE),
     Event(ETHEREUM_TX, FULL_0), Event(ETHEREUM_TX, FULL_1)])

  lemma FillThree(i: nat, hash: string, index: string, gas: string)
    requires ParseUint(index, TWO_31).Some? && ParseUint(gas, TWO_64).Some?
    ensures var tx := NewParsedTx(i).(hash := HexToHash(hash), ethTxIndex := ParseUint(index, TWO_31).value);
            Fill(NewParsedTx(i), [Attribute(KEY_HASH, hash), Attribute(KEY_TX_INDEX, index)]) == Some(tx)
            && Fill(NewParsedTx(i),
                    [Attribute(KEY_HASH, hash), Attribute(KEY_TX_INDEX, index), Attribute(KEY_GAS_USED, gas)])
               == Some(tx.(gasUsed := ParseUint(gas, TWO_64).value))
  {
    assert ParseUint(index, TWO_31).value < TWO_31 && ParseUint(gas, TWO_64).value < TWO_64;
    hide ParseUint, HexToHash;
    var a, b, c := Attribute(KEY_HASH, hash), Attribute(KEY_TX_INDEX, index), Attribute(KEY_GAS_USED, gas);
    var t0 := NewParsedTx(i);
    var t1 := t0.(hash := HexToHash(hash));
    var t2 := t1.(ethTxIndex := ParseUint(index, TWO_31).value);
    FillCons(t0, a, t1, [b]);
    FillCons(t1, b, t2, []);
    FillCons(t0, a, t1, [b, c]);
    FillCons(t1, b, t2, [c]);
    FillCons(t2, c, t2.(gasUsed := ParseUint(gas, TWO_64).value), []);
  }

  lemma FillCons(tx: ParsedTx, a: Attribute, tx': ParsedTx, rest: seq<Attribute>)
    requires FillAttribute(tx, a) == Some(tx')
    ensures Fill(tx, [a] + rest) == Fill(tx', rest)
  {
    assert ([a] + rest)[1..] == rest;
  }

  lemma OneByteHashes()
    ensures HexToHash("01") != HexToHash("02")
  {
    assert DecodeHex("") == [];
    assert "01"[2..] == "" && "02"[2..] == "";
    assert DecodeHex("01") == HexByte('0', '1') + [] == [1];
    assert DecodeHex("02") == HexByte('0', '2') + [] == [2];
    assert HexToHash("01")[31] == 1 && HexToHash("02")[31] == 2;
  }

  lemma MisledEvents()
    ensures EthAttributes(MISLED.events) == [ANNOUNCE, ANNOUNCE] + [FULL_0, FULL_1]
  {
    var es := MISLED.events;
    assert EthAttributes(es[4..]) == [];
    assert es[3..][1..] == es[4..] && EthAttributes(es[3..]) == [FULL_1] + [];
    assert es[2..][1..] == es[3..] && EthAttributes(es[2..]) == [FULL_0] + [FULL_1];
    assert es[1..][1..] == es[2..] && EthAttributes(es[1..]) == [ANNOUNCE] + [FULL_0, FULL_1];
  }

  lemma MisledStream()
    ensures Format2Stream([ANNOUNCE, ANNOUNCE], [FULL_0, FULL_1])
    ensures HashesOf(Filled([ANNOUNCE, ANNOUNCE])) == [HexToHash("01"), HexToHash("01")]
    ensures HashesOf(Filled([FULL_0, FULL_1])) == [HexToHash("01"), HexToHash("02")]
  {
    var anns, fulls := [ANNOUNCE, ANNOUNCE], [FULL_0, FULL_1];
    ParsePrint(0, TWO_31);
    ParsePrint(1, TWO_31);
    ParsePrint(7, TWO_64);
    assert Print(0) == "0" && Print(1) == "1" && Print(7) == "7";
    hide ParseUint, HexToHash, Print;
    FillThree(0, "01", "0", "7");
    FillThree(1, "01", "0", "7");
    FillThree(1, "02", "1", "7");
    hide Fill;
    FilledTwo(ANNOUNCE, ANNOUNCE);
    FilledTwo(FULL_0, FULL_1);
  }

  lemma FilledTwo(x: seq<Attribute>, y: seq<Attribute>)
    requires Fill(NewParsedTx(0), x).Some? && Fill(NewParsedTx(1), y).Some?
    ensures AllFill([x, y])
    ensures HashesOf(Filled([x, y])) == [Fill(NewParsedTx(0), x).value.hash, Fill(NewParsedTx(1), y).value.hash]
  {
    hide Fill;
    assert [x, y][..1] == [x] && [x][..0] == [];
    FilledSnoc([x, y], 1);
    FilledSnoc([x], 0);
  }

  /** The lookup does go wrong: asked for message 0's hash it returns message 1. */
  lemma WrongTransactionFound()
    ensures var o := ParseTxResult(MISLED, None);
            o.Ok? && Coherent(o.p) && |o.p.txs| == 2 && o.p.txs[0].hash == HexToHash("01")
            && GetTxByHash(o.p, HexToHash("01")) != Some(o.p.txs[0])
  {
    MisledEvents();
    MisledStream();
    OneByteHashes();
    ScanFormat2([ANNOUNCE, ANNOUNCE], [FULL_0, FULL_1]);
    hide Fill, HexToHash, ScanAll, Filled, EthAttributes;
    assert ParseTxResult(MISLED, None).Ok?;
    hide ParseTxResult;
    HashLookupExact(MISLED, [ANNOUNCE, ANNOUNCE], [FULL_0, FULL_1], None, HexToHash("01"), 0);
  }

  // ----- when the parser panics -----

  /** How many of the lists are full events (any number of attributes but two). */
  function FullsIn(lists: seq<seq<Attribute>>): nat {
    if lists == [] then 0 else FullsIn(lists[..|lists| - 1]) + (if |lists[|lists| - 1]| == 2 then 0 else 1)
  }

  /** At some point more full events than announcements have arrived. */
  ghost predicate Overtaken(lists: seq<seq<Attribute>>) {
    exists k :: 0 <= k <= |lists| && 2 * FullsIn(lists[..k]) > k
  }

  lemma {:induction false} OvertakenSnoc(init: seq<seq<Attribute>>, last: seq<Attribute>)
    ensures 2 * FullsIn(init) > |init| ==> Overtaken(init)
    ensures var lists := init + [last];
            FullsIn(lists) == FullsIn(init) + (if |last| == 2 then 0 else 1)
            && (Overtaken(lists) <==> Overtaken(init) || 2 * FullsIn(lists) > |lists|)
  {
    var lists := init + [last];
    assert lists[..|init|] == init && lists[..|lists|] == lists && init[..|init|] == init;
    assert forall k :: 0 <= k <= |init| ==> init[..k] == lists[..k];
    if Overtaken(init) {
      var k :| 0 <= k <= |init| && 2 * FullsIn(init[..k]) > k;
      assert 2 * FullsIn(lists[..k]) > k;
    }
    if Overtaken(lists) {
      var k :| 0 <= k <= |lists| && 2 * FullsIn(lists[..k]) > k;
      assert k <= |init| ==> 2 * FullsIn(init[..k]) > k;
    }
  }

  /** Whether a list fills does not depend on the transaction being filled. */
  lemma {:induction false} FillAnywhere(a: ParsedTx, b: ParsedTx, attrs: seq<Attribute>)
    ensures Fill(a, attrs).Some? <==> Fill(b, attrs).Some?
    decreases |attrs|
  {
    if attrs != [] && FillAttribute(a, attrs[0]).Some? {
      FillAnywhere(FillAttribute(a, attrs[0]).value, FillAttribute(b, attrs[0]).value, attrs[1..]);
    }
  }

  /** In a format-2 stream the parser indexes out of range exactly when, at some point, more full events than
      announcements have arrived. Nothing else stops it when every attribute reads. */
  lemma {:induction false} PanicsExactlyWhenOvertaken(lists: seq<seq<Attribute>>)
    requires AllFill(lists) && (lists != [] ==> |lists[0]| <= 2)
    ensures Overtaken(lists) ==> ScanAll(START, lists).0 == OutOfRange
    ensures !Overtaken(lists) ==> ScanAll(START, lists).0.Ok?
    ensures !Overtaken(lists) ==>
            var s := ScanAll(START, lists).1;
            s.format == (if lists == [] then Undecided else Format2)
            && s.seen == FullsIn(lists) && |s.p.txs| == |lists| - FullsIn(lists)
  {
    hide Fill, AllFill, Overtaken, FullsIn, ScanAll;
    if lists == [] {
      NothingOvertaken();
    } else {
      var n := |lists| - 1;
      var init, last := lists[..n], lists[n];
      assert lists == init + [last];
      AllFillInit(lists, n);
      OvertakenSnoc(init, last);
      PanicsExactlyWhenOvertaken(init);
      if Overtaken(init) {
        ScanStops(START, init, [last]);
      } else {
        var s := ScanAll(START, init).1;
        FillAnywhere(NewParsedTx(n), NewParsedTx(|s.p.txs|), last);
        FillAnywhere(NewParsedTx(n), NewParsedTx(s.seen), last);
        ScanSnoc(init, last);
      }
    }
  }

  lemma NothingOvertaken()
    ensures !Overtaken([]) && FullsIn([]) == 0 && ScanAll(START, []) == (Ok(START.p), START)
  {
    var lists: seq<seq<Attribute>> := [];
    assert forall k :: 0 <= k <= 0 ==> lists[..k] == [];
  }

  lemma {:induction false} ScanStops(s: Scan, xs: seq<seq<Attribute>>, ys: seq<seq<Attribute>>)
    requires !ScanAll(s, xs).0.Ok?
    ensures ScanAll(s, xs + ys) == ScanAll(s, xs)
    decreases |xs|
  {
    assert (xs + ys)[1..] == xs[1..] + ys && (xs + ys)[0] == xs[0];
    if ScanOne(s, xs[0]).0.Ok? {
      ScanStops(ScanOne(s, xs[0]).1, xs[1..], ys);
    }
  }

  // ----- cumulative gas -----

  /** AccumulativeGasUsed: gas of the first `n` transactions, added in uint64. */
  function GasOfFirst(txs: seq<ParsedTx>, n: nat): Uint64
    requires n <= |txs|
  {
    if n == 0 then 0 else ToUint64(GasOfFirst(txs, n - 1) + txs[n - 1].gasUsed)
  }

  method AccumulativeGasUsed(txs: seq<ParsedTx>, msgIndex: nat) returns (gas: Uint64)
    requires msgIndex < |txs|
    ensures gas == GasOfFirst(txs, msgIndex + 1)
  {
    gas := 0;
    for i := 0 to msgIndex + 1
      invariant gas == GasOfFirst(txs, i)
    {
      gas := ToUint64(gas + txs[i].gasUsed);
    }
  }

  // ----- the parser as it runs -----

  datatype Status = Fine | Bad | Panic

  ghost function StatusOf(o: Outcome): Status {
    match o case Ok(_) => Fine case Malformed => Bad case OutOfRange => Panic
  }

  method FillAttributes(tx: ParsedTx, attrs: seq<Attribute>) returns (r: Option<ParsedTx>)
    ensures r == Fill(tx, attrs)
  {
    var cur := tx;
    assert attrs[0..] == attrs;
    for i := 0 to |attrs|
      invariant Fill(tx, attrs) == Fill(cur, attrs[i..])
    {
      assert attrs[i..][1..] == attrs[i + 1..];
      var next := FillAttribute(cur, attrs[i]);
      if next.None? {
        return None;
      }
      cur := next.value;
    }
    r := Some(cur);
  }

  class ParsedTxs {
    var txs: seq<ParsedTx>
    var hashes: map<Hash, nat>

    constructor ()
      ensures Value() == START.p
    {
      txs, hashes := [], map[];
    }

    function Value(): Parsed
      reads this
    {
      Parsed(txs, hashes)
    }

    method NewTx(attrs: seq<Attribute>) returns (st: Status)
      modifies this
      ensures st == StatusOf(AddTx(old(Value()), attrs))
      ensures Value() == if st.Fine? then AddTx(old(Value()), attrs).p else old(Value())
    {
      var msgIndex := |txs|;
      var tx := FillAttributes(NewParsedTx(msgIndex), attrs);
      if tx.None? {
        return Bad;
      }
      txs := txs + [tx.value];
      hashes := hashes[tx.value.hash := msgIndex];
      st := Fine;
    }

    method UpdateTxAt(i: nat, attrs: seq<Attribute>) returns (st: Status)
      modifies this
      ensures st == StatusOf(UpdateTx(old(Value()), i, attrs))
      ensures Value() == if st.Fine? then UpdateTx(old(Value()), i, attrs).p else old(Value())
    {
      var tx := FillAttributes(NewParsedTx(i), attrs);
      if tx.None? {
        return Bad;
      }
      if i >= |txs| {
        return Panic;
      }
      if tx.value.hash != txs[i].hash {
        hashes := hashes[tx.value.hash := i];
      }
      txs := txs[i := tx.value];
      st := Fine;
    }

    /** The loop over the events of a result. */
    method ScanEvents(events: seq<Event>) returns (st: Status)
      requires Value() == START.p
      modifies this
      ensures st == StatusOf(ScanAll(START, EthAttributes(events)).0)
      ensures st.Fine? ==> Value() == ScanAll(START, EthAttributes(events)).0.p
    {
      hide AddTx, UpdateTx;
      var format, seen: nat := Undecided, 0;
      ghost var whole := ScanAll(START, EthAttributes(events)).0;
      assert events[0..] == events;
      for k := 0 to |events|
        invariant whole == ScanAll(Scan(format, seen, Value()), EthAttributes(events[k..])).0
      {
        assert events[k..][1..] == events[k + 1..];
        var event := events[k];
        if event.kind != ETHEREUM_TX {
          assert [] + EthAttributes(events[k + 1..]) == EthAttributes(events[k + 1..]);
          continue;
        }
        var attrs := event.attributes;
        assert EthAttributes(events[k..])[1..] == EthAttributes(events[k + 1..]);
        format := Decide(format, attrs);
        if |attrs| == 2 {
          st := NewTx(attrs);
        } else {
          seen := seen + 1;
          if format.Format1? {
            st := NewTx(attrs);
          } else {
            st := UpdateTxAt(seen - 1, attrs);
          }
        }
        if !st.Fine? {
          return;
        }
      }
      st := Fine;
    }

    /** The fix-ups after the loop, in place. */
    method ChargeTxs(result: ExecResult, msgs: Option<seq<Msg>>) returns (st: Status)
      modifies this
      ensures hashes == old(hashes)
      ensures var sole := SoleGas(old(txs), ToUint64(result.gasUsed));
              if result.code != 0 && msgs.Some? then
                match ChargeLimits(sole, msgs.value)
                case None => st == Panic
                case Some(charged) => st == Fine && txs == charged
              else st == Fine && txs == sole
    {
      if |txs| == 1 {
        txs := txs[0 := txs[0].(gasUsed := ToUint64(result.gasUsed))];
      }
      assert txs == SoleGas(old(txs), ToUint64(result.gasUsed));
      ghost var sole := txs;
      if result.code != 0 && msgs.Some? {
        for i := 0 to |txs|
          invariant |txs| == |sole| && hashes == old(hashes) && i <= |msgs.value|
          invariant forall j :: 0 <= j < i ==>
            msgs.value[j].EthMsg? && txs[j] == sole[j].(failed := true, gasUsed := msgs.value[j].gas)
          invariant forall j :: i <= j < |txs| ==> txs[j] == sole[j]
        {
          if i >= |msgs.value| || !msgs.value[i].EthMsg? {
            return Panic;
          }
          txs := txs[i := txs[i].(failed := true, gasUsed := msgs.value[i].gas)];
        }
      }
      st := Fine;
    }
  }

  /** ParseTxResult: a new ParsedTxs, filled from the events. */
  method RunParse(result: ExecResult, msgs: Option<seq<Msg>>) returns (o: Outcome)
    ensures o == ParseTxResult(result, msgs)
  {
    var p := new ParsedTxs();
    var st := p.ScanEvents(result.events);
    hide ScanAll, EthAttributes;
    if st.Fine? {
      st := p.ChargeTxs(result, msgs);
    }
    o := match st case Fine => Ok(p.Value()) case Bad => Malformed case Panic => OutOfRange;
  }
}
