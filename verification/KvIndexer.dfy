/** The indexer object, and the scans of the JSON-RPC backend, as they run. */
module KvIndexer {
  import opened MachineInts
  import opened KvStore
  import opened Events
  import opened TxResultCodec
  import opened TxIndex
  import opened Indexing

  /** The body of the loop over the messages: the record of message `j`, unless it has no parsed event. */
  method BuildEntry(at: Place, code: nat, msgs: seq<Msg>, txs: seq<ParsedTx>, j: nat, ethTxIndex: Int32,
                    cum: Uint64, ghost count: nat)
    returns (e: Option<Entry>)
    requires j < |msgs| && msgs[j].EthMsg? && ethTxIndex == ToInt32(count)
    ensures e == EntryFor(at, code, msgs, txs, j, count, cum)
  {
    var gas, failed: bool;
    if code != 0 {
      gas, failed := msgs[j].gas, true;
    } else if j >= |txs| {
      return None;
    } else {
      gas, failed := txs[j].gasUsed, txs[j].failed;
    }
    var rec := TxResult(at.height, ToUint32(at.tx), ToUint32(j), ethTxIndex, failed, gas, ToUint64(cum + gas));
    e := Some(Entry(msgs[j].hash, rec));
  }

  /** The loop over the messages of one transaction: extends the batch and the running index. */
  method IndexMessages(at: Place, code: nat, msgs: seq<Msg>, txs: seq<ParsedTx>, batch: Store,
                       ethTxIndex: Int32, ghost count: nat)
    returns (batch': Store, ethTxIndex': Int32)
    requires AllEth(msgs) && ethTxIndex == ToInt32(count)
    ensures batch' == SaveAll(batch, MsgEntries(at, code, msgs, txs, 0, count, 0))
    ensures ethTxIndex' == ToInt32(count + |MsgEntries(at, code, msgs, txs, 0, count, 0)|)
  {
    hide *;
    batch', ethTxIndex' := batch, ethTxIndex;
    var cumulativeGasUsed: Uint64 := 0;
    ghost var all, n: nat := MsgEntries(at, code, msgs, txs, 0, count, cumulativeGasUsed), count;
    for j := 0 to |msgs|
      invariant n + |MsgEntries(at, code, msgs, txs, j, n, cumulativeGasUsed)| == count + |all|
      invariant SaveAll(batch', MsgEntries(at, code, msgs, txs, j, n, cumulativeGasUsed)) == SaveAll(batch, all)
      invariant ethTxIndex' == ToInt32(n)
    {
      EthAt(msgs, j);
      MsgEntriesDef(at, code, msgs, txs, j, n, cumulativeGasUsed);
      var e := BuildEntry(at, code, msgs, txs, j, ethTxIndex', cumulativeGasUsed, n);
      if e.None? {
        continue;
      }
      cumulativeGasUsed := e.value.rec.cumulativeGasUsed;
      SaveFirst(batch', e.value, MsgEntries(at, code, msgs, txs, j + 1, n + 1, cumulativeGasUsed));
      Increment32(n);
      batch' := Save(batch', e.value);
      ethTxIndex' := ToInt32(ethTxIndex' + 1);
      n := n + 1;
    }
    MsgEntriesDef(at, code, msgs, txs, |msgs|, n, cumulativeGasUsed);
    SaveNone(batch');
  }

  lemma EthAt(msgs: seq<Msg>, j: nat)
    requires AllEth(msgs) && j < |msgs|
    ensures msgs[j].EthMsg?
  {
  }

  lemma MsgEntriesDef(at: Place, code: nat, msgs: seq<Msg>, txs: seq<ParsedTx>, j: nat, count: nat, cum: Uint64)
    requires j <= |msgs| && AllEth(msgs)
    ensures MsgEntries(at, code, msgs, txs, j, count, cum) ==
            if j == |msgs| then []
            else
              match EntryFor(at, code, msgs, txs, j, count, cum)
              case None => MsgEntries(at, code, msgs, txs, j + 1, count, cum)
              case Some(e) => [e] + MsgEntries(at, code, msgs, txs, j + 1, count + 1, e.rec.cumulativeGasUsed)
  {
    hide EntryFor;
  }

  lemma SaveFirst(db: Store, e: Entry, es: seq<Entry>)
    ensures SaveAll(db, [e] + es) == SaveAll(Save(db, e), es)
  {
    assert ([e] + es)[1..] == es;
  }

  lemma SaveNone(db: Store)
    ensures SaveAll(db, []) == db
  {
  }

  /** The running index is an int32. */
  lemma Increment32(n: nat)
    ensures ToInt32(ToInt32(n) + 1) == ToInt32(n + 1)
  {
  }

  class Indexer {
    var db: Store

    constructor (db: Store)
      ensures this.db == db
    {
      this.db := db;
    }

    /** `writeFails` is the outcome of writing the batch, which is atomic. */
    method IndexBlock(b: Block, results: seq<ExecResult>, writeFails: bool) returns (err: bool)
      requires SafeBlock(b, results)
      modifies this
      ensures err == writeFails
      ensures db == if err then old(db) else SaveAll(old(db), BlockEntries(b, results))
    {
      hide SaveAll, TxEntries, MsgEntries, ToInt32;
      var batch: Store, ethTxIndex: Int32 := map[], 0;
      ghost var all, done: seq<Entry> := BlockEntries(b, results), [];
      Start(b, results);
      for t := 0 to |b.txs|
        invariant db == old(db) && all == done + EntriesFrom(b, results, t, |done|)
        invariant batch == SaveAll(map[], done) && ethTxIndex == ToInt32(|done|)
      {
        EntriesFromDef(b, results, t, |done|);
        ghost var at := Place(b.height, t);
        ghost var es := TxEntries(at, b.txs[t], results[t], |done|);
        TxEntriesDef(at, b.txs[t], results[t], |done|);
        SaveAllAppend(map[], done, es);
        Regroup(done, es, EntriesFrom(b, results, t + 1, |done| + |es|));
        if Accepted(results[t]) && b.txs[t].Decodable? && IsEthTx(b.txs[t].tx) {
          var msgs := b.txs[t].tx.msgs;
          var o := RunParse(results[t], Some(msgs));
          if o.Ok? {
            batch, ethTxIndex :=
              IndexMessages(Place(b.height, t), results[t].code, msgs, o.p.txs, batch, ethTxIndex, |done|);
          }
        }
        done := done + es;
      }
      assert all == done + [] == done;
      if writeFails {
        return true;
      }
      BatchWrite(db, done);
      db := db + batch;
      err := false;
    }

    method FirstIndexedBlock() returns (height: int, err: bool)
      ensures WellKeyed(db) ==> !err && IsFirst(db, height)
    {
      height, err := LoadBlock(db, false);
    }

    method LastIndexedBlock() returns (height: int, err: bool)
      ensures WellKeyed(db) ==> !err && IsLast(db, height)
    {
      height, err := LoadBlock(db, true);
    }
  }

  lemma Start(b: Block, results: seq<ExecResult>)
    requires SafeBlock(b, results)
    ensures BlockEntries(b, results) == [] + EntriesFrom(b, results, 0, 0)
    ensures SaveAll(map[], []) == map[] && ToInt32(0) == 0
  {
  }

  lemma Regroup(xs: seq<Entry>, ys: seq<Entry>, zs: seq<Entry>)
    ensures xs + (ys + zs) == (xs + ys) + zs && |xs + ys| == |xs| + |ys|
    ensures ys == [] ==> xs + ys == xs
  {
  }

  lemma TxEntriesDef(at: Place, raw: RawTx, r: ExecResult, count: nat)
    requires Safe(raw, r)
    ensures TxEntries(at, raw, r, count) ==
            if Accepted(r) && raw.Decodable? && IsEthTx(raw.tx) && ParseTxResult(r, Some(raw.tx.msgs)).Ok?
            then MsgEntries(at, r.code, raw.tx.msgs, ParseTxResult(r, Some(raw.tx.msgs)).p.txs, 0, count, 0)
            else []
  {
    hide ParseTxResult;
  }

  method EthMsgsOfTx(t: nat, msgs: seq<Msg>) returns (ps: seq<Position>)
    ensures ps == EthPositions(t, msgs, 0)
  {
    ps := [];
    for j := 0 to |msgs|
      invariant ps + EthPositions(t, msgs, j) == EthPositions(t, msgs, 0)
    {
      if !msgs[j].EthMsg? {
        assert EthPositions(t, msgs, j) == EthPositions(t, msgs, j + 1);
        continue;
      }
      assert ps + EthPositions(t, msgs, j) == (ps + [Position(t, j)]) + EthPositions(t, msgs, j + 1);
      ps := ps + [Position(t, j)];
    }
    assert ps + [] == ps;
  }

  /** EthMsgsFromTendermintBlock, as the positions of the messages it returns. */
  method EthMsgsFromBlock(b: Block, results: seq<ExecResult>) returns (ps: seq<Position>)
    requires |b.txs| <= |results|
    ensures ps == ScanFrom(b, results, 0)
  {
    hide EthPositions;
    ps := [];
    for t := 0 to |b.txs|
      invariant ps + ScanFrom(b, results, t) == ScanFrom(b, results, 0)
    {
      if !Accepted(results[t]) || b.txs[t].Garbage? {
        assert ScanFrom(b, results, t) == ScanFrom(b, results, t + 1);
        continue;
      }
      var found := EthMsgsOfTx(t, b.txs[t].tx.msgs);
      assert ps + ScanFrom(b, results, t) == (ps + found) + ScanFrom(b, results, t + 1);
      ps := ps + found;
    }
    assert ps + [] == ps;
  }
}
