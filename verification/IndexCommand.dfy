/** The loops of the index-eth-tx command and of the indexing service, as they run. */
module IndexCommand {
  import opened KvStore
  import opened Events
  import opened TxIndex
  import opened Indexing
  import opened KvIndexer
  import opened IndexRuns

  /** The local block and state stores: what is loaded for a height, and whether loading or writing it fails. */
  datatype Source = Source(block: nat -> Block, results: nat -> seq<ExecResult>, fails: nat -> bool)

  ghost predicate Serves(src: Source, chain: Chain) {
    forall h: nat :: ServesAt(src, chain, h)
  }

  ghost predicate ServesAt(src: Source, chain: Chain, h: nat) {
    SafeBlock(src.block(h), src.results(h)) && chain(h) == BlockEntries(src.block(h), src.results(h))
  }

  /** The `indexBlock` closure. */
  method IndexHeight(idx: Indexer, src: Source, h: nat, ghost chain: Chain) returns (err: bool)
    requires Serves(src, chain)
    modifies idx
    ensures err == src.fails(h)
    ensures idx.db == if err then old(idx.db) else SaveAll(old(idx.db), chain(h))
  {
    hide SaveAll, BlockEntries, SafeBlock;
    assert ServesAt(src, chain, h);
    err := idx.IndexBlock(src.block(h), src.results(h), src.fails(h));
  }

  /** Forward: from the last indexed block to the tip. However it ends, the invariant of the runs is kept; when it
      ends well, everything up to the tip is indexed. */
  method Forward(idx: Indexer, src: Source, tip: nat, ghost chain: Chain, ghost s: State)
    returns (err: bool, ghost s': State)
    requires ValidChain(chain) && Serves(src, chain) && Inv(chain, s) && s.mode.Idle? && s.db == idx.db
    modifies idx
    ensures Inv(chain, s') && s'.mode.Idle? && s'.db == idx.db && s'.skipped <= s.skipped && s.blocks <= s'.blocks
    ensures !err ==> forall l, h :: IsLast(old(idx.db), l) && l < h <= tip && h > 0 ==> h in s'.blocks
  {
    hide ValidChain, Serves, Inv, IsLast, SaveAll;
    InvKeys(chain, s);
    var latest, _ := idx.LastIndexedBlock();
    ghost var found := latest;
    LastIsMinusOneOrMore(idx.db, latest);
    s' := s.(mode := IndexRuns.Forward((if latest == -1 then 0 else latest) + 1));
    NextKeepsInv(chain, s, StartForward(latest), s');
    if latest == -1 {
      latest := 0;
    }
    var i := latest + 1;
    while i <= tip
      invariant i >= 1 && s'.mode == IndexRuns.Forward(i) && Inv(chain, s') && s'.db == idx.db
      invariant s'.skipped <= s.skipped && s.blocks <= s'.blocks
      invariant forall h :: latest < h < i ==> h in s'.blocks
      decreases tip - i
    {
      err := IndexHeight(idx, src, i, chain);
      if err {
        StopKeepsInv(chain, s');
        s' := s'.(mode := Idle);
        return;
      }
      ghost var s2 := Indexes(chain, s', i, IndexRuns.Forward(i + 1));
      NextKeepsInv(chain, s', ForwardIndex, s2);
      s' := s2;
      i := i + 1;
    }
    StopKeepsInv(chain, s');
    s' := s'.(mode := Idle);
    err := false;
    LastUnique(old(idx.db), found);
  }

  /** Backward: from the first indexed block down to block 1. */
  method Backward(idx: Indexer, src: Source, tip: nat, ghost chain: Chain, ghost s: State)
    returns (err: bool, ghost s': State)
    requires ValidChain(chain) && Serves(src, chain) && Inv(chain, s) && s.mode.Idle? && s.db == idx.db
    modifies idx
    ensures Inv(chain, s') && s'.mode.Idle? && s'.db == idx.db && s'.skipped <= s.skipped && s.blocks <= s'.blocks
    ensures !err ==> forall f, h :: IsFirst(old(idx.db), f) && 0 < h < (if f == -1 then tip else f) ==> h in s'.blocks
  {
    hide ValidChain, Serves, Inv, IsFirst, SaveAll;
    InvKeys(chain, s);
    var first, _ := idx.FirstIndexedBlock();
    ghost var found := first;
    s' := s.(mode := IndexRuns.Backward((if first == -1 then tip else first) - 1));
    NextKeepsInv(chain, s, StartBackward(tip, first), s');
    if first == -1 {
      first := tip;
    }
    var i := first - 1;
    while i > 0
      invariant i < first && s'.mode == IndexRuns.Backward(i) && Inv(chain, s') && s'.db == idx.db
      invariant s'.skipped <= s.skipped && s.blocks <= s'.blocks
      invariant forall h :: 0 < h && i < h < first ==> h in s'.blocks
      decreases i
    {
      err := IndexHeight(idx, src, i, chain);
      if err {
        StopKeepsInv(chain, s');
        s' := s'.(mode := Idle);
        return;
      }
      ghost var s2 := Indexes(chain, s', i, IndexRuns.Backward(i - 1));
      NextKeepsInv(chain, s', BackwardIndex, s2);
      s' := s2;
      i := i - 1;
    }
    StopKeepsInv(chain, s');
    s' := s'.(mode := Idle);
    err := false;
    FirstUnique(old(idx.db), found);
  }

  /** One pass of the service over the blocks it has not dealt with, while new headers arrive: `headers[k]` is the one
      seen before test `k` of the loop, which moves the goal if it is higher. A block that cannot be fetched ends the
      pass, to be tried again; a block that cannot be written is passed over. */
  method ServicePass(idx: Indexer, src: Source, fetchFails: nat -> bool, last: int, latest: int, headers: seq<nat>,
                     ghost chain: Chain, ghost s: State)
    returns (last': int, latest': int, ghost s': State)
    requires ValidChain(chain) && Serves(src, chain) && Inv(chain, s) && s.db == idx.db
    requires last >= -1 && s.mode == Service(last, latest)
    modifies idx
    ensures Inv(chain, s') && s'.db == idx.db && s'.mode == Service(last', latest') && last <= last'
    ensures latest <= latest' && (latest' == latest || latest' in headers)
    ensures last' >= latest' || fetchFails(last' + 1)
    ensures forall h :: last < h <= last' ==> PassedOver(src, s, s', h)
  {
    hide ValidChain, Serves, Inv, SaveAll;
    s', last', latest' := s, last, latest;
    var k := 0;
    while true
      invariant last' >= last && s'.mode == Service(last', latest') && Inv(chain, s') && s'.db == idx.db
      invariant k <= |headers| && latest <= latest' && (latest' == latest || latest' in headers)
      invariant s.blocks <= s'.blocks && forall h :: h in s'.blocks && h > last' ==> h in s.blocks
      invariant forall h :: last < h <= last' ==> PassedOver(src, s, s', h)
      decreases |headers| - k, latest' - last'
    {
      if k < |headers| {
        if headers[k] > latest' {
          ghost var s1 := s'.(mode := Service(last', headers[k]));
          NextKeepsInv(chain, s', NewHeader(headers[k]), s1);
          assert forall h :: PassedOver(src, s, s1, h) == PassedOver(src, s, s', h);
          s', latest' := s1, headers[k];
        }
        k := k + 1;
      }
      if last' >= latest' {
        return;
      }
      var i := last' + 1;
      if fetchFails(i) {
        return;
      }
      var err := IndexHeight(idx, src, i, chain);
      ghost var s2;
      if err {
        s2 := s'.(mode := Service(i, latest'), skipped := if i in s'.blocks then s'.skipped else s'.skipped + {i});
        NextKeepsInv(chain, s', ServiceWriteFails, s2);
      } else {
        s2 := Indexes(chain, s', i, Service(i, latest'));
        NextKeepsInv(chain, s', ServiceIndex, s2);
      }
      forall h: nat | last < h <= i ensures PassedOver(src, s, s2, h) {
        assert h < i ==> PassedOver(src, s, s', h);
      }
      s', last' := s2, i;
    }
  }

  /** Block `h` was dealt with: indexed, or skipped when its write failed and it was not indexed before. */
  ghost predicate PassedOver(src: Source, s: State, s': State, h: nat) {
    if src.fails(h) then h in s.blocks || h in s'.skipped else h in s'.blocks
  }

  lemma InvKeys(chain: Chain, s: State)
    requires ValidChain(chain) && Inv(chain, s)
    ensures WellKeyed(s.db)
  {
    KeysAreWellFormed(s.db, chain, s.blocks);
  }

  lemma StopKeepsInv(chain: Chain, s: State)
    requires ValidChain(chain) && Inv(chain, s)
    ensures Inv(chain, s.(mode := Idle))
  {
    hide Inv, ValidChain;
    NextKeepsInv(chain, s, Stop, s.(mode := Idle));
  }

  lemma LastUnique(db: Store, l: int)
    requires IsLast(db, l)
    ensures forall l' :: IsLast(db, l') ==> l' == l
  {
    hide HasHeight;
  }

  lemma FirstUnique(db: Store, f: int)
    requires IsFirst(db, f)
    ensures forall f' :: IsFirst(db, f') ==> f' == f
  {
    hide HasHeight;
  }

  lemma LastIsMinusOneOrMore(db: Store, l: int)
    requires IsLast(db, l)
    ensures l >= -1
  {
  }
}
