/** The indexing service and the index-eth-tx command as one state machine over the store: sessions that extend the
    index forwards or backwards, each of which may be interrupted at any point. */
module IndexRuns {
  import opened MachineInts
  import opened KvStore
  import opened Events
  import opened TxResultCodec
  import opened TxIndex
  import opened Indexing

  /** The entries of every block of the chain, by height. */
  type Chain = nat -> seq<Entry>

  /** Entries carry the height of their block and are numbered from 0; no hash occurs twice on the chain; there is
      no block 0. */
  ghost predicate ValidChain(chain: Chain) {
    && chain(0) == []
    && (forall h, i :: 0 <= h && 0 <= i < |chain(h)| ==> WellNumbered(chain(h)[i], h, i))
    && (forall h, i, h', i' ::
          0 <= h && 0 <= i < |chain(h)| && 0 <= h' && 0 <= i' < |chain(h')| && (h != h' || i != i') ==>
          chain(h)[i].hash != chain(h')[i'].hash)
  }

  ghost predicate WellNumbered(e: Entry, h: nat, i: nat) {
    e.rec.height == h && e.rec.ethTxIndex == i
  }

  /** Indexing the blocks of a real chain gives such entries. */
  lemma BlocksAreNumbered(b: Block, results: seq<ExecResult>, i: nat)
    requires SafeBlock(b, results) && b.height >= 0 && i < |BlockEntries(b, results)| <= TWO_31
    ensures WellNumbered(BlockEntries(b, results)[i], b.height, i)
  {
    EntriesNumbered(b, results, 0, 0);
    assert ToInt32(i) == i;
  }

  // ----- what the store holds -----

  /** The store is exactly the index of the blocks in `blocks`. */
  ghost predicate IsIndexOf(db: Store, chain: Chain, blocks: set<nat>) {
    && (forall h, i :: h in blocks && 0 <= i < |chain(h)| ==> Holds(db, chain(h)[i]))
    && (forall k :: k in db ==> Explained(k, chain, blocks))
  }

  ghost predicate Explained(k: Key, chain: Chain, blocks: set<nat>) {
    exists h, i :: h in blocks && 0 <= i < |chain(h)| && KeyOf(chain(h)[i], k)
  }

  lemma ChainApart(chain: Chain, h: nat, i: nat, h': nat, i': nat)
    requires ValidChain(chain) && i < |chain(h)| && i' < |chain(h')|
    ensures chain(h)[i] == chain(h')[i'] || Apart(chain(h)[i], chain(h')[i'])
    ensures (h, i) != (h', i') ==> Apart(chain(h)[i], chain(h')[i'])
  {
    assert WellNumbered(chain(h)[i], h, i) && WellNumbered(chain(h')[i'], h', i');
  }

  /** Indexing one more block (or the same again) extends the set by that block. */
  lemma IndexOneMore(db: Store, chain: Chain, blocks: set<nat>, n: nat)
    requires ValidChain(chain) && IsIndexOf(db, chain, blocks)
    ensures IsIndexOf(SaveAll(db, chain(n)), chain, blocks + {n})
  {
    hide Holds, KeyOf, Apart, ValidChain, SaveAll;
    var after := SaveAll(db, chain(n));
    forall i, j | 0 <= i < j < |chain(n)|
      ensures Apart(chain(n)[j], chain(n)[i])
    {
      ChainApart(chain, n, j, n, i);
    }
    forall h, i | h in blocks + {n} && 0 <= i < |chain(h)|
      ensures Holds(after, chain(h)[i])
    {
      if h == n {
        SaveAllHolds(db, chain(n), i);
      } else {
        forall j | 0 <= j < |chain(n)|
          ensures chain(n)[j] == chain(h)[i] || Apart(chain(n)[j], chain(h)[i])
        {
          ChainApart(chain, n, j, h, i);
        }
        SaveAllKeeps(db, chain(n), chain(h)[i]);
      }
    }
    forall k | k in after
      ensures Explained(k, chain, blocks + {n})
    {
      SaveAllKeys(db, chain(n), k);
      if k in db {
        assert Explained(k, chain, blocks);
        var h, i :| h in blocks && 0 <= i < |chain(h)| && KeyOf(chain(h)[i], k);
        assert h in blocks + {n};
      } else {
        var j :| 0 <= j < |chain(n)| && KeyOf(chain(n)[j], k);
        assert n in blocks + {n};
      }
    }
  }

  /** The blocks with entries among `blocks`. */
  ghost function Tall(chain: Chain, blocks: set<nat>): set<nat> {
    set h | h in blocks && chain(h) != []
  }

  lemma IndexKeyExplained(chain: Chain, blocks: set<nat>, h: Int64, i: Int32)
    requires ValidChain(chain) && Explained(TxIndexKey(h, i), chain, blocks)
    ensures h >= 0 && h in blocks && 0 <= i < |chain(h)|
  {
    hide TxIndexKey, TxHashKey, ValidChain;
    var k := TxIndexKey(h, i);
    var h', i' :| h' in blocks && 0 <= i' < |chain(h')| && KeyOf(chain(h')[i'], k);
    var e := chain(h')[i'];
    NumberedAt(chain, h', i');
    FamiliesApart(e.hash, h, i);
    IndexKeyInjective(h, i, e.rec.height, e.rec.ethTxIndex);
  }

  lemma NumberedAt(chain: Chain, h: nat, i: nat)
    requires ValidChain(chain) && i < |chain(h)|
    ensures chain(h)[i].rec.height == h && chain(h)[i].rec.ethTxIndex == i
  {
    assert WellNumbered(chain(h)[i], h, i);
  }

  /** The indexed heights are those of the blocks with entries. */
  lemma HeightsOf(db: Store, chain: Chain, blocks: set<nat>, h: int)
    requires ValidChain(chain) && IsIndexOf(db, chain, blocks)
    ensures HasHeight(db, h) <==> h >= 0 && h in Tall(chain, blocks)
  {
    hide TxIndexKey, TxHashKey, ValidChain, Explained, TxResultCodec.Encode;
    if HasHeight(db, h) {
      var i: Int32 :| 0 <= h < TWO_63 && i >= 0 && TxIndexKey(h, i) in db;
      IndexKeyExplained(chain, blocks, h, i);
    }
    if h >= 0 && h in Tall(chain, blocks) {
      NumberedAt(chain, h, 0);
      assert Holds(db, chain(h)[0]);
    }
  }

  lemma KeysAreWellFormed(db: Store, chain: Chain, blocks: set<nat>)
    requires ValidChain(chain) && IsIndexOf(db, chain, blocks)
    ensures WellKeyed(db)
  {
    hide TxIndexKey, TxHashKey, ValidChain, Holds;
    forall k | k in db
      ensures IsHashKey(k) || IsIndexKey(k)
    {
      assert Explained(k, chain, blocks);
      var h, i :| h in blocks && 0 <= i < |chain(h)| && KeyOf(chain(h)[i], k);
      NumberedAt(chain, h, i);
    }
  }

  ghost predicate MinOf(t: set<nat>, f: int) {
    if f == -1 then t == {} else f >= 0 && f in t && forall x :: x in t ==> f <= x
  }

  ghost predicate MaxOf(t: set<nat>, l: int) {
    if l == -1 then t == {} else l >= 0 && l in t && forall x :: x in t ==> x <= l
  }

  lemma ExtremesOf(db: Store, chain: Chain, blocks: set<nat>, m: int)
    requires ValidChain(chain) && IsIndexOf(db, chain, blocks)
    ensures IsFirst(db, m) <==> MinOf(Tall(chain, blocks), m)
    ensures IsLast(db, m) <==> MaxOf(Tall(chain, blocks), m)
  {
    hide HasHeight, ValidChain, IsIndexOf, Tall;
    var t := Tall(chain, blocks);
    forall h: int
      ensures HasHeight(db, h) <==> h >= 0 && h in t
    {
      HeightsOf(db, chain, blocks, h);
    }
    if t != {} {
      var x :| x in t;
      assert HasHeight(db, x);
    }
  }

  // ----- the sessions -----

  /** What is running: nothing; the service, which has dealt with blocks up to `last` of the `latest` it has heard
      of; the command in forward mode about to index `next`; or in backward mode. */
  datatype Mode = Idle | Service(last: int, latest: int) | Forward(next: int) | Backward(next: int)

  /** `blocks` and `skipped` are history: the blocks indexed so far, and those whose write failed in the service and
      that were not indexed since. */
  datatype State = State(db: Store, mode: Mode, blocks: set<nat>, skipped: set<nat>)

  const INITIAL := State(map[], Idle, {}, {})

  ghost function Indexes(chain: Chain, s: State, n: nat, mode: Mode): State {
    State(SaveAll(s.db, chain(n)), mode, s.blocks + {n}, s.skipped - {n})
  }

  datatype Step =
    | StartService(latest: nat, lastIndexed: int)
    | NewHeader(height: nat)
    | ServiceIndex
    | ServiceWriteFails
    | StartForward(lastIndexed: int)
    | ForwardIndex
    | StartBackward(tip: nat, firstIndexed: int)
    | BackwardIndex
    | Stop

  ghost predicate Next(chain: Chain, s: State, step: Step, s': State) {
    match step
    case StartService(latest, l) =>
      // an empty index starts after the latest block
      s.mode.Idle? && IsLast(s.db, l) && s' == s.(mode := Service(if l == -1 then latest else l, latest))
    case NewHeader(height) =>
      s.mode.Service? && height > s.mode.latest && s' == s.(mode := Service(s.mode.last, height))
    case ServiceIndex =>
      s.mode.Service? && -1 <= s.mode.last < s.mode.latest
      && s' == Indexes(chain, s, s.mode.last + 1, Service(s.mode.last + 1, s.mode.latest))
    case ServiceWriteFails =>
      // the error is logged and lastBlock moves on all the same
      s.mode.Service? && -1 <= s.mode.last < s.mode.latest
      && var n := s.mode.last + 1;
         s' == s.(mode := Service(n, s.mode.latest), skipped := if n in s.blocks then s.skipped else s.skipped + {n})
    case StartForward(l) =>
      s.mode.Idle? && IsLast(s.db, l) && s' == s.(mode := Forward((if l == -1 then 0 else l) + 1))
    case ForwardIndex =>
      s.mode.Forward? && s.mode.next >= 0 && s' == Indexes(chain, s, s.mode.next, Forward(s.mode.next + 1))
    case StartBackward(tip, f) =>
      s.mode.Idle? && IsFirst(s.db, f) && s' == s.(mode := Backward((if f == -1 then tip else f) - 1))
    case BackwardIndex =>
      s.mode.Backward? && s.mode.next > 0 && s' == Indexes(chain, s, s.mode.next, Backward(s.mode.next - 1))
    case Stop =>
      // a fetch or write error, a shutdown, or the end of the loop
      s' == s.(mode := Idle)
  }

  /** `steps[k]` leads from `states[k]` to `states[k + 1]`. */
  ghost predicate IsRun(chain: Chain, states: seq<State>, steps: seq<Step>) {
    && |states| == |steps| + 1 && states[0] == INITIAL
    && forall k :: 0 <= k < |steps| ==> Next(chain, states[k], steps[k], states[k + 1])
  }

  // ----- no gaps -----

  /** Dealt with: indexed, or skipped over a failed write. */
  ghost predicate Done(s: State, h: int) {
    h >= 0 && (h in s.blocks || h in s.skipped)
  }

  /** Everything between two blocks that have entries in the index has been dealt with, and so has everything
      between one of them and the cursor of the running session. */
  ghost predicate Covered(s: State, t: set<nat>) {
    && (forall x, y, h :: x in t && y in t && x <= h <= y ==> Done(s, h))
    && match s.mode
       case Idle => true
       case Service(last, _) =>
         (forall x :: x in t ==> x <= last) && forall x, h :: x in t && x <= h <= last ==> Done(s, h)
       case Forward(next) => (forall x :: x in t ==> x < next) && forall x, h :: x in t && x <= h < next ==> Done(s, h)
       case Backward(next) => (forall x :: x in t ==> next < x) && forall x, h :: x in t && next < h <= x ==> Done(s, h)
  }

  ghost predicate Inv(chain: Chain, s: State) {
    IsIndexOf(s.db, chain, s.blocks) && s.blocks !! s.skipped && Covered(s, Tall(chain, s.blocks))
  }

  lemma TallGrows(chain: Chain, blocks: set<nat>, n: nat)
    ensures Tall(chain, blocks + {n}) == if chain(n) == [] then Tall(chain, blocks) else Tall(chain, blocks) + {n}
  {
  }

  /** Indexing block `n` next to the covered range keeps it covered. */
  lemma IndexesCovered(chain: Chain, s: State, n: nat, mode: Mode)
    requires Covered(s, Tall(chain, s.blocks))
    requires (s.mode.Service? && n == s.mode.last + 1 && mode.Service? && mode.last == n)
          || (s.mode.Forward? && n == s.mode.next && mode == Forward(n + 1))
          || (s.mode.Backward? && n == s.mode.next && mode == Backward(n - 1))
    ensures Covered(Indexes(chain, s, n, mode), Tall(chain, s.blocks + {n}))
  {
    hide SaveAll, Tall;
    TallGrows(chain, s.blocks, n);
    var s' := Indexes(chain, s, n, mode);
    assert forall h :: Done(s, h) ==> Done(s', h);
    assert Done(s', n);
  }

  lemma IndexesKeepsInv(chain: Chain, s: State, n: nat, mode: Mode)
    requires ValidChain(chain) && Inv(chain, s)
    requires (s.mode.Service? && n == s.mode.last + 1 && mode.Service? && mode.last == n)
          || (s.mode.Forward? && n == s.mode.next && mode == Forward(n + 1))
          || (s.mode.Backward? && n == s.mode.next && mode == Backward(n - 1))
    ensures Inv(chain, Indexes(chain, s, n, mode))
  {
    hide ValidChain, IsIndexOf, Covered, SaveAll, Tall;
    IndexOneMore(s.db, chain, s.blocks, n);
    IndexesCovered(chain, s, n, mode);
  }

  /** Every step keeps the invariant. */
  lemma NextKeepsInv(chain: Chain, s: State, step: Step, s': State)
    requires ValidChain(chain) && Inv(chain, s) && Next(chain, s, step, s')
    ensures Inv(chain, s')
  {
    hide ValidChain, IsIndexOf, SaveAll, IsFirst, IsLast, Tall;
    assert s'.blocks >= s.blocks && s'.skipped >= s.skipped ==> forall h :: Done(s, h) ==> Done(s', h);
    match step
    case StartService(latest, l) => ExtremesOf(s.db, chain, s.blocks, l);
    case StartForward(l) => ExtremesOf(s.db, chain, s.blocks, l);
    case StartBackward(tip, f) => ExtremesOf(s.db, chain, s.blocks, f);
    case ServiceIndex => IndexesKeepsInv(chain, s, s.mode.last + 1, s'.mode);
    case ForwardIndex => IndexesKeepsInv(chain, s, s.mode.next, s'.mode);
    case BackwardIndex => IndexesKeepsInv(chain, s, s.mode.next, s'.mode);
    case ServiceWriteFails =>
      assert Done(s', s.mode.last + 1);
    case NewHeader(_) =>
    case Stop =>
  }

  lemma {:induction false} RunKeepsInv(chain: Chain, states: seq<State>, steps: seq<Step>, k: nat)
    requires ValidChain(chain) && IsRun(chain, states, steps) && k < |states|
    ensures Inv(chain, states[k])
  {
    if k > 0 {
      RunKeepsInv(chain, states, steps, k - 1);
      hide Inv, Next, ValidChain;
      NextKeepsInv(chain, states[k - 1], steps[k - 1], states[k]);
    }
  }

  /** The index holds every entry of block `h`, and no other entry under that height. */
  ghost predicate HoldsExactly(db: Store, chain: Chain, h: nat) {
    && (forall i :: 0 <= i < |chain(h)| ==> Holds(db, chain(h)[i]))
    && (forall i: Int32 :: h < TWO_63 && TxIndexKey(h, i) in db ==> 0 <= i < |chain(h)|)
  }

  /** No gap: every height from the first to the last indexed block holds exactly that block's entries. */
  ghost predicate NoGap(db: Store, chain: Chain) {
    forall f, l, h :: IsFirst(db, f) && IsLast(db, l) && 0 <= f <= h <= l ==> HoldsExactly(db, chain, h)
  }

  /** A skipped block that has entries lies between the first and the last indexed block. */
  ghost predicate SkippedInside(chain: Chain, s: State) {
    exists f, l, h :: IsFirst(s.db, f) && IsLast(s.db, l) && 0 <= f <= h <= l && h in s.skipped && chain(h) != []
  }

  lemma HoldsExactlyIff(db: Store, chain: Chain, blocks: set<nat>, h: nat)
    requires ValidChain(chain) && IsIndexOf(db, chain, blocks)
    ensures HoldsExactly(db, chain, h) <==> h in blocks || chain(h) == []
  {
    hide TxIndexKey, TxHashKey, ValidChain, Explained, TxResultCodec.Encode;
    forall i: Int32 | h < TWO_63 && TxIndexKey(h, i) in db
      ensures 0 <= i < |chain(h)|
    {
      IndexKeyExplained(chain, blocks, h, i);
    }
    if chain(h) != [] && Holds(db, chain(h)[0]) {
      NumberedAt(chain, h, 0);
      IndexKeyExplained(chain, blocks, h, 0);
    }
  }

  lemma NoGapIff(chain: Chain, s: State)
    requires ValidChain(chain) && Inv(chain, s)
    ensures NoGap(s.db, chain) <==> !SkippedInside(chain, s)
  {
    hide ValidChain, IsIndexOf, HoldsExactly, IsFirst, IsLast, Tall;
    forall h: nat
      ensures HoldsExactly(s.db, chain, h) <==> h in s.blocks || chain(h) == []
    {
      HoldsExactlyIff(s.db, chain, s.blocks, h);
    }
    forall f, l, h | IsFirst(s.db, f) && IsLast(s.db, l) && 0 <= f <= h <= l
      ensures h in s.blocks || h in s.skipped
    {
      ExtremesOf(s.db, chain, s.blocks, f);
      ExtremesOf(s.db, chain, s.blocks, l);
      assert Done(s, h);
    }
  }

  /** Over any run mixing service sessions, forward runs and backward runs, interrupted or not: at every point the
      index has no gap between its first and its last block, if and only if no failed service write has left out a
      block with entries in between. */
  lemma NoGapExactlyWhenNothingSkipped(chain: Chain, states: seq<State>, steps: seq<Step>, k: nat)
    requires ValidChain(chain) && IsRun(chain, states, steps) && k < |states|
    ensures NoGap(states[k].db, chain) <==> !SkippedInside(chain, states[k])
  {
    hide *;
    RunKeepsInv(chain, states, steps, k);
    NoGapIff(chain, states[k]);
  }

  /** In particular, while writes succeed there is no gap. */
  lemma {:induction false} NothingSkipped(chain: Chain, states: seq<State>, steps: seq<Step>, k: nat)
    requires IsRun(chain, states, steps) && k < |states|
    requires forall j :: 0 <= j < k ==> !steps[j].ServiceWriteFails?
    ensures states[k].skipped == {}
  {
    hide SaveAll, IsFirst, IsLast;
    if k > 0 {
      NothingSkipped(chain, states, steps, k - 1);
      assert Next(chain, states[k - 1], steps[k - 1], states[k]);
    }
  }

  lemma NoGapWhileWritesSucceed(chain: Chain, states: seq<State>, steps: seq<Step>, k: nat)
    requires ValidChain(chain) && IsRun(chain, states, steps) && k < |states|
    requires forall j :: 0 <= j < k ==> !steps[j].ServiceWriteFails?
    ensures NoGap(states[k].db, chain)
  {
    NoGapExactlyWhenNothingSkipped(chain, states, steps, k);
    NothingSkipped(chain, states, steps, k);
  }

  // ----- a gap is permanent -----

  /** Block `h` was skipped and lies inside the index. */
  ghost predicate Hole(chain: Chain, s: State, h: nat) {
    h in s.skipped && exists x, y :: x in Tall(chain, s.blocks) && y in Tall(chain, s.blocks) && x < h < y
  }

  lemma HolePersists(chain: Chain, s: State, step: Step, s': State, h: nat)
    requires ValidChain(chain) && Inv(chain, s) && Next(chain, s, step, s') && Hole(chain, s, h)
    ensures Hole(chain, s', h)
  {
    hide SaveAll, IsFirst, IsLast, IsIndexOf, ValidChain;
    var x, y :| x in Tall(chain, s.blocks) && y in Tall(chain, s.blocks) && x < h < y;
    assert x in Tall(chain, s'.blocks) && y in Tall(chain, s'.blocks);
  }

  /** Every session works outside the range already indexed, so a block once left out inside it stays out. */
  lemma {:induction false} HoleIsPermanent(chain: Chain, states: seq<State>, steps: seq<Step>, k: nat, m: nat, h: nat)
    requires ValidChain(chain) && IsRun(chain, states, steps) && k <= m < |states|
    requires Hole(chain, states[k], h)
    ensures Hole(chain, states[m], h) && h !in states[m].blocks
    decreases m - k
  {
    RunKeepsInv(chain, states, steps, m);
    if k < m {
      RunKeepsInv(chain, states, steps, k);
      assert Next(chain, states[k], steps[k], states[k + 1]);
      HolePersists(chain, states[k], steps[k], states[k + 1], h);
      HoleIsPermanent(chain, states, steps, k + 1, m, h);
    }
  }

  // ----- a gap -----

  /** A chain of three blocks with one transaction each. */
  ghost function HashOf(h: nat): Hash {
    if h == 1 then Zeros(31) + [1] else if h == 2 then Zeros(31) + [2] else Zeros(31) + [3]
  }

  ghost function SampleBlock(h: nat): seq<Entry> {
    if 1 <= h <= 3 then [Entry(HashOf(h), ZERO.(height := h))] else []
  }

  lemma SampleChainValid()
    ensures ValidChain(SampleBlock)
  {
    assert HashOf(1)[31] == 1 && HashOf(2)[31] == 2 && HashOf(3)[31] == 3;
  }

  // Index block 1 with the command, start the service, fail to write block 2, write block 3.
  ghost function Gap1(): State { INITIAL.(mode := Forward(1)) }
  ghost function Gap2(): State { Indexes(SampleBlock, Gap1(), 1, Forward(2)) }
  ghost function Gap3(): State { Gap2().(mode := Idle) }
  ghost function Gap4(): State { Gap3().(mode := Service(1, 3)) }
  ghost function Gap5(): State { Gap4().(mode := Service(2, 3), skipped := {2}) }
  ghost function Gap6(): State { Indexes(SampleBlock, Gap5(), 3, Service(3, 3)) }

  lemma GapStart()
    ensures Next(SampleBlock, INITIAL, StartForward(-1), Gap1())
    ensures Next(SampleBlock, Gap1(), ForwardIndex, Gap2()) && Next(SampleBlock, Gap2(), Stop, Gap3())
  {
    hide SaveAll, IsLast;
    EmptyIndex(SampleBlock);
  }

  lemma GapMiddle()
    ensures Next(SampleBlock, Gap3(), StartService(3, 1), Gap4())
  {
    hide SaveAll, IsLast, IsFirst, IsIndexOf;
    SampleChainValid();
    EmptyIndex(SampleBlock);
    IndexOneMore(Gap1().db, SampleBlock, {}, 1);
    assert {} + {1} == {1} && Tall(SampleBlock, {1}) == {1};
    ExtremesOf(Gap3().db, SampleBlock, {1}, 1);
  }

  lemma GapEnd()
    ensures Next(SampleBlock, Gap4(), ServiceWriteFails, Gap5()) && Next(SampleBlock, Gap5(), ServiceIndex, Gap6())
    ensures Gap6().blocks == {1, 3} && Gap6().skipped == {2} && Tall(SampleBlock, {1, 3}) == {1, 3}
  {
    hide SaveAll;
    assert Gap4().blocks == {1} && Gap4().skipped == {};
  }

  const GAP_STEPS := [StartForward(-1), ForwardIndex, Stop, StartService(3, 1), ServiceWriteFails, ServiceIndex]

  ghost function GapStates(): seq<State> {
    [INITIAL, Gap1(), Gap2(), Gap3(), Gap4(), Gap5(), Gap6()]
  }

  lemma GapRun()
    ensures IsRun(SampleBlock, GapStates(), GAP_STEPS)
  {
    hide Next, Gap1, Gap2, Gap3, Gap4, Gap5, Gap6;
    GapStart();
    GapMiddle();
    GapEnd();
  }

  /** A failed write does leave a gap: block 2 is missing. */
  lemma FailedWriteLeavesGap()
    ensures ValidChain(SampleBlock) && IsRun(SampleBlock, GapStates(), GAP_STEPS)
    ensures !NoGap(GapStates()[6].db, SampleBlock)
  {
    hide ValidChain, IsRun, NoGap, IsFirst, IsLast, IsIndexOf, Covered, Gap6, Tall;
    SampleChainValid();
    GapRun();
    GapEnd();
    RunKeepsInv(SampleBlock, GapStates(), GAP_STEPS, 6);
    var s := Gap6();
    ExtremesOf(s.db, SampleBlock, s.blocks, 1);
    ExtremesOf(s.db, SampleBlock, s.blocks, 3);
    assert 2 in s.skipped && SampleBlock(2) != [];
    NoGapIff(SampleBlock, s);
  }

  lemma EmptyIndex(chain: Chain)
    ensures IsLast(map[], -1) && IsFirst(map[], -1) && IsIndexOf(map[], chain, {})
  {
  }
}
