/** The Ethereum transaction index: its two key families, the lookups, and what the range scans return. */
module TxIndex {
  import opened MachineInts
  import opened BigEndian
  import opened KvStore
  import opened Events
  import opened TxResultCodec

  // ----- keys -----

  const PREFIX_TX_HASH: Byte := 1
  const PREFIX_TX_INDEX: Byte := 2
  const SCAN_FROM: Key := [2]
  const SCAN_TO: Key := [3]

  function TxHashKey(h: Hash): Key {
    [PREFIX_TX_HASH] + h
  }

  function TxIndexKey(height: Int64, txIndex: Int32): Key {
    [PREFIX_TX_INDEX] + (ToBytes(ToUint64(height), 8) + ToBytes(ToUint64(txIndex), 8))
  }

  /** parseBlockNumberFromKey: None is the wrong-length error. */
  function ParseBlockNumber(k: Key): Option<Int64> {
    if |k| != 17 then None else Some(ToInt64(FromBytes(k[1..9])))
  }

  /** Byte order of index keys is the order of (height, index) read as unsigned 64-bit numbers. */
  lemma IndexKeyOrder(h: Int64, i: Int32, h': Int64, i': Int32)
    ensures Less(TxIndexKey(h, i), TxIndexKey(h', i'))
            <==> ToUint64(h) < ToUint64(h') || (ToUint64(h) == ToUint64(h') && ToUint64(i) < ToUint64(i'))
  {
    Widths();
    var u, v, x, y := ToUint64(h), ToUint64(h'), ToUint64(i), ToUint64(i');
    hide ToUint64, ToBytes, Pow256;
    LessPrefix([PREFIX_TX_INDEX], ToBytes(u, 8) + ToBytes(x, 8), ToBytes(v, 8) + ToBytes(y, 8));
    OrderEmbedding(u, v, 8, ToBytes(x, 8), ToBytes(y, 8));
    OrderEmbedding(x, y, 8, [], []);
    assert ToBytes(x, 8) + [] == ToBytes(x, 8) && ToBytes(y, 8) + [] == ToBytes(y, 8);
  }

  /** So for the heights and indexes of a chain it is the order of (height, index). */
  lemma IndexKeyOrderNonNegative(h: Int64, i: Int32, h': Int64, i': Int32)
    requires h >= 0 && i >= 0 && h' >= 0 && i' >= 0
    ensures Less(TxIndexKey(h, i), TxIndexKey(h', i')) <==> h < h' || (h == h' && i < i')
  {
    assert ToUint64(h) == h && ToUint64(i) == i && ToUint64(h') == h' && ToUint64(i') == i';
    hide *;
    IndexKeyOrder(h, i, h', i');
  }

  lemma IndexKeyInjective(h: Int64, i: Int32, h': Int64, i': Int32)
    requires TxIndexKey(h, i) == TxIndexKey(h', i')
    ensures h == h' && i == i'
  {
    IndexKeyOrder(h, i, h', i');
    IndexKeyOrder(h', i', h, i);
    LessTotal(TxIndexKey(h, i), TxIndexKey(h, i));
    SignExtension64(h);
    SignExtension64(h');
    SignExtension32(i);
    SignExtension32(i');
  }

  lemma ParseIndexKey(h: Int64, i: Int32)
    ensures ParseBlockNumber(TxIndexKey(h, i)) == Some(h)
  {
    Widths();
    FromToBytes(ToUint64(h), 8);
    SignExtension64(h);
    assert TxIndexKey(h, i)[1..9] == ToBytes(ToUint64(h), 8);
    hide ToBytes, FromBytes, ToUint64, ToInt64;
    assert |TxIndexKey(h, i)| == 17;
    assert ParseBlockNumber(TxIndexKey(h, i)) == Some(ToInt64(FromBytes(TxIndexKey(h, i)[1..9])));
    assert ToInt64(ToUint64(h)) == h;
    hide TxIndexKey;
    TruncateIdentity(ToUint64(h));
  }

  lemma TruncateIdentity(x: Uint64)
    ensures ToUint64(x) == x
  {
  }

  /** The scanned range is exactly the keys that begin with the index prefix. */
  lemma ScanRange(k: Key)
    ensures InRange(k, SCAN_FROM, SCAN_TO) <==> k != [] && k[0] == PREFIX_TX_INDEX
  {
    if k != [] {
      assert SCAN_FROM[1..] == [] && SCAN_TO[1..] == [];
      assert !Less(k[1..], []);
      assert Less(k, SCAN_TO) <==> k[0] < 3;
      assert Less(k, SCAN_FROM) <==> k[0] < 2;
    }
  }

  // ----- what the store holds -----

  /** Some transaction of block `h` is indexed. */
  ghost predicate HasHeight(db: Store, h: int) {
    exists i: Int32 :: 0 <= h < TWO_63 && i >= 0 && TxIndexKey(h, i) in db
  }

  /** Every key belongs to one of the two families, heights and indexes non-negative. */
  ghost predicate WellKeyed(db: Store) {
    forall k :: k in db ==> IsHashKey(k) || IsIndexKey(k)
  }

  ghost predicate IsHashKey(k: Key) {
    exists h: Hash :: k == TxHashKey(h)
  }

  ghost predicate IsIndexKey(k: Key) {
    exists h: Int64, i: Int32 :: h >= 0 && i >= 0 && k == TxIndexKey(h, i)
  }

  /** FirstIndexedBlock: the least indexed height, -1 when there is none. */
  ghost predicate IsFirst(db: Store, f: int) {
    if f == -1 then forall h :: !HasHeight(db, h)
    else HasHeight(db, f) && forall h :: HasHeight(db, h) ==> f <= h
  }

  /** LastIndexedBlock: the greatest indexed height, -1 when there is none. */
  ghost predicate IsLast(db: Store, l: int) {
    if l == -1 then forall h :: !HasHeight(db, h)
    else HasHeight(db, l) && forall h :: HasHeight(db, h) ==> h <= l
  }

  // ----- entries -----

  datatype Entry = Entry(hash: Hash, rec: TxResult)

  /** saveTxResult */
  function Save(db: Store, e: Entry): Store {
    db[TxHashKey(e.hash) := Encode(e.rec)][TxIndexKey(e.rec.height, e.rec.ethTxIndex) := e.hash]
  }

  function SaveAll(db: Store, es: seq<Entry>): Store
    decreases |es|
  {
    if es == [] then db else SaveAll(Save(db, es[0]), es[1..])
  }

  lemma {:induction false} SaveAllAppend(db: Store, xs: seq<Entry>, ys: seq<Entry>)
    ensures SaveAll(db, xs + ys) == SaveAll(SaveAll(db, xs), ys)
    decreases |xs|
  {
    if xs == [] {
      assert xs + ys == ys;
    } else {
      assert (xs + ys)[1..] == xs[1..] + ys;
      SaveAllAppend(Save(db, xs[0]), xs[1..], ys);
    }
  }

  /** Both keys of an entry lead where they should. */
  ghost predicate Holds(db: Store, e: Entry) {
    && TxHashKey(e.hash) in db && db[TxHashKey(e.hash)] == Encode(e.rec)
    && TxIndexKey(e.rec.height, e.rec.ethTxIndex) in db
    && db[TxIndexKey(e.rec.height, e.rec.ethTxIndex)] == e.hash
  }

  /** Two entries share no key. */
  ghost predicate Apart(e: Entry, e': Entry) {
    e.hash != e'.hash && (e.rec.height != e'.rec.height || e.rec.ethTxIndex != e'.rec.ethTxIndex)
  }

  lemma FamiliesApart(h: Hash, height: Int64, i: Int32)
    ensures TxHashKey(h) != TxIndexKey(height, i)
  {
    assert TxHashKey(h)[0] != TxIndexKey(height, i)[0];
  }

  lemma HashKeyInjective(h: Hash, h': Hash)
    requires TxHashKey(h) == TxHashKey(h')
    ensures h == h'
  {
    assert h == TxHashKey(h)[1..] && h' == TxHashKey(h')[1..];
  }

  lemma SaveHolds(db: Store, e: Entry, e': Entry)
    ensures Holds(Save(db, e), e)
    ensures Holds(db, e') && (e == e' || Apart(e, e')) ==> Holds(Save(db, e), e')
  {
    hide TxHashKey, TxIndexKey, Encode;
    FamiliesApart(e.hash, e.rec.height, e.rec.ethTxIndex);
    FamiliesApart(e.hash, e'.rec.height, e'.rec.ethTxIndex);
    FamiliesApart(e'.hash, e.rec.height, e.rec.ethTxIndex);
    if Apart(e, e') {
      if TxHashKey(e.hash) == TxHashKey(e'.hash) { HashKeyInjective(e.hash, e'.hash); }
      if TxIndexKey(e.rec.height, e.rec.ethTxIndex) == TxIndexKey(e'.rec.height, e'.rec.ethTxIndex) {
        IndexKeyInjective(e.rec.height, e.rec.ethTxIndex, e'.rec.height, e'.rec.ethTxIndex);
      }
    }
  }

  lemma {:induction false} SaveAllKeeps(db: Store, es: seq<Entry>, e: Entry)
    requires Holds(db, e) && forall j :: 0 <= j < |es| ==> es[j] == e || Apart(es[j], e)
    ensures Holds(SaveAll(db, es), e)
    decreases |es|
  {
    if es != [] {
      hide Save, Holds, Apart;
      SaveHolds(db, es[0], e);
      SaveAllKeeps(Save(db, es[0]), es[1..], e);
    }
  }

  ghost predicate PairwiseApart(es: seq<Entry>) {
    forall i, j :: 0 <= i < j < |es| ==> Apart(es[j], es[i])
  }

  lemma {:induction false} SaveAllHolds(db: Store, es: seq<Entry>, i: nat)
    requires PairwiseApart(es) && i < |es|
    ensures Holds(SaveAll(db, es), es[i])
    decreases |es|
  {
    hide Save, Holds, Apart;
    SaveHolds(db, es[0], es[0]);
    if i == 0 {
      SaveAllKeeps(Save(db, es[0]), es[1..], es[0]);
    } else {
      SaveAllHolds(Save(db, es[0]), es[1..], i - 1);
    }
  }

  ghost predicate KeyOf(e: Entry, k: Key) {
    k == TxHashKey(e.hash) || k == TxIndexKey(e.rec.height, e.rec.ethTxIndex)
  }

  lemma {:induction false} SaveAllKeys(db: Store, es: seq<Entry>, k: Key)
    ensures k in SaveAll(db, es) <==> k in db || exists j :: 0 <= j < |es| && KeyOf(es[j], k)
    decreases |es|
  {
    hide TxHashKey, TxIndexKey, Encode;
    if es != [] {
      SaveAllKeys(Save(db, es[0]), es[1..], k);
      assert k in Save(db, es[0]) <==> k in db || KeyOf(es[0], k);
      hide KeyOf, Save;
      if j :| 0 <= j < |es| && KeyOf(es[j], k) {
        assert j > 0 ==> es[1..][j - 1] == es[j];
      }
      if j :| 0 <= j < |es[1..]| && KeyOf(es[1..][j], k) {
        assert KeyOf(es[j + 1], k);
      }
    }
  }

  // ----- re-indexing -----

  /** The last entry of `es` that writes `k`, if any, decides `k`; so saving a block again changes nothing. */
  function LastWrite(es: seq<Entry>, k: Key): Option<seq<Byte>>
    decreases |es|
  {
    if es == [] then None
    else
      var n := |es| - 1;
      if k == TxIndexKey(es[n].rec.height, es[n].rec.ethTxIndex) then Some(es[n].hash)
      else if k == TxHashKey(es[n].hash) then Some(Encode(es[n].rec))
      else LastWrite(es[..n], k)
  }

  lemma {:induction false} SaveAllAt(db: Store, es: seq<Entry>, k: Key)
    ensures var w := LastWrite(es, k);
            (k in SaveAll(db, es) <==> k in db || w.Some?)
            && (w.Some? ==> SaveAll(db, es)[k] == w.value)
            && (w.None? && k in db ==> SaveAll(db, es)[k] == db[k])
    decreases |es|
  {
    hide TxHashKey, TxIndexKey, Encode;
    if es != [] {
      var n := |es| - 1;
      assert es == es[..n] + [es[n]];
      SaveAllAppend(db, es[..n], [es[n]]);
      SaveAllAt(db, es[..n], k);
      var mid := SaveAll(db, es[..n]);
      assert SaveAll(mid, [es[n]]) == Save(mid, es[n]) by { assert [es[n]][1..] == []; }
      hide SaveAll;
    }
  }

  /** Re-indexing a block leaves the store unchanged, whatever its entries. */
  lemma Reindex(db: Store, es: seq<Entry>)
    ensures SaveAll(SaveAll(db, es), es) == SaveAll(db, es)
  {
    var once := SaveAll(db, es);
    var twice := SaveAll(once, es);
    forall k: Key
      ensures k in twice <==> k in once
      ensures k in once ==> twice[k] == once[k]
    {
      hide SaveAll;
      SaveAllAt(db, es, k);
      SaveAllAt(once, es, k);
    }
  }

  /** A write batch collected aside and written at the end is the same as saving in order. */
  lemma BatchWrite(db: Store, es: seq<Entry>)
    ensures db + SaveAll(map[], es) == SaveAll(db, es)
  {
    var batch, saved := SaveAll(map[], es), SaveAll(db, es);
    forall k: Key
      ensures k in db + batch <==> k in saved
      ensures k in saved ==> (db + batch)[k] == saved[k]
    {
      hide SaveAll;
      SaveAllAt(db, es, k);
      SaveAllAt(map[], es, k);
    }
  }

  // ----- lookups -----

  datatype Lookup = Found(rec: TxResult) | NotFound | Undecodable

  function GetByTxHash(db: Store, h: Hash): Lookup {
    if TxHashKey(h) !in db || |db[TxHashKey(h)]| == 0 then NotFound
    else
      match Wire.Decode(HandleField, ZERO, db[TxHashKey(h)])
      case Done(r) => Found(r)
      case Failed(_, _) => Undecodable
  }

  function GetByBlockAndIndex(db: Store, height: Int64, i: Int32): Lookup {
    if TxIndexKey(height, i) !in db || |db[TxIndexKey(height, i)]| == 0 then NotFound
    else GetByTxHash(db, BytesToHash(db[TxIndexKey(height, i)]))
  }

  /** A stored entry is read back through either key, unless its record is all zero: the empty bytes of that
      record read as a missing key. */
  lemma LookupHeld(db: Store, e: Entry)
    requires Holds(db, e)
    ensures GetByTxHash(db, e.hash) == (if e.rec == ZERO then NotFound else Found(e.rec))
    ensures GetByBlockAndIndex(db, e.rec.height, e.rec.ethTxIndex) == GetByTxHash(db, e.hash)
  {
    RoundTrip(e.rec);
    EmptyIffZero(e.rec);
    HashOfHash(e.hash);
    hide Wire.Decode, Encode, BytesToHash, TxHashKey, TxIndexKey;
  }

  /** The record of zeros is saved and not found. */
  lemma ZeroRecordLost(h: Hash)
    ensures var db := Save(map[], Entry(h, ZERO));
            Holds(db, Entry(h, ZERO)) && GetByTxHash(db, h) == NotFound && GetByBlockAndIndex(db, 0, 0) == NotFound
  {
    hide Save, Holds, GetByTxHash, GetByBlockAndIndex;
    SaveHolds(map[], Entry(h, ZERO), Entry(h, ZERO));
    LookupHeld(Save(map[], Entry(h, ZERO)), Entry(h, ZERO));
  }

  // ----- the range scans -----

  /** LoadFirstBlock (reverse == false) and LoadLastBlock (reverse == true): the height in the key the iterator
      stands on, an error when that key has not the length of an index key, -1 when there is no key. */
  method LoadBlock(db: Store, reverse: bool) returns (height: int, wrongLength: bool)
    ensures (forall k :: k in db ==> !InRange(k, SCAN_FROM, SCAN_TO)) ==> height == -1 && !wrongLength
    ensures forall k :: IsFirstKey(db, SCAN_FROM, SCAN_TO, reverse, k) ==>
              if wrongLength then ParseBlockNumber(k).None? else ParseBlockNumber(k) == Some(height)
    ensures WellKeyed(db) ==> !wrongLength && if reverse then IsLast(db, height) else IsFirst(db, height)
  {
    hide *;
    var k := Seek(db, SCAN_FROM, SCAN_TO, reverse);
    if k.None? {
      NoIndexKeys(db);
      FirstKeyInRange(db, reverse);
      return -1, false;
    }
    FirstKeyUnique(db, reverse, k.value);
    var n := ParseBlockNumber(k.value);
    height, wrongLength := if n.None? then 0 else n.value, n.None?;
    if WellKeyed(db) {
      ghost var h, i := IndexKeyFound(db, k.value);
      ParseIndexKey(h, i);
      ExtremeHeight(db, reverse, h, i);
    }
  }

  lemma FirstKeyInRange(db: Store, reverse: bool)
    ensures forall k :: IsFirstKey(db, SCAN_FROM, SCAN_TO, reverse, k) ==> k in db && InRange(k, SCAN_FROM, SCAN_TO)
  {
    hide InRange;
  }

  lemma FirstKeyUnique(db: Store, reverse: bool, k: Key)
    requires IsFirstKey(db, SCAN_FROM, SCAN_TO, reverse, k)
    ensures k in db && InRange(k, SCAN_FROM, SCAN_TO)
    ensures forall k' :: IsFirstKey(db, SCAN_FROM, SCAN_TO, reverse, k') ==> k' == k
  {
    hide InRange, Less;
    forall k' | IsFirstKey(db, SCAN_FROM, SCAN_TO, reverse, k') ensures k' == k {
      LessTotal(k, k');
    }
  }

  lemma NoIndexKeys(db: Store)
    requires forall k :: k in db ==> !InRange(k, SCAN_FROM, SCAN_TO)
    ensures IsFirst(db, -1) && IsLast(db, -1)
  {
    forall h, i: Int32 | 0 <= h < TWO_63 && i >= 0
      ensures TxIndexKey(h, i) !in db
    {
      ScanRange(TxIndexKey(h, i));
    }
  }

  lemma IndexKeyFound(db: Store, k: Key) returns (h: Int64, i: Int32)
    requires WellKeyed(db) && k in db && InRange(k, SCAN_FROM, SCAN_TO)
    ensures h >= 0 && i >= 0 && k == TxIndexKey(h, i)
  {
    ScanRange(k);
    hide ToBytes, ToUint64, InRange;
    assert IsIndexKey(k);
    h, i :| h >= 0 && i >= 0 && k == TxIndexKey(h, i);
  }

  lemma ExtremeHeight(db: Store, reverse: bool, h: Int64, i: Int32)
    requires h >= 0 && i >= 0
    requires IsFirstKey(db, SCAN_FROM, SCAN_TO, reverse, TxIndexKey(h, i))
    ensures if reverse then IsLast(db, h) else IsFirst(db, h)
  {
    assert HasHeight(db, h);
    forall h', i': Int32 | 0 <= h' < TWO_63 && i' >= 0 && TxIndexKey(h', i') in db
      ensures if reverse then h' <= h else h <= h'
    {
      ScanRange(TxIndexKey(h', i'));
      IndexKeyOrderNonNegative(h, i, h', i');
      IndexKeyOrderNonNegative(h', i', h, i);
    }
  }
}
