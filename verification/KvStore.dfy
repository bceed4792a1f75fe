/** A sorted key-value database: a finite map from byte strings to byte strings, with range iterators. */
module KvStore {
  import opened MachineInts
  import opened BigEndian

  type Key = seq<Byte>
  type Store = map<Key, seq<Byte>>

  datatype Option<+T> = None | Some(value: T)

  predicate InRange(k: Key, lo: Key, hi: Key) {
    !Less(k, lo) && Less(k, hi)
  }

  /** Position of an iterator over [lo, hi): the least key, or the greatest for a reverse iterator. */
  ghost predicate IsFirstKey(db: Store, lo: Key, hi: Key, reverse: bool, k: Key) {
    && k in db && InRange(k, lo, hi)
    && forall k' :: k' in db && InRange(k', lo, hi) ==> (if reverse then !Less(k, k') else !Less(k', k))
  }

  /** `it.Valid()` and `it.Key()` of a fresh iterator. */
  method Seek(db: Store, lo: Key, hi: Key, reverse: bool) returns (k: Option<Key>)
    ensures k.None? ==> forall k' :: k' in db ==> !InRange(k', lo, hi)
    ensures k.Some? ==> IsFirstKey(db, lo, hi, reverse, k.value)
  {
    k := None;
    var rest := db.Keys;
    while rest != {}
      invariant rest <= db.Keys
      invariant k.None? ==> forall k' :: k' in db && k' !in rest ==> !InRange(k', lo, hi)
      invariant k.Some? ==>
        && k.value in db && InRange(k.value, lo, hi)
        && forall k' :: k' in db && k' !in rest && InRange(k', lo, hi) ==>
             (if reverse then !Less(k.value, k') else !Less(k', k.value))
      decreases rest
    {
      var c :| c in rest;
      if InRange(c, lo, hi) && (k.None? || (if reverse then Less(k.value, c) else Less(c, k.value))) {
        Improves(db, lo, hi, reverse, rest, k, c);
        k := Some(c);
      }
      rest := rest - {c};
    }
  }

  lemma Improves(db: Store, lo: Key, hi: Key, reverse: bool, rest: set<Key>, best: Option<Key>, c: Key)
    requires c in db && InRange(c, lo, hi)
    requires best.None? ==> forall k' :: k' in db && k' !in rest ==> !InRange(k', lo, hi)
    requires best.Some? ==> if reverse then Less(best.value, c) else Less(c, best.value)
    requires best.Some? ==>
      forall k' :: k' in db && k' !in rest && InRange(k', lo, hi) ==>
        (if reverse then !Less(best.value, k') else !Less(k', best.value))
    ensures forall k' :: k' in db && k' !in rest && InRange(k', lo, hi) ==>
              (if reverse then !Less(c, k') else !Less(k', c))
    ensures !Less(c, c)
  {
    LessTotal(c, c);
    forall k' | k' in db && k' !in rest && InRange(k', lo, hi)
      ensures if reverse then !Less(c, k') else !Less(k', c)
    {
      if reverse && Less(c, k') {
        LessTransitive(best.value, c, k');
      } else if !reverse && Less(k', c) {
        LessTransitive(k', c, best.value);
      }
    }
  }
}
