/** Persistent counters: a 32-bit or a 256-bit number kept under one key of a store. */
module Sequence {
  import opened MachineInts
  import opened BigEndian
  import opened KvStore

  datatype Width = Narrow | Wide

  /** Sequence[uint32] and Sequence[math.Uint] with the key they live under. */
  datatype Counter = Counter(key: Key, width: Width)

  function Limit(w: Width): (m: nat)
    ensures m >= 1
  {
    if w.Narrow? then Pow256(4) else Pow256(32)
  }

  /** big.Int Bytes: no leading zero, nothing at all for zero. */
  function Minimal(n: nat): seq<Byte> {
    if n == 0 then [] else Minimal(n / 256) + [n % 256]
  }

  function Encode(w: Width, n: nat): seq<Byte>
    requires n < Limit(w)
  {
    if w.Narrow? then ToBytes(n, 4) else Minimal(n)
  }

  /** `None` is a panic: fewer than four bytes, or more than 256 bits. A missing value reads as zero. */
  function Decode(w: Width, bz: Option<seq<Byte>>): (r: Option<nat>)
    ensures r.Some? ==> r.value < Limit(w)
  {
    if bz.None? then Some(0)
    else if w.Narrow? then
      if |bz.value| < 4 then None
      else
        ToFromBytes(bz.value[..4]);
        Some(FromBytes(bz.value[..4]))
    else if FromBytes(bz.value) < Pow256(32) then Some(FromBytes(bz.value)) else None
  }

  lemma {:induction false} FromMinimal(n: nat)
    ensures FromBytes(Minimal(n)) == n
  {
    if n > 0 {
      FromMinimal(n / 256);
      var m := Minimal(n);
      assert m[..|m| - 1] == Minimal(n / 256);
    }
  }

  /** The stored bytes a counter could have written itself. */
  predicate Canonical(w: Width, bz: seq<Byte>) {
    if w.Narrow? then |bz| == 4 else bz == [] || bz[0] != 0
  }

  lemma {:induction false} MinimalCanonical(n: nat)
    ensures Canonical(Wide, Minimal(n))
    ensures n > 0 ==> Minimal(n) != []
  {
    if n > 0 {
      MinimalCanonical(n / 256);
    }
  }

  lemma {:induction false} FromBytesPositive(bz: seq<Byte>)
    requires bz != [] && bz[0] != 0
    ensures FromBytes(bz) > 0
  {
    if |bz| > 1 {
      FromBytesPositive(bz[..|bz| - 1]);
    }
  }

  lemma {:induction false} MinimalFrom(bz: seq<Byte>)
    requires Canonical(Wide, bz)
    ensures Minimal(FromBytes(bz)) == bz
  {
    if bz != [] {
      FromBytesPositive(bz);
      MinimalFrom(bz[..|bz| - 1]);
      var n := FromBytes(bz);
      assert n / 256 == FromBytes(bz[..|bz| - 1]) && n % 256 == bz[|bz| - 1];
    }
  }

  /** Every value a counter can hold is read back from the bytes it is stored as. */
  lemma DecodeEncode(w: Width, n: nat)
    requires n < Limit(w)
    ensures Decode(w, Some(Encode(w, n))) == Some(n)
  {
    if w.Narrow? {
      FromToBytes(n, 4);
      assert ToBytes(n, 4)[..4] == ToBytes(n, 4);
    } else {
      FromMinimal(n);
    }
  }

  /** Writing back what was read changes the bytes exactly when they were not canonical. */
  lemma EncodeDecodeIff(w: Width, bz: seq<Byte>)
    requires Decode(w, Some(bz)).Some?
    ensures var n := Decode(w, Some(bz)).value;
            Encode(w, n) == bz <==> Canonical(w, bz)
  {
    if w.Narrow? {
      ToFromBytes(bz[..4]);
      assert |bz| == 4 ==> bz[..4] == bz;
    } else {
      MinimalCanonical(FromBytes(bz));
      if Canonical(w, bz) {
        MinimalFrom(bz);
      }
    }
  }

  // ----- the counter on a store -----

  function Get(data: Store, key: Key): Option<seq<Byte>> { if key in data then Some(data[key]) else None }

  function Current(data: Store, c: Counter): Option<nat> { Decode(c.width, Get(data, c.key)) }

  /** IncreaseSequence: 32 bits wrap around, 256 bits panic. */
  function Increase(w: Width, n: nat): (r: Option<nat>)
    requires n < Limit(w)
    ensures r.Some? ==> r.value < Limit(w)
  {
    if n + 1 < Limit(w) then Some(n + 1) else if w.Narrow? then Some(0) else None
  }

  /** Counting modulo the width. */
  function Wrap(w: Width, n: nat): (r: nat)
    ensures r < Limit(w)
  {
    n % Limit(w)
  }

  lemma WrapSmall(w: Width, n: nat)
    requires n < Limit(w)
    ensures Wrap(w, n) == n
  {
    ModUnique(n, Limit(w), 0, n);
  }

  lemma WrapStep(w: Width, n: nat)
    ensures Wrap(w, Wrap(w, n) + 1) == Wrap(w, n + 1)
  {
    hide Limit;
    var m := Limit(w);
    var q, r := n / m, n % m;
    assert n == q * m + r;
    if r + 1 < m {
      ModUnique(n + 1, m, q, r + 1);
      ModUnique(r + 1, m, 0, r + 1);
    } else {
      assert (q + 1) * m == q * m + m;
      ModUnique(n + 1, m, q + 1, 0);
      ModUnique(r + 1, m, 1, 0);
    }
  }

  lemma ModUnique(a: nat, m: nat, q: int, r: nat)
    requires m > 0 && a == q * m + r && r < m
    ensures a % m == r
  {
    hide *;
    var q', r' := a / m, a % m;
    assert a == q' * m + r';
    var d := q - q';
    assert d * m == q * m - q' * m;
    if d >= 1 {
      assert d * m == (d - 1) * m + m;
    } else if d <= -1 {
      assert d * m == (d + 1) * m - m;
    }
  }

  lemma IncreaseDef(w: Width, n: nat)
    requires n < Limit(w)
    ensures n + 1 < Limit(w) ==> Increase(w, n) == Some(n + 1)
    ensures n + 1 == Limit(w) ==> Increase(w, n) == if w.Narrow? then Some(0) else None
  {
  }

  lemma IncreaseMod(w: Width, n: nat)
    requires n < Limit(w)
    ensures Increase(w, n).Some? ==> Increase(w, n).value == Wrap(w, n + 1)
  {
    hide Limit;
    IncreaseDef(w, n);
    if n + 1 < Limit(w) {
      ModUnique(n + 1, Limit(w), 0, n + 1);
    } else {
      ModUnique(n + 1, Limit(w), 1, 0);
    }
  }

  /** What one NextVal does: the value and the new store, or a panic that leaves the store alone. */
  function Next(data: Store, c: Counter): Option<(nat, Store)> {
    match Current(data, c)
    case None => None
    case Some(n) =>
      match Increase(c.width, n)
      case None => None
      case Some(m) => Some((m, data[c.key := Encode(c.width, m)]))
  }

  /** The value handed out is the one CurVal reads afterwards, one more than before, and no other key is touched. */
  lemma NextStep(data: Store, c: Counter)
    ensures Next(data, c).Some? <==>
            Current(data, c).Some? && (c.width.Narrow? || Current(data, c).value + 1 < Limit(c.width))
    ensures Next(data, c).Some? ==>
              var (v, after) := Next(data, c).value;
              && v == Wrap(c.width, Current(data, c).value + 1)
              && Current(after, c) == Some(v)
              && forall k :: k != c.key ==> Get(after, k) == Get(data, k)
  {
    if Current(data, c).Some? {
      IncreaseMod(c.width, Current(data, c).value);
      if Next(data, c).Some? {
        DecodeEncode(c.width, Next(data, c).value.0);
      }
    }
  }

  // ----- runs over many counters -----

  /** The store after a run of NextVal calls, or `None` when one of them panics. */
  function Run(data: Store, calls: seq<Counter>): Option<Store> {
    if calls == [] then Some(data)
    else
      match Run(data, calls[..|calls| - 1])
      case None => None
      case Some(d) =>
        match Next(d, calls[|calls| - 1])
        case None => None
        case Some((_, after)) => Some(after)
  }

  function Count(calls: seq<Counter>, key: Key): nat {
    if calls == [] then 0
    else Count(calls[..|calls| - 1], key) + if calls[|calls| - 1].key == key then 1 else 0
  }

  /** No key is used by counters of two widths. */
  ghost predicate OneWidth(calls: seq<Counter>) {
    forall i, j :: 0 <= i < j < |calls| && calls[i].key == calls[j].key ==> calls[i].width == calls[j].width
  }

  /** The counter's calls stay below its width, where running out matters. */
  ghost predicate Fits(calls: seq<Counter>, c: Counter) { c.width.Narrow? || Count(calls, c.key) < Limit(Wide) }

  lemma {:induction false} CountZero(calls: seq<Counter>, key: Key)
    requires forall i :: 0 <= i < |calls| ==> calls[i].key != key
    ensures Count(calls, key) == 0
  {
    if calls != [] {
      CountZero(calls[..|calls| - 1], key);
    }
  }

  /** What a run of calls from fresh keys must have left behind. */
  ghost predicate Counted(data: Store, calls: seq<Counter>, after: Store) {
    && (forall i :: 0 <= i < |calls| ==>
          Current(after, calls[i]) == Some(Wrap(calls[i].width, Count(calls, calls[i].key))))
    && (forall k :: (forall i :: 0 <= i < |calls| ==> calls[i].key != k) ==> Get(after, k) == Get(data, k))
  }

  /** Before its next call a counter stands at the number of its calls so far. */
  lemma Standing(data: Store, before: seq<Counter>, c: Counter, d: Store)
    requires OneWidth(before + [c]) && c.key !in data && Counted(data, before, d)
    ensures Current(d, c) == Some(Wrap(c.width, Count(before, c.key)))
  {
    if i :| 0 <= i < |before| && before[i].key == c.key {
      assert (before + [c])[i] == before[i] && (before + [c])[|before|] == c;
      assert before[i] == c;
    } else {
      CountZero(before, c.key);
      assert Get(d, c.key) == Get(data, c.key);
    }
  }

  lemma CountedEmpty(data: Store)
    ensures Counted(data, [], data)
  {
  }

  lemma CountSnoc(before: seq<Counter>, c: Counter, key: Key)
    ensures Count(before + [c], key) == Count(before, key) + if c.key == key then 1 else 0
  {
    assert (before + [c])[..|before|] == before;
  }

  /** One more call keeps the count of every counter. */
  lemma StillCounted(data: Store, before: seq<Counter>, c: Counter, d: Store)
    requires OneWidth(before + [c]) && c.key !in data && Counted(data, before, d) && Next(d, c).Some?
    ensures Counted(data, before + [c], Next(d, c).value.1)
  {
    hide Wrap, Limit, Next, Decode, Count;
    var calls, after := before + [c], Next(d, c).value.1;
    assert calls[|before|] == c;
    assert forall i :: 0 <= i < |before| ==> calls[i] == before[i];
    Standing(data, before, c, d);
    NextStep(d, c);
    forall i | 0 <= i < |calls|
      ensures Current(after, calls[i]) == Some(Wrap(calls[i].width, Count(calls, calls[i].key)))
    {
      CountSnoc(before, c, calls[i].key);
      if calls[i].key == c.key {
        assert calls[i].width == c.width;
        WrapStep(c.width, Count(before, c.key));
      }
    }
  }

  /** Counters with different keys do not disturb each other, whatever order they are drawn in: a run panics if and
      only if some 256-bit counter is drawn 2^256 times, and otherwise each counter stands at the number of times it
      was drawn, modulo its width. */
  lemma {:induction false} RunCounts(data: Store, calls: seq<Counter>)
    requires OneWidth(calls)
    requires forall i :: 0 <= i < |calls| ==> calls[i].key !in data
    ensures Run(data, calls).Some? <==> forall i :: 0 <= i < |calls| ==> Fits(calls, calls[i])
    ensures Run(data, calls).Some? ==> Counted(data, calls, Run(data, calls).value)
  {
    hide Wrap, Limit, Next, Counted, OneWidth, Current;
    if calls == [] {
      CountedEmpty(data);
    } else {
      var c, before := calls[|calls| - 1], calls[..|calls| - 1];
      assert before + [c] == calls;
      OneWidthPrefix(before, c);
      RunCounts(data, before);
      if Run(data, before).Some? {
        var d := Run(data, before).value;
        Standing(data, before, c, d);
        NextStep(d, c);
        FitsOneMore(before, c);
        if c.width.Wide? {
          WrapSmall(Wide, Count(before, c.key));
        }
        if Next(d, c).Some? {
          StillCounted(data, before, c, d);
        }
      } else {
        var i :| 0 <= i < |before| && !Fits(before, before[i]);
        assert !Fits(calls, calls[i]);
      }
    }
  }

  lemma OneWidthPrefix(before: seq<Counter>, c: Counter)
    requires OneWidth(before + [c])
    ensures OneWidth(before)
  {
    assert forall i :: 0 <= i < |before| ==> (before + [c])[i] == before[i];
  }

  lemma FitsOneMore(before: seq<Counter>, c: Counter)
    requires OneWidth(before + [c])
    requires forall i :: 0 <= i < |before| ==> Fits(before, before[i])
    ensures var calls := before + [c];
            (forall i :: 0 <= i < |calls| ==> Fits(calls, calls[i])) <==> Fits(calls, c)
    ensures c.width.Wide? ==> Count(before, c.key) < Limit(Wide)
  {
    var calls := before + [c];
    assert calls[..|before|] == before && calls[|before|] == c;
    forall i | 0 <= i < |before| ensures Fits(calls, c) ==> Fits(calls, calls[i]) {
      assert calls[i] == before[i];
      if calls[i].key == c.key {
        assert calls[i] == c;
      }
    }
    if i :| 0 <= i < |before| && before[i].key == c.key {
      assert calls[i] == before[i];
    } else {
      CountZero(before, c.key);
    }
  }

  // ----- the methods -----

  class KVStore {
    var data: Store
  }

  method NextVal(c: Counter, store: KVStore) returns (r: Option<nat>)
    modifies store
    ensures r.None? <==> Next(old(store.data), c).None?
    ensures r.None? ==> store.data == old(store.data)
    ensures r.Some? ==> Next(old(store.data), c) == Some((r.value, store.data)) && Current(store.data, c) == r
  {
    NextStep(store.data, c);
    var v := Get(store.data, c.key);
    var n := Decode(c.width, v);
    if n.None? {
      return None;
    }
    r := Increase(c.width, n.value);
    if r.Some? {
      store.data := store.data[c.key := Encode(c.width, r.value)];
    }
  }

  method CurVal(c: Counter, store: KVStore) returns (r: Option<nat>)
    ensures r == Current(store.data, c)
    ensures c.key !in store.data ==> r == Some(0)
  {
    r := Decode(c.width, Get(store.data, c.key));
  }

  /** InitVal: refuses a key that is already there; otherwise the start value is the current one. */
  method InitVal(c: Counter, store: KVStore, start: nat) returns (ok: bool)
    requires start < Limit(c.width)
    modifies store
    ensures ok <==> c.key !in old(store.data)
    ensures !ok ==> store.data == old(store.data)
    ensures ok ==> Current(store.data, c) == Some(start)
    ensures ok ==> store.data.Keys == old(store.data.Keys) + {c.key}
                   && forall k :: k in old(store.data) ==> store.data[k] == old(store.data)[k]
  {
    if c.key in store.data {
      return false;
    }
    DecodeEncode(c.width, start);
    store.data := store.data[c.key := Encode(c.width, start)];
    ok := true;
  }
}
