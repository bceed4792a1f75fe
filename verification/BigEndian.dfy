/** Big-endian integers and the lexicographic order of byte strings. */
module BigEndian {
  import opened MachineInts

  function Pow256(n: nat): (p: nat)
    ensures p >= 1
  {
    if n == 0 then 1 else 256 * Pow256(n - 1)
  }

  /** The low `n` bytes of `v`, most significant first: binary.BigEndian.PutUint16/32/64. */
  function ToBytes(v: nat, n: nat): (bs: seq<Byte>)
    ensures |bs| == n
  {
    if n == 0 then [] else ToBytes(v / 256, n - 1) + [v % 256]
  }

  function FromBytes(bs: seq<Byte>): nat {
    if bs == [] then 0 else 256 * FromBytes(bs[..|bs| - 1]) + bs[|bs| - 1]
  }

  lemma {:induction false} FromToBytes(v: nat, n: nat)
    requires v < Pow256(n)
    ensures FromBytes(ToBytes(v, n)) == v
  {
    if n > 0 {
      FromToBytes(v / 256, n - 1);
      assert ToBytes(v, n)[..n - 1] == ToBytes(v / 256, n - 1);
    }
  }

  lemma {:induction false} ToFromBytes(bs: seq<Byte>)
    ensures FromBytes(bs) < Pow256(|bs|) && ToBytes(FromBytes(bs), |bs|) == bs
  {
    if bs != [] {
      ToFromBytes(bs[..|bs| - 1]);
      assert bs == bs[..|bs| - 1] + [bs[|bs| - 1]];
    }
  }

  lemma Widths()
    ensures Pow256(2) == 0x1_0000 && Pow256(4) == TWO_32 && Pow256(8) == TWO_64
  {
    assert Pow256(1) == 256 && Pow256(3) == 0x100_0000;
    assert Pow256(5) == 0x100_0000_0000 && Pow256(6) == 0x1_0000_0000_0000 && Pow256(7) == 0x100_0000_0000_0000;
  }

  /** The order of keys in the database. */
  predicate Less(a: seq<Byte>, b: seq<Byte>) {
    b != [] && (a == [] || a[0] < b[0] || (a[0] == b[0] && Less(a[1..], b[1..])))
  }

  lemma {:induction false} LessTotal(a: seq<Byte>, b: seq<Byte>)
    ensures Less(a, b) || Less(b, a) || a == b
    ensures !(Less(a, b) && Less(b, a)) && !Less(a, a)
  {
    if a != [] {
      LessTotal(a[1..], a[1..]);
      if b != [] && a[0] == b[0] {
        LessTotal(a[1..], b[1..]);
        assert a == [a[0]] + a[1..] && b == [b[0]] + b[1..];
      }
    }
  }

  lemma {:induction false} LessTransitive(a: seq<Byte>, b: seq<Byte>, c: seq<Byte>)
    requires Less(a, b) && Less(b, c)
    ensures Less(a, c)
  {
    if a != [] && a[0] == b[0] && b[0] == c[0] {
      LessTransitive(a[1..], b[1..], c[1..]);
    }
  }

  lemma LessPrefix(p: seq<Byte>, a: seq<Byte>, b: seq<Byte>)
    requires |p| == 1
    ensures Less(p + a, p + b) <==> Less(a, b)
  {
    assert (p + a)[1..] == a && (p + b)[1..] == b;
  }

  /** Fixed-width big-endian numbers compare as numbers, and equal ones leave the decision to what follows. */
  lemma {:induction false} OrderEmbedding(u: nat, v: nat, n: nat, x: seq<Byte>, y: seq<Byte>)
    requires u < Pow256(n) && v < Pow256(n)
    ensures Less(ToBytes(u, n) + x, ToBytes(v, n) + y) <==> u < v || (u == v && Less(x, y))
  {
    if n == 0 {
      assert ToBytes(u, 0) + x == x && ToBytes(v, 0) + y == y;
    } else {
      var x', y' := [u % 256] + x, [v % 256] + y;
      assert ToBytes(u, n) + x == ToBytes(u / 256, n - 1) + x';
      assert ToBytes(v, n) + y == ToBytes(v / 256, n - 1) + y';
      OrderEmbedding(u / 256, v / 256, n - 1, x', y');
      assert x'[1..] == x && y'[1..] == y;
    }
  }
}
