/** Base-128 varints: the encoder that fills a buffer, the closed size formula, and the decoding loop. */
module Varint {
  import opened MachineInts

  /** Why a decoder refuses its input. `Truncated` stands for both io.ErrUnexpectedEOF and ErrInvalidLength:
      a length that is negative, that makes the cursor wrap, or that runs past the end of the input. */
  datatype Error =
    | IntOverflow
    | Truncated
    | UnexpectedEndOfGroup
    | IllegalTag
    | WrongWireType
    | IllegalWireType

  // ----- the encoding, and its size -----

  function VarintBytes(v: nat): (bs: seq<Byte>)
    ensures |bs| >= 1
  {
    if v < 128 then [v] else [v % 128 + 128] + VarintBytes(v / 128)
  }

  /** math/bits.Len64 */
  function BitLen(x: nat): nat {
    if x == 0 then 0 else 1 + BitLen(x / 2)
  }

  /** `x | 1` */
  function SetLowBit(x: nat): nat {
    if x % 2 == 0 then x + 1 else x
  }

  /** `(math_bits.Len64(x|1) + 6) / 7` */
  function Sov(x: nat): nat {
    (BitLen(SetLowBit(x)) + 6) / 7
  }

  lemma BitLenHalf(x: nat)
    ensures x >= 1 ==> BitLen(x) == 1 + BitLen(x / 2)
    ensures x == 0 ==> BitLen(x) == 0
  {
  }

  lemma BitLenSixteenth(x: nat)
    ensures x >= 16 ==> BitLen(x) == 4 + BitLen(x / 16)
    ensures x < 16 ==> BitLen(x) <= 4
  {
    hide BitLen;
    BitLenHalf(x);
    BitLenHalf(x / 2);
    BitLenHalf(x / 4);
    BitLenHalf(x / 8);
    BitLenHalf(x / 16);
  }

  lemma BitLenHalves(x: nat)
    ensures x >= 128 ==> BitLen(x) == 7 + BitLen(x / 128)
    ensures x < 128 ==> BitLen(x) <= 7
  {
    hide BitLen;
    BitLenSixteenth(x);
    var y := x / 16;
    BitLenHalf(y);
    BitLenHalf(y / 2);
    BitLenHalf(y / 4);
    BitLenHalf(y / 8);
  }

  lemma BitLenLowBit(x: nat)
    requires x >= 1
    ensures BitLen(SetLowBit(x)) == BitLen(x)
  {
    assert SetLowBit(x) / 2 == x / 2;
  }

  /** The closed formula predicts exactly how many bytes the encoder writes. */
  lemma {:induction false} SovIsLength(v: nat)
    ensures Sov(v) == |VarintBytes(v)|
  {
    if v < 128 {
      BitLenHalves(SetLowBit(v));
    } else {
      SovIsLength(v / 128);
      BitLenLowBit(v);
      BitLenHalves(v);
      BitLenLowBit(v / 128);
    }
  }

  // ----- decoding -----

  datatype ReadResult = Read(raw: nat, n: nat) | ReadErr(e: Error, raw: nat)

  /** What the decoding loop reads from the front of `d` with `left` bytes still allowed: the sum of the
      7-bit groups before any truncation to a machine width, and the number of bytes consumed. After an error the
      groups read so far have been summed all the same. */
  function ReadWithin(d: seq<Byte>, left: nat): (r: ReadResult)
    ensures r.Read? ==> 1 <= r.n <= |d| && r.n <= left
  {
    if left == 0 then ReadErr(IntOverflow, 0)
    else if d == [] then ReadErr(Truncated, 0)
    else if d[0] < 128 then Read(d[0], 1)
    else
      match ReadWithin(d[1..], left - 1)
      case ReadErr(e, raw) => ReadErr(e, d[0] % 128 + 128 * raw)
      case Read(raw, n) => Read(d[0] % 128 + 128 * raw, n + 1)
  }

  /** `shift` runs 0, 7, .., 63: at most ten bytes. */
  const MAX_GROUPS := 10

  function ReadVarint(d: seq<Byte>): (r: ReadResult)
    ensures r.Read? ==> 1 <= r.n <= |d|
  {
    ReadWithin(d, MAX_GROUPS)
  }

  function Pow128(k: nat): (p: nat)
    ensures p >= 1
  {
    if k == 0 then 1 else 128 * Pow128(k - 1)
  }

  /** A successful read looks at nothing beyond the bytes it consumes. */
  lemma {:induction false} ReadWithinStable(x: seq<Byte>, y: seq<Byte>, left: nat)
    requires ReadWithin(x, left).Read?
    ensures ReadWithin(x + y, left) == ReadWithin(x, left)
  {
    assert (x + y)[0] == x[0];
    if x[0] >= 128 {
      assert (x + y)[1..] == x[1..] + y;
      ReadWithinStable(x[1..], y, left - 1);
    }
  }

  lemma ReadStable(x: seq<Byte>, y: seq<Byte>)
    requires ReadVarint(x).Read?
    ensures ReadVarint(x + y) == ReadVarint(x)
  {
    ReadWithinStable(x, y, MAX_GROUPS);
  }

  /** ... and would have read the same from those bytes alone. */
  lemma {:induction false} ReadWithinExact(d: seq<Byte>, left: nat)
    requires ReadWithin(d, left).Read?
    ensures ReadWithin(d[..ReadWithin(d, left).n], left) == ReadWithin(d, left)
  {
    var n := ReadWithin(d, left).n;
    if d[0] >= 128 {
      ReadWithinExact(d[1..], left - 1);
      assert d[..n][1..] == d[1..][..n - 1];
    }
  }

  lemma ReadExact(d: seq<Byte>)
    requires ReadVarint(d).Read?
    ensures ReadVarint(d[..ReadVarint(d).n]) == ReadVarint(d)
  {
    ReadWithinExact(d, MAX_GROUPS);
  }

  lemma {:induction false} ReadEncodeWithin(v: nat, y: seq<Byte>, left: nat)
    requires left >= 1 && v < Pow128(left)
    ensures ReadWithin(VarintBytes(v) + y, left) == Read(v, |VarintBytes(v)|)
  {
    var d := VarintBytes(v) + y;
    assert d[0] == VarintBytes(v)[0];
    if v >= 128 {
      assert d[1..] == VarintBytes(v / 128) + y;
      ReadEncodeWithin(v / 128, y, left - 1);
    }
  }

  /** Every 64-bit value reads back from its encoding, whatever follows it. */
  lemma ReadEncode(v: nat, y: seq<Byte>)
    requires v < TWO_64
    ensures ReadVarint(VarintBytes(v) + y) == Read(v, |VarintBytes(v)|)
  {
    assert Pow128(2) == 0x4000;
    assert Pow128(4) == 0x1000_0000;
    assert Pow128(6) == 0x400_0000_0000;
    assert Pow128(8) == 0x100_0000_0000_0000;
    assert Pow128(10) == 0x40_0000_0000_0000_0000;
    ReadEncodeWithin(v, y, MAX_GROUPS);
  }

  /** Or-ing in a group above all bits set so far adds it, on the source's own words: an accumulator with no bit at or
      above `shift` shares none with anything shifted by it. The models below write the addition. */
  lemma OrOfDisjointIsSum(acc: bv64, group: bv64, shift: nat)
    requires shift <= 64 && acc >> shift == 0
    ensures acc | (group << shift) == acc + (group << shift)
  {
    ShiftedApart(acc, group, shift);
    ApartAdds(acc, group << shift);
  }

  lemma ShiftedApart(acc: bv64, group: bv64, shift: nat)
    requires shift <= 64 && acc >> shift == 0
    ensures acc & (group << shift) == 0
  {
  }

  lemma ApartAdds(acc: bv64, group: bv64)
    requires acc & group == 0
    ensures acc | group == acc + group
  {
  }

  /** The same in a 32-bit accumulator. */
  lemma OrOfDisjointIsSum32(acc: bv32, group: bv32, shift: nat)
    requires shift <= 32 && acc >> shift == 0
    ensures acc | (group << shift) == acc + (group << shift)
  {
    ShiftedApart32(acc, group, shift);
    ApartAdds32(acc, group << shift);
  }

  lemma ShiftedApart32(acc: bv32, group: bv32, shift: nat)
    requires shift <= 32 && acc >> shift == 0
    ensures acc & (group << shift) == 0
  {
  }

  lemma ApartAdds32(acc: bv32, group: bv32)
    requires acc & group == 0
    ensures acc | group == acc + group
  {
  }

  // ----- the loops -----

  /** `(b & 0x7F) << shift`, for `shift` counted in groups of seven bits. */
  function GroupAt(b: Byte, shift: nat): nat {
    (b % 128) * Pow128(shift)
  }

  /** The read that remains, `r`, placed above the `shift` groups already summed to `raw`. */
  ghost function Above(raw: nat, shift: nat, r: ReadResult): ReadResult {
    match r
    case ReadErr(e, x) => ReadErr(e, raw + Pow128(shift) * x)
    case Read(x, n) => Read(raw + Pow128(shift) * x, shift + n)
  }

  lemma AboveStep(raw: nat, shift: nat, d: seq<Byte>, left: nat)
    requires d != [] && left > 0
    ensures d[0] < 128 ==> Above(raw, shift, ReadWithin(d, left)) == Read(raw + GroupAt(d[0], shift), shift + 1)
    ensures d[0] >= 128 ==>
      Above(raw, shift, ReadWithin(d, left))
      == Above(raw + GroupAt(d[0], shift), shift + 1, ReadWithin(d[1..], left - 1))
  {
    var rest := ReadWithin(d[1..], left - 1);
    if d[0] >= 128 {
      GroupBelow(Pow128(shift), d[0] % 128, rest.raw);
    }
  }

  lemma AboveStart(w: Width, d: seq<Byte>)
    ensures Low(w, 0) == 0 && ReadVarint(d) == Above(0, 0, ReadWithin(d, MAX_GROUPS))
  {
    hide ReadWithin;
  }

  lemma AboveEnd(raw: nat, shift: nat, d: seq<Byte>, left: nat)
    ensures left == 0 ==> Above(raw, shift, ReadWithin(d, left)) == ReadErr(IntOverflow, raw)
    ensures left > 0 && d == [] ==> Above(raw, shift, ReadWithin(d, left)) == ReadErr(Truncated, raw)
  {
  }

  lemma GroupBelow(unit: nat, g: nat, rest: nat)
    ensures unit * (g + 128 * rest) == g * unit + (128 * unit) * rest
  {
    assert unit * (128 * rest) == (128 * unit) * rest;
  }

  /** The generated varint loop. `w` is the width of the accumulator; a signed field keeps the same bits. */
  method DecodeVarint(d: seq<Byte>, start: nat, w: Width) returns (value: nat, next: nat, err: bool, e: Error)
    requires start <= |d|
    ensures err <==> ReadVarint(d[start..]).ReadErr?
    ensures err ==> e == ReadVarint(d[start..]).e
    ensures !err ==> next == start + ReadVarint(d[start..]).n
    ensures value == Low(w, ReadVarint(d[start..]).raw)
  {
    hide Low, GroupAt, Pow128, ReadVarint, ReadWithin, Above;
    value, next, err, e := 0, start, false, Truncated;
    var shift: nat := 0;
    ghost var raw: nat, whole := 0, ReadVarint(d[start..]);
    AboveStart(w, d[start..]);
    while true
      invariant start <= next <= |d| && shift <= MAX_GROUPS && next == start + shift
      invariant value == Low(w, raw)
      invariant whole == Above(raw, shift, ReadWithin(d[next..], MAX_GROUPS - shift))
      decreases MAX_GROUPS - shift
    {
      AboveEnd(raw, shift, d[next..], MAX_GROUPS - shift);
      if shift >= MAX_GROUPS {
        err, e := true, IntOverflow;
        return;
      }
      if next >= |d| {
        err, e := true, Truncated;
        return;
      }
      var b := d[next];
      AboveStep(raw, shift, d[next..], MAX_GROUPS - shift);
      assert d[next..][1..] == d[next + 1..];
      LowSum(w, raw, GroupAt(b, shift));
      value := Low(w, value + GroupAt(b, shift));
      raw := raw + GroupAt(b, shift);
      next := next + 1;
      if b < 128 {
        return;
      }
      shift := shift + 1;
    }
  }

  // ----- writing into a buffer -----

  /** `s` with `bs` written over it from position `at`. */
  function Splice(s: seq<Byte>, at: nat, bs: seq<Byte>): (t: seq<Byte>)
    requires at + |bs| <= |s|
    ensures |t| == |s|
  {
    s[..at] + bs + s[at + |bs|..]
  }

  lemma SpliceNothing(s: seq<Byte>, at: nat)
    requires at <= |s|
    ensures Splice(s, at, []) == s
  {
  }

  lemma VarintGroups(v: nat)
    ensures v >= 128 ==> VarintBytes(v) == [v % 128 + 128] + VarintBytes(v / 128)
    ensures v < 128 ==> VarintBytes(v) == [v]
  {
  }

  lemma SpliceAppend(s: seq<Byte>, at: nat, bs: seq<Byte>, b: Byte)
    requires at + |bs| < |s|
    ensures Splice(s, at, bs)[at + |bs| := b] == Splice(s, at, bs + [b])
  {
  }

  lemma SplicePrepend(s: seq<Byte>, at: nat, bs: seq<Byte>, b: Byte)
    requires 0 < at && at + |bs| <= |s|
    ensures Splice(s, at, bs)[at - 1 := b] == Splice(s, at - 1, [b] + bs)
  {
  }

  lemma SpliceBelow(s: seq<Byte>, at: nat, bs: seq<Byte>, cs: seq<Byte>)
    requires |cs| <= at && at + |bs| <= |s|
    ensures Splice(Splice(s, at, bs), at - |cs|, cs) == Splice(s, at - |cs|, cs + bs)
  {
  }

  /** encodeVarintIndexer / encodeVarintApproval: fills the bytes just below `offset`, low group first. */
  method EncodeVarint(buf: array<Byte>, offset: nat, v: nat) returns (base: nat)
    requires Sov(v) <= offset <= buf.Length
    modifies buf
    ensures base == offset - Sov(v) && Sov(v) == |VarintBytes(v)|
    ensures buf[..] == Splice(old(buf[..]), base, VarintBytes(v))
  {
    hide Sov, Splice, VarintBytes;
    SovIsLength(v);
    base := offset - Sov(v);
    var o, w := base, v;
    ghost var start: seq<Byte>, done: seq<Byte> := buf[..], [];
    SpliceNothing(start, base);
    while w >= 128
      invariant o == base + |done| && o + |VarintBytes(w)| == offset
      invariant done + VarintBytes(w) == VarintBytes(v)
      invariant buf[..] == Splice(start, base, done)
      decreases w
    {
      var b := w % 128 + 128;
      VarintGroups(w);
      SpliceAppend(start, base, done, b);
      buf[o] := b;
      done := done + [b];
      w, o := w / 128, o + 1;
    }
    VarintGroups(w);
    SpliceAppend(start, base, done, w);
    buf[o] := w;
  }

  // ----- a scalar field -----

  /** A scalar field: absent when zero, else its tag and a varint. */
  function ScalarField(tag: Byte, v: Uint64): seq<Byte> {
    if v == 0 then [] else [tag] + VarintBytes(v)
  }

  function ScalarSize(v: Uint64): nat {
    if v == 0 then 0 else 1 + Sov(v)
  }

  lemma ScalarSizeExact(tag: Byte, v: Uint64)
    ensures ScalarSize(v) == |ScalarField(tag, v)|
  {
    SovIsLength(v);
  }

  /** One scalar field of a Marshal method: nothing for zero, else the varint and then the tag below it. */
  method PutScalar(buf: array<Byte>, i: nat, tag: Byte, v: Uint64) returns (i': nat)
    requires |ScalarField(tag, v)| <= i <= buf.Length
    modifies buf
    ensures i' == i - |ScalarField(tag, v)|
    ensures buf[..] == Splice(old(buf[..]), i', ScalarField(tag, v))
  {
    SovIsLength(v);
    hide Sov, VarintBytes;
    i' := i;
    ghost var start := buf[..];
    assert start == Splice(start, i, []);
    if v != 0 {
      i' := EncodeVarint(buf, i, v);
      SplicePrepend(start, i', VarintBytes(v), tag);
      hide Splice;
      i' := i' - 1;
      buf[i'] := tag;
    }
  }
}
