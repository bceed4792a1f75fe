/** The storage provider's approval and its generated protobuf codec: the same wire format with a
    length-delimited field. */
module ApprovalCodec {
  import opened MachineInts
  import opened Varint
  import opened Wire

  datatype Approval = Approval(expiredHeight: Uint64, familyId: Uint32, sig: seq<Byte>)

  const EMPTY := Approval(0, 0, [])

  /** Go slices are shorter than 2^63 bytes. */
  ghost predicate Representable(a: Approval) {
    |a.sig| < TWO_63
  }

  // ----- the encoded form -----

  function SigField(sig: seq<Byte>): seq<Byte> {
    if sig == [] then [] else [0x1a] + (VarintBytes(|sig|) + sig)
  }

  function Encode(a: Approval): seq<Byte> {
    ScalarField(0x08, a.expiredHeight) + (ScalarField(0x10, a.familyId) + SigField(a.sig))
  }

  function Size(a: Approval): nat {
    ScalarSize(a.expiredHeight) + ScalarSize(a.familyId)
    + if |a.sig| > 0 then 1 + |a.sig| + Sov(|a.sig|) else 0
  }

  /** `Size` predicts the length of the encoding. */
  lemma SizeExact(a: Approval)
    ensures Size(a) == |Encode(a)|
  {
    ScalarSizeExact(0x08, a.expiredHeight);
    ScalarSizeExact(0x10, a.familyId);
    SovIsLength(|a.sig|);
  }

  // ----- decoding -----

  /** The bits of a varint in scalar field `f`; the length of the signature is not kept. */
  function Assign(a: Approval, f: int, raw: nat): Approval {
    if f == 1 then a.(expiredHeight := ToUint64(raw)) else if f == 2 then a.(familyId := ToUint32(raw)) else a
  }

  function HandleField(a: Approval, f: int, wireType: nat, d: seq<Byte>): Known<Approval> {
    if f < 1 || f > 3 then Unknown
    else if wireType != (if f == 3 then 2 else 0) then Bad(a, WrongWireType)
    else
      match ReadVarint(d)
      case ReadErr(e, raw) => Bad(Assign(a, f, raw), e)
      case Read(raw, n) =>
        if f < 3 then Set(Assign(a, f, raw), n)
        else
          var length := ToInt64(raw);
          if length < 0 || n + length > |d| then Bad(a, Truncated)
          else Set(a.(sig := d[n..n + length]), n + length)
  }

  lemma HandlerRange(a: Approval, f: int, wireType: nat, d: seq<Byte>)
    ensures HandleField(a, f, wireType, d).Unknown? <==> !(1 <= f <= 3)
  {
  }

  lemma HandlerStable()
    ensures Stable(HandleField)
  {
    forall a, f, w, x, y
      ensures StableAt(HandleField, a, f, w, x, y)
    {
      if ReadVarint(x).Read? {
        ReadStable(x, y);
        var Read(raw, n) := ReadVarint(x);
        if 0 <= ToInt64(raw) && n + ToInt64(raw) <= |x| {
          assert (x + y)[n..n + ToInt64(raw)] == x[n..n + ToInt64(raw)];
        }
      }
    }
  }

  /** The unknown fields of this message. */
  lemma UnknownNumbers(f: Field)
    requires WellFormed(f)
    ensures UnknownTo(HandleField, f) <==> FieldNumber(ReadVarint(f.tag).raw) > 3
  {
    var num, w := FieldNumber(ReadVarint(f.tag).raw), ReadVarint(f.tag).raw % 8;
    if UnknownTo(HandleField, f) {
      assert HandleField(EMPTY, num, w, []) == Unknown;
    }
  }

  function SetScalar(a: Approval, k: nat, v: Uint64): Approval {
    if v == 0 then a else if k == 1 then a.(expiredHeight := v) else a.(familyId := ToUint32(v))
  }

  lemma DecodeScalar(a: Approval, k: nat, v: Uint64, y: seq<Byte>)
    requires 1 <= k <= 2
    ensures Decode(HandleField, a, ScalarField(8 * k, v) + y) == Decode(HandleField, SetScalar(a, k, v), y)
  {
    if v == 0 {
      assert ScalarField(8 * k, v) + y == y;
    } else {
      ReadEncode(v, y);
      hide ReadWithin, VarintBytes;
      assert HandleField(a, k, 0, VarintBytes(v) + y) == Set(SetScalar(a, k, v), |VarintBytes(v)|);
      hide HandleField;
      DecodeKnown(HandleField, a, 8 * k, VarintBytes(v), SetScalar(a, k, v), y);
    }
  }

  lemma DecodeSig(a: Approval, sig: seq<Byte>, y: seq<Byte>)
    requires 0 < |sig| < TWO_63
    ensures Decode(HandleField, a, SigField(sig) + y) == Decode(HandleField, a.(sig := sig), y)
  {
    var v := VarintBytes(|sig|);
    ReadEncode(|sig|, sig + y);
    HandleSig(a, sig, y);
    hide HandleField, ReadWithin, VarintBytes;
    DecodeKnown(HandleField, a, 0x1a, v + sig, a.(sig := sig), y);
  }

  lemma HandleSig(a: Approval, sig: seq<Byte>, y: seq<Byte>)
    requires 0 < |sig| < TWO_63
    ensures var v := VarintBytes(|sig|); HandleField(a, 3, 2, v + sig + y) == Set(a.(sig := sig), |v + sig|)
  {
    hide HandleField, ReadVarint, ReadWithin, VarintBytes;
    var v := VarintBytes(|sig|);
    var d := v + sig + y;
    assert d == v + (sig + y) && d[|v|..|v| + |sig|] == sig;
    ReadEncode(|sig|, sig + y);
    HandleSigDef(a, d, |v|, |sig|);
  }

  lemma HandleSigDef(a: Approval, d: seq<Byte>, n: nat, len: nat)
    requires ReadVarint(d) == Read(len, n) && len < TWO_63 && n + len <= |d|
    ensures HandleField(a, 3, 2, d) == Set(a.(sig := d[n..n + len]), n + len)
  {
    hide ReadVarint;
    assert ToInt64(len) == len;
  }

  /** Round trip into an empty approval. */
  lemma RoundTrip(a: Approval)
    requires Representable(a)
    ensures Decode(HandleField, EMPTY, Encode(a)) == Done(a)
  {
    var tail := ScalarField(0x10, a.familyId) + SigField(a.sig);
    var a1 := EMPTY.(expiredHeight := a.expiredHeight);
    var a2 := a1.(familyId := a.familyId);
    assert ToUint32(a.familyId) == a.familyId;
    assert SetScalar(EMPTY, 1, a.expiredHeight) == a1 && SetScalar(a1, 2, a.familyId) == a2;
    hide *;
    DecodeScalar(EMPTY, 1, a.expiredHeight, tail);
    DecodeScalar(a1, 2, a.familyId, SigField(a.sig));
    EncodeDef(a);
    DecodeSigOnly(a2, a.sig);
  }

  lemma EncodeDef(a: Approval)
    ensures Encode(a) == ScalarField(8 * 1, a.expiredHeight) + (ScalarField(8 * 2, a.familyId) + SigField(a.sig))
  {
  }

  lemma DecodeSigOnly(a: Approval, sig: seq<Byte>)
    requires |sig| < TWO_63 && a.sig == []
    ensures Decode(HandleField, a, SigField(sig)) == Done(a.(sig := sig))
  {
    if sig != [] {
      DecodeSig(a, sig, []);
      assert SigField(sig) + [] == SigField(sig);
    }
  }

  // ----- the generated methods -----

  /** Go's built-in copy, into the buffer from position `at`. */
  method CopyInto(buf: array<Byte>, at: nat, src: seq<Byte>)
    requires at + |src| <= buf.Length
    modifies buf
    ensures buf[..] == Splice(old(buf[..]), at, src)
  {
    forall j | 0 <= j < |src| {
      buf[at + j] := src[j];
    }
  }

  /** The signature bytes, their length and the tag, written below `i` from the last to the first. */
  method PutSig(buf: array<Byte>, i: nat, sig: seq<Byte>) returns (i': nat)
    requires |SigField(sig)| <= i <= buf.Length
    modifies buf
    ensures i' == i - |SigField(sig)| && buf[..] == Splice(old(buf[..]), i', SigField(sig))
  {
    i' := i;
    ghost var start := buf[..];
    if |sig| > 0 {
      SovIsLength(|sig|);
      var v := VarintBytes(|sig|);
      i' := i' - |sig|;
      hide *;
      SigFieldDef(sig);
      CopyInto(buf, i', sig);
      SpliceBelow(start, i', sig, v);
      SplicePrepend(start, i' - |v|, v + sig, 0x1a);
      i' := EncodeVarint(buf, i', |sig|);
      i' := i' - 1;
      buf[i'] := 0x1a;
    } else {
      SpliceNothing(start, i);
    }
  }

  lemma SigFieldDef(sig: seq<Byte>)
    requires sig != []
    ensures SigField(sig) == [0x1a] + (VarintBytes(|sig|) + sig)
  {
  }

  class Message {
    var expiredHeight: Uint64
    var familyId: Uint32
    var sig: seq<Byte>

    constructor ()
      ensures Value() == EMPTY
    {
      expiredHeight, familyId, sig := 0, 0, [];
    }

    function Value(): Approval
      reads this
    {
      Approval(expiredHeight, familyId, sig)
    }

    method MarshalToSizedBuffer(buf: array<Byte>) returns (n: nat)
      requires Size(Value()) <= buf.Length
      modifies buf
      ensures n == Size(Value()) == |Encode(Value())|
      ensures buf[..] == Splice(old(buf[..]), buf.Length - n, Encode(Value()))
    {
      SizeExact(Value());
      n := PutFields(buf, Value());
    }

    method Marshal() returns (bytes: seq<Byte>)
      ensures bytes == Encode(Value())
    {
      var buf := new Byte[Size(Value())];
      var n := MarshalToSizedBuffer(buf);
      bytes := buf[..n];
    }

    /** One turn of the loop: the tag, then the field it names or the skipped unknown one. */
    method UnmarshalField(d: seq<Byte>, i: nat) returns (next: nat, err: bool, e: Error)
      requires i < |d|
      modifies this
      ensures match Step(HandleField, old(Value()), d[i..])
              case StepErr(r, e') => err && e == e' && Value() == r
              case StepOk(r, n) => !err && Value() == r && next == i + n
    {
      hide HandleField, SkipFrom, ReadWithin;
      ghost var a, here := Value(), d[i..];
      var wire, afterTag;
      wire, afterTag, err, e := DecodeVarint(d, i, W64);
      next := afterTag;
      if err { return; }
      var fieldNum, wireType := ToInt32(wire / 8), wire % 8;
      assert fieldNum == FieldNumber(ReadVarint(here).raw) && wireType == ReadVarint(here).raw % 8;
      assert here[afterTag - i..] == d[afterTag..];
      if wireType == 4 { return next, true, UnexpectedEndOfGroup; }
      if fieldNum <= 0 { return next, true, IllegalTag; }
      HandlerRange(a, fieldNum, wireType, d[afterTag..]);
      if fieldNum <= 3 {
        next, err, e := ReadField(d, afterTag, fieldNum, wireType);
      } else {
        next, err, e := SkipField(d, i);
        if !err && next > |d| { return next, true, Truncated; }
      }
    }

    /** A field of this message, after its tag. */
    method ReadField(d: seq<Byte>, start: nat, f: int, wireType: nat) returns (next: nat, err: bool, e: Error)
      requires start <= |d| && 1 <= f <= 3
      modifies this
      ensures match HandleField(old(Value()), f, wireType, d[start..])
              case Unknown => false
              case Bad(r, e') => err && e == e' && Value() == r
              case Set(r, n) => !err && Value() == r && next == start + n <= |d|
    {
      hide ReadWithin;
      next, err, e := start, true, WrongWireType;
      if wireType != (if f == 3 then 2 else 0) { return; }
      var v;
      v, next, err, e := DecodeVarint(d, start, if f == 2 then W32 else W64);
      if f == 1 {
        expiredHeight := v;
      } else if f == 2 {
        familyId := v;
      } else if !err {
        var byteLen := ToInt64(v);
        if byteLen < 0 || next + byteLen > |d| { return next, true, Truncated; }
        assert d[start..][next - start..next - start + byteLen] == d[next..next + byteLen];
        sig := d[next..next + byteLen];
        next := next + byteLen;
      }
    }

    method Unmarshal(d: seq<Byte>) returns (err: bool, e: Error)
      modifies this
      ensures match Decode(HandleField, old(Value()), d)
              case Done(r) => !err && Value() == r
              case Failed(r, e') => err && e == e' && Value() == r
    {
      hide HandleField, SkipFrom, ReadWithin, Step;
      err, e := false, Truncated;
      var i: nat := 0;
      ghost var whole := Decode(HandleField, Value(), d);
      assert d[0..] == d;
      while i < |d|
        invariant i <= |d|
        invariant whole == Decode(HandleField, Value(), d[i..])
      {
        ghost var here := d[i..];
        var next;
        next, err, e := UnmarshalField(d, i);
        if err { return; }
        assert here[next - i..] == d[next..];
        i := next;
      }
    }
  }

  /** Writes the fields from the last to the first, each below the one before. */
  method PutFields(buf: array<Byte>, a: Approval) returns (n: nat)
    requires |Encode(a)| <= buf.Length
    modifies buf
    ensures n == |Encode(a)| && buf[..] == Splice(old(buf[..]), buf.Length - n, Encode(a))
  {
    hide Encode, ScalarField, SigField, VarintBytes, Splice;
    EncodeParts(a, buf[..]);
    var i: nat := buf.Length;
    i := PutSig(buf, i, a.sig);
    i := PutScalar(buf, i, 0x10, a.familyId);
    i := PutScalar(buf, i, 0x08, a.expiredHeight);
    n := buf.Length - i;
  }

  /** The three fields stacked from the end of `s` down are the encoding. */
  lemma EncodeParts(a: Approval, s: seq<Byte>)
    requires |Encode(a)| <= |s|
    ensures var f1, f2, f3 := ScalarField(0x08, a.expiredHeight), ScalarField(0x10, a.familyId), SigField(a.sig);
            var i3 := |s| - |f3|;
            var i2 := i3 - |f2|;
            var i1 := i2 - |f1|;
            i1 == |s| - |Encode(a)| && i1 >= 0
            && Splice(Splice(Splice(s, i3, f3), i2, f2), i1, f1) == Splice(s, i1, Encode(a))
  {
    hide Encode, ScalarField, SigField, VarintBytes, Splice;
    var f1, f2, f3 := ScalarField(0x08, a.expiredHeight), ScalarField(0x10, a.familyId), SigField(a.sig);
    EncodeDef(a);
    SpliceBelow(s, |s| - |f3|, f3, f2);
    SpliceBelow(s, |s| - |f3| - |f2|, f2 + f3, f1);
  }
}
