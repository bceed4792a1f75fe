/** The index record and its generated protobuf codec. */
module TxResultCodec {
  import opened MachineInts
  import opened Varint
  import opened Wire

  datatype TxResult = TxResult(
    height: Int64,
    txIndex: Uint32,
    msgIndex: Uint32,
    ethTxIndex: Int32,
    failed: bool,
    gasUsed: Uint64,
    cumulativeGasUsed: Uint64)

  const ZERO := TxResult(0, 0, 0, 0, false, 0, 0)

  // ----- the encoded form -----

  function BoolWord(b: bool): Uint64 {
    if b then 1 else 0
  }

  /** The 64-bit word written for field number `k`. */
  function Word(r: TxResult, k: nat): Uint64
    requires 1 <= k <= 7
  {
    match k
    case 1 => ToUint64(r.height)
    case 2 => r.txIndex
    case 3 => r.msgIndex
    case 4 => ToUint64(r.ethTxIndex)
    case 5 => BoolWord(r.failed)
    case 6 => r.gasUsed
    case _ => r.cumulativeGasUsed
  }

  lemma Words(r: TxResult)
    ensures Word(r, 1) == ToUint64(r.height) && Word(r, 2) == r.txIndex && Word(r, 3) == r.msgIndex
    ensures Word(r, 4) == ToUint64(r.ethTxIndex) && Word(r, 5) == BoolWord(r.failed)
    ensures Word(r, 6) == r.gasUsed && Word(r, 7) == r.cumulativeGasUsed
  {
  }

  /** Fields `k`, `k + 1`, .., 7, in that order. */
  function EncodeFrom(r: TxResult, k: nat): seq<Byte>
    requires 1 <= k <= 8
    decreases 8 - k
  {
    if k == 8 then [] else ScalarField(8 * k, Word(r, k)) + EncodeFrom(r, k + 1)
  }

  function Encode(r: TxResult): seq<Byte> {
    EncodeFrom(r, 1)
  }

  function Size(r: TxResult): nat {
    ScalarSize(ToUint64(r.height)) + ScalarSize(r.txIndex) + ScalarSize(r.msgIndex)
    + ScalarSize(ToUint64(r.ethTxIndex)) + (if r.failed then 2 else 0)
    + ScalarSize(r.gasUsed) + ScalarSize(r.cumulativeGasUsed)
  }

  /** `Size` predicts the length of the encoding of every record. */
  lemma SizeExact(r: TxResult)
    ensures Size(r) == |Encode(r)|
  {
    forall k | 1 <= k <= 7
      ensures |EncodeFrom(r, k)| == ScalarSize(Word(r, k)) + |EncodeFrom(r, k + 1)|
    {
      ScalarSizeExact(8 * k, Word(r, k));
    }
    assert ScalarSize(BoolWord(r.failed)) == if r.failed then 2 else 0 by {
      assert VarintBytes(1) == [1];
      ScalarSizeExact(8 * 5, 1);
    }
    var n := k requires 1 <= k <= 8 => |EncodeFrom(r, k)|;
    assert n(1) == ScalarSize(Word(r, 1)) + n(2);
    assert n(2) == ScalarSize(Word(r, 2)) + n(3);
    assert n(3) == ScalarSize(Word(r, 3)) + n(4);
    assert n(4) == ScalarSize(Word(r, 4)) + n(5);
    assert n(5) == ScalarSize(Word(r, 5)) + n(6);
    assert n(6) == ScalarSize(Word(r, 6)) + n(7);
    assert n(7) == ScalarSize(Word(r, 7)) + n(8);
  }

  // ----- decoding -----

  /** Assigning the decoded bits to field `f`, at that field's width. */
  function SetField(r: TxResult, f: int, raw: nat): TxResult
    requires 1 <= f <= 7
  {
    match f
    case 1 => r.(height := ToInt64(raw))
    case 2 => r.(txIndex := ToUint32(raw))
    case 3 => r.(msgIndex := ToUint32(raw))
    case 4 => r.(ethTxIndex := ToInt32(raw))
    case 5 => r.(failed := ToUint64(raw) != 0)
    case 6 => r.(gasUsed := ToUint64(raw))
    case _ => r.(cumulativeGasUsed := ToUint64(raw))
  }

  /** What an unfinished varint leaves: its groups in field `f`, except that the flag is assigned only at the end. */
  function SetPartly(r: TxResult, f: int, raw: nat): TxResult
    requires 1 <= f <= 7
  {
    if f == 5 then r else SetField(r, f, raw)
  }

  function HandleField(r: TxResult, f: int, wireType: nat, d: seq<Byte>): Known<TxResult> {
    if f < 1 || f > 7 then Unknown
    else if wireType != 0 then Bad(r, WrongWireType)
    else
      match ReadVarint(d)
      case ReadErr(e, raw) => Bad(SetPartly(r, f, raw), e)
      case Read(raw, n) => Set(SetField(r, f, raw), n)
  }

  lemma HandlerStable()
    ensures Stable(HandleField)
  {
    forall r, f, w, x, y
      ensures StableAt(HandleField, r, f, w, x, y)
    {
      if ReadVarint(x).Read? {
        ReadStable(x, y);
      }
    }
  }

  /** The unknown fields of this message: any field tree whose number, after truncation to int32, is positive
      and not one of 1..7. */
  lemma UnknownNumbers(f: Field)
    requires WellFormed(f)
    ensures UnknownTo(HandleField, f) <==> FieldNumber(ReadVarint(f.tag).raw) > 7
  {
    var num, w := FieldNumber(ReadVarint(f.tag).raw), ReadVarint(f.tag).raw % 8;
    if UnknownTo(HandleField, f) {
      assert HandleField(ZERO, num, w, []) == Unknown;
    }
  }

  /** Decoding one encoded scalar field stores it and leaves the rest of the input. */
  lemma DecodeScalar(r: TxResult, k: nat, v: Uint64, y: seq<Byte>)
    requires 1 <= k <= 7 && v != 0
    ensures Decode(HandleField, r, ScalarField(8 * k, v) + y) == Decode(HandleField, SetField(r, k, v), y)
  {
    ReadEncode(v, y);
    hide ReadWithin, VarintBytes, SetField;
    assert HandleField(r, k, 0, VarintBytes(v) + y) == Set(SetField(r, k, v), |VarintBytes(v)|);
    hide HandleField;
    DecodeKnown(HandleField, r, 8 * k, VarintBytes(v), SetField(r, k, v), y);
  }

  /** `s` with the non-zero fields of `r` numbered below `k` written over it. */
  function Over(s: TxResult, r: TxResult, k: nat): TxResult {
    TxResult(
      if k > 1 && r.height != 0 then r.height else s.height,
      if k > 2 && r.txIndex != 0 then r.txIndex else s.txIndex,
      if k > 3 && r.msgIndex != 0 then r.msgIndex else s.msgIndex,
      if k > 4 && r.ethTxIndex != 0 then r.ethTxIndex else s.ethTxIndex,
      if k > 5 && r.failed then true else s.failed,
      if k > 6 && r.gasUsed != 0 then r.gasUsed else s.gasUsed,
      if k > 7 && r.cumulativeGasUsed != 0 then r.cumulativeGasUsed else s.cumulativeGasUsed)
  }

  /** Truncating the word written for a field gives the field back: sign extension to 64 bits is undone. */
  lemma SetWord(s: TxResult, r: TxResult, k: nat)
    requires 1 <= k <= 7
    ensures Word(r, k) != 0 ==> SetField(Over(s, r, k), k, Word(r, k)) == Over(s, r, k + 1)
    ensures Word(r, k) == 0 ==> Over(s, r, k + 1) == Over(s, r, k)
  {
    SignExtension64(r.height);
    SignExtension32(r.ethTxIndex);
    assert ToUint32(r.txIndex) == r.txIndex && ToUint32(r.msgIndex) == r.msgIndex;
    assert ToUint64(r.gasUsed) == r.gasUsed && ToUint64(r.cumulativeGasUsed) == r.cumulativeGasUsed;
    assert ToUint64(1) == 1;
    hide ToUint64, ToUint32, ToInt64, ToInt32;
    match k
    case 1 => case 2 => case 3 => case 4 => case 5 => case 6 => case 7 =>
  }

  lemma {:induction false} DecodeFrom(s: TxResult, r: TxResult, k: nat)
    requires 1 <= k <= 8
    ensures Decode(HandleField, Over(s, r, k), EncodeFrom(r, k)) == Done(Over(s, r, 8))
    decreases 8 - k
  {
    if k < 8 {
      SetWord(s, r, k);
      DecodeFrom(s, r, k + 1);
      if Word(r, k) == 0 {
        assert [] + EncodeFrom(r, k + 1) == EncodeFrom(r, k + 1);
      } else {
        DecodeScalar(Over(s, r, k), k, Word(r, k), EncodeFrom(r, k + 1));
      }
    }
  }

  /** Round trip for every record, negative heights and indexes included. */
  lemma RoundTrip(r: TxResult)
    ensures Decode(HandleField, ZERO, Encode(r)) == Done(r)
  {
    DecodeFrom(ZERO, r, 1);
  }

  /** Decoding into a record in use: a zero field is absent from the bytes and keeps what was there. So the
      round trip into `s` holds exactly when `s` is zero wherever `r` is. */
  lemma RoundTripInto(s: TxResult, r: TxResult)
    ensures Decode(HandleField, s, Encode(r)) == Done(Over(s, r, 8))
    ensures Decode(HandleField, s, Encode(r)) == Done(r)
            <==> forall k :: 1 <= k <= 7 && Word(r, k) == 0 ==> Word(s, k) == 0
  {
    DecodeFrom(s, r, 1);
    OverWords(s, r);
    WordsDetermine(Over(s, r, 8), r);
  }

  /** Reading the record of zeros into one that has used gas leaves the gas. */
  lemma StaleGasKept()
    ensures Encode(ZERO) == [] && Decode(HandleField, ZERO.(gasUsed := 7), Encode(ZERO)) == Done(ZERO.(gasUsed := 7))
  {
    EmptyIffZero(ZERO);
  }

  lemma OverWords(s: TxResult, r: TxResult)
    ensures forall k :: 1 <= k <= 7 ==> Word(Over(s, r, 8), k) == if Word(r, k) == 0 then Word(s, k) else Word(r, k)
  {
    SignExtension64(r.height);
    SignExtension32(r.ethTxIndex);
    hide ToUint64;
  }

  lemma WordsDetermine(a: TxResult, b: TxResult)
    ensures a == b <==> forall k :: 1 <= k <= 7 ==> Word(a, k) == Word(b, k)
  {
    SignExtension64(a.height);
    SignExtension64(b.height);
    SignExtension32(a.ethTxIndex);
    SignExtension32(b.ethTxIndex);
    hide ToUint64, ToInt64, ToInt32;
    if forall k :: 1 <= k <= 7 ==> Word(a, k) == Word(b, k) {
      assert Word(a, 1) == Word(b, 1) && Word(a, 2) == Word(b, 2) && Word(a, 3) == Word(b, 3);
      assert Word(a, 4) == Word(b, 4) && Word(a, 5) == Word(b, 5) && Word(a, 6) == Word(b, 6);
      assert Word(a, 7) == Word(b, 7);
    }
  }

  /** Only the all-zero record has an empty encoding. */
  lemma EmptyIffZero(r: TxResult)
    ensures Encode(r) == [] <==> r == ZERO
  {
    RoundTrip(r);
    RoundTrip(ZERO);
    if r == ZERO {
      ZeroWords(1);
    }
  }

  lemma {:induction false} ZeroWords(k: nat)
    requires 1 <= k <= 8
    ensures EncodeFrom(ZERO, k) == []
    decreases 8 - k
  {
    if k < 8 {
      assert Word(ZERO, k) == 0;
      ZeroWords(k + 1);
    }
  }

  // ----- the generated methods -----

  lemma FieldFits(r: TxResult, k: nat)
    requires 1 <= k <= 7
    ensures EncodeFrom(r, k) == ScalarField(8 * k, Word(r, k)) + EncodeFrom(r, k + 1)
    ensures |EncodeFrom(r, k)| <= |Encode(r)|
  {
    if k > 1 {
      FieldFits(r, k - 1);
    }
  }

  /** The buffer, `s` to begin with, now holds fields `k` and up at its end, from position `i`. */
  ghost predicate Written(now: seq<Byte>, s: seq<Byte>, r: TxResult, k: nat, i: nat)
    requires 1 <= k <= 8
  {
    i + |EncodeFrom(r, k)| == |s| && now == Splice(s, i, EncodeFrom(r, k))
  }

  lemma WrittenNone(s: seq<Byte>, r: TxResult)
    ensures Written(s, s, r, 8, |s|)
  {
  }

  lemma WrittenAll(now: seq<Byte>, s: seq<Byte>, r: TxResult, i: nat)
    requires Written(now, s, r, 1, i)
    ensures i + |Encode(r)| == |s| && now == Splice(s, i, Encode(r))
  {
  }

  lemma WrittenDef(now: seq<Byte>, s: seq<Byte>, r: TxResult, k: nat, i: nat)
    requires 1 <= k <= 8
    ensures Written(now, s, r, k, i) <==> i + |EncodeFrom(r, k)| == |s| && now == Splice(s, i, EncodeFrom(r, k))
  {
  }

  lemma WrittenNext(now: seq<Byte>, s: seq<Byte>, r: TxResult, k: nat, i: nat)
    requires 1 <= k <= 7 && |Encode(r)| <= |s| && Written(now, s, r, k + 1, i)
    ensures var f := ScalarField(8 * k, Word(r, k));
            |f| <= i <= |now| && Written(Splice(now, i - |f|, f), s, r, k, i - |f|)
  {
    hide *;
    var f := ScalarField(8 * k, Word(r, k));
    FieldFits(r, k);
    WrittenDef(now, s, r, k + 1, i);
    SpliceBelow(s, i, EncodeFrom(r, k + 1), f);
    WrittenDef(Splice(now, i - |f|, f), s, r, k, i - |f|);
  }

  /** Writes field `k` just below the fields after it. */
  method PutField(buf: array<Byte>, i: nat, tag: Byte, v: Uint64, ghost s: seq<Byte>, ghost r: TxResult, ghost k: nat)
    returns (i': nat)
    requires 1 <= k <= 7 && tag == 8 * k && v == Word(r, k)
    requires |Encode(r)| <= |s| && Written(buf[..], s, r, k + 1, i)
    modifies buf
    ensures Written(buf[..], s, r, k, i')
  {
    hide *;
    WrittenNext(buf[..], s, r, k, i);
    i' := PutScalar(buf, i, tag, v);
  }

  /** Writes the fields from the last to the first, each below the one before. */
  method PutFields(buf: array<Byte>, r: TxResult) returns (n: nat)
    requires |Encode(r)| <= buf.Length
    modifies buf
    ensures n == |Encode(r)| && buf[..] == Splice(old(buf[..]), buf.Length - n, Encode(r))
  {
    hide *;
    Words(r);
    ghost var s := buf[..];
    WrittenNone(s, r);
    var i: nat := buf.Length;
    i := PutField(buf, i, 0x38, r.cumulativeGasUsed, s, r, 7);
    i := PutField(buf, i, 0x30, r.gasUsed, s, r, 6);
    i := PutField(buf, i, 0x28, BoolWord(r.failed), s, r, 5);
    i := PutField(buf, i, 0x20, ToUint64(r.ethTxIndex), s, r, 4);
    i := PutField(buf, i, 0x18, r.msgIndex, s, r, 3);
    i := PutField(buf, i, 0x10, r.txIndex, s, r, 2);
    i := PutField(buf, i, 0x08, ToUint64(r.height), s, r, 1);
    WrittenAll(buf[..], s, r, i);
    n := buf.Length - i;
  }

  /** One turn of the Unmarshal loop on a field of this message. */
  lemma StepKnown(r: TxResult, d: seq<Byte>)
    requires ReadVarint(d).Read?
    requires var Read(raw, n) := ReadVarint(d); raw % 8 != 4 && 1 <= FieldNumber(raw) <= 7
    ensures var Read(raw, n) := ReadVarint(d);
            Step(HandleField, r, d) ==
            if raw % 8 != 0 then StepErr(r, WrongWireType)
            else match ReadVarint(d[n..])
                 case ReadErr(e, v) => StepErr(SetPartly(r, FieldNumber(raw), v), e)
                 case Read(v, m) => StepOk(SetField(r, FieldNumber(raw), v), n + m)
  {
  }

  lemma StepUnknown(r: TxResult, d: seq<Byte>)
    requires ReadVarint(d).Read?
    requires var Read(raw, n) := ReadVarint(d); raw % 8 != 4 && FieldNumber(raw) > 7
    ensures Step(HandleField, r, d) ==
            match SkipFrom(d, 0)
            case SkipErr(e) => StepErr(r, e)
            case Skip(m) => if m > |d| then StepErr(r, Truncated) else StepOk(r, m)
  {
  }

  class Message {
    var height: Int64
    var txIndex: Uint32
    var msgIndex: Uint32
    var ethTxIndex: Int32
    var failed: bool
    var gasUsed: Uint64
    var cumulativeGasUsed: Uint64

    constructor ()
      ensures Value() == ZERO
    {
      height, txIndex, msgIndex, ethTxIndex, failed, gasUsed, cumulativeGasUsed := 0, 0, 0, 0, false, 0, 0;
    }

    function Value(): TxResult
      reads this
    {
      TxResult(height, txIndex, msgIndex, ethTxIndex, failed, gasUsed, cumulativeGasUsed)
    }

    method MarshalToSizedBuffer(buf: array<Byte>) returns (n: nat)
      requires Size(Value()) <= buf.Length
      modifies buf
      ensures n == Size(Value()) == |Encode(Value())|
      ensures buf[..] == Splice(old(buf[..]), buf.Length - n, Encode(Value()))
    {
      SizeExact(Value());
      n := PutFields(buf, Value());
    }

    method Marshal() returns (bytes: seq<Byte>)
      ensures bytes == Encode(Value())
    {
      var buf := new Byte[Size(Value())];
      var n := MarshalToSizedBuffer(buf);
      bytes := buf[..n];
    }

    /** One `case` of the switch: the varint loop at the width of field `f`. */
    method ReadField(d: seq<Byte>, start: nat, f: int) returns (next: nat, err: bool, e: Error)
      requires start <= |d| && 1 <= f <= 7
      modifies this
      ensures err <==> ReadVarint(d[start..]).ReadErr?
      ensures err ==> e == ReadVarint(d[start..]).e
      ensures !err ==> next == start + ReadVarint(d[start..]).n
      ensures var raw := ReadVarint(d[start..]).raw;
              Value() == if err then SetPartly(old(Value()), f, raw) else SetField(old(Value()), f, raw)
    {
      hide ReadWithin;
      var w := if 2 <= f <= 4 then W32 else W64;
      var v;
      v, next, err, e := DecodeVarint(d, start, w);
      match f {
        case 1 => height := ToInt64(v);
        case 2 => txIndex := v;
        case 3 => msgIndex := v;
        case 4 => ethTxIndex := ToInt32(v);
        case 5 => failed := if err then failed else v != 0;
        case 6 => gasUsed := v;
        case 7 => cumulativeGasUsed := v;
      }
    }

    method Unmarshal(d: seq<Byte>) returns (err: bool, e: Error)
      modifies this
      ensures match Decode(HandleField, old(Value()), d)
              case Done(r) => !err && Value() == r
              case Failed(r, e') => err && e == e' && Value() == r
    {
      hide HandleField, SetField, SkipFrom, ReadWithin, SkipFrom;
      err, e := false, Truncated;
      var i: nat := 0;
      ghost var whole := Decode(HandleField, Value(), d);
      assert d[0..] == d;
      while i < |d|
        invariant i <= |d|
        invariant whole == Decode(HandleField, Value(), d[i..])
      {
        ghost var r, here := Value(), d[i..];
        var next;
        next, err, e := UnmarshalField(d, i);
        if err { return; }
        assert here[next - i..] == d[next..];
        i := next;
      }
    }

    /** One turn of the loop: the tag, then the field it names or the skipped unknown one. */
    method UnmarshalField(d: seq<Byte>, i: nat) returns (next: nat, err: bool, e: Error)
      requires i < |d|
      modifies this
      ensures match Step(HandleField, old(Value()), d[i..])
              case StepErr(r, e') => err && e == e' && Value() == r
              case StepOk(r, n) => !err && Value() == r && next == i + n
    {
      hide HandleField, SetField, SkipFrom, ReadWithin;
      ghost var r, here := Value(), d[i..];
      var wire, afterTag;
      wire, afterTag, err, e := DecodeVarint(d, i, W64);
      next := afterTag;
      if err { return; }
      ghost var raw := ReadVarint(here).raw;
      var fieldNum, wireType := ToInt32(wire / 8), wire % 8;
      assert fieldNum == FieldNumber(raw) && wireType == raw % 8;
      hide FieldNumber, ToInt32, Low;
      assert here[afterTag - i..] == d[afterTag..];
      if wireType == 4 { return next, true, UnexpectedEndOfGroup; }
      if fieldNum <= 0 { return next, true, IllegalTag; }
      if 1 <= fieldNum <= 7 {
        StepKnown(r, here);
        if wireType != 0 { return next, true, WrongWireType; }
        next, err, e := ReadField(d, afterTag, fieldNum);
      } else {
        StepUnknown(r, here);
        next, err, e := SkipField(d, i);
        if !err && next > |d| { return next, true, Truncated; }
      }
    }
  }
}
