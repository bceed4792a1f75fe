/** The protobuf wire format as the generated code reads it: skipping an unknown field with a depth counter,
    and decoding a message field by field. A message type is a handler for the field numbers it knows. */
module Wire {
  import opened MachineInts
  import opened Varint

  // ----- skipping -----

  /** One turn of the skip loop: how far the cursor moves, and how the group depth changes. */
  datatype Element = Elem(n: nat, delta: int) | ElemErr(e: Error)

  function ReadElement(d: seq<Byte>): (r: Element)
    ensures r.Elem? ==> r.n >= 1 && -1 <= r.delta <= 1
  {
    match ReadVarint(d)
    case ReadErr(e, _) => ElemErr(e)
    case Read(wire, n) =>
      match wire % 8
      case 0 => (match ReadVarint(d[n..]) case ReadErr(e, _) => ElemErr(e) case Read(_, m) => Elem(n + m, 0))
      case 1 => Elem(n + 8, 0)
      case 2 =>
        (match ReadVarint(d[n..])
         case ReadErr(e, _) => ElemErr(e)
         case Read(raw, m) =>
           var length := ToInt64(raw);
           if length < 0 then ElemErr(Truncated) else Elem(n + m + length, 0))
      case 3 => Elem(n, 1)
      case 4 => Elem(n, -1)
      case 5 => Elem(n + 4, 0)
      case _ => ElemErr(IllegalWireType)
  }

  datatype SkipResult = Skip(n: nat) | SkipErr(e: Error)

  /** The rest of the skip loop at group depth `depth`. At depth 0 the result may lie past the end of `d`:
      the caller tests that. */
  function SkipFrom(d: seq<Byte>, depth: nat): (r: SkipResult)
    ensures r.Skip? ==> r.n >= 1
  {
    if d == [] then SkipErr(Truncated)
    else
      match ReadElement(d)
      case ElemErr(e) => SkipErr(e)
      case Elem(n, delta) =>
        if delta == -1 && depth == 0 then SkipErr(UnexpectedEndOfGroup)
        else if depth + delta == 0 then Skip(n)
        else if n > |d| then SkipErr(Truncated)
        else
          match SkipFrom(d[n..], depth + delta)
          case SkipErr(e) => SkipErr(e)
          case Skip(m) => Skip(n + m)
  }

  lemma ElementStable(x: seq<Byte>, y: seq<Byte>)
    requires ReadElement(x).Elem?
    ensures ReadElement(x + y) == ReadElement(x)
  {
    ReadStable(x, y);
    var n := ReadVarint(x).n;
    assert (x + y)[n..] == x[n..] + y;
    if ReadVarint(x[n..]).Read? {
      ReadStable(x[n..], y);
    }
  }

  lemma {:induction false} SkipStable(x: seq<Byte>, y: seq<Byte>, depth: nat)
    requires SkipFrom(x, depth).Skip? && SkipFrom(x, depth).n <= |x|
    ensures SkipFrom(x + y, depth) == SkipFrom(x, depth)
    decreases |x|
  {
    ElementStable(x, y);
    var Elem(n, delta) := ReadElement(x);
    if depth + delta != 0 {
      assert (x + y)[n..] == x[n..] + y;
      SkipStable(x[n..], y, depth + delta);
    }
  }

  // ----- what a field is, independently of the skip loop -----

  /** A varint written in full, canonical or not. */
  ghost predicate IsVarint(bs: seq<Byte>) {
    ReadVarint(bs).Read? && ReadVarint(bs).n == |bs|
  }

  ghost predicate IsTag(bs: seq<Byte>, wireType: nat) {
    IsVarint(bs) && ReadVarint(bs).raw % 8 == wireType
  }

  /** A field as a tree: groups nest. The tag that closes a group may carry any field number. */
  datatype Field =
    | VarintField(tag: seq<Byte>, value: seq<Byte>)
    | Fixed64Field(tag: seq<Byte>, bytes: seq<Byte>)
    | BytesField(tag: seq<Byte>, length: seq<Byte>, bytes: seq<Byte>)
    | Group(tag: seq<Byte>, body: Fields, close: seq<Byte>)
    | Fixed32Field(tag: seq<Byte>, bytes: seq<Byte>)
  datatype Fields = Nil | Cons(head: Field, tail: Fields)

  ghost predicate WellFormed(f: Field) {
    match f
    case VarintField(tag, value) => IsTag(tag, 0) && IsVarint(value)
    case Fixed64Field(tag, bytes) => IsTag(tag, 1) && |bytes| == 8
    case BytesField(tag, length, bytes) =>
      IsTag(tag, 2) && IsVarint(length) && ToInt64(ReadVarint(length).raw) == |bytes|
    case Group(tag, body, close) => IsTag(tag, 3) && AllWellFormed(body) && IsTag(close, 4)
    case Fixed32Field(tag, bytes) => IsTag(tag, 5) && |bytes| == 4
  }

  ghost predicate AllWellFormed(fs: Fields) {
    match fs
    case Nil => true
    case Cons(f, rest) => WellFormed(f) && AllWellFormed(rest)
  }

  function FieldBytes(f: Field): seq<Byte> {
    match f
    case VarintField(tag, value) => tag + value
    case Fixed64Field(tag, bytes) => tag + bytes
    case BytesField(tag, length, bytes) => tag + length + bytes
    case Group(tag, body, close) => tag + AllBytes(body) + close
    case Fixed32Field(tag, bytes) => tag + bytes
  }

  function AllBytes(fs: Fields): seq<Byte> {
    match fs
    case Nil => []
    case Cons(f, rest) => FieldBytes(f) + AllBytes(rest)
  }

  lemma TagReads(tag: seq<Byte>, wireType: nat, y: seq<Byte>)
    requires IsTag(tag, wireType)
    ensures ReadVarint(tag + y) == ReadVarint(tag) && (tag + y)[ReadVarint(tag).n..] == y
  {
    hide ReadWithin;
    ReadStable(tag, y);
  }

  /** Every leaf field is one turn of the loop that leaves the depth alone. */
  lemma LeafElement(f: Field, y: seq<Byte>)
    requires WellFormed(f) && !f.Group?
    ensures ReadElement(FieldBytes(f) + y) == Elem(|FieldBytes(f)|, 0)
  {
    hide ReadWithin;
    match f
    case VarintField(tag, value) =>
      assert FieldBytes(f) + y == tag + (value + y);
      TagReads(tag, 0, value + y);
      ReadStable(value, y);
    case Fixed64Field(tag, bytes) =>
      assert FieldBytes(f) + y == tag + (bytes + y);
      TagReads(tag, 1, bytes + y);
    case BytesField(tag, length, bytes) =>
      assert FieldBytes(f) + y == tag + (length + (bytes + y));
      TagReads(tag, 2, length + (bytes + y));
      ReadStable(length, bytes + y);
    case Fixed32Field(tag, bytes) =>
      assert FieldBytes(f) + y == tag + (bytes + y);
      TagReads(tag, 5, bytes + y);
  }

  /** A skip result counted from `n` bytes earlier. */
  ghost function Shifted(n: nat, r: SkipResult): SkipResult {
    match r
    case SkipErr(e) => SkipErr(e)
    case Skip(m) => Skip(n + m)
  }

  /** `SkipFrom` after a first element that ends where `rest` begins. */
  lemma SkipAfterElement(d: seq<Byte>, n: nat, delta: int, depth: nat, rest: seq<Byte>)
    requires ReadElement(d) == Elem(n, delta) && n <= |d| && d[n..] == rest
    requires depth + delta > 0
    ensures SkipFrom(d, depth) == Shifted(n, SkipFrom(rest, depth + delta))
  {
  }

  lemma GroupElements(f: Field, y: seq<Byte>)
    requires WellFormed(f) && f.Group?
    ensures ReadElement(FieldBytes(f) + y) == Elem(|f.tag|, 1)
    ensures ReadElement(f.close + y) == Elem(|f.close|, -1)
    ensures (FieldBytes(f) + y)[|f.tag|..] == AllBytes(f.body) + (f.close + y)
  {
    hide ReadElement, ReadVarint, IsTag, AllBytes;
    assert FieldBytes(f) + y == f.tag + (AllBytes(f.body) + (f.close + y));
    GroupTag(f.tag, 3, AllBytes(f.body) + (f.close + y));
    GroupTag(f.close, 4, y);
  }

  lemma GroupTag(tag: seq<Byte>, wireType: nat, y: seq<Byte>)
    requires IsTag(tag, wireType) && 3 <= wireType <= 4
    ensures ReadElement(tag + y) == Elem(|tag|, if wireType == 3 then 1 else -1)
  {
    hide ReadWithin;
    TagReads(tag, wireType, y);
  }

  /** Inside a group, the loop passes over any well-formed field and goes on at the same depth. */
  lemma {:induction false} SkipPassesField(f: Field, y: seq<Byte>, depth: nat)
    requires WellFormed(f) && depth > 0
    ensures SkipFrom(FieldBytes(f) + y, depth) == Shifted(|FieldBytes(f)|, SkipFrom(y, depth))
    decreases f
  {
    if f.Group? {
      GroupElements(f, y);
      SkipPassesAll(f.body, f.close + y, depth + 1);
      SkipAroundBody(f, y, depth);
    } else {
      LeafElement(f, y);
      SkipAfterElement(FieldBytes(f) + y, |FieldBytes(f)|, 0, depth, y);
    }
  }

  lemma SkipAroundBody(f: Field, y: seq<Byte>, depth: nat)
    requires WellFormed(f) && f.Group? && depth > 0
    requires var rest := f.close + y;
             SkipFrom(AllBytes(f.body) + rest, depth + 1) == Shifted(|AllBytes(f.body)|, SkipFrom(rest, depth + 1))
    ensures SkipFrom(FieldBytes(f) + y, depth) == Shifted(|FieldBytes(f)|, SkipFrom(y, depth))
  {
    hide SkipFrom, ReadElement, WellFormed, AllBytes;
    GroupElements(f, y);
    SkipAfterElement(FieldBytes(f) + y, |f.tag|, 1, depth, AllBytes(f.body) + (f.close + y));
    assert (f.close + y)[|f.close|..] == y;
    SkipAfterElement(f.close + y, |f.close|, -1, depth + 1, y);
  }

  lemma {:induction false} SkipPassesAll(fs: Fields, y: seq<Byte>, depth: nat)
    requires AllWellFormed(fs) && depth > 0
    ensures SkipFrom(AllBytes(fs) + y, depth) == Shifted(|AllBytes(fs)|, SkipFrom(y, depth))
    decreases fs
  {
    match fs
    case Nil => assert [] + y == y;
    case Cons(f, rest) =>
      assert AllBytes(fs) + y == FieldBytes(f) + (AllBytes(rest) + y);
      SkipPassesField(f, AllBytes(rest) + y, depth);
      SkipPassesAll(rest, y, depth);
  }

  /** The depth-counting loop skips exactly one field tree, whatever follows it. */
  lemma SkipComplete(f: Field, y: seq<Byte>)
    requires WellFormed(f)
    ensures SkipFrom(FieldBytes(f) + y, 0) == Skip(|FieldBytes(f)|)
  {
    hide ReadElement, AllBytes;
    var d := FieldBytes(f) + y;
    if f.Group? {
      GroupElements(f, y);
      SkipAfterElement(d, |f.tag|, 1, 0, AllBytes(f.body) + (f.close + y));
      SkipPassesAll(f.body, f.close + y, 1);
    } else {
      LeafElement(f, y);
    }
  }

  // ----- conversely, whatever the loop accepts is a field tree -----

  /** One open group: the fields still to come in it and the tag that closes it. */
  datatype Open = Open(body: Fields, close: seq<Byte>)

  ghost predicate OpensWellFormed(levels: seq<Open>) {
    forall k :: 0 <= k < |levels| ==> AllWellFormed(levels[k].body) && IsTag(levels[k].close, 4)
  }

  function OpenBytes(levels: seq<Open>): seq<Byte> {
    if levels == [] then [] else AllBytes(levels[0].body) + levels[0].close + OpenBytes(levels[1..])
  }

  lemma TagOf(d: seq<Byte>)
    requires ReadVarint(d).Read?
    ensures var n := ReadVarint(d).n; IsTag(d[..n], ReadVarint(d).raw % 8) && d == d[..n] + d[n..]
  {
    ReadExact(d);
  }

  lemma ElementTag(d: seq<Byte>)
    requires ReadElement(d).Elem? && ReadElement(d).delta != 0
    ensures ReadVarint(d).Read? && ReadElement(d).n == ReadVarint(d).n
    ensures var n := ReadElement(d).n; n <= |d| && IsTag(d[..n], if ReadElement(d).delta == 1 then 3 else 4)
  {
    TagOf(d);
  }

  lemma LeafOf(d: seq<Byte>) returns (f: Field)
    requires ReadElement(d).Elem? && ReadElement(d).delta == 0 && ReadElement(d).n <= |d|
    ensures WellFormed(f) && FieldBytes(f) == d[..ReadElement(d).n]
  {
    hide ReadWithin;
    var n := ReadElement(d).n;
    TagOf(d);
    var t := ReadVarint(d).n;
    var tag, rest := d[..t], d[t..];
    match ReadVarint(d).raw % 8
    case 0 =>
      ReadExact(rest);
      f := VarintField(tag, d[t..n]);
      assert d[t..n] == rest[..n - t];
    case 1 => f := Fixed64Field(tag, d[t..n]);
    case 2 =>
      ReadExact(rest);
      var m := ReadVarint(rest).n;
      f := BytesField(tag, d[t..t + m], d[t + m..n]);
      assert d[t..t + m] == rest[..m];
      assert tag + d[t..t + m] + d[t + m..n] == d[..n];
    case _ => f := Fixed32Field(tag, d[t..n]);
  }

  lemma PrefixInTwo(d: seq<Byte>, n: nat, end: nat)
    requires n <= end <= |d|
    ensures d[..n] + d[n..][..end - n] == d[..end]
  {
  }

  lemma {:induction false} OpensOf(d: seq<Byte>, depth: nat) returns (levels: seq<Open>)
    requires depth > 0 && SkipFrom(d, depth).Skip? && SkipFrom(d, depth).n <= |d|
    ensures |levels| == depth && OpensWellFormed(levels) && OpenBytes(levels) == d[..SkipFrom(d, depth).n]
    decreases |d|
  {
    hide ReadWithin, ReadElement;
    var Elem(n, delta) := ReadElement(d);
    if delta == 0 {
      var f := LeafOf(d);
      var inner := OpensOf(d[n..], depth);
      levels := AddField(f, inner);
    } else {
      ElementTag(d);
      if delta == 1 {
        var inner := OpensOf(d[n..], depth + 1);
        levels := FoldGroup(d[..n], inner);
      } else if depth == 1 {
        levels := AddLevel(d[..n], []);
      } else {
        var inner := OpensOf(d[n..], depth - 1);
        levels := AddLevel(d[..n], inner);
      }
    }
    PrefixInTwo(d, n, SkipFrom(d, depth).n);
  }

  lemma AddField(f: Field, inner: seq<Open>) returns (levels: seq<Open>)
    requires WellFormed(f) && inner != [] && OpensWellFormed(inner)
    ensures |levels| == |inner| && OpensWellFormed(levels) && OpenBytes(levels) == FieldBytes(f) + OpenBytes(inner)
  {
    levels := [Open(Cons(f, inner[0].body), inner[0].close)] + inner[1..];
    assert levels[1..] == inner[1..];
  }

  lemma FoldGroup(tag: seq<Byte>, inner: seq<Open>) returns (levels: seq<Open>)
    requires IsTag(tag, 3) && |inner| >= 2 && OpensWellFormed(inner)
    ensures |levels| == |inner| - 1 && OpensWellFormed(levels) && OpenBytes(levels) == tag + OpenBytes(inner)
  {
    hide ReadWithin;
    var g := Group(tag, inner[0].body, inner[0].close);
    levels := AddField(g, inner[1..]);
    assert OpenBytes(levels) == (tag + AllBytes(inner[0].body) + inner[0].close) + OpenBytes(inner[1..]);
  }

  lemma AddLevel(close: seq<Byte>, inner: seq<Open>) returns (levels: seq<Open>)
    requires IsTag(close, 4) && OpensWellFormed(inner)
    ensures |levels| == |inner| + 1 && OpensWellFormed(levels) && OpenBytes(levels) == close + OpenBytes(inner)
  {
    levels := [Open(Nil, close)] + inner;
    assert levels[1..] == inner;
    assert [] + close == close;
  }

  /** A skip that stays inside its input has passed over exactly one field tree. */
  lemma SkipSound(d: seq<Byte>) returns (f: Field)
    requires SkipFrom(d, 0).Skip? && SkipFrom(d, 0).n <= |d|
    ensures WellFormed(f) && FieldBytes(f) == d[..SkipFrom(d, 0).n]
  {
    hide ReadWithin, ReadElement;
    var Elem(n, delta) := ReadElement(d);
    if delta == 0 {
      f := LeafOf(d);
    } else {
      ElementTag(d);
      var inner := OpensOf(d[n..], 1);
      f := CloseGroup(d[..n], inner);
    }
    PrefixInTwo(d, n, SkipFrom(d, 0).n);
  }

  lemma CloseGroup(tag: seq<Byte>, inner: seq<Open>) returns (f: Field)
    requires IsTag(tag, 3) && |inner| == 1 && OpensWellFormed(inner)
    ensures WellFormed(f) && FieldBytes(f) == tag + OpenBytes(inner)
  {
    f := Group(tag, inner[0].body, inner[0].close);
    assert OpenBytes(inner[1..]) == [];
  }

  /** The skip loop accepts an input and stops inside it exactly when some field tree is a prefix of it. */
  lemma SkipIffFieldPrefix(d: seq<Byte>)
    ensures (SkipFrom(d, 0).Skip? && SkipFrom(d, 0).n <= |d|)
            <==> exists f :: WellFormed(f) && FieldBytes(f) <= d
  {
    hide SkipFrom, WellFormed, FieldBytes;
    if SkipFrom(d, 0).Skip? && SkipFrom(d, 0).n <= |d| {
      var f := SkipSound(d);
    }
    if f :| WellFormed(f) && FieldBytes(f) <= d {
      assert d == FieldBytes(f) + d[|FieldBytes(f)|..];
      SkipComplete(f, d[|FieldBytes(f)|..]);
    }
  }

  // ----- decoding a message -----

  /** What a message type makes of one field whose tag has been read. */
  datatype Known<+R> = Unknown | Set(rec: R, n: nat) | Bad(rec: R, e: Error)
  type Handler<!R> = (R, int, nat, seq<Byte>) -> Known<R>

  datatype StepResult<+R> = StepOk(rec: R, n: nat) | StepErr(rec: R, e: Error)

  /** The tag without its wire type, truncated to int32. */
  function FieldNumber(raw: nat): Int32 {
    ToInt32(ToUint64(raw) / 8)
  }

  /** One turn of an Unmarshal loop on the input that is left. */
  function Step<R>(h: Handler<R>, r: R, d: seq<Byte>): (s: StepResult<R>)
    ensures s.StepOk? ==> 1 <= s.n <= |d|
  {
    match ReadVarint(d)
    case ReadErr(e, _) => StepErr(r, e)
    case Read(raw, n) =>
      if raw % 8 == 4 then StepErr(r, UnexpectedEndOfGroup)
      else if FieldNumber(raw) <= 0 then StepErr(r, IllegalTag)
      else
        match h(r, FieldNumber(raw), raw % 8, d[n..])
        case Bad(r', e) => StepErr(r', e)
        case Set(r', m) => if n + m > |d| then StepErr(r', Truncated) else StepOk(r', n + m)
        case Unknown =>
          match SkipFrom(d, 0)
          case SkipErr(e) => StepErr(r, e)
          case Skip(m) => if m > |d| then StepErr(r, Truncated) else StepOk(r, m)
  }

  datatype Outcome<+R> = Done(rec: R) | Failed(rec: R, e: Error)

  /** Unmarshal of `d` into a record that already holds `r`; an error leaves what was read before it. */
  function Decode<R>(h: Handler<R>, r: R, d: seq<Byte>): Outcome<R>
    decreases |d|
  {
    if d == [] then Done(r)
    else
      match Step(h, r, d)
      case StepErr(r', e) => Failed(r', e)
      case StepOk(r', n) => Decode(h, r', d[n..])
  }

  /** Decoding a field with a one-byte tag that the handler knows. */
  lemma DecodeKnown<R>(h: Handler<R>, r: R, tag: Byte, body: seq<Byte>, r': R, y: seq<Byte>)
    requires 8 <= tag < 128 && tag % 8 != 4
    requires h(r, tag / 8, tag % 8, body + y) == Set(r', |body|)
    ensures Decode(h, r, [tag] + body + y) == Decode(h, r', y)
  {
    var d := [tag] + body + y;
    var n := 1 + |body|;
    assert d[0] == tag && d[1..] == body + y && d[n..] == y;
    assert ReadVarint(d) == Read(tag, 1);
    assert FieldNumber(tag) == tag / 8;
    hide ReadWithin, SkipFrom;
    assert Step(h, r, d) == StepOk(r', n);
  }

  /** The handler decides on the bytes it consumes and on nothing after them. */
  ghost predicate Stable<R(!new)>(h: Handler<R>) {
    forall r, f, w, x, y :: StableAt(h, r, f, w, x, y)
  }

  ghost predicate StableAt<R>(h: Handler<R>, r: R, f: int, w: nat, x: seq<Byte>, y: seq<Byte>) {
    var k := h(r, f, w, x);
    k.Bad? || (k.Set? && k.n > |x|) || h(r, f, w, x + y) == k
  }

  lemma StepStable<R(!new)>(h: Handler<R>, r: R, x: seq<Byte>, y: seq<Byte>)
    requires Stable(h) && Step(h, r, x).StepOk?
    ensures Step(h, r, x + y) == Step(h, r, x)
  {
    ReadStable(x, y);
    var Read(raw, n) := ReadVarint(x);
    assert (x + y)[n..] == x[n..] + y;
    assert StableAt(h, r, FieldNumber(raw), raw % 8, x[n..], y);
    if h(r, FieldNumber(raw), raw % 8, x[n..]).Unknown? {
      SkipStable(x, y, 0);
    }
  }

  /** Decoding composes: after `x` the decoder goes on with `y` from the record `x` left. In particular the
      last value of a repeated field wins. */
  lemma {:induction false} DecodeComposes<R(!new)>(h: Handler<R>, r: R, x: seq<Byte>, y: seq<Byte>)
    requires Stable(h) && Decode(h, r, x).Done?
    ensures Decode(h, r, x + y) == Decode(h, Decode(h, r, x).rec, y)
    decreases |x|
  {
    if x == [] {
      assert x + y == y;
    } else {
      var StepOk(r', n) := Step(h, r, x);
      StepStable(h, r, x, y);
      assert (x + y)[n..] == x[n..] + y;
      DecodeComposes(h, r', x[n..], y);
    }
  }

  /** A field tree that the message type does not know and that may stand at top level. */
  ghost predicate UnknownTo<R(!new)>(h: Handler<R>, f: Field) {
    && WellFormed(f)
    && FieldNumber(ReadVarint(f.tag).raw) > 0
    && forall r, d :: h(r, FieldNumber(ReadVarint(f.tag).raw), ReadVarint(f.tag).raw % 8, d) == Unknown
  }

  lemma TagIsPrefix(f: Field, y: seq<Byte>)
    requires WellFormed(f)
    ensures ReadVarint(FieldBytes(f) + y) == ReadVarint(f.tag)
    ensures ReadVarint(f.tag).raw % 8 != 4
  {
    var rest := FieldBytes(f)[|f.tag|..] + y;
    assert FieldBytes(f) == f.tag + FieldBytes(f)[|f.tag|..];
    assert FieldBytes(f) + y == f.tag + rest;
    ReadStable(f.tag, rest);
  }

  lemma StepOverUnknown<R(!new)>(h: Handler<R>, r: R, f: Field, y: seq<Byte>)
    requires UnknownTo(h, f)
    ensures Step(h, r, FieldBytes(f) + y) == StepOk(r, |FieldBytes(f)|)
  {
    TagIsPrefix(f, y);
    SkipComplete(f, y);
  }

  /** Skip transparency: an unknown field, groups nested to any depth, inserted at a field boundary changes
      nothing, neither the record nor the error. */
  lemma UnknownFieldIsTransparent<R(!new)>(h: Handler<R>, r: R, x: seq<Byte>, f: Field, y: seq<Byte>)
    requires Stable(h) && Decode(h, r, x).Done? && UnknownTo(h, f)
    ensures Decode(h, r, x + FieldBytes(f) + y) == Decode(h, r, x + y)
  {
    var r' := Decode(h, r, x).rec;
    var u := FieldBytes(f);
    assert x + u + y == x + (u + y);
    DecodeComposes(h, r, x, u + y);
    DecodeComposes(h, r, x, y);
    StepOverUnknown(h, r', f, y);
    assert (u + y)[|u|..] == y;
  }

  // ----- the skip loop -----

  /** The switch on the wire type: one turn of the loop, from the cursor `here`. */
  method SkipElement(d: seq<Byte>, here: nat) returns (next: nat, delta: int, err: bool, e: Error)
    requires here <= |d|
    ensures err <==> ReadElement(d[here..]).ElemErr?
    ensures err ==> e == ReadElement(d[here..]).e
    ensures !err ==> next > here && ReadElement(d[here..]) == Elem(next - here, delta)
  {
    hide ReadWithin;
    next, delta, err, e := here, 0, false, IllegalWireType;
    var wire, afterTag, bad, e' := DecodeVarint(d, here, W64);
    if bad { return next, delta, true, e'; }
    next := afterTag;
    assert d[here..][afterTag - here..] == d[afterTag..];
    assert wire % 8 == ReadVarint(d[here..]).raw % 8;
    match wire % 8 {
      case 0 =>
        var _, n, bad, e' := DecodeVarint(d, next, W64);
        if bad { return next, delta, true, e'; }
        next := n;
      case 1 =>
        next := next + 8;
      case 2 =>
        var v, n, bad, e' := DecodeVarint(d, next, W64);
        if bad { return next, delta, true, e'; }
        var length := ToInt64(v);
        if length < 0 { return next, delta, true, Truncated; }
        next := n + length;
      case 3 =>
        delta := 1;
      case 4 =>
        delta := -1;
      case 5 =>
        next := next + 4;
      case _ =>
        err := true;
    }
  }

  /** skipIndexer / skipApproval on `d[start..]`; `next` is the cursor in `d`. */
  method SkipField(d: seq<Byte>, start: nat) returns (next: nat, err: bool, e: Error)
    requires start <= |d|
    ensures err <==> SkipFrom(d[start..], 0).SkipErr?
    ensures err ==> e == SkipFrom(d[start..], 0).e
    ensures !err ==> next == start + SkipFrom(d[start..], 0).n
  {
    hide ReadElement;
    next, err, e := start, false, Truncated;
    var depth: nat := 0;
    ghost var whole := SkipFrom(d[start..], 0);
    while next < |d|
      invariant start <= next
      invariant next <= |d| ==> whole == Shifted(next - start, SkipFrom(d[next..], depth))
      invariant next > |d| ==> whole == SkipErr(Truncated)
      decreases |d| - next
    {
      var n, delta, bad, e' := SkipElement(d, next);
      if bad { err, e := true, e'; return; }
      if delta == -1 && depth == 0 { err, e := true, UnexpectedEndOfGroup; return; }
      if n <= |d| {
        assert d[next..][n - next..] == d[n..];
      }
      next, depth := n, depth + delta;
      if depth == 0 {
        return;
      }
    }
    err := true;
  }
}
