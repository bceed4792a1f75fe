/** Resource names (`grn:b::bucket`, `grn:o::bucket/object`, `grn:g:owner:group`): printing, parsing into a receiver
    that is updated in place, and the name rules the parser applies. A `char` stands for one byte. */
module Grn {
  import opened MachineInts
  import opened KvStore
  import Decimal

  type Address = seq<Byte>

  datatype ResourceType = Unspecified | Bucket | Object | Group

  /** The three fields of a resource name; `ZERO` is a freshly allocated one. */
  datatype Fields = Fields(kind: ResourceType, owner: Address, name: string)

  const ZERO := Fields(Unspecified, [], "")

  /** Library calls the parser makes: white space trimming, UTF-8 validity and the text form of addresses. */
  datatype Lib = Lib(trim: string -> string, utf8: string -> bool,
                     printAddress: Address -> string, parseAddress: string -> Option<Address>)

  /** What is relied on: the text of a 20-byte address has no colon and reads back as that address. */
  ghost predicate Sound(lib: Lib) {
    forall a: Address :: |a| == 20 ==>
      ':' !in lib.printAddress(a) && lib.parseAddress(lib.printAddress(a)) == Some(a)
  }

  // ----- splitting -----

  /** The position of the first `c`, or the length when there is none. */
  function IndexOf(s: string, c: char): (i: nat)
    ensures i <= |s| && c !in s[..i]
    ensures i < |s| ==> s[i] == c
  {
    if s == [] || s[0] == c then 0
    else
      var i := IndexOf(s[1..], c);
      assert s[..1 + i] == [s[0]] + s[1..][..i];
      1 + i
  }

  lemma {:induction false} IndexOfUnique(a: string, c: char, b: string)
    requires c !in a
    ensures IndexOf(a + [c] + b, c) == |a|
  {
    if a == [] {
      assert (a + [c] + b)[0] == c;
    } else {
      IndexOfUnique(a[1..], c, b);
      assert (a + [c] + b)[1..] == a[1..] + [c] + b;
    }
  }

  /** strings.Split for a one-character separator. */
  function Split(s: string, c: char): (parts: seq<string>)
    ensures |parts| >= 1
    decreases |s|
  {
    var i := IndexOf(s, c);
    if i == |s| then [s] else [s[..i]] + Split(s[i + 1..], c)
  }

  function Join(parts: seq<string>, c: char): string
    requires |parts| >= 1
  {
    if |parts| == 1 then parts[0] else parts[0] + [c] + Join(parts[1..], c)
  }

  /** Splitting loses nothing, and no part holds the separator. */
  lemma {:induction false} JoinSplit(s: string, c: char)
    ensures Join(Split(s, c), c) == s
    ensures forall p :: p in Split(s, c) ==> c !in p
    ensures |Split(s, c)| >= 2 <==> c in s
    decreases |s|
  {
    hide IndexOf, Split, Join;
    var i := IndexOf(s, c);
    SplitDef(s, c);
    if i == |s| {
      assert s[..i] == s;
      JoinOne(s, c);
    } else {
      var rest := Split(s[i + 1..], c);
      JoinSplit(s[i + 1..], c);
      JoinCons(s[..i], rest, c);
      assert s == s[..i] + [c] + s[i + 1..];
      assert forall p :: p in [s[..i]] + rest ==> p == s[..i] || p in rest;
    }
  }

  lemma SplitDef(s: string, c: char)
    ensures var i := IndexOf(s, c); Split(s, c) == if i == |s| then [s] else [s[..i]] + Split(s[i + 1..], c)
  {
    hide IndexOf;
  }

  lemma JoinOne(p: string, c: char)
    ensures Join([p], c) == p
  {
  }

  lemma JoinCons(p: string, rest: seq<string>, c: char)
    requires |rest| >= 1
    ensures Join([p] + rest, c) == p + [c] + Join(rest, c)
  {
    assert ([p] + rest)[1..] == rest;
  }

  // ----- names -----

  predicate Lower(c: char) { 'a' <= c <= 'z' || Decimal.IsDigit(c) }

  predicate HasPair(s: string, a: char, b: char) {
    exists i :: 0 <= i < |s| - 1 && s[i] == a && s[i + 1] == b
  }

  /** Four non-empty runs of digits between dots. */
  predicate IpAddress(s: string) {
    var parts := Split(s, '.');
    |parts| == 4 && forall p :: p in parts ==> p != "" && Decimal.AllDigits(p)
  }

  predicate ValidBucketName(lib: Lib, s: string) {
    && lib.trim(s) != ""
    && 3 <= |s| <= 63
    && !IpAddress(s)
    && !HasPair(s, '.', '.') && !HasPair(s, '.', '-') && !HasPair(s, '-', '.')
    && Lower(s[0]) && Lower(s[|s| - 1])
    && forall i :: 1 <= i < |s| - 1 ==> Lower(s[i]) || s[i] == '.' || s[i] == '-'
  }

  predicate BadComponent(lib: Lib, p: string) { lib.trim(p) == "." || lib.trim(p) == ".." }

  predicate BadPath(lib: Lib, path: string) {
    exists p :: p in Split(lib.trim(path), '/') && BadComponent(lib, p)
  }

  method HasBadPathComponent(lib: Lib, path: string) returns (bad: bool)
    ensures bad <==> BadPath(lib, path)
  {
    var parts := Split(lib.trim(path), '/');
    for i := 0 to |parts|
      invariant forall j :: 0 <= j < i ==> !BadComponent(lib, parts[j])
    {
      if BadComponent(lib, parts[i]) {
        return true;
      }
    }
    bad := false;
  }

  predicate ValidObjectName(lib: Lib, s: string) {
    && s != "" && lib.trim(s) != ""
    && |s| <= 1024
    && !BadPath(lib, s)
    && lib.utf8(s)
    && !HasPair(s, '/', '/')
  }

  predicate ValidGroupName(lib: Lib, s: string) {
    lib.trim(s) != "" && 3 <= |s| <= 63 && lib.utf8(s)
  }

  /** A valid bucket name holds none of the characters that delimit a resource name. */
  lemma BucketNameCharacters(lib: Lib, s: string)
    requires ValidBucketName(lib, s)
    ensures s != "" && ':' !in s && '/' !in s && '*' !in s
  {
    forall i | 0 <= i < |s| ensures Lower(s[i]) || s[i] == '.' || s[i] == '-' {
    }
  }

  /** parseBucketAndObjectName: the bucket is what stands before the first slash. */
  function SplitName(lib: Lib, name: string): Option<(string, string)> {
    var parts := Split(name, '/');
    if |parts| < 2 then None
    else
      var bucket := parts[0];
      if !(bucket + "/" <= name) then None
      else
        var objectName := name[|bucket| + 1..];
        if ValidBucketName(lib, bucket) && ValidObjectName(lib, objectName) then Some((bucket, objectName)) else None
  }

  lemma SplitFirst(name: string)
    requires '/' in name
    ensures var parts := Split(name, '/'); parts[0] == name[..IndexOf(name, '/')] && parts[0] + "/" <= name
  {
    var i := IndexOf(name, '/');
    assert name[..i] + "/" == name[..i + 1];
  }

  /** Splitting an object's name gives back its bucket and object exactly when both names are valid. */
  lemma SplitNameExact(lib: Lib, bucket: string, objectName: string)
    ensures SplitName(lib, bucket + "/" + objectName) == Some((bucket, objectName))
            <==> ValidBucketName(lib, bucket) && ValidObjectName(lib, objectName)
  {
    var name := bucket + "/" + objectName;
    if ValidBucketName(lib, bucket) && ValidObjectName(lib, objectName) {
      BucketNameCharacters(lib, bucket);
      assert name[|bucket|] == '/';
      SplitFirst(name);
      IndexOfUnique(bucket, '/', objectName);
      assert name == bucket + ['/'] + objectName;
      assert Split(name, '/')[0] == bucket;
      JoinSplit(name, '/');
      assert name[|bucket| + 1..] == objectName;
    }
  }

  /** Whatever splits, splits into two valid names that join to it again. */
  lemma SplitNameSound(lib: Lib, name: string)
    requires SplitName(lib, name).Some?
    ensures var (b, o) := SplitName(lib, name).value;
            ValidBucketName(lib, b) && ValidObjectName(lib, o) && name == b + "/" + o
  {
    var (b, o) := SplitName(lib, name).value;
    assert name == b + "/" + name[|b| + 1..];
  }

  // ----- printing -----

  function Abbreviation(kind: ResourceType): char
    requires !kind.Unspecified?
  {
    match kind case Bucket => 'b' case Object => 'o' case Group => 'g'
  }

  function Account(lib: Lib, r: Fields): string {
    if r.kind.Group? then lib.printAddress(r.owner) else ""
  }

  function Format(t: char, account: string, name: string): string {
    "grn:" + [t] + ":" + account + ":" + name
  }

  function TrimColon(s: string): string {
    if |s| > 0 && s[|s| - 1] == ':' then s[..|s| - 1] else s
  }

  /** String(). */
  function Print(lib: Lib, r: Fields): string {
    if r.kind.Unspecified? then "" else TrimColon(Format(Abbreviation(r.kind), Account(lib, r), r.name))
  }

  // ----- parsing -----

  datatype Parts = Parts(abbreviation: char, account: string, name: string)

  /** The regular expressions: three colons in all; without wildcards the name holds no star. */
  function Match(s: string, wildcards: bool): Option<Parts> {
    if |s| < 6 || s[..4] != "grn:" || s[4] !in "bog" || s[5] != ':' then None
    else
      var rest := s[6..];
      var i := IndexOf(rest, ':');
      if i == |rest| then None
      else
        var name := rest[i + 1..];
        if ':' in name || (!wildcards && '*' in name) then None else Some(Parts(s[4], rest[..i], name))
  }

  ghost predicate Matches(s: string, wildcards: bool, p: Parts) {
    && p.abbreviation in "bog"
    && ':' !in p.account && ':' !in p.name && (wildcards || '*' !in p.name)
    && s == Format(p.abbreviation, p.account, p.name)
  }

  /** The match is the one and only way to read the string in the grammar, and fails only when there is none. */
  lemma MatchExact(s: string, wildcards: bool, p: Parts)
    ensures Match(s, wildcards) == Some(p) <==> Matches(s, wildcards, p)
  {
    if Matches(s, wildcards, p) {
      assert s[..4] == "grn:";
      assert s[6..] == p.account + [':'] + p.name;
      IndexOfUnique(p.account, ':', p.name);
      assert s[6..][|p.account| + 1..] == p.name;
      assert s[6..][..|p.account|] == p.account;
    }
    if Match(s, wildcards) == Some(p) {
      var i := IndexOf(s[6..], ':');
      assert s[6..] == s[6..][..i] + [':'] + s[6..][i + 1..];
      assert s == s[..4] + [s[4]] + [s[5]] + s[6..];
    }
  }

  /** What ParseFromString does to a receiver: its new fields and whether it reported success. */
  datatype Parsed = Parsed(fields: Fields, ok: bool)

  function Parse(lib: Lib, r: Fields, s: string, wildcards: bool): Parsed {
    match Match(s, wildcards)
    case None => Parsed(r, false)
    case Some(p) =>
      if p.abbreviation == 'b' then
        if p.account != "" then Parsed(r, false)
        else Parsed(r.(kind := Bucket, name := p.name),
                    '/' !in p.name && (wildcards || ValidBucketName(lib, p.name)))
      else if p.abbreviation == 'o' then
        if p.account != "" then Parsed(r, false)
        else Parsed(r.(kind := Object, name := p.name), SplitName(lib, p.name).Some?)
      else
        match lib.parseAddress(p.account)
        case None => Parsed(r.(kind := Group, owner := []), false)
        case Some(a) =>
          if !wildcards && !ValidGroupName(lib, p.name) then Parsed(r.(kind := Group, owner := a), false)
          else Parsed(Fields(Group, a, p.name), true)
  }

  // ----- round trips -----

  /** The names the parser lets through for a resource of each kind. */
  predicate AdmissibleName(lib: Lib, kind: ResourceType, name: string, wildcards: bool) {
    && ':' !in name && (wildcards || '*' !in name)
    && match kind
       case Unspecified => false
       case Bucket => '/' !in name && (wildcards || ValidBucketName(lib, name))
       case Object => SplitName(lib, name).Some?
       case Group => wildcards || ValidGroupName(lib, name)
  }

  /** The resource names the constructors make: only groups have an owner. */
  predicate Constructed(r: Fields) {
    !r.kind.Unspecified? && if r.kind.Group? then |r.owner| == 20 else r.owner == []
  }

  lemma PrintUntrimmed(lib: Lib, r: Fields)
    requires !r.kind.Unspecified? && r.name != "" && ':' !in r.name
    ensures Print(lib, r) == Format(Abbreviation(r.kind), Account(lib, r), r.name)
  {
    var f := Format(Abbreviation(r.kind), Account(lib, r), r.name);
    assert f[|f| - 1] == r.name[|r.name| - 1];
  }

  /** With an empty name the trailing separator is trimmed, and what is left matches no pattern. */
  lemma EmptyNamePrint(lib: Lib, r: Fields, wildcards: bool)
    requires !r.kind.Unspecified? && r.name == "" && ':' !in Account(lib, r)
    ensures Match(Print(lib, r), wildcards).None?
  {
    var t, account := Abbreviation(r.kind), Account(lib, r);
    var f := Format(t, account, "");
    assert f == "grn:" + [t] + ":" + account + ":";
    assert Print(lib, r) == f[..|f| - 1];
    assert f[..|f| - 1][6..] == account;
  }

  /** Parsing the printed form gives a resource name back if and only if its name is not empty and is one the parser
      lets through. In particular every valid bucket, object and group without a colon (and without a star where
      wildcards are off) survives the trip. */
  lemma RoundTripIff(lib: Lib, r: Fields, wildcards: bool)
    requires Sound(lib) && Constructed(r)
    ensures Parse(lib, ZERO, Print(lib, r), wildcards) == Parsed(r, true)
            <==> r.name != "" && AdmissibleName(lib, r.kind, r.name, wildcards)
  {
    var s := Print(lib, r);
    if r.name == "" {
      EmptyNamePrint(lib, r, wildcards);
    } else if ':' !in r.name {
      PrintUntrimmed(lib, r);
      MatchExact(s, wildcards, Parts(Abbreviation(r.kind), Account(lib, r), r.name));
    }
    if Parse(lib, ZERO, s, wildcards).ok {
      AcceptedName(lib, ZERO, s, wildcards);
    }
  }

  lemma AcceptedName(lib: Lib, r: Fields, s: string, wildcards: bool)
    requires Parse(lib, r, s, wildcards).ok
    ensures var g := Parse(lib, r, s, wildcards).fields;
            !g.kind.Unspecified? && AdmissibleName(lib, g.kind, g.name, wildcards)
  {
  }

  /** An accepted bucket or object string is printed back unchanged exactly when the name in it is not empty. */
  lemma PrintsBackIff(lib: Lib, r: Fields, s: string, wildcards: bool)
    requires Parse(lib, r, s, wildcards).ok
    ensures var g := Parse(lib, r, s, wildcards).fields;
            !g.kind.Group? ==> (Print(lib, g) == s <==> g.name != "")
  {
    var p := Match(s, wildcards).value;
    MatchExact(s, wildcards, p);
    var g := Parse(lib, r, s, wildcards).fields;
    if !g.kind.Group? && g.name != "" {
      PrintUntrimmed(lib, g);
    }
  }

  /** An empty name is accepted only with wildcards, and never for an object. */
  lemma EmptyNameAccepted(lib: Lib, r: Fields, s: string, wildcards: bool)
    requires Parse(lib, r, s, wildcards).ok && Parse(lib, r, s, wildcards).fields.name == ""
    ensures wildcards && !Parse(lib, r, s, wildcards).fields.kind.Object?
  {
    var g := Parse(lib, r, s, wildcards).fields;
    assert g.kind.Object? ==> SplitName(lib, g.name).Some?;
  }

  /** `grn:b::` is accepted with wildcards and printed as `grn:b:`, which is not accepted at all. */
  lemma EmptyBucketLost(lib: Lib)
    ensures Parse(lib, ZERO, "grn:b::", true) == Parsed(Fields(Bucket, [], ""), true)
    ensures Print(lib, Fields(Bucket, [], "")) == "grn:b:"
    ensures !Parse(lib, ZERO, "grn:b:", true).ok
  {
    MatchExact("grn:b::", true, Parts('b', "", ""));
    EmptyNamePrint(lib, Fields(Bucket, [], ""), true);
  }

  /** Once accepted, a name prints to a string that is accepted again with the same fields. */
  lemma AcceptedReparses(lib: Lib, s: string, wildcards: bool)
    requires Sound(lib) && Parse(lib, ZERO, s, wildcards).ok
    ensures var g := Parse(lib, ZERO, s, wildcards).fields;
            g.name != "" && (g.kind.Group? ==> |g.owner| == 20)
            ==> Parse(lib, ZERO, Print(lib, g), wildcards) == Parsed(g, true)
  {
    var g := Parse(lib, ZERO, s, wildcards).fields;
    AcceptedName(lib, ZERO, s, wildcards);
    if g.name != "" && (g.kind.Group? ==> |g.owner| == 20) {
      RoundTripIff(lib, g, wildcards);
    }
  }

  // ----- the receiver -----

  class GRN {
    var kind: ResourceType
    var owner: Address
    var name: string

    ghost function Contents(): Fields reads this { Fields(kind, owner, name) }

    constructor ()
      ensures Contents() == ZERO
    {
      kind, owner, name := Unspecified, [], "";
    }

    constructor NewBucket(bucketName: string)
      ensures Contents() == Fields(Bucket, [], bucketName)
    {
      kind, owner, name := Bucket, [], bucketName;
    }

    constructor NewObject(bucketName: string, objectName: string)
      ensures Contents() == Fields(Object, [], bucketName + "/" + objectName)
    {
      kind, owner, name := Object, [], bucketName + "/" + objectName;
    }

    constructor NewGroup(groupOwner: Address, groupName: string)
      ensures Contents() == Fields(Group, groupOwner, groupName)
    {
      kind, owner, name := Group, groupOwner, groupName;
    }

    method ParseFromString(lib: Lib, s: string, wildcards: bool) returns (ok: bool)
      modifies this
      ensures Parsed(Contents(), ok) == Parse(lib, old(Contents()), s, wildcards)
      ensures ok ==> AdmissibleName(lib, kind, name, wildcards)
    {
      var m := Match(s, wildcards);
      if m.None? {
        return false;
      }
      var p := m.value;
      if p.abbreviation == 'b' {
        if p.account != "" {
          return false;
        }
        kind, name := Bucket, p.name;
        if '/' in p.name {
          return false;
        }
        return wildcards || ValidBucketName(lib, name);
      } else if p.abbreviation == 'o' {
        if p.account != "" {
          return false;
        }
        kind, name := Object, p.name;
        return SplitName(lib, name).Some?;
      } else {
        kind := Group;
        var a := lib.parseAddress(p.account);
        if a.None? {
          owner := [];
          return false;
        }
        owner := a.value;
        if !wildcards && !ValidGroupName(lib, p.name) {
          return false;
        }
        name := p.name;
        return true;
      }
    }

    /** GetBucketAndObjectName; `None` stands for its errors. */
    method GetBucketAndObjectName(lib: Lib) returns (r: Option<(string, string)>)
      ensures r.Some? <==> kind.Object? && SplitName(lib, name).Some?
      ensures r.Some? ==> ValidBucketName(lib, r.value.0) && ValidObjectName(lib, r.value.1)
                          && name == r.value.0 + "/" + r.value.1
    {
      if !kind.Object? {
        return None;
      }
      r := SplitName(lib, name);
      if r.Some? {
        SplitNameSound(lib, name);
      }
    }
  }
}
