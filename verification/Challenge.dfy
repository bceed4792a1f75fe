/** Random challenges at the end of a block: a bounded draw with filters and de-duplication. */
module Challenge {
  import opened MachineInts
  import opened KvStore
  import opened Decimal

  // ----- what the keepers hold -----

  datatype SpStatus = InService | GracefulExiting | ForcedExiting | OtherStatus

  datatype ObjectInfo =
    ObjectInfo(id: nat, isSealed: bool, payloadSize: Uint64, bucketName: string, localGroup: nat, updatedAt: int)
  datatype Group = Group(primary: Uint32, secondaries: seq<Uint32>)
  datatype Provider = Provider(id: Uint32, status: SpStatus)

  /** Objects, buckets (name to id), virtual groups by bucket id and local group, storage providers, recent slashes by
      provider and object, and the segment size in force at a time. */
  datatype World = World(
    objects: map<nat, ObjectInfo>,
    buckets: map<string, nat>,
    groups: map<(nat, nat), Group>,
    providers: map<Uint32, Provider>,
    slashed: set<(Uint32, nat)>,
    segmentSize: int -> Option<Uint64>)

  /** Records are stored under their own id; segment sizes are positive; groups are of int32 size. */
  ghost predicate WellFormedWorld(w: World) {
    && (forall id :: id in w.objects ==> w.objects[id].id == id)
    && (forall id :: id in w.providers ==> w.providers[id].id == id)
    && (forall g :: g in w.groups ==> |w.groups[g].secondaries| < TWO_31 - 1)
    && (forall t :: w.segmentSize(t) != Some(0))
  }

  // ----- a draw -----

  /** The three numbers hashed from the seed of one iteration. */
  datatype Draw = Draw(objectHash: nat, redundancyHash: nat, segmentHash: nat)

  datatype Target = Target(provider: Uint32, objectId: nat, redundancyIndex: Int32, segmentIndex: Uint32)

  /** CalculateSegments */
  function Segments(payloadSize: nat, segmentSize: nat): nat
    requires segmentSize > 0
  {
    if payloadSize % segmentSize == 0 then payloadSize / segmentSize else payloadSize / segmentSize + 1
  }

  predicate MayBeChallenged(s: SpStatus) {
    s.InService? || s.GracefulExiting? || s.ForcedExiting?
  }

  /** The provider at a redundancy index: -1 is the primary one. */
  function ProviderAt(g: Group, redundancyIndex: int): Uint32
    requires -1 <= redundancyIndex < |g.secondaries|
  {
    if redundancyIndex == -1 then g.primary else g.secondaries[redundancyIndex]
  }

  /** RandomRedundancyIndex */
  function RedundancyIndex(hash: nat, g: Group): (r: Int32)
    requires |g.secondaries| < TWO_31 - 1
    ensures -1 <= r < |g.secondaries|
  {
    hash % (|g.secondaries| + 1) - 1
  }

  /** What one iteration would challenge, before it looks for duplicates: every filter of the loop. */
  function Candidate(w: World, objectCount: nat, d: Draw): Option<Target>
    requires WellFormedWorld(w) && objectCount > 0
  {
    var id := d.objectHash % objectCount + 1;
    if id !in w.objects || !w.objects[id].isSealed || w.objects[id].payloadSize == 0 then None
    else
      var o := w.objects[id];
      if o.bucketName !in w.buckets then None
      else
        var g := (w.buckets[o.bucketName], o.localGroup);
        if g !in w.groups then None
        else
          var r := RedundancyIndex(d.redundancyHash, w.groups[g]);
          var sp := ProviderAt(w.groups[g], r);
          if sp !in w.providers || !MayBeChallenged(w.providers[sp].status) then None
          else if (sp, id) in w.slashed || w.segmentSize(o.updatedAt).None? then None
          else
            var segments := Segments(o.payloadSize, w.segmentSize(o.updatedAt).value);
            SegmentsPositive(o.payloadSize, w.segmentSize(o.updatedAt).value);
            Some(Target(sp, id, r, ToUint32(d.segmentHash % segments)))
  }

  lemma SegmentsPositive(payloadSize: nat, segmentSize: nat)
    requires payloadSize > 0 && segmentSize > 0
    ensures Segments(payloadSize, segmentSize) > 0
    ensures forall i: nat :: i < Segments(payloadSize, segmentSize) ==> SegmentStart(i, segmentSize) < payloadSize
  {
    var q, r := payloadSize / segmentSize, payloadSize % segmentSize;
    assert payloadSize == q * segmentSize + r;
    if q == 0 {
      assert 0 * segmentSize == 0;
    }
    forall i: nat | i < Segments(payloadSize, segmentSize)
      ensures SegmentStart(i, segmentSize) < payloadSize
    {
      if r == 0 {
        MulLess(i, q, segmentSize);
      } else {
        assert i <= q;
        MulLessEqual(i, q, segmentSize);
      }
    }
  }

  function SegmentStart(i: nat, segmentSize: nat): nat {
    i * segmentSize
  }

  lemma MulLess(a: nat, b: nat, m: nat)
    requires a < b && m > 0
    ensures a * m < b * m
  {
    assert b * m == a * m + (b - a) * m;
    assert (b - a) * m >= m by { MulLessEqual(1, b - a, m); }
  }

  lemma MulLessEqual(a: nat, b: nat, m: nat)
    requires a <= b
    ensures a * m <= b * m
  {
    assert b * m == a * m + (b - a) * m;
  }

  /** A target worth challenging: a sealed non-empty object, a provider that serves it in its group at that index, may
      still be challenged and was not slashed for it recently, and a segment inside the object. */
  ghost predicate Eligible(w: World, t: Target)
    requires WellFormedWorld(w)
  {
    && t.objectId in w.objects
    && var o := w.objects[t.objectId];
       && o.isSealed && o.payloadSize > 0 && o.bucketName in w.buckets
       && (w.buckets[o.bucketName], o.localGroup) in w.groups
       && var g := w.groups[(w.buckets[o.bucketName], o.localGroup)];
          && -1 <= t.redundancyIndex < |g.secondaries| && ProviderAt(g, t.redundancyIndex) == t.provider
          && t.provider in w.providers && MayBeChallenged(w.providers[t.provider].status)
          && (t.provider, t.objectId) !in w.slashed
          && w.segmentSize(o.updatedAt).Some?
          && SegmentStart(t.segmentIndex, w.segmentSize(o.updatedAt).value) < o.payloadSize
  }

  lemma CandidateEligible(w: World, objectCount: nat, d: Draw)
    requires WellFormedWorld(w) && objectCount > 0 && Candidate(w, objectCount, d).Some?
    ensures Eligible(w, Candidate(w, objectCount, d).value)
  {
    var t := Candidate(w, objectCount, d).value;
    var o := w.objects[t.objectId];
    var size := w.segmentSize(o.updatedAt).value;
    SegmentsPositive(o.payloadSize, size);
    var i := d.segmentHash % Segments(o.payloadSize, size);
    assert ToUint32(i) <= i;
  }

  /** The draw names the object of `t` and, within that object's group, its redundancy index. */
  ghost predicate Names(w: World, objectCount: nat, d: Draw, t: Target)
    requires WellFormedWorld(w) && objectCount > 0 && Eligible(w, t)
  {
    var o := w.objects[t.objectId];
    var g := w.groups[(w.buckets[o.bucketName], o.localGroup)];
    t.objectId == d.objectHash % objectCount + 1 && t.redundancyIndex == RedundancyIndex(d.redundancyHash, g)
  }

  /** The filters of the loop turn a draw down exactly when it names no eligible target. */
  lemma CandidateExact(w: World, objectCount: nat, d: Draw)
    requires WellFormedWorld(w) && objectCount > 0
    ensures Candidate(w, objectCount, d).Some? <==> exists t :: Eligible(w, t) && Names(w, objectCount, d, t)
    ensures Candidate(w, objectCount, d).Some? ==>
              var t := Candidate(w, objectCount, d).value; Eligible(w, t) && Names(w, objectCount, d, t)
  {
    if Candidate(w, objectCount, d).Some? {
      CandidateEligible(w, objectCount, d);
    }
  }

  // ----- the de-duplication key -----

  /** The text key of a pair: both numbers in decimal, a dash between them. */
  function PairKey(provider: nat, objectId: nat): string {
    Print(provider) + "-" + Print(objectId)
  }

  lemma {:induction false} SplitAtDash(a: string, b: string, a': string, b': string)
    requires AllDigits(a) && AllDigits(a') && a + "-" + b == a' + "-" + b'
    ensures a == a' && b == b'
  {
    var s := a + "-" + b;
    assert s[|a|] == '-' && s[|a'|] == '-';
    assert forall i :: 0 <= i < |a| ==> s[i] == a[i];
    assert forall i :: 0 <= i < |a'| ==> s[i] == a'[i];
    assert |a| == |a'|;
    assert a == s[..|a|] == a' && b == s[|a| + 1..] == b';
  }

  /** Different pairs have different keys. */
  lemma PairKeyInjective(p: nat, o: nat, p': nat, o': nat)
    requires PairKey(p, o) == PairKey(p', o')
    ensures p == p' && o == o'
  {
    SplitAtDash(Print(p), Print(o), Print(p'), Print(o'));
    ValuePrint(p);
    ValuePrint(p');
    ValuePrint(o);
    ValuePrint(o');
  }

  // ----- what a sequence of draws picks -----

  /** Some listed target is for the same provider and object. */
  ghost predicate Listed(t: Target, ts: seq<Target>) {
    exists j :: 0 <= j < |ts| && SamePair(ts[j], t)
  }

  ghost predicate SamePair(t: Target, t': Target) {
    t.provider == t'.provider && t.objectId == t'.objectId
  }

  /** The targets of draws 1..n, each pair of provider and object at its first draw only. */
  ghost function Picked(w: World, objectCount: nat, draws: nat -> Draw, n: nat): seq<Target>
    requires WellFormedWorld(w) && objectCount > 0
  {
    if n == 0 then []
    else
      var before := Picked(w, objectCount, draws, n - 1);
      var c := Candidate(w, objectCount, draws(n));
      if c.None? || Listed(c.value, before) then before else before + [c.value]
  }

  /** Draw `i` is for the target `t`. */
  ghost predicate DrawnAt(w: World, objectCount: nat, draws: nat -> Draw, i: nat, t: Target)
    requires WellFormedWorld(w) && objectCount > 0
  {
    Candidate(w, objectCount, draws(i)) == Some(t)
  }

  ghost predicate Drawn(w: World, objectCount: nat, draws: nat -> Draw, n: nat, t: Target)
    requires WellFormedWorld(w) && objectCount > 0
  {
    exists i :: 1 <= i <= n && DrawnAt(w, objectCount, draws, i, t)
  }

  /** Every picked target is eligible and was drawn, and no pair is picked twice. */
  lemma {:induction false} PickedSound(w: World, objectCount: nat, draws: nat -> Draw, n: nat)
    requires WellFormedWorld(w) && objectCount > 0
    ensures var ts := Picked(w, objectCount, draws, n);
            && |ts| <= n
            && (forall j :: 0 <= j < |ts| ==> Eligible(w, ts[j]) && Drawn(w, objectCount, draws, n, ts[j]))
            && (forall j, k :: 0 <= j < k < |ts| ==> !SamePair(ts[j], ts[k]))
  {
    hide Candidate, Eligible;
    if n > 0 {
      PickedSound(w, objectCount, draws, n - 1);
      forall t | Drawn(w, objectCount, draws, n - 1, t) ensures Drawn(w, objectCount, draws, n, t) {
        var i :| 1 <= i <= n - 1 && DrawnAt(w, objectCount, draws, i, t);
      }
      if Candidate(w, objectCount, draws(n)).Some? {
        CandidateEligible(w, objectCount, draws(n));
        assert DrawnAt(w, objectCount, draws, n, Candidate(w, objectCount, draws(n)).value);
      }
    }
  }

  /** Nothing that was drawn is left out. */
  lemma {:induction false} PickedComplete(w: World, objectCount: nat, draws: nat -> Draw, n: nat, i: nat, t: Target)
    requires WellFormedWorld(w) && objectCount > 0 && 1 <= i <= n && DrawnAt(w, objectCount, draws, i, t)
    ensures Listed(t, Picked(w, objectCount, draws, n))
  {
    hide Candidate;
    var before, ts := Picked(w, objectCount, draws, n - 1), Picked(w, objectCount, draws, n);
    if i < n {
      PickedComplete(w, objectCount, draws, n - 1, i, t);
      var j :| 0 <= j < |before| && SamePair(before[j], t);
      assert ts[j] == before[j];
    } else if !Listed(t, before) {
      assert SamePair(ts[|before|], t);
    }
  }

  // ----- EndBlocker -----

  datatype StartChallenge = StartChallenge(challengeId: Uint64, target: Target, expiredHeight: Uint64)

  ghost function TargetsOf(events: seq<StartChallenge>): (ts: seq<Target>)
    ensures |ts| == |events| && forall i :: 0 <= i < |events| ==> ts[i] == events[i].target
  {
    if events == [] then [] else TargetsOf(events[..|events| - 1]) + [events[|events| - 1].target]
  }

  /** The ids go on from `start`, modulo 2^64, and all challenges expire at the same height. */
  ghost predicate Numbered(start: Uint64, expiredHeight: Uint64, events: seq<StartChallenge>) {
    forall i :: 0 <= i < |events| ==>
      events[i].challengeId == ToUint64(start + 1 + i) && events[i].expiredHeight == expiredHeight
  }

  /** The stored challenges after those of `events` are saved. */
  ghost function Saved(stored: map<Uint64, Uint64>, events: seq<StartChallenge>): map<Uint64, Uint64> {
    if events == [] then stored
    else
      var e := events[|events| - 1];
      Saved(stored, events[..|events| - 1])[e.challengeId := e.expiredHeight]
  }

  class Keeper {
    var challengeId: Uint64
    var challenges: map<Uint64, Uint64>

    constructor ()
      ensures challengeId == 0 && challenges == map[]
    {
      challengeId, challenges := 0, map[];
    }

    /** SaveChallenge records the id and the expiry. */
    method SaveChallenge(id: Uint64, expiredHeight: Uint64)
      modifies this
      ensures challengeId == id && challenges == old(challenges)[id := expiredHeight]
    {
      challengeId := id;
      challenges := challenges[id := expiredHeight];
    }

    /** `draws(i)` is what iteration `i` hashes from the block's random mix. `iterations` is how many were made:
        enough for the challenges still needed, or ten for each of them. */
    method EndBlocker(w: World, objectCount: nat, count0: Uint64, needed: Uint64, expiredHeight: Uint64,
                      draws: nat -> Draw)
      returns (events: seq<StartChallenge>, iterations: nat)
      requires WellFormedWorld(w)
      modifies this
      ensures count0 >= needed || objectCount == 0 ==> events == [] && iterations == 0
      ensures count0 < needed && objectCount > 0 ==>
        && TargetsOf(events) == Picked(w, objectCount, draws, iterations)
        && |events| <= needed - count0 && iterations <= ToUint64(10 * (needed - count0))
        && (|events| == needed - count0 || iterations == ToUint64(10 * (needed - count0)))
        && (|events| == needed - count0 ==> |Picked(w, objectCount, draws, iterations - 1)| < |events|)
      ensures Numbered(old(challengeId), expiredHeight, events)
      ensures challengeId == ToUint64(old(challengeId) + |events|)
      ensures challenges == Saved(old(challenges), events)
    {
      hide *;
      events, iterations := [], 0;
      var count := count0;
      NoEvents(challengeId, expiredHeight, challenges);
      if count >= needed || objectCount == 0 {
        return;
      }
      NothingPicked(w, objectCount, draws);
      var objectMap: set<string> := {};
      var maxIteration := ToUint64(10 * (needed - count));
      while count < needed && iterations < maxIteration
        invariant count == count0 + |events| && count <= needed && iterations <= maxIteration
        invariant challengeId == ToUint64(old(challengeId) + |events|) && objectMap == KeysOf(TargetsOf(events))
        invariant Numbered(old(challengeId), expiredHeight, events)
        invariant challenges == Saved(old(challenges), events)
        invariant TargetsOf(events) == Picked(w, objectCount, draws, iterations)
        invariant count == needed ==> iterations > 0 && |Picked(w, objectCount, draws, iterations - 1)| < |events|
        decreases maxIteration - iterations
      {
        iterations := iterations + 1;
        var c := Candidate(w, objectCount, draws(iterations));
        PickedNext(w, objectCount, draws, iterations);
        if c.None? {
          continue;
        }
        var t := c.value;
        var mapKey := PairKey(t.provider, t.objectId);
        KeyListed(t, TargetsOf(events));
        if mapKey in objectMap {
          continue;
        }
        objectMap := objectMap + {mapKey};
        var id := ToUint64(challengeId + 1);
        Emit(old(challengeId), expiredHeight, events, old(challenges), t);
        SaveChallenge(id, expiredHeight);
        events := events + [StartChallenge(id, t, expiredHeight)];
        count := count + 1;
      }
    }
  }

  ghost function KeysOf(ts: seq<Target>): set<string> {
    set i | 0 <= i < |ts| :: PairKey(ts[i].provider, ts[i].objectId)
  }

  lemma NoEvents(start: Uint64, expiredHeight: Uint64, stored: map<Uint64, Uint64>)
    ensures Numbered(start, expiredHeight, []) && Saved(stored, []) == stored && TargetsOf([]) == [] && KeysOf([]) == {}
    ensures ToUint64(start) == start
  {
  }

  lemma NothingPicked(w: World, objectCount: nat, draws: nat -> Draw)
    requires WellFormedWorld(w) && objectCount > 0
    ensures Picked(w, objectCount, draws, 0) == []
  {
  }

  lemma PickedNext(w: World, objectCount: nat, draws: nat -> Draw, n: nat)
    requires WellFormedWorld(w) && objectCount > 0 && n > 0
    ensures var before, c := Picked(w, objectCount, draws, n - 1), Candidate(w, objectCount, draws(n));
            Picked(w, objectCount, draws, n)
            == if c.None? || Listed(c.value, before) then before else before + [c.value]
  {
    hide Candidate, Listed;
  }

  /** The textual key of a pair is in use exactly when the pair is. */
  lemma KeyListed(t: Target, ts: seq<Target>)
    ensures PairKey(t.provider, t.objectId) in KeysOf(ts) <==> Listed(t, ts)
  {
    hide PairKey;
    forall j | 0 <= j < |ts| && PairKey(ts[j].provider, ts[j].objectId) == PairKey(t.provider, t.objectId)
      ensures SamePair(ts[j], t)
    {
      PairKeyInjective(t.provider, t.objectId, ts[j].provider, ts[j].objectId);
    }
  }

  lemma Emit(start: Uint64, expiredHeight: Uint64, events: seq<StartChallenge>, stored: map<Uint64, Uint64>, t: Target)
    requires Numbered(start, expiredHeight, events)
    ensures var id := ToUint64(ToUint64(start + |events|) + 1);
            var events' := events + [StartChallenge(id, t, expiredHeight)];
            && Numbered(start, expiredHeight, events') && id == ToUint64(start + |events'|)
            && Saved(stored, events') == Saved(stored, events)[id := expiredHeight]
            && TargetsOf(events') == TargetsOf(events) + [t]
            && KeysOf(TargetsOf(events) + [t]) == KeysOf(TargetsOf(events)) + {PairKey(t.provider, t.objectId)}
  {
    hide PairKey, ToUint64;
    NextId(start, |events|);
    var e := StartChallenge(ToUint64(ToUint64(start + |events|) + 1), t, expiredHeight);
    assert (events + [e])[..|events|] == events;
    KeysSnoc(TargetsOf(events), t);
  }

  lemma KeysSnoc(ts: seq<Target>, t: Target)
    ensures KeysOf(ts + [t]) == KeysOf(ts) + {PairKey(t.provider, t.objectId)}
  {
    hide PairKey;
    assert (ts + [t])[|ts|] == t;
    assert forall i :: 0 <= i < |ts| ==> (ts + [t])[i] == ts[i];
  }

  lemma NextId(start: Uint64, n: nat)
    ensures ToUint64(ToUint64(start + n) + 1) == ToUint64(start + 1 + n) == ToUint64(start + (n + 1))
  {
  }
}
