/** The tracker's frame update as pure functions on values.

    A frame's detections ("blobs") are offered to the tracked vehicles in list order;
    each vehicle takes the first blob it accepts, which leaves the pool for the later
    vehicles.  Every blob nobody took starts a new vehicle with the next id.  Vehicles
    whose newest position lies below the divider are counted once.  Vehicles that have
    gone unseen for `limit` frames are dropped.

    The acceptance test is a parameter (`accepts(last, centroid)`); the tracker itself
    uses Geometry.Accepts.  The class VehicleCounter in module Detection is proved to
    perform exactly Step below. */
module Tracking {
  import opened Geometry

  datatype Option<T> = None | Some(value: T)

  /** An axis-aligned bounding box (x, y, width, height) in frame coordinates. */
  datatype Box = Box(x: int, y: int, w: int, h: int)

  /** One detection: its bounding box and its centroid. */
  datatype Blob = Blob(box: Box, centroid: Point)

  /** The state of one vehicle: its id, its positions oldest first, the number of
      consecutive frames it went unmatched and whether it has been counted. */
  datatype Track = Track(id: nat, positions: seq<Point>, framesSinceSeen: nat, counted: bool)
  {
    predicate Valid()
    {
      |positions| > 0
    }

    function Last(): Point
      requires Valid()
    {
      positions[|positions| - 1]
    }
  }

  /** The state of the whole counter. */
  datatype Counter = Counter(tracks: seq<Track>, nextId: nat, count: nat)

  predicate AllValid(ts: seq<Track>)
  {
    forall i :: 0 <= i < |ts| ==> ts[i].Valid()
  }

  /** A vehicle just created at `p`. */
  function NewTrack(id: nat, p: Point): Track
  {
    Track(id, [p], 0, false)
  }

  // ---------------------------------------------------------------------------
  // Association of one vehicle

  /** The index of the first blob of `pool` whose centroid is acceptable from `last`. */
  function FirstMatch(accepts: (Point, Point) -> bool, last: Point, pool: seq<Blob>): (r: Option<nat>)
    ensures r.Some? ==> r.value < |pool| && accepts(last, pool[r.value].centroid)
    ensures r.Some? ==> forall j :: 0 <= j < r.value ==> !accepts(last, pool[j].centroid)
    ensures r.None? ==> forall j :: 0 <= j < |pool| ==> !accepts(last, pool[j].centroid)
  {
    if pool == [] then None
    else if accepts(last, pool[0].centroid) then Some(0)
    else match FirstMatch(accepts, last, pool[1..])
      case None => None
      case Some(k) => Some(k + 1)
  }

  /** `FirstMatch` is the first index that passes the test, or nothing when none does. */
  lemma FirstMatchIs(accepts: (Point, Point) -> bool, last: Point, pool: seq<Blob>, k: int)
    requires -1 <= k < |pool|
    requires forall j :: 0 <= j < k ==> !accepts(last, pool[j].centroid)
    requires k >= 0 ==> accepts(last, pool[k].centroid)
    requires k < 0 ==> forall j :: 0 <= j < |pool| ==> !accepts(last, pool[j].centroid)
    ensures FirstMatch(accepts, last, pool) == if k < 0 then None else Some(k)
  {
  }

  /** What one vehicle's turn produces: its new state, the blob it took (if any) and
      the pool left for the vehicles after it. */
  datatype Turn = Turn(track: Track, taken: Option<Blob>, pool: seq<Blob>)

  /** The blobs a sequence of turns took, with multiplicity. */
  function Claimed(taken: seq<Option<Blob>>): multiset<Blob>
  {
    if taken == [] then multiset{}
    else
      var last := match taken[|taken| - 1] case None => multiset{} case Some(b) => multiset{b};
      Claimed(taken[..|taken| - 1]) + last
  }

  /** One vehicle's turn: take the first acceptable blob out of the pool and record its
      centroid, or else count one more frame unseen. */
  function VisitTrack(accepts: (Point, Point) -> bool, t: Track, pool: seq<Blob>): (r: Turn)
    requires t.Valid()
    ensures r.track.Valid() && r.track.id == t.id && r.track.counted == t.counted
  {
    match FirstMatch(accepts, t.Last(), pool)
    case None =>
      Turn(t.(framesSinceSeen := t.framesSinceSeen + 1), None, pool)
    case Some(i) =>
      Turn(t.(positions := t.positions + [pool[i].centroid], framesSinceSeen := 0),
           Some(pool[i]), pool[..i] + pool[i + 1..])
  }

  /** A vehicle that takes a blob takes an acceptable one, appends its centroid as its
      newest position and is marked as just seen; the blob leaves the pool.  A vehicle
      that takes nothing found nothing acceptable and only counts one more frame
      unseen.  Either way the pool loses exactly what was taken. */
  lemma VisitTrackEffect(accepts: (Point, Point) -> bool, t: Track, pool: seq<Blob>)
    requires t.Valid()
    ensures var r := VisitTrack(accepts, t, pool);
      && (r.taken.Some? ==>
        && r.taken.value in pool
        && accepts(t.Last(), r.taken.value.centroid)
        && r.track.positions == t.positions + [r.taken.value.centroid]
        && r.track.Last() == r.taken.value.centroid
        && r.track.framesSinceSeen == 0
        && |r.pool| == |pool| - 1
        && exists i :: 0 <= i < |pool| && pool[i] == r.taken.value && r.pool == pool[..i] + pool[i + 1..])
      && (r.taken.None? ==>
        && r.track == t.(framesSinceSeen := t.framesSinceSeen + 1)
        && r.pool == pool
        && forall b :: b in pool ==> !accepts(t.Last(), b.centroid))
      && multiset(pool) == multiset(r.pool) + Claimed([r.taken])
  {
    match FirstMatch(accepts, t.Last(), pool)
    case None =>
      var none: seq<Option<Blob>> := [None];
      assert none[..0] == [];
    case Some(i) =>
      assert pool == pool[..i] + [pool[i]] + pool[i + 1..];
      assert Claimed([Some(pool[i])]) == multiset{pool[i]} by {
        assert [Some(pool[i])][..0] == [];
      }
  }

  // ---------------------------------------------------------------------------
  // Association of all vehicles

  /** The outcome of offering the pool to every vehicle in order: their new states,
      what each took, and the blobs nobody took. */
  datatype Assoc = Assoc(tracks: seq<Track>, taken: seq<Option<Blob>>, pool: seq<Blob>)

  /** Give every vehicle its turn, first to last, on the shrinking pool. */
  function Associate(accepts: (Point, Point) -> bool, tracks: seq<Track>, pool: seq<Blob>): (r: Assoc)
    requires AllValid(tracks)
    ensures |r.tracks| == |tracks| && |r.taken| == |tracks|
    ensures AllValid(r.tracks)
    decreases |tracks|
  {
    if tracks == [] then Assoc([], [], pool)
    else
      var prev := Associate(accepts, tracks[..|tracks| - 1], pool);
      var turn := VisitTrack(accepts, tracks[|tracks| - 1], prev.pool);
      Assoc(prev.tracks + [turn.track], prev.taken + [turn.taken], turn.pool)
  }

  /** Vehicle `i`'s outcome is its turn on the pool that the vehicles before it left. */
  lemma {:induction false} AssociateAt(accepts: (Point, Point) -> bool, tracks: seq<Track>, pool: seq<Blob>, i: nat)
    requires AllValid(tracks) && i < |tracks|
    ensures var r := Associate(accepts, tracks, pool);
      var turn := VisitTrack(accepts, tracks[i], Associate(accepts, tracks[..i], pool).pool);
      r.tracks[i] == turn.track && r.taken[i] == turn.taken
    decreases |tracks|
  {
    var n := |tracks| - 1;
    var prev := Associate(accepts, tracks[..n], pool);
    var last := VisitTrack(accepts, tracks[n], prev.pool);
    var r := Associate(accepts, tracks, pool);
    assert r.tracks == prev.tracks + [last.track] && r.taken == prev.taken + [last.taken];
    if i < n {
      assert tracks[..n][..i] == tracks[..i];
      AssociateAt(accepts, tracks[..n], pool, i);
      assert r.tracks[i] == prev.tracks[i] && r.taken[i] == prev.taken[i];
    } else {
      assert tracks[..n] == tracks[..i];
    }
  }

  /** Association of a prefix one vehicle longer: that vehicle's turn on what the
      shorter prefix left. */
  lemma AssociateSnoc(accepts: (Point, Point) -> bool, tracks: seq<Track>, pool: seq<Blob>, k: nat)
    requires AllValid(tracks) && k < |tracks|
    ensures AllValid(tracks[..k]) && AllValid(tracks[..k + 1])
    ensures var prev := Associate(accepts, tracks[..k], pool);
      var turn := VisitTrack(accepts, tracks[k], prev.pool);
      Associate(accepts, tracks[..k + 1], pool) == Assoc(prev.tracks + [turn.track], prev.taken + [turn.taken], turn.pool)
  {
    assert tracks[..k + 1][..k] == tracks[..k];
  }

  /** Each vehicle keeps its id and its counted flag.  A vehicle that took a blob has
      that blob's centroid appended as its newest position and is marked as just seen;
      one that took nothing is unchanged except for one more frame unseen. */
  lemma AssociateEffect(accepts: (Point, Point) -> bool, tracks: seq<Track>, pool: seq<Blob>)
    requires AllValid(tracks)
    ensures var r := Associate(accepts, tracks, pool);
      forall i :: 0 <= i < |tracks| ==>
        && r.tracks[i].id == tracks[i].id
        && r.tracks[i].counted == tracks[i].counted
        && (r.taken[i].Some? ==>
              && accepts(tracks[i].Last(), r.taken[i].value.centroid)
              && r.tracks[i].positions == tracks[i].positions + [r.taken[i].value.centroid]
              && r.tracks[i].framesSinceSeen == 0)
        && (r.taken[i].None? ==>
              r.tracks[i] == tracks[i].(framesSinceSeen := tracks[i].framesSinceSeen + 1))
  {
    var r := Associate(accepts, tracks, pool);
    forall i | 0 <= i < |tracks|
      ensures r.tracks[i].id == tracks[i].id
      ensures r.tracks[i].counted == tracks[i].counted
      ensures r.taken[i].Some? ==>
        && accepts(tracks[i].Last(), r.taken[i].value.centroid)
        && r.tracks[i].positions == tracks[i].positions + [r.taken[i].value.centroid]
        && r.tracks[i].framesSinceSeen == 0
      ensures r.taken[i].None? ==>
        r.tracks[i] == tracks[i].(framesSinceSeen := tracks[i].framesSinceSeen + 1)
    {
      AssociateAt(accepts, tracks, pool, i);
      VisitTrackEffect(accepts, tracks[i], Associate(accepts, tracks[..i], pool).pool);
    }
  }

  lemma {:induction false} ClaimedAppend(a: seq<Option<Blob>>, b: seq<Option<Blob>>)
    ensures Claimed(a + b) == Claimed(a) + Claimed(b)
    decreases |b|
  {
    if b == [] {
      assert a + b == a;
    } else {
      var n := |b| - 1;
      assert (a + b)[..|a + b| - 1] == a + b[..n];
      ClaimedAppend(a, b[..n]);
    }
  }

  /** No blob is used twice: every blob of the pool is either taken by exactly one
      vehicle or left over, never both. */
  lemma {:induction false} AssociateConserves(accepts: (Point, Point) -> bool, tracks: seq<Track>, pool: seq<Blob>)
    requires AllValid(tracks)
    ensures var r := Associate(accepts, tracks, pool);
      multiset(pool) == multiset(r.pool) + Claimed(r.taken)
    decreases |tracks|
  {
    if tracks != [] {
      var n := |tracks| - 1;
      var prev := Associate(accepts, tracks[..n], pool);
      var turn := VisitTrack(accepts, tracks[n], prev.pool);
      AssociateConserves(accepts, tracks[..n], pool);
      VisitTrackEffect(accepts, tracks[n], prev.pool);
      ClaimedAppend(prev.taken, [turn.taken]);
    }
  }

  /** `a` is `b` with some of its elements deleted, the others kept in order. */
  predicate IsSubsequence(a: seq<Blob>, b: seq<Blob>)
    decreases |b|
  {
    a == [] || (b != [] && ((a[0] == b[0] && IsSubsequence(a[1..], b[1..])) || IsSubsequence(a, b[1..])))
  }

  lemma {:induction false} SubsequenceRefl(a: seq<Blob>)
    ensures IsSubsequence(a, a)
    decreases |a|
  {
    if a != [] {
      SubsequenceRefl(a[1..]);
    }
  }

  /** Deleting one element leaves a subsequence. */
  lemma {:induction false} SubsequenceDelete(b: seq<Blob>, i: nat)
    requires i < |b|
    ensures IsSubsequence(b[..i] + b[i + 1..], b)
    decreases i
  {
    var a := b[..i] + b[i + 1..];
    if i == 0 {
      assert a == b[1..];
      SubsequenceRefl(b[1..]);
    } else {
      assert a[0] == b[0];
      assert a[1..] == b[1..][..i - 1] + b[1..][i..];
      SubsequenceDelete(b[1..], i - 1);
    }
  }

  lemma {:induction false} SubsequenceTrans(a: seq<Blob>, b: seq<Blob>, c: seq<Blob>)
    requires IsSubsequence(a, b) && IsSubsequence(b, c)
    ensures IsSubsequence(a, c)
    decreases |c|
  {
    if a != [] {
      assert b != [] && c != [];
      if b[0] == c[0] && IsSubsequence(b[1..], c[1..]) {
        if a[0] == b[0] && IsSubsequence(a[1..], b[1..]) {
          SubsequenceTrans(a[1..], b[1..], c[1..]);
        } else {
          SubsequenceTrans(a, b[1..], c[1..]);
        }
      } else {
        SubsequenceTrans(a, b, c[1..]);
      }
    }
  }

  /** Association only deletes blobs: the leftover blobs are in the detector's order. */
  lemma {:induction false} AssociateKeepsOrder(accepts: (Point, Point) -> bool, tracks: seq<Track>, pool: seq<Blob>)
    requires AllValid(tracks)
    ensures IsSubsequence(Associate(accepts, tracks, pool).pool, pool)
    decreases |tracks|
  {
    if tracks == [] {
      SubsequenceRefl(pool);
    } else {
      var n := |tracks| - 1;
      var prev := Associate(accepts, tracks[..n], pool);
      var turn := VisitTrack(accepts, tracks[n], prev.pool);
      AssociateKeepsOrder(accepts, tracks[..n], pool);
      VisitTrackEffect(accepts, tracks[n], prev.pool);
      if turn.taken.Some? {
        var i :| 0 <= i < |prev.pool| && prev.pool[i] == turn.taken.value
          && turn.pool == prev.pool[..i] + prev.pool[i + 1..];
        SubsequenceDelete(prev.pool, i);
        SubsequenceTrans(turn.pool, prev.pool, pool);
      }
    }
  }

  lemma SnocSuffix<T>(a: seq<T>, x: T, k: nat)
    requires k <= |a|
    ensures (a + [x])[k..] == a[k..] + [x]
  {
  }

  /** Greedy, but without regret: a vehicle that took nothing finds none of the blobs
      that later vehicles took, nor any of the leftover blobs, acceptable. */
  lemma {:induction false} AssociateUnmatchedRejectsRest(accepts: (Point, Point) -> bool, tracks: seq<Track>, pool: seq<Blob>, i: nat, b: Blob)
    requires AllValid(tracks) && i < |tracks|
    requires var r := Associate(accepts, tracks, pool);
      r.taken[i].None? && b in multiset(r.pool) + Claimed(r.taken[i + 1..])
    ensures !accepts(tracks[i].Last(), b.centroid)
    decreases |tracks|
  {
    var n := |tracks| - 1;
    var prev := Associate(accepts, tracks[..n], pool);
    var turn := VisitTrack(accepts, tracks[n], prev.pool);
    var r := Associate(accepts, tracks, pool);
    assert r.taken == prev.taken + [turn.taken] && r.pool == turn.pool;
    if i < n {
      assert prev.taken[i].None? by {
        assert r.taken[i] == prev.taken[i];
      }
      assert b in multiset(prev.pool) + Claimed(prev.taken[i + 1..]) by {
        SnocSuffix(prev.taken, turn.taken, i + 1);
        ClaimedAppend(prev.taken[i + 1..], [turn.taken]);
        VisitTrackEffect(accepts, tracks[n], prev.pool);
      }
      AssociateUnmatchedRejectsRest(accepts, tracks[..n], pool, i, b);
      assert tracks[..n][i] == tracks[i];
    } else {
      assert turn.taken.None?;
      assert r.taken[i + 1..] == [];
      VisitTrackEffect(accepts, tracks[n], prev.pool);
      assert b in prev.pool;
    }
  }

  /** The first vehicle in order wins a blob that two vehicles both accept. */
  lemma GreedyFirstComeFirstServed(accepts: (Point, Point) -> bool, s: Track, t: Track, b: Blob)
    requires s.Valid() && t.Valid()
    requires accepts(s.Last(), b.centroid) && accepts(t.Last(), b.centroid)
    ensures var r := Associate(accepts, [s, t], [b]);
      && r.taken == [Some(b), None]
      && r.pool == []
      && r.tracks[0].Last() == b.centroid
      && r.tracks[1] == t.(framesSinceSeen := t.framesSinceSeen + 1)
  {
    var v := VisitTrack(accepts, s, [b]);
    assert v.taken == Some(b) && v.pool == [] && v.track.Last() == b.centroid by {
      assert FirstMatch(accepts, s.Last(), [b]) == Some(0);
    }
    var w := VisitTrack(accepts, t, []);
    assert w == Turn(t.(framesSinceSeen := t.framesSinceSeen + 1), None, []) by {
      assert FirstMatch(accepts, t.Last(), []) == None;
    }
    assert Associate(accepts, [s], [b]) == Assoc([v.track], [v.taken], v.pool) by {
      assert [s][..0] == [];
    }
    assert [s, t][..1] == [s];
  }

  // ---------------------------------------------------------------------------
  // New vehicles

  /** One new vehicle per leftover blob, in blob order, with consecutive ids from `nextId`. */
  function Spawn(pool: seq<Blob>, nextId: nat): (r: seq<Track>)
    ensures |r| == |pool|
  {
    if pool == [] then []
    else
      var n := |pool| - 1;
      Spawn(pool[..n], nextId) + [NewTrack(nextId + n, pool[n].centroid)]
  }

  /** The k-th leftover blob becomes a vehicle with id `nextId + k` whose only position
      is that blob's centroid. */
  lemma {:induction false} SpawnAt(pool: seq<Blob>, nextId: nat, k: nat)
    requires k < |pool|
    ensures Spawn(pool, nextId)[k] == NewTrack(nextId + k, pool[k].centroid)
    decreases |pool|
  {
    var n := |pool| - 1;
    if k < n {
      SpawnAt(pool[..n], nextId, k);
    }
  }

  /** Creation over a prefix one blob longer adds that blob's vehicle at the end. */
  lemma SpawnSnoc(pool: seq<Blob>, nextId: nat, m: nat)
    requires m < |pool|
    ensures Spawn(pool[..m + 1], nextId) == Spawn(pool[..m], nextId) + [NewTrack(nextId + m, pool[m].centroid)]
  {
    assert pool[..m + 1][..m] == pool[..m];
  }

  lemma SpawnValid(pool: seq<Blob>, nextId: nat)
    ensures AllValid(Spawn(pool, nextId))
  {
    forall k | 0 <= k < |pool| ensures Spawn(pool, nextId)[k].Valid() {
      SpawnAt(pool, nextId, k);
    }
  }

  // ---------------------------------------------------------------------------
  // Counting

  /** A vehicle crosses when it is not yet counted and its newest y is past the divider. */
  predicate Crosses(t: Track, divider: real)
    requires t.Valid()
  {
    !t.counted && t.Last().y as real > divider
  }

  /** The one-shot counting rule for one vehicle: it ends up counted exactly when it
      already was or its newest y is past the divider; nothing else about it changes. */
  function Cross(t: Track, divider: real): (r: Track)
    requires t.Valid()
    ensures r.Valid() && r.id == t.id && r.positions == t.positions
    ensures r.framesSinceSeen == t.framesSinceSeen
    ensures r.counted <==> t.counted || t.Last().y as real > divider
  {
    if Crosses(t, divider) then t.(counted := true) else t
  }

  /** The counting pass over all vehicles. */
  function CountAll(ts: seq<Track>, divider: real): (r: seq<Track>)
    requires AllValid(ts)
    ensures |r| == |ts|
  {
    if ts == [] then []
    else CountAll(ts[..|ts| - 1], divider) + [Cross(ts[|ts| - 1], divider)]
  }

  /** The counting pass applies the rule to each vehicle in place. */
  lemma {:induction false} CountAllAt(ts: seq<Track>, divider: real, i: nat)
    requires AllValid(ts) && i < |ts|
    ensures CountAll(ts, divider)[i] == Cross(ts[i], divider)
    decreases |ts|
  {
    var n := |ts| - 1;
    if i < n {
      CountAllAt(ts[..n], divider, i);
    }
  }

  /** The counting pass keeps every vehicle valid. */
  lemma CountAllValid(ts: seq<Track>, divider: real)
    requires AllValid(ts)
    ensures AllValid(CountAll(ts, divider))
  {
    forall i | 0 <= i < |ts| ensures CountAll(ts, divider)[i].Valid() {
      CountAllAt(ts, divider, i);
    }
  }

  /** How many vehicles cross in this pass. */
  function Crossings(ts: seq<Track>, divider: real): nat
    requires AllValid(ts)
  {
    if ts == [] then 0
    else Crossings(ts[..|ts| - 1], divider) + (if Crosses(ts[|ts| - 1], divider) then 1 else 0)
  }

  /** The ids of the vehicles the counting pass counts. */
  function CrossedIds(ts: seq<Track>, divider: real): set<nat>
    requires AllValid(ts)
  {
    if ts == [] then {}
    else
      var n := |ts| - 1;
      CrossedIds(ts[..n], divider) + if Crosses(ts[n], divider) then {ts[n].id} else {}
  }

  /** Counting over a prefix one vehicle longer applies the rule to that vehicle. */
  lemma CountAllSnoc(ts: seq<Track>, divider: real, k: nat)
    requires AllValid(ts) && k < |ts|
    ensures AllValid(ts[..k]) && AllValid(ts[..k + 1])
    ensures CountAll(ts[..k + 1], divider) == CountAll(ts[..k], divider) + [Cross(ts[k], divider)]
    ensures Crossings(ts[..k + 1], divider) == Crossings(ts[..k], divider) + if Crosses(ts[k], divider) then 1 else 0
    ensures CrossedIds(ts[..k + 1], divider) == CrossedIds(ts[..k], divider) + if Crosses(ts[k], divider) then {ts[k].id} else {}
  {
    assert ts[..k + 1][..k] == ts[..k];
  }

  /** How many vehicles carry the counted flag. */
  function NumCounted(ts: seq<Track>): nat
  {
    if ts == [] then 0
    else NumCounted(ts[..|ts| - 1]) + (if ts[|ts| - 1].counted then 1 else 0)
  }

  lemma {:induction false} NumCountedAppend(a: seq<Track>, b: seq<Track>)
    ensures NumCounted(a + b) == NumCounted(a) + NumCounted(b)
    decreases |b|
  {
    if b == [] {
      assert a + b == a;
    } else {
      var n := |b| - 1;
      assert (a + b)[..|a + b| - 1] == a + b[..n];
      NumCountedAppend(a, b[..n]);
    }
  }

  /** Two sequences with the same counted flags, position by position, count the same. */
  lemma {:induction false} NumCountedSameFlags(a: seq<Track>, b: seq<Track>)
    requires |a| == |b|
    requires forall i :: 0 <= i < |a| ==> a[i].counted == b[i].counted
    ensures NumCounted(a) == NumCounted(b)
    decreases |a|
  {
    if a != [] {
      NumCountedSameFlags(a[..|a| - 1], b[..|b| - 1]);
    }
  }

  /** The counting pass adds exactly one counted flag per crossing vehicle. */
  lemma {:induction false} CountAllTally(ts: seq<Track>, divider: real)
    requires AllValid(ts)
    ensures NumCounted(CountAll(ts, divider)) == NumCounted(ts) + Crossings(ts, divider)
    decreases |ts|
  {
    if ts != [] {
      var n := |ts| - 1;
      assert CountAll(ts, divider)[..n] == CountAll(ts[..n], divider);
      CountAllTally(ts[..n], divider);
    }
  }

  // ---------------------------------------------------------------------------
  // Removal of stale vehicles

  /** The vehicles seen within the last `limit` frames, in their original order. */
  function Prune(ts: seq<Track>, limit: nat): (r: seq<Track>)
    ensures |r| <= |ts|
    ensures AllValid(ts) ==> AllValid(r)
  {
    if ts == [] then []
    else
      var last := ts[|ts| - 1];
      Prune(ts[..|ts| - 1], limit) + (if last.framesSinceSeen < limit then [last] else [])
  }

  /** Removal over a prefix one vehicle longer keeps that vehicle exactly when it is fresh. */
  lemma PruneSnoc(ts: seq<Track>, k: nat, limit: nat)
    requires k < |ts|
    ensures Prune(ts[..k + 1], limit) == Prune(ts[..k], limit) + if ts[k].framesSinceSeen < limit then [ts[k]] else []
  {
    assert ts[..k + 1][..k] == ts[..k];
  }

  /** Removal drops exactly the vehicles that have reached the staleness limit. */
  lemma {:induction false} PruneMembers(ts: seq<Track>, limit: nat)
    ensures forall t :: t in Prune(ts, limit) <==> t in ts && t.framesSinceSeen < limit
    decreases |ts|
  {
    if ts != [] {
      var n := |ts| - 1;
      assert ts == ts[..n] + [ts[n]];
      PruneMembers(ts[..n], limit);
    }
  }

  /** Removal keeps the relative order: it distributes over concatenation. */
  lemma {:induction false} PruneAppend(a: seq<Track>, b: seq<Track>, limit: nat)
    ensures Prune(a + b, limit) == Prune(a, limit) + Prune(b, limit)
    decreases |b|
  {
    if b == [] {
      assert a + b == a;
    } else {
      var n := |b| - 1;
      assert (a + b)[..|a + b| - 1] == a + b[..n];
      PruneAppend(a, b[..n], limit);
    }
  }

  /** Removal never adds counted flags. */
  lemma {:induction false} PruneNumCounted(ts: seq<Track>, limit: nat)
    ensures NumCounted(Prune(ts, limit)) <= NumCounted(ts)
    decreases |ts|
  {
    if ts != [] {
      var n := |ts| - 1;
      var rest := Prune(ts[..n], limit);
      PruneNumCounted(ts[..n], limit);
      NumCountedAppend(rest, if ts[n].framesSinceSeen < limit then [ts[n]] else []);
    }
  }

  /** Ids in strictly increasing order. */
  predicate IdsIncreasing(ts: seq<Track>)
  {
    forall i, j :: 0 <= i < j < |ts| ==> ts[i].id < ts[j].id
  }

  /** Removal keeps ids in increasing order. */
  lemma {:induction false} PruneIdsIncreasing(ts: seq<Track>, limit: nat)
    requires IdsIncreasing(ts)
    ensures IdsIncreasing(Prune(ts, limit))
    decreases |ts|
  {
    if ts != [] {
      var n := |ts| - 1;
      var rest := Prune(ts[..n], limit);
      var extra: seq<Track> := if ts[n].framesSinceSeen < limit then [ts[n]] else [];
      assert IdsIncreasing(ts[..n]);
      PruneIdsIncreasing(ts[..n], limit);
      assert forall t :: t in rest ==> t.id < ts[n].id by {
        PruneMembers(ts[..n], limit);
        forall t | t in rest ensures t.id < ts[n].id {
          var k :| 0 <= k < n && ts[..n][k] == t;
          assert ts[k] == t;
        }
      }
      assert Prune(ts, limit) == rest + extra;
      forall i, j | 0 <= i < j < |rest + extra|
        ensures (rest + extra)[i].id < (rest + extra)[j].id
      {
        if j >= |rest| {
          assert rest[i] in rest;
        }
      }
    }
  }

  // ---------------------------------------------------------------------------
  // The whole frame

  /** The counter's invariant between frames: every vehicle has a position, ids are
      increasing along the list and below the next id, no vehicle has reached the
      staleness limit, and the running count is at least the number of vehicles
      still carrying the counted flag. */
  predicate Inv(c: Counter, limit: nat)
  {
    && AllValid(c.tracks)
    && IdsIncreasing(c.tracks)
    && (forall i :: 0 <= i < |c.tracks| ==> c.tracks[i].id < c.nextId)
    && (forall i :: 0 <= i < |c.tracks| ==> c.tracks[i].framesSinceSeen < limit)
    && NumCounted(c.tracks) <= c.count
  }

  /** The vehicles after association and creation, before counting and removal. */
  function Gathered(c: Counter, blobs: seq<Blob>, accepts: (Point, Point) -> bool): (r: seq<Track>)
    requires AllValid(c.tracks)
    ensures AllValid(r)
  {
    var a := Associate(accepts, c.tracks, blobs);
    SpawnValid(a.pool, c.nextId);
    a.tracks + Spawn(a.pool, c.nextId)
  }

  /** One frame: associate, create, count, remove. */
  function Step(c: Counter, blobs: seq<Blob>, accepts: (Point, Point) -> bool, divider: real, limit: nat): Counter
    requires AllValid(c.tracks)
  {
    var a := Associate(accepts, c.tracks, blobs);
    var all := Gathered(c, blobs, accepts);
    Counter(Prune(CountAll(all, divider), limit), c.nextId + |a.pool|, c.count + Crossings(all, divider))
  }

  /** After association and creation the old vehicles keep their ids and counted
      flags in place, the new ones follow with ids from `nextId` on, and ids are
      still increasing. */
  lemma GatheredIds(c: Counter, blobs: seq<Blob>, accepts: (Point, Point) -> bool)
    requires AllValid(c.tracks) && IdsIncreasing(c.tracks)
    requires forall i :: 0 <= i < |c.tracks| ==> c.tracks[i].id < c.nextId
    ensures var a := Associate(accepts, c.tracks, blobs);
      var all := Gathered(c, blobs, accepts);
      && |all| == |c.tracks| + |a.pool|
      && IdsIncreasing(all)
      && (forall i :: 0 <= i < |c.tracks| ==> all[i].id == c.tracks[i].id && all[i].counted == c.tracks[i].counted)
      && (forall i :: |c.tracks| <= i < |all| ==> all[i].id == c.nextId + (i - |c.tracks|) && !all[i].counted)
  {
    var a := Associate(accepts, c.tracks, blobs);
    var spawned := Spawn(a.pool, c.nextId);
    var all := a.tracks + spawned;
    assert all == Gathered(c, blobs, accepts);
    forall i | 0 <= i < |c.tracks|
      ensures all[i].id == c.tracks[i].id && all[i].counted == c.tracks[i].counted
    {
      AssociateAt(accepts, c.tracks, blobs, i);
      assert all[i] == a.tracks[i];
    }
    forall i | |c.tracks| <= i < |all|
      ensures all[i].id == c.nextId + (i - |c.tracks|) && !all[i].counted
    {
      var k := i - |c.tracks|;
      SpawnAt(a.pool, c.nextId, k);
      assert all[i] == spawned[k];
    }
    forall i, j | 0 <= i < j < |all| ensures all[i].id < all[j].id {
      if j < |c.tracks| {
        assert all[i].id == c.tracks[i].id && all[j].id == c.tracks[j].id;
      } else if i < |c.tracks| {
        assert all[i].id == c.tracks[i].id;
      }
    }
  }

  /** Association and creation leave the number of counted flags unchanged. */
  lemma GatheredNumCounted(c: Counter, blobs: seq<Blob>, accepts: (Point, Point) -> bool)
    requires AllValid(c.tracks)
    ensures NumCounted(Gathered(c, blobs, accepts)) == NumCounted(c.tracks)
  {
    var a := Associate(accepts, c.tracks, blobs);
    var spawned := Spawn(a.pool, c.nextId);
    AssociateEffect(accepts, c.tracks, blobs);
    NumCountedAppend(a.tracks, spawned);
    NumCountedSameFlags(a.tracks, c.tracks);
    SpawnNumCounted(a.pool, c.nextId);
  }

  /** New vehicles start uncounted. */
  lemma {:induction false} SpawnNumCounted(pool: seq<Blob>, nextId: nat)
    ensures NumCounted(Spawn(pool, nextId)) == 0
    decreases |pool|
  {
    if pool != [] {
      var n := |pool| - 1;
      assert Spawn(pool, nextId)[..n] == Spawn(pool[..n], nextId);
      SpawnNumCounted(pool[..n], nextId);
    }
  }

  /** The counting pass keeps ids in increasing order. */
  lemma CountAllIdsIncreasing(ts: seq<Track>, divider: real)
    requires AllValid(ts) && IdsIncreasing(ts)
    ensures IdsIncreasing(CountAll(ts, divider))
  {
    forall i, j | 0 <= i < j < |ts| ensures CountAll(ts, divider)[i].id < CountAll(ts, divider)[j].id {
      CountAllAt(ts, divider, i);
      CountAllAt(ts, divider, j);
    }
  }

  /** A frame keeps the invariant, never lowers the count and advances the next id by
      exactly the number of blobs that started a new vehicle. */
  lemma StepKeepsInv(c: Counter, blobs: seq<Blob>, accepts: (Point, Point) -> bool, divider: real, limit: nat)
    requires Inv(c, limit)
    ensures var r := Step(c, blobs, accepts, divider, limit);
      && Inv(r, limit)
      && r.count >= c.count
      && r.nextId == c.nextId + |Associate(accepts, c.tracks, blobs).pool|
  {
    var all := Gathered(c, blobs, accepts);
    var counted := CountAll(all, divider);
    var r := Step(c, blobs, accepts, divider, limit);
    assert r.tracks == Prune(counted, limit);
    GatheredIds(c, blobs, accepts);
    CountAllIdsIncreasing(all, divider);
    PruneIdsIncreasing(counted, limit);
    PruneMembers(counted, limit);
    forall i | 0 <= i < |r.tracks|
      ensures r.tracks[i].id < r.nextId && r.tracks[i].Valid() && r.tracks[i].framesSinceSeen < limit
    {
      assert r.tracks[i] in counted;
      var k :| 0 <= k < |counted| && counted[k] == r.tracks[i];
      CountAllAt(all, divider, k);
    }
    GatheredNumCounted(c, blobs, accepts);
    CountAllTally(all, divider);
    PruneNumCounted(counted, limit);
  }

  /** The count rises by exactly the number of counted flags the frame's counting
      pass sets. */
  lemma StepCountRise(c: Counter, blobs: seq<Blob>, accepts: (Point, Point) -> bool, divider: real, limit: nat)
    requires AllValid(c.tracks)
    ensures var r := Step(c, blobs, accepts, divider, limit);
      var all := Gathered(c, blobs, accepts);
      r.count - c.count == NumCounted(CountAll(all, divider)) - NumCounted(c.tracks)
  {
    var all := Gathered(c, blobs, accepts);
    GatheredNumCounted(c, blobs, accepts);
    CountAllTally(all, divider);
  }

  /** The count is the number of distinct vehicles ever counted, whose ids are `ids`:
      a tracked vehicle carries the counted flag exactly when its id is in `ids`, and
      every id in `ids` has been handed out already. */
  predicate CountsIds(c: Counter, ids: set<nat>)
  {
    && c.count == |ids|
    && (forall t :: t in c.tracks ==> (t.counted <==> t.id in ids))
    && (forall id :: id in ids ==> id < c.nextId)
  }

  /** An id is counted in the pass exactly when it belongs to a crossing vehicle. */
  lemma {:induction false} CrossedIdsMembers(ts: seq<Track>, divider: real)
    requires AllValid(ts)
    ensures forall i :: 0 <= i < |ts| && Crosses(ts[i], divider) ==> ts[i].id in CrossedIds(ts, divider)
    ensures forall id :: id in CrossedIds(ts, divider) ==>
      exists i :: 0 <= i < |ts| && Crosses(ts[i], divider) && ts[i].id == id
    decreases |ts|
  {
    if ts != [] {
      var n := |ts| - 1;
      var prefix := ts[..n];
      assert AllValid(prefix);
      CrossedIdsMembers(prefix, divider);
      forall i | 0 <= i < |ts| && Crosses(ts[i], divider) ensures ts[i].id in CrossedIds(ts, divider) {
        if i < n {
          assert prefix[i] == ts[i];
        }
      }
      forall id | id in CrossedIds(ts, divider)
        ensures exists i :: 0 <= i < |ts| && Crosses(ts[i], divider) && ts[i].id == id
      {
        if id in CrossedIds(prefix, divider) {
          var i :| 0 <= i < n && Crosses(prefix[i], divider) && prefix[i].id == id;
          assert ts[i] == prefix[i];
        } else {
          assert Crosses(ts[n], divider) && ts[n].id == id;
        }
      }
    }
  }

  /** With distinct ids, the counting pass counts as many ids as it has crossings. */
  lemma {:induction false} CrossedIdsCard(ts: seq<Track>, divider: real)
    requires AllValid(ts) && IdsIncreasing(ts)
    ensures |CrossedIds(ts, divider)| == Crossings(ts, divider)
    decreases |ts|
  {
    if ts != [] {
      var n := |ts| - 1;
      var prefix := ts[..n];
      assert AllValid(prefix) && IdsIncreasing(prefix);
      CrossedIdsCard(prefix, divider);
      var extra: set<nat> := if Crosses(ts[n], divider) then {ts[n].id} else {};
      assert CrossedIds(ts, divider) == CrossedIds(prefix, divider) + extra;
      assert Crossings(ts, divider) == Crossings(prefix, divider) + |extra|;
      assert CrossedIds(prefix, divider) !! extra by {
        assert forall i :: 0 <= i < |prefix| ==> prefix[i].id < ts[n].id;
        CrossedIdsBelow(prefix, divider, ts[n].id);
      }
    }
  }

  /** The pass counts only ids of the vehicles it is given. */
  lemma CrossedIdsBelow(ts: seq<Track>, divider: real, bound: nat)
    requires AllValid(ts) && forall i :: 0 <= i < |ts| ==> ts[i].id < bound
    ensures forall id :: id in CrossedIds(ts, divider) ==> id < bound
  {
    CrossedIdsMembers(ts, divider);
  }

  /** Over any number of frames the count is exactly the number of distinct vehicles
      ever counted: a frame adds the ids of its crossing vehicles, none of which was
      counted before, and removing a vehicle later changes neither the count nor the set. */
  lemma StepCountsIds(c: Counter, blobs: seq<Blob>, accepts: (Point, Point) -> bool, divider: real, limit: nat,
                      ids: set<nat>)
    requires Inv(c, limit) && CountsIds(c, ids)
    ensures var crossed := CrossedIds(Gathered(c, blobs, accepts), divider);
      && ids !! crossed
      && CountsIds(Step(c, blobs, accepts, divider, limit), ids + crossed)
  {
    var all := Gathered(c, blobs, accepts);
    var crossed := CrossedIds(all, divider);
    var r := Step(c, blobs, accepts, divider, limit);
    GatheredIds(c, blobs, accepts);
    GatheredFlags(c, blobs, accepts, ids);
    assert ids !! crossed by {
      CrossedIdsMembers(all, divider);
      forall id | id in crossed ensures id !in ids {
        var k :| 0 <= k < |all| && Crosses(all[k], divider) && all[k].id == id;
      }
    }
    assert r.count == |ids + crossed| by {
      CrossedIdsCard(all, divider);
    }
    assert forall u :: u in r.tracks ==> (u.counted <==> u.id in ids + crossed) by {
      var counted := CountAll(all, divider);
      assert r.tracks == Prune(counted, limit);
      PruneMembers(counted, limit);
      CountAllFlags(all, divider, ids);
    }
    assert forall id :: id in ids + crossed ==> id < r.nextId by {
      CrossedIdsBelow(all, divider, r.nextId);
    }
  }

  /** If the flags before the counting pass mark exactly the ids in `ids`, the flags
      after it mark exactly those ids and the ids it counts. */
  lemma CountAllFlags(all: seq<Track>, divider: real, ids: set<nat>)
    requires AllValid(all) && IdsIncreasing(all)
    requires forall k :: 0 <= k < |all| ==> (all[k].counted <==> all[k].id in ids)
    ensures forall u :: u in CountAll(all, divider) ==> (u.counted <==> u.id in ids + CrossedIds(all, divider))
  {
    var counted := CountAll(all, divider);
    var crossed := CrossedIds(all, divider);
    CrossedIdsMembers(all, divider);
    forall u | u in counted ensures u.counted <==> u.id in ids + crossed {
      var k :| 0 <= k < |counted| && counted[k] == u;
      CountAllAt(all, divider, k);
      assert u.id in crossed <==> Crosses(all[k], divider) by {
        if u.id in crossed {
          var j :| 0 <= j < |all| && Crosses(all[j], divider) && all[j].id == u.id;
          IdsDistinct(all, j, k);
        }
      }
    }
  }

  /** After association and creation a vehicle carries the counted flag exactly when
      its id is among those counted before the frame. */
  lemma GatheredFlags(c: Counter, blobs: seq<Blob>, accepts: (Point, Point) -> bool, ids: set<nat>)
    requires AllValid(c.tracks) && IdsIncreasing(c.tracks)
    requires forall i :: 0 <= i < |c.tracks| ==> c.tracks[i].id < c.nextId
    requires CountsIds(c, ids)
    ensures var all := Gathered(c, blobs, accepts);
      forall k :: 0 <= k < |all| ==> (all[k].counted <==> all[k].id in ids)
  {
    var all := Gathered(c, blobs, accepts);
    GatheredIds(c, blobs, accepts);
    forall k | 0 <= k < |all| ensures all[k].counted <==> all[k].id in ids {
      if k < |c.tracks| {
        assert c.tracks[k] in c.tracks;
      }
    }
  }

  /** Counting is permanent: a vehicle that was counted before a frame and survives
      it is still counted afterwards. */
  lemma StepKeepsCounted(c: Counter, blobs: seq<Blob>, accepts: (Point, Point) -> bool, divider: real, limit: nat,
                         t: Track, u: Track)
    requires Inv(c, limit)
    requires t in c.tracks && t.counted
    requires u in Step(c, blobs, accepts, divider, limit).tracks && u.id == t.id
    ensures u.counted
  {
    var all := Gathered(c, blobs, accepts);
    var counted := CountAll(all, divider);
    assert u in counted by {
      assert Step(c, blobs, accepts, divider, limit).tracks == Prune(counted, limit);
      PruneMembers(counted, limit);
    }
    var k :| 0 <= k < |counted| && counted[k] == u;
    CountAllAt(all, divider, k);
    assert all[k].id == t.id;
    assert all[k].counted by {
      var i :| 0 <= i < |c.tracks| && c.tracks[i] == t;
      GatheredIds(c, blobs, accepts);
      assert all[i].id == t.id;
      IdsDistinct(all, i, k);
    }
  }

  /** In a list with increasing ids, an id names one position only. */
  lemma IdsDistinct(ts: seq<Track>, i: nat, k: nat)
    requires IdsIncreasing(ts) && i < |ts| && k < |ts|
    requires ts[i].id == ts[k].id
    ensures i == k
  {
  }

  /** After a frame every vehicle whose newest position is past the divider is counted. */
  lemma StepCountsCrossers(c: Counter, blobs: seq<Blob>, accepts: (Point, Point) -> bool, divider: real, limit: nat,
                           u: Track)
    requires AllValid(c.tracks)
    requires u in Step(c, blobs, accepts, divider, limit).tracks
    ensures u.Valid()
    ensures u.Last().y as real > divider ==> u.counted
  {
    var all := Gathered(c, blobs, accepts);
    var counted := CountAll(all, divider);
    assert Step(c, blobs, accepts, divider, limit).tracks == Prune(counted, limit);
    PruneMembers(counted, limit);
    assert u in counted;
    var k :| 0 <= k < |counted| && counted[k] == u;
    CountAllAt(all, divider, k);
  }

  /** Every leftover blob starts exactly one vehicle: the k-th leftover blob becomes
      the k-th of the vehicles at the end of the list, with id `nextId + k`, that blob's
      centroid as its only position, and counted at once exactly when that centroid
      is already past the divider. */
  lemma StepSpawnsLeftovers(c: Counter, blobs: seq<Blob>, accepts: (Point, Point) -> bool, divider: real, limit: nat,
                            k: nat)
    requires AllValid(c.tracks) && limit > 0
    requires k < |Associate(accepts, c.tracks, blobs).pool|
    ensures var r := Step(c, blobs, accepts, divider, limit);
      var left := Associate(accepts, c.tracks, blobs).pool;
      && |left| <= |r.tracks|
      && var u := r.tracks[|r.tracks| - |left| + k];
        && u.id == c.nextId + k
        && u.positions == [left[k].centroid]
        && u.framesSinceSeen == 0
        && (u.counted <==> left[k].centroid.y as real > divider)
  {
    var a := Associate(accepts, c.tracks, blobs);
    StepKeepsNewcomers(c, blobs, accepts, divider, limit);
    CountedSpawnAt(a.tracks, a.pool, c.nextId, divider, k);
  }

  /** After counting, the k-th vehicle created from `pool` is that blob's new vehicle
      with the counting rule applied. */
  lemma CountedSpawnAt(tracks: seq<Track>, pool: seq<Blob>, nextId: nat, divider: real, k: nat)
    requires AllValid(tracks) && AllValid(tracks + Spawn(pool, nextId)) && k < |pool|
    ensures CountAll(tracks + Spawn(pool, nextId), divider)[|tracks| + k]
      == Cross(NewTrack(nextId + k, pool[k].centroid), divider)
  {
    var all := tracks + Spawn(pool, nextId);
    CountAllAt(all, divider, |tracks| + k);
    SpawnAt(pool, nextId, k);
  }

  /** Vehicles created in a frame are never removed in that same frame. */
  lemma StepKeepsNewcomers(c: Counter, blobs: seq<Blob>, accepts: (Point, Point) -> bool, divider: real, limit: nat)
    requires AllValid(c.tracks) && limit > 0
    ensures var counted := CountAll(Gathered(c, blobs, accepts), divider);
      Step(c, blobs, accepts, divider, limit).tracks == Prune(counted[..|c.tracks|], limit) + counted[|c.tracks|..]
  {
    var a := Associate(accepts, c.tracks, blobs);
    var all := Gathered(c, blobs, accepts);
    var counted := CountAll(all, divider);
    var n := |c.tracks|;
    var newcomers := counted[n..];
    assert counted == counted[..n] + newcomers;
    PruneAppend(counted[..n], newcomers, limit);
    forall j | 0 <= j < |newcomers| ensures newcomers[j].framesSinceSeen < limit {
      assert newcomers[j] == counted[|a.tracks| + j];
      CountedSpawnAt(a.tracks, a.pool, c.nextId, divider, j);
    }
    PruneKeepsFresh(newcomers, limit);
  }

  /** Removal keeps a sequence of vehicles none of which is stale. */
  lemma {:induction false} PruneKeepsFresh(ts: seq<Track>, limit: nat)
    requires forall i :: 0 <= i < |ts| ==> ts[i].framesSinceSeen < limit
    ensures Prune(ts, limit) == ts
    decreases |ts|
  {
    if ts != [] {
      PruneKeepsFresh(ts[..|ts| - 1], limit);
    }
  }
}
