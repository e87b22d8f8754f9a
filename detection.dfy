/** The tracker as the program runs it: vehicles are objects updated in place, and the
    counter keeps a list of them together with the next id and the running count.

    Each method of VehicleCounter is proved to do to the objects exactly what the
    value-level definitions in module Tracking describe, so the properties proved
    there (first-match association, one vehicle per leftover blob, one-shot counting,
    removal of stale vehicles) hold of the objects too. */
module Detection {
  import opened Geometry
  import opened Tracking

  /** One tracked vehicle. */
  class Vehicle {
    const id: nat
    var positions: seq<Point>
    var framesSinceSeen: nat
    var counted: bool

    /** The vehicle's state as a value. */
    ghost function Value(): Track
      reads this
    {
      Track(id, positions, framesSinceSeen, counted)
    }

    /** A vehicle starts with exactly one position, unseen for no frames and not counted. */
    constructor(id: nat, position: Point)
      ensures Value() == NewTrack(id, position)
    {
      this.id := id;
      positions := [position];
      framesSinceSeen := 0;
      counted := false;
    }

    /** The newest position. */
    function LastPosition(): (p: Point)
      reads this
      requires |positions| > 0
      ensures p == Value().Last()
    {
      positions[|positions| - 1]
    }

    /** Record a new position: it becomes the newest one and the vehicle counts as
        just seen; the id and the counted flag stay. */
    method AddPosition(p: Point)
      modifies this
      ensures positions == old(positions) + [p]
      ensures LastPosition() == p
      ensures framesSinceSeen == 0
      ensures counted == old(counted)
    {
      positions := positions + [p];
      framesSinceSeen := 0;
    }
  }

  /** The states of a list of vehicles, in order. */
  ghost function ValuesOf(vs: seq<Vehicle>): (r: seq<Track>)
    reads vs
    ensures |r| == |vs|
  {
    if vs == [] then [] else ValuesOf(vs[..|vs| - 1]) + [vs[|vs| - 1].Value()]
  }

  lemma ValuesOfAt(vs: seq<Vehicle>)
    ensures forall i :: 0 <= i < |vs| ==> ValuesOf(vs)[i] == vs[i].Value()
  {
  }

  lemma ValuesOfSnoc(vs: seq<Vehicle>, v: Vehicle)
    ensures ValuesOf(vs + [v]) == ValuesOf(vs) + [v.Value()]
  {
    assert (vs + [v])[..|vs|] == vs;
  }

  /** A list of vehicles whose states are, one by one, the given values. */
  lemma ValuesOfEq(vs: seq<Vehicle>, ts: seq<Track>)
    requires |vs| == |ts| && forall i :: 0 <= i < |vs| ==> vs[i].Value() == ts[i]
    ensures ValuesOf(vs) == ts
  {
    ValuesOfAt(vs);
  }

  /** Replacing the first element after a prefix. */
  lemma ReplaceFront<T>(a: seq<T>, b: seq<T>, x: T)
    requires |b| > 0
    ensures (a + b)[|a| := x] == a + [x] + b[1..]
  {
  }

  /** No vehicle object occurs twice. */
  ghost predicate Distinct(vs: seq<Vehicle>)
  {
    forall i, j :: 0 <= i < j < |vs| ==> vs[i] != vs[j]
  }

  /** Vehicles with increasing ids are distinct objects. */
  lemma DistinctByIds(vs: seq<Vehicle>)
    requires IdsIncreasing(ValuesOf(vs))
    ensures Distinct(vs)
  {
    ValuesOfAt(vs);
    forall i, j | 0 <= i < j < |vs| ensures vs[i] != vs[j] {
      assert vs[i].id == ValuesOf(vs)[i].id < ValuesOf(vs)[j].id == vs[j].id;
    }
  }

  /** The counter of vehicles passing a horizontal line of the frame. */
  class VehicleCounter {
    const height: int
    const width: int
    /** The y coordinate of the counting line. */
    const divider: real
    /** The square root and the arc tangent in degrees the geometry is computed with. */
    const sqrt: real -> real
    const atanDeg: real -> real
    /** A vehicle unseen for this many frames is removed. */
    const maxUnseenFrames: nat

    var vehicles: seq<Vehicle>
    var nextVehicleId: nat
    var vehicleCount: nat
    /** Every vehicle object the counter has created, tracked ones among them. */
    ghost var Repr: set<object>
    /** The ids of every vehicle counted so far, tracked or already removed. */
    ghost var countedIds: set<nat>

    /** The acceptance test the tracker applies to (last position, candidate centroid). */
    function Acceptor(): (Point, Point) -> bool
    {
      (a, b) => Accepts(a, b, sqrt, atanDeg)
    }

    /** The counter's state as a value. */
    ghost function Value(): Counter
      reads this, vehicles
    {
      Counter(ValuesOf(vehicles), nextVehicleId, vehicleCount)
    }

    /** The tracked vehicles are the counter's own objects. */
    ghost predicate Owned()
      reads this
    {
      this !in Repr && forall v :: v in vehicles ==> v in Repr
    }

    ghost predicate Valid()
      reads this, vehicles
    {
      Owned() && Inv(Value(), maxUnseenFrames) && CountsIds(Value(), countedIds)
    }

    /** A new counter for frames of the given (height, width), counting at `divider`:
        no vehicles, ids from 0, count 0, and vehicles dropped after 7 unseen frames. */
    constructor(shape: (int, int), divider: real, sqrt: real -> real, atanDeg: real -> real)
      ensures Valid()
      ensures height == shape.0 && width == shape.1 && this.divider == divider
      ensures this.sqrt == sqrt && this.atanDeg == atanDeg
      ensures maxUnseenFrames == 7
      ensures Value() == Counter([], 0, 0) && countedIds == {}
    {
      height, width := shape.0, shape.1;
      this.divider := divider;
      this.sqrt, this.atanDeg := sqrt, atanDeg;
      vehicles := [];
      nextVehicleId := 0;
      vehicleCount := 0;
      maxUnseenFrames := 7;
      Repr := {};
      countedIds := {};
    }

    /** Offer the blobs to one vehicle in order.  The first blob whose centroid passes
        the distance-and-angle test is taken: its index is returned and its centroid
        becomes the vehicle's newest position.  If none passes, nothing is returned
        and the vehicle has been unseen for one more frame. */
    method UpdateVehicle(vehicle: Vehicle, matches: seq<Blob>) returns (i: Option<nat>)
      requires |vehicle.positions| > 0
      modifies vehicle
      ensures i == FirstMatch(Acceptor(), old(vehicle.Value()).Last(), matches)
      ensures vehicle.Value() == VisitTrack(Acceptor(), old(vehicle.Value()), matches).track
    {
      var k := 0;
      while k < |matches|
        invariant k <= |matches|
        invariant unchanged(vehicle)
        invariant forall j :: 0 <= j < k ==> !Accepts(vehicle.LastPosition(), matches[j].centroid, sqrt, atanDeg)
      {
        var centroid := matches[k].centroid;
        var vector := GetVector(vehicle.LastPosition(), centroid, sqrt, atanDeg);
        if IsValidVector(vector) {
          FirstMatchIs(Acceptor(), vehicle.LastPosition(), matches, k);
          vehicle.AddPosition(centroid);
          return Some(k);
        }
        k := k + 1;
      }
      FirstMatchIs(Acceptor(), vehicle.LastPosition(), matches, -1);
      vehicle.framesSinceSeen := vehicle.framesSinceSeen + 1;
      return None;
    }

    /** Process one frame's blobs: every vehicle, first to last, takes its first
        acceptable blob out of the list; each blob left starts a new vehicle with the
        next id; every uncounted vehicle whose newest y is past the divider is counted;
        vehicles unseen for `maxUnseenFrames` frames are dropped.  The blobs left after
        association (the list the caller sees shrink) are returned. */
    method UpdateCount(matches: seq<Blob>) returns (leftover: seq<Blob>)
      requires Valid()
      modifies this, Repr
      ensures Valid() && fresh(Repr - old(Repr))
      ensures Value() == Step(old(Value()), matches, Acceptor(), divider, maxUnseenFrames)
      ensures leftover == Associate(Acceptor(), old(Value()).tracks, matches).pool
      ensures var crossed := CrossedIds(Gathered(old(Value()), matches, Acceptor()), divider);
        old(countedIds) !! crossed && countedIds == old(countedIds) + crossed
      ensures vehicleCount == |countedIds|
    {
      ghost var c := Value();
      ghost var all := Gathered(c, matches, Acceptor());
      DistinctByIds(vehicles);
      leftover := UpdateVehicles(matches);
      AddVehicles(leftover);
      assert ValuesOf(vehicles) == all;
      GatheredIds(c, matches, Acceptor());
      assert AllValid(ValuesOf(vehicles)) && IdsIncreasing(ValuesOf(vehicles));
      DistinctByIds(vehicles);
      CountVehicles();
      ghost var counted := ValuesOf(vehicles);
      assert counted == CountAll(all, divider);
      RemoveStale();
      assert ValuesOf(vehicles) == Prune(counted, maxUnseenFrames);
      ghost var r := Step(c, matches, Acceptor(), divider, maxUnseenFrames);
      assert r.tracks == ValuesOf(vehicles);
      assert r.nextId == nextVehicleId;
      assert r.count == vehicleCount;
      assert Value() == r;
      StepKeepsInv(c, matches, Acceptor(), divider, maxUnseenFrames);
      StepCountsIds(c, matches, Acceptor(), divider, maxUnseenFrames, old(countedIds));
    }

    /** The association pass: every vehicle in turn takes its first acceptable blob,
        which leaves the list; the blobs nobody took are returned. */
    method UpdateVehicles(matches: seq<Blob>) returns (leftover: seq<Blob>)
      requires Owned() && Distinct(vehicles) && AllValid(ValuesOf(vehicles))
      modifies Repr
      ensures ValuesOf(vehicles) == Associate(Acceptor(), old(ValuesOf(vehicles)), matches).tracks
      ensures leftover == Associate(Acceptor(), old(ValuesOf(vehicles)), matches).pool
    {
      ghost var ts := ValuesOf(vehicles);
      ghost var acc := Acceptor();
      ghost var done := Associate(acc, ts[..0], matches);
      leftover := matches;
      var k := 0;
      while k < |vehicles|
        invariant k <= |vehicles| == |ts|
        invariant AllValid(ts[..k])
        invariant done == Associate(acc, ts[..k], matches) && leftover == done.pool
        invariant ValuesOf(vehicles) == done.tracks + ts[k..]
      {
        AssociateSnoc(acc, ts, matches, k);
        ghost var turn := VisitTrack(acc, ts[k], leftover);
        assert ValuesOf(vehicles)[k] == ts[k];
        assert vehicles[k] in vehicles;
        leftover := UpdateAndTake(k, leftover);
        ReplaceFront(done.tracks, ts[k..], turn.track);
        assert ts[k..][1..] == ts[k + 1..];
        done := Associate(acc, ts[..k + 1], matches);
        k := k + 1;
      }
      assert ts[..k] == ts;
    }

    /** One step of the association pass: vehicle `k` takes its first acceptable blob,
        which is deleted from the list; the rest of the list is returned. */
    method UpdateAndTake(k: nat, matches: seq<Blob>) returns (rest: seq<Blob>)
      requires k < |vehicles| && Distinct(vehicles) && ValuesOf(vehicles)[k].Valid()
      modifies vehicles[k]
      ensures ValuesOf(vehicles) == old(ValuesOf(vehicles))[k := VisitTrack(Acceptor(), old(ValuesOf(vehicles))[k], matches).track]
      ensures rest == VisitTrack(Acceptor(), old(ValuesOf(vehicles))[k], matches).pool
    {
      ghost var ts := ValuesOf(vehicles);
      ValuesOfAt(vehicles);
      var i := UpdateVehicle(vehicles[k], matches);
      rest := matches;
      if i.Some? {
        rest := rest[..i.value] + rest[i.value + 1..];
      }
      ValuesOfEq(vehicles, ts[k := VisitTrack(Acceptor(), ts[k], matches).track]);
    }

    /** The creation pass: one new vehicle per blob, in order, with consecutive ids. */
    method AddVehicles(blobs: seq<Blob>)
      requires Owned()
      modifies this`vehicles, this`nextVehicleId, this`Repr
      ensures Owned() && fresh(Repr - old(Repr))
      ensures nextVehicleId == old(nextVehicleId) + |blobs|
      ensures ValuesOf(vehicles) == old(ValuesOf(vehicles)) + Spawn(blobs, old(nextVehicleId))
    {
      ghost var ts := ValuesOf(vehicles);
      var m := 0;
      while m < |blobs|
        invariant m <= |blobs|
        invariant nextVehicleId == old(nextVehicleId) + m
        invariant Owned() && fresh(Repr - old(Repr))
        invariant ValuesOf(vehicles) == ts + Spawn(blobs[..m], old(nextVehicleId))
      {
        ghost var spawned := Spawn(blobs[..m], old(nextVehicleId));
        ghost var newcomer := NewTrack(old(nextVehicleId) + m, blobs[m].centroid);
        SpawnSnoc(blobs, old(nextVehicleId), m);
        assert ts + (spawned + [newcomer]) == (ts + spawned) + [newcomer];
        AddVehicle(blobs[m].centroid);
        m := m + 1;
      }
      assert blobs[..m] == blobs;
    }

    /** One step of the creation pass: a new vehicle at `centroid` with the next id is
        appended, and the next id moves on by one. */
    method AddVehicle(centroid: Point)
      requires Owned()
      modifies this`vehicles, this`nextVehicleId, this`Repr
      ensures Owned() && fresh(Repr - old(Repr))
      ensures nextVehicleId == old(nextVehicleId) + 1
      ensures ValuesOf(vehicles) == old(ValuesOf(vehicles)) + [NewTrack(old(nextVehicleId), centroid)]
    {
      ghost var before := vehicles;
      var vehicle := new Vehicle(nextVehicleId, centroid);
      nextVehicleId := nextVehicleId + 1;
      vehicles := vehicles + [vehicle];
      Repr := Repr + {vehicle};
      ValuesOfSnoc(before, vehicle);
    }

    /** The counting pass: every uncounted vehicle whose newest y is past the divider
        is marked counted and adds one to the count. */
    method CountVehicles()
      requires Owned() && Distinct(vehicles) && AllValid(ValuesOf(vehicles))
      modifies this`vehicleCount, this`countedIds, Repr
      ensures ValuesOf(vehicles) == CountAll(old(ValuesOf(vehicles)), divider)
      ensures vehicleCount == old(vehicleCount) + Crossings(old(ValuesOf(vehicles)), divider)
      ensures countedIds == old(countedIds) + CrossedIds(old(ValuesOf(vehicles)), divider)
    {
      ghost var ts := ValuesOf(vehicles);
      var k := 0;
      while k < |vehicles|
        invariant k <= |vehicles| == |ts|
        invariant AllValid(ts[..k])
        invariant ValuesOf(vehicles) == CountAll(ts[..k], divider) + ts[k..]
        invariant vehicleCount == old(vehicleCount) + Crossings(ts[..k], divider)
        invariant countedIds == old(countedIds) + CrossedIds(ts[..k], divider)
      {
        CountAllSnoc(ts, divider, k);
        assert ValuesOf(vehicles)[k] == ts[k];
        assert vehicles[k] in vehicles;
        ghost var tally: set<nat> := if Crosses(ts[k], divider) then {ts[k].id} else {};
        assert old(countedIds) + CrossedIds(ts[..k + 1], divider) == countedIds + tally;
        CountIfPast(k);
        ReplaceFront(CountAll(ts[..k], divider), ts[k..], Cross(ts[k], divider));
        assert ts[k..][1..] == ts[k + 1..];
        k := k + 1;
      }
      assert ts[..k] == ts;
    }

    /** One step of the counting pass: vehicle `k`, if uncounted and with its newest y
        past the divider, is marked counted and adds one to the count. */
    method CountIfPast(k: nat)
      requires k < |vehicles| && Distinct(vehicles) && ValuesOf(vehicles)[k].Valid()
      modifies this`vehicleCount, this`countedIds, vehicles[k]
      ensures ValuesOf(vehicles) == old(ValuesOf(vehicles))[k := Cross(old(ValuesOf(vehicles))[k], divider)]
      ensures vehicleCount == old(vehicleCount) + if Crosses(old(ValuesOf(vehicles))[k], divider) then 1 else 0
      ensures countedIds == old(countedIds) + if Crosses(old(ValuesOf(vehicles))[k], divider) then {old(ValuesOf(vehicles))[k].id} else {}
    {
      ghost var ts := ValuesOf(vehicles);
      ValuesOfAt(vehicles);
      var vehicle := vehicles[k];
      if !vehicle.counted && vehicle.LastPosition().y as real > divider {
        vehicleCount := vehicleCount + 1;
        vehicle.counted := true;
        countedIds := countedIds + {vehicle.id};
      }
      ValuesOfEq(vehicles, ts[k := Cross(ts[k], divider)]);
    }

    /** The removal pass: the vehicles unseen for `maxUnseenFrames` frames or more are
        dropped, the others stay in order. */
    method RemoveStale()
      requires Owned()
      modifies this`vehicles
      ensures Owned()
      ensures ValuesOf(vehicles) == Prune(old(ValuesOf(vehicles)), maxUnseenFrames)
    {
      var kept := KeptVehicles();
      vehicles := kept;
    }

    /** The removal pass's list: the tracked vehicles unseen for fewer than
        `maxUnseenFrames` frames, in order. */
    method KeptVehicles() returns (kept: seq<Vehicle>)
      ensures ValuesOf(kept) == Prune(ValuesOf(vehicles), maxUnseenFrames)
      ensures forall v :: v in kept ==> v in vehicles
    {
      ghost var ts := ValuesOf(vehicles);
      ValuesOfAt(vehicles);
      kept := [];
      var k := 0;
      while k < |vehicles|
        invariant k <= |vehicles|
        invariant ValuesOf(kept) == Prune(ts[..k], maxUnseenFrames)
        invariant forall v :: v in kept ==> v in vehicles
      {
        PruneSnoc(ts, k, maxUnseenFrames);
        if !(vehicles[k].framesSinceSeen >= maxUnseenFrames) {
          ValuesOfSnoc(kept, vehicles[k]);
          kept := kept + [vehicles[k]];
        }
        k := k + 1;
      }
      assert ts[..k] == ts;
    }
  }
}
