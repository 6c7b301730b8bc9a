/** Mode A: visit the start floor and then every origin and destination literally. */
module NaivePath {
  import opened Elevator
  import opened FloorOps
  import opened Paths

  /** The origin and destination of each transition, in request order. */
  function Stops(ts: seq<Transition>): (r: seq<int>)
    ensures |r| == 2 * |ts|
    ensures forall i :: 0 <= i < |ts| ==> r[2 * i] == ts[i].origin && r[2 * i + 1] == ts[i].destination
    decreases |ts|
  {
    if ts == [] then []
    else
      var last := ts[|ts| - 1];
      var before := ts[..|ts| - 1];
      assert forall i :: 0 <= i < |before| ==> before[i] == ts[i];
      Stops(before) + [last.origin, last.destination]
  }

  /**
   * The floors mode A visits: the start floor, then the origin and the
   * destination of every transition in order, `1 + 2n` floors for `n`
   * transitions.
   */
  function NaiveFloors(cmd: Command): (r: seq<int>)
    ensures |r| == 1 + 2 * |cmd.transitions|
    ensures r[0] == cmd.startFloor
    ensures forall i :: 0 <= i < |cmd.transitions| ==>
      r[2 * i + 1] == cmd.transitions[i].origin && r[2 * i + 2] == cmd.transitions[i].destination
  {
    [cmd.startFloor] + Stops(cmd.transitions)
  }

  /**
   * The distance mode A accumulates, ride by ride: from the current floor to
   * the next origin, then from that origin to its destination.
   */
  function RideDistance(current: int, ts: seq<Transition>): (d: int)
    ensures d >= 0
    decreases |ts|
  {
    if ts == [] then 0
    else
      var ride := ts[0];
      Abs(current - ride.origin) + Abs(ride.origin - ride.destination) + RideDistance(ride.destination, ts[1..])
  }

  /**
   * Accumulating ride by ride gives the same number as summing the gaps of
   * the visited floors: mode A's distance is `pairwise_abs` of its floors.
   */
  lemma {:induction false} RideDistanceIsPairwiseAbs(current: int, ts: seq<Transition>)
    ensures RideDistance(current, ts) == PairwiseAbs([current] + Stops(ts))
    decreases |ts|
  {
    if ts != [] {
      var t := ts[0];
      RideDistanceIsPairwiseAbs(t.destination, ts[1..]);
      var tail := Stops(ts[1..]);
      assert Stops(ts) == [t.origin, t.destination] + tail by {
        StopsCons(t, ts[1..]);
        assert ts == [t] + ts[1..];
      }
      PairwiseAbsRide(current, t.origin, t.destination, tail);
    }
  }

  /** One ride seen from the floor before it: to its origin, then to its destination. */
  lemma PairwiseAbsRide(current: int, origin: int, destination: int, tail: seq<int>)
    ensures PairwiseAbs([current] + ([origin, destination] + tail)) ==
      Abs(current - origin) + Abs(origin - destination) + PairwiseAbs([destination] + tail)
  {
    var floors := [current] + ([origin, destination] + tail);
    assert floors[1..] == [origin] + ([destination] + tail);
    assert floors[1..][1..] == [destination] + tail;
  }

  lemma {:induction false} StopsCons(t: Transition, ts: seq<Transition>)
    ensures Stops([t] + ts) == [t.origin, t.destination] + Stops(ts)
  {
    var s := Stops([t] + ts);
    var r := [t.origin, t.destination] + Stops(ts);
    assert |s| == |r|;
    forall k | 0 <= k < |s| ensures s[k] == r[k] {
      var i := k / 2;
      assert ([t] + ts)[0] == t;
      if i > 0 {
        assert ([t] + ts)[i] == ts[i - 1];
        assert k == 2 * i || k == 2 * i + 1;
      }
    }
  }

  lemma StopsStep(start: int, ts: seq<Transition>, i: nat)
    requires i < |ts|
    ensures [start] + Stops(ts[..i + 1]) == [start] + Stops(ts[..i]) + [ts[i].origin] + [ts[i].destination]
  {
    assert ts[..i + 1][..i] == ts[..i];
  }

  /** Visiting an origin and then a destination adds the two gaps they open. */
  lemma PairwiseAbsVisit(floors: seq<int>, origin: int, destination: int)
    requires floors != []
    ensures PairwiseAbs(floors + [origin] + [destination]) ==
      PairwiseAbs(floors) + Abs(floors[|floors| - 1] - origin) + Abs(origin - destination)
  {
    PairwiseAbsSnoc(floors, origin);
    PairwiseAbsSnoc(floors + [origin], destination);
  }

  /**
   * `process`: a fresh path holding the start floor and each origin and
   * destination in order, whose distance is accumulated ride by ride and
   * equals `pairwise_abs` of those floors.
   */
  method Process(cmd: Command) returns (p: Path)
    ensures fresh(p)
    ensures p.floors == NaiveFloors(cmd)
    ensures p.distance == RideDistance(cmd.startFloor, cmd.transitions)
    ensures p.Valid()
    ensures p.distance >= 0 && (cmd.transitions == [] ==> p.distance == 0)
  {
    p := new Path();
    var lastFloor := cmd.startFloor;
    p.floors := p.floors + [lastFloor];
    for i := 0 to |cmd.transitions|
      invariant p.floors == [cmd.startFloor] + Stops(cmd.transitions[..i])
      invariant lastFloor == p.floors[|p.floors| - 1]
      invariant p.distance == PairwiseAbs(p.floors)
    {
      var transition := cmd.transitions[i];
      StopsStep(cmd.startFloor, cmd.transitions, i);
      PairwiseAbsVisit(p.floors, transition.origin, transition.destination);
      p.distance := p.distance + Abs(lastFloor - transition.origin);
      p.distance := p.distance + Abs(transition.origin - transition.destination);
      p.floors := p.floors + [transition.origin];
      p.floors := p.floors + [transition.destination];
      lastFloor := transition.destination;
    }
    assert cmd.transitions[..|cmd.transitions|] == cmd.transitions;
    RideDistanceIsPairwiseAbs(cmd.startFloor, cmd.transitions);
  }

  /** Mode A visits exactly the start floor and every floor some transition names. */
  lemma {:induction false} NaiveFloorsElems(cmd: Command)
    ensures Elems(NaiveFloors(cmd)) == {cmd.startFloor} + FloorsOf(cmd.transitions)
  {
    var r := NaiveFloors(cmd);
    var ts := cmd.transitions;
    forall x | x in FloorsOf(ts) ensures x in r {
      var i :| 0 <= i < |ts| && (x == ts[i].origin || x == ts[i].destination);
      assert r[2 * i + 1] == ts[i].origin && r[2 * i + 2] == ts[i].destination;
    }
    forall x | x in r ensures x in {cmd.startFloor} + FloorsOf(ts) {
      var k :| 0 <= k < |r| && r[k] == x;
      if k > 0 {
        var i := (k - 1) / 2;
        assert k == 2 * i + 1 || k == 2 * i + 2;
        assert x == ts[i].origin || x == ts[i].destination;
      }
    }
  }
}
