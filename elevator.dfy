/** The value entities of the path engine: directions, transitions and commands. */
module Elevator {

  /** The three-valued direction enumeration. */
  datatype Direction = Up | Down | Sideways

  /** A request to ride from `origin` to `destination`. */
  datatype Transition = Transition(origin: int, destination: int)
  {
    /**
     * The direction of the ride. It is derived from the two floors and
     * never stored, and exactly one of the three cases holds.
     */
    function Direction(): (d: Direction)
      ensures d == Down <==> origin > destination
      ensures d == Up <==> origin < destination
      ensures d == Sideways <==> origin == destination
    {
      if origin > destination then Down
      else if origin < destination then Up
      else Sideways
    }
  }

  /** A start floor and the rides requested from it, in order. */
  datatype Command = Command(startFloor: int, transitions: seq<Transition>)

  /** Every floor some transition of `ts` leaves from or arrives at. */
  function FloorsOf(ts: seq<Transition>): (fs: set<int>)
    ensures forall x :: x in fs <==>
      exists i :: 0 <= i < |ts| && (x == ts[i].origin || x == ts[i].destination)
    decreases |ts|
  {
    if ts == [] then {}
    else
      var last := ts[|ts| - 1];
      var before := FloorsOf(ts[..|ts| - 1]);
      assert forall i :: 0 <= i < |ts| - 1 ==> ts[..|ts| - 1][i] == ts[i];
      before + {last.origin, last.destination}
  }

  lemma {:induction false} FloorsOfConcat(a: seq<Transition>, b: seq<Transition>)
    ensures FloorsOf(a + b) == FloorsOf(a) + FloorsOf(b)
  {
    var ab := a + b;
    forall x | x in FloorsOf(a) + FloorsOf(b) ensures x in FloorsOf(ab) {
      if x in FloorsOf(a) {
        var i :| 0 <= i < |a| && (x == a[i].origin || x == a[i].destination);
        assert ab[i] == a[i];
      } else {
        var i :| 0 <= i < |b| && (x == b[i].origin || x == b[i].destination);
        assert ab[|a| + i] == b[i];
      }
    }
  }
}
