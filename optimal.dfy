/**
 * Mode B: group the rides (prefixed by a ride from the start floor to the
 * first origin) into maximal runs of one direction, visit each run's floors
 * once in the order of travel, and collapse the repeats where runs meet.
 */
module OptimalPath {
  import opened IterTools
  import opened Elevator
  import opened FloorOps
  import opened Paths
  import NaivePath

  /** The synthetic ride from the start floor to the first requested origin. */
  function StartingTransition(cmd: Command): Transition
    requires |cmd.transitions| > 0
  {
    Transition(cmd.startFloor, cmd.transitions[0].origin)
  }

  /** The grouping key `lambda x: x.direction`. */
  function DirectionKey(t: Transition): Direction
  {
    t.Direction()
  }

  /**
   * `itertools.groupby(ts, lambda x: x.direction)`: the rides cut into
   * maximal runs, every ride of a run going the run's direction and
   * neighbouring runs going different directions.
   */
  function GroupByDirection(ts: seq<Transition>): (gs: seq<Group<Direction, Transition>>)
    ensures Members(gs) == ts
    ensures forall k :: 0 <= k < |gs| ==> |gs[k].members| > 0
    ensures forall k, j :: 0 <= k < |gs| && 0 <= j < |gs[k].members| ==> gs[k].members[j].Direction() == gs[k].key
    ensures forall k :: 0 <= k < |gs| - 1 ==> gs[k].key != gs[k + 1].key
    ensures ts != [] ==> gs != [] && gs[0].key == ts[0].Direction()
  {
    var gs := GroupBy(ts, DirectionKey);
    assert forall k :: 0 <= k < |gs| ==> IsRun(gs[k], DirectionKey);
    gs
  }

  /** The floors of one group, each once, in the order of its direction. */
  function SortedRun(g: Group<Direction, Transition>): (run: seq<int>)
    ensures RunFits(g, run)
  {
    SortFloors(g.key, FloorsOf(g.members))
  }

  /** One sorted run per group, in group order. */
  function SortedRuns(gs: seq<Group<Direction, Transition>>): (runs: seq<seq<int>>)
    ensures RunsFit(gs, runs)
    decreases |gs|
  {
    if gs == [] then []
    else
      var n := |gs| - 1;
      var runs := SortedRuns(gs[..n]);
      RunsFitSnoc(gs, runs, SortedRun(gs[n]));
      runs + [SortedRun(gs[n])]
  }

  /** A fitting run for the last group extends fitting runs for the others. */
  lemma RunsFitSnoc(gs: seq<Group<Direction, Transition>>, runs: seq<seq<int>>, run: seq<int>)
    requires gs != []
    requires RunsFit(gs[..|gs| - 1], runs) && RunFits(gs[|gs| - 1], run)
    ensures RunsFit(gs, runs + [run])
  {
    forall k | 0 <= k < |gs|
      ensures RunFits(gs[k], (runs + [run])[k])
    {
      if k < |gs| - 1 {
        assert gs[..|gs| - 1][k] == gs[k];
      }
    }
  }

  lemma SortedRunsStep(gs: seq<Group<Direction, Transition>>, i: nat)
    requires i < |gs|
    ensures SortedRuns(gs[..i + 1]) == SortedRuns(gs[..i]) + [SortFloors(gs[i].key, FloorsOf(gs[i].members))]
  {
    assert gs[..i + 1][..i] == gs[..i];
  }

  /**
   * The floors mode B visits for a command with at least one transition.
   * `CompressedCharacterization` pins it down independently of how it is
   * computed, and `CompressedFloors` and `CompressedDistance` say which
   * floors it visits and how far it travels.
   */
  function Compressed(cmd: Command): seq<int>
    requires |cmd.transitions| > 0
  {
    var groups := GroupByDirection([StartingTransition(cmd)] + cmd.transitions);
    RemoveConsecutiveDuplicates(Chain(SortedRuns(groups)))
  }

  lemma {:induction false} MembersAppend<K, T>(gs: seq<Group<K, T>>, g: Group<K, T>)
    ensures Members(gs + [g]) == Members(gs) + g.members
  {
    if gs == [] {
      assert [g][1..] == [];
    } else {
      assert (gs + [g])[1..] == gs[1..] + [g];
      MembersAppend(gs[1..], g);
    }
  }

  /** The synthetic first ride adds only the start floor to the floors the rides name. */
  lemma StartingFloors(cmd: Command)
    requires |cmd.transitions| > 0
    ensures FloorsOf([StartingTransition(cmd)] + cmd.transitions) == {cmd.startFloor} + FloorsOf(cmd.transitions)
  {
    var first := StartingTransition(cmd);
    FloorsOfConcat([first], cmd.transitions);
    assert FloorsOf([first]) == {first.origin, first.destination};
    assert first.destination in FloorsOf(cmd.transitions);
  }

  /** The concatenated runs hold exactly the floors the grouped rides name. */
  lemma {:induction false} ChainedRunsElems(gs: seq<Group<Direction, Transition>>)
    ensures Elems(Chain(SortedRuns(gs))) == FloorsOf(Members(gs))
    decreases |gs|
  {
    if gs != [] {
      var before, g := gs[..|gs| - 1], gs[|gs| - 1];
      assert gs == before + [g];
      calc {
        Elems(Chain(SortedRuns(gs)));
        Elems(Chain(SortedRuns(before) + [SortedRun(g)]));
        { ChainAppend(SortedRuns(before), SortedRun(g)); }
        Elems(Chain(SortedRuns(before)) + SortedRun(g));
        { ElemsConcat(Chain(SortedRuns(before)), SortedRun(g)); }
        Elems(Chain(SortedRuns(before))) + Elems(SortedRun(g));
        { ChainedRunsElems(before); }
        FloorsOf(Members(before)) + FloorsOf(g.members);
        { FloorsOfConcat(Members(before), g.members); }
        FloorsOf(Members(before) + g.members);
        { MembersAppend(before, g); }
        FloorsOf(Members(gs));
      }
    }
  }

  /**
   * No floor is dropped or invented: mode B visits exactly the start floor
   * and the floors the transitions name.
   */
  lemma CompressedFloors(cmd: Command)
    requires |cmd.transitions| > 0
    ensures Elems(Compressed(cmd)) == {cmd.startFloor} + FloorsOf(cmd.transitions)
  {
    var groups := GroupByDirection([StartingTransition(cmd)] + cmd.transitions);
    DedupElems(Chain(SortedRuns(groups)));
    ChainedRunsElems(groups);
    StartingFloors(cmd);
  }

  /** Both modes visit the same set of floors; they differ only in order and repetition. */
  lemma SameFloorsAsNaive(cmd: Command)
    requires |cmd.transitions| > 0
    ensures Elems(Compressed(cmd)) == Elems(NaivePath.NaiveFloors(cmd))
  {
    CompressedFloors(cmd);
    NaivePath.NaiveFloorsElems(cmd);
  }

  /**
   * Collapsing the repeats between runs costs no distance: mode B's distance
   * is the travel along the concatenated sorted runs.
   */
  lemma CompressedDistance(cmd: Command)
    requires |cmd.transitions| > 0
    ensures PairwiseAbs(Compressed(cmd)) ==
      PairwiseAbs(Chain(SortedRuns(GroupByDirection([StartingTransition(cmd)] + cmd.transitions))))
  {
    PairwiseAbsDedup(Chain(SortedRuns(GroupByDirection([StartingTransition(cmd)] + cmd.transitions))));
  }

  /**
   * `run` lists the floors of group `g`, each once, monotone in the group's
   * direction (descending going down, ascending otherwise).
   */
  ghost predicate RunFits(g: Group<Direction, Transition>, run: seq<int>)
  {
    && Elems(run) == FloorsOf(g.members)
    && (if g.key == Down then StrictlyDecreasing(run) else StrictlyIncreasing(run))
  }

  /** One fitting run per group, in group order. */
  ghost predicate RunsFit(gs: seq<Group<Direction, Transition>>, runs: seq<seq<int>>)
  {
    && |runs| == |gs|
    && forall k :: 0 <= k < |gs| ==> RunFits(gs[k], runs[k])
  }

  lemma RunFitsIsSortedRun(g: Group<Direction, Transition>, run: seq<int>)
    requires RunFits(g, run)
    ensures run == SortedRun(g)
  {
    SortFloorsUnique(g.key, FloorsOf(g.members), run);
  }

  lemma RunsFitPrefix(gs: seq<Group<Direction, Transition>>, runs: seq<seq<int>>, n: nat)
    requires RunsFit(gs, runs) && n <= |gs|
    ensures RunsFit(gs[..n], runs[..n])
  {
    forall k | 0 <= k < n
      ensures RunFits(gs[..n][k], runs[..n][k])
    {
      assert gs[..n][k] == gs[k];
    }
  }

  /** Any listing of each group's floors that is monotone in the group's direction is `SortedRuns`. */
  lemma {:induction false} SortedRunsUnique(gs: seq<Group<Direction, Transition>>, runs: seq<seq<int>>)
    requires RunsFit(gs, runs)
    ensures runs == SortedRuns(gs)
    decreases |gs|
  {
    if gs != [] {
      var n := |gs| - 1;
      assert runs == runs[..n] + [runs[n]];
      RunsFitPrefix(gs, runs, n);
      SortedRunsUnique(gs[..n], runs[..n]);
      RunFitsIsSortedRun(gs[n], runs[n]);
    }
  }

  /**
   * Mode B pinned down without reference to how it is computed: cut the
   * rides into any maximal runs of one direction and list each run's floors
   * in any duplicate-free order monotone in its direction; chaining those
   * lists and collapsing repeats gives exactly `Compressed`.
   */
  lemma CompressedCharacterization(cmd: Command, gs: seq<Group<Direction, Transition>>, runs: seq<seq<int>>)
    requires |cmd.transitions| > 0
    requires IsMaximalGrouping(gs, [StartingTransition(cmd)] + cmd.transitions, DirectionKey)
    requires RunsFit(gs, runs)
    ensures Compressed(cmd) == RemoveConsecutiveDuplicates(Chain(runs))
  {
    GroupByUnique(gs, [StartingTransition(cmd)] + cmd.transitions, DirectionKey);
    SortedRunsUnique(gs, runs);
  }

  /** For `start:f-f` with `f` above the start: a run up to `f`, then `f` alone. */
  lemma SidewaysRuns(start: int, f: int)
    requires start < f
    ensures var gs := [Group(Up, [Transition(start, f)]), Group(Sideways, [Transition(f, f)])];
      && IsMaximalGrouping(gs, [Transition(start, f), Transition(f, f)], DirectionKey)
      && RunsFit(gs, [[start, f], [f]])
    ensures Chain([[start, f], [f]]) == [start, f, f]
  {
    var up, side := Transition(start, f), Transition(f, f);
    var gs := [Group(Up, [up]), Group(Sideways, [side])];
    assert Members(gs[1..]) == [side];
    assert IsRun(gs[0], DirectionKey) && IsRun(gs[1], DirectionKey) by {
      assert DirectionKey(up) == Up && DirectionKey(side) == Sideways;
    }
    assert FloorsOf(gs[0].members) == {start, f};
    assert FloorsOf(gs[1].members) == {f};
    ChainOfTwo([start, f], [f]);
    assert [start, f] + [f] == [start, f, f];
  }

  /** Collapsing the repeated floor `f`, and the distance left. */
  lemma SidewaysCollapse(start: int, f: int)
    requires start < f
    ensures RemoveConsecutiveDuplicates([start, f, f]) == [start, f]
    ensures PairwiseAbs([start, f]) == f - start
  {
    assert RemoveConsecutiveDuplicates([f]) == [f] by {
      DedupFixedPoints([f]);
    }
    assert RemoveConsecutiveDuplicates([f, f]) == [f] by {
      DedupCons(f, [f]);
      assert [f] + [f] == [f, f];
    }
    DedupCons(start, [f, f]);
    assert [start] + [f, f] == [start, f, f];
    assert [start, f][1..] == [f];
  }

  /**
   * A single sideways ride above the start floor, as in `0:3-3`: mode B goes
   * up to the ride's floor and stays there.
   */
  lemma CompressedSideways(start: int, f: int)
    requires start < f
    ensures var cmd := Command(start, [Transition(f, f)]);
      Compressed(cmd) == [start, f] && PairwiseAbs(Compressed(cmd)) == f - start
  {
    var cmd := Command(start, [Transition(f, f)]);
    SidewaysRuns(start, f);
    var runs := [[start, f], [f]];
    CompressedCharacterization(cmd, [Group(Up, [Transition(start, f)]), Group(Sideways, [Transition(f, f)])], runs);
    SidewaysCollapse(start, f);
  }

  /** For `start:a-b,b-c` going up, down, up: one two-floor run per ride. */
  lemma ThreeRunsRuns(start: int, a: int, b: int, c: int)
    requires start < a && a > b && b < c
    ensures var gs := [Group(Up, [Transition(start, a)]), Group(Down, [Transition(a, b)]), Group(Up, [Transition(b, c)])];
      && IsMaximalGrouping(gs, [Transition(start, a), Transition(a, b), Transition(b, c)], DirectionKey)
      && RunsFit(gs, [[start, a], [a, b], [b, c]])
    ensures Chain([[start, a], [a, b], [b, c]]) == [start, a, a, b, b, c]
  {
    var t0, t1, t2 := Transition(start, a), Transition(a, b), Transition(b, c);
    var gs := [Group(Up, [t0]), Group(Down, [t1]), Group(Up, [t2])];
    assert Members(gs[2..]) == [t2];
    assert Members(gs[1..]) == [t1, t2];
    assert IsRun(gs[0], DirectionKey) && IsRun(gs[1], DirectionKey) && IsRun(gs[2], DirectionKey) by {
      assert DirectionKey(t0) == Up && DirectionKey(t1) == Down && DirectionKey(t2) == Up;
    }
    assert FloorsOf(gs[0].members) == {start, a};
    assert FloorsOf(gs[1].members) == {a, b};
    assert FloorsOf(gs[2].members) == {b, c};
    ChainOfThree([start, a], [a, b], [b, c]);
    assert [start, a] + [a, b] + [b, c] == [start, a, a, b, b, c];
  }

  /** Collapsing the floors the three runs share. */
  lemma ThreeRunsCollapse(start: int, a: int, b: int, c: int)
    requires start < a && a > b && b < c
    ensures RemoveConsecutiveDuplicates([start, a, a, b, b, c]) == [start, a, b, c]
  {
    assert RemoveConsecutiveDuplicates([b, b, c]) == [b, c] by {
      assert NoAdjacentDuplicates([b, c]);
      DedupFixedPoints([b, c]);
      DedupCons(b, [b, c]);
      assert [b] + [b, c] == [b, b, c];
    }
    assert RemoveConsecutiveDuplicates([a, b, b, c]) == [a, b, c] by {
      DedupCons(a, [b, b, c]);
      assert [a] + [b, b, c] == [a, b, b, c];
    }
    assert RemoveConsecutiveDuplicates([a, a, b, b, c]) == [a, b, c] by {
      DedupCons(a, [a, b, b, c]);
      assert [a] + [a, b, b, c] == [a, a, b, b, c];
    }
    DedupCons(start, [a, a, b, b, c]);
    assert [start] + [a, a, b, b, c] == [start, a, a, b, b, c];
  }

  /** The distance of the three runs once collapsed. */
  lemma ThreeRunsDistance(start: int, a: int, b: int, c: int)
    requires start < a && a > b && b < c
    ensures PairwiseAbs([start, a, b, c]) == (a - start) + (a - b) + (c - b)
  {
    var floors := [start, a, b, c];
    assert floors[1..][1..] == [b, c];
    assert PairwiseAbs(floors[1..]) == (a - b) + (c - b);
  }

  /**
   * Up, down, up, as in `0:5-2,2-8`: three runs whose shared floors are
   * visited once.
   */
  lemma CompressedThreeRuns(start: int, a: int, b: int, c: int)
    requires start < a && a > b && b < c
    ensures var cmd := Command(start, [Transition(a, b), Transition(b, c)]);
      Compressed(cmd) == [start, a, b, c] && PairwiseAbs(Compressed(cmd)) == (a - start) + (a - b) + (c - b)
  {
    var cmd := Command(start, [Transition(a, b), Transition(b, c)]);
    ThreeRunsRuns(start, a, b, c);
    var runs := [[start, a], [a, b], [b, c]];
    CompressedCharacterization(cmd, [Group(Up, [Transition(start, a)]), Group(Down, [Transition(a, b)]), Group(Up, [Transition(b, c)])], runs);
    ThreeRunsCollapse(start, a, b, c);
    ThreeRunsDistance(start, a, b, c);
  }

  /**
   * For `s:s-b,c-d` with `c < d < s < b`: a sideways start, then both rides
   * going up in one run.
   */
  lemma FartherRuns(s: int, b: int, c: int, d: int)
    requires c < d < s < b
    ensures var gs := [Group(Sideways, [Transition(s, s)]), Group(Up, [Transition(s, b), Transition(c, d)])];
      && IsMaximalGrouping(gs, [Transition(s, s), Transition(s, b), Transition(c, d)], DirectionKey)
      && RunsFit(gs, [[s], [c, d, s, b]])
    ensures Chain([[s], [c, d, s, b]]) == [s, c, d, s, b]
  {
    var t0, t1, t2 := Transition(s, s), Transition(s, b), Transition(c, d);
    var gs := [Group(Sideways, [t0]), Group(Up, [t1, t2])];
    assert Members(gs[1..]) == [t1, t2];
    assert IsRun(gs[0], DirectionKey) && IsRun(gs[1], DirectionKey) by {
      assert DirectionKey(t0) == Sideways && DirectionKey(t1) == Up && DirectionKey(t2) == Up;
    }
    assert FloorsOf(gs[0].members) == {s};
    assert [t1, t2][..1] == [t1];
    assert FloorsOf(gs[1].members) == {s, b, c, d};
    ChainOfTwo([s], [c, d, s, b]);
    assert [s] + [c, d, s, b] == [s, c, d, s, b];
  }

  /** The two visiting orders of `s:s-b,c-d` and their distances. */
  lemma FartherVisits(s: int, b: int, c: int, d: int)
    requires c < d < s < b
    ensures RemoveConsecutiveDuplicates([s, c, d, s, b]) == [s, c, d, s, b]
    ensures PairwiseAbs([s, c, d, s, b]) == s + b - 2 * c
    ensures NaivePath.NaiveFloors(Command(s, [Transition(s, b), Transition(c, d)])) == [s, s, b, c, d]
    ensures PairwiseAbs([s, s, b, c, d]) == 2 * b - s - 2 * c + d
  {
    var cmd := Command(s, [Transition(s, b), Transition(c, d)]);
    var naive := NaivePath.NaiveFloors(cmd);
    assert naive[2 * 0 + 1] == s && naive[2 * 0 + 2] == b;
    assert naive[2 * 1 + 1] == c && naive[2 * 1 + 2] == d;
    assert naive == [s, s, b, c, d];
    var visitB := [s, c, d, s, b];
    assert NoAdjacentDuplicates(visitB);
    DedupFixedPoints(visitB);
    assert visitB[1..][1..] == [d, s, b] && [d, s, b][1..] == [s, b];
    assert PairwiseAbs([d, s, b]) == (s - d) + (b - s);
    var visitA := [s, s, b, c, d];
    assert visitA[1..][1..] == [b, c, d] && [b, c, d][1..] == [c, d];
    assert PairwiseAbs([b, c, d]) == (b - c) + (d - c);
  }

  /**
   * Mode B can travel farther than mode A. From start floor `s`, with a ride
   * `s`-`b` upwards and then a ride `c`-`d` wholly below `s`, both rides go
   * up, so mode B sorts them into one run and visits s c d s b (distance
   * s + b - 2c), while mode A visits s s b c d (distance 2b - s - 2c + d):
   * mode B is longer exactly when 2s > b + d.
   */
  lemma CompressedCanTravelFarther(s: int, b: int, c: int, d: int)
    requires c < d < s < b
    ensures var cmd := Command(s, [Transition(s, b), Transition(c, d)]);
      && Compressed(cmd) == [s, c, d, s, b]
      && PairwiseAbs(Compressed(cmd)) == s + b - 2 * c
      && PairwiseAbs(NaivePath.NaiveFloors(cmd)) == 2 * b - s - 2 * c + d
      && (PairwiseAbs(Compressed(cmd)) > PairwiseAbs(NaivePath.NaiveFloors(cmd)) <==> 2 * s > b + d)
  {
    var cmd := Command(s, [Transition(s, b), Transition(c, d)]);
    FartherRuns(s, b, c, d);
    var runs := [[s], [c, d, s, b]];
    CompressedCharacterization(cmd, [Group(Sideways, [Transition(s, s)]), Group(Up, [Transition(s, b), Transition(c, d)])], runs);
    FartherVisits(s, b, c, d);
  }

  /** The instance `5:5-6,0-1`: mode B travels 11 floors, mode A 8. */
  lemma CompressedFartherExample()
    ensures var cmd := Command(5, [Transition(5, 6), Transition(0, 1)]);
      PairwiseAbs(Compressed(cmd)) == 11 && PairwiseAbs(NaivePath.NaiveFloors(cmd)) == 8
  {
    CompressedCanTravelFarther(5, 6, 0, 1);
  }

  /** For `s:a-b,c-d` with `c < d < s < a < b`: every ride goes up, so there is one run. */
  lemma AllUpRuns(s: int, a: int, b: int, c: int, d: int)
    requires c < d < s < a < b
    ensures var gs := [Group(Up, [Transition(s, a), Transition(a, b), Transition(c, d)])];
      && IsMaximalGrouping(gs, [Transition(s, a), Transition(a, b), Transition(c, d)], DirectionKey)
      && RunsFit(gs, [[c, d, s, a, b]])
  {
    var t0, t1, t2 := Transition(s, a), Transition(a, b), Transition(c, d);
    var gs := [Group(Up, [t0, t1, t2])];
    assert IsRun(gs[0], DirectionKey) by {
      assert DirectionKey(t0) == Up && DirectionKey(t1) == Up && DirectionKey(t2) == Up;
    }
    AllUpFloors(s, a, b, c, d);
  }

  lemma AllUpFloors(s: int, a: int, b: int, c: int, d: int)
    requires c < d < s < a < b
    ensures RunFits(Group(Up, [Transition(s, a), Transition(a, b), Transition(c, d)]), [c, d, s, a, b])
  {
    FloorsOfThree(Transition(s, a), Transition(a, b), Transition(c, d));
    assert Elems([c, d, s, a, b]) == {s, a, b, c, d};
    assert StrictlyIncreasing([c, d, s, a, b]);
  }

  lemma FloorsOfThree(t0: Transition, t1: Transition, t2: Transition)
    ensures FloorsOf([t0, t1, t2]) == {t0.origin, t0.destination, t1.origin, t1.destination, t2.origin, t2.destination}
  {
    assert [t0][..0] == [];
    assert FloorsOf([t0]) == {t0.origin, t0.destination};
    assert [t0, t1][..1] == [t0];
    assert FloorsOf([t0, t1]) == FloorsOf([t0]) + {t1.origin, t1.destination};
    assert [t0, t1, t2][..2] == [t0, t1];
    assert FloorsOf([t0, t1, t2]) == FloorsOf([t0, t1]) + {t2.origin, t2.destination};
  }

  /** The single run of `s:a-b,c-d` is already free of repeats. */
  lemma AllUpVisit(s: int, a: int, b: int, c: int, d: int)
    requires c < d < s < a < b
    ensures RemoveConsecutiveDuplicates(Chain([[c, d, s, a, b]])) == [c, d, s, a, b]
  {
    var runs := [[c, d, s, a, b]];
    var visit := [c, d, s, a, b];
    assert Chain(runs) == visit by {
      assert runs[1..] == [];
      assert Chain(runs) == visit + Chain([]);
    }
    assert NoAdjacentDuplicates(visit);
    DedupFixedPoints(visit);
  }

  /**
   * Mode B need not start at the start floor: when every ride goes up and
   * some lie below the start floor, as in `3:5-6,0-1`, all floors form one
   * ascending run that begins below the start.
   */
  lemma CompressedMayNotStartAtStartFloor(s: int, a: int, b: int, c: int, d: int)
    requires c < d < s < a < b
    ensures var cmd := Command(s, [Transition(a, b), Transition(c, d)]);
      Compressed(cmd) == [c, d, s, a, b] && Compressed(cmd)[0] != cmd.startFloor
  {
    var cmd := Command(s, [Transition(a, b), Transition(c, d)]);
    AllUpRuns(s, a, b, c, d);
    var runs := [[c, d, s, a, b]];
    CompressedCharacterization(cmd, [Group(Up, [Transition(s, a), Transition(a, b), Transition(c, d)])], runs);
    AllUpVisit(s, a, b, c, d);
  }

  /**
   * The inner loop of `compress_transitions`: a fresh set, and the origin and
   * destination of every ride of the group added to it.
   */
  method CollectFloors(group: seq<Transition>) returns (floors: set<int>)
    ensures floors == FloorsOf(group)
  {
    floors := {};
    for j := 0 to |group|
      invariant floors == FloorsOf(group[..j])
    {
      var g := group[j];
      assert group[..j + 1][..j] == group[..j];
      floors := floors + {g.origin};
      floors := floors + {g.destination};
    }
    assert group[..|group|] == group;
  }

  /**
   * `compress_transitions`: group the rides by direction, collect each
   * group's floors into a set, sort it for the group's direction, chain the
   * sorted runs and collapse consecutive repeats. The result has no two
   * equal neighbours and holds exactly the start floor and the floors the
   * transitions name.
   */
  method CompressTransitions(cmd: Command) returns (floors: seq<int>)
    requires |cmd.transitions| > 0
    ensures floors == Compressed(cmd)
    ensures NoAdjacentDuplicates(floors)
    ensures Elems(floors) == {cmd.startFloor} + FloorsOf(cmd.transitions)
  {
    var startingFloorTransition := Transition(cmd.startFloor, cmd.transitions[0].origin);
    var groupedTransitions := GroupByDirection([startingFloorTransition] + cmd.transitions);
    var runs: seq<seq<int>> := [];
    for i := 0 to |groupedTransitions|
      invariant runs == SortedRuns(groupedTransitions[..i])
    {
      var group := groupedTransitions[i];
      var groupFloors := CollectFloors(group.members);
      SortedRunsStep(groupedTransitions, i);
      runs := runs + [SortFloors(group.key, groupFloors)];
    }
    assert groupedTransitions[..|groupedTransitions|] == groupedTransitions;
    floors := RemoveConsecutiveDuplicates(Chain(runs));
    CompressedFloors(cmd);
  }

  /**
   * `optimal_process`: a fresh path holding the compressed floors, whose
   * distance is `pairwise_abs` of them.
   */
  method OptimalProcess(cmd: Command) returns (p: Path)
    requires |cmd.transitions| > 0
    ensures fresh(p)
    ensures p.floors == Compressed(cmd)
    ensures p.Valid()
  {
    p := new Path();
    p.floors := CompressTransitions(cmd);
    p.distance := PairwiseAbs(p.floors);
  }
}
