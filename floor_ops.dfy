/**
 * The small pure helpers over floor lists: collapsing repeats, measuring the
 * travel along a list, and ordering a set of floors for one direction.
 */
module FloorOps {
  import opened IterTools
  import opened Elevator

  function Abs(x: int): nat
  {
    if x < 0 then -x else x
  }

  function Elems<T>(s: seq<T>): set<T>
  {
    set x | x in s
  }

  lemma ElemsConcat<T>(a: seq<T>, b: seq<T>)
    ensures Elems(a + b) == Elems(a) + Elems(b)
  {
  }

  ghost predicate NoAdjacentDuplicates<T>(s: seq<T>)
  {
    forall i :: 0 <= i < |s| - 1 ==> s[i] != s[i + 1]
  }

  /** `a` is `b` with some items left out, the rest kept in order. */
  ghost predicate IsSubsequence<T>(a: seq<T>, b: seq<T>)
    decreases |b|
  {
    if a == [] then true
    else if b == [] then false
    else (a[0] == b[0] && IsSubsequence(a[1..], b[1..])) || IsSubsequence(a, b[1..])
  }

  // ---------------------------------------------------------------------------
  // remove_consecutive_duplicates

  /**
   * The key of every group `itertools.groupby` forms without a key function:
   * one item per run of equal items. No two neighbours of the result are
   * equal, nothing is added, and the first item survives.
   */
  function RemoveConsecutiveDuplicates<T(==)>(s: seq<T>): (r: seq<T>)
    ensures NoAdjacentDuplicates(r)
    ensures |r| <= |s|
    ensures s != [] ==> r != [] && r[0] == s[0]
  {
    var groups := GroupBy(s, x => x);
    seq(|groups|, k requires 0 <= k < |groups| => groups[k].key)
  }

  /** How the collapse treats its first item: dropped when it repeats the next one, kept otherwise. */
  lemma DedupCons<T>(x: T, s: seq<T>)
    ensures RemoveConsecutiveDuplicates([x] + s) ==
      if s != [] && s[0] == x then RemoveConsecutiveDuplicates(s)
      else [x] + RemoveConsecutiveDuplicates(s)
  {
    assert ([x] + s)[1..] == s;
    var rest := GroupBy(s, y => y);
    var whole := GroupBy([x] + s, y => y);
    if s != [] && s[0] == x {
      assert |whole| == |rest|;
      assert forall k :: 0 <= k < |rest| ==> whole[k].key == rest[k].key;
    } else {
      assert |whole| == |rest| + 1;
      assert forall k :: 1 <= k < |whole| ==> whole[k].key == rest[k - 1].key;
    }
  }

  /** The collapse keeps the set of values: each value that occurs still occurs. */
  lemma {:induction false} DedupElems<T>(s: seq<T>)
    ensures Elems(RemoveConsecutiveDuplicates(s)) == Elems(s)
    decreases |s|
  {
    if s != [] {
      DedupCons(s[0], s[1..]);
      DedupElems(s[1..]);
      assert s == [s[0]] + s[1..];
      assert Elems(s) == {s[0]} + Elems(s[1..]);
      var r := RemoveConsecutiveDuplicates(s[1..]);
      assert Elems([s[0]] + r) == {s[0]} + Elems(r);
      if |s| > 1 && s[1] == s[0] {
        assert s[0] in Elems(s[1..]);
      }
    }
  }

  /** The collapse only drops items: its result is a subsequence of its input. */
  lemma {:induction false} DedupSubsequence<T>(s: seq<T>)
    ensures IsSubsequence(RemoveConsecutiveDuplicates(s), s)
    decreases |s|
  {
    if s != [] {
      DedupCons(s[0], s[1..]);
      DedupSubsequence(s[1..]);
      assert s == [s[0]] + s[1..];
      var r := RemoveConsecutiveDuplicates(s);
      if !(|s| > 1 && s[1] == s[0]) {
        assert r[1..] == RemoveConsecutiveDuplicates(s[1..]);
      }
    }
  }

  /** The sequences the collapse leaves alone are exactly those without adjacent repeats. */
  lemma {:induction false} DedupFixedPoints<T>(s: seq<T>)
    ensures RemoveConsecutiveDuplicates(s) == s <==> NoAdjacentDuplicates(s)
    decreases |s|
  {
    if s != [] {
      DedupCons(s[0], s[1..]);
      DedupFixedPoints(s[1..]);
      assert s == [s[0]] + s[1..];
      if NoAdjacentDuplicates(s) {
        assert NoAdjacentDuplicates(s[1..]);
      }
    }
  }

  /** Collapsing twice is collapsing once. */
  lemma DedupIdempotent<T>(s: seq<T>)
    ensures RemoveConsecutiveDuplicates(RemoveConsecutiveDuplicates(s)) == RemoveConsecutiveDuplicates(s)
  {
    DedupFixedPoints(RemoveConsecutiveDuplicates(s));
  }

  // ---------------------------------------------------------------------------
  // pairwise_abs

  /**
   * The sum of |a - b| over the consecutive pairs of `floors`: the distance
   * travelled when visiting them in order. Never negative; zero with fewer
   * than two floors.
   */
  function PairwiseAbs(floors: seq<int>): (d: int)
    ensures d >= 0
    ensures |floors| <= 1 ==> d == 0
    decreases |floors|
  {
    if |floors| <= 1 then 0 else Abs(floors[0] - floors[1]) + PairwiseAbs(floors[1..])
  }

  /** Visiting one more floor adds the distance from the last one. */
  lemma {:induction false} PairwiseAbsSnoc(floors: seq<int>, x: int)
    requires floors != []
    ensures PairwiseAbs(floors + [x]) == PairwiseAbs(floors) + Abs(floors[|floors| - 1] - x)
    decreases |floors|
  {
    if |floors| > 1 {
      assert (floors + [x])[1..] == floors[1..] + [x];
      PairwiseAbsSnoc(floors[1..], x);
    }
  }

  /** Collapsing repeated floors does not change the distance travelled. */
  lemma {:induction false} PairwiseAbsDedup(floors: seq<int>)
    ensures PairwiseAbs(RemoveConsecutiveDuplicates(floors)) == PairwiseAbs(floors)
    decreases |floors|
  {
    if floors != [] {
      var x, rest := floors[0], floors[1..];
      assert floors == [x] + rest;
      DedupCons(x, rest);
      PairwiseAbsDedup(rest);
      var r := RemoveConsecutiveDuplicates(rest);
      if !(rest != [] && rest[0] == x) && rest != [] {
        assert ([x] + r)[1..] == r;
      }
    }
  }

  /** The distance along a list is at least the gap between any two of its floors. */
  lemma {:induction false} PairwiseAbsCoversSpan(floors: seq<int>, i: nat, j: nat)
    requires i <= j < |floors|
    ensures PairwiseAbs(floors) >= Abs(floors[i] - floors[j])
    decreases |floors|
  {
    if i < j {
      if i == 0 {
        PairwiseAbsCoversSpan(floors[1..], 0, j - 1);
      } else {
        PairwiseAbsCoversSpan(floors[1..], i - 1, j - 1);
      }
    }
  }

  // ---------------------------------------------------------------------------
  // sort_floors

  ghost predicate StrictlyIncreasing(s: seq<int>)
  {
    forall i, j :: 0 <= i < j < |s| ==> s[i] < s[j]
  }

  ghost predicate StrictlyDecreasing(s: seq<int>)
  {
    forall i, j :: 0 <= i < j < |s| ==> s[i] > s[j]
  }

  lemma {:induction false} MinExists(s: set<int>)
    requires s != {}
    ensures exists m :: m in s && forall x :: x in s ==> m <= x
    decreases |s|
  {
    assert (forall x :: x !in s) ==> s == {};
    var y :| y in s;
    var rest := s - {y};
    assert s == rest + {y};
    if rest == {} {
      assert s == {y};
    } else {
      MinExists(rest);
      var m :| m in rest && forall x :: x in rest ==> m <= x;
      var least := if y < m then y else m;
      assert forall x :: x in s ==> x == y || x in rest;
      assert least in s && forall x :: x in s ==> least <= x;
    }
  }

  /** Putting the least member in front of a listing of the others keeps the listing sorted. */
  lemma SortedStep(s: set<int>, m: int, rest: seq<int>)
    requires m in s && forall x :: x in s ==> m <= x
    requires StrictlyIncreasing(rest) && Elems(rest) == s - {m} && |rest| == |s - {m}|
    ensures StrictlyIncreasing([m] + rest) && Elems([m] + rest) == s && |[m] + rest| == |s|
  {
    var r := [m] + rest;
    assert Elems(r) == s by {
      assert Elems(r) == {m} + Elems(rest);
      assert s == (s - {m}) + {m};
    }
    forall i, j | 0 <= i < j < |r|
      ensures r[i] < r[j]
    {
      assert r[j] == rest[j - 1] && rest[j - 1] in Elems(rest);
      if i > 0 {
        assert r[i] == rest[i - 1];
      }
    }
  }

  /** Python's `sorted` on a set of ints: its members, each once, smallest first. */
  function SortedAscending(s: set<int>): (r: seq<int>)
    ensures StrictlyIncreasing(r)
    ensures Elems(r) == s
    ensures |r| == |s|
    decreases |s|
  {
    if s == {} then []
    else
      MinExists(s);
      var m :| m in s && forall x :: x in s ==> m <= x;
      var rest := SortedAscending(s - {m});
      SortedStep(s, m, rest);
      [m] + rest
  }

  /** A set has exactly one strictly increasing listing. */
  lemma {:induction false} SortedAscendingUnique(r: seq<int>, s: set<int>)
    requires StrictlyIncreasing(r) && Elems(r) == s
    ensures r == SortedAscending(s)
    decreases |r|
  {
    if r == [] {
      assert s == {};
    } else {
      var sorted := SortedAscending(s);
      assert r[0] in s;
      assert sorted != [];
      var m := sorted[0];
      assert m in Elems(r);
      assert r[0] == m;
      assert Elems(r[1..]) == s - {m} by {
        assert r == [r[0]] + r[1..];
        assert r[0] !in Elems(r[1..]);
      }
      SortedAscendingUnique(r[1..], s - {m});
      assert sorted[1..] == SortedAscending(s - {m});
    }
  }

  function Reversed<T>(s: seq<T>): seq<T>
  {
    seq(|s|, i requires 0 <= i < |s| => s[|s| - 1 - i])
  }

  /** Reversing keeps the members, turns a descending list into an ascending one, and undoes itself. */
  lemma ReversedFacts(s: seq<int>)
    ensures Elems(Reversed(s)) == Elems(s)
    ensures StrictlyDecreasing(s) ==> StrictlyIncreasing(Reversed(s))
    ensures StrictlyIncreasing(s) ==> StrictlyDecreasing(Reversed(s))
    ensures Reversed(Reversed(s)) == s
  {
    var r := Reversed(s);
    forall x | x in s ensures x in r {
      var i :| 0 <= i < |s| && s[i] == x;
      assert r[|s| - 1 - i] == x;
    }
  }

  /**
   * `sort_floors`: the floors of one direction group, each once, in the order
   * the car passes them: descending when going down, ascending when going up
   * or staying level.
   */
  function SortFloors(direction: Direction, floors: set<int>): (r: seq<int>)
    ensures Elems(r) == floors
    ensures |r| == |floors|
    ensures direction == Down ==> StrictlyDecreasing(r)
    ensures direction != Down ==> StrictlyIncreasing(r)
  {
    var ascending := SortedAscending(floors);
    ReversedFacts(ascending);
    if direction == Down then Reversed(ascending) else ascending
  }

  /** The order `SortFloors` picks is the only duplicate-free monotone listing for its direction. */
  lemma SortFloorsUnique(direction: Direction, floors: set<int>, r: seq<int>)
    requires Elems(r) == floors
    requires direction == Down ==> StrictlyDecreasing(r)
    requires direction != Down ==> StrictlyIncreasing(r)
    ensures r == SortFloors(direction, floors)
  {
    if direction == Down {
      ReversedFacts(r);
      SortedAscendingUnique(Reversed(r), floors);
    } else {
      SortedAscendingUnique(r, floors);
    }
  }

  /** Visiting a strictly monotone list costs the gap between its ends. */
  lemma {:induction false} PairwiseAbsMonotone(floors: seq<int>)
    requires StrictlyIncreasing(floors) || StrictlyDecreasing(floors)
    requires floors != []
    ensures PairwiseAbs(floors) == Abs(floors[0] - floors[|floors| - 1])
    decreases |floors|
  {
    if |floors| > 1 {
      PairwiseAbsMonotone(floors[1..]);
    }
  }

  /**
   * The design rationale of the compressed mode: the order `SortFloors`
   * gives a group's floors is a shortest way to visit them all. Any list of
   * floors that visits every floor of the group travels at least as far.
   */
  lemma SortedRunIsShortest(direction: Direction, floors: set<int>, visit: seq<int>)
    requires floors <= Elems(visit)
    ensures PairwiseAbs(SortFloors(direction, floors)) <= PairwiseAbs(visit)
  {
    var r := SortFloors(direction, floors);
    if r != [] {
      PairwiseAbsMonotone(r);
      var a, b := r[0], r[|r| - 1];
      assert a in Elems(visit) && b in Elems(visit);
      var i :| 0 <= i < |visit| && visit[i] == a;
      var j :| 0 <= j < |visit| && visit[j] == b;
      if i <= j {
        PairwiseAbsCoversSpan(visit, i, j);
      } else {
        PairwiseAbsCoversSpan(visit, j, i);
      }
    }
  }
}
