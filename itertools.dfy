/**
 * The two pieces of Python's itertools that the path engine relies on:
 * `groupby` (with and without a key function) and `chain.from_iterable`.
 */
module IterTools {

  /** One item yielded by `itertools.groupby`: the shared key and the run it covers. */
  datatype Group<K, T> = Group(key: K, members: seq<T>)

  /** The items of the runs, in order: what the groups were cut from. */
  function Members<K, T>(gs: seq<Group<K, T>>): seq<T>
  {
    if gs == [] then [] else gs[0].members + Members(gs[1..])
  }

  /** A run is non-empty and every one of its items has the run's key. */
  ghost predicate IsRun<K, T>(g: Group<K, T>, key: T -> K)
  {
    |g.members| > 0 && forall j :: 0 <= j < |g.members| ==> key(g.members[j]) == g.key
  }

  /**
   * `gs` cuts `s` into runs of equal key that are maximal: two neighbouring
   * runs never share a key.
   */
  ghost predicate IsMaximalGrouping<T, K>(gs: seq<Group<K, T>>, s: seq<T>, key: T -> K)
  {
    && Members(gs) == s
    && (forall k :: 0 <= k < |gs| ==> IsRun(gs[k], key))
    && (forall k :: 0 <= k < |gs| - 1 ==> gs[k].key != gs[k + 1].key)
  }

  /** `itertools.groupby(s, key)`, materialised as a list of (key, run) pairs. */
  function GroupBy<T, K(==)>(s: seq<T>, key: T -> K): (gs: seq<Group<K, T>>)
    ensures IsMaximalGrouping(gs, s, key)
    ensures |gs| <= |s|
    ensures s != [] ==> gs != [] && gs[0].key == key(s[0])
    decreases |s|
  {
    if s == [] then []
    else
      var rest := GroupBy(s[1..], key);
      assert s == [s[0]] + s[1..];
      if rest != [] && rest[0].key == key(s[0]) then
        var head := Group(rest[0].key, [s[0]] + rest[0].members);
        assert Members([head] + rest[1..]) == head.members + Members(rest[1..]);
        [head] + rest[1..]
      else
        var head := Group(key(s[0]), [s[0]]);
        assert Members([head] + rest) == head.members + Members(rest);
        [head] + rest
  }

  lemma {:induction false} MembersCoverRuns<T, K>(gs: seq<Group<K, T>>, key: T -> K)
    requires forall k :: 0 <= k < |gs| ==> IsRun(gs[k], key)
    ensures |Members(gs)| >= |gs|
  {
    if gs != [] {
      MembersCoverRuns(gs[1..], key);
    }
  }

  /**
   * The maximal grouping of a sequence is unique, so `GroupBy` is the only
   * function with its postcondition: any grouping that cuts `s` into maximal
   * runs is the one `GroupBy` returns.
   */
  lemma {:induction false} GroupByUnique<T, K>(gs: seq<Group<K, T>>, s: seq<T>, key: T -> K)
    requires IsMaximalGrouping(gs, s, key)
    ensures gs == GroupBy(s, key)
    decreases |s|
  {
    MembersCoverRuns(gs, key);
    if s != [] {
      var g := gs[0];
      assert Members(gs) == g.members + Members(gs[1..]);
      assert g.members[0] == s[0];
      if |g.members| == 1 {
        assert Members(gs[1..]) == s[1..];
        GroupByUnique(gs[1..], s[1..], key);
        assert gs == [g] + gs[1..];
      } else {
        var tail := [Group(g.key, g.members[1..])] + gs[1..];
        assert Members(tail) == g.members[1..] + Members(gs[1..]);
        assert g.members == [g.members[0]] + g.members[1..];
        assert Members(tail) == s[1..];
        assert IsRun(tail[0], key);
        GroupByUnique(tail, s[1..], key);
        assert gs == [Group(g.key, [s[0]] + tail[0].members)] + tail[1..];
      }
    }
  }

  /** `itertools.chain.from_iterable`: the lists one after another. */
  function Chain<T>(ss: seq<seq<T>>): seq<T>
  {
    if ss == [] then [] else ss[0] + Chain(ss[1..])
  }

  lemma {:induction false} ChainAppend<T>(ss: seq<seq<T>>, last: seq<T>)
    ensures Chain(ss + [last]) == Chain(ss) + last
  {
    if ss == [] {
      assert [last][1..] == [];
    } else {
      assert (ss + [last])[1..] == ss[1..] + [last];
      ChainAppend(ss[1..], last);
    }
  }

  lemma ChainOfTwo<T>(x: seq<T>, y: seq<T>)
    ensures Chain([x, y]) == x + y
  {
    assert [x, y][1..] == [y];
    assert [y][1..] == [];
    assert Chain([y]) == y + [];
    assert y + [] == y;
  }

  lemma ChainOfThree<T>(x: seq<T>, y: seq<T>, z: seq<T>)
    ensures Chain([x, y, z]) == x + y + z
  {
    assert [x, y, z][1..] == [y, z];
    ChainOfTwo(y, z);
  }
}
