/** List comprehensions with a condition, `[f(x) for x in xs if keep(x)]`, kept in order. */
module Lists {
  import opened Wrappers

  /** `[x for x in xs if keep(x)]`. */
  function Filter<T>(xs: seq<T>, keep: T -> bool): (r: seq<T>)
    ensures |r| <= |xs|
    ensures forall i :: 0 <= i < |r| ==> keep(r[i]) && r[i] in xs
    ensures forall i :: 0 <= i < |xs| && keep(xs[i]) ==> xs[i] in r
  {
    if xs == [] then []
    else
      var init := xs[..|xs| - 1];
      var last := xs[|xs| - 1];
      var prev := Filter(init, keep);
      var r := prev + (if keep(last) then [last] else []);
      forall i | 0 <= i < |r| ensures r[i] in xs {
        if i < |prev| {
          assert r[i] == prev[i] && prev[i] in init;
        } else {
          assert r[i] == xs[|xs| - 1];
        }
      }
      forall i | 0 <= i < |xs| && keep(xs[i]) ensures xs[i] in r {
        if i < |init| {
          assert xs[i] == init[i];
        }
      }
      r
  }

  /** Filtering distributes over concatenation, so the input order is kept. */
  lemma {:induction false} FilterAppend<T>(a: seq<T>, b: seq<T>, keep: T -> bool)
    ensures Filter(a + b, keep) == Filter(a, keep) + Filter(b, keep)
    decreases |b|
  {
    if b == [] {
      assert a + b == a;
    } else {
      var binit := b[..|b| - 1];
      assert (a + b)[..|a + b| - 1] == a + binit;
      assert (a + b)[|a + b| - 1] == b[|b| - 1];
      FilterAppend(a, binit, keep);
    }
  }

  /** Nothing is dropped exactly when every element is kept. */
  lemma {:induction false} FilterKeepsAll<T>(xs: seq<T>, keep: T -> bool)
    ensures |Filter(xs, keep)| == |xs| <==> forall i :: 0 <= i < |xs| ==> keep(xs[i])
    decreases |xs|
  {
    if xs != [] {
      var init := xs[..|xs| - 1];
      FilterKeepsAll(init, keep);
      assert forall i :: 0 <= i < |init| ==> init[i] == xs[i];
    }
  }

  /** `[f(x) for x in xs if keep(x)]`. */
  function FilterMap<T, U>(xs: seq<T>, keep: T -> bool, f: T -> U): (r: seq<U>)
    ensures |r| <= |xs|
    ensures r == [] <==> forall i :: 0 <= i < |xs| ==> !keep(xs[i])
    ensures forall i :: 0 <= i < |r| ==> exists j :: 0 <= j < |xs| && keep(xs[j]) && r[i] == f(xs[j])
  {
    if xs == [] then []
    else
      var init := xs[..|xs| - 1];
      var last := xs[|xs| - 1];
      var prev := FilterMap(init, keep, f);
      var r := prev + (if keep(last) then [f(last)] else []);
      forall i | 0 <= i < |r|
        ensures exists j :: 0 <= j < |xs| && keep(xs[j]) && r[i] == f(xs[j])
      {
        if i < |prev| {
          var j :| 0 <= j < |init| && keep(init[j]) && prev[i] == f(init[j]);
          assert xs[j] == init[j];
        } else {
          assert keep(xs[|xs| - 1]) && r[i] == f(xs[|xs| - 1]);
        }
      }
      assert forall i :: 0 <= i < |init| ==> xs[i] == init[i];
      r
  }

  /** Every kept element contributes its image. */
  lemma {:induction false} FilterMapKeeps<T, U>(xs: seq<T>, keep: T -> bool, f: T -> U, j: nat)
    requires j < |xs| && keep(xs[j])
    ensures f(xs[j]) in FilterMap(xs, keep, f)
    decreases |xs|
  {
    var init := xs[..|xs| - 1];
    if j < |init| {
      assert init[j] == xs[j];
      FilterMapKeeps(init, keep, f, j);
    }
  }

  /** `[f(x) for x in xs]` where `f` may fail: `None` as soon as one element fails. */
  function MapAll<T, U>(xs: seq<T>, f: T -> Option<U>): (r: Option<seq<U>>)
    ensures r.Some? <==> forall i :: 0 <= i < |xs| ==> f(xs[i]).Some?
    ensures r.Some? ==> |r.value| == |xs| && forall i :: 0 <= i < |xs| ==> f(xs[i]) == Some(r.value[i])
  {
    if xs == [] then Some([])
    else
      var init := xs[..|xs| - 1];
      assert forall i :: 0 <= i < |init| ==> xs[i] == init[i];
      var prefix, last := MapAll(init, f), f(xs[|xs| - 1]);
      if prefix.Some? && last.Some? then Some(prefix.value + [last.value]) else None
  }

  /** When every element maps to the corresponding value, the whole list does. */
  lemma {:induction false} MapAllSome<T, U>(xs: seq<T>, f: T -> Option<U>, vs: seq<U>)
    requires |vs| == |xs| && forall i :: 0 <= i < |xs| ==> f(xs[i]) == Some(vs[i])
    ensures MapAll(xs, f) == Some(vs)
    decreases |xs|
  {
    if xs != [] {
      var n := |xs| - 1;
      MapAllSome(xs[..n], f, vs[..n]);
      assert vs[..n] + [vs[n]] == vs;
    }
  }

  /** One more element of the input: the loop step of a comprehension. */
  lemma FilterMapStep<T, U>(xs: seq<T>, i: nat, keep: T -> bool, f: T -> U)
    requires i < |xs|
    ensures FilterMap(xs[..i + 1], keep, f) == FilterMap(xs[..i], keep, f) + (if keep(xs[i]) then [f(xs[i])] else [])
  {
    assert xs[..i + 1][..i] == xs[..i];
  }

  /** One more element of the input: the loop step of a filter. */
  lemma FilterStep<T>(xs: seq<T>, i: nat, keep: T -> bool)
    requires i < |xs|
    ensures Filter(xs[..i + 1], keep) == Filter(xs[..i], keep) + (if keep(xs[i]) then [xs[i]] else [])
  {
    assert xs[..i + 1][..i] == xs[..i];
  }

  /** `{y for x in xs for y in f(x)}`: the union of `f` over the list. */
  function UnionOver<T, U>(xs: seq<T>, f: T -> set<U>): set<U> {
    if xs == [] then {} else UnionOver(xs[..|xs| - 1], f) + f(xs[|xs| - 1])
  }

  /** Something is in the union exactly when it comes from one of the elements. */
  lemma {:induction false} UnionOverMembers<T, U>(xs: seq<T>, f: T -> set<U>, y: U)
    ensures y in UnionOver(xs, f) <==> exists i :: 0 <= i < |xs| && y in f(xs[i])
    decreases |xs|
  {
    if xs != [] {
      var init := xs[..|xs| - 1];
      UnionOverMembers(init, f, y);
      if y in UnionOver(init, f) {
        var i :| 0 <= i < |init| && y in f(init[i]);
        assert xs[i] == init[i];
      }
      if exists i :: 0 <= i < |xs| && y in f(xs[i]) {
        var i :| 0 <= i < |xs| && y in f(xs[i]);
        if i < |init| {
          assert init[i] == xs[i];
        }
      }
    }
  }

  /** One more element of the input: the loop step of a union. */
  lemma UnionOverStep<T, U>(xs: seq<T>, i: nat, f: T -> set<U>)
    requires i < |xs|
    ensures UnionOver(xs[..i + 1], f) == UnionOver(xs[..i], f) + f(xs[i])
  {
    assert xs[..i + 1][..i] == xs[..i];
  }
}
