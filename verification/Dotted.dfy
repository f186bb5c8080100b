/** Splitting a name at its dots and joining labels again, for names of bytes or of characters. */
module Dotted {

  function Join<T>(labels: seq<seq<T>>, dot: T): seq<T> {
    if |labels| == 0 then []
    else if |labels| == 1 then labels[0]
    else labels[0] + [dot] + Join(labels[1..], dot)
  }

  function Split<T(==)>(name: seq<T>, dot: T): (labels: seq<seq<T>>)
    ensures |labels| > 0
  {
    if name == [] then [[]] else Glue(name[0], Split(name[1..], dot), dot)
  }

  /** Put one more symbol in front of a split name: a dot opens a new label. */
  function Glue<T(==)>(x: T, labels: seq<seq<T>>, dot: T): (r: seq<seq<T>>)
    requires labels != []
    ensures r != []
  {
    if x == dot then [[]] + labels else [[x] + labels[0]] + labels[1..]
  }

  lemma JoinOfGlue<T>(x: T, labels: seq<seq<T>>, dot: T)
    requires labels != []
    ensures Join(Glue(x, labels, dot), dot) == [x] + Join(labels, dot)
  {
    if x == dot {
      JoinCons([], labels, dot);
    } else {
      JoinCons([x] + labels[0], labels[1..], dot);
      JoinCons(labels[0], labels[1..], dot);
      assert labels == [labels[0]] + labels[1..];
    }
  }

  lemma GlueAppend<T>(x: T, xs: seq<seq<T>>, ys: seq<seq<T>>, dot: T)
    requires xs != []
    ensures Glue(x, xs + ys, dot) == Glue(x, xs, dot) + ys
  {
    assert (xs + ys)[1..] == xs[1..] + ys;
  }

  lemma JoinCons<T>(l: seq<T>, rest: seq<seq<T>>, dot: T)
    ensures Join([l] + rest, dot) == if rest == [] then l else l + [dot] + Join(rest, dot)
  {
    assert ([l] + rest)[1..] == rest;
  }

  /** Nothing is lost by splitting. */
  lemma {:induction false} JoinOfSplit<T>(name: seq<T>, dot: T)
    ensures Join(Split(name, dot), dot) == name
  {
    if name != [] {
      JoinOfSplit(name[1..], dot);
      JoinOfGlue(name[0], Split(name[1..], dot), dot);
    }
  }

  ghost predicate DotFree<T>(labels: seq<seq<T>>, dot: T) {
    forall i :: 0 <= i < |labels| ==> dot !in labels[i]
  }

  lemma {:induction false} SplitIsDotFree<T>(name: seq<T>, dot: T)
    ensures DotFree(Split(name, dot), dot)
  {
    if name != [] {
      SplitIsDotFree(name[1..], dot);
    }
  }

  /** Splitting distributes over a dot. */
  lemma {:induction false} SplitAtDot<T>(a: seq<T>, b: seq<T>, dot: T)
    ensures Split(a + [dot] + b, dot) == Split(a, dot) + Split(b, dot)
  {
    if a == [] {
      assert a + [dot] + b == [dot] + b;
      assert ([dot] + b)[1..] == b;
    } else {
      var whole := a + [dot] + b;
      assert whole[1..] == a[1..] + [dot] + b;
      SplitAtDot(a[1..], b, dot);
      GlueAppend(a[0], Split(a[1..], dot), Split(b, dot), dot);
    }
  }

  lemma {:induction false} JoinAppend<T>(xs: seq<seq<T>>, ys: seq<seq<T>>, dot: T)
    requires xs != [] && ys != []
    ensures Join(xs + ys, dot) == Join(xs, dot) + [dot] + Join(ys, dot)
  {
    assert xs + ys == [xs[0]] + (xs[1..] + ys);
    JoinCons(xs[0], xs[1..] + ys, dot);
    JoinCons(xs[0], xs[1..], dot);
    assert xs == [xs[0]] + xs[1..];
    if |xs| > 1 {
      JoinAppend(xs[1..], ys, dot);
      assert xs[0] + [dot] + (Join(xs[1..], dot) + [dot] + Join(ys, dot)) ==
             xs[0] + [dot] + Join(xs[1..], dot) + [dot] + Join(ys, dot);
    }
  }
}
