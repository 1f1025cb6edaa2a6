/** Optional values, used where the Java code returns null or throws. */
module Wrappers {

  datatype Option<+T> = None | Some(value: T) {

    /** The wrapped value, or `default` when there is none. */
    function GetOr(default: T): T {
      match this
      case Some(v) => v
      case None => default
    }
  }
}

/** Lists that enumerate a set: each element once, in some order. */
module Enumerations {

  predicate Distinct<T(==)>(xs: seq<T>) {
    forall i, j :: 0 <= i < j < |xs| ==> xs[i] != xs[j]
  }

  /** `xs` lists every element of `s` exactly once and nothing else. */
  predicate Enumerates<T(==,!new)>(xs: seq<T>, s: set<T>) {
    Distinct(xs) && (forall x :: x in xs ==> x in s) && (forall x :: x in s ==> x in xs)
  }

  /** A list enumerating a set is as long as the set is large. */
  lemma {:induction false} EnumerationSize<T(!new)>(xs: seq<T>, s: set<T>)
    requires Enumerates(xs, s)
    ensures |xs| == |s|
    decreases |xs|
  {
    if xs != [] {
      var last := xs[|xs| - 1];
      var front := xs[..|xs| - 1];
      assert last !in front by {
        forall i | 0 <= i < |front| ensures front[i] != last {
          assert front[i] == xs[i];
        }
      }
      forall x | x in s - {last} ensures x in front {
        var i :| 0 <= i < |xs| && xs[i] == x;
        assert i < |xs| - 1;
        assert front[i] == x;
      }
      EnumerationSize(front, s - {last});
    } else {
      assert forall x :: x !in s;
      assert s == {};
    }
  }
}

