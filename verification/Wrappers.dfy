/** A value that may be missing, and facts about sequences and sets of any type. */
module Wrappers {
  datatype Option<+T> = None | Some(value: T)

  ghost predicate NoDuplicates<T>(s: seq<T>) {
    forall i, j :: 0 <= i < j < |s| ==> s[i] != s[j]
  }

  lemma OnlyOne<T>(s: seq<T>, x: T)
    requires NoDuplicates(s) && x in s && forall i :: 0 <= i < |s| ==> s[i] == x
    ensures s == [x]
  {
    assert s[0] == s[|s| - 1];
  }

  lemma SubsetSize<T>(s: set<T>, t: set<T>)
    requires s <= t
    ensures |s| <= |t| && (|s| == |t| <==> s == t)
  {
    assert t == s + (t - s);
  }

  // The orders in which a collection of keys can be iterated.
  ghost predicate Lists<T(!new)>(order: seq<T>, s: set<T>) {
    NoDuplicates(order) && forall x :: x in order <==> x in s
  }

  lemma {:induction false} SomeListing<T(!new)>(s: set<T>) returns (order: seq<T>)
    ensures Lists(order, s)
    decreases s
  {
    if s == {} {
      order := [];
    } else {
      var x :| x in s;
      var rest := SomeListing(s - {x});
      order := rest + [x];
    }
  }
}
