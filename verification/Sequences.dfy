/** Searching a list by key, and removing repetitions from it. */
module Sequences {
  import opened Wrappers

  /** The last place of a key, if it occurs. */
  function LastWithKey<T, K(==)>(s: seq<T>, key: T -> K, k: K): (r: Option<nat>)
    ensures r.Some? ==> r.value < |s| && key(s[r.value]) == k
    ensures r.None? ==> forall i | 0 <= i < |s| :: key(s[i]) != k
  {
    if s == [] then None
    else if key(s[|s| - 1]) == k then Some(|s| - 1)
    else LastWithKey(s[..|s| - 1], key, k)
  }

  /** Each element once, where it first occurs. */
  function FirstOccurrences<T(==)>(s: seq<T>): seq<T> {
    if s == [] then []
    else
      var front, x := s[..|s| - 1], s[|s| - 1];
      if x in front then FirstOccurrences(front) else FirstOccurrences(front) + [x]
  }

  lemma FirstOccurrencesStep<T>(front: seq<T>, x: T)
    ensures FirstOccurrences(front + [x]) ==
      if x in front then FirstOccurrences(front) else FirstOccurrences(front) + [x]
  {
    assert (front + [x])[..|front|] == front;
  }

  lemma {:induction false} SameMembers<T>(s: seq<T>, x: T)
    ensures x in FirstOccurrences(s) <==> x in s
  {
    if s != [] {
      var front, y := s[..|s| - 1], s[|s| - 1];
      assert s == front + [y];
      SameMembers(front, x);
    }
  }

  predicate FirstAt<T(==)>(s: seq<T>, i: nat, x: T) {
    i < |s| && s[i] == x && x !in s[..i]
  }

  /** Nothing appears twice, and the order kept is the order of first occurrence. */
  lemma {:induction false} FirstOccurrencesInOrder<T>(s: seq<T>, j: nat, k: nat) returns (a: nat, b: nat)
    requires j < k < |FirstOccurrences(s)|
    ensures FirstAt(s, a, FirstOccurrences(s)[j]) && FirstAt(s, b, FirstOccurrences(s)[k]) && a < b
    ensures FirstOccurrences(s)[j] != FirstOccurrences(s)[k]
  {
    var front, x := s[..|s| - 1], s[|s| - 1];
    if k < |FirstOccurrences(front)| {
      a, b := FirstOccurrencesInOrder(front, j, k);
      assert front[..a] == s[..a] && front[..b] == s[..b];
    } else {
      a := FirstPlace(front, FirstOccurrences(front)[j]);
      b := |front|;
      assert front[..a] == s[..a];
    }
  }

  lemma {:induction false} FirstPlace<T>(s: seq<T>, x: T) returns (i: nat)
    requires x in FirstOccurrences(s)
    ensures FirstAt(s, i, x)
  {
    var front, y := s[..|s| - 1], s[|s| - 1];
    if x in FirstOccurrences(front) {
      i := FirstPlace(front, x);
      assert front[..i] == s[..i];
    } else {
      i := |front|;
    }
  }

  lemma {:induction false} HeadFirst<T>(s: seq<T>)
    requires s != []
    ensures FirstOccurrences(s) != [] && FirstOccurrences(s)[0] == s[0]
  {
    if |s| > 1 { HeadFirst(s[..|s| - 1]); } else { assert s[..0] == []; }
  }
}
