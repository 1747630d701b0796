/** Sequences up to permutation, sizes of sets, and strings joined by a colon. */
module Sequences {

  /** Taking one occurrence out of a sequence. */
  lemma TakeOut<T>(s: seq<T>, x: T) returns (front: seq<T>, back: seq<T>)
    requires x in multiset(s)
    ensures s == front + ([x] + back)
    ensures multiset(front + back) == multiset(s) - multiset{x}
  {
    var i :| 0 <= i < |s| && s[i] == x;
    front, back := s[..i], s[i + 1..];
    assert s == front + ([x] + back);
    assert multiset(s) == multiset(front) + multiset{x} + multiset(back);
  }

  /** The first element taken out. */
  lemma TakeHead<T>(s: seq<T>)
    requires s != []
    ensures s == [] + ([s[0]] + s[1..]) && [] + s[1..] == s[1..]
    ensures multiset(s[1..]) == multiset(s) - multiset{s[0]}
  {
    assert s == [s[0]] + s[1..];
  }

  lemma SameMultisetEmpty<T>(s: seq<T>, t: seq<T>)
    requires multiset(s) == multiset(t)
    ensures s == [] <==> t == []
  {
    assert |multiset(s)| == |s| && |multiset(t)| == |t|;
  }

  lemma SubsetSize<T>(a: set<T>, b: set<T>)
    requires a <= b
    ensures |a| <= |b|
  {
    assert b == a + (b - a);
  }

  /** What follows the last colon can be told apart from what precedes it. */
  lemma LastColonSplits(f: string, s: string, g: string, t: string)
    requires f + ":" + s == g + ":" + t && ':' !in s && ':' !in t
    ensures f == g && s == t
  {
    var whole := f + ":" + s;
    assert whole[|f|] == ':' && whole[|g|] == ':';
    assert forall k :: |f| < k < |whole| ==> whole[k] == s[k - |f| - 1];
    assert forall k :: |g| < k < |whole| ==> whole[k] == t[k - |g| - 1];
    assert f == whole[..|f|] && g == whole[..|g|];
    assert s == whole[|f| + 1..] && t == whole[|g| + 1..];
  }
}
