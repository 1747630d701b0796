/**
 * The Levenshtein table of analysis/fuzzy.go and its meaning: the length of a
 * shortest script of single-byte inserts, deletes and substitutions.
 */
module EditDistance {
  import opened Bytes

  // --- What the distance means -------------------------------------------------

  /** One edit at a position of the current string. */
  datatype Edit =
    | Insert(at: nat, b: byte)
    | Delete(at: nat)
    | Substitute(at: nat, b: byte)
  {
    predicate Fits(s: bytes) {
      if Insert? then at <= |s| else at < |s|
    }

    function Apply(s: bytes): bytes
      requires Fits(s)
    {
      match this
      case Insert(at, b) => s[..at] + [b] + s[at..]
      case Delete(at) => s[..at] + s[at + 1..]
      case Substitute(at, b) => s[..at] + [b] + s[at + 1..]
    }
  }

  type Script = seq<Edit>

  /** The edits run one after another and turn `a` into `b`. */
  predicate Transforms(script: Script, a: bytes, b: bytes) {
    if script == [] then a == b
    else script[0].Fits(a) && Transforms(script[1..], script[0].Apply(a), b)
  }

  /** `d` is the length of a shortest script from `a` to `b`. */
  ghost predicate IsDistance(a: bytes, b: bytes, d: nat) {
    && (exists script :: |script| == d && Transforms(script, a, b))
    && (forall script :: Transforms(script, a, b) ==> d <= |script|)
  }

  // --- The recurrence of the table ---------------------------------------------

  function Min(x: nat, y: nat): nat { if x < y then x else y }

  function Init(s: bytes): bytes
    requires s != []
  {
    s[..|s| - 1]
  }

  function Last(s: bytes): byte
    requires s != []
  {
    s[|s| - 1]
  }

  function Lev(a: bytes, b: bytes): nat
    decreases |a| + |b|
  {
    if a == [] then |b|
    else if b == [] then |a|
    else if Last(a) == Last(b) then Lev(Init(a), Init(b))
    else 1 + Min(Lev(Init(a), b), Min(Lev(a, Init(b)), Lev(Init(a), Init(b))))
  }

  // --- The table as the program fills it ---------------------------------------

  /** The distance between two prefixes, the meaning of one table cell. */
  ghost function Cell(a: bytes, b: bytes, i: nat, j: nat): nat
    requires i <= |a| && j <= |b|
  {
    Lev(a[..i], b[..j])
  }

  lemma CellBorder(a: bytes, b: bytes)
    ensures forall i :: 0 <= i <= |a| ==> Cell(a, b, i, 0) == i
    ensures forall j :: 0 <= j <= |b| ==> Cell(a, b, 0, j) == j
    ensures Cell(a, b, |a|, |b|) == Lev(a, b)
  {
    assert a[..|a|] == a && b[..|b|] == b;
  }

  lemma CellStep(a: bytes, b: bytes, i: nat, j: nat)
    requires 0 < i <= |a| && 0 < j <= |b|
    ensures Cell(a, b, i, j) ==
            if a[i - 1] == b[j - 1] then Cell(a, b, i - 1, j - 1)
            else 1 + Min(Cell(a, b, i - 1, j), Min(Cell(a, b, i, j - 1), Cell(a, b, i - 1, j - 1)))
  {
    assert Init(a[..i]) == a[..i - 1] && Init(b[..j]) == b[..j - 1];
    Unfold(a[..i], b[..j]);
  }

  /** Every cell of the finished rows holds the distance between its two prefixes. */
  ghost predicate RowsDone(dp: array2<nat>, a: bytes, b: bytes, rows: nat)
    requires dp.Length0 == |a| + 1 && dp.Length1 == |b| + 1 && rows <= dp.Length0
    reads dp
  {
    forall i, j :: 0 <= i < rows && 0 <= j <= |b| ==> dp[i, j] == Cell(a, b, i, j)
  }

  method FillTable(a: bytes, b: bytes) returns (dp: array2<nat>)
    ensures dp.Length0 == |a| + 1 && dp.Length1 == |b| + 1
    ensures RowsDone(dp, a, b, |a| + 1)
  {
    hide Cell;
    dp := new nat[|a| + 1, |b| + 1]((i, j) => 0);
    for i := 0 to |a| + 1
      invariant forall k :: 0 <= k < i ==> dp[k, 0] == k
    {
      dp[i, 0] := i;
    }
    for j := 0 to |b| + 1
      invariant forall k :: 0 <= k <= |a| ==> dp[k, 0] == k
      invariant forall k :: 0 <= k < j ==> dp[0, k] == k
    {
      dp[0, j] := j;
    }
    CellBorder(a, b);
    for i := 1 to |a| + 1
      invariant RowsDone(dp, a, b, i)
      invariant forall k :: 0 <= k <= |a| ==> dp[k, 0] == Cell(a, b, k, 0)
    {
      FillRow(dp, a, b, i);
    }
  }

  method FillRow(dp: array2<nat>, a: bytes, b: bytes, i: nat)
    requires dp.Length0 == |a| + 1 && dp.Length1 == |b| + 1 && 0 < i <= |a|
    requires RowsDone(dp, a, b, i)
    requires forall k :: 0 <= k <= |a| ==> dp[k, 0] == Cell(a, b, k, 0)
    modifies dp
    ensures RowsDone(dp, a, b, i + 1)
    ensures forall k :: 0 <= k <= |a| ==> dp[k, 0] == Cell(a, b, k, 0)
  {
    hide Cell;
    for j := 1 to |b| + 1
      invariant RowsDone(dp, a, b, i)
      invariant forall k :: 0 <= k <= |a| ==> dp[k, 0] == Cell(a, b, k, 0)
      invariant forall l :: 0 <= l < j ==> dp[i, l] == Cell(a, b, i, l)
    {
      CellStep(a, b, i, j);
      if a[i - 1] == b[j - 1] {
        dp[i, j] := dp[i - 1, j - 1];
      } else {
        dp[i, j] := 1 + Min(dp[i - 1, j], Min(dp[i, j - 1], dp[i - 1, j - 1]));
      }
    }
  }

  method Compute(a: bytes, b: bytes) returns (d: nat)
    ensures IsDistance(a, b, d)
  {
    var dp := FillTable(a, b);
    d := dp[|a|, |b|];
    CellBorder(a, b);
    LevIsDistance(a, b);
  }

  // --- Neighbouring cells ------------------------------------------------------

  /** Neighbouring cells differ by at most one; so a free diagonal loses nothing. */
  lemma {:induction false} Neighbours(a: bytes, b: bytes)
    ensures a != [] ==> Lev(Init(a), b) <= Lev(a, b) + 1 && Lev(a, b) <= Lev(Init(a), b) + 1
    ensures b != [] ==> Lev(a, Init(b)) <= Lev(a, b) + 1 && Lev(a, b) <= Lev(a, Init(b)) + 1
    decreases |a| + |b|
  {
    if a != [] && b != [] {
      Neighbours(Init(a), b);
      Neighbours(a, Init(b));
      Neighbours(Init(a), Init(b));
    }
  }

  /** One step of the recurrence on its own, so that proofs unfold it exactly once. */
  lemma Unfold(a: bytes, b: bytes)
    requires a != [] && b != []
    ensures Last(a) == Last(b) ==> Lev(a, b) == Lev(Init(a), Init(b))
    ensures Last(a) != Last(b) ==>
              Lev(a, b) == 1 + Min(Lev(Init(a), b), Min(Lev(a, Init(b)), Lev(Init(a), Init(b))))
  {
  }

  /** The textbook recurrence, in which a match still competes with an insert and a delete. */
  lemma FreeDiagonal(a: bytes, b: bytes)
    requires a != [] && b != []
    ensures var up, left := 1 + Lev(Init(a), b), 1 + Lev(a, Init(b));
            var diagonal := Lev(Init(a), Init(b)) + if Last(a) == Last(b) then 0 else 1;
            Lev(a, b) <= up && Lev(a, b) <= left && Lev(a, b) <= diagonal && Lev(a, b) in {up, left, diagonal}
  {
    Unfold(a, b);
    if Last(a) == Last(b) {
      Neighbours(Init(a), b);
      Neighbours(a, Init(b));
    }
  }

  // --- A metric ----------------------------------------------------------------

  lemma {:induction false} LengthBounds(a: bytes, b: bytes)
    ensures |a| - |b| <= Lev(a, b) && |b| - |a| <= Lev(a, b)
    ensures Lev(a, b) <= |a| || Lev(a, b) <= |b|
    decreases |a| + |b|
  {
    if a != [] && b != [] {
      LengthBounds(Init(a), b);
      LengthBounds(a, Init(b));
      LengthBounds(Init(a), Init(b));
    }
  }

  lemma {:induction false} ZeroOnlyOnEqual(a: bytes, b: bytes)
    ensures Lev(a, b) == 0 <==> a == b
    decreases |a| + |b|
  {
    if a != [] && b != [] {
      ZeroOnlyOnEqual(Init(a), Init(b));
      assert a == Init(a) + [Last(a)] && b == Init(b) + [Last(b)];
    }
  }

  lemma {:induction false} Symmetric(a: bytes, b: bytes)
    ensures Lev(a, b) == Lev(b, a)
    decreases |a| + |b|
  {
    if a != [] && b != [] {
      Symmetric(Init(a), b);
      Symmetric(a, Init(b));
      Symmetric(Init(a), Init(b));
    }
  }

  lemma {:induction false} Triangle(a: bytes, b: bytes, c: bytes)
    ensures Lev(a, c) <= Lev(a, b) + Lev(b, c)
    decreases |a| + |b| + |c|
  {
    if a == [] || b == [] || c == [] {
      LengthBounds(a, b);
      LengthBounds(b, c);
      LengthBounds(a, c);
      if b == [] && a != [] && c != [] {
        LengthBounds(a, c);
      }
    } else {
      FreeDiagonal(a, b);
      FreeDiagonal(b, c);
      FreeDiagonal(a, c);
      Triangle(Init(a), b, c);
      Triangle(a, b, Init(c));
      Triangle(a, Init(b), c);
      Triangle(a, Init(b), Init(c));
      Triangle(Init(a), Init(b), c);
      Triangle(Init(a), Init(b), Init(c));
    }
  }

  // --- Optimality over scripts -------------------------------------------------

  lemma {:induction false} CommonTail(a: bytes, b: bytes, t: bytes)
    ensures Lev(a + t, b + t) == Lev(a, b)
    decreases |t|
  {
    if t == [] {
      assert a + t == a && b + t == b;
    } else {
      assert Init(a + t) == a + Init(t) && Init(b + t) == b + Init(t);
      CommonTail(a, b, Init(t));
    }
  }

  /** One edit moves at most distance one. */
  lemma OneEdit(e: Edit, a: bytes)
    requires e.Fits(a)
    ensures Lev(a, e.Apply(a)) <= 1
  {
    hide Lev;
    var head := a[..e.at];
    ZeroOnlyOnEqual(head, head);
    match e
    case Insert(at, b) =>
      assert a == head + a[at..] && Init(head + [b]) == head;
      CommonTail(head, head + [b], a[at..]);
      Neighbours(head, head + [b]);
    case Delete(at) =>
      assert a == (head + [a[at]]) + a[at + 1..] && Init(head + [a[at]]) == head;
      CommonTail(head + [a[at]], head, a[at + 1..]);
      Neighbours(head + [a[at]], head);
    case Substitute(at, b) =>
      assert a == (head + [a[at]]) + a[at + 1..] && Init(head + [a[at]]) == head && Init(head + [b]) == head;
      CommonTail(head + [a[at]], head + [b], a[at + 1..]);
      FreeDiagonal(head + [a[at]], head + [b]);
  }

  lemma {:induction false} NoShorterScript(script: Script, a: bytes, b: bytes)
    requires Transforms(script, a, b)
    ensures Lev(a, b) <= |script|
    decreases |script|
  {
    if script == [] {
      ZeroOnlyOnEqual(a, b);
    } else {
      var a' := script[0].Apply(a);
      NoShorterScript(script[1..], a', b);
      OneEdit(script[0], a);
      Triangle(a, a', b);
    }
  }

  lemma EditWithTail(e: Edit, a: bytes, t: bytes)
    requires e.Fits(a)
    ensures e.Fits(a + t) && e.Apply(a + t) == e.Apply(a) + t
  {
    assert (a + t)[..e.at] == a[..e.at];
    if e.Insert? {
      assert (a + t)[e.at..] == a[e.at..] + t;
    } else {
      assert (a + t)[e.at + 1..] == a[e.at + 1..] + t;
    }
  }

  /** A script keeps working with a common tail behind both strings. */
  lemma {:induction false} ScriptWithTail(script: Script, a: bytes, b: bytes, t: bytes)
    requires Transforms(script, a, b)
    ensures Transforms(script, a + t, b + t)
    decreases |script|
  {
    if script != [] {
      ScriptWithTail(script[1..], script[0].Apply(a), b, t);
      EditWithTail(script[0], a, t);
    }
  }

  lemma {:induction false} ScriptThenEdit(script: Script, a: bytes, b: bytes, e: Edit)
    requires Transforms(script, a, b) && e.Fits(b)
    ensures Transforms(script + [e], a, e.Apply(b))
    decreases |script|
  {
    if script == [] {
      assert Transforms([], e.Apply(a), e.Apply(b));
      assert (script + [e])[1..] == [];
    } else {
      ScriptThenEdit(script[1..], script[0].Apply(a), b, e);
      assert (script + [e])[1..] == script[1..] + [e];
    }
  }

  lemma InsertAll(b: bytes) returns (script: Script)
    ensures |script| == |b| && Transforms(script, [], b)
  {
    if b == [] {
      script := [];
    } else {
      var s := InsertAll(Init(b));
      ScriptThenEdit(s, [], Init(b), Insert(|b| - 1, Last(b)));
      assert Insert(|b| - 1, Last(b)).Apply(Init(b)) == b;
      script := s + [Insert(|b| - 1, Last(b))];
    }
  }

  lemma DeleteAll(a: bytes) returns (script: Script)
    ensures |script| == |a| && Transforms(script, a, [])
  {
    if a == [] {
      script := [];
    } else {
      var s := DeleteAll(Init(a));
      assert Delete(|a| - 1).Apply(a) == Init(a);
      script := [Delete(|a| - 1)] + s;
    }
  }

  lemma EditThenScript(e: Edit, script: Script, a: bytes, b: bytes)
    requires e.Fits(a) && Transforms(script, e.Apply(a), b)
    ensures Transforms([e] + script, a, b)
  {
    assert ([e] + script)[1..] == script;
  }

  /** A script as short as the table promises. */
  lemma ShortestScript(a: bytes, b: bytes) returns (script: Script)
    ensures |script| == Lev(a, b) && Transforms(script, a, b)
    decreases |a| + |b|
  {
    hide Transforms;
    if a == [] {
      script := InsertAll(b);
    } else if b == [] {
      script := DeleteAll(a);
    } else {
      assert a == Init(a) + [Last(a)] && b == Init(b) + [Last(b)];
      if Last(a) == Last(b) {
        script := ShortestScript(Init(a), Init(b));
        ScriptWithTail(script, Init(a), Init(b), [Last(b)]);
      } else if Lev(a, b) == 1 + Lev(Init(a), b) {
        var s := ShortestScript(Init(a), b);
        assert Delete(|a| - 1).Apply(a) == Init(a);
        EditThenScript(Delete(|a| - 1), s, a, b);
        script := [Delete(|a| - 1)] + s;
      } else if Lev(a, b) == 1 + Lev(a, Init(b)) {
        var s := ShortestScript(a, Init(b));
        ScriptThenEdit(s, a, Init(b), Insert(|b| - 1, Last(b)));
        assert Insert(|b| - 1, Last(b)).Apply(Init(b)) == b;
        script := s + [Insert(|b| - 1, Last(b))];
      } else {
        var s := ShortestScript(Init(a), Init(b));
        ScriptWithTail(s, Init(a), Init(b), [Last(b)]);
        assert Substitute(|a| - 1, Last(b)).Apply(a) == Init(a) + [Last(b)];
        EditThenScript(Substitute(|a| - 1, Last(b)), s, a, b);
        script := [Substitute(|a| - 1, Last(b))] + s;
      }
    }
  }

  lemma LevIsDistance(a: bytes, b: bytes)
    ensures IsDistance(a, b, Lev(a, b))
  {
    var script := ShortestScript(a, b);
    forall s | Transforms(s, a, b) ensures Lev(a, b) <= |s| {
      NoShorterScript(s, a, b);
    }
  }

  /** The program's answers form a metric on byte strings, bounded by the lengths. */
  lemma DistanceIsMetric(a: bytes, b: bytes, c: bytes, ab: nat, bc: nat, ac: nat)
    requires IsDistance(a, b, ab) && IsDistance(b, c, bc) && IsDistance(a, c, ac)
    ensures ab == 0 <==> a == b
    ensures IsDistance(b, a, ab)
    ensures ac <= ab + bc
    ensures |a| - |b| <= ab && |b| - |a| <= ab && (ab <= |a| || ab <= |b|)
  {
    LevIsDistance(a, b);
    LevIsDistance(b, a);
    LevIsDistance(b, c);
    LevIsDistance(a, c);
    assert ab == Lev(a, b) && bc == Lev(b, c) && ac == Lev(a, c);
    ZeroOnlyOnEqual(a, b);
    Symmetric(a, b);
    Triangle(a, b, c);
    LengthBounds(a, b);
  }

  /** `b` is `a` with one byte more. */
  predicate OneMore(a: bytes, b: bytes) {
    exists i | 0 <= i < |b| :: a == b[..i] + b[i + 1..]
  }

  /** The strings differ in one byte. */
  predicate OneOther(a: bytes, b: bytes) {
    |a| == |b| && exists i | 0 <= i < |a| :: a[i] != b[i] && forall k | 0 <= k < |a| && k != i :: a[k] == b[k]
  }

  /** Distance one, in plain words: one byte more, one byte less, or one byte other. */
  lemma OneEditApart(a: bytes, b: bytes)
    ensures IsDistance(a, b, 1) <==> OneMore(a, b) || OneMore(b, a) || OneOther(a, b)
  {
    hide IsDistance, OneMore, OneOther;
    if IsDistance(a, b, 1) {
      var e := TheEdit(a, b);
      OneEditMeans(e, a, b);
    }
    if OneMore(a, b) || OneMore(b, a) || OneOther(a, b) {
      var e := EditFor(a, b);
      OneStep(e, a, b);
    }
  }

  lemma EditFor(a: bytes, b: bytes) returns (e: Edit)
    requires OneMore(a, b) || OneMore(b, a) || OneOther(a, b)
    ensures e.Fits(a) && e.Apply(a) == b && a != b
  {
    if OneMore(a, b) {
      var i :| 0 <= i < |b| && a == b[..i] + b[i + 1..];
      e := Insert(i, b[i]);
      Inserts(a, b, i);
    } else if OneMore(b, a) {
      var i :| 0 <= i < |a| && b == a[..i] + a[i + 1..];
      e := Delete(i);
    } else {
      var i :| 0 <= i < |a| && a[i] != b[i] && forall k | 0 <= k < |a| && k != i :: a[k] == b[k];
      e := Substitute(i, b[i]);
      Substitutes(a, b, i);
    }
  }

  lemma Inserts(a: bytes, b: bytes, i: nat)
    requires i < |b| && a == b[..i] + b[i + 1..]
    ensures |a| == |b| - 1 && a[..i] + [b[i]] + a[i..] == b
  {
    assert a[..i] == b[..i] && a[i..] == b[i + 1..];
  }

  lemma Substitutes(a: bytes, b: bytes, i: nat)
    requires i < |a| == |b| && forall k | 0 <= k < |a| && k != i :: a[k] == b[k]
    ensures a[..i] + [b[i]] + a[i + 1..] == b
  {
  }

  lemma TheEdit(a: bytes, b: bytes) returns (e: Edit)
    requires IsDistance(a, b, 1)
    ensures e.Fits(a) && e.Apply(a) == b && a != b
  {
    var nothing: Script := [];
    assert Transforms(nothing, a, a) && |nothing| == 0;
    var script: Script :| |script| == 1 && Transforms(script, a, b);
    e := script[0];
    assert script[1..] == [];
    assert Transforms([], e.Apply(a), b);
  }

  lemma OneEditMeans(e: Edit, a: bytes, b: bytes)
    requires e.Fits(a) && e.Apply(a) == b && a != b
    ensures OneMore(a, b) || OneMore(b, a) || OneOther(a, b)
  {
    var i := e.at;
    match e
    case Insert(_, _) =>
      assert a == b[..i] + b[i + 1..];
    case Delete(_) =>
    case Substitute(_, _) =>
      assert forall k | 0 <= k < |a| && k != i :: a[k] == b[k];
      assert |a| == |b|;
      SameIfAt(a, b, i);
  }

  lemma SameIfAt(a: bytes, b: bytes, i: nat)
    requires i < |a| == |b| && forall k | 0 <= k < |a| && k != i :: a[k] == b[k]
    ensures a[i] == b[i] ==> a == b
  {
  }

  lemma OneStep(e: Edit, a: bytes, b: bytes)
    requires e.Fits(a) && e.Apply(a) == b && a != b
    ensures IsDistance(a, b, 1)
  {
    assert [e][1..] == [];
    assert |[e]| == 1 && Transforms([e], a, b);
  }
}
