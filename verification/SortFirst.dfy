/** The sort-first walk of engine/search.go: ties, the early stop, and the pages drawn from it. */
module SortFirst {
  import opened Wrappers
  import opened Sorting
  import opened Paging
  import opened Sequences

  // --- What a walk meets -------------------------------------------------------

  /** The results a walk may return: one per qualifying, stored document, under its id. */
  type Scored = hits: map<DocId, Hit> | forall d <- hits :: hits[d].id == d

  /** Hits in the order of the sorted entries. */
  function Walked(entries: seq<DocId>, hits: Scored): seq<Hit> {
    if entries == [] then []
    else Walked(entries[..|entries| - 1], hits)
         + (if entries[|entries| - 1] in hits then [hits[entries[|entries| - 1]]] else [])
  }

  /** Documents without an entry in the sort field. */
  function Lacking(entries: seq<DocId>, hits: Scored): set<Hit> {
    set d | d in hits && d !in entries :: hits[d]
  }

  /** `tail` lists the set, best score first. */
  ghost predicate ListsByScore(tail: seq<Hit>, docs: set<Hit>) {
    && (forall i, j :: 0 <= i < j < |tail| ==> tail[i].score > tail[j].score)
    && (forall h :: h in tail <==> h in docs)
  }

  ghost predicate IsFullWalk(entries: seq<DocId>, hits: Scored, full: seq<Hit>) {
    exists tail :: ListsByScore(tail, Lacking(entries, hits)) && full == Walked(entries, hits) + tail
  }

  /** Different stored sort values, and different scores among documents that have none. */
  predicate NoTies(entries: seq<DocId>, hits: Scored) {
    && Unequal(Walked(entries, hits))
    && DifferentScores(Lacking(entries, hits))
  }

  predicate Unequal(walked: seq<Hit>) {
    forall i, j :: 0 <= i < j < |walked| ==> walked[i].sortValue != walked[j].sortValue
  }

  predicate DifferentScores(docs: set<Hit>) {
    forall g <- docs, h <- docs :: g != h ==> g.score != h.score
  }

  predicate TieBreak(x: Hit, y: Hit) { x.sortValue == y.sortValue && x.score > y.score }

  predicate ScoreLeq(x: Hit, y: Hit) { x.score >= y.score }

  // --- Ties --------------------------------------------------------------------

  /** Equal sort values stand next to each other. */
  predicate Grouped(w: seq<Hit>) {
    forall i, k, j :: 0 <= i < k < j < |w| && w[i].sortValue == w[j].sortValue ==> w[k].sortValue == w[i].sortValue
  }

  predicate SameValues(r: seq<Hit>, w: seq<Hit>) {
    |r| == |w| && forall i :: 0 <= i < |r| ==> r[i].sortValue == w[i].sortValue
  }

  /** Within equal sort values the best scores come first. */
  predicate BestFirst(r: seq<Hit>) {
    forall i, j :: 0 <= i < j < |r| && r[i].sortValue == r[j].sortValue ==> r[i].score >= r[j].score
  }

  /** The hits rearranged within groups of equal sort values, best scores first. */
  predicate Ranked(r: seq<Hit>, w: seq<Hit>) {
    multiset(r) == multiset(w) && SameValues(r, w) && BestFirst(r)
  }

  /** The hits of one sort value and score, in order. */
  function Only(w: seq<Hit>, value: string, score: real): seq<Hit> {
    if w == [] then []
    else
      var h := w[|w| - 1];
      Only(w[..|w| - 1], value, score) + (if h.sortValue == value && h.score == score then [h] else [])
  }

  /** Hits equal in sort value and score keep their order. */
  ghost predicate KeepsOrder(r: seq<Hit>, w: seq<Hit>) {
    forall value, score :: Only(r, value, score) == Only(w, value, score)
  }

  /** What a stable sort within groups promises. */
  ghost predicate StablyRanked(r: seq<Hit>, w: seq<Hit>) {
    Ranked(r, w) && KeepsOrder(r, w)
  }

  /** A hit moves forward past the neighbours it beats. */
  function Insert(t: seq<Hit>, h: Hit): seq<Hit> {
    if t != [] && TieBreak(h, t[|t| - 1]) then Insert(t[..|t| - 1], h) + [t[|t| - 1]] else t + [h]
  }

  function Stable(w: seq<Hit>): seq<Hit> {
    if w == [] then [] else Insert(Stable(w[..|w| - 1]), w[|w| - 1])
  }

  /** The stable sort within equal sort values; on hits that are not grouped it may permute at will. */
  method BreakTies(result: seq<Hit>) returns (r: seq<Hit>)
    ensures multiset(r) == multiset(result)
    ensures Grouped(result) ==> r == Stable(result)
  {
    var a := new Hit[|result|](i requires 0 <= i < |result| => result[i]);
    assert a[..] == result;
    assert a[..0] == Stable(result[..0]) && a[0..] == a[..];
    hide Stable, Insert, Grouped;
    for i := 0 to a.Length
      invariant multiset(a[..]) == multiset(result)
      invariant a[..i] == Stable(result[..i]) && a[i..] == result[i..]
    {
      assert a[i] == a[i..][0] == result[i];
      StableStep(result, i);
      assert result[i + 1..] == result[i..][1..] && a[i + 1..] == a[i..][1..];
      InsertHit(a, i);
    }
    assert a[..a.Length] == a[..] && result[..|result|] == result;
    r := a[..];
  }

  lemma StableStep(w: seq<Hit>, i: nat)
    requires i < |w|
    ensures Stable(w[..i + 1]) == Insert(Stable(w[..i]), w[i])
  {
    hide Insert;
    assert w[..i + 1][..i] == w[..i];
  }

  method InsertHit(a: array<Hit>, i: nat)
    requires i < a.Length
    modifies a
    ensures multiset(a[..]) == multiset(old(a[..]))
    ensures a[..i + 1] == Insert(old(a[..i]), old(a[i])) && a[i + 1..] == old(a[i + 1..])
  {
    hide Insert, TieBreak;
    ghost var t, h, rest := a[..i], a[i], a[i + 1..];
    ghost var front, back: seq<Hit> := t, [];
    assert a[..] == front + [h] + back + rest;
    assert Insert(t, h) == Insert(front, h) + back;
    var j := i;
    while j > 0 && TieBreak(a[j], a[j - 1])
      invariant 0 <= j <= i && |front| == j && |front| + |back| == i
      invariant a[..] == front + [h] + back + rest
      invariant front + back == t
      invariant Insert(t, h) == Insert(front, h) + back
    {
      InsertStep(front, h, back);
      HitMoves(a[..], front, h, back, rest);
      a[j], a[j - 1] := a[j - 1], a[j];
      front, back := front[..j - 1], [front[j - 1]] + back;
      j := j - 1;
    }
    InsertEnds(front, h);
    HitStands(t, front, h, back, rest, a[..], i);
    assert old(a[..]) == t + [h] + rest;
  }

  lemma HitMoves(s: seq<Hit>, front: seq<Hit>, h: Hit, back: seq<Hit>, rest: seq<Hit>)
    requires front != [] && s == front + [h] + back + rest
    ensures var j := |front|;
            && s[j] == h && s[j - 1] == front[j - 1]
            && s[j := s[j - 1]][j - 1 := s[j]] == front[..j - 1] + [h] + ([front[j - 1]] + back) + rest
            && front[..j - 1] + ([front[j - 1]] + back) == front + back
  {
  }

  lemma HitStands(t: seq<Hit>, front: seq<Hit>, h: Hit, back: seq<Hit>, rest: seq<Hit>, s: seq<Hit>, i: nat)
    requires t == front + back && s == front + [h] + back + rest && |t| == i
    ensures multiset(s) == multiset(t + [h] + rest)
    ensures s[..i + 1] == front + [h] + back && s[i + 1..] == rest
  {
    assert multiset(s) == multiset(front) + multiset{h} + multiset(back) + multiset(rest);
    assert s[..i + 1] == front + [h] + back;
  }

  lemma InsertStep(t: seq<Hit>, h: Hit, back: seq<Hit>)
    requires t != [] && TieBreak(h, t[|t| - 1])
    ensures Insert(t, h) + back == Insert(t[..|t| - 1], h) + ([t[|t| - 1]] + back)
  {
  }

  lemma InsertEnds(t: seq<Hit>, h: Hit)
    requires t == [] || !TieBreak(h, t[|t| - 1])
    ensures Insert(t, h) == t + [h]
  {
  }

  // --- The one stable ranking --------------------------------------------------

  /** Where an element of one sequence stands in a rearrangement of it. */
  lemma StandsIn(x: seq<Hit>, y: seq<Hit>, i: nat) returns (p: nat)
    requires multiset(x) == multiset(y) && i < |x|
    ensures p < |y| && y[p] == x[i]
  {
    assert x[i] in multiset(x);
    assert x[i] in y;
    p :| 0 <= p < |y| && y[p] == x[i];
  }

  lemma {:induction false} OnlyConcat(x: seq<Hit>, y: seq<Hit>, value: string, score: real)
    ensures Only(x + y, value, score) == Only(x, value, score) + Only(y, value, score)
    decreases |y|
  {
    if y == [] {
      assert x + y == x;
    } else {
      OnlyConcat(x, y[..|y| - 1], value, score);
      assert (x + y)[..|x + y| - 1] == x + y[..|y| - 1];
    }
  }

  lemma {:induction false} OnlyNothing(w: seq<Hit>, value: string, score: real)
    requires forall h <- w :: h.sortValue != value || h.score != score
    ensures Only(w, value, score) == []
    decreases |w|
  {
    if w != [] {
      assert w[|w| - 1] in w;
      OnlyNothing(w[..|w| - 1], value, score);
    }
  }

  lemma OnlyOne(h: Hit, value: string, score: real)
    ensures Only([h], value, score) == if h.sortValue == value && h.score == score then [h] else []
  {
    assert [h][..0] == [];
  }

  /** Where a hit goes: behind everything it does not beat. */
  lemma Slot(r: seq<Hit>, h: Hit) returns (p: nat)
    ensures p <= |r| && forall k :: p <= k < |r| ==> TieBreak(h, r[k])
    ensures p > 0 ==> !TieBreak(h, r[p - 1])
    ensures Insert(r, h) == r[..p] + [h] + r[p..]
  {
    p := |r|;
    assert r[..p] == r && r[p..] == [];
    while p > 0 && TieBreak(h, r[p - 1])
      invariant p <= |r| && forall k :: p <= k < |r| ==> TieBreak(h, r[k])
      invariant Insert(r, h) == Insert(r[..p], h) + r[p..]
    {
      assert r[..p][..p - 1] == r[..p - 1] && [r[p - 1]] + r[p..] == r[p - 1..];
      p := p - 1;
    }
  }

  /** Everything in the slot's own group that stands before it scores at least as much. */
  lemma SlotBefore(r: seq<Hit>, init: seq<Hit>, h: Hit, p: nat, k: nat)
    requires SameValues(r, init) && BestFirst(r) && Grouped(init + [h]) && k < p <= |r|
    requires !TieBreak(h, r[p - 1]) && r[k].sortValue == h.sortValue
    ensures r[k].score >= h.score
  {
    var w := init + [h];
    if k < p - 1 {
      assert w[k].sortValue == w[|init|].sortValue && w[p - 1].sortValue == w[k].sortValue;
    }
  }

  lemma Inserted(r: seq<Hit>, init: seq<Hit>, h: Hit, p: nat, z: seq<Hit>)
    requires multiset(r) == multiset(init) && p <= |r| && z == r[..p] + [h] + r[p..]
    ensures multiset(z) == multiset(init + [h]) && |z| == |r| + 1
    ensures (forall k :: 0 <= k < p ==> z[k] == r[k]) && z[p] == h && forall k :: p < k < |z| ==> z[k] == r[k - 1]
  {
    assert r == r[..p] + r[p..];
  }

  lemma SlotRanks(r: seq<Hit>, init: seq<Hit>, h: Hit, p: nat)
    requires Ranked(r, init) && Grouped(init + [h]) && p <= |r|
    requires forall k :: p <= k < |r| ==> TieBreak(h, r[k])
    requires p > 0 ==> !TieBreak(h, r[p - 1])
    ensures Ranked(r[..p] + [h] + r[p..], init + [h])
  {
    var z := r[..p] + [h] + r[p..];
    Inserted(r, init, h, p, z);
    forall i | 0 <= i < |z| ensures z[i].sortValue == (init + [h])[i].sortValue {
      if p < i < |r| {
        assert TieBreak(h, r[i]) && TieBreak(h, r[i - 1]);
      }
    }
    forall i, j | 0 <= i < j < |z| && z[i].sortValue == z[j].sortValue ensures z[i].score >= z[j].score {
      if j == p {
        SlotBefore(r, init, h, p, i);
      }
    }
  }

  lemma SlotKeepsOrder(r: seq<Hit>, init: seq<Hit>, h: Hit, p: nat)
    requires KeepsOrder(r, init) && p <= |r| && forall k :: p <= k < |r| ==> TieBreak(h, r[k])
    ensures KeepsOrder(r[..p] + [h] + r[p..], init + [h])
  {
    hide Only;
    forall value, score
      ensures Only(r[..p] + [h] + r[p..], value, score) == Only(init + [h], value, score)
    {
      assert r == r[..p] + r[p..];
      OnlyConcat(r[..p], r[p..], value, score);
      OnlyConcat(r[..p] + [h], r[p..], value, score);
      OnlyConcat(r[..p], [h], value, score);
      OnlyConcat(init, [h], value, score);
      OnlyOne(h, value, score);
      if h.sortValue == value && h.score == score {
        OnlyNothing(r[p..], value, score);
      }
      assert Only(r, value, score) == Only(init, value, score);
    }
  }

  /** The insertion sort ranks stably. */
  lemma {:induction false} StableRanks(w: seq<Hit>)
    requires Grouped(w)
    ensures StablyRanked(Stable(w), w)
    decreases |w|
  {
    hide Only, Insert;
    if w != [] {
      var init, h := w[..|w| - 1], w[|w| - 1];
      assert w == init + [h];
      StableRanks(init);
      var p := Slot(Stable(init), h);
      SlotRanks(Stable(init), init, h, p);
      SlotKeepsOrder(Stable(init), init, h, p);
    }
  }

  /** The last of one ranking is somewhere in the other, so it scores no less than the last there. */
  lemma LastScores(x: seq<Hit>, y: seq<Hit>)
    requires x != [] && multiset(x) == multiset(y) && SameValues(x, y) && BestFirst(y)
    ensures x[|x| - 1].score >= y[|x| - 1].score
  {
    var p := StandsIn(x, y, |x| - 1);
  }

  lemma SameLast(x: seq<Hit>, y: seq<Hit>)
    requires x != [] && |x| == |y| && KeepsOrder(x, y)
    requires x[|x| - 1].sortValue == y[|x| - 1].sortValue && x[|x| - 1].score == y[|x| - 1].score
    ensures x[|x| - 1] == y[|x| - 1]
    ensures KeepsOrder(x[..|x| - 1], y[..|x| - 1])
  {
    var n := |x| - 1;
    var value, score := x[n].sortValue, x[n].score;
    var inX, inY := Only(x[..n], value, score), Only(y[..n], value, score);
    assert Only(x, value, score) == inX + [x[n]] && Only(y, value, score) == inY + [y[n]];
    assert (inX + [x[n]])[|inX|] == x[n] && (inY + [y[n]])[|inY|] == y[n] && |inX| == |inY|;
    forall v, s ensures Only(x[..n], v, s) == Only(y[..n], v, s) {
      var end := if x[n].sortValue == v && x[n].score == s then [x[n]] else [];
      assert Only(x, v, s) == Only(x[..n], v, s) + end && Only(y, v, s) == Only(y[..n], v, s) + end;
      SameFront(Only(x[..n], v, s), Only(y[..n], v, s), end);
    }
  }

  lemma SameFront(x: seq<Hit>, y: seq<Hit>, end: seq<Hit>)
    requires x + end == y + end
    ensures x == y
  {
    assert |x| == |y|;
    assert x == (x + end)[..|x|] && y == (y + end)[..|x|];
  }

  lemma WithoutLast(x: seq<Hit>)
    requires x != []
    ensures var n := |x| - 1;
            && x == x[..n] + [x[n]] && multiset(x[..n]) == multiset(x) - multiset{x[n]}
            && (BestFirst(x) ==> BestFirst(x[..n]))
  {
    assert x == x[..|x| - 1] + [x[|x| - 1]];
  }

  /** There is one way to rank stably. */
  lemma {:induction false} RankingIsUnique(x: seq<Hit>, y: seq<Hit>)
    requires multiset(x) == multiset(y) && SameValues(x, y) && BestFirst(x) && BestFirst(y) && KeepsOrder(x, y)
    ensures x == y
    decreases |x|
  {
    if x != [] {
      hide KeepsOrder;
      var n := |x| - 1;
      LastScores(x, y);
      LastScores(y, x);
      SameLast(x, y);
      WithoutLast(x);
      WithoutLast(y);
      assert SameValues(x[..n], y[..n]);
      hide SameValues, BestFirst;
      RankingIsUnique(x[..n], y[..n]);
    }
  }

  lemma RankingsAgree(x: seq<Hit>, y: seq<Hit>, w: seq<Hit>)
    requires StablyRanked(x, w) && StablyRanked(y, w)
    ensures x == y
  {
    RankingIsUnique(x, y);
  }

  /** Within grouped hits, the stable ranking is exactly what the insertion sort gives. */
  lemma StableIsTheRanking(r: seq<Hit>, w: seq<Hit>)
    requires Grouped(w)
    ensures StablyRanked(r, w) <==> r == Stable(w)
  {
    hide StablyRanked;
    StableRanks(w);
    if StablyRanked(r, w) {
      RankingsAgree(r, Stable(w), w);
    }
  }

  lemma UnequalStays(w: seq<Hit>)
    requires Unequal(w)
    ensures Grouped(w) && Stable(w) == w
  {
    StableIsTheRanking(w, w);
  }

  // --- The search --------------------------------------------------------------

  /** The set as a list, best score first. */
  method ByScore(docs: set<Hit>) returns (tail: seq<Hit>)
    ensures SortedBy(tail, ScoreLeq) && multiset(tail) == multiset(docs)
  {
    var list: seq<Hit> := [];
    var todo := docs;
    while todo != {}
      invariant todo <= docs
      invariant multiset(list) == multiset(docs - todo)
    {
      var h :| h in todo;
      assert docs - (todo - {h}) == (docs - todo) + {h};
      todo := todo - {h};
      list := list + [h];
    }
    assert docs - todo == docs;
    var a := new Hit[|list|](i requires 0 <= i < |list| => list[i]);
    assert a[..] == list && a[0..a.Length] == a[..];
    SortSlice(a, 0, a.Length, ScoreLeq);
    tail := a[..];
    assert a[0..a.Length] == a[..];
  }

  lemma SortedByScore(tail: seq<Hit>, docs: set<Hit>)
    requires DifferentScores(docs)
    requires multiset(tail) == multiset(docs) && SortedBy(tail, ScoreLeq)
    ensures ListsByScore(tail, docs)
  {
    forall h ensures h in tail <==> h in docs {
      assert h in tail <==> h in multiset(tail);
    }
    forall i, j | 0 <= i < j < |tail| ensures tail[i].score > tail[j].score {
      assert ScoreLeq(tail[i], tail[j]);
      if tail[i] == tail[j] {
        Twice(tail, i, j);
      }
      assert tail[i] in docs && tail[j] in docs;
    }
  }

  lemma Twice(s: seq<Hit>, i: nat, j: nat)
    requires i < j < |s| && s[i] == s[j]
    ensures multiset(s)[s[i]] >= 2
  {
    assert s == s[..i] + [s[i]] + s[i + 1..j] + [s[j]] + s[j + 1..];
  }

  /** How far a walk needs to go; a cursor disables the early stop. */
  function Limit(topK: int, opts: Options): int {
    if opts.after.Some? then 0
    else if opts.size > 0 && (topK <= 0 || opts.from + opts.size < topK) then opts.from + opts.size
    else topK
  }

  /** Hits in entry order, up to the limit; `seen` are the documents met. */
  method WalkEntries(entries: seq<DocId>, hits: Scored, limit: int) returns (result: seq<Hit>, seen: set<DocId>)
    ensures result == Clip(Walked(entries, hits), limit)
    ensures limit <= 0 || |result| < limit ==> forall d :: d in seen <==> d in entries
  {
    result, seen := [], {};
    for i := 0 to |entries|
      invariant result == Walked(entries[..i], hits)
      invariant forall d :: d in seen <==> d in entries[..i]
      invariant limit > 0 ==> |result| < limit
    {
      assert entries[..i + 1][..i] == entries[..i];
      seen := seen + {entries[i]};
      if entries[i] !in hits {
        continue;
      }
      result := result + [hits[entries[i]]];
      if limit > 0 && |result| >= limit {
        WalkedGrows(entries, hits, i + 1);
        return;
      }
    }
    assert entries[..|entries|] == entries;
  }

  lemma {:induction false} WalkedGrows(entries: seq<DocId>, hits: Scored, i: nat)
    requires i <= |entries|
    ensures Walked(entries[..i], hits) <= Walked(entries, hits)
    decreases |entries|
  {
    if i == |entries| {
      assert entries[..i] == entries;
    } else {
      WalkedGrows(entries[..|entries| - 1], hits, i);
      assert entries[..|entries| - 1][..i] == entries[..i];
    }
  }

  /** The walked hits, stably ranked within groups of equal sort values. */
  ghost predicate Settled(r: seq<Hit>, w: seq<Hit>) {
    multiset(r) == multiset(w) && (Grouped(w) ==> StablyRanked(r, w))
  }

  /** The set as a list, best scores first. */
  ghost predicate RankedSet(tail: seq<Hit>, docs: set<Hit>) {
    multiset(tail) == multiset(docs) && SortedBy(tail, ScoreLeq)
  }

  /**
   * What a sort-first search returns: the walked hits up to the limit with ties broken, and,
   * unless they reach it, the best of the documents that lack the sort field.
   */
  ghost predicate IsSortFirst(entries: seq<DocId>, hits: Scored, limit: int, result: seq<Hit>) {
    var w := Clip(Walked(entries, hits), limit);
    exists r :: Settled(r, w) &&
      if 0 < limit <= |w| then result == r
      else exists tail :: RankedSet(tail, Lacking(entries, hits)) && result == Clip(r + tail, limit)
  }

  /** Where the walk meets qualifying documents. */
  function Places(entries: seq<DocId>, hits: Scored): seq<nat> {
    if entries == [] then []
    else Places(entries[..|entries| - 1], hits) + (if entries[|entries| - 1] in hits then [|entries| - 1] else [])
  }

  ghost predicate ArePlaces(places: seq<nat>, entries: seq<DocId>, hits: Scored, walked: seq<Hit>) {
    && (forall i, j :: 0 <= i < j < |places| ==> places[i] < places[j])
    && (forall i: nat :: i in places <==> i < |entries| && entries[i] in hits)
    && |places| == |walked|
    && (forall k :: 0 <= k < |places| ==> places[k] in places && walked[k] == hits[entries[places[k]]])
  }

  lemma {:induction false} PlacesMean(entries: seq<DocId>, hits: Scored)
    ensures ArePlaces(Places(entries, hits), entries, hits, Walked(entries, hits))
    decreases |entries|
  {
    if entries != [] {
      var n := |entries| - 1;
      PlacesMean(entries[..n], hits);
      assert entries == entries[..n] + [entries[n]];
      PlacesGrow(Places(entries[..n], hits), entries[..n], hits, Walked(entries[..n], hits), entries[n]);
      hide ArePlaces;
    }
  }

  lemma PlacesGrow(places: seq<nat>, entries: seq<DocId>, hits: Scored, walked: seq<Hit>, d: DocId)
    requires ArePlaces(places, entries, hits, walked)
    ensures d in hits ==> ArePlaces(places + [|entries|], entries + [d], hits, walked + [hits[d]])
    ensures d !in hits ==> ArePlaces(places + [], entries + [d], hits, walked + [])
  {
    assert places + [] == places && walked + [] == walked;
    assert forall i <- places :: i < |entries|;
    assert forall i :: 0 <= i < |entries| ==> (entries + [d])[i] == entries[i];
    if d in hits {
      assert (places + [|entries|])[|places|] == |entries|;
    }
  }

  /** The hits at the places, in entry order. */
  function HitsAt(entries: seq<DocId>, hits: Scored, places: seq<nat>): (w: seq<Hit>)
    requires forall i <- places :: i < |entries| && entries[i] in hits
    ensures |w| == |places|
  {
    seq(|places|, k requires 0 <= k < |places| => assert places[k] in places; hits[entries[places[k]]])
  }

  /** The places up to the stop. */
  lemma WalkMeans(entries: seq<DocId>, hits: Scored, limit: int) returns (places: seq<nat>)
    ensures forall i, j :: 0 <= i < j < |places| ==> places[i] < places[j]
    ensures forall i <- places :: i < |entries| && entries[i] in hits
    ensures forall i: nat | i < |entries| && entries[i] in hits && i !in places ::
              |places| == limit > 0 && forall p <- places :: p < i
    ensures limit > 0 ==> |places| <= limit
    ensures HitsAt(entries, hits, places) == Clip(Walked(entries, hits), limit)
  {
    PlacesMean(entries, hits);
    hide Walked, Places;
    var all := Places(entries, hits);
    places := if 0 < limit < |all| then all[..limit] else all;
    forall i: nat | i < |entries| && entries[i] in hits && i !in places
      ensures |places| == limit > 0 && forall p <- places :: p < i
    {
      var k :| 0 <= k < |all| && all[k] == i;
      assert forall l :: 0 <= l < |places| ==> places[l] == all[l] && places[l] in places;
    }
  }

  /** The list of a set has each of its elements once, best scores first, and a cut of it drops none better. */
  lemma TailMeans(entries: seq<DocId>, hits: Scored, tail: seq<Hit>, m: nat)
    requires RankedSet(tail, Lacking(entries, hits)) && m <= |tail|
    ensures forall i, j :: 0 <= i < j < m ==> tail[i].score >= tail[j].score && tail[i] != tail[j]
    ensures forall h <- tail[..m] :: h.id in hits && h.id !in entries && hits[h.id] == h
    ensures forall d <- hits | d !in entries && hits[d] !in tail[..m] ::
              m < |tail| && forall h <- tail[..m] :: h.score >= hits[d].score
  {
    var docs := Lacking(entries, hits);
    forall i, j | 0 <= i < j < m ensures tail[i].score >= tail[j].score && tail[i] != tail[j] {
      assert ScoreLeq(tail[i], tail[j]);
      if tail[i] == tail[j] {
        Twice(tail, i, j);
      }
    }
    forall h | h in tail[..m] ensures h in docs {
      assert h in multiset(tail);
    }
    forall d | d in hits && d !in entries && hits[d] !in tail[..m]
      ensures m < |tail| && forall h <- tail[..m] :: h.score >= hits[d].score
    {
      assert hits[d] in multiset(docs) && hits[d] in multiset(tail);
      var k :| 0 <= k < |tail| && tail[k] == hits[d];
      assert forall i :: 0 <= i < m ==> tail[..m][i] == tail[i];
      forall h | h in tail[..m] ensures h.score >= hits[d].score {
        var i :| 0 <= i < m && tail[i] == h;
        assert ScoreLeq(tail[i], tail[k]);
      }
    }
  }

  lemma ClippedParts(r: seq<Hit>, tail: seq<Hit>, limit: int, result: seq<Hit>)
    requires result == Clip(r + tail, limit) && !(0 < limit <= |r|)
    ensures |r| <= |result| && |result| - |r| <= |tail| && (limit > 0 ==> |result| <= limit)
    ensures result[..|r|] == r && result[|r|..] == tail[..|result| - |r|]
    ensures |result| - |r| < |tail| ==> |result| == limit > 0
  {
  }

  lemma SettledMeans(r: seq<Hit>, w: seq<Hit>)
    requires Settled(r, w)
    ensures |r| == |w| && multiset(r) == multiset(w)
    ensures Grouped(w) ==> forall k :: 0 <= k < |r| ==> r[k].sortValue == w[k].sortValue
    ensures Grouped(w) ==>
              forall i, j :: 0 <= i < j < |r| && r[i].sortValue == r[j].sortValue ==> r[i].score >= r[j].score
  {
    SettledLength(r, w);
  }

  method Search(entries: seq<DocId>, hits: Scored, limit: int) returns (result: seq<Hit>)
    ensures IsSortFirst(entries, hits, limit, result)
  {
    hide Walked, Lacking, Settled, RankedSet, Grouped, Stable, SortedBy;
    var walked, seen := WalkEntries(entries, hits, limit);
    result := BreakTies(walked);
    TiesAreBroken(result, walked);
    SettledLength(result, walked);
    ghost var r := result;
    if limit > 0 && |result| >= limit {
      return;
    }
    var docs := set d | d in hits && d !in seen :: hits[d];
    LackingUnseen(entries, hits, seen, docs);
    var tail := ByScore(docs);
    ghost var whole := tail;
    assert RankedSet(whole, Lacking(entries, hits)) by { RankedSetFacts(whole, docs); }
    if limit > 0 {
      var remaining := limit - |result|;
      if |tail| > remaining {
        tail := tail[..remaining];
      }
    }
    result := result + tail;
    assert result == Clip(r + whole, limit);
  }

  /**
   * What that list is, hit by hit. `places` are the entries walked that qualify. In front stand their
   * hits, in entry order but for equal sort values, which stand best score first; behind them, best
   * score first, the documents without an entry, of which a limit cuts off none better than it lets in.
   */
  lemma SearchMeans(entries: seq<DocId>, hits: Scored, limit: int, result: seq<Hit>) returns (places: seq<nat>)
    requires IsSortFirst(entries, hits, limit, result)
    ensures forall i, j :: 0 <= i < j < |places| ==> places[i] < places[j]
    ensures forall i <- places :: i < |entries| && entries[i] in hits
    ensures forall i: nat | i < |entries| && entries[i] in hits && i !in places ::
              |places| == limit > 0 && forall p <- places :: p < i
    ensures |places| <= |result| && (limit > 0 ==> |result| <= limit)
    ensures multiset(result[..|places|]) == multiset(HitsAt(entries, hits, places))
    ensures Grouped(HitsAt(entries, hits, places)) ==>
              && (forall k :: 0 <= k < |places| ==>
                    result[k].sortValue == HitsAt(entries, hits, places)[k].sortValue)
              && (forall i, j :: 0 <= i < j < |places| && result[i].sortValue == result[j].sortValue ==>
                    result[i].score >= result[j].score)
    ensures forall i, j :: |places| <= i < j < |result| ==>
              result[i].score >= result[j].score && result[i] != result[j]
    ensures forall h <- result[|places|..] :: h.id in hits && h.id !in entries && hits[h.id] == h
    ensures forall d <- hits | d !in entries && hits[d] !in result[|places|..] ::
              |result| == limit > 0 && forall h <- result[|places|..] :: h.score >= hits[d].score
  {
    hide Walked, Lacking, Settled, RankedSet, Grouped;
    places := WalkMeans(entries, hits, limit);
    var w := Clip(Walked(entries, hits), limit);
    hide HitsAt, Clip;
    var r :| Settled(r, w) &&
      if 0 < limit <= |w| then result == r
      else exists tail :: RankedSet(tail, Lacking(entries, hits)) && result == Clip(r + tail, limit);
    SettledMeans(r, w);
    if !(0 < limit <= |w|) {
      var tail :| RankedSet(tail, Lacking(entries, hits)) && result == Clip(r + tail, limit);
      ClippedParts(r, tail, limit, result);
      hide Clip;
      TailMeans(entries, hits, tail, |result| - |r|);
    } else {
      assert result[..|r|] == r;
    }
  }

  lemma TiesAreBroken(r: seq<Hit>, w: seq<Hit>)
    requires multiset(r) == multiset(w) && (Grouped(w) ==> r == Stable(w))
    ensures Settled(r, w)
  {
    if Grouped(w) {
      StableIsTheRanking(r, w);
    }
  }

  lemma SettledIsStable(r: seq<Hit>, w: seq<Hit>)
    requires Settled(r, w) && Grouped(w)
    ensures r == Stable(w)
  {
    StableIsTheRanking(r, w);
  }

  lemma SettledLength(r: seq<Hit>, w: seq<Hit>)
    requires Settled(r, w)
    ensures |r| == |w| && multiset(r) == multiset(w)
  {
    assert |multiset(r)| == |r| && |multiset(w)| == |w|;
  }

  lemma RankedSetFacts(tail: seq<Hit>, docs: set<Hit>)
    requires multiset(tail) == multiset(docs) && SortedBy(tail, ScoreLeq)
    ensures RankedSet(tail, docs)
  {
  }

  lemma LackingUnseen(entries: seq<DocId>, hits: Scored, seen: set<DocId>, docs: set<Hit>)
    requires forall d :: d in seen <==> d in entries
    requires docs == set d | d in hits && d !in seen :: hits[d]
    ensures docs == Lacking(entries, hits)
  {
  }

  /** Without a limit, every qualifying document is returned. */
  lemma SortFirstReturnsAll(entries: seq<DocId>, hits: Scored, limit: int, result: seq<Hit>)
    requires limit <= 0 && IsSortFirst(entries, hits, limit, result)
    ensures multiset(result) == multiset(Walked(entries, hits)) + multiset(Lacking(entries, hits))
  {
    hide Walked, Lacking;
  }

  /** Without ties, an early-stopped search is a prefix of the one full walk. */
  lemma SortFirstIsPrefix(entries: seq<DocId>, hits: Scored, limit: int, result: seq<Hit>, full: seq<Hit>)
    requires IsSortFirst(entries, hits, limit, result) && NoTies(entries, hits) && IsFullWalk(entries, hits, full)
    ensures result == Clip(full, limit)
  {
    hide Walked, Lacking, SortedBy, Settled, Grouped, Stable;
    var walked, docs := Walked(entries, hits), Lacking(entries, hits);
    var w := Clip(walked, limit);
    UnequalStays(w);
    forall r | Settled(r, w) ensures r == w {
      SettledIsStable(r, w);
    }
    var rest :| ListsByScore(rest, docs) && full == walked + rest;
    if !(0 < limit <= |w|) {
      var tail :| RankedSet(tail, docs) && result == Clip(w + tail, limit);
      SortedByScore(tail, docs);
      ListingIsUnique(tail, rest, docs);
    }
  }

  /** Strictly descending scores leave one way to list a set. */
  lemma {:induction false} ListingIsUnique(x: seq<Hit>, y: seq<Hit>, docs: set<Hit>)
    requires ListsByScore(x, docs) && ListsByScore(y, docs)
    ensures x == y
    decreases |x|
  {
    ListsNothing(x, docs);
    ListsNothing(y, docs);
    if x != [] {
      assert x[0] in docs && x[0] in y;
      assert y[0] in docs && y[0] in x;
      var i :| 0 <= i < |y| && y[i] == x[0];
      var j :| 0 <= j < |x| && x[j] == y[0];
      assert x[0] == y[0];
      ListsRest(x, docs);
      ListsRest(y, docs);
      ListingIsUnique(x[1..], y[1..], docs - {x[0]});
    }
  }

  lemma ListsNothing(x: seq<Hit>, docs: set<Hit>)
    requires ListsByScore(x, docs)
    ensures x == [] <==> docs == {}
  {
    if x != [] {
      assert x[0] in docs;
    }
    if docs != {} {
      var h :| h in docs;
      assert h in x;
    }
  }

  lemma ListsRest(x: seq<Hit>, docs: set<Hit>)
    requires ListsByScore(x, docs) && x != []
    ensures ListsByScore(x[1..], docs - {x[0]})
  {
    assert x == [x[0]] + x[1..];
    forall h | h in x[1..] ensures h != x[0] {
      var k :| 0 <= k < |x[1..]| && x[1..][k] == h;
      assert x[k + 1] == h;
    }
  }

  // --- Early stops among ties --------------------------------------------------

  /** Nothing behind the first `n` hits beats one of them with the same sort value. */
  predicate CleanCut(w: seq<Hit>, n: nat)
    requires n <= |w|
  {
    forall i, j :: 0 <= i < n <= j < |w| && w[i].sortValue == w[j].sortValue ==> w[i].score >= w[j].score
  }

  lemma AcrossTheCut(w: seq<Hit>, n: nat, early: seq<Hit>, late: seq<Hit>, i: nat, j: nat)
    requires n <= |w| && multiset(early) == multiset(w[..n]) && multiset(late) == multiset(w[n..]) && CleanCut(w, n)
    requires i < |early| && j < |late| && early[i].sortValue == late[j].sortValue
    ensures early[i].score >= late[j].score
  {
    var k := StandsIn(early, w[..n], i);
    var l := StandsIn(late, w[n..], j);
    assert w[k] == early[i] && w[n + l] == late[j];
  }

  lemma RankedHalves(w: seq<Hit>, n: nat, early: seq<Hit>, late: seq<Hit>)
    requires n <= |w| && Ranked(early, w[..n]) && Ranked(late, w[n..]) && CleanCut(w, n)
    ensures Ranked(early + late, w)
  {
    hide CleanCut;
    var z := early + late;
    assert w == w[..n] + w[n..];
    forall i, j | 0 <= i < j < |z| && z[i].sortValue == z[j].sortValue ensures z[i].score >= z[j].score {
      if i < n <= j {
        AcrossTheCut(w, n, early, late, i, j - n);
      }
    }
  }

  lemma HalvesKeepOrder(w: seq<Hit>, n: nat, early: seq<Hit>, late: seq<Hit>)
    requires n <= |w| && KeepsOrder(early, w[..n]) && KeepsOrder(late, w[n..])
    ensures KeepsOrder(early + late, w)
  {
    hide Only;
    forall value, score ensures Only(early + late, value, score) == Only(w, value, score) {
      assert w == w[..n] + w[n..];
      OnlyConcat(early, late, value, score);
      OnlyConcat(w[..n], w[n..], value, score);
    }
  }

  lemma RestsPermuted(x: seq<Hit>, y: seq<Hit>, n: nat)
    requires n <= |x| == |y| && multiset(x) == multiset(y) && multiset(x[..n]) == multiset(y[..n])
    ensures multiset(x[n..]) == multiset(y[n..])
  {
    assert x == x[..n] + x[n..] && y == y[..n] + y[n..];
    assert multiset(x[n..]) == multiset(x) - multiset(x[..n]);
    assert multiset(y[n..]) == multiset(y) - multiset(y[..n]);
  }

  lemma PrefixMeansCleanCut(w: seq<Hit>, n: nat, full: seq<Hit>)
    requires n <= |w| == |full| && Ranked(full, w) && multiset(full[..n]) == multiset(w[..n])
    ensures CleanCut(w, n)
  {
    RestsPermuted(full, w, n);
    forall i, j | 0 <= i < n <= j < |w| && w[i].sortValue == w[j].sortValue ensures w[i].score >= w[j].score {
      var p := StandsIn(w[..n], full[..n], i);
      var q := StandsIn(w[n..], full[n..], j - n);
      assert full[p] == w[i] && full[n + q] == w[j];
    }
  }

  lemma GroupedParts(w: seq<Hit>, n: nat)
    requires Grouped(w) && n <= |w|
    ensures Grouped(w[..n]) && Grouped(w[n..])
  {
  }

  lemma RankedIsPermuted(r: seq<Hit>, w: seq<Hit>)
    requires StablyRanked(r, w)
    ensures multiset(r) == multiset(w) && |r| == |w|
  {
  }

  /** Ranking a prefix gives a prefix of the ranking exactly when the cut leaves no better hit of a group behind. */
  lemma StablePrefixIff(w: seq<Hit>, n: nat)
    requires Grouped(w) && n <= |w|
    ensures |Stable(w)| == |w|
    ensures Stable(w[..n]) == Stable(w)[..n] <==> CleanCut(w, n)
  {
    hide Grouped, CleanCut, Stable, Ranked, KeepsOrder;
    var early, full := Stable(w[..n]), Stable(w);
    GroupedParts(w, n);
    StableRanks(w);
    StableRanks(w[..n]);
    RankedIsPermuted(full, w);
    RankedIsPermuted(early, w[..n]);
    if early == full[..n] {
      PrefixMeansCleanCut(w, n, full);
    }
    if CleanCut(w, n) {
      var late := Stable(w[n..]);
      StableRanks(w[n..]);
      RankedHalves(w, n, early, late);
      HalvesKeepOrder(w, n, early, late);
      RankingsAgree(early + late, full, w);
    }
  }

  lemma FullWalk(entries: seq<DocId>, hits: Scored, full: seq<Hit>) returns (tail: seq<Hit>)
    requires Grouped(Walked(entries, hits)) && IsSortFirst(entries, hits, 0, full)
    ensures RankedSet(tail, Lacking(entries, hits)) && full == Stable(Walked(entries, hits)) + tail
  {
    hide Walked, Lacking, Settled, RankedSet, Grouped, Stable;
    var w := Walked(entries, hits);
    forall r | Settled(r, w) ensures r == Stable(w) {
      SettledIsStable(r, w);
    }
    tail :| RankedSet(tail, Lacking(entries, hits)) && full == Stable(w) + tail;
  }

  /**
   * An early-stopped search against the same search run to the end: if the stop falls into the
   * walk, one is a prefix of the other exactly when the stop cuts no better hit off its group;
   * behind the walk it is one whenever the documents lacking the field differ in score.
   */
  lemma EarlyStopPrefixIff(entries: seq<DocId>, hits: Scored, limit: int, early: seq<Hit>, full: seq<Hit>)
    requires Grouped(Walked(entries, hits))
    requires IsSortFirst(entries, hits, limit, early) && IsSortFirst(entries, hits, 0, full)
    ensures 0 < limit <= |Walked(entries, hits)| ==>
              (early == Clip(full, limit) <==> CleanCut(Walked(entries, hits), limit))
    ensures !(0 < limit <= |Walked(entries, hits)|) && DifferentScores(Lacking(entries, hits)) ==>
              early == Clip(full, limit)
  {
    hide Walked, Lacking, Settled, RankedSet, Grouped, Stable, CleanCut, DifferentScores;
    var w, docs := Walked(entries, hits), Lacking(entries, hits);
    var tail := FullWalk(entries, hits, full);
    if 0 < limit <= |w| {
      StablePrefixIff(w, limit);
      GroupedParts(w, limit);
      assert Clip(w, limit) == w[..limit] by { assert w[..|w|] == w; }
      SettledIsStable(early, w[..limit]);
      assert Clip(full, limit) == Stable(w)[..limit];
    } else {
      assert Clip(w, limit) == w;
      forall r | Settled(r, w) ensures r == Stable(w) {
        SettledIsStable(r, w);
      }
      var rest :| RankedSet(rest, docs) && early == Clip(Stable(w) + rest, limit);
      if DifferentScores(docs) {
        RankedSetIsUnique(tail, rest, docs);
      }
    }
  }

  lemma RankedSetIsUnique(x: seq<Hit>, y: seq<Hit>, docs: set<Hit>)
    requires RankedSet(x, docs) && RankedSet(y, docs) && DifferentScores(docs)
    ensures x == y
  {
    SortedByScore(x, docs);
    SortedByScore(y, docs);
    ListingIsUnique(x, y, docs);
  }

  // --- Stops behind the walk ---------------------------------------------------

  /** The documents with a better score. */
  function Better(docs: set<Hit>, score: real): set<Hit> {
    set h | h in docs && h.score > score
  }

  /** No two documents tie with fewer than `m` better ones, so the `m` best are the same however ties are ordered. */
  predicate BestAreFixed(docs: set<Hit>, m: nat) {
    forall g <- docs, h <- docs :: g != h && g.score == h.score ==> |Better(docs, g.score)| >= m
  }

  function Elements(s: seq<Hit>): set<Hit> { set h | h in s }

  lemma {:induction false} ElementsOfPrefix(tail: seq<Hit>, docs: set<Hit>, k: nat)
    requires multiset(tail) == multiset(docs) && k <= |tail|
    ensures |Elements(tail[..k])| == k && Elements(tail[..k]) <= docs
    decreases k
  {
    if k == 0 {
      assert Elements(tail[..0]) == {};
    } else {
      ElementsOfPrefix(tail, docs, k - 1);
      var h := tail[k - 1];
      assert tail == tail[..k - 1] + [h] + tail[k..];
      assert multiset(tail)[h] == multiset(docs)[h];
      assert h in multiset(tail);
      assert h !in tail[..k - 1];
      assert tail[..k] == tail[..k - 1] + [h];
      assert Elements(tail[..k]) == Elements(tail[..k - 1]) + {h};
    }
  }

  /** Everything better stands before. */
  lemma BetterStandsBefore(tail: seq<Hit>, docs: set<Hit>, k: nat)
    requires RankedSet(tail, docs) && k < |tail|
    ensures |Better(docs, tail[k].score)| <= k
  {
    ElementsOfPrefix(tail, docs, k);
    assert forall i :: k < i < |tail| ==> ScoreLeq(tail[k], tail[i]);
    forall h | h in Better(docs, tail[k].score) ensures h in Elements(tail[..k]) {
      assert h in multiset(tail);
      var i :| 0 <= i < |tail| && tail[i] == h;
      assert tail[..k][i] == h;
    }
    SubsetSize(Better(docs, tail[k].score), Elements(tail[..k]));
  }

  /** Everything up to a position is better than anything that scores less. */
  lemma PrefixIsBetter(tail: seq<Hit>, docs: set<Hit>, k: nat, score: real)
    requires RankedSet(tail, docs) && k < |tail| && tail[k].score > score
    ensures |Better(docs, score)| > k
  {
    ElementsOfPrefix(tail, docs, k + 1);
    forall h | h in Elements(tail[..k + 1]) ensures h in Better(docs, score) {
      var i :| 0 <= i < k + 1 && tail[..k + 1][i] == h;
      if i < k {
        assert ScoreLeq(tail[i], tail[k]);
      }
    }
    SubsetSize(Elements(tail[..k + 1]), Better(docs, score));
  }

  lemma SameScores(x: seq<Hit>, y: seq<Hit>, docs: set<Hit>, k: nat)
    requires RankedSet(x, docs) && RankedSet(y, docs) && k < |x| == |y|
    ensures x[k].score == y[k].score
  {
    hide RankedSet, Better;
    BetterStandsBefore(x, docs, k);
    BetterStandsBefore(y, docs, k);
    if x[k].score > y[k].score {
      PrefixIsBetter(x, docs, k, y[k].score);
    } else if y[k].score > x[k].score {
      PrefixIsBetter(y, docs, k, x[k].score);
    }
  }

  lemma BestAgree(x: seq<Hit>, y: seq<Hit>, docs: set<Hit>, m: nat)
    requires RankedSet(x, docs) && RankedSet(y, docs) && BestAreFixed(docs, m)
    ensures |x| == |y| == |docs|
    ensures forall k :: 0 <= k < |x| && k < m ==> x[k] == y[k]
  {
    assert |multiset(x)| == |x| && |multiset(y)| == |y| && |multiset(docs)| == |docs|;
    forall k | 0 <= k < |x| && k < m ensures x[k] == y[k] {
      SameScores(x, y, docs, k);
      BetterStandsBefore(x, docs, k);
      assert x[k] in multiset(x) && y[k] in multiset(y);
      assert x[k] in docs && y[k] in docs;
    }
  }

  lemma BestOf(docs: set<Hit>) returns (h: Hit)
    requires docs != {}
    ensures h in docs && forall g <- docs :: g.score <= h.score
    decreases |docs|
  {
    var some :| some in docs;
    var rest := docs - {some};
    assert docs == rest + {some};
    if rest == {} {
      h := some;
    } else {
      h := BestOf(rest);
      if some.score > h.score {
        h := some;
      }
    }
  }

  lemma RankSet(docs: set<Hit>) returns (tail: seq<Hit>)
    ensures RankedSet(tail, docs) && |tail| == |docs|
    decreases |docs|
  {
    if docs == {} {
      tail := [];
    } else {
      var h := BestOf(docs);
      var rest := RankSet(docs - {h});
      tail := [h] + rest;
      assert docs == (docs - {h}) + {h};
      forall i, j | 0 <= i < j < |tail| ensures ScoreLeq(tail[i], tail[j]) {
        if i == 0 {
          assert tail[j] == rest[j - 1];
          assert rest[j - 1] in multiset(rest);
        }
      }
    }
  }

  /** Two documents that tie may be ranked either way. */
  lemma EitherWay(docs: set<Hit>, g: Hit, h: Hit) returns (x: seq<Hit>, y: seq<Hit>)
    requires g in docs && h in docs && g != h && g.score == h.score
    ensures RankedSet(x, docs) && RankedSet(y, docs)
    ensures var k := |Better(docs, g.score)|; k < |x| == |y| && x[k] == g && y[k] == h
  {
    var better := Better(docs, g.score);
    var others := docs - better - {g, h};
    var front := RankSet(better);
    var back := RankSet(others);
    x, y := front + [g, h] + back, front + [h, g] + back;
    TieInside(front, better, g, h, back, others, docs);
    TieInside(front, better, h, g, back, others, docs);
  }

  lemma TieInside(front: seq<Hit>, better: set<Hit>, g: Hit, h: Hit, back: seq<Hit>, others: set<Hit>, docs: set<Hit>)
    requires RankedSet(front, better) && RankedSet(back, others) && g in docs && h in docs && g != h
    requires g.score == h.score && better == Better(docs, g.score) && others == docs - better - {g, h}
    ensures RankedSet(front + [g, h] + back, docs)
  {
    RankedAround(front, better, g, h, back, others, docs);
    hide RankedSet, SortedBy, Better;
    RankedSetMeans(front, better);
    RankedSetMeans(back, others);
    assert g !in better && h !in better by { NotBetter(docs, g); NotBetter(docs, h); }
    assert docs == better + {g} + {h} + others by { BetterAreDocs(docs, g.score); }
    assert multiset(docs) == multiset(better) + multiset{g} + multiset{h} + multiset(others);
    assert multiset(front + [g, h] + back) == multiset(front) + multiset{g} + multiset{h} + multiset(back);
    RankedSetFacts(front + [g, h] + back, docs);
  }

  lemma RankedSetMeans(tail: seq<Hit>, docs: set<Hit>)
    requires RankedSet(tail, docs)
    ensures multiset(tail) == multiset(docs)
  {
  }

  lemma NotBetter(docs: set<Hit>, g: Hit)
    ensures g !in Better(docs, g.score)
  {
  }

  lemma BetterAreDocs(docs: set<Hit>, score: real)
    ensures Better(docs, score) <= docs
  {
  }

  lemma RankedAround(front: seq<Hit>, better: set<Hit>, g: Hit, h: Hit, back: seq<Hit>, others: set<Hit>,
                     docs: set<Hit>)
    requires RankedSet(front, better) && RankedSet(back, others) && g.score == h.score
    requires better == Better(docs, g.score) && others == docs - better - {g, h}
    ensures SortedBy(front + [g, h] + back, ScoreLeq)
  {
    forall b | b in front ensures b.score > g.score {
      assert b in multiset(front);
    }
    forall b | b in back ensures b.score <= g.score {
      assert b in multiset(back);
    }
  }

  /** The search stopped at the limit, in any of its possible results, is a prefix of the search run to the end. */
  ghost predicate AlwaysPrefix(entries: seq<DocId>, hits: Scored, limit: int) {
    forall early, full :: IsSortFirst(entries, hits, limit, early) && IsSortFirst(entries, hits, 0, full) ==>
      early == Clip(full, limit)
  }

  lemma SomeSearch(entries: seq<DocId>, hits: Scored, limit: int, tail: seq<Hit>)
    requires Grouped(Walked(entries, hits)) && !(0 < limit <= |Walked(entries, hits)|)
    requires RankedSet(tail, Lacking(entries, hits))
    ensures IsSortFirst(entries, hits, limit, Clip(Stable(Walked(entries, hits)) + tail, limit))
  {
    hide Walked, Lacking, Grouped, Stable, RankedSet, Settled;
    var w := Walked(entries, hits);
    assert Clip(w, limit) == w;
    StableIsSettled(w);
  }

  lemma StableIsSettled(w: seq<Hit>)
    requires Grouped(w)
    ensures Settled(Stable(w), w) && |Stable(w)| == |w|
  {
    StableRanks(w);
    RankedIsPermuted(Stable(w), w);
  }

  lemma EarlyTail(entries: seq<DocId>, hits: Scored, limit: int, early: seq<Hit>) returns (tail: seq<Hit>)
    requires Grouped(Walked(entries, hits)) && !(0 < limit <= |Walked(entries, hits)|)
    requires IsSortFirst(entries, hits, limit, early)
    ensures RankedSet(tail, Lacking(entries, hits)) && early == Clip(Stable(Walked(entries, hits)) + tail, limit)
  {
    hide Walked, Lacking, Settled, RankedSet, Grouped, Stable;
    var w := Walked(entries, hits);
    assert Clip(w, limit) == w;
    forall r | Settled(r, w) ensures r == Stable(w) {
      SettledIsStable(r, w);
    }
    tail :| RankedSet(tail, Lacking(entries, hits)) && early == Clip(Stable(w) + tail, limit);
  }

  /**
   * Behind the walk the order of ties is left to map iteration and an unstable sort. So a stopped
   * search is always a prefix exactly when no two documents lacking the field tie with fewer
   * better ones than there is room for.
   */
  lemma StopBehindWalkIff(entries: seq<DocId>, hits: Scored, limit: int)
    requires Grouped(Walked(entries, hits)) && limit > |Walked(entries, hits)|
    ensures AlwaysPrefix(entries, hits, limit)
            <==> BestAreFixed(Lacking(entries, hits), limit - |Walked(entries, hits)|)
  {
    hide Walked, Lacking, RankedSet, Grouped, Stable, IsSortFirst, BestAreFixed;
    var w, docs := Walked(entries, hits), Lacking(entries, hits);
    var m := limit - |w|;
    StableIsSettled(w);
    if BestAreFixed(docs, m) {
      forall early, full | IsSortFirst(entries, hits, limit, early) && IsSortFirst(entries, hits, 0, full)
        ensures early == Clip(full, limit)
      {
        var x := EarlyTail(entries, hits, limit, early);
        var y := EarlyTail(entries, hits, 0, full);
        BestAgree(x, y, docs, m);
        SameClip(Stable(w), x, y, limit);
      }
    } else {
      var g, h := TooEarlyTie(docs, m);
      var x, y := EitherWay(docs, g, h);
      SomeSearch(entries, hits, limit, x);
      SomeSearch(entries, hits, 0, y);
      DifferentClip(Stable(w), x, y, limit, |Better(docs, g.score)|);
    }
  }

  lemma TooEarlyTie(docs: set<Hit>, m: nat) returns (g: Hit, h: Hit)
    requires !BestAreFixed(docs, m)
    ensures g in docs && h in docs && g != h && g.score == h.score && |Better(docs, g.score)| < m
  {
    g, h :| g in docs && h in docs && g != h && g.score == h.score && |Better(docs, g.score)| < m;
  }

  lemma SameClip(r: seq<Hit>, x: seq<Hit>, y: seq<Hit>, limit: int)
    requires |x| == |y| && limit > |r| && forall k :: 0 <= k < |x| && k < limit - |r| ==> x[k] == y[k]
    ensures Clip(r + x, limit) == Clip(Clip(r + y, 0), limit)
  {
  }

  lemma DifferentClip(r: seq<Hit>, x: seq<Hit>, y: seq<Hit>, limit: int, k: nat)
    requires |x| == |y| && limit > |r| && k < |x| && k < limit - |r| && x[k] != y[k]
    ensures Clip(r + x, limit) != Clip(Clip(r + y, 0), limit)
  {
    var i := |r| + k;
    assert Clip(r + x, limit)[i] == x[k] && Clip(Clip(r + y, 0), limit)[i] == y[k];
  }

  // --- Pages of an early-stopped search ----------------------------------------

  /** A cursor means the whole walk; otherwise the nearer of the page's end and the result limit, if there are such. */
  lemma LimitMeans(topK: int, opts: Options)
    ensures opts.after.Some? ==> Limit(topK, opts) == 0
    ensures opts.after.None? && opts.size > 0 ==> 0 < Limit(topK, opts) <= opts.from + opts.size
    ensures opts.after.None? && topK > 0 ==> 0 < Limit(topK, opts) <= topK
    ensures opts.after.None? ==> Limit(topK, opts) == topK || Limit(topK, opts) == opts.from + opts.size > 0
    ensures opts.after.None? && opts.size <= 0 ==> Limit(topK, opts) == topK
  {
  }

  /** The sort-first path from the sorted entries to the page. */
  method SearchPage(entries: seq<DocId>, hits: Scored, topK: int, opts: Options) returns (page: Page)
    ensures exists result :: IsSortFirst(entries, hits, Limit(topK, opts), result)
                             && page == PageOf(result, topK, Some(opts))
  {
    hide IsSortFirst, PageOf;
    var limit := topK;
    if opts.after.Some? {
      limit := 0;
    } else if opts.size > 0 {
      var need := opts.from + opts.size;
      if limit <= 0 || need < limit {
        limit := need;
      }
    }
    var result := Search(entries, hits, limit);
    ghost var start;
    page, start := ApplyPagination(result, topK, Some(opts));
  }

  /** The limit reaches the end of the requested page. */
  predicate ReachesPage(topK: int, opts: Options) {
    opts.after.Some? || opts.from == 0 || topK <= 0 || (opts.size > 0 && opts.from + opts.size <= topK)
  }

  lemma StopLong(topK: int, opts: Options, full: seq<Hit>)
    requires ReachesPage(topK, opts)
    ensures PageOf(Clip(full, Limit(topK, opts)), topK, Some(opts)) == PageOf(full, topK, Some(opts))
  {
    var limit := Limit(topK, opts);
    if 0 < limit < |full| {
      var hits := Clip(full, limit);
      if opts.size > 0 && limit == opts.from + opts.size {
        assert hits[opts.from..] == full[opts.from..][..opts.size];
        assert Clip(hits[opts.from..], opts.size) == Clip(full[opts.from..], opts.size);
      } else {
        assert opts.from == 0 && limit == topK;
        assert hits[0..] == hits && full[0..] == full;
        assert Clip(Clip(hits, opts.size), topK) == Clip(Clip(full, opts.size), topK);
      }
    }
  }

  lemma StopShort(topK: int, opts: Options, full: seq<Hit>)
    requires !ReachesPage(topK, opts)
    requires |full| == opts.from + (if opts.size > 0 then opts.size else topK)
    ensures 0 < Limit(topK, opts) <= |full|
    ensures PageOf(full[..Limit(topK, opts)], topK, Some(opts)) != PageOf(full, topK, Some(opts))
  {
    assert Limit(topK, opts) == topK && |full[..topK]| == topK;
    assert |Clip(full[opts.from..], opts.size)| == |full| - opts.from;
  }

  /** The page of the stopped search is the page of the search run to the end. */
  ghost predicate StopIsHarmless(entries: seq<DocId>, hits: Scored, topK: int, opts: Options) {
    forall early, full ::
      IsSortFirst(entries, hits, Limit(topK, opts), early) && IsSortFirst(entries, hits, 0, full) ==>
        PageOf(early, topK, Some(opts)) == PageOf(full, topK, Some(opts))
  }

  /** Where the stop cuts nothing better off its group, a limit that reaches the page leaves the page as it was. */
  lemma CleanStopIsHarmless(entries: seq<DocId>, hits: Scored, topK: int, opts: Options)
    requires Grouped(Walked(entries, hits)) && ReachesPage(topK, opts)
    requires var w, limit := Walked(entries, hits), Limit(topK, opts);
             if 0 < limit <= |w| then CleanCut(w, limit) else DifferentScores(Lacking(entries, hits))
    ensures StopIsHarmless(entries, hits, topK, opts)
  {
    hide PageOf, IsSortFirst, Walked, Lacking, Grouped, CleanCut, DifferentScores, ReachesPage;
    forall early, full | IsSortFirst(entries, hits, Limit(topK, opts), early) && IsSortFirst(entries, hits, 0, full)
      ensures PageOf(early, topK, Some(opts)) == PageOf(full, topK, Some(opts))
    {
      EarlyStopPrefixIff(entries, hits, Limit(topK, opts), early, full);
      StopLong(topK, opts, full);
    }
  }

  function Id(i: nat): DocId { seq(i + 1, _ => 'a') }

  function Ids(n: nat): seq<DocId> { seq(n, i requires 0 <= i < n => Id(i)) }

  /** Documents with different sort values. */
  function Plain(n: nat): Scored { map d | d in Ids(n) :: Hit(d, d, 0.0) }

  lemma {:induction false} PlainWalk(entries: seq<DocId>, hits: Scored)
    requires forall d <- entries :: d in hits && hits[d].sortValue == d
    ensures |Walked(entries, hits)| == |entries|
    ensures forall i :: 0 <= i < |entries| ==> Walked(entries, hits)[i].sortValue == entries[i]
    decreases |entries|
  {
    if entries != [] {
      PlainWalk(entries[..|entries| - 1], hits);
      assert entries[|entries| - 1] in entries;
    }
  }

  lemma PlainIsPlain(n: nat)
    ensures NoTies(Ids(n), Plain(n)) && Lacking(Ids(n), Plain(n)) == {} && |Walked(Ids(n), Plain(n))| == n
    ensures "" !in Plain(n)
  {
    PlainWalk(Ids(n), Plain(n));
    forall i, j | 0 <= i < j < n ensures Ids(n)[i] != Ids(n)[j] {
      assert |Id(i)| == i + 1 && |Id(j)| == j + 1;
    }
    assert forall d <- Ids(n) :: d != "";
  }

  lemma WalkAlone(entries: seq<DocId>, hits: Scored, limit: int)
    requires Unequal(Walked(entries, hits)) && Lacking(entries, hits) == {}
    ensures IsSortFirst(entries, hits, limit, Clip(Walked(entries, hits), limit))
  {
    hide Walked, Lacking, Grouped, Stable, Unequal;
    var w := Clip(Walked(entries, hits), limit);
    UnequalPrefix(Walked(entries, hits), limit);
    UnequalStays(w);
    TiesAreBroken(w, w);
    var none: seq<Hit> := [];
    assert RankedSet(none, {});
    assert w + none == w;
  }

  lemma UnequalPrefix(w: seq<Hit>, limit: int)
    requires Unequal(w)
    ensures Unequal(Clip(w, limit))
  {
  }

  /**
   * Even without ties, and whatever the documents, stopping early leaves the page as it was
   * exactly when the limit reaches the page: with an offset, a result limit below the end of
   * the page cuts the page short.
   */
  lemma EarlyStopPageExactIff(topK: int, opts: Options)
    ensures (forall entries, hits: Scored :: NoTies(entries, hits) && "" !in hits ==>
               StopIsHarmless(entries, hits, topK, opts))
            <==> ReachesPage(topK, opts)
  {
    hide NoTies, StopIsHarmless, ReachesPage, Walked, Lacking;
    if ReachesPage(topK, opts) {
      forall entries, hits: Scored | NoTies(entries, hits) ensures StopIsHarmless(entries, hits, topK, opts) {
        UntiedStopIsHarmless(entries, hits, topK, opts);
      }
    } else {
      var n: nat := PageEnd(topK, opts);
      PlainIsPlain(n);
      PlainStopShort(topK, opts, n);
    }
  }

  lemma PageEnd(topK: int, opts: Options) returns (n: nat)
    requires !ReachesPage(topK, opts)
    ensures n == opts.from + (if opts.size > 0 then opts.size else topK)
  {
    n := opts.from + (if opts.size > 0 then opts.size else topK);
  }

  lemma UntiedStopIsHarmless(entries: seq<DocId>, hits: Scored, topK: int, opts: Options)
    requires NoTies(entries, hits) && ReachesPage(topK, opts)
    ensures StopIsHarmless(entries, hits, topK, opts)
  {
    hide Walked, Lacking, StopIsHarmless, ReachesPage, Limit;
    var w := Walked(entries, hits);
    UnequalStays(w);
    CleanStopIsHarmless(entries, hits, topK, opts);
  }

  lemma PlainStopShort(topK: int, opts: Options, n: nat)
    requires !ReachesPage(topK, opts) && n == opts.from + (if opts.size > 0 then opts.size else topK)
    requires NoTies(Ids(n), Plain(n)) && Lacking(Ids(n), Plain(n)) == {} && |Walked(Ids(n), Plain(n))| == n
    ensures !StopIsHarmless(Ids(n), Plain(n), topK, opts)
  {
    hide Walked, Lacking, IsSortFirst, PageOf, Ids, Plain, Unequal;
    var w := Walked(Ids(n), Plain(n));
    WalkAlone(Ids(n), Plain(n), 0);
    WalkAlone(Ids(n), Plain(n), Limit(topK, opts));
    StopShort(topK, opts, w);
    assert w[..|w|] == w;
    assert Clip(w, Limit(topK, opts)) == w[..Limit(topK, opts)];
  }
}
