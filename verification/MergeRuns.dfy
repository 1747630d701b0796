/**
 * The index as a step machine: adds, deletes and flushes interleaved with the three
 * phases of one merge at a time. What a merge may and may not change.
 */
module MergeRuns {
  import opened Wrappers
  import opened InvertedIndex

  // --- The exact rule of the swap ----------------------------------------------

  /** The segments flushed after the snapshot. */
  function Later(s: State, snap: Snapshot): seq<Segment>
    requires |snap.segments| <= |s.segments|
  {
    s.segments[|snap.segments|..]
  }

  /** A posting of `d` that the merge has not looked at. */
  predicate Unmerged(s: State, snap: Snapshot, t: Term, d: DocId)
    requires |snap.segments| <= |s.segments|
  {
    Has(s.buffer, t, d) || InSegments(Later(s, snap), t, d)
  }

  /**
   * A swap changes nothing about documents alive at the snapshot; a document
   * tombstoned at the snapshot is found afterwards exactly where the merge has not looked.
   */
  lemma SwapRule(s: State, snap: Snapshot, t: Term, d: DocId)
    requires snap.segments <= s.segments
    ensures d !in snap.tombstones ==> (Finds(Swapped(s, snap), t, d) <==> Finds(s, t, d))
    ensures d in snap.tombstones ==> (Finds(Swapped(s, snap), t, d) <==> Unmerged(s, snap, t, d))
  {
    var s' := Swapped(s, snap);
    MergedHas(snap.segments, snap.tombstones, t, d);
    InSegmentsSplits([Merged(snap)], Later(s, snap), t, d);
    InSegmentsOne(Merged(snap), t, d);
    InSegmentsSplits(snap.segments, Later(s, snap), t, d);
    assert s.segments == snap.segments + Later(s, snap);
  }

  /** A lookup may deliver this posting of `d` for `t`. */
  predicate Delivers(s: State, t: Term, d: DocId, p: Posting) {
    && d !in s.tombstones
    && if InSegments(s.segments, t, d)
       then exists i :: 0 <= i < |s.segments| && Has(s.segments[i].postings, t, d) && s.segments[i].postings[t][d] == p
       else Has(s.buffer, t, d) && s.buffer[t][d] == p
  }

  /** A merged posting is one of those merged. */
  lemma {:induction false} MergedPosting(segments: seq<Segment>, dead: set<DocId>, t: Term, d: DocId)
    requires Has(MergedPostings(segments, dead), t, d)
    ensures exists i :: 0 <= i < |segments| && Has(segments[i].postings, t, d)
                        && segments[i].postings[t][d] == MergedPostings(segments, dead)[t][d]
    decreases |segments|
  {
    var init, last := segments[..|segments| - 1], segments[|segments| - 1];
    if Has(last.postings, t, d) && d !in dead {
      assert segments[|segments| - 1] == last;
    } else {
      MergedPosting(init, dead, t, d);
      var i :| 0 <= i < |init| && Has(init[i].postings, t, d)
               && init[i].postings[t][d] == MergedPostings(init, dead)[t][d];
      assert segments[i] == init[i];
    }
  }

  /**
   * A swap invents nothing: whatever a lookup may deliver afterwards, frequency and positions
   * included, it could before.
   */
  lemma SwapKeepsPostings(s: State, snap: Snapshot, t: Term, d: DocId, p: Posting)
    requires snap.segments <= s.segments && d !in snap.tombstones && Delivers(Swapped(s, snap), t, d, p)
    ensures Delivers(s, t, d, p)
  {
    SwapRule(s, snap, t, d);
    if InSegments(Swapped(s, snap).segments, t, d) {
      SegmentPostingKept(s, snap, t, d, p);
    } else {
      LiveSegmentsKept(s, snap, t, d);
    }
  }

  /**
   * And of several versions the newest survives: a document alive at the snapshot comes with the last
   * snapshotted posting, unless a segment flushed since has a newer one.
   */
  lemma MergeKeepsNewest(s: State, snap: Snapshot, t: Term, d: DocId, i: nat, p: Posting)
    requires snap.segments <= s.segments && d !in snap.tombstones && d !in s.tombstones
    requires i < |snap.segments| && Has(snap.segments[i].postings, t, d)
    requires forall j :: i < j < |snap.segments| ==> !Has(snap.segments[j].postings, t, d)
    ensures var merged := Swapped(s, snap).segments[0].postings;
            Has(merged, t, d) && merged[t][d] == s.segments[i].postings[t][d]
    ensures (forall j :: |snap.segments| <= j < |s.segments| ==> !Has(s.segments[j].postings, t, d)) ==>
              (Delivers(Swapped(s, snap), t, d, p) <==> p == s.segments[i].postings[t][d])
  {
    hide Merged;
    MergedMeans(snap);
    var segments := Swapped(s, snap).segments;
    assert s.segments[i] == snap.segments[i] && segments[0] == Merged(snap);
    assert Has(segments[0].postings, t, d);
    if forall j :: |snap.segments| <= j < |s.segments| ==> !Has(s.segments[j].postings, t, d) {
      forall k | 0 < k < |segments| ensures !Has(segments[k].postings, t, d) {
        assert segments[k] == s.segments[|snap.segments| + k - 1];
      }
    }
  }

  lemma LiveSegmentsKept(s: State, snap: Snapshot, t: Term, d: DocId)
    requires snap.segments <= s.segments && d !in snap.tombstones
    ensures InSegments(Swapped(s, snap).segments, t, d) <==> InSegments(s.segments, t, d)
  {
    MergedHas(snap.segments, snap.tombstones, t, d);
    InSegmentsSplits([Merged(snap)], Later(s, snap), t, d);
    InSegmentsOne(Merged(snap), t, d);
    InSegmentsSplits(snap.segments, Later(s, snap), t, d);
    assert s.segments == snap.segments + Later(s, snap);
  }

  lemma SegmentPostingKept(s: State, snap: Snapshot, t: Term, d: DocId, p: Posting)
    requires snap.segments <= s.segments
    requires var segments := Swapped(s, snap).segments;
             exists i :: 0 <= i < |segments| && Has(segments[i].postings, t, d) && segments[i].postings[t][d] == p
    ensures exists i :: 0 <= i < |s.segments| && Has(s.segments[i].postings, t, d) && s.segments[i].postings[t][d] == p
  {
    hide MergedPostings;
    var segments := Swapped(s, snap).segments;
    var i :| 0 <= i < |segments| && Has(segments[i].postings, t, d) && segments[i].postings[t][d] == p;
    if i == 0 {
      MergedPosting(snap.segments, snap.tombstones, t, d);
      var j :| 0 <= j < |snap.segments| && Has(snap.segments[j].postings, t, d)
               && snap.segments[j].postings[t][d] == p;
      assert s.segments[j] == snap.segments[j];
    } else {
      assert segments[i] == s.segments[|snap.segments| + i - 1];
    }
  }

  /** A deleted document stays hidden by a swap that had it tombstoned exactly when nothing of it is unmerged. */
  lemma SwapHides(s: State, snap: Snapshot, d: DocId)
    requires snap.segments <= s.segments && d in snap.tombstones
    ensures (forall t :: !Finds(Swapped(s, snap), t, d)) <==> (forall t :: !Unmerged(s, snap, t, d))
  {
    forall t ensures Finds(Swapped(s, snap), t, d) <==> Unmerged(s, snap, t, d) {
      SwapRule(s, snap, t, d);
    }
  }

  /** Run with nothing in between, a merge keeps the terms and un-hides exactly the buffered tombstoned documents. */
  lemma UninterleavedMerge(s: State, t: Term, d: DocId)
    ensures var s' := Swapped(s, SnapshotOf(s));
            && (IsTerm(s', t) <==> IsTerm(s, t))
            && (Finds(s', t, d) <==> Finds(s, t, d) || (d in s.tombstones && Has(s.buffer, t, d)))
  {
    var snap := SnapshotOf(s);
    MergedTerms(s.segments, s.tombstones, t);
    assert Swapped(s, snap).segments == [Merged(snap)];
    assert Swapped(s, snap).segments[0] == Merged(snap);
    SwapRule(s, snap, t, d);
    assert Later(s, snap) == [];
  }

  /** So it changes no search at all exactly when no tombstoned document has a posting in the buffer. */
  lemma MergeLosslessIff(s: State)
    ensures (forall t, d :: Finds(Swapped(s, SnapshotOf(s)), t, d) <==> Finds(s, t, d))
            <==> (forall t, d :: d in s.tombstones ==> !Has(s.buffer, t, d))
  {
    forall t, d ensures Finds(Swapped(s, SnapshotOf(s)), t, d) <==>
                        Finds(s, t, d) || (d in s.tombstones && Has(s.buffer, t, d))
    {
      UninterleavedMerge(s, t, d);
    }
    if t, d :| d in s.tombstones && Has(s.buffer, t, d) {
      assert Finds(Swapped(s, SnapshotOf(s)), t, d) && !Finds(s, t, d);
    }
  }

  // --- The machine -------------------------------------------------------------

  datatype Op = OpAdd(d: DocId, tokens: seq<Token>) | OpDelete(d: DocId) | OpFlush | OpMergeBegin | OpMergeEnd

  /** The index and the snapshot of the merge under way, if any. */
  datatype Machine = Machine(index: State, merging: Option<Snapshot>)

  const START := Machine(EMPTY, None)

  predicate Step(m: Machine, op: Op, m': Machine) {
    match op
    case OpAdd(d, tokens) => m' == m.(index := Added(m.index, d, tokens))
    case OpDelete(d) => m' == m.(index := Deleted(m.index, d))
    case OpFlush => m' == m.(index := Flushed(m.index))
    case OpMergeBegin => m.merging.None? && m' == m.(merging := Some(SnapshotOf(m.index)))
    case OpMergeEnd =>
      && m.merging.Some?
      && |m.merging.value.segments| <= |m.index.segments|
      && m' == Machine(Swapped(m.index, m.merging.value), None)
  }

  predicate IsRun(ms: seq<Machine>, ops: seq<Op>) {
    && |ms| == |ops| + 1
    && ms[0] == START
    && forall i :: 0 <= i < |ops| ==> Step(ms[i], ops[i], ms[i + 1])
  }

  lemma RunPrefix(ms: seq<Machine>, ops: seq<Op>)
    requires IsRun(ms, ops) && ops != []
    ensures IsRun(ms[..|ops|], ops[..|ops| - 1])
    ensures Step(ms[|ops| - 1], ops[|ops| - 1], ms[|ops|])
  {
  }

  /** The snapshot stays a prefix of the live segments, so the swap always has its slice. */
  predicate SnapshotIsPrefix(m: Machine) {
    m.merging.Some? ==> m.merging.value.segments <= m.index.segments
  }

  lemma {:induction false} SnapshotStaysPrefix(ms: seq<Machine>, ops: seq<Op>)
    requires IsRun(ms, ops)
    ensures SnapshotIsPrefix(ms[|ops|])
    decreases |ops|
  {
    if ops != [] {
      RunPrefix(ms, ops);
      SnapshotStaysPrefix(ms[..|ops|], ops[..|ops| - 1]);
    }
  }

  lemma {:induction false} RunsAreWellFormed(ms: seq<Machine>, ops: seq<Op>)
    requires IsRun(ms, ops)
    ensures WellFormed(ms[|ops|].index)
    decreases |ops|
  {
    if ops != [] {
      RunPrefix(ms, ops);
      RunsAreWellFormed(ms[..|ops|], ops[..|ops| - 1]);
      var m := ms[|ops| - 1];
      match ops[|ops| - 1]
      case OpAdd(d, tokens) => AddedIsWellFormed(m.index, d, tokens);
      case OpMergeEnd =>
        SnapshotStaysPrefix(ms[..|ops|], ops[..|ops| - 1]);
        MergedIsWellFormed(m.index, m.merging.value);
      case _ =>
    }
  }

  // --- Nothing live is ever lost -----------------------------------------------

  /** The last operation naming `d` was an add. */
  predicate Live(ops: seq<Op>, d: DocId) {
    ops != [] &&
    match ops[|ops| - 1]
    case OpAdd(e, _) => e == d || Live(ops[..|ops| - 1], d)
    case OpDelete(e) => e != d && Live(ops[..|ops| - 1], d)
    case _ => Live(ops[..|ops| - 1], d)
  }

  /** The terms added for `d` since its last delete. */
  predicate Wanted(ops: seq<Op>, d: DocId, t: Term) {
    ops != [] &&
    match ops[|ops| - 1]
    case OpAdd(e, tokens) => (e == d && Mentions(tokens, t)) || Wanted(ops[..|ops| - 1], d, t)
    case OpDelete(e) => e != d && Wanted(ops[..|ops| - 1], d, t)
    case _ => Wanted(ops[..|ops| - 1], d, t)
  }

  lemma {:induction false} WantedIff(ops: seq<Op>, d: DocId, t: Term)
    ensures Wanted(ops, d, t) <==>
            exists k :: 0 <= k < |ops| && ops[k].OpAdd? && ops[k].d == d && Mentions(ops[k].tokens, t)
                        && forall i :: k < i < |ops| ==> ops[i] != OpDelete(d)
    decreases |ops|
  {
    hide Mentions;
    if ops != [] {
      var n := |ops| - 1;
      WantedIff(ops[..n], d, t);
      assert forall i :: 0 <= i < n ==> ops[..n][i] == ops[i];
      if ops[n] == OpDelete(d) {
        assert forall k :: 0 <= k < n && ops[k].OpAdd? ==> k < n < |ops| && ops[n] == OpDelete(d);
      } else if Wanted(ops[..n], d, t) {
        var k :| 0 <= k < n && ops[..n][k].OpAdd? && ops[..n][k].d == d && Mentions(ops[..n][k].tokens, t)
                 && forall i :: k < i < n ==> ops[..n][i] != OpDelete(d);
        assert ops[k].OpAdd? && forall i :: k < i < |ops| ==> ops[i] != OpDelete(d);
      }
    }
  }

  ghost predicate Kept(m: Machine, ops: seq<Op>, t: Term, d: DocId)
    requires SnapshotIsPrefix(m)
  {
    && (Live(ops, d) ==> d !in m.index.tombstones)
    && (Wanted(ops, d, t) ==>
          && Live(ops, d)
          && (Has(m.index.buffer, t, d) || InSegments(m.index.segments, t, d))
          && (m.merging.Some? && d in m.merging.value.tombstones ==> Unmerged(m.index, m.merging.value, t, d)))
  }

  lemma FlushedUnmerged(s: State, snap: Snapshot, t: Term, d: DocId)
    requires |snap.segments| <= |s.segments|
    ensures Unmerged(Flushed(s), snap, t, d) <==> Unmerged(s, snap, t, d)
  {
    InSegmentsSplits(Later(s, snap), [Segment(s.buffer, s.bufferDocs)], t, d);
    InSegmentsOne(Segment(s.buffer, s.bufferDocs), t, d);
    assert Later(Flushed(s), snap) == Later(s, snap) + [Segment(s.buffer, s.bufferDocs)];
  }

  /** Where a document has postings after a swap. */
  lemma SwappedHas(s: State, snap: Snapshot, t: Term, d: DocId)
    requires snap.segments <= s.segments
    ensures Swapped(s, snap).buffer == s.buffer
    ensures InSegments(Swapped(s, snap).segments, t, d) <==>
            (d !in snap.tombstones && InSegments(snap.segments, t, d)) || InSegments(Later(s, snap), t, d)
    ensures InSegments(s.segments, t, d) <==> InSegments(snap.segments, t, d) || InSegments(Later(s, snap), t, d)
  {
    MergedHas(snap.segments, snap.tombstones, t, d);
    InSegmentsSplits([Merged(snap)], Later(s, snap), t, d);
    InSegmentsOne(Merged(snap), t, d);
    InSegmentsSplits(snap.segments, Later(s, snap), t, d);
    assert s.segments == snap.segments + Later(s, snap);
  }

  lemma KeptStep(m: Machine, ops: seq<Op>, op: Op, m': Machine, t: Term, d: DocId)
    requires SnapshotIsPrefix(m) && SnapshotIsPrefix(m') && Step(m, op, m') && Kept(m, ops, t, d)
    ensures Kept(m', ops + [op], t, d)
  {
    hide InSegments, Has, Merged;
    assert (ops + [op])[..|ops|] == ops;
    match op
    case OpAdd(e, tokens) => AddedHas(m.index, e, tokens, t, d);
    case OpDelete(e) =>
    case OpFlush =>
      FlushedHas(m.index, t, d);
      if m.merging.Some? { FlushedUnmerged(m.index, m.merging.value, t, d); }
    case OpMergeBegin =>
    case OpMergeEnd => SwappedHas(m.index, m.merging.value, t, d);
  }

  lemma {:induction false} KeptInRuns(ms: seq<Machine>, ops: seq<Op>, t: Term, d: DocId)
    requires IsRun(ms, ops)
    ensures SnapshotIsPrefix(ms[|ops|]) && Kept(ms[|ops|], ops, t, d)
    decreases |ops|
  {
    SnapshotStaysPrefix(ms, ops);
    if ops != [] {
      RunPrefix(ms, ops);
      var init := ops[..|ops| - 1];
      KeptInRuns(ms[..|ops|], init, t, d);
      KeptStep(ms[|ops| - 1], init, ops[|ops| - 1], ms[|ops|], t, d);
      assert ops == init + [ops[|ops| - 1]];
    }
  }

  /** However merges interleave with adds, deletes and flushes, every term of a live document finds it. */
  lemma NothingLost(ms: seq<Machine>, ops: seq<Op>, t: Term, d: DocId)
    requires IsRun(ms, ops)
    requires exists k :: 0 <= k < |ops| && ops[k].OpAdd? && ops[k].d == d && Mentions(ops[k].tokens, t)
                         && forall i :: k < i < |ops| ==> ops[i] != OpDelete(d)
    ensures Finds(ms[|ops|].index, t, d)
  {
    WantedIff(ops, d, t);
    KeptInRuns(ms, ops, t, d);
  }

  // --- When deletes hold -------------------------------------------------------

  /** No document that is still deleted has a posting the merge has not looked at. */
  ghost predicate SwapIsSafe(m: Machine)
    requires m.merging.Some? && |m.merging.value.segments| <= |m.index.segments|
  {
    forall t, d :: d in m.merging.value.tombstones && d in m.index.tombstones ==>
      !Unmerged(m.index, m.merging.value, t, d)
  }

  /** A swap brings some deleted document back exactly when it is not safe. */
  lemma SwapUnhidesIff(m: Machine)
    requires m.merging.Some? && m.merging.value.segments <= m.index.segments
    ensures (exists t, d :: d in m.index.tombstones && Finds(Swapped(m.index, m.merging.value), t, d))
            <==> !SwapIsSafe(m)
  {
    var s, snap := m.index, m.merging.value;
    forall t, d | d in s.tombstones
      ensures Finds(Swapped(s, snap), t, d) <==> d in snap.tombstones && Unmerged(s, snap, t, d)
    {
      SwapRule(s, snap, t, d);
    }
  }

  /** Operation `k` is the last to name `d`, and deletes it. */
  predicate LastDelete(ops: seq<Op>, k: nat, d: DocId) {
    && k < |ops| && ops[k] == OpDelete(d)
    && forall i :: k < i < |ops| ==> !(ops[i].OpAdd? && ops[i].d == d) && ops[i] != OpDelete(d)
  }

  /** Operation `i` ends a merge that had `d` tombstoned, while `t` has a posting of `d` the merge has not looked at. */
  predicate UndoneAt(ms: seq<Machine>, ops: seq<Op>, i: nat, t: Term, d: DocId)
    requires i < |ops| && i < |ms|
  {
    && ops[i] == OpMergeEnd && ms[i].merging.Some?
    && |ms[i].merging.value.segments| <= |ms[i].index.segments|
    && d in ms[i].merging.value.tombstones && d in ms[i].index.tombstones
    && Unmerged(ms[i].index, ms[i].merging.value, t, d)
  }

  predicate UndoneAfter(ms: seq<Machine>, ops: seq<Op>, k: nat, t: Term, d: DocId)
    requires |ops| < |ms|
  {
    exists i :: k < i < |ops| && UndoneAt(ms, ops, i, t, d)
  }

  /** Still tombstoned and nothing undone; or no tombstone left, and a posting exactly if the delete was undone. */
  predicate DeadOrUndone(m: Machine, undone: bool, t: Term, d: DocId) {
    if d in m.index.tombstones then !undone
    else (m.merging.Some? ==> d !in m.merging.value.tombstones) && (HasPosting(m.index, t, d) <==> undone)
  }

  lemma DeadOrUndoneStep(m: Machine, op: Op, m': Machine, before: bool, now: bool, t: Term, d: DocId)
    requires SnapshotIsPrefix(m) && Step(m, op, m') && DeadOrUndone(m, before, t, d)
    requires !(op.OpAdd? && op.d == d) && op != OpDelete(d)
    requires now <==> before || (op == OpMergeEnd && UndoneAt([m, m'], [op], 0, t, d))
    ensures DeadOrUndone(m', now, t, d)
  {
    hide InSegments, Has, Merged;
    match op
    case OpAdd(e, tokens) => AddedHas(m.index, e, tokens, t, d);
    case OpDelete(e) =>
    case OpFlush => FlushedHas(m.index, t, d);
    case OpMergeBegin =>
    case OpMergeEnd => SwappedHas(m.index, m.merging.value, t, d);
  }

  lemma {:induction false} DeadOrUndoneInRuns(ms: seq<Machine>, ops: seq<Op>, k: nat, t: Term, d: DocId)
    requires IsRun(ms, ops) && LastDelete(ops, k, d)
    ensures DeadOrUndone(ms[|ops|], UndoneAfter(ms, ops, k, t, d), t, d)
    decreases |ops|
  {
    hide Step, Unmerged;
    RunPrefix(ms, ops);
    var n := |ops| - 1;
    if k == n {
      DeleteTombstones(ms[n], d, ms[n + 1]);
    } else {
      DeadOrUndoneInRuns(ms[..n + 1], ops[..n], k, t, d);
      SnapshotStaysPrefix(ms[..n + 1], ops[..n]);
      UndoneGrows(ms, ops, k, t, d);
      DeadOrUndoneStep(ms[n], ops[n], ms[n + 1], UndoneAfter(ms[..n + 1], ops[..n], k, t, d),
                       UndoneAfter(ms, ops, k, t, d), t, d);
    }
  }

  lemma DeleteTombstones(m: Machine, d: DocId, m': Machine)
    requires Step(m, OpDelete(d), m')
    ensures d in m'.index.tombstones
  {
  }

  lemma UndoneGrows(ms: seq<Machine>, ops: seq<Op>, k: nat, t: Term, d: DocId)
    requires |ms| == |ops| + 1 && k < |ops| - 1
    ensures var n := |ops| - 1;
            UndoneAfter(ms, ops, k, t, d) <==>
            UndoneAfter(ms[..n + 1], ops[..n], k, t, d) || UndoneAt([ms[n], ms[n + 1]], [ops[n]], 0, t, d)
  {
    var n := |ops| - 1;
    assert UndoneAt(ms, ops, n, t, d) <==> UndoneAt([ms[n], ms[n + 1]], [ops[n]], 0, t, d);
    var ms0, ops0 := ms[..n + 1], ops[..n];
    if i :| k < i < n && UndoneAt(ms0, ops0, i, t, d) {
      assert UndoneAt(ms, ops, i, t, d);
    }
    if i :| k < i < |ops| && UndoneAt(ms, ops, i, t, d) {
      assert i < n ==> UndoneAt(ms0, ops0, i, t, d);
    }
  }

  /**
   * Over every run, a document deleted last is found again by a term exactly when some later
   * merge end forgot its tombstone while the term had a posting of it that the merge had not
   * looked at.
   */
  lemma DeletedFoundIff(ms: seq<Machine>, ops: seq<Op>, k: nat, t: Term, d: DocId)
    requires IsRun(ms, ops) && LastDelete(ops, k, d)
    ensures Finds(ms[|ops|].index, t, d) <==> exists i :: k < i < |ops| && UndoneAt(ms, ops, i, t, d)
  {
    hide UndoneAt, InSegments, Has;
    DeadOrUndoneInRuns(ms, ops, k, t, d);
  }

  /** So it stays hidden from every term exactly when no later merge end does that. */
  lemma DeletedStaysHidden(ms: seq<Machine>, ops: seq<Op>, k: nat, d: DocId)
    requires IsRun(ms, ops) && LastDelete(ops, k, d)
    ensures (forall t :: !Finds(ms[|ops|].index, t, d))
            <==> (forall i, t :: k < i < |ops| ==> !UndoneAt(ms, ops, i, t, d))
  {
    hide UndoneAt, Finds, Step;
    forall t ensures Finds(ms[|ops|].index, t, d) <==> UndoneAfter(ms, ops, k, t, d) {
      DeletedFoundIff(ms, ops, k, t, d);
    }
    if forall t :: !Finds(ms[|ops|].index, t, d) {
      forall i, t | k < i < |ops| ensures !UndoneAt(ms, ops, i, t, d) {
        assert !UndoneAfter(ms, ops, k, t, d);
      }
    }
  }

  /** The shortest way to undo a delete: a document deleted from the buffer comes back when a merge ends. */
  lemma MergeBringsBackBufferedDelete(d: DocId, t: Term)
    ensures var ops := [OpAdd(d, [Token(t, 0)]), OpDelete(d), OpMergeBegin, OpMergeEnd];
            exists ms: seq<Machine> :: IsRun(ms, ops) && LastDelete(ops, 1, d) && Finds(ms[4].index, t, d)
  {
    var tokens := [Token(t, 0)];
    var ops := [OpAdd(d, tokens), OpDelete(d), OpMergeBegin, OpMergeEnd];
    var m1 := Machine(Added(EMPTY, d, tokens), None);
    var m2 := Machine(Deleted(m1.index, d), None);
    var m3 := m2.(merging := Some(SnapshotOf(m2.index)));
    var m4 := Machine(Swapped(m3.index, m3.merging.value), None);
    AddedHas(EMPTY, d, tokens, t, d);
    assert tokens[0].term == t;
    SwapRule(m3.index, m3.merging.value, t, d);
    var ms := [START, m1, m2, m3, m4];
    assert IsRun(ms, ops) && Finds(ms[4].index, t, d);
  }

  // --- Buffered upsert ---------------------------------------------------------

  /** The postings of one document, term by term. */
  function DocumentPostings(b: Buffer, d: DocId): map<Term, Posting> {
    map t | t in b && d in b[t] :: b[t][d]
  }

  lemma {:induction false} RecordAllOfDocument(b: Buffer, c: Buffer, d: DocId, tokens: seq<Token>)
    requires DocumentPostings(b, d) == DocumentPostings(c, d)
    ensures DocumentPostings(RecordAll(b, d, tokens), d) == DocumentPostings(RecordAll(c, d, tokens), d)
    decreases |tokens|
  {
    if tokens != [] {
      var init, last := tokens[..|tokens| - 1], tokens[|tokens| - 1];
      RecordAllOfDocument(b, c, d, init);
      RecordOfDocument(RecordAll(b, d, init), d, last);
      RecordOfDocument(RecordAll(c, d, init), d, last);
    }
  }

  lemma RecordOfDocument(b: Buffer, d: DocId, token: Token)
    ensures var ps := DocumentPostings(b, d);
            var p := if token.term in ps then ps[token.term] else Posting(d, 0, []);
            DocumentPostings(Record(b, d, token), d)
            == ps[token.term := Posting(p.docId, p.frequency + 1, p.positions + [token.position])]
  {
  }

  /** Adding the fields of a version one after another. */
  function AddedAll(s: State, d: DocId, version: seq<seq<Token>>): State {
    if version == [] then s else Added(AddedAll(s, d, version[..|version| - 1]), d, version[|version| - 1])
  }

  function Flatten(version: seq<seq<Token>>): seq<Token> {
    if version == [] then [] else Flatten(version[..|version| - 1]) + version[|version| - 1]
  }

  lemma {:induction false} RecordAllConcat(b: Buffer, d: DocId, x: seq<Token>, y: seq<Token>)
    ensures RecordAll(b, d, x + y) == RecordAll(RecordAll(b, d, x), d, y)
    decreases |y|
  {
    if y == [] {
      assert x + y == x;
    } else {
      RecordAllConcat(b, d, x, y[..|y| - 1]);
      assert (x + y)[..|x + y| - 1] == x + y[..|y| - 1];
    }
  }

  lemma {:induction false} AddedAllBuffer(s: State, d: DocId, version: seq<seq<Token>>)
    requires version != []
    ensures AddedAll(s, d, version).buffer == RecordAll(Cleared(s, d).buffer, d, Flatten(version))
    ensures AddedAll(s, d, version).tombstones == s.tombstones - {d}
    ensures AddedAll(s, d, version).segments == s.segments
    decreases |version|
  {
    var init, last := version[..|version| - 1], version[|version| - 1];
    if init == [] {
      assert Flatten(version) == Flatten([]) + last == last;
    } else {
      AddedAllBuffer(s, d, init);
      var mid := AddedAll(s, d, init);
      assert Cleared(mid, d).buffer == mid.buffer && mid.tombstones - {d} == mid.tombstones;
      RecordAllConcat(Cleared(s, d).buffer, d, Flatten(init), last);
    }
  }

  /**
   * Replacing a version that is wholly in the buffer, with no flush in between, leaves
   * exactly the postings of the new version, and only its terms find the document.
   */
  lemma UpsertLeavesNoTrace(s: State, d: DocId, version: seq<seq<Token>>)
    requires WellFormed(s) && d in s.bufferDocs && version != []
    requires forall t :: !InSegments(s.segments, t, d)
    ensures var s' := AddedAll(Deleted(s, d), d, version);
            && DocumentPostings(s'.buffer, d) == DocumentPostings(RecordAll(map[], d, Flatten(version)), d)
            && forall t :: Finds(s', t, d) <==> Mentions(Flatten(version), t)
  {
    var gone := Deleted(s, d);
    AddedAllBuffer(gone, d, version);
    var cleared := Cleared(gone, d).buffer;
    forall t ensures !Has(cleared, t, d) {
      WithoutHas(s.buffer, d, t, d);
    }
    assert DocumentPostings(cleared, d) == DocumentPostings(map[], d);
    RecordAllOfDocument(cleared, map[], d, Flatten(version));
    forall t ensures Finds(AddedAll(gone, d, version), t, d) <==> Mentions(Flatten(version), t) {
      RecordAllHas(cleared, d, Flatten(version), t, d);
    }
  }

  /** The positions at which a term occurs, in stream order. */
  function PositionsOf(tokens: seq<Token>, t: Term): seq<nat> {
    if tokens == [] then []
    else PositionsOf(tokens[..|tokens| - 1], t)
         + (if tokens[|tokens| - 1].term == t then [tokens[|tokens| - 1].position] else [])
  }

  /**
   * What the posting of a term holds that the document did not have before: its positions in order,
   * and how many they are.
   */
  lemma {:induction false} FreshPosting(b: Buffer, d: DocId, tokens: seq<Token>, t: Term)
    requires !Has(b, t, d)
    ensures var r := RecordAll(b, d, tokens);
            && (Has(r, t, d) <==> PositionsOf(tokens, t) != [])
            && PostingOf(r, t, d) == Posting(d, |PositionsOf(tokens, t)|, PositionsOf(tokens, t))
    decreases |tokens|
  {
    hide Record;
    if tokens != [] {
      var init, last := tokens[..|tokens| - 1], tokens[|tokens| - 1];
      FreshPosting(b, d, init, t);
      RecordedPosting(RecordAll(b, d, init), d, last, t);
    }
  }

  lemma RecordedPosting(b: Buffer, d: DocId, token: Token, t: Term)
    ensures var p := PostingOf(b, t, d);
            PostingOf(Record(b, d, token), t, d)
            == if t != token.term then p else Posting(p.docId, p.frequency + 1, p.positions + [token.position])
    ensures Has(Record(b, d, token), t, d) <==> t == token.term || Has(b, t, d)
  {
  }

  /** Tokens that do not mention a term leave its posting as it was. */
  lemma {:induction false} UnmentionedPosting(b: Buffer, d: DocId, tokens: seq<Token>, t: Term)
    requires !Mentions(tokens, t)
    ensures var r := RecordAll(b, d, tokens);
            (Has(r, t, d) <==> Has(b, t, d)) && PostingOf(r, t, d) == PostingOf(b, t, d)
    decreases |tokens|
  {
    if tokens != [] {
      var init := tokens[..|tokens| - 1];
      assert forall i :: 0 <= i < |init| ==> init[i] == tokens[i];
      UnmentionedPosting(b, d, init, t);
    }
  }

  lemma {:induction false} PositionsOfConcat(x: seq<Token>, y: seq<Token>, t: Term)
    ensures PositionsOf(x + y, t) == PositionsOf(x, t) + PositionsOf(y, t)
    decreases |y|
  {
    if y == [] {
      assert x + y == x;
    } else {
      PositionsOfConcat(x, y[..|y| - 1], t);
      assert (x + y)[..|x + y| - 1] == x + y[..|y| - 1];
    }
  }

  lemma {:induction false} PositionsOfMeans(tokens: seq<Token>, t: Term, p: nat)
    ensures p in PositionsOf(tokens, t) <==> exists k :: 0 <= k < |tokens| && tokens[k] == Token(t, p)
    decreases |tokens|
  {
    if tokens != [] {
      var init, last := tokens[..|tokens| - 1], tokens[|tokens| - 1];
      PositionsOfMeans(init, t, p);
      if p in PositionsOf(tokens, t) {
        if p in PositionsOf(init, t) {
          var k :| 0 <= k < |init| && init[k] == Token(t, p);
          assert tokens[k] == Token(t, p);
        } else {
          assert tokens[|tokens| - 1] == Token(t, p);
        }
      }
    }
  }

  lemma {:induction false} RecordedAll(b: Buffer, d: DocId, tokens: seq<Token>, t: Term)
    ensures var p, r := PostingOf(b, t, d), PostingOf(RecordAll(b, d, tokens), t, d);
            && r.docId == p.docId && r.positions == p.positions + PositionsOf(tokens, t)
            && r.frequency == p.frequency + |PositionsOf(tokens, t)|
    decreases |tokens|
  {
    hide Record;
    if tokens != [] {
      var init, last := tokens[..|tokens| - 1], tokens[|tokens| - 1];
      RecordedAll(b, d, init, t);
      RecordedPosting(RecordAll(b, d, init), d, last, t);
    }
  }

  lemma {:induction false} PositionsInOrder(tokens: seq<Token>, t: Term)
    requires forall i, j :: 0 <= i < j < |tokens| ==> tokens[i].position < tokens[j].position
    ensures var ps := PositionsOf(tokens, t); forall i, j :: 0 <= i < j < |ps| ==> ps[i] < ps[j]
    decreases |tokens|
  {
    if tokens != [] {
      var init, last := tokens[..|tokens| - 1], tokens[|tokens| - 1];
      PositionsInOrder(init, t);
      var before := PositionsOf(init, t);
      forall i | 0 <= i < |before| ensures before[i] < last.position {
        assert before[i] in before;
        PositionsOfMeans(init, t, before[i]);
      }
    }
  }

  /**
   * What an add does to a posting, position by position: behind what the document kept come the places
   * of the term in the stream, in order, each counted once.
   */
  lemma AddedPosting(s: State, d: DocId, tokens: seq<Token>, t: Term)
    requires WellFormed(s) && forall i, j :: 0 <= i < j < |tokens| ==> tokens[i].position < tokens[j].position
    requires exists k :: 0 <= k < |tokens| && tokens[k].term == t
    ensures var kept := if Has(s.buffer, t, d) && d !in s.tombstones then s.buffer[t][d].positions else [];
            var now := Added(s, d, tokens).buffer;
            && Has(now, t, d) && now[t][d].docId == d && now[t][d].frequency == |now[t][d].positions|
            && kept <= now[t][d].positions
            && (forall i, j :: |kept| <= i < j < |now[t][d].positions| ==>
                  now[t][d].positions[i] < now[t][d].positions[j])
            && forall n: nat :: n in now[t][d].positions[|kept|..] <==>
                 exists k :: 0 <= k < |tokens| && tokens[k] == Token(t, n)
  {
    hide RecordAll, Without, WellFormed;
    var b := Cleared(s, d).buffer;
    AddedHas(s, d, tokens, t, d);
    RecordedAll(b, d, tokens, t);
    PositionsInOrder(tokens, t);
    KeptPositions(s, d, t);
    AddedWellKeyed(s, d, tokens, t);
    forall n: nat {
      PositionsOfMeans(tokens, t, n);
    }
  }

  lemma KeptPositions(s: State, d: DocId, t: Term)
    requires WellFormed(s)
    ensures PostingOf(Cleared(s, d).buffer, t, d).positions
            == if Has(s.buffer, t, d) && d !in s.tombstones then s.buffer[t][d].positions else []
  {
    WithoutHas(s.buffer, d, t, d);
    assert Has(s.buffer, t, d) ==> d in s.bufferDocs;
  }

  lemma AddedWellKeyed(s: State, d: DocId, tokens: seq<Token>, t: Term)
    requires WellFormed(s)
    ensures var b := Added(s, d, tokens).buffer;
            Has(b, t, d) ==> b[t][d].docId == d && b[t][d].frequency == |b[t][d].positions|
  {
    AddedIsWellFormed(s, d, tokens);
    hide Added;
  }
}
