/**
 * The candidate building of engine/search.go against evaluation on the whole index, and
 * exactly which queries it answers like that.
 */
module Candidates {
  import opened InvertedIndex
  import opened MergeRuns
  import opened Query
  import opened Sequences
  import opened Wrappers

  // --- What lookups return -----------------------------------------------------

  /** Every segment that has a live posting of the term for a document has the same one. */
  ghost predicate OnePosting(s: State, t: Term) {
    forall d, i, j :: d !in s.tombstones && 0 <= i < |s.segments| && 0 <= j < |s.segments|
                      && Has(s.segments[i].postings, t, d) && Has(s.segments[j].postings, t, d) ==>
                        s.segments[i].postings[t][d] == s.segments[j].postings[t][d]
  }

  /** The postings of the segments, the last one winning. */
  function Over(segments: seq<Segment>, t: Term): Postings {
    if segments == [] then map[]
    else Over(segments[..|segments| - 1], t) + PostingsOf(segments[|segments| - 1].postings, t)
  }

  lemma {:induction false} OverMeans(segments: seq<Segment>, t: Term, d: DocId)
    ensures d in Over(segments, t) <==> InSegments(segments, t, d)
    ensures d in Over(segments, t) ==>
              exists i :: 0 <= i < |segments| && Has(segments[i].postings, t, d)
                          && Over(segments, t)[d] == segments[i].postings[t][d]
    decreases |segments|
  {
    if segments != [] {
      var init, last := segments[..|segments| - 1], segments[|segments| - 1];
      OverMeans(init, t, d);
      assert segments == init + [last];
      InSegmentsSplits(init, [last], t, d);
      InSegmentsOne(last, t, d);
      if Has(last.postings, t, d) {
        assert segments[|segments| - 1] == last;
      } else if d in Over(init, t) {
        var i :| 0 <= i < |init| && Has(init[i].postings, t, d) && Over(init, t)[d] == init[i].postings[t][d];
        assert segments[i] == init[i];
      }
    }
  }

  /** One of the answers a lookup may give. */
  function LookupOf(s: State, t: Term): Postings {
    PostingsOf(s.buffer, t) + Over(s.segments, t) - s.tombstones
  }

  lemma LookupOfIsLookup(s: State, t: Term)
    ensures IsLookup(s, t, LookupOf(s, t))
  {
    forall d ensures d in LookupOf(s, t) <==> Finds(s, t, d) {
      OverMeans(s.segments, t, d);
    }
    forall d | d in LookupOf(s, t)
      ensures if InSegments(s.segments, t, d)
              then exists i :: 0 <= i < |s.segments| && Has(s.segments[i].postings, t, d)
                               && LookupOf(s, t)[d] == s.segments[i].postings[t][d]
              else LookupOf(s, t)[d] == s.buffer[t][d]
    {
      OverMeans(s.segments, t, d);
    }
  }

  lemma DeliveredIsLookup(s: State, t: Term, d: DocId, p: Posting, found: Postings)
    requires IsLookup(s, t, found) && Delivers(s, t, d, p)
    ensures IsLookup(s, t, found[d := p])
  {
  }

  /** What a lookup may deliver is exactly what some lookup comes with. */
  lemma DeliveredByLookup(s: State, t: Term, d: DocId, p: Posting)
    ensures Delivers(s, t, d, p) <==> exists found :: IsLookup(s, t, found) && d in found && found[d] == p
  {
    hide LookupOf, InSegments;
    LookupOfIsLookup(s, t);
    if Delivers(s, t, d, p) {
      DeliveredIsLookup(s, t, d, p, LookupOf(s, t));
    }
  }

  lemma OneAnswer(s: State, t: Term, f: Postings, g: Postings, d: DocId)
    requires OnePosting(s, t) && IsLookup(s, t, f) && IsLookup(s, t, g)
    ensures d in f <==> d in g
    ensures d in f && d in g ==> f[d] == g[d]
  {
    if d in f && InSegments(s.segments, t, d) {
      var i :| 0 <= i < |s.segments| && Has(s.segments[i].postings, t, d) && f[d] == s.segments[i].postings[t][d];
      var j :| 0 <= j < |s.segments| && Has(s.segments[j].postings, t, d) && g[d] == s.segments[j].postings[t][d];
    }
  }

  lemma OnePostingForces(s: State, t: Term, f: Postings, g: Postings)
    requires OnePosting(s, t) && IsLookup(s, t, f) && IsLookup(s, t, g)
    ensures f == g
  {
    hide OnePosting, IsLookup;
    forall d ensures (d in f <==> d in g) && (d in f && d in g ==> f[d] == g[d]) {
      OneAnswer(s, t, f, g, d);
    }
  }

  /** Another segment's posting is as good an answer. */
  lemma OtherAnswer(s: State, t: Term, f: Postings, d: DocId, i: nat)
    requires IsLookup(s, t, f) && d !in s.tombstones && i < |s.segments| && Has(s.segments[i].postings, t, d)
    ensures IsLookup(s, t, f[d := s.segments[i].postings[t][d]])
  {
    assert InSegments(s.segments, t, d) && Finds(s, t, d);
  }

  lemma TwoAnswers(s: State, t: Term, d: DocId, i: nat, j: nat) returns (f: Postings, g: Postings)
    requires d !in s.tombstones && i < |s.segments| && j < |s.segments|
    requires Has(s.segments[i].postings, t, d) && Has(s.segments[j].postings, t, d)
    requires s.segments[i].postings[t][d] != s.segments[j].postings[t][d]
    ensures IsLookup(s, t, f) && IsLookup(s, t, g) && f != g
  {
    hide IsLookup;
    LookupOfIsLookup(s, t);
    OtherAnswer(s, t, LookupOf(s, t), d, i);
    OtherAnswer(s, t, LookupOf(s, t), d, j);
    f, g := LookupOf(s, t)[d := s.segments[i].postings[t][d]], LookupOf(s, t)[d := s.segments[j].postings[t][d]];
    assert f[d] != g[d];
  }

  /** A lookup has only one answer exactly when the segments agree on the live postings of the term. */
  lemma LookupForcedIff(s: State, t: Term)
    ensures (forall f, g :: IsLookup(s, t, f) && IsLookup(s, t, g) ==> f == g) <==> OnePosting(s, t)
  {
    hide IsLookup;
    if OnePosting(s, t) {
      forall f, g | IsLookup(s, t, f) && IsLookup(s, t, g) ensures f == g {
        OnePostingForces(s, t, f, g);
      }
    } else {
      var d, i, j :| d !in s.tombstones && 0 <= i < |s.segments| && 0 <= j < |s.segments|
                     && Has(s.segments[i].postings, t, d) && Has(s.segments[j].postings, t, d)
                     && s.segments[i].postings[t][d] != s.segments[j].postings[t][d];
      var f, g := TwoAnswers(s, t, d, i, j);
    }
  }

  /** The whole index: what a lookup of each key returns, one posting a document. */
  type WholeIndex = Buffer

  function SegmentTerms(segments: seq<Segment>): set<Term> {
    if segments == [] then {} else SegmentTerms(segments[..|segments| - 1]) + segments[|segments| - 1].postings.Keys
  }

  function WholeOf(s: State): WholeIndex {
    map t | t in s.buffer.Keys + SegmentTerms(s.segments) :: LookupOf(s, t)
  }

  lemma {:induction false} NoSuchTerm(segments: seq<Segment>, t: Term)
    requires t !in SegmentTerms(segments)
    ensures Over(segments, t) == map[]
    decreases |segments|
  {
    if segments != [] {
      NoSuchTerm(segments[..|segments| - 1], t);
    }
  }

  lemma WholeIsLookup(s: State, t: Term)
    ensures PostingsOf(WholeOf(s), t) == LookupOf(s, t)
  {
    if t !in s.buffer.Keys + SegmentTerms(s.segments) {
      NoSuchTerm(s.segments, t);
    }
  }

  /** One indexed version of each document: no lookup has a choice. */
  ghost predicate OneVersion(s: State) {
    forall t :: OnePosting(s, t)
  }

  /** Before the first flush and without deletes, the whole index is the buffer. */
  lemma WholeIsBuffer(s: State)
    requires s.segments == [] && s.tombstones == {}
    ensures OneVersion(s) && WholeOf(s) == s.buffer
  {
    assert SegmentTerms([]) == {};
    forall t ensures PostingsOf(WholeOf(s), t) == PostingsOf(s.buffer, t) {
      assert Over([], t) == map[];
    }
  }

  // --- Candidates --------------------------------------------------------------

  /** Brute force: every clause evaluated on the whole index, each phrase on its own field. */
  ghost predicate BruteMatches(clauses: seq<Clause>, idx: WholeIndex, d: DocId) {
    Satisfies(clauses, t => Has(idx, t, d),
              (c: Clause) => c.Phrase? && PhraseHolds(c.words, PhrasePostings(idx, c.field, c.words, d)))
  }

  /** The postings one clause contributes for a document. */
  function Contribution(c: Clause, idx: WholeIndex, d: DocId): DocPostings {
    if c.Phrase? then PhrasePostings(idx, c.field, c.words, d)
    else if Has(idx, Key(c.field, c.term), d) then map[Key(c.field, c.term) := idx[Key(c.field, c.term)][d]]
    else map[]
  }

  /** Later clauses overwrite earlier ones. */
  function Gathered(clauses: seq<Clause>, idx: WholeIndex, d: DocId): DocPostings {
    if clauses == [] then map[]
    else Gathered(clauses[..|clauses| - 1], idx, d) + Contribution(clauses[|clauses| - 1], idx, d)
  }

  /** The document is a candidate, and its filed postings match. */
  ghost predicate CandidateFinds(clauses: seq<Clause>, idx: WholeIndex, d: DocId) {
    Gathered(clauses, idx, d) != map[] && Matches(clauses, Gathered(clauses, idx, d))
  }

  type Candidates = map<DocId, DocPostings>

  ghost predicate Gathers(clauses: seq<Clause>, idx: WholeIndex, candidates: Candidates) {
    forall d :: CandidateOf(candidates, d) == Gathered(clauses, idx, d) && (d in candidates ==> candidates[d] != map[])
  }

  function CandidateOf(candidates: Candidates, d: DocId): DocPostings {
    if d in candidates then candidates[d] else map[]
  }

  /** All postings of one key, filed under each document. */
  method FilePostings(before: Candidates, row: Postings, name: Term) returns (candidates: Candidates)
    requires forall d <- before :: before[d] != map[]
    ensures forall d :: CandidateOf(candidates, d)
                        == if d in row then CandidateOf(before, d)[name := row[d]] else CandidateOf(before, d)
    ensures forall d <- candidates :: candidates[d] != map[]
  {
    candidates := before;
    var todo := row.Keys;
    while todo != {}
      invariant todo <= row.Keys
      invariant forall d :: CandidateOf(candidates, d)
                  == if d in row && d !in todo then CandidateOf(before, d)[name := row[d]] else CandidateOf(before, d)
      invariant forall d <- candidates :: candidates[d] != map[]
    {
      var d :| d in todo;
      todo := todo - {d};
      var filed := CandidateOf(candidates, d)[name := row[d]];
      assert name in filed;
      candidates := candidates[d := filed];
    }
  }

  lemma WordPosting(idx: WholeIndex, field: string, words: seq<Term>, k: nat, d: DocId)
    requires k < |words|
    ensures var row := PostingsOf(idx, Key(field, words[k]));
            PhrasePostings(idx, field, words[..k + 1], d)
            == if d in row then PhrasePostings(idx, field, words[..k], d)[words[k] := row[d]]
               else PhrasePostings(idx, field, words[..k], d)
  {
    hide Key;
    assert words[..k + 1] == words[..k] + [words[k]];
    var row := PostingsOf(idx, Key(field, words[k]));
    assert d in row <==> Has(idx, Key(field, words[k]), d);
  }

  /** A key to look up, and the name its postings are filed under. */
  datatype Request = Request(key: Term, name: Term)

  function WordRequests(field: string, words: seq<Term>): seq<Request> {
    seq(|words|, i requires 0 <= i < |words| => Request(Key(field, words[i]), words[i]))
  }

  function RequestsOf(c: Clause): seq<Request> {
    if c.Phrase? then WordRequests(c.field, c.words) else [Request(Key(c.field, c.term), Key(c.field, c.term))]
  }

  function Requests(clauses: seq<Clause>): seq<Request> {
    if clauses == [] then [] else Requests(clauses[..|clauses| - 1]) + RequestsOf(clauses[|clauses| - 1])
  }

  /** Each row is an answer its lookup may give. */
  ghost predicate Answers(s: State, reqs: seq<Request>, rows: seq<Postings>) {
    |rows| == |reqs| && forall i :: 0 <= i < |reqs| ==> IsLookup(s, reqs[i].key, rows[i])
  }

  /** What is filed for a document, later rows overwriting earlier ones. */
  function Filed(reqs: seq<Request>, rows: seq<Postings>, d: DocId): DocPostings
    requires |rows| == |reqs|
  {
    if reqs == [] then map[]
    else
      var n := |reqs| - 1;
      var before := Filed(reqs[..n], rows[..n], d);
      if d in rows[n] then before[reqs[n].name := rows[n][d]] else before
  }

  ghost predicate FiledAs(candidates: Candidates, reqs: seq<Request>, rows: seq<Postings>)
    requires |rows| == |reqs|
  {
    && (forall d :: CandidateOf(candidates, d) == Filed(reqs, rows, d))
    && (forall d <- candidates :: candidates[d] != map[])
  }

  method BuildCandidates(clauses: seq<Clause>, index: Index) returns (candidates: Candidates, ghost rows: seq<Postings>)
    requires index.Valid()
    ensures |rows| == |Requests(clauses)|
    ensures Answers(index.Now(), Requests(clauses), rows) && FiledAs(candidates, Requests(clauses), rows)
    ensures OneVersion(index.Now()) ==> Gathers(clauses, WholeOf(index.Now()), candidates)
  {
    hide OneVersion, WholeOf, Answers, FiledAs, Gathers;
    candidates, rows := map[], [];
    NothingFiled(index.Now());
    assert clauses[..0] == [];
    for i := 0 to |clauses|
      invariant Filing(index.Now(), candidates, Requests(clauses[..i]), rows)
    {
      candidates, rows := GatherClause(clauses[i], index, candidates, Requests(clauses[..i]), rows);
      assert clauses[..i + 1][..i] == clauses[..i];
    }
    assert clauses[..|clauses|] == clauses;
    FilingMeans(index.Now(), candidates, Requests(clauses), rows);
    if OneVersion(index.Now()) {
      FiledIsGathered(index.Now(), clauses, candidates, rows);
    }
  }

  ghost predicate Filing(s: State, candidates: Candidates, reqs: seq<Request>, rows: seq<Postings>) {
    Answers(s, reqs, rows) && FiledAs(candidates, reqs, rows)
  }

  lemma FilingMeans(s: State, candidates: Candidates, reqs: seq<Request>, rows: seq<Postings>)
    requires Filing(s, candidates, reqs, rows)
    ensures |rows| == |reqs| && Answers(s, reqs, rows) && FiledAs(candidates, reqs, rows)
  {
  }

  lemma NothingFiled(s: State)
    ensures Filing(s, map[], [], [])
  {
  }

  method GatherClause(clause: Clause, index: Index, before: Candidates, ghost reqs: seq<Request>,
                      ghost rows: seq<Postings>)
    returns (candidates: Candidates, ghost rows': seq<Postings>)
    requires index.Valid() && Filing(index.Now(), before, reqs, rows)
    ensures Filing(index.Now(), candidates, reqs + RequestsOf(clause), rows')
  {
    hide Filing, WordRequests, Key, RequestsOf;
    candidates, rows' := before, rows;
    if clause.Phrase? {
      var words := clause.words;
      FirstWord(clause, reqs);
      for k := 0 to |words|
        invariant Filing(index.Now(), candidates, reqs + WordRequests(clause.field, words[..k]), rows')
      {
        ghost var sofar := reqs + WordRequests(clause.field, words[..k]);
        NextWord(clause.field, words, k, reqs);
        var req := Request(Key(clause.field, words[k]), words[k]);
        candidates, rows' := GatherRequest(req, index, candidates, sofar, rows');
      }
      assert words[..|words|] == words;
    } else {
      var key := Key(clause.field, clause.term);
      KeyRequest(clause);
      candidates, rows' := GatherRequest(Request(key, key), index, candidates, reqs, rows');
    }
  }

  lemma FirstWord(c: Clause, reqs: seq<Request>)
    requires c.Phrase?
    ensures reqs + WordRequests(c.field, c.words[..0]) == reqs
    ensures RequestsOf(c) == WordRequests(c.field, c.words)
  {
  }

  lemma NextWord(field: string, words: seq<Term>, k: nat, reqs: seq<Request>)
    requires k < |words|
    ensures reqs + WordRequests(field, words[..k]) + [Request(Key(field, words[k]), words[k])]
            == reqs + WordRequests(field, words[..k + 1])
  {
    hide Key;
  }

  lemma KeyRequest(c: Clause)
    requires !c.Phrase?
    ensures RequestsOf(c) == [Request(Key(c.field, c.term), Key(c.field, c.term))]
  {
  }

  method GatherRequest(req: Request, index: Index, before: Candidates, ghost reqs: seq<Request>,
                       ghost rows: seq<Postings>)
    returns (candidates: Candidates, ghost rows': seq<Postings>)
    requires index.Valid() && Filing(index.Now(), before, reqs, rows)
    ensures Filing(index.Now(), candidates, reqs + [req], rows')
  {
    hide IsLookup, CandidateOf, Filed;
    var row := index.Lookup(req.key);
    candidates := FilePostings(before, row, req.name);
    rows' := rows + [row];
    FiledMore(reqs, rows, req, row);
  }

  lemma FiledMore(reqs: seq<Request>, rows: seq<Postings>, req: Request, row: Postings)
    requires |rows| == |reqs|
    ensures forall d :: Filed(reqs + [req], rows + [row], d)
                        == if d in row then Filed(reqs, rows, d)[req.name := row[d]] else Filed(reqs, rows, d)
  {
    assert (reqs + [req])[..|reqs|] == reqs && (rows + [row])[..|rows|] == rows;
  }

  lemma {:induction false} FiledConcat(x: seq<Request>, rx: seq<Postings>, y: seq<Request>, ry: seq<Postings>, d: DocId)
    requires |rx| == |x| && |ry| == |y|
    ensures Filed(x + y, rx + ry, d) == Filed(x, rx, d) + Filed(y, ry, d)
    decreases |y|
  {
    if y == [] {
      assert x + y == x && rx + ry == rx;
    } else {
      var n := |y| - 1;
      FiledConcat(x, rx, y[..n], ry[..n], d);
      assert x + y == (x + y[..n]) + [y[n]] && rx + ry == (rx + ry[..n]) + [ry[n]];
      FiledMore(x + y[..n], rx + ry[..n], y[n], ry[n]);
    }
  }

  function RowsOf(idx: WholeIndex, reqs: seq<Request>): seq<Postings> {
    seq(|reqs|, i requires 0 <= i < |reqs| => PostingsOf(idx, reqs[i].key))
  }

  lemma {:induction false} WordsFiled(idx: WholeIndex, field: string, words: seq<Term>, k: nat, d: DocId)
    requires k <= |words|
    ensures var reqs := WordRequests(field, words[..k]);
            Filed(reqs, RowsOf(idx, reqs), d) == PhrasePostings(idx, field, words[..k], d)
    decreases k
  {
    hide Filed, Key, PhrasePostings, PostingsOf;
    if k == 0 {
      NoWordsFiled(idx, field, d);
      assert WordRequests(field, words[..0]) == [] && RowsOf(idx, []) == [] && words[..0] == [];
    } else {
      WordsFiled(idx, field, words, k - 1, d);
      WordPosting(idx, field, words, k - 1, d);
      var before, req := WordRequests(field, words[..k - 1]), Request(Key(field, words[k - 1]), words[k - 1]);
      assert WordRequests(field, words[..k]) == before + [req];
      assert RowsOf(idx, before + [req]) == RowsOf(idx, before) + [PostingsOf(idx, req.key)];
      FiledMore(before, RowsOf(idx, before), req, PostingsOf(idx, req.key));
    }
  }

  lemma NoWordsFiled(idx: WholeIndex, field: string, d: DocId)
    ensures Filed([], [], d) == PhrasePostings(idx, field, [], d) == map[]
  {
  }

  lemma ClauseFiled(c: Clause, idx: WholeIndex, d: DocId)
    ensures Filed(RequestsOf(c), RowsOf(idx, RequestsOf(c)), d) == Contribution(c, idx, d)
  {
    hide Key;
    if c.Phrase? {
      assert c.words[..|c.words|] == c.words;
      WordsFiled(idx, c.field, c.words, |c.words|, d);
    } else {
      var req := Request(Key(c.field, c.term), Key(c.field, c.term));
      var none: seq<Request>, noRows: seq<Postings> := [], [];
      FiledMore(none, noRows, req, PostingsOf(idx, req.key));
      assert none + [req] == [req] && noRows + [PostingsOf(idx, req.key)] == RowsOf(idx, [req]);
    }
  }

  lemma {:induction false} FiledFromWhole(clauses: seq<Clause>, idx: WholeIndex, d: DocId)
    ensures Filed(Requests(clauses), RowsOf(idx, Requests(clauses)), d) == Gathered(clauses, idx, d)
    decreases |clauses|
  {
    hide Filed, RequestsOf, Contribution;
    if clauses == [] {
      NoWordsFiled(idx, "", d);
      assert RowsOf(idx, []) == [];
    } else {
      var init, last := clauses[..|clauses| - 1], clauses[|clauses| - 1];
      FiledFromWhole(init, idx, d);
      ClauseFiled(last, idx, d);
      FiledConcat(Requests(init), RowsOf(idx, Requests(init)), RequestsOf(last), RowsOf(idx, RequestsOf(last)), d);
      assert RowsOf(idx, Requests(clauses)) == RowsOf(idx, Requests(init)) + RowsOf(idx, RequestsOf(last));
    }
  }

  lemma AnswersAreForced(s: State, reqs: seq<Request>, rows: seq<Postings>)
    requires OneVersion(s) && Answers(s, reqs, rows)
    ensures rows == RowsOf(WholeOf(s), reqs)
  {
    hide IsLookup, OnePosting, WholeOf, LookupOf;
    forall i | 0 <= i < |reqs| ensures rows[i] == PostingsOf(WholeOf(s), reqs[i].key) {
      LookupOfIsLookup(s, reqs[i].key);
      OnePostingForces(s, reqs[i].key, rows[i], LookupOf(s, reqs[i].key));
      WholeIsLookup(s, reqs[i].key);
    }
  }

  lemma FiledIsGathered(s: State, clauses: seq<Clause>, candidates: Candidates, rows: seq<Postings>)
    requires OneVersion(s) && Answers(s, Requests(clauses), rows) && FiledAs(candidates, Requests(clauses), rows)
    ensures Gathers(clauses, WholeOf(s), candidates)
    ensures forall d :: Filed(Requests(clauses), rows, d) == Gathered(clauses, WholeOf(s), d)
  {
    hide OneVersion, Answers, WholeOf, Filed, Gathered, Requests;
    AnswersAreForced(s, Requests(clauses), rows);
    forall d ensures Filed(Requests(clauses), rows, d) == Gathered(clauses, WholeOf(s), d) {
      FiledFromWhole(clauses, WholeOf(s), d);
    }
  }

  /**
   * The score-first path without ranges, filters or a result limit: the ids it returns. With one
   * indexed version of each document they do not depend on which segment answers first.
   */
  method SearchIds(clauses: seq<Clause>, index: Index, stored: set<DocId>)
    returns (ids: set<DocId>, ghost rows: seq<Postings>)
    requires index.Valid()
    ensures |rows| == |Requests(clauses)| && Answers(index.Now(), Requests(clauses), rows)
    ensures forall d :: d in ids <==> d in stored && Filed(Requests(clauses), rows, d) != map[]
                                      && Matches(clauses, Filed(Requests(clauses), rows, d))
    ensures OneVersion(index.Now()) ==>
              forall d :: d in ids <==> d in stored && CandidateFinds(clauses, WholeOf(index.Now()), d)
    ensures OneVersion(index.Now()) && ColonFreeWords(clauses) && PhrasesCompatible(clauses) && Demands(clauses) ==>
              forall d :: d in ids <==> d in stored && BruteMatches(clauses, WholeOf(index.Now()), d)
    ensures (forall c <- clauses :: !c.Phrase?) ==>
              forall d :: d in ids <==>
                && d in stored
                && (exists c <- clauses :: Finds(index.Now(), c.field + ":" + c.term, d))
                && (forall c <- clauses :: c.Must? ==> Finds(index.Now(), c.field + ":" + c.term, d))
                && (forall c <- clauses :: c.MustNot? ==> !Finds(index.Now(), c.field + ":" + c.term, d))
                && ((exists c <- clauses :: c.Must?) || (forall c <- clauses :: !c.Should?)
                    || exists c <- clauses :: c.Should? && Finds(index.Now(), c.field + ":" + c.term, d))
  {
    hide OneVersion, WholeOf, Answers, Filed, Gathered, Gathers, Matches, BruteMatches, Requests;
    var candidates;
    candidates, rows := BuildCandidates(clauses, index);
    ids := {};
    var todo := candidates.Keys;
    while todo != {}
      invariant todo <= candidates.Keys
      invariant forall d :: d in ids <==>
                d in candidates && d !in todo && d in stored && Matches(clauses, candidates[d])
    {
      var d :| d in todo;
      todo := todo - {d};
      var ok := Match(clauses, candidates[d]);
      if !ok {
        continue;
      }
      if d in stored {
        ids := ids + {d};
      }
    }
    FoundByFiling(clauses, candidates, rows, ids, stored);
    if forall c <- clauses :: !c.Phrase? {
      FoundWithoutPhrases(index.Now(), clauses, rows, ids, stored);
    }
    if OneVersion(index.Now()) {
      FoundOnWhole(index.Now(), clauses, candidates, rows, ids, stored);
    }
  }

  lemma FoundByFiling(clauses: seq<Clause>, candidates: Candidates, rows: seq<Postings>, ids: set<DocId>,
                      stored: set<DocId>)
    requires |rows| == |Requests(clauses)| && FiledAs(candidates, Requests(clauses), rows)
    requires forall d :: d in ids <==> d in candidates && d in stored && Matches(clauses, candidates[d])
    ensures forall d :: d in ids <==> d in stored && Filed(Requests(clauses), rows, d) != map[]
                                      && Matches(clauses, Filed(Requests(clauses), rows, d))
  {
    hide Filed, Matches, Requests;
    forall d ensures d in candidates <==> Filed(Requests(clauses), rows, d) != map[] {
      assert CandidateOf(candidates, d) == Filed(Requests(clauses), rows, d);
    }
    forall d | d in candidates ensures candidates[d] == Filed(Requests(clauses), rows, d) {
      assert CandidateOf(candidates, d) == Filed(Requests(clauses), rows, d);
    }
  }

  lemma {:induction false} FiledKeys(reqs: seq<Request>, rows: seq<Postings>, d: DocId, t: Term)
    requires |rows| == |reqs|
    ensures t in Filed(reqs, rows, d) <==> exists i :: 0 <= i < |reqs| && reqs[i].name == t && d in rows[i]
    decreases |reqs|
  {
    if reqs != [] {
      var n := |reqs| - 1;
      FiledKeys(reqs[..n], rows[..n], d, t);
      assert forall i :: 0 <= i < n ==> reqs[..n][i] == reqs[i] && rows[..n][i] == rows[i];
    }
  }

  lemma {:induction false} RequestsWithoutPhrases(clauses: seq<Clause>)
    requires forall c <- clauses :: !c.Phrase?
    ensures |Requests(clauses)| == |clauses|
    ensures forall i :: 0 <= i < |clauses| ==>
              var key := clauses[i].field + ":" + clauses[i].term; Requests(clauses)[i] == Request(key, key)
    decreases |clauses|
  {
    if clauses != [] {
      var n := |clauses| - 1;
      assert clauses == clauses[..n] + [clauses[n]];
      RequestsWithoutPhrases(clauses[..n]);
      assert clauses[n] in clauses;
    }
  }

  /** A term is filed for a document exactly if a clause asks for it and the index finds the document by it. */
  lemma FiledWithoutPhrases(s: State, clauses: seq<Clause>, rows: seq<Postings>, d: DocId, t: Term)
    requires (forall c <- clauses :: !c.Phrase?) && |rows| == |Requests(clauses)| && Answers(s, Requests(clauses), rows)
    ensures t in Filed(Requests(clauses), rows, d) <==>
              Finds(s, t, d) && exists c <- clauses :: c.field + ":" + c.term == t
  {
    hide Filed, Requests, Finds;
    var reqs := Requests(clauses);
    RequestsWithoutPhrases(clauses);
    FiledKeys(reqs, rows, d, t);
    forall i | 0 <= i < |reqs| ensures d in rows[i] <==> Finds(s, reqs[i].name, d) {
      assert IsLookup(s, reqs[i].key, rows[i]);
    }
    if c :| c in clauses && c.field + ":" + c.term == t {
      var i :| 0 <= i < |clauses| && clauses[i] == c;
      assert reqs[i].name == t;
    }
    if i :| 0 <= i < |reqs| && reqs[i].name == t && d in rows[i] {
      assert clauses[i] in clauses;
    }
  }

  lemma FoundWithoutPhrases(s: State, clauses: seq<Clause>, rows: seq<Postings>, ids: set<DocId>, stored: set<DocId>)
    requires (forall c <- clauses :: !c.Phrase?) && |rows| == |Requests(clauses)| && Answers(s, Requests(clauses), rows)
    requires forall d :: d in ids <==> d in stored && Filed(Requests(clauses), rows, d) != map[]
                                       && Matches(clauses, Filed(Requests(clauses), rows, d))
    ensures forall d :: d in ids <==>
              && d in stored
              && (exists c <- clauses :: Finds(s, c.field + ":" + c.term, d))
              && (forall c <- clauses :: c.Must? ==> Finds(s, c.field + ":" + c.term, d))
              && (forall c <- clauses :: c.MustNot? ==> !Finds(s, c.field + ":" + c.term, d))
              && ((exists c <- clauses :: c.Must?) || (forall c <- clauses :: !c.Should?)
                  || exists c <- clauses :: c.Should? && Finds(s, c.field + ":" + c.term, d))
  {
    hide Filed, Requests, Finds, Matches, Answers;
    forall d ensures d in ids <==>
              && d in stored
              && (exists c <- clauses :: Finds(s, c.field + ":" + c.term, d))
              && (forall c <- clauses :: c.Must? ==> Finds(s, c.field + ":" + c.term, d))
              && (forall c <- clauses :: c.MustNot? ==> !Finds(s, c.field + ":" + c.term, d))
              && ((exists c <- clauses :: c.Must?) || (forall c <- clauses :: !c.Should?)
                  || exists c <- clauses :: c.Should? && Finds(s, c.field + ":" + c.term, d))
    {
      var doc := Filed(Requests(clauses), rows, d);
      MatchMeans(clauses, doc);
      forall t ensures t in doc <==> Finds(s, t, d) && exists c <- clauses :: c.field + ":" + c.term == t {
        FiledWithoutPhrases(s, clauses, rows, d, t);
      }
      forall c | c in clauses ensures c.field + ":" + c.term in doc <==> Finds(s, c.field + ":" + c.term, d) {
      }
      if doc != map[] {
        var t :| t in doc;
      }
    }
  }

  lemma FoundOnWhole(s: State, clauses: seq<Clause>, candidates: Candidates, rows: seq<Postings>, ids: set<DocId>,
                     stored: set<DocId>)
    requires OneVersion(s) && Answers(s, Requests(clauses), rows) && FiledAs(candidates, Requests(clauses), rows)
    requires forall d :: d in ids <==> d in stored && Filed(Requests(clauses), rows, d) != map[]
                                       && Matches(clauses, Filed(Requests(clauses), rows, d))
    ensures forall d :: d in ids <==> d in stored && CandidateFinds(clauses, WholeOf(s), d)
    ensures ColonFreeWords(clauses) && PhrasesCompatible(clauses) && Demands(clauses) ==>
              forall d :: d in ids <==> d in stored && BruteMatches(clauses, WholeOf(s), d)
  {
    hide OneVersion, Answers, FiledAs, WholeOf, Filed, Gathered, Matches, BruteMatches, Requests, ColonFreeWords,
         PhrasesCompatible, Demands;
    FiledIsGathered(s, clauses, candidates, rows);
    if ColonFreeWords(clauses) && PhrasesCompatible(clauses) && Demands(clauses) {
      forall d ensures d in ids <==> d in stored && BruteMatches(clauses, WholeOf(s), d) {
        CandidatesEqualBruteForce(clauses, WholeOf(s), d);
      }
    }
  }

  // --- Candidate search is brute force -----------------------------------------

  predicate ColonFree(t: Term) { ':' !in t }

  predicate ColonFreeWords(clauses: seq<Clause>) {
    forall c <- clauses :: c.Phrase? ==> forall w <- c.words :: ColonFree(w)
  }

  /** Phrases that share a word are on the same field. */
  predicate PhrasesCompatible(clauses: seq<Clause>) {
    forall c <- clauses, e <- clauses :: c.Phrase? && e.Phrase? && c.field != e.field ==>
      forall w <- c.words :: w !in e.words
  }

  /** Some clause demands a term or a phrase. */
  predicate Demands(clauses: seq<Clause>) {
    exists c <- clauses :: c.Must? || c.Should? || c.Phrase?
  }

  lemma KeyHasColon(field: string, term: Term)
    ensures !ColonFree(Key(field, term))
  {
    assert Key(field, term)[|field|] == ':';
  }

  /** Everything gathered under a full key is the index's own posting. */
  lemma {:induction false} GatheredKey(clauses: seq<Clause>, idx: WholeIndex, d: DocId, key: Term)
    requires ColonFreeWords(clauses) && !ColonFree(key)
    ensures key in Gathered(clauses, idx, d) <==>
            Has(idx, key, d) && exists c <- clauses :: !c.Phrase? && Key(c.field, c.term) == key
    decreases |clauses|
  {
    if clauses != [] {
      var init, last := clauses[..|clauses| - 1], clauses[|clauses| - 1];
      assert clauses == init + [last];
      GatheredKey(init, idx, d, key);
      assert last in clauses;
    }
  }

  /** Under compatible phrases, what is gathered under a bare word is the posting of its own field. */
  lemma {:induction false} GatheredWord(clauses: seq<Clause>, idx: WholeIndex, d: DocId, field: string, w: Term)
    requires ColonFree(w)
    requires forall c <- clauses :: c.Phrase? && w in c.words ==> c.field == field
    ensures w in Gathered(clauses, idx, d) <==>
            Has(idx, Key(field, w), d) && exists c <- clauses :: c.Phrase? && w in c.words
    ensures w in Gathered(clauses, idx, d) ==> Gathered(clauses, idx, d)[w] == idx[Key(field, w)][d]
    decreases |clauses|
  {
    if clauses != [] {
      var init, last := clauses[..|clauses| - 1], clauses[|clauses| - 1];
      assert clauses == init + [last];
      GatheredWord(init, idx, d, field, w);
      assert last in clauses;
      if !last.Phrase? {
        KeyHasColon(last.field, last.term);
      }
    }
  }

  lemma GatheredPhrase(clauses: seq<Clause>, idx: WholeIndex, d: DocId, c: Clause)
    requires c in clauses && c.Phrase? && ColonFreeWords(clauses) && PhrasesCompatible(clauses)
    ensures PhraseHolds(c.words, Gathered(clauses, idx, d))
            <==> PhraseHolds(c.words, PhrasePostings(idx, c.field, c.words, d))
  {
    forall w | w in c.words
      ensures PositionsIn(Gathered(clauses, idx, d), w) == PositionsIn(PhrasePostings(idx, c.field, c.words, d), w)
    {
      GatheredWord(clauses, idx, d, c.field, w);
    }
    SamePositions(c.words, Gathered(clauses, idx, d), PhrasePostings(idx, c.field, c.words, d));
  }

  /** A match on what was gathered is a match on the whole index. */
  lemma GatheredMatches(clauses: seq<Clause>, idx: WholeIndex, d: DocId)
    requires ColonFreeWords(clauses) && PhrasesCompatible(clauses)
    ensures Matches(clauses, Gathered(clauses, idx, d)) <==> BruteMatches(clauses, idx, d)
  {
    var doc := Gathered(clauses, idx, d);
    forall c | c in clauses && !c.Phrase?
      ensures Key(c.field, c.term) in doc <==> Has(idx, Key(c.field, c.term), d)
    {
      KeyHasColon(c.field, c.term);
      GatheredKey(clauses, idx, d, Key(c.field, c.term));
    }
    forall c | c in clauses && c.Phrase?
      ensures PhraseHolds(c.words, doc) <==> PhraseHolds(c.words, PhrasePostings(idx, c.field, c.words, d))
    {
      GatheredPhrase(clauses, idx, d, c);
    }
    hide Gathered, PhraseHolds, Has, Key, PhrasePostings;
  }

  /** A document that satisfies a demanding query is a candidate. */
  lemma BruteMatchesAreCandidates(clauses: seq<Clause>, idx: WholeIndex, d: DocId)
    requires ColonFreeWords(clauses) && PhrasesCompatible(clauses) && Demands(clauses)
    requires BruteMatches(clauses, idx, d)
    ensures Gathered(clauses, idx, d) != map[]
  {
    if exists c <- clauses :: (c.Must? || c.Should?) && Has(idx, Key(c.field, c.term), d) {
      var c :| c in clauses && (c.Must? || c.Should?) && Has(idx, Key(c.field, c.term), d);
      KeyHasColon(c.field, c.term);
      GatheredKey(clauses, idx, d, Key(c.field, c.term));
    } else {
      var c :| c in clauses && c.Phrase?;
      var p: nat :| StandsAt(c.words, PhrasePostings(idx, c.field, c.words, d), p);
      assert c.words[0] in c.words && p + 0 in PositionsIn(PhrasePostings(idx, c.field, c.words, d), c.words[0]);
      GatheredWord(clauses, idx, d, c.field, c.words[0]);
    }
  }

  /** Candidate-driven search returns exactly the stored documents that brute force finds. */
  lemma CandidatesEqualBruteForce(clauses: seq<Clause>, idx: WholeIndex, d: DocId)
    requires ColonFreeWords(clauses) && PhrasesCompatible(clauses) && Demands(clauses)
    ensures CandidateFinds(clauses, idx, d) <==> BruteMatches(clauses, idx, d)
  {
    GatheredMatches(clauses, idx, d);
    if BruteMatches(clauses, idx, d) {
      BruteMatchesAreCandidates(clauses, idx, d);
    }
  }

  // --- Documents as they are indexed -------------------------------------------

  /** A field and the words of its one token stream. */
  datatype FieldText = FieldText(name: string, words: seq<Term>)

  /** Differently named fields, each with words, none of which holds a colon. */
  predicate Document(doc: seq<FieldText>) {
    && doc != []
    && (forall i, j :: 0 <= i < j < |doc| ==> doc[i].name != doc[j].name)
    && (forall i :: 0 <= i < |doc| ==> doc[i].words != [] && forall w <- doc[i].words :: ColonFree(w))
  }

  /** The tokens of a stream, numbered from zero. */
  function Numbered(words: seq<Term>): (tokens: seq<Token>)
    ensures |tokens| == |words| && IsStream(tokens)
  {
    seq(|words|, i requires 0 <= i < |words| => Token(words[i], i))
  }

  function VersionOf(doc: seq<FieldText>): seq<seq<Token>> {
    seq(|doc|, i requires 0 <= i < |doc| => QualifiedAll(Some(doc[i].name), Numbered(doc[i].words)))
  }

  /** The index after the document's fields are added one after another. */
  function IndexOf(d: DocId, doc: seq<FieldText>): WholeIndex {
    AddedAll(EMPTY, d, VersionOf(doc)).buffer
  }

  function WordsOf(doc: seq<FieldText>, field: string): seq<Term> {
    if doc == [] then []
    else if doc[|doc| - 1].name == field then doc[|doc| - 1].words
    else WordsOf(doc[..|doc| - 1], field)
  }

  lemma {:induction false} NotNamed(doc: seq<FieldText>, field: string)
    requires forall i :: 0 <= i < |doc| ==> doc[i].name != field
    ensures WordsOf(doc, field) == []
    decreases |doc|
  {
    if doc != [] {
      NotNamed(doc[..|doc| - 1], field);
    }
  }

  /** A field's tokens are filed under keys of that field alone. */
  lemma {:induction false} OtherFieldPositions(g: string, tokens: seq<Token>, field: string, x: Term)
    requires g != field && ColonFree(x) && forall i :: 0 <= i < |tokens| ==> ColonFree(tokens[i].term)
    ensures PositionsOf(QualifiedAll(Some(g), tokens), Key(field, x)) == []
    decreases |tokens|
  {
    if tokens != [] {
      var init, last := tokens[..|tokens| - 1], tokens[|tokens| - 1];
      OtherFieldPositions(g, init, field, x);
      assert QualifiedAll(Some(g), tokens)[..|tokens| - 1] == QualifiedAll(Some(g), init);
      if Key(g, last.term) == Key(field, x) {
        LastColonSplits(g, last.term, field, x);
      }
    }
  }

  lemma {:induction false} FieldPositions(doc: seq<FieldText>, field: string, x: Term)
    requires ColonFree(x)
    requires forall i, j :: 0 <= i < j < |doc| ==> doc[i].name != doc[j].name
    requires forall i :: 0 <= i < |doc| ==> forall w <- doc[i].words :: ColonFree(w)
    ensures PositionsOf(Flatten(VersionOf(doc)), Key(field, x)) == PositionsOf(Numbered(WordsOf(doc, field)), x)
    decreases |doc|
  {
    hide PositionsOf, ColonFree, Key, QualifiedAll, Numbered;
    if doc == [] {
      NoPositions(Key(field, x), x);
    } else {
      var init, last := doc[..|doc| - 1], doc[|doc| - 1];
      var tokens := Numbered(last.words);
      FieldPositions(init, field, x);
      assert VersionOf(doc)[..|doc| - 1] == VersionOf(init);
      PositionsOfConcat(Flatten(VersionOf(init)), QualifiedAll(Some(last.name), tokens), Key(field, x));
      if last.name == field {
        NotNamed(init, field);
        NoPositions(Key(field, x), x);
        QualifiedPositions(field, tokens, x);
      } else {
        NumberedWords(last.words);
        OtherFieldPositions(last.name, tokens, field, x);
      }
    }
  }

  lemma NumberedWords(words: seq<Term>)
    ensures forall i :: 0 <= i < |words| ==> Numbered(words)[i].term in words
  {
  }

  lemma NoPositions(t: Term, x: Term)
    ensures PositionsOf([], t) == [] && PositionsOf(Numbered([]), x) == []
  {
  }

  /** What the index holds of a document: under each key of a field, where the word stands in the field's stream. */
  lemma IndexHolds(d: DocId, doc: seq<FieldText>, field: string, x: Term)
    requires Document(doc) && ColonFree(x)
    ensures var ws := WordsOf(doc, field);
            && (Has(IndexOf(d, doc), Key(field, x), d) <==> x in ws)
            && (x in ws ==> forall p: nat ::
                  p in IndexOf(d, doc)[Key(field, x)][d].positions <==> p < |ws| && ws[p] == x)
  {
    hide Key, ColonFree, Flatten, WordsOf, RecordAll, PositionsOf;
    var ws, all := WordsOf(doc, field), Flatten(VersionOf(doc));
    AddedAllBuffer(EMPTY, d, VersionOf(doc));
    assert IndexOf(d, doc) == RecordAll(map[], d, all);
    FreshPosting(map[], d, all, Key(field, x));
    FieldPositions(doc, field, x);
    forall p: nat ensures p in PositionsOf(Numbered(ws), x) <==> p < |ws| && ws[p] == x {
      PositionsOfMeans(Numbered(ws), x, p);
      if p < |ws| && ws[p] == x {
        assert Numbered(ws)[p] == Token(x, p);
      }
    }
    if x in ws {
      var p :| 0 <= p < |ws| && ws[p] == x;
      assert p in PositionsOf(Numbered(ws), x);
    }
    var ps := PositionsOf(Numbered(ws), x);
    if ps != [] {
      assert ps[0] in ps;
      assert ws[ps[0]] in ws;
    }
  }

  /** The query is answered like brute force for every document an engine accepts. */
  ghost predicate AlwaysExact(clauses: seq<Clause>) {
    forall d: DocId, doc: seq<FieldText> :: d != "" && Document(doc) ==>
      (BruteMatches(clauses, IndexOf(d, doc), d) <==> CandidateFinds(clauses, IndexOf(d, doc), d))
  }

  /** Evaluation on an index of one document is evaluation on its text. */
  lemma BruteMeansText(clauses: seq<Clause>, d: DocId, doc: seq<FieldText>)
    requires Document(doc) && ColonFreeWords(clauses) && forall c <- clauses :: !c.Phrase? ==> ColonFree(c.term)
    ensures BruteMatches(clauses, IndexOf(d, doc), d) <==>
            && (forall c <- clauses :: c.Must? ==> exists f <- doc :: f.name == c.field && c.term in f.words)
            && (forall c <- clauses :: c.MustNot? ==> !exists f <- doc :: f.name == c.field && c.term in f.words)
            && (forall c <- clauses :: c.Phrase? ==>
                  && c.words != []
                  && exists f <- doc ::
                       f.name == c.field && exists s :: 0 <= s <= |f.words| && c.words <= f.words[s..])
            && ((exists c <- clauses :: c.Must?) || (forall c <- clauses :: !c.Should?)
                || exists c <- clauses :: c.Should? && exists f <- doc :: f.name == c.field && c.term in f.words)
  {
    hide IndexOf, PhraseHolds, Document, ColonFree;
    var idx := IndexOf(d, doc);
    forall c | c in clauses && !c.Phrase?
      ensures Has(idx, Key(c.field, c.term), d) <==> exists f <- doc :: f.name == c.field && c.term in f.words
    {
      IndexHolds(d, doc, c.field, c.term);
      WordsOfField(doc, c.field);
    }
    forall c | c in clauses && c.Phrase?
      ensures PhraseHolds(c.words, PhrasePostings(idx, c.field, c.words, d)) <==>
              && c.words != []
              && exists f <- doc ::
                   f.name == c.field && exists s :: 0 <= s <= |f.words| && c.words <= f.words[s..]
    {
      PhraseMeansText(d, doc, c.field, c.words);
    }
  }

  lemma WordsOfField(doc: seq<FieldText>, field: string)
    requires Document(doc)
    ensures forall f <- doc :: f.name == field ==> WordsOf(doc, field) == f.words
    ensures (forall f <- doc :: f.name != field) ==> WordsOf(doc, field) == []
  {
    forall f | f in doc && f.name == field ensures WordsOf(doc, field) == f.words {
      var k :| 0 <= k < |doc| && doc[k] == f;
      WordsAt(doc, k);
    }
    if forall f <- doc :: f.name != field {
      NotNamed(doc, field);
    }
  }

  lemma PhraseMeansText(d: DocId, doc: seq<FieldText>, field: string, words: seq<Term>)
    requires Document(doc) && forall w <- words :: ColonFree(w)
    ensures PhraseHolds(words, PhrasePostings(IndexOf(d, doc), field, words, d)) <==>
            && words != []
            && exists f <- doc :: f.name == field && exists s :: 0 <= s <= |f.words| && words <= f.words[s..]
  {
    hide IndexOf, Document, ColonFree, WordsOf;
    var ws, postings := WordsOf(doc, field), PhrasePostings(IndexOf(d, doc), field, words, d);
    WordsOfField(doc, field);
    if words == [] {
      assert !PhraseHolds(words, postings);
    } else {
      hide PhraseHolds;
      forall w, p: nat | w in words ensures p in PositionsIn(postings, w) <==> IsAt(Numbered(ws), w, p) {
        IndexHolds(d, doc, field, w);
      }
      PhraseIsRun(Numbered(ws), words, postings);
      RunIsSlice(ws, words);
      if f :| f in doc && f.name == field && exists s :: 0 <= s <= |f.words| && words <= f.words[s..] {
        assert ws == f.words;
      }
    }
  }

  lemma RunIsSlice(ws: seq<Term>, words: seq<Term>)
    requires words != []
    ensures RunOccurs(Numbered(ws), words) <==> exists s :: 0 <= s <= |ws| && words <= ws[s..]
  {
    if RunOccurs(Numbered(ws), words) {
      var s :| 0 <= s <= |ws| - |words| && RunAt(Numbered(ws), words, s);
      assert forall i :: 0 <= i < |words| ==> ws[s..][i] == Numbered(ws)[s + i].term;
      assert words == ws[s..][..|words|];
    }
    if s :| 0 <= s <= |ws| && words <= ws[s..] {
      forall i | 0 <= i < |words| ensures Numbered(ws)[s + i].term == words[i] {
        assert words[i] == ws[s..][i];
      }
      assert RunAt(Numbered(ws), words, s);
    }
  }

  // --- Where candidates are not brute force ------------------------------------

  /** All phrases one after another. */
  function AllWords(clauses: seq<Clause>): seq<Term> {
    if clauses == [] then []
    else
      var last := clauses[|clauses| - 1];
      AllWords(clauses[..|clauses| - 1]) + (if last.Phrase? then last.words else [])
  }

  lemma {:induction false} AllWordsHas(clauses: seq<Clause>, c: Clause) returns (o: nat)
    requires c in clauses && c.Phrase?
    ensures o + |c.words| <= |AllWords(clauses)|
    ensures forall i :: 0 <= i < |c.words| ==> AllWords(clauses)[o + i] == c.words[i]
    decreases |clauses|
  {
    var init, last := clauses[..|clauses| - 1], clauses[|clauses| - 1];
    if c == last {
      o := |AllWords(init)|;
    } else {
      assert clauses == init + [last];
      o := AllWordsHas(init, c);
    }
  }

  lemma {:induction false} AllWordsColonFree(clauses: seq<Clause>)
    requires ColonFreeWords(clauses)
    ensures forall w <- AllWords(clauses) :: ColonFree(w)
    decreases |clauses|
  {
    if clauses != [] {
      assert clauses[|clauses| - 1] in clauses;
      AllWordsColonFree(clauses[..|clauses| - 1]);
    }
  }

  /** A word that is not `w`. */
  function Filler(w: Term): Term { w + "x" }

  function Replaced(words: seq<Term>, w: Term): seq<Term> {
    seq(|words|, i requires 0 <= i < |words| => if words[i] == w then Filler(w) else words[i])
  }

  /** The text of a field: all phrases, with `w` replaced in the one field `g`. */
  function TextOf(clauses: seq<Clause>, g: string, w: Term, field: string): seq<Term> {
    if field == g then Replaced(AllWords(clauses), w) else AllWords(clauses)
  }

  function FieldNames(clauses: seq<Clause>): seq<string> {
    if clauses == [] then []
    else
      var names := FieldNames(clauses[..|clauses| - 1]);
      if clauses[|clauses| - 1].field in names then names else names + [clauses[|clauses| - 1].field]
  }

  lemma {:induction false} FieldNamesList(clauses: seq<Clause>)
    ensures forall c <- clauses :: c.field in FieldNames(clauses)
    ensures forall i, j :: 0 <= i < j < |FieldNames(clauses)| ==> FieldNames(clauses)[i] != FieldNames(clauses)[j]
    decreases |clauses|
  {
    if clauses != [] {
      FieldNamesList(clauses[..|clauses| - 1]);
      assert clauses == clauses[..|clauses| - 1] + [clauses[|clauses| - 1]];
    }
  }

  /** One document with every field of the query, all of them with the same text but for `w` in field `g`. */
  function Witness(clauses: seq<Clause>, g: string, w: Term): seq<FieldText> {
    seq(|FieldNames(clauses)|, i requires 0 <= i < |FieldNames(clauses)| =>
      FieldText(FieldNames(clauses)[i], TextOf(clauses, g, w, FieldNames(clauses)[i])))
  }

  lemma {:induction false} WordsAt(doc: seq<FieldText>, k: nat)
    requires forall i, j :: 0 <= i < j < |doc| ==> doc[i].name != doc[j].name
    requires k < |doc|
    ensures WordsOf(doc, doc[k].name) == doc[k].words
    decreases |doc|
  {
    if k < |doc| - 1 {
      WordsAt(doc[..|doc| - 1], k);
    }
  }

  lemma WitnessIsDocument(clauses: seq<Clause>, c: Clause, w: Term)
    requires ColonFreeWords(clauses) && c in clauses && c.Phrase? && w in c.words
    ensures Document(Witness(clauses, c.field, w))
    ensures forall b <- clauses ::
            WordsOf(Witness(clauses, c.field, w), b.field) == TextOf(clauses, c.field, w, b.field)
  {
    hide FieldNames, AllWords, WordsOf;
    var doc := Witness(clauses, c.field, w);
    FieldNamesList(clauses);
    AllWordsColonFree(clauses);
    var o := AllWordsHas(clauses, c);
    assert AllWords(clauses) != [];
    forall b | b in clauses ensures WordsOf(doc, b.field) == TextOf(clauses, c.field, w, b.field) {
      var k :| 0 <= k < |FieldNames(clauses)| && FieldNames(clauses)[k] == b.field;
      WordsAt(doc, k);
    }
    TextIsColonFree(AllWords(clauses), w);
    assert |Replaced(AllWords(clauses), w)| == |AllWords(clauses)|;
    hide ColonFree, Replaced;
    forall i | 0 <= i < |doc| ensures doc[i].words != [] && forall x <- doc[i].words :: ColonFree(x) {
      assert doc[i].words == TextOf(clauses, c.field, w, doc[i].name);
    }
  }

  lemma TextIsColonFree(words: seq<Term>, w: Term)
    requires forall x <- words :: ColonFree(x)
    ensures forall x <- Replaced(words, w) :: ColonFree(x)
  {
    forall x | x in Replaced(words, w) ensures ColonFree(x) {
      var i :| 0 <= i < |words| && Replaced(words, w)[i] == x;
      assert ColonFree(words[i]);
    }
  }

  lemma WithoutWord(words: seq<Term>, w: Term)
    ensures |Replaced(words, w)| == |words| && w !in Replaced(words, w)
    ensures forall p :: 0 <= p < |words| && words[p] != w ==> Replaced(words, w)[p] == words[p]
  {
    assert |Filler(w)| == |w| + 1;
  }

  /** A posting at least wherever the word stands in the text. */
  predicate Covering(p: Posting, words: seq<Term>, x: Term) {
    forall i :: 0 <= i < |words| && words[i] == x ==> i in p.positions
  }

  /**
   * What the witness files for a word of a phrase: every place of the word in the whole text, except
   * for `w` in its field.
   */
  lemma WitnessPosting(clauses: seq<Clause>, c: Clause, w: Term, d: DocId, b: Clause, x: Term)
    requires ColonFreeWords(clauses) && c in clauses && c.Phrase? && w in c.words
    requires b in clauses && b.Phrase? && x in b.words
    ensures var idx := IndexOf(d, Witness(clauses, c.field, w));
            && (Has(idx, Key(b.field, x), d) <==> !(b.field == c.field && x == w))
            && (Has(idx, Key(b.field, x), d) ==> Covering(idx[Key(b.field, x)][d], AllWords(clauses), x))
  {
    hide IndexOf, FieldNames, Document, WordsOf, Key, AllWords;
    WitnessIsDocument(clauses, c, w);
    assert ColonFree(x);
    IndexHolds(d, Witness(clauses, c.field, w), b.field, x);
    var o := AllWordsHas(clauses, b);
    var i :| 0 <= i < |b.words| && b.words[i] == x;
    assert AllWords(clauses)[o + i] == x;
    var text := TextOf(clauses, c.field, w, b.field);
    WithoutWord(AllWords(clauses), w);
    assert b.field != c.field || x != w ==>
        text[o + i] == x && forall p :: 0 <= p < |text| && AllWords(clauses)[p] == x ==> text[p] == x;
  }

  lemma {:induction false} WitnessGathered(clauses: seq<Clause>, part: seq<Clause>, c: Clause, w: Term, d: DocId,
                                           x: Term)
    requires ColonFreeWords(clauses) && c in clauses && c.Phrase? && w in c.words
    requires (forall b <- clauses :: b.Phrase?) && part <= clauses
    ensures var g := Gathered(part, IndexOf(d, Witness(clauses, c.field, w)), d);
            && (x in g ==> Covering(g[x], AllWords(clauses), x))
            && ((exists b <- part :: x in b.words && !(b.field == c.field && x == w)) ==> x in g)
    decreases |part|
  {
    hide IndexOf, Witness, Covering, AllWords, Key, Has;
    if part != [] {
      var init, last := part[..|part| - 1], part[|part| - 1];
      assert part == init + [last] && last in clauses;
      WitnessGathered(clauses, init, c, w, d, x);
      if x in last.words {
        WitnessPosting(clauses, c, w, d, last, x);
      }
    }
  }

  lemma CoveredPhrase(clauses: seq<Clause>, b: Clause, doc: DocPostings)
    requires b in clauses && b.Phrase? && b.words != []
    requires forall x <- b.words :: x in doc && Covering(doc[x], AllWords(clauses), x)
    ensures PhraseHolds(b.words, doc)
  {
    var o := AllWordsHas(clauses, b);
    forall i | 0 <= i < |b.words| ensures o + i in PositionsIn(doc, b.words[i]) {
      assert b.words[i] in b.words;
    }
    assert StandsAt(b.words, doc, o);
  }

  lemma MissingWord(words: seq<Term>, doc: DocPostings, w: Term)
    requires w in words && w !in doc
    ensures !PhraseHolds(words, doc)
  {
    var i :| 0 <= i < |words| && words[i] == w;
    forall p: nat ensures !StandsAt(words, doc, p) {
      assert PositionsIn(doc, words[i]) == [];
    }
  }

  lemma PhrasesMatch(clauses: seq<Clause>, doc: DocPostings)
    requires forall b <- clauses :: b.Phrase? && PhraseHolds(b.words, doc)
    ensures Matches(clauses, doc)
  {
  }

  lemma OwnPhraseFails(clauses: seq<Clause>, c: Clause, idx: WholeIndex, w: Term, d: DocId)
    requires c in clauses && c.Phrase? && w in c.words && !Has(idx, Key(c.field, w), d)
    ensures !BruteMatches(clauses, idx, d)
  {
    MissingWord(c.words, PhrasePostings(idx, c.field, c.words, d), w);
  }

  /**
   * For any two phrases that share a word across fields, a document that candidate search finds and
   * brute force does not.
   */
  lemma SharedWordFoolsCandidates(clauses: seq<Clause>, c: Clause, e: Clause, w: Term, d: DocId)
    requires ColonFreeWords(clauses) && forall b <- clauses :: b.Phrase? && b.words != []
    requires c in clauses && e in clauses && c.field != e.field && w in c.words && w in e.words
    ensures var doc := Witness(clauses, c.field, w);
            Document(doc) && CandidateFinds(clauses, IndexOf(d, doc), d) && !BruteMatches(clauses, IndexOf(d, doc), d)
  {
    hide Gathered, Matches, BruteMatches, IndexOf, Witness, WordsOf, Covering, AllWords, PhraseHolds, Key;
    WitnessIsDocument(clauses, c, w);
    var idx := IndexOf(d, Witness(clauses, c.field, w));
    var doc := Gathered(clauses, idx, d);
    forall b, x | b in clauses && x in b.words ensures x in doc && Covering(doc[x], AllWords(clauses), x) {
      WitnessGathered(clauses, clauses, c, w, d, x);
      if x == w {
        assert w in e.words && !(e.field == c.field && x == w);
      }
    }
    assert w in doc;
    forall b | b in clauses ensures PhraseHolds(b.words, doc) {
      CoveredPhrase(clauses, b, doc);
    }
    PhrasesMatch(clauses, doc);
    WitnessPosting(clauses, c, w, d, c, w);
    OwnPhraseFails(clauses, c, idx, w, d);
  }

  lemma EmptyPhraseFails(clauses: seq<Clause>, c: Clause, idx: WholeIndex, d: DocId)
    requires c in clauses && c.Phrase? && c.words == []
    ensures !BruteMatches(clauses, idx, d) && !CandidateFinds(clauses, idx, d)
  {
    hide Gathered;
  }

  /**
   * A query of phrases alone is answered like brute force exactly when there is a phrase, and no
   * two phrases on different fields share a word or one of them is empty and never matches.
   */
  lemma PhraseQueryExactIff(clauses: seq<Clause>)
    requires ColonFreeWords(clauses) && forall c <- clauses :: c.Phrase?
    ensures AlwaysExact(clauses)
            <==> clauses != [] && (PhrasesCompatible(clauses) || exists c <- clauses :: c.words == [])
  {
    hide BruteMatches, CandidateFinds, IndexOf, Document, Witness;
    if clauses == [] {
      NothingDemanded(clauses);
    } else if c :| c in clauses && c.words == [] {
      forall d: DocId, doc: seq<FieldText>
        ensures BruteMatches(clauses, IndexOf(d, doc), d) <==> CandidateFinds(clauses, IndexOf(d, doc), d)
      {
        EmptyPhraseFails(clauses, c, IndexOf(d, doc), d);
      }
    } else if PhrasesCompatible(clauses) {
      assert clauses[0] in clauses;
      CompatibleAreExact(clauses);
    } else {
      var c, e :| c in clauses && e in clauses && c.field != e.field && exists w <- c.words :: w in e.words;
      var w :| w in c.words && w in e.words;
      SharedWordFoolsCandidates(clauses, c, e, w, "d");
    }
  }

  lemma CompatibleAreExact(clauses: seq<Clause>)
    requires ColonFreeWords(clauses) && PhrasesCompatible(clauses) && Demands(clauses)
    ensures AlwaysExact(clauses)
  {
    hide BruteMatches, CandidateFinds, IndexOf, Document;
    forall d: DocId, doc: seq<FieldText>
      ensures BruteMatches(clauses, IndexOf(d, doc), d) <==> CandidateFinds(clauses, IndexOf(d, doc), d)
    {
      CandidatesEqualBruteForce(clauses, IndexOf(d, doc), d);
    }
  }

  // --- Queries that demand nothing ---------------------------------------------

  /** Longer than every key of the query. */
  function Longer(clauses: seq<Clause>): (n: nat)
    ensures n > 0 && forall c <- clauses :: !c.Phrase? ==> |Key(c.field, c.term)| < n
  {
    if clauses == [] then 1
    else
      var init, last := clauses[..|clauses| - 1], clauses[|clauses| - 1];
      assert clauses == init + [last];
      Longer(init) + (if last.Phrase? then 0 else |Key(last.field, last.term)|)
  }

  /** A document of one word that the query does not mention. */
  function Unmentioned(clauses: seq<Clause>): seq<FieldText> {
    [FieldText("body", [seq(Longer(clauses), _ => 'a')])]
  }

  lemma {:induction false} NothingGathered(clauses: seq<Clause>, idx: WholeIndex, d: DocId)
    requires forall c <- clauses :: !c.Phrase? && !Has(idx, Key(c.field, c.term), d)
    ensures Gathered(clauses, idx, d) == map[]
    decreases |clauses|
  {
    if clauses != [] {
      assert clauses[|clauses| - 1] in clauses;
      NothingGathered(clauses[..|clauses| - 1], idx, d);
    }
  }

  lemma OneWordIndex(d: DocId, w: Term, t: Term)
    ensures Has(IndexOf(d, [FieldText("body", [w])]), t, d) ==> t == Key("body", w)
  {
    var doc := [FieldText("body", [w])];
    var version := VersionOf(doc);
    AddedAllBuffer(EMPTY, d, version);
    assert version[..0] == [];
    var tokens := QualifiedAll(Some("body"), Numbered([w]));
    assert Flatten(version) == Flatten([]) + tokens == tokens;
    RecordAllHas(map[], d, tokens, t, d);
  }

  /** A query that demands nothing is satisfied by a document it does not mention, which is no candidate. */
  lemma NothingDemanded(clauses: seq<Clause>)
    requires !Demands(clauses)
    ensures !AlwaysExact(clauses)
  {
    hide Gathered, IndexOf;
    var d, doc := "d", Unmentioned(clauses);
    var w := doc[0].words[0];
    var idx := IndexOf(d, doc);
    forall c | c in clauses ensures !c.Phrase? && !Has(idx, Key(c.field, c.term), d) {
      OneWordIndex(d, w, Key(c.field, c.term));
      assert |Key("body", w)| > |Key(c.field, c.term)|;
    }
    NothingGathered(clauses, idx, d);
    assert Document(doc) && BruteMatches(clauses, idx, d) && !CandidateFinds(clauses, idx, d);
  }

  /**
   * With compatible phrases, candidate search answers like brute force exactly the queries that
   * demand a term or a phrase.
   */
  lemma CandidateSearchExactIff(clauses: seq<Clause>)
    requires ColonFreeWords(clauses) && PhrasesCompatible(clauses)
    ensures AlwaysExact(clauses) <==> Demands(clauses)
  {
    hide AlwaysExact;
    if Demands(clauses) {
      CompatibleAreExact(clauses);
    } else {
      NothingDemanded(clauses);
    }
  }

  /** Whatever is gathered stands under a key or a word of some clause. */
  lemma {:induction false} GatheredFrom(clauses: seq<Clause>, idx: WholeIndex, d: DocId, x: Term)
    requires (forall c <- clauses :: c.MustNot?) && x in Gathered(clauses, idx, d)
    ensures exists c <- clauses :: Key(c.field, c.term) == x
    decreases |clauses|
  {
    var init, last := clauses[..|clauses| - 1], clauses[|clauses| - 1];
    assert last in clauses;
    if x in Gathered(init, idx, d) {
      GatheredFrom(init, idx, d, x);
    }
  }

  /** A query that only excludes finds nothing in any index. */
  lemma OnlyExcludingFindsNothing(clauses: seq<Clause>, idx: WholeIndex, d: DocId)
    requires forall c <- clauses :: c.MustNot?
    ensures !CandidateFinds(clauses, idx, d)
  {
    if Gathered(clauses, idx, d) != map[] {
      var x :| x in Gathered(clauses, idx, d);
      GatheredFrom(clauses, idx, d, x);
    }
  }
}
