/**
 * The segmented inverted index of index/index.go and index/segment.go: a write
 * buffer, immutable segments, tombstones, and the three phases of a merge.
 */
module InvertedIndex {
  import opened Wrappers
  import T = Trie

  type DocId = string
  type Term = string

  datatype Token = Token(term: Term, position: nat)

  datatype Posting = Posting(docId: DocId, frequency: nat, positions: seq<nat>)

  type Postings = map<DocId, Posting>
  type Buffer = map<Term, Postings>

  datatype Segment = Segment(postings: Buffer, docs: set<DocId>)

  /** The fields of the index that decide what a search sees. */
  datatype State = State(buffer: Buffer, bufferDocs: set<DocId>, segments: seq<Segment>, tombstones: set<DocId>)

  const EMPTY := State(map[], {}, [], {})

  predicate Has(b: Buffer, t: Term, d: DocId) {
    t in b && d in b[t]
  }

  predicate InSegments(segments: seq<Segment>, t: Term, d: DocId) {
    exists i :: 0 <= i < |segments| && Has(segments[i].postings, t, d)
  }

  predicate HasPosting(s: State, t: Term, d: DocId) {
    Has(s.buffer, t, d) || InSegments(s.segments, t, d)
  }

  /** `t` is among the terms the index lists. */
  predicate IsTerm(s: State, t: Term) {
    t in s.buffer || exists i :: 0 <= i < |s.segments| && t in s.segments[i].postings
  }

  /** A search for `t` finds document `d`. */
  predicate Finds(s: State, t: Term, d: DocId) {
    d !in s.tombstones && (Has(s.buffer, t, d) || InSegments(s.segments, t, d))
  }

  // --- Indexing ----------------------------------------------------------------

  function PostingOf(b: Buffer, t: Term, d: DocId): Posting {
    if Has(b, t, d) then b[t][d] else Posting(d, 0, [])
  }

  function PostingsOf(b: Buffer, t: Term): Postings {
    if t in b then b[t] else map[]
  }

  function Record(b: Buffer, d: DocId, token: Token): Buffer {
    var p := PostingOf(b, token.term, d);
    b[token.term := PostingsOf(b, token.term)[d := Posting(p.docId, p.frequency + 1, p.positions + [token.position])]]
  }

  function RecordAll(b: Buffer, d: DocId, tokens: seq<Token>): Buffer {
    if tokens == [] then b else Record(RecordAll(b, d, tokens[..|tokens| - 1]), d, tokens[|tokens| - 1])
  }

  /** The buffer without `d`, and without the terms this leaves empty. */
  function Without(b: Buffer, d: DocId): Buffer {
    map t | t in b && b[t] - {d} != map[] :: b[t] - {d}
  }

  function Cleared(s: State, d: DocId): State {
    s.(tombstones := s.tombstones - {d},
       buffer := if d in s.tombstones && d in s.bufferDocs then Without(s.buffer, d) else s.buffer)
  }

  function Added(s: State, d: DocId, tokens: seq<Token>): State {
    var c := Cleared(s, d);
    c.(buffer := RecordAll(c.buffer, d, tokens), bufferDocs := c.bufferDocs + {d})
  }

  function Deleted(s: State, d: DocId): State {
    s.(tombstones := s.tombstones + {d})
  }

  function Flushed(s: State): State {
    State(map[], {}, s.segments + [Segment(s.buffer, s.bufferDocs)], s.tombstones)
  }

  /** Indexed terms carry the field they came from. */
  function Qualified(field: Option<string>, token: Token): Token {
    if field.Some? then Token(field.value + ":" + token.term, token.position) else token
  }

  function QualifiedAll(field: Option<string>, tokens: seq<Token>): (q: seq<Token>)
    ensures |q| == |tokens| && forall i :: 0 <= i < |q| ==> q[i] == Qualified(field, tokens[i])
  {
    seq(|tokens|, i requires 0 <= i < |tokens| => Qualified(field, tokens[i]))
  }

  // --- Merging -----------------------------------------------------------------

  /** What phase one of a merge remembers. */
  datatype Snapshot = Snapshot(segments: seq<Segment>, tombstones: set<DocId>)

  /** One segment laid over what is merged so far: a term keeps its entry even if all its documents are gone. */
  function Overlay(merged: Buffer, b: Buffer, dead: set<DocId>): Buffer {
    map t | t in merged.Keys + b.Keys :: PostingsOf(merged, t) + (PostingsOf(b, t) - dead)
  }

  function MergedPostings(segments: seq<Segment>, dead: set<DocId>): Buffer {
    if segments == [] then map[]
    else Overlay(MergedPostings(segments[..|segments| - 1], dead), segments[|segments| - 1].postings, dead)
  }

  function MergedDocs(b: Buffer): set<DocId> {
    set t, d | t in b && d in b[t] :: d
  }

  function Merged(snap: Snapshot): Segment {
    var b := MergedPostings(snap.segments, snap.tombstones);
    Segment(b, MergedDocs(b))
  }

  function Swapped(s: State, snap: Snapshot): State
    requires |snap.segments| <= |s.segments|
  {
    s.(segments := [Merged(snap)] + s.segments[|snap.segments|..],
       tombstones := s.tombstones - snap.tombstones)
  }

  function SnapshotOf(s: State): Snapshot {
    Snapshot(s.segments, s.tombstones)
  }

  // --- What every reachable index keeps ----------------------------------------

  predicate WellFormedPosting(p: Posting, d: DocId) {
    p.docId == d && p.frequency == |p.positions| && 0 < p.frequency
  }

  predicate WellKeyed(b: Buffer) {
    forall t <- b, d <- b[t] :: WellFormedPosting(b[t][d], d)
  }

  predicate NoEmptyTerm(b: Buffer) {
    forall t <- b :: b[t] != map[]
  }

  predicate DocsCover(b: Buffer, docs: set<DocId>) {
    forall t <- b, d <- b[t] :: d in docs
  }

  predicate WellFormed(s: State) {
    && WellKeyed(s.buffer) && NoEmptyTerm(s.buffer) && DocsCover(s.buffer, s.bufferDocs)
    && forall i :: 0 <= i < |s.segments| ==>
         WellKeyed(s.segments[i].postings) && DocsCover(s.segments[i].postings, s.segments[i].docs)
  }

  /** The prefix tree holds every term of the buffer and of the segments. */
  ghost predicate KnowsTerms(s: State, terms: set<Term>) {
    && s.buffer.Keys <= terms
    && forall i :: 0 <= i < |s.segments| ==> s.segments[i].postings.Keys <= terms
  }

  function TermsOf(tokens: seq<Token>): set<Term> {
    set i | 0 <= i < |tokens| :: tokens[i].term
  }

  // --- Lookup ------------------------------------------------------------------

  /**
   * Segments are searched in any order and overwrite the buffer's posting, so a
   * document found twice may come with any segment's posting for it.
   */
  ghost predicate IsLookup(s: State, t: Term, found: Postings) {
    && (forall d :: d in found <==> Finds(s, t, d))
    && (forall d <- found ::
          if InSegments(s.segments, t, d)
          then exists i :: 0 <= i < |s.segments| && Has(s.segments[i].postings, t, d)
                           && found[d] == s.segments[i].postings[t][d]
          else found[d] == s.buffer[t][d])
  }

  /** A map's values in whatever order it iterates. */
  method Values(m: Postings) returns (list: seq<Posting>)
    ensures forall d <- m :: m[d] in list
    ensures forall p <- list :: exists d :: d in m && p == m[d]
  {
    list := [];
    var todo := m.Keys;
    while todo != {}
      invariant todo <= m.Keys
      invariant forall d <- m :: d in todo || m[d] in list
      invariant forall p <- list :: exists d :: d in m && p == m[d]
    {
      var d :| d in todo;
      todo := todo - {d};
      list := list + [m[d]];
    }
  }

  /** The buffer update for one token. */
  method RecordToken(b: Buffer, docId: DocId, token: Token) returns (r: Buffer)
    ensures r == Record(b, docId, token)
  {
    r := b;
    if token.term !in r {
      r := r[token.term := map[]];
    }
    var posting := if docId in r[token.term] then r[token.term][docId] else Posting(docId, 0, []);
    posting := posting.(frequency := posting.frequency + 1);
    posting := posting.(positions := posting.positions + [token.position]);
    r := r[token.term := r[token.term][docId := posting]];
  }

  /** The buffer with `d` removed from every term outside `todo`. */
  ghost function PartlyWithout(b: Buffer, d: DocId, todo: set<Term>): Buffer {
    map t | t in b && (t in todo || b[t] - {d} != map[]) :: if t in todo then b[t] else b[t] - {d}
  }

  lemma PartlyWithoutStep(b: Buffer, d: DocId, todo: set<Term>, t: Term)
    requires t in b && t in todo
    ensures t in PartlyWithout(b, d, todo) && PartlyWithout(b, d, todo)[t] == b[t]
    ensures PartlyWithout(b, d, todo - {t})
            == if b[t] - {d} == map[] then PartlyWithout(b, d, todo) - {t}
               else PartlyWithout(b, d, todo)[t := b[t] - {d}]
  {
  }

  method RemoveDocument(b: Buffer, d: DocId) returns (r: Buffer)
    ensures r == Without(b, d)
  {
    r := b;
    var todo := r.Keys;
    assert r == PartlyWithout(b, d, todo);
    while todo != {}
      invariant todo <= b.Keys
      invariant r == PartlyWithout(b, d, todo)
    {
      var t :| t in todo;
      PartlyWithoutStep(b, d, todo, t);
      todo := todo - {t};
      var docPostings := r[t] - {d};
      if |docPostings| == 0 {
        r := r - {t};
      } else {
        r := r[t := docPostings];
      }
    }
    assert PartlyWithout(b, d, {}) == Without(b, d);
  }

  // --- The index as the program keeps it ---------------------------------------

  class Index {
    var buffer: Buffer
    var bufferDocs: set<DocId>
    var segments: seq<Segment>
    var tombstones: set<DocId>
    var tokenCount: nat
    const trie: T.Trie
    const flushSize: nat
    const maxTokens: nat

    ghost function Now(): State
      reads this
    {
      State(buffer, bufferDocs, segments, tombstones)
    }

    ghost predicate Valid()
      reads this, trie, trie.at.Values
    {
      WellFormed(Now()) && trie.Valid() && KnowsTerms(Now(), trie.terms)
    }

    constructor (flushSize: nat, maxTokens: nat)
      ensures Valid() && Now() == EMPTY && tokenCount == 0 && trie.terms == {}
      ensures fresh(trie) && fresh(trie.at.Values)
      ensures this.flushSize == flushSize && this.maxTokens == maxTokens
    {
      buffer, bufferDocs, segments, tombstones, tokenCount := map[], {}, [], {}, 0;
      trie := new T.Trie();
      this.flushSize, this.maxTokens := flushSize, maxTokens;
    }

    method ClearTombstone(docId: DocId)
      modifies this`tombstones, this`buffer
      ensures Now() == Cleared(old(Now()), docId)
      ensures tombstones == old(tombstones) - {docId} && segments == old(segments) && bufferDocs == old(bufferDocs)
      ensures forall t, d :: Has(buffer, t, d) <==>
                Has(old(buffer), t, d) && !(d == docId && docId in old(tombstones) && docId in old(bufferDocs))
      ensures forall t, d :: Has(buffer, t, d) ==> buffer[t][d] == old(buffer)[t][d]
      ensures forall t <- buffer :: t in old(buffer) && (buffer[t] != map[] || old(buffer)[t] == map[])
    {
      forall t, d { WithoutHas(buffer, docId, t, d); }
      var wasTombstoned := docId in tombstones;
      tombstones := tombstones - {docId};
      if wasTombstoned && docId in bufferDocs {
        buffer := RemoveDocument(buffer, docId);
      }
    }

    method Flush()
      requires Valid()
      modifies this
      ensures Valid() && Now() == Flushed(old(Now())) && tokenCount == old(tokenCount)
      ensures segments == old(segments) + [Segment(old(buffer), old(bufferDocs))] && tombstones == old(tombstones)
      ensures buffer == map[] && bufferDocs == {}
    {
      hide T.Trie.Valid;
      FlushedIsWellFormed(Now());
      FlushedKnowsTerms(Now(), trie.terms);
      hide WellFormed, KnowsTerms;
      var seg := Segment(buffer, bufferDocs);
      segments := segments + [seg];
      buffer := map[];
      bufferDocs := {};
    }

    method Add(docId: DocId, tokens: seq<Token>, fieldName: Option<string>)
      requires Valid()
      modifies this, trie, trie.at.Values
      ensures Valid() && fresh(trie.at.Values - old(trie.at.Values))
      ensures trie.terms == old(trie.terms) + TermsOf(QualifiedAll(fieldName, tokens))
      ensures var s := Added(old(Now()), docId, QualifiedAll(fieldName, tokens));
              if (0 < maxTokens <= old(tokenCount) + |tokens|) || (0 < flushSize <= |old(bufferDocs) + {docId}|)
              then Now() == Flushed(s) && tokenCount == 0
              else Now() == s && tokenCount == old(tokenCount) + |tokens|
      ensures forall w <- tokens ::
                Finds(Now(), if fieldName.Some? then fieldName.value + ":" + w.term else w.term, docId)
      ensures forall t, e :: e != docId ==> (Finds(Now(), t, e) <==> Finds(old(Now()), t, e))
    {
      hide WellFormed, KnowsTerms, TermsOf, T.Trie.Valid;
      ghost var s, all := Now(), QualifiedAll(fieldName, tokens);
      AddedTokens(s, docId, all);
      AddedDocs(s, docId, all);
      hide Added, Finds;
      RecordTokens(docId, tokens, fieldName);
      FlushIfDue();
      forall w <- tokens
        ensures Finds(Now(), if fieldName.Some? then fieldName.value + ":" + w.term else w.term, docId)
      {
        var i :| 0 <= i < |tokens| && tokens[i] == w;
        assert all[i] == Qualified(fieldName, w);
      }
    }

    /** A keyword, number or flag is one term at position zero. */
    method AddRaw(docId: DocId, fieldName: string, fieldValue: string)
      requires Valid()
      modifies this, trie, trie.at.Values
      ensures Valid() && fresh(trie.at.Values - old(trie.at.Values))
      ensures trie.terms == old(trie.terms) + {fieldName + ":" + fieldValue}
      ensures var s := Added(old(Now()), docId, [Token(fieldName + ":" + fieldValue, 0)]);
              if (0 < maxTokens <= old(tokenCount) + 1) || (0 < flushSize <= |old(bufferDocs) + {docId}|)
              then Now() == Flushed(s) && tokenCount == 0
              else Now() == s && tokenCount == old(tokenCount) + 1
      ensures Finds(Now(), fieldName + ":" + fieldValue, docId)
      ensures forall t, e :: e != docId ==> (Finds(Now(), t, e) <==> Finds(old(Now()), t, e))
    {
      hide WellFormed, KnowsTerms, TermsOf, T.Trie.Valid;
      ghost var s := Now();
      var token := Token(fieldName + ":" + fieldValue, 0);
      AddedTokens(s, docId, [token]);
      AddedDocs(s, docId, [token]);
      hide Added, Finds;
      RecordRaw(docId, token);
      FlushIfDue();
      assert [token][0].term == fieldName + ":" + fieldValue;
    }

    /** All of an add but the flush. */
    method RecordTokens(docId: DocId, tokens: seq<Token>, fieldName: Option<string>)
      requires Valid()
      modifies this, trie, trie.at.Values
      ensures Valid() && fresh(trie.at.Values - old(trie.at.Values))
      ensures trie.terms == old(trie.terms) + TermsOf(QualifiedAll(fieldName, tokens))
      ensures Now() == Added(old(Now()), docId, QualifiedAll(fieldName, tokens))
      ensures tokenCount == old(tokenCount) + |tokens|
    {
      hide WellFormed, Record, RecordAll, KnowsTerms, TermsOf, Without, T.Trie.Valid;
      ghost var all := QualifiedAll(fieldName, tokens);
      AddedIsWellFormed(Now(), docId, all);
      AddedKnowsTerms(Now(), docId, all, trie.terms);
      ClearTombstone(docId);
      IndexTokens(docId, tokens, fieldName);
      bufferDocs := bufferDocs + {docId};
    }

    method RecordRaw(docId: DocId, token: Token)
      requires Valid()
      modifies this, trie, trie.at.Values
      ensures Valid() && fresh(trie.at.Values - old(trie.at.Values))
      ensures trie.terms == old(trie.terms) + {token.term}
      ensures Now() == Added(old(Now()), docId, [token]) && tokenCount == old(tokenCount) + 1
    {
      hide WellFormed, Record, RecordAll, KnowsTerms, TermsOf, Without, T.Trie.Valid;
      ghost var all := [token];
      AddedIsWellFormed(Now(), docId, all);
      RecordAllOne(Cleared(Now(), docId).buffer, docId, token);
      AddedKnowsTerms(Now(), docId, all, trie.terms);
      ClearTombstone(docId);
      IndexToken(docId, token);
      bufferDocs := bufferDocs + {docId};
    }

    method IndexTokens(docId: DocId, tokens: seq<Token>, fieldName: Option<string>)
      requires trie.Valid()
      modifies this`buffer, this`tokenCount, trie, trie.at.Values
      ensures trie.Valid() && fresh(trie.at.Values - old(trie.at.Values))
      ensures trie.terms == old(trie.terms) + TermsOf(QualifiedAll(fieldName, tokens))
      ensures buffer == RecordAll(old(buffer), docId, QualifiedAll(fieldName, tokens))
      ensures tokenCount == old(tokenCount) + |tokens|
    {
      hide Record, TermsOf, T.Trie.Valid;
      ghost var all := QualifiedAll(fieldName, tokens);
      NoTerms();
      assert all[..0] == [];
      for i := 0 to |tokens|
        invariant trie.Valid() && fresh(trie.at.Values - old(trie.at.Values))
        invariant trie.terms == old(trie.terms) + TermsOf(all[..i])
        invariant buffer == RecordAll(old(buffer), docId, all[..i])
        invariant tokenCount == old(tokenCount) + i
      {
        assert all[..i + 1][..i] == all[..i] && all[..i + 1][i] == Qualified(fieldName, tokens[i]);
        TermsOfMore(all, i);
        IndexToken(docId, Qualified(fieldName, tokens[i]));
      }
      assert all[..|tokens|] == all;
    }

    method IndexToken(docId: DocId, token: Token)
      requires trie.Valid()
      modifies this`buffer, this`tokenCount, trie, trie.at.Values
      ensures trie.Valid() && fresh(trie.at.Values - old(trie.at.Values))
      ensures trie.terms == old(trie.terms) + {token.term}
      ensures buffer == Record(old(buffer), docId, token) && tokenCount == old(tokenCount) + 1
    {
      hide T.Trie.Valid, Record;
      trie.Insert(token.term);
      buffer := RecordToken(buffer, docId, token);
      tokenCount := tokenCount + 1;
    }

    method FlushIfDue()
      requires Valid()
      modifies this
      ensures Valid()
      ensures if (0 < maxTokens <= old(tokenCount)) || (0 < flushSize <= |old(bufferDocs)|)
              then Now() == Flushed(old(Now())) && tokenCount == 0
              else Now() == old(Now()) && tokenCount == old(tokenCount)
    {
      hide WellFormed, KnowsTerms, T.Trie.Valid;
      if (maxTokens > 0 && tokenCount >= maxTokens) || (flushSize > 0 && |bufferDocs| >= flushSize) {
        Flush();
        tokenCount := 0;
      }
    }

    method Delete(docId: DocId)
      requires Valid()
      modifies this
      ensures Valid() && Now() == Deleted(old(Now()), docId) && tokenCount == old(tokenCount)
      ensures tombstones == old(tombstones) + {docId} && segments == old(segments)
      ensures buffer == old(buffer) && bufferDocs == old(bufferDocs)
    {
      hide T.Trie.Valid;
      tombstones := tombstones + {docId};
    }

    method Lookup(term: Term) returns (found: Postings)
      requires Valid()
      ensures IsLookup(Now(), term, found)
      ensures forall d :: d in found <==>
                && d !in tombstones
                && (Has(buffer, term, d) || exists i :: 0 <= i < |segments| && Has(segments[i].postings, term, d))
      ensures forall d <- found ::
                || (Has(buffer, term, d) && found[d] == buffer[term][d]
                    && forall i :: 0 <= i < |segments| ==> !Has(segments[i].postings, term, d))
                || exists i :: 0 <= i < |segments| && Has(segments[i].postings, term, d)
                               && found[d] == segments[i].postings[term][d]
    {
      hide T.Trie.Valid, KnowsTerms;
      found := map[];
      if term in buffer {
        found := map d | d in buffer[term] && d !in tombstones :: buffer[term][d];
      }
      var todo: set<nat> := {};
      for i := 0 to |segments|
        invariant forall j: nat :: j in todo <==> j < i
      {
        todo := todo + {i};
      }
      NothingSearched(Now(), term, todo, found);
      hide SearchedSoFar, WellFormed;
      while todo != {}
        invariant forall i <- todo :: i < |segments|
        invariant SearchedSoFar(Now(), term, todo, found)
      {
        var i :| i in todo;
        found := SearchSegment(i, term, todo, found);
        todo := todo - {i};
      }
      AllSearched(Now(), term, found);
    }

    /** One search goroutine: it adds its segment's live postings under the lock. */
    method SearchSegment(i: nat, term: Term, ghost todo: set<nat>, before: Postings) returns (found: Postings)
      requires Valid() && i in todo && i < |segments|
      requires SearchedSoFar(Now(), term, todo, before)
      ensures SearchedSoFar(Now(), term, todo - {i}, found)
    {
      hide T.Trie.Valid, KnowsTerms;
      found := before;
      var list := Values(PostingsOf(segments[i].postings, term));
      ghost var docs := PostingsOf(segments[i].postings, term);
      assert forall d <- docs :: docs[d].docId == d;
      assert forall q <- list :: q.docId in docs && docs[q.docId] == q;
      LaidStart(before, docs, tombstones);
      hide SearchedSoFar, WellFormed, Laid;
      for k := 0 to |list|
        invariant Laid(before, docs, tombstones, list[..k], found)
      {
        assert list[k] in list && forall q <- list[..k] :: q in list;
        LaidStep(before, docs, tombstones, list[..k], found, list[k]);
        if list[k].docId !in tombstones {
          found := found[list[k].docId := list[k]];
        }
        assert list[..k + 1] == list[..k] + [list[k]];
      }
      assert list[..|list|] == list;
      SegmentSearched(Now(), term, todo, i, before, found, list);
    }

    method Terms() returns (terms: set<Term>)
      ensures forall t :: t in terms <==> t in buffer || exists i :: 0 <= i < |segments| && t in segments[i].postings
      ensures forall t :: t in terms <==> IsTerm(Now(), t)
    {
      terms := buffer.Keys;
      for i := 0 to |segments|
        invariant forall t :: t in terms <==> t in buffer || exists j :: 0 <= j < i && t in segments[j].postings
      {
        terms := terms + segments[i].postings.Keys;
      }
    }

    /** Every indexed term with the prefix, and perhaps terms whose documents are gone: the trie never forgets. */
    method PrefixSearch(prefix: string) returns (results: seq<string>)
      requires Valid()
      ensures T.Distinct(results)
      ensures forall t :: t in results <==> t in trie.terms && prefix <= t
      ensures forall t <- buffer :: prefix <= t ==> t in results
      ensures forall i :: 0 <= i < |segments| ==> forall t <- segments[i].postings :: prefix <= t ==> t in results
    {
      results := trie.Search(prefix);
    }

    /** Phase one, under the read lock. */
    method MergeSnapshot() returns (snap: Snapshot)
      ensures snap == SnapshotOf(Now())
      ensures snap.segments == segments && snap.tombstones == tombstones
    {
      var dead: set<DocId> := {};
      var todo := tombstones;
      while todo != {}
        invariant dead + todo == tombstones
      {
        var d :| d in todo;
        dead := dead + {d};
        todo := todo - {d};
      }
      snap := Snapshot(segments, dead);
    }

    /** Phase two, with no lock: it reads nothing but the snapshot. */
    static method MergeBuild(snap: Snapshot) returns (merged: Segment)
      ensures merged == Merged(snap)
      ensures forall t :: t in merged.postings <==>
                exists i :: 0 <= i < |snap.segments| && t in snap.segments[i].postings
      ensures forall t, d :: Has(merged.postings, t, d) <==>
                d !in snap.tombstones && exists i :: 0 <= i < |snap.segments| && Has(snap.segments[i].postings, t, d)
      ensures forall i, t, d | 0 <= i < |snap.segments| && Has(snap.segments[i].postings, t, d)
                               && d !in snap.tombstones
                               && (forall j :: i < j < |snap.segments| ==> !Has(snap.segments[j].postings, t, d)) ::
                Has(merged.postings, t, d) && merged.postings[t][d] == snap.segments[i].postings[t][d]
      ensures forall d :: d in merged.docs <==> exists t :: Has(merged.postings, t, d)
    {
      MergedMeans(snap);
      hide Merged, Has;
      var postings: Buffer := map[];
      var docs: set<DocId> := {};
      for i := 0 to |snap.segments|
        invariant postings == MergedPostings(snap.segments[..i], snap.tombstones)
        invariant docs == MergedDocs(postings)
      {
        assert snap.segments[..i + 1][..i] == snap.segments[..i];
        postings, docs := MergeSegment(postings, docs, snap.segments[i].postings, snap.tombstones);
      }
      assert snap.segments[..|snap.segments|] == snap.segments;
      merged := Segment(postings, docs);
      assert merged == Merged(snap) by { MergedIs(snap); }
    }

    static method MergeSegment(before: Buffer, docsBefore: set<DocId>, b: Buffer, dead: set<DocId>)
      returns (postings: Buffer, docs: set<DocId>)
      requires docsBefore == MergedDocs(before)
      ensures postings == Overlay(before, b, dead) && docs == MergedDocs(postings)
    {
      postings, docs := before, docsBefore;
      var todo := b.Keys;
      PartOverlayEnds(before, b, dead);
      hide PartOverlay, MergedDocs, Overlay;
      while todo != {}
        invariant todo <= b.Keys
        invariant postings == PartOverlay(before, b, dead, todo)
        invariant docs == MergedDocs(postings)
      {
        var t :| t in todo;
        PartOverlayStep(before, b, dead, todo, t);
        todo := todo - {t};
        ghost var was := postings;
        if t !in postings {
          postings := postings[t := map[]];
        }
        var row, rowDocs := MergeRow(postings[t], b[t], dead);
        MergedDocsOfRow(was, t, row, rowDocs);
        docs := docs + rowDocs;
        postings := postings[t := row];
      }
    }

    static method MergeRow(before: Postings, b: Postings, dead: set<DocId>) returns (row: Postings, docs: set<DocId>)
      ensures row == before + (b - dead) && docs == b.Keys - dead
    {
      row, docs := before, {};
      var ids := b.Keys;
      while ids != {}
        invariant ids <= b.Keys
        invariant row == before + (b - dead - ids)
        invariant docs == b.Keys - dead - ids
      {
        var d :| d in ids;
        ids := ids - {d};
        if d in dead {
          continue;
        }
        docs := docs + {d};
        row := row[d := b[d]];
      }
      assert b - dead - {} == b - dead;
    }

    /** Phase three, under the write lock. */
    method MergeSwap(snap: Snapshot, merged: Segment)
      requires Valid() && snap.segments <= segments && merged == Merged(snap)
      modifies this
      ensures Valid() && Now() == Swapped(old(Now()), snap) && tokenCount == old(tokenCount)
      ensures segments == [merged] + old(segments)[|snap.segments|..] && tombstones == old(tombstones) - snap.tombstones
      ensures buffer == old(buffer) && bufferDocs == old(bufferDocs)
    {
      hide WellFormed, KnowsTerms, Merged, T.Trie.Valid;
      MergedIsWellFormed(Now(), snap);
      SwappedKnowsTerms(Now(), snap, trie.terms);
      segments := [merged] + segments[|snap.segments|..];
      var todo := snap.tombstones;
      while todo != {}
        invariant todo <= snap.tombstones
        invariant tombstones == old(tombstones) - (snap.tombstones - todo)
        modifies this`tombstones
      {
        var d :| d in todo;
        tombstones := tombstones - {d};
        todo := todo - {d};
      }
      assert snap.tombstones - todo == snap.tombstones;
      assert Now() == Swapped(old(Now()), snap);
    }

    /** The three phases with nothing in between. */
    method Merge()
      requires Valid()
      modifies this
      ensures Valid() && Now() == Swapped(old(Now()), SnapshotOf(old(Now())))
      ensures buffer == old(buffer) && bufferDocs == old(bufferDocs) && tombstones == {} && |segments| == 1
    {
      hide T.Trie.Valid, KnowsTerms, WellFormed, Merged, Has;
      var snap := MergeSnapshot();
      var merged := MergeBuild(snap);
      MergeSwap(snap, merged);
    }
  }

  // --- Who is where ------------------------------------------------------------

  predicate Mentions(tokens: seq<Token>, t: Term) {
    exists i :: 0 <= i < |tokens| && tokens[i].term == t
  }

  lemma {:induction false} RecordAllHas(b: Buffer, d: DocId, tokens: seq<Token>, t: Term, e: DocId)
    ensures Has(RecordAll(b, d, tokens), t, e) <==> Has(b, t, e) || (e == d && Mentions(tokens, t))
    decreases |tokens|
  {
    if tokens != [] {
      var init := tokens[..|tokens| - 1];
      RecordAllHas(b, d, init, t, e);
      assert tokens == init + [tokens[|tokens| - 1]];
      assert Mentions(tokens, t) <==> Mentions(init, t) || tokens[|tokens| - 1].term == t;
    }
  }

  lemma WithoutHas(b: Buffer, d: DocId, t: Term, e: DocId)
    ensures Has(Without(b, d), t, e) <==> Has(b, t, e) && e != d
  {
    if Has(b, t, e) && e != d {
      assert e in b[t] - {d};
    }
  }

  /** How adding moves postings: other documents keep theirs, and `d` loses buffered ones only if it was tombstoned. */
  lemma AddedHas(s: State, d: DocId, tokens: seq<Token>, t: Term, e: DocId)
    ensures Added(s, d, tokens).segments == s.segments
    ensures Added(s, d, tokens).tombstones == s.tombstones - {d}
    ensures Has(Added(s, d, tokens).buffer, t, e) <==>
            (e == d && Mentions(tokens, t))
            || (Has(s.buffer, t, e) && !(e == d && d in s.tombstones && d in s.bufferDocs))
  {
    RecordAllHas(Cleared(s, d).buffer, d, tokens, t, e);
    WithoutHas(s.buffer, d, t, e);
  }

  lemma FlushedHas(s: State, t: Term, d: DocId)
    ensures InSegments(Flushed(s).segments, t, d) <==> Has(s.buffer, t, d) || InSegments(s.segments, t, d)
    ensures !Has(Flushed(s).buffer, t, d)
  {
    InSegmentsSplits(s.segments, [Segment(s.buffer, s.bufferDocs)], t, d);
    InSegmentsOne(Segment(s.buffer, s.bufferDocs), t, d);
  }

  /** An add makes its own terms find the document and moves nothing else, before a flush or after it. */
  lemma AddedFinds(s: State, d: DocId, tokens: seq<Token>, t: Term, e: DocId)
    ensures var s' := Added(s, d, tokens);
            && (Finds(Flushed(s'), t, e) <==> Finds(s', t, e))
            && (e != d ==> (Finds(s', t, e) <==> Finds(s, t, e)))
            && (Mentions(tokens, t) || Finds(s, t, d) ==> Finds(s', t, d))
  {
    AddedHas(s, d, tokens, t, e);
    AddedHas(s, d, tokens, t, d);
    FlushedHas(Added(s, d, tokens), t, e);
  }

  lemma AddedTokens(s: State, d: DocId, tokens: seq<Token>)
    ensures var s' := Added(s, d, tokens);
            && (forall i :: 0 <= i < |tokens| ==> Finds(s', tokens[i].term, d) && Finds(Flushed(s'), tokens[i].term, d))
            && forall t, e :: e != d ==>
                 (Finds(s', t, e) <==> Finds(s, t, e)) && (Finds(Flushed(s'), t, e) <==> Finds(s, t, e))
  {
    hide Finds, Added, Flushed;
    forall t, e ensures e != d ==> (Finds(Added(s, d, tokens), t, e) <==> Finds(s, t, e))
                                   && (Finds(Flushed(Added(s, d, tokens)), t, e) <==> Finds(s, t, e))
                ensures Mentions(tokens, t) ==> Finds(Added(s, d, tokens), t, d)
                                                && Finds(Flushed(Added(s, d, tokens)), t, d)
    {
      AddedFinds(s, d, tokens, t, e);
      AddedFinds(s, d, tokens, t, d);
    }
    assert forall i :: 0 <= i < |tokens| ==> Mentions(tokens, tokens[i].term);
  }

  lemma AddedDocs(s: State, d: DocId, tokens: seq<Token>)
    ensures Added(s, d, tokens).bufferDocs == s.bufferDocs + {d}
  {
  }

  // --- What a merged segment holds ---------------------------------------------

  lemma InSegmentsSplits(a: seq<Segment>, b: seq<Segment>, t: Term, d: DocId)
    ensures InSegments(a + b, t, d) <==> InSegments(a, t, d) || InSegments(b, t, d)
  {
    if InSegments(a, t, d) {
      var i :| 0 <= i < |a| && Has(a[i].postings, t, d);
      assert (a + b)[i] == a[i];
    }
    if InSegments(b, t, d) {
      var i :| 0 <= i < |b| && Has(b[i].postings, t, d);
      assert (a + b)[|a| + i] == b[i];
    }
  }

  lemma InSegmentsOne(s: Segment, t: Term, d: DocId)
    ensures InSegments([s], t, d) <==> Has(s.postings, t, d)
  {
    assert [s][0] == s;
  }

  /** A merged segment has exactly the postings of the documents not dead at the snapshot. */
  lemma {:induction false} MergedHas(segments: seq<Segment>, dead: set<DocId>, t: Term, d: DocId)
    ensures Has(MergedPostings(segments, dead), t, d) <==> d !in dead && InSegments(segments, t, d)
    decreases |segments|
  {
    if segments != [] {
      var init, last := segments[..|segments| - 1], segments[|segments| - 1];
      MergedHas(init, dead, t, d);
      InSegmentsSplits(init, [last], t, d);
      InSegmentsOne(last, t, d);
      assert segments == init + [last];
    }
  }

  lemma {:induction false} MergedTerms(segments: seq<Segment>, dead: set<DocId>, t: Term)
    ensures t in MergedPostings(segments, dead) <==>
            exists i :: 0 <= i < |segments| && t in segments[i].postings
    decreases |segments|
  {
    if segments != [] {
      MergedTerms(segments[..|segments| - 1], dead, t);
    }
  }

  /** The last segment with a posting of `d` for `t`. */
  predicate NewestAt(segments: seq<Segment>, i: int, t: Term, d: DocId) {
    && 0 <= i < |segments| && Has(segments[i].postings, t, d)
    && forall j :: i < j < |segments| ==> !Has(segments[j].postings, t, d)
  }

  lemma OverlayAt(merged: Buffer, b: Buffer, dead: set<DocId>, t: Term, d: DocId)
    requires d !in dead
    ensures Has(b, t, d) ==> Has(Overlay(merged, b, dead), t, d) && Overlay(merged, b, dead)[t][d] == b[t][d]
    ensures !Has(b, t, d) && Has(merged, t, d) ==>
              Has(Overlay(merged, b, dead), t, d) && Overlay(merged, b, dead)[t][d] == merged[t][d]
  {
  }

  /** Where several segments have a posting, the newest one survives a merge. */
  lemma {:induction false} NewestSurvives(segments: seq<Segment>, dead: set<DocId>, t: Term, d: DocId, i: int)
    requires NewestAt(segments, i, t, d) && d !in dead
    ensures Has(MergedPostings(segments, dead), t, d)
    ensures MergedPostings(segments, dead)[t][d] == segments[i].postings[t][d]
    decreases |segments|
  {
    hide Overlay, Has;
    var n := |segments| - 1;
    OverlayAt(MergedPostings(segments[..n], dead), segments[n].postings, dead, t, d);
    if i < n {
      assert !Has(segments[n].postings, t, d);
      assert NewestAt(segments[..n], i, t, d);
      NewestSurvives(segments[..n], dead, t, d, i);
    }
  }

  lemma MergedIs(snap: Snapshot)
    ensures var b := MergedPostings(snap.segments, snap.tombstones); Merged(snap) == Segment(b, MergedDocs(b))
  {
  }

  /** What a merge builds, posting by posting: of several versions the newest one. */
  lemma MergedMeans(snap: Snapshot)
    ensures forall t :: t in Merged(snap).postings <==>
              exists i :: 0 <= i < |snap.segments| && t in snap.segments[i].postings
    ensures forall t, d :: Has(Merged(snap).postings, t, d) <==>
              d !in snap.tombstones && exists i :: 0 <= i < |snap.segments| && Has(snap.segments[i].postings, t, d)
    ensures forall i, t, d | 0 <= i < |snap.segments| && Has(snap.segments[i].postings, t, d)
                             && d !in snap.tombstones
                             && (forall j :: i < j < |snap.segments| ==> !Has(snap.segments[j].postings, t, d)) ::
              Has(Merged(snap).postings, t, d) && Merged(snap).postings[t][d] == snap.segments[i].postings[t][d]
    ensures forall d :: d in Merged(snap).docs <==> exists t :: Has(Merged(snap).postings, t, d)
  {
    hide MergedPostings;
    forall t ensures t in Merged(snap).postings <==>
                     exists i :: 0 <= i < |snap.segments| && t in snap.segments[i].postings
    {
      MergedTerms(snap.segments, snap.tombstones, t);
    }
    forall t, d ensures Has(Merged(snap).postings, t, d) <==> d !in snap.tombstones && InSegments(snap.segments, t, d) {
      MergedHas(snap.segments, snap.tombstones, t, d);
    }
    forall i, t, d | NewestAt(snap.segments, i, t, d) && d !in snap.tombstones
      ensures Has(Merged(snap).postings, t, d) && Merged(snap).postings[t][d] == snap.segments[i].postings[t][d]
    {
      NewestSurvives(snap.segments, snap.tombstones, t, d, i);
    }
    MergedDocsMeans(MergedPostings(snap.segments, snap.tombstones));
  }

  lemma MergedDocsMeans(b: Buffer)
    ensures forall d :: d in MergedDocs(b) <==> exists t :: Has(b, t, d)
  {
    forall d | d in MergedDocs(b) ensures exists t :: Has(b, t, d) {
      var t :| t in b && d in b[t];
      assert Has(b, t, d);
    }
    forall t, d | Has(b, t, d) ensures d in MergedDocs(b) {
      assert t in b && d in b[t];
    }
  }

  // --- Proofs about the pieces -------------------------------------------------

  /** The postings found once all segments but those in `todo` are searched. */
  ghost predicate SearchedSoFar(s: State, t: Term, todo: set<nat>, found: Postings) {
    && (forall d :: d in found <==>
          d !in s.tombstones && (Has(s.buffer, t, d) || SearchedHas(s, t, todo, d)))
    && (forall d <- found ::
          if SearchedHas(s, t, todo, d)
          then exists i :: 0 <= i < |s.segments| && Has(s.segments[i].postings, t, d)
                           && found[d] == s.segments[i].postings[t][d]
          else found[d] == s.buffer[t][d])
  }

  predicate SearchedHas(s: State, t: Term, todo: set<nat>, d: DocId) {
    exists i :: 0 <= i < |s.segments| && i !in todo && Has(s.segments[i].postings, t, d)
  }

  lemma NothingSearched(s: State, t: Term, todo: set<nat>, found: Postings)
    requires forall i: nat :: i < |s.segments| ==> i in todo
    requires found == map d | d in PostingsOf(s.buffer, t) && d !in s.tombstones :: s.buffer[t][d]
    ensures SearchedSoFar(s, t, todo, found)
  {
  }

  lemma AllSearched(s: State, t: Term, found: Postings)
    requires SearchedSoFar(s, t, {}, found)
    ensures IsLookup(s, t, found)
  {
    forall d ensures SearchedHas(s, t, {}, d) <==> InSegments(s.segments, t, d) {
    }
  }

  /** `found` is `before` overwritten by the live ones among the listed postings. */
  ghost predicate Laid(before: Postings, docs: Postings, dead: set<DocId>, list: seq<Posting>, found: Postings) {
    && (forall d <- before :: d in found)
    && (forall d <- found :: (d in docs && d !in dead && found[d] == docs[d]) || (d in before && found[d] == before[d]))
    && (forall p <- list :: p.docId !in dead ==> p.docId in found && found[p.docId] == p)
  }

  lemma LaidStart(before: Postings, docs: Postings, dead: set<DocId>)
    ensures Laid(before, docs, dead, [], before)
  {
  }

  lemma LaidStep(before: Postings, docs: Postings, dead: set<DocId>, list: seq<Posting>, found: Postings, p: Posting)
    requires Laid(before, docs, dead, list, found) && p.docId in docs && docs[p.docId] == p
    requires forall q <- list :: q.docId in docs && docs[q.docId] == q
    ensures Laid(before, docs, dead, list + [p], if p.docId in dead then found else found[p.docId := p])
  {
  }

  lemma SegmentSearched(s: State, t: Term, todo: set<nat>, i: nat, before: Postings, found: Postings,
                        list: seq<Posting>)
    requires i < |s.segments| && i in todo && SearchedSoFar(s, t, todo, before)
    requires var docs := PostingsOf(s.segments[i].postings, t);
             && (forall d <- docs :: docs[d].docId == d && docs[d] in list)
             && Laid(before, docs, s.tombstones, list, found)
    ensures SearchedSoFar(s, t, todo - {i}, found)
  {
    var docs := PostingsOf(s.segments[i].postings, t);
    forall d ensures SearchedHas(s, t, todo - {i}, d)
                     <==> SearchedHas(s, t, todo, d) || Has(s.segments[i].postings, t, d)
    {
    }
    forall d | d in docs && d !in s.tombstones ensures d in found && found[d] == docs[d] {
      assert docs[d] in list;
    }
  }

  /** The overlay of the terms outside `todo`. */
  ghost function PartOverlay(merged: Buffer, b: Buffer, dead: set<DocId>, todo: set<Term>): Buffer {
    map t | t in merged.Keys + (b.Keys - todo) ::
      if t in todo then PostingsOf(merged, t) else PostingsOf(merged, t) + (PostingsOf(b, t) - dead)
  }

  lemma PartOverlayEnds(merged: Buffer, b: Buffer, dead: set<DocId>)
    ensures PartOverlay(merged, b, dead, b.Keys) == merged
    ensures PartOverlay(merged, b, dead, {}) == Overlay(merged, b, dead)
  {
    assert b.Keys - {} == b.Keys;
    var part := PartOverlay(merged, b, dead, b.Keys);
    assert part.Keys == merged.Keys;
    forall t | t in merged ensures part[t] == merged[t] {
      if t !in b {
        assert PostingsOf(b, t) - dead == map[];
      }
    }
  }

  lemma PartOverlayStep(merged: Buffer, b: Buffer, dead: set<DocId>, todo: set<Term>, t: Term)
    requires t in b && t in todo
    ensures PostingsOf(PartOverlay(merged, b, dead, todo), t) == PostingsOf(merged, t)
    ensures PartOverlay(merged, b, dead, todo - {t})
            == PartOverlay(merged, b, dead, todo)[t := PostingsOf(merged, t) + (b[t] - dead)]
  {
  }

  lemma MergedDocsOfRow(postings: Buffer, t: Term, row: Postings, rowDocs: set<DocId>)
    requires row.Keys == PostingsOf(postings, t).Keys + rowDocs
    ensures MergedDocs(postings[t := row]) == MergedDocs(postings) + rowDocs
  {
    var after := postings[t := row];
    forall d | d in MergedDocs(postings) + rowDocs ensures d in MergedDocs(after) {
      if d in row {
        assert t in after && d in after[t];
      } else {
        var u :| u in postings && d in postings[u];
        assert u != t;
        assert u in after && d in after[u];
      }
    }
  }

  lemma TermsOfMore(tokens: seq<Token>, i: nat)
    requires i < |tokens|
    ensures TermsOf(tokens[..i + 1]) == TermsOf(tokens[..i]) + {tokens[i].term}
  {
    var before, now := tokens[..i], tokens[..i + 1];
    forall t | t in TermsOf(now) ensures t in TermsOf(before) + {tokens[i].term} {
      var k :| 0 <= k < |now| && now[k].term == t;
      assert k < i ==> before[k].term == t;
    }
    forall t | t in TermsOf(before) ensures t in TermsOf(now) {
      var k :| 0 <= k < |before| && before[k].term == t;
      assert now[k].term == t;
    }
    assert now[i].term in TermsOf(now);
  }

  lemma {:induction false} RecordAllTerms(b: Buffer, d: DocId, tokens: seq<Token>)
    ensures RecordAll(b, d, tokens).Keys == b.Keys + TermsOf(tokens)
    decreases |tokens|
  {
    hide TermsOf;
    if tokens == [] {
      assert TermsOf([]) == {} by { NoTerms(); }
    } else {
      var init := tokens[..|tokens| - 1];
      assert tokens[..|tokens|] == tokens;
      RecordAllTerms(b, d, init);
      TermsOfMore(tokens, |tokens| - 1);
    }
  }

  lemma NoTerms()
    ensures TermsOf([]) == {}
  {
  }

  lemma AddedKnowsTerms(s: State, d: DocId, tokens: seq<Token>, terms: set<Term>)
    requires KnowsTerms(s, terms)
    ensures KnowsTerms(Added(s, d, tokens), terms + TermsOf(tokens))
    ensures KnowsTerms(Flushed(Added(s, d, tokens)), terms + TermsOf(tokens))
  {
    RecordAllTerms(Cleared(s, d).buffer, d, tokens);
    FlushedKnowsTerms(Added(s, d, tokens), terms + TermsOf(tokens));
  }

  lemma FlushedIsWellFormed(s: State)
    requires WellFormed(s)
    ensures WellFormed(Flushed(s))
  {
  }

  lemma FlushedKnowsTerms(s: State, terms: set<Term>)
    requires KnowsTerms(s, terms)
    ensures KnowsTerms(Flushed(s), terms)
  {
  }

  lemma {:induction false} MergedKeys(segments: seq<Segment>, dead: set<DocId>, terms: set<Term>)
    requires forall i :: 0 <= i < |segments| ==> segments[i].postings.Keys <= terms
    ensures MergedPostings(segments, dead).Keys <= terms
    decreases |segments|
  {
    if segments != [] {
      MergedKeys(segments[..|segments| - 1], dead, terms);
    }
  }

  lemma SwappedKnowsTerms(s: State, snap: Snapshot, terms: set<Term>)
    requires KnowsTerms(s, terms) && snap.segments <= s.segments
    ensures KnowsTerms(Swapped(s, snap), terms)
    ensures KnowsTerms(Swapped(s, snap).(tombstones := s.tombstones), terms)
  {
    forall i | 0 <= i < |snap.segments| ensures snap.segments[i].postings.Keys <= terms {
      assert snap.segments[i] == s.segments[i];
    }
    MergedKeys(snap.segments, snap.tombstones, terms);
  }

  lemma RecordAllOne(b: Buffer, d: DocId, token: Token)
    ensures RecordAll(b, d, [token]) == Record(b, d, token)
    ensures TermsOf([token]) == {token.term}
  {
    hide Record;
    assert [token][..0] == [];
    assert [token][0].term == token.term;
  }

  lemma RecordIsWellFormed(b: Buffer, d: DocId, token: Token, docs: set<DocId>)
    requires WellKeyed(b) && NoEmptyTerm(b) && DocsCover(b, docs)
    ensures var r := Record(b, d, token); WellKeyed(r) && NoEmptyTerm(r) && DocsCover(r, docs + {d})
  {
    var r := Record(b, d, token);
    assert d in r[token.term];
  }

  lemma {:induction false} RecordAllIsWellFormed(b: Buffer, d: DocId, tokens: seq<Token>, docs: set<DocId>)
    requires WellKeyed(b) && NoEmptyTerm(b) && DocsCover(b, docs)
    ensures var r := RecordAll(b, d, tokens); WellKeyed(r) && NoEmptyTerm(r) && DocsCover(r, docs + {d})
    decreases |tokens|
  {
    if tokens != [] {
      RecordAllIsWellFormed(b, d, tokens[..|tokens| - 1], docs);
      RecordIsWellFormed(RecordAll(b, d, tokens[..|tokens| - 1]), d, tokens[|tokens| - 1], docs + {d});
      assert docs + {d} + {d} == docs + {d};
    }
  }

  lemma AddedIsWellFormed(s: State, d: DocId, tokens: seq<Token>)
    requires WellFormed(s)
    ensures WellFormed(Added(s, d, tokens))
  {
    var c := Cleared(s, d);
    RecordAllIsWellFormed(c.buffer, d, tokens, c.bufferDocs);
  }

  lemma {:induction false} MergedPostingsWellKeyed(segments: seq<Segment>, dead: set<DocId>)
    requires forall i :: 0 <= i < |segments| ==> WellKeyed(segments[i].postings)
    ensures WellKeyed(MergedPostings(segments, dead))
    decreases |segments|
  {
    if segments != [] {
      MergedPostingsWellKeyed(segments[..|segments| - 1], dead);
    }
  }

  lemma MergedIsWellFormed(s: State, snap: Snapshot)
    requires WellFormed(s) && snap.segments <= s.segments
    ensures WellFormed(Swapped(s, snap))
  {
    forall i | 0 <= i < |snap.segments| ensures WellKeyed(snap.segments[i].postings) {
      assert snap.segments[i] == s.segments[i];
    }
    MergedPostingsWellKeyed(snap.segments, snap.tombstones);
  }
}
