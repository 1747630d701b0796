/**
 * Boolean and phrase queries: query/match.go and query/phrase.go, and what a phrase
 * finds in a document indexed field by field.
 */
module Query {
  import opened InvertedIndex
  import opened MergeRuns
  import opened Tokenizer
  import opened Wrappers

  type DocPostings = map<Term, Posting>

  // --- Phrases -----------------------------------------------------------------

  function PositionsIn(doc: DocPostings, t: Term): seq<nat> {
    if t in doc then doc[t].positions else []
  }

  /** The terms stand at consecutive positions from `p` on. */
  predicate StandsAt(terms: seq<Term>, doc: DocPostings, p: nat) {
    forall i :: 0 <= i < |terms| ==> p + i in PositionsIn(doc, terms[i])
  }

  ghost predicate PhraseHolds(terms: seq<Term>, doc: DocPostings) {
    terms != [] && exists p: nat :: StandsAt(terms, doc, p)
  }

  /** A phrase, position by position: the following words stand behind some place of the first. */
  lemma PhraseMeans(terms: seq<Term>, doc: DocPostings)
    ensures PhraseHolds(terms, doc) <==>
            && terms != [] && terms[0] in doc
            && exists p <- doc[terms[0]].positions ::
                 forall i :: 0 < i < |terms| ==> terms[i] in doc && p + i in doc[terms[i]].positions
  {
    if terms != [] && terms[0] in doc {
      forall p: nat ensures StandsAt(terms, doc, p) <==>
                            p in doc[terms[0]].positions
                            && forall i :: 0 < i < |terms| ==> terms[i] in doc && p + i in doc[terms[i]].positions
      {
        assert StandsAt(terms, doc, p) ==> p + 0 in PositionsIn(doc, terms[0]);
      }
    } else if terms != [] {
      forall p: nat ensures !StandsAt(terms, doc, p) {
        assert p + 0 !in PositionsIn(doc, terms[0]);
      }
    }
  }

  method ContainsPosition(positions: seq<nat>, target: nat) returns (found: bool)
    ensures found == (target in positions)
  {
    var positionMap: map<nat, bool> := map[];
    for i := 0 to |positions|
      invariant forall p :: p in positionMap <==> p in positions[..i]
    {
      positionMap := positionMap[positions[i] := true];
    }
    found := target in positionMap;
  }

  method PhraseMatch(terms: seq<Term>, doc: DocPostings) returns (match_: bool)
    ensures match_ == PhraseHolds(terms, doc)
    ensures match_ <==>
            && terms != [] && terms[0] in doc
            && exists p <- doc[terms[0]].positions ::
                 forall i :: 0 < i < |terms| ==> terms[i] in doc && p + i in doc[terms[i]].positions
  {
    PhraseMeans(terms, doc);
    if |terms| == 0 {
      return false;
    }
    var positions := PositionsIn(doc, terms[0]);
    if |positions| == 0 {
      return false;
    }
    for k := 0 to |positions|
      invariant forall j :: 0 <= j < k ==> !StandsAt(terms, doc, positions[j])
    {
      var matched := true;
      for i := 1 to |terms|
        invariant matched
        invariant forall j :: 0 <= j < i ==> positions[k] + j in PositionsIn(doc, terms[j])
      {
        if terms[i] !in doc {
          return false;
        }
        var next := doc[terms[i]].positions;
        if |next| == 0 {
          return false;
        }
        var contains := ContainsPosition(next, positions[k] + i);
        if !contains {
          matched := false;
          break;
        }
      }
      if matched {
        assert StandsAt(terms, doc, positions[k]);
        return true;
      }
    }
    forall p: nat ensures !StandsAt(terms, doc, p) {
      if p + 0 in positions {
        var j :| 0 <= j < |positions| && positions[j] == p;
      }
    }
    return false;
  }

  /** The terms occur as a contiguous run of the token stream. */
  predicate RunOccurs(tokens: seq<Token>, terms: seq<Term>) {
    exists s :: 0 <= s <= |tokens| - |terms| && RunAt(tokens, terms, s)
  }

  predicate RunAt(tokens: seq<Token>, terms: seq<Term>, s: nat)
    requires s + |terms| <= |tokens|
  {
    forall i :: 0 <= i < |terms| ==> tokens[s + i].term == terms[i]
  }

  /** The postings a phrase on `field` is checked against: bare words, looked up under the field. */
  function PhrasePostings(b: Buffer, field: string, words: seq<Term>, d: DocId): DocPostings {
    map w | w in words && Has(b, Key(field, w), d) :: b[Key(field, w)][d]
  }

  function Key(field: string, term: Term): Term { field + ":" + term }

  lemma {:induction false} QualifiedPositions(field: string, tokens: seq<Token>, w: Term)
    ensures PositionsOf(QualifiedAll(Some(field), tokens), Key(field, w)) == PositionsOf(tokens, w)
    decreases |tokens|
  {
    if tokens != [] {
      var init, last := tokens[..|tokens| - 1], tokens[|tokens| - 1];
      QualifiedPositions(field, init, w);
      assert QualifiedAll(Some(field), tokens)[..|tokens| - 1] == QualifiedAll(Some(field), init);
      SameKey(field, last.term, w);
    }
  }

  lemma SameKey(field: string, v: Term, w: Term)
    ensures Key(field, v) == Key(field, w) <==> v == w
  {
    assert Key(field, v)[|field| + 1..] == v && Key(field, w)[|field| + 1..] == w;
  }

  /**
   * Adding a field records, for each of its words that the document did not have under it, the
   * positions in the stream.
   */
  lemma FreshPhrasePositions(s: State, d: DocId, field: string, tokens: seq<Token>, words: seq<Term>, w: Term)
    requires w in words && !Has(Cleared(s, d).buffer, Key(field, w), d)
    ensures PositionsIn(PhrasePostings(Added(s, d, QualifiedAll(Some(field), tokens)).buffer, field, words, d), w)
            == PositionsOf(tokens, w)
  {
    hide RecordAll, Cleared;
    FreshPosting(Cleared(s, d).buffer, d, QualifiedAll(Some(field), tokens), Key(field, w));
    QualifiedPositions(field, tokens, w);
  }

  /** Each token stands at its own position. */
  predicate IsStream(tokens: seq<Token>) {
    forall i :: 0 <= i < |tokens| ==> tokens[i].position == i
  }

  lemma PhraseFindsStream(s: State, d: DocId, field: string, tokens: seq<Token>, words: seq<Term>)
    requires words != [] && IsStream(tokens)
    requires forall w <- words :: !Has(Cleared(s, d).buffer, Key(field, w), d)
    ensures PhraseHolds(words, PhrasePostings(Added(s, d, QualifiedAll(Some(field), tokens)).buffer, field, words, d))
            <==> RunOccurs(tokens, words)
  {
    var doc := PhrasePostings(Added(s, d, QualifiedAll(Some(field), tokens)).buffer, field, words, d);
    forall w, p: nat | w in words
      ensures p in PositionsIn(doc, w) <==> IsAt(tokens, w, p)
    {
      FreshPhrasePositions(s, d, field, tokens, words, w);
      PositionsOfMeans(tokens, w, p);
      if p < |tokens| && tokens[p].term == w {
        assert tokens[p] == Token(w, p);
      }
    }
    PhraseIsRun(tokens, words, doc);
  }

  /**
   * Phrase search end to end: after a field is tokenized and added to a document that had none
   * of the phrase's words under it, the phrase matches exactly when its words are a contiguous
   * run of the token stream. Whatever other fields the document has does not matter.
   */
  lemma PhraseFindsRuns(u: Unicode, s: State, d: DocId, field: string, text: string, words: seq<Term>)
    requires words != [] && forall w <- words :: !Has(Cleared(s, d).buffer, Key(field, w), d)
    ensures var tokens := Tokens(u, text);
            PhraseHolds(words, PhrasePostings(Added(s, d, QualifiedAll(Some(field), tokens)).buffer, field, words, d))
            <==> RunOccurs(tokens, words)
  {
    PhraseFindsStream(s, d, field, Tokens(u, text), words);
  }

  /** Adding further fields whose terms are not the phrase's own keeps its answer. */
  lemma OtherFieldsKeepPhrase(s: State, d: DocId, others: seq<Token>, field: string, words: seq<Term>)
    requires d !in s.tombstones && forall w <- words :: !Mentions(others, Key(field, w))
    ensures PhraseHolds(words, PhrasePostings(Added(s, d, others).buffer, field, words, d))
            <==> PhraseHolds(words, PhrasePostings(s.buffer, field, words, d))
  {
    hide RecordAll, Mentions;
    forall w | w in words
      ensures PositionsIn(PhrasePostings(Added(s, d, others).buffer, field, words, d), w)
              == PositionsIn(PhrasePostings(s.buffer, field, words, d), w)
    {
      UnmentionedPosting(s.buffer, d, others, Key(field, w));
    }
    SamePositions(words, PhrasePostings(Added(s, d, others).buffer, field, words, d),
                  PhrasePostings(s.buffer, field, words, d));
  }

  lemma SamePositions(words: seq<Term>, x: DocPostings, y: DocPostings)
    requires forall w <- words :: PositionsIn(x, w) == PositionsIn(y, w)
    ensures PhraseHolds(words, x) <==> PhraseHolds(words, y)
  {
    forall p: nat ensures StandsAt(words, x, p) <==> StandsAt(words, y, p) {
      forall i | 0 <= i < |words| ensures PositionsIn(x, words[i]) == PositionsIn(y, words[i]) {
        assert words[i] in words;
      }
    }
  }

  predicate IsAt(tokens: seq<Token>, w: Term, p: nat) {
    p < |tokens| && tokens[p].term == w
  }

  lemma PhraseIsRun(tokens: seq<Token>, words: seq<Term>, doc: DocPostings)
    requires words != []
    requires forall w, p: nat :: w in words ==> (p in PositionsIn(doc, w) <==> IsAt(tokens, w, p))
    ensures PhraseHolds(words, doc) <==> RunOccurs(tokens, words)
  {
    if PhraseHolds(words, doc) {
      var p: nat :| StandsAt(words, doc, p);
      forall i | 0 <= i < |words| ensures IsAt(tokens, words[i], p + i) {
        assert words[i] in words;
      }
      assert IsAt(tokens, words[|words| - 1], p + (|words| - 1));
      assert RunAt(tokens, words, p);
    }
    if RunOccurs(tokens, words) {
      var s :| 0 <= s <= |tokens| - |words| && RunAt(tokens, words, s);
      forall i | 0 <= i < |words| ensures s + i in PositionsIn(doc, words[i]) {
        assert words[i] in words && IsAt(tokens, words[i], s + i);
      }
      assert StandsAt(words, doc, s);
    }
  }

  // --- Boolean queries ---------------------------------------------------------

  /** `Other` stands for the clause kinds that add candidates but are not checked by a match. */
  datatype Clause =
    | Must(field: string, term: Term)
    | Should(field: string, term: Term)
    | MustNot(field: string, term: Term)
    | Phrase(field: string, words: seq<Term>)
    | Other(field: string, term: Term)

  predicate AnyMust(clauses: seq<Clause>) { exists c <- clauses :: c.Must? }

  predicate AnyShould(clauses: seq<Clause>) { exists c <- clauses :: c.Should? }

  /** What a query means, given which keys a document has and which phrases it satisfies. */
  ghost predicate Satisfies(clauses: seq<Clause>, has: Term -> bool, phrase: Clause -> bool) {
    && (forall c <- clauses :: c.Must? ==> has(Key(c.field, c.term)))
    && (forall c <- clauses :: c.MustNot? ==> !has(Key(c.field, c.term)))
    && (forall c <- clauses :: c.Phrase? ==> phrase(c))
    && (AnyMust(clauses) || !AnyShould(clauses) || exists c <- clauses :: c.Should? && has(Key(c.field, c.term)))
  }

  ghost predicate Matches(clauses: seq<Clause>, doc: DocPostings) {
    Satisfies(clauses, t => t in doc, (c: Clause) => c.Phrase? && PhraseHolds(c.words, doc))
  }

  /** A boolean query, clause by clause. */
  lemma MatchMeans(clauses: seq<Clause>, doc: DocPostings)
    ensures Matches(clauses, doc) <==>
            && (forall c <- clauses :: c.Must? ==> c.field + ":" + c.term in doc)
            && (forall c <- clauses :: c.MustNot? ==> c.field + ":" + c.term !in doc)
            && (forall c <- clauses :: c.Phrase? ==>
                  && c.words != [] && c.words[0] in doc
                  && exists p <- doc[c.words[0]].positions ::
                       forall i :: 0 < i < |c.words| ==> c.words[i] in doc && p + i in doc[c.words[i]].positions)
            && ((exists c <- clauses :: c.Must?) || (forall c <- clauses :: !c.Should?)
                || exists c <- clauses :: c.Should? && c.field + ":" + c.term in doc)
  {
    hide PhraseHolds;
    forall c | c in clauses && c.Phrase? {
      PhraseMeans(c.words, doc);
    }
  }

  method Match(clauses: seq<Clause>, doc: DocPostings) returns (match_: bool)
    ensures match_ == Matches(clauses, doc)
    ensures match_ <==>
            && (forall c <- clauses :: c.Must? ==> c.field + ":" + c.term in doc)
            && (forall c <- clauses :: c.MustNot? ==> c.field + ":" + c.term !in doc)
            && (forall c <- clauses :: c.Phrase? ==>
                  && c.words != [] && c.words[0] in doc
                  && exists p <- doc[c.words[0]].positions ::
                       forall i :: 0 < i < |c.words| ==> c.words[i] in doc && p + i in doc[c.words[i]].positions)
            && ((exists c <- clauses :: c.Must?) || (forall c <- clauses :: !c.Should?)
                || exists c <- clauses :: c.Should? && c.field + ":" + c.term in doc)
  {
    MatchMeans(clauses, doc);
    hide PhraseHolds;
    var hasShould, anyShouldMatched, hasMust := false, false, false;
    for i := 0 to |clauses|
      invariant forall c <- clauses[..i] :: c.Must? ==> Key(c.field, c.term) in doc
      invariant forall c <- clauses[..i] :: c.MustNot? ==> Key(c.field, c.term) !in doc
      invariant forall c <- clauses[..i] :: c.Phrase? ==> PhraseHolds(c.words, doc)
      invariant hasMust == AnyMust(clauses[..i]) && hasShould == AnyShould(clauses[..i])
      invariant anyShouldMatched == exists c <- clauses[..i] :: c.Should? && Key(c.field, c.term) in doc
    {
      var clause := clauses[i];
      assert clause in clauses;
      assert clauses[..i + 1] == clauses[..i] + [clause];
      match clause
      case Must(field, term) =>
        if Key(field, term) !in doc { return false; }
        hasMust := true;
      case Should(field, term) =>
        hasShould := true;
        if Key(field, term) in doc { anyShouldMatched := true; }
      case MustNot(field, term) =>
        if Key(field, term) in doc { return false; }
      case Phrase(field, words) =>
        var holds := PhraseMatch(words, doc);
        if !holds { return false; }
      case Other(_, _) =>
    }
    assert clauses[..|clauses|] == clauses;
    return !(!hasMust && hasShould && !anyShouldMatched);
  }
}
