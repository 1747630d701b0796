/** Phrase queries on the index that a replay of the write-ahead log leaves. */
module RecoveredPhrases {
  import opened Wrappers
  import opened InvertedIndex
  import opened MergeRuns
  import opened WalStore
  import opened WalReplay
  import Q = Query

  lemma {:induction false} Unmentioned(tokens: seq<Token>, t: Term)
    requires !Mentions(tokens, t)
    ensures PositionsOf(tokens, t) == []
    decreases |tokens|
  {
    if tokens != [] {
      var init := tokens[..|tokens| - 1];
      assert forall i :: 0 <= i < |init| ==> init[i] == tokens[i];
      Unmentioned(init, t);
    }
  }

  /** A term that only one field mentions has its positions from that field. */
  lemma {:induction false} OrderPositions(a: Analysis, schema: Schema, fields: Fields, order: seq<string>,
                                          field: string,
                                          t: Term)
    requires forall name <- order :: name in fields && (name != field ==>
             !Mentions(TokensOf(a, schema, fields, name), t))
    requires forall i, j :: 0 <= i < j < |order| ==> order[i] != order[j]
    ensures PositionsOf(Flatten(VersionIn(a, schema, fields, order)), t)
            == if field in order then PositionsOf(TokensOf(a, schema, fields, field), t) else []
    decreases |order|
  {
    hide Mentions, TokensOf, PositionsOf;
    var version := VersionIn(a, schema, fields, order);
    if order == [] {
      NothingMentioned(t);
      Unmentioned([], t);
    } else {
      var init, last := order[..|order| - 1], order[|order| - 1];
      assert order == init + [last];
      OrderPositions(a, schema, fields, init, field, t);
      assert version[..|order| - 1] == VersionIn(a, schema, fields, init);
      assert Flatten(version) == Flatten(VersionIn(a, schema, fields, init)) + TokensOf(a, schema, fields, last);
      hide Flatten, VersionIn;
      PositionsOfConcat(Flatten(VersionIn(a, schema, fields, init)), TokensOf(a, schema, fields, last), t);
      if last != field {
        Unmentioned(TokensOf(a, schema, fields, last), t);
      }
    }
  }

  /** What the buffer holds of a word of one field of the last version. */
  lemma RecoveredPositions(a: Analysis, s: State, d: DocId, schema: Schema, fields: Fields, field: string, t: Term)
    requires HoldsVersion(a, s, d, Some((schema, fields))) && field in IndexedFields(a, schema, fields)
    requires forall name <- IndexedFields(a, schema, fields) :: name != field ==>
             !Mentions(TokensOf(a, schema, fields, name), t)
    ensures var positions := PositionsOf(TokensOf(a, schema, fields, field), t);
            var visible := VisiblePostings(s, d);
            (t in visible <==> positions != []) && (t in visible ==> visible[t].positions == positions)
  {
    hide TokensOf, Mentions, PositionsOf, RecordAll, VisiblePostings, Resolve, Indexes;
    var version :| IsVersion(a, schema, fields, version) && VisiblePostings(s, d) == FreshPostings(d, version);
    var order :| ListsNames(order, IndexedFields(a, schema, fields)) && version == VersionIn(a, schema, fields, order);
    OrderPositions(a, schema, fields, order, field, t);
    FreshPosting(map[], d, Flatten(version), t);
    var b := RecordAll(map[], d, Flatten(version));
    assert t in DocumentPostings(b, d) <==> Has(b, t, d);
  }

  /**
   * After an unflushed replay a phrase finds a live document exactly when its words are a
   * contiguous run of the text the last version has in that field.
   */
  lemma RecoveredPhrase(a: Analysis, start: Schema, log: Log, s: State, d: DocId, field: string, words: seq<Term>)
    requires HoldsLastVersions(a, start, log, s) && words != [] && LastLive(a, start, log, d).Some?
    requires var (schema, fields) := LastLive(a, start, log, d).value;
             && field in IndexedFields(a, schema, fields)
             && Resolve(a, schema, field, fields[field].value).kind == Text
             && Q.IsStream(a.analyze(fields[field].value))
             && (forall w <- words, name <- IndexedFields(a, schema, fields) :: name != field ==>
                   !Mentions(TokensOf(a, schema, fields, name), Q.Key(field, w)))
    ensures var text := LastLive(a, start, log, d).value.1[field].value;
            d !in s.tombstones && Q.PhraseHolds(words, Q.PhrasePostings(s.buffer, field, words, d))
            <==> Q.RunOccurs(a.analyze(text), words)
  {
    hide LastLive, IsVersion;
    var (schema, fields) := LastLive(a, start, log, d).value;
    var text := fields[field].value;
    assert HoldsVersion(a, s, d, Some((schema, fields)));
    assert TokensOf(a, schema, fields, field) == QualifiedAll(Some(field), a.analyze(text));
    var doc := if d in s.tombstones then map[] else Q.PhrasePostings(s.buffer, field, words, d);
    forall w, p: nat | w in words
      ensures p in Q.PositionsIn(doc, w) <==> Q.IsAt(a.analyze(text), w, p)
    {
      RecoveredWord(a, s, d, schema, fields, field, words, w, doc);
      PositionsOfMeans(a.analyze(text), w, p);
      if p < |a.analyze(text)| && a.analyze(text)[p].term == w {
        assert a.analyze(text)[p] == Token(w, p);
      }
    }
    Q.PhraseIsRun(a.analyze(text), words, doc);
    if d in s.tombstones {
      NoPhrase(words);
    }
  }

  lemma NoPhrase(words: seq<Term>)
    requires words != []
    ensures !Q.PhraseHolds(words, map[])
  {
    forall p: nat ensures !Q.StandsAt(words, map[], p) {
      assert Q.PositionsIn(map[], words[0]) == [];
    }
  }

  lemma RecoveredWord(a: Analysis, s: State, d: DocId, schema: Schema, fields: Fields, field: string, words: seq<Term>,
                      w: Term, doc: Q.DocPostings)
    requires HoldsVersion(a, s, d, Some((schema, fields))) && field in IndexedFields(a, schema, fields) && w in words
    requires TokensOf(a, schema, fields, field) == QualifiedAll(Some(field), a.analyze(fields[field].value))
    requires forall name <- IndexedFields(a, schema, fields) :: name != field ==>
               !Mentions(TokensOf(a, schema, fields, name), Q.Key(field, w))
    requires doc == if d in s.tombstones then map[] else Q.PhrasePostings(s.buffer, field, words, d)
    ensures Q.PositionsIn(doc, w) == PositionsOf(a.analyze(fields[field].value), w)
  {
    hide TokensOf, Mentions, PositionsOf, HoldsVersion;
    RecoveredPositions(a, s, d, schema, fields, field, Q.Key(field, w));
    Q.QualifiedPositions(field, a.analyze(fields[field].value), w);
  }
}
