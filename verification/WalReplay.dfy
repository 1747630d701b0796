/**
 * Redo recovery: the engine logs every operation before it takes effect, and after a
 * crash replays the log over a document store that may already hold some of it.
 * From engine/engine.go and engine/snapshot.go.
 */
module WalReplay {
  import opened Wrappers
  import opened InvertedIndex
  import opened MergeRuns
  import opened WalStore

  // --- The index over a replay -------------------------------------------------

  /** The tokens one field is indexed under. */
  function FieldTokens(a: Analysis, fm: FieldMapping, name: string, value: string): seq<Token> {
    match fm.kind
    case Text => QualifiedAll(Some(name), a.analyze(value))
    case Skip => []
    case _ => [Token(name + ":" + value, 0)]
  }

  function TokensOf(a: Analysis, schema: Schema, fields: Fields, name: string): seq<Token>
    requires name in fields
  {
    FieldTokens(a, Resolve(a, schema, name, fields[name].value), name, fields[name].value)
  }

  function IndexedFields(a: Analysis, schema: Schema, fields: Fields): set<string> {
    set name | name in fields && Indexes(Resolve(a, schema, name, fields[name].value))
  }

  predicate IndexedUnder(a: Analysis, schema: Schema, fields: Fields, t: Term) {
    exists name <- fields :: name in IndexedFields(a, schema, fields) && Mentions(TokensOf(a, schema, fields, name), t)
  }

  predicate ListsNames(order: seq<string>, names: set<string>) {
    && (forall i, j :: 0 <= i < j < |order| ==> order[i] != order[j])
    && (forall name <- order :: name in names) && (forall name <- names :: name in order)
  }

  function VersionIn(a: Analysis, schema: Schema, fields: Fields, order: seq<string>): seq<seq<Token>>
    requires forall name <- order :: name in fields
  {
    seq(|order|, i requires 0 <= i < |order| => TokensOf(a, schema, fields, order[i]))
  }

  /** A version lists the token streams of the indexed fields, in whatever order the field map iterates. */
  ghost predicate IsVersion(a: Analysis, schema: Schema, fields: Fields, version: seq<seq<Token>>) {
    exists order :: ListsNames(order, IndexedFields(a, schema, fields))
        && version == VersionIn(a, schema, fields, order)
  }

  lemma {:induction false} OrderMentions(a: Analysis, schema: Schema, fields: Fields, order: seq<string>, t: Term)
    requires forall name <- order :: name in fields
    ensures Mentions(Flatten(VersionIn(a, schema, fields, order)), t)
            <==> exists i :: 0 <= i < |order| && Mentions(TokensOf(a, schema, fields, order[i]), t)
    decreases |order|
  {
    hide Mentions, TokensOf;
    var version := VersionIn(a, schema, fields, order);
    if order == [] {
      NothingMentioned(t);
    } else {
      var init, last := order[..|order| - 1], order[|order| - 1];
      OrderMentions(a, schema, fields, init, t);
      assert version[..|order| - 1] == VersionIn(a, schema, fields, init);
      MentionsConcat(Flatten(version[..|order| - 1]), TokensOf(a, schema, fields, last), t);
      if i :| 0 <= i < |init| && Mentions(TokensOf(a, schema, fields, init[i]), t) {
        assert order[i] == init[i];
      }
      if i :| 0 <= i < |order| && Mentions(TokensOf(a, schema, fields, order[i]), t) {
        assert i < |init| ==> init[i] == order[i];
      }
    }
  }

  lemma NothingMentioned(t: Term)
    ensures !Mentions([], t)
  {
  }

  lemma VersionMentions(a: Analysis, schema: Schema, fields: Fields, version: seq<seq<Token>>, t: Term)
    requires IsVersion(a, schema, fields, version)
    ensures Mentions(Flatten(version), t) <==> IndexedUnder(a, schema, fields, t)
  {
    hide Mentions, TokensOf, Indexes, Resolve;
    var order :| ListsNames(order, IndexedFields(a, schema, fields)) && version == VersionIn(a, schema, fields, order);
    OrderMentions(a, schema, fields, order, t);
  }

  lemma FieldMentions(a: Analysis, fm: FieldMapping, name: string, value: string, t: Term)
    ensures Mentions(FieldTokens(a, fm, name, value), t) <==>
              if fm.kind == Text then exists w <- a.analyze(value) :: t == name + ":" + w.term
              else fm.kind != Skip && t == name + ":" + value
  {
    var tokens := FieldTokens(a, fm, name, value);
    if fm.kind == Text {
      var words := a.analyze(value);
      forall i | 0 <= i < |words| ensures tokens[i].term == name + ":" + words[i].term && words[i] in words {
        assert tokens[i] == Qualified(Some(name), words[i]);
      }
      if w :| w in words && t == name + ":" + w.term {
        var i :| 0 <= i < |words| && words[i] == w;
        assert tokens[i].term == t;
      }
    } else if fm.kind != Skip {
      assert tokens[0].term == name + ":" + value;
    }
  }

  /**
   * The terms of a document, given the schema after it: a text field's words and any other field's
   * whole value, each behind the field's name, for the fields that the schema indexes.
   */
  lemma TermsOfDocument(a: Analysis, schema: Schema, fields: Fields, t: Term)
    ensures var after := SchemaAfterDocument(a, schema, fields);
            IndexedUnder(a, schema, fields, t) <==>
            exists name <- fields ::
              && after[name].index && after[name].kind != Skip
              && if after[name].kind == Text then exists w <- a.analyze(fields[name].value) :: t == name + ":" + w.term
                 else t == name + ":" + fields[name].value
  {
    hide Resolve, Mentions, FieldTokens;
    var after := SchemaAfterDocument(a, schema, fields);
    forall name | name in fields
      ensures after[name] == Resolve(a, schema, name, fields[name].value)
      ensures Mentions(TokensOf(a, schema, fields, name), t) <==>
                if after[name].kind == Text then exists w <- a.analyze(fields[name].value) :: t == name + ":" + w.term
                else after[name].kind != Skip && t == name + ":" + fields[name].value
    {
      FieldMentions(a, after[name], name, fields[name].value, t);
    }
  }

  /** How a document moves the schema: new fields by inference, conflicts to text, the rest stays. */
  lemma SchemaOfDocument(a: Analysis, schema: Schema, fields: Fields)
    ensures var after := SchemaAfterDocument(a, schema, fields);
            && after.Keys == schema.Keys + fields.Keys
            && (forall name <- schema.Keys - fields.Keys :: after[name] == schema[name])
            && (forall name <- fields | name in schema && schema[name].isExplicit :: after[name] == schema[name])
            && (forall name <- fields | name in schema && schema[name].kind == a.infer(fields[name].value) ::
                  after[name] == schema[name])
            && (forall name <- fields | name in schema && !schema[name].isExplicit
                                        && schema[name].kind != a.infer(fields[name].value) ::
                  after[name] == FieldMapping(Text, true, true, false))
            && (forall name <- fields | name !in schema ::
                  after[name] == FieldMapping(a.infer(fields[name].value), true, true, false))
  {
  }

  /** What the schema lets into the document store. */
  lemma StoredOfDocument(a: Analysis, schema: Schema, fields: Fields)
    ensures var after := SchemaAfterDocument(a, schema, fields);
            fields - Dropped(after)
            == map name | name in fields && after[name].kind != Skip && after[name].store :: fields[name]
  {
    hide Resolve;
  }

  /** The last version of `d` in the log, if it is not deleted, with the schema of that moment. */
  function LastLive(a: Analysis, schema: Schema, log: Log, d: DocId): Option<(Schema, Fields)> {
    if log == [] then None
    else
      var init := log[..|log| - 1];
      match log[|log| - 1]
      case LogIndex(id, fields) =>
        if id == d then Some((SchemaAfter(a, schema, init), fields)) else LastLive(a, schema, init, d)
      case LogDelete(id) => if id == d then None else LastLive(a, schema, init, d)
  }

  /** `t` is a term of the last version of `d`. */
  predicate LiveTerm(a: Analysis, schema: Schema, log: Log, t: Term, d: DocId) {
    var last := LastLive(a, schema, log, d);
    last.Some? && IndexedUnder(a, last.value.0, last.value.1, t)
  }

  /** The terms a log leaves a document with: those of its last version under the schema of that moment. */
  lemma {:induction false} LiveTermsOf(a: Analysis, start: Schema, log: Log, k: nat, fields: Fields, t: Term, d: DocId)
    requires k < |log| && log[k] == LogIndex(d, fields) && forall i :: k < i < |log| ==> log[i].id != d
    ensures var schema := SchemaAfter(a, start, log[..k + 1]);
            LiveTerm(a, start, log, t, d) <==>
            exists name <- fields ::
              && name in schema && schema[name].index && schema[name].kind != Skip
              && if schema[name].kind == Text then exists w <- a.analyze(fields[name].value) :: t == name + ":" + w.term
                 else t == name + ":" + fields[name].value
    decreases |log|
  {
    hide IndexedUnder, SchemaAfterDocument;
    var n := |log| - 1;
    if k == n {
      var before := SchemaAfter(a, start, log[..k]);
      assert log[..k + 1] == log && SchemaAfter(a, start, log) == SchemaAfterDocument(a, before, fields);
      TermsOfDocument(a, before, fields, t);
      SchemaOfDocument(a, before, fields);
    } else {
      assert log[..n][..k + 1] == log[..k + 1];
      LiveTermsOf(a, start, log[..n], k, fields, t, d);
      assert LiveTerm(a, start, log, t, d) <==> LiveTerm(a, start, log[..n], t, d);
    }
  }

  predicate DeletedLast(log: Log, d: DocId) {
    LastEntry(log, d).Some? && LastEntry(log, d).value.LogDelete?
  }

  lemma {:induction false} DeletedLastIff(log: Log, d: DocId)
    ensures DeletedLast(log, d) <==>
            exists k :: 0 <= k < |log| && log[k] == LogDelete(d) && forall i :: k < i < |log| ==> log[i].id != d
    decreases |log|
  {
    if log != [] {
      var n := |log| - 1;
      DeletedLastIff(log[..n], d);
      if log[n].id == d {
        assert forall k :: 0 <= k < n && log[k] == LogDelete(d) ==> k < n < |log| && log[n].id == d;
      } else {
        assert DeletedLast(log, d) <==> DeletedLast(log[..n], d);
        assert forall i :: 0 <= i < n ==> log[..n][i] == log[i];
        if DeletedLast(log[..n], d) {
          var k :| 0 <= k < n && log[..n][k] == LogDelete(d) && forall i :: k < i < n ==> log[..n][i].id != d;
          assert log[k] == LogDelete(d) && forall i :: k < i < |log| ==> log[i].id != d;
        }
      }
    }
  }

  /** The buffered postings of a document that is not tombstoned. */
  function VisiblePostings(s: State, d: DocId): map<Term, Posting> {
    if d in s.tombstones then map[] else DocumentPostings(s.buffer, d)
  }

  /** The postings of a version added to an index that knows nothing of the document. */
  function FreshPostings(d: DocId, version: seq<seq<Token>>): map<Term, Posting> {
    DocumentPostings(RecordAll(map[], d, Flatten(version)), d)
  }

  /** What a replay keeps as long as nothing is flushed. */
  ghost predicate ReplayState(s: State, store: Store) {
    WellFormed(s) && s.segments == [] && forall d :: VisiblePostings(s, d) != map[] ==> d in store
  }

  ghost predicate HoldsVersion(a: Analysis, s: State, d: DocId, last: Option<(Schema, Fields)>) {
    match last
    case None => VisiblePostings(s, d) == map[]
    case Some((schema, fields)) =>
      exists version :: IsVersion(a, schema, fields, version) && VisiblePostings(s, d) == FreshPostings(d, version)
  }

  /** Every document has exactly the postings of its last version, frequencies and positions included. */
  ghost predicate HoldsLastVersions(a: Analysis, start: Schema, log: Log, s: State) {
    forall d :: HoldsVersion(a, s, d, LastLive(a, start, log, d))
  }

  /** A search finds a document exactly by the terms of its last version. */
  ghost predicate FindsLastVersions(a: Analysis, start: Schema, log: Log, s: State) {
    forall t, d :: Finds(s, t, d) <==> LiveTerm(a, start, log, t, d)
  }

  /** A search finds a document at least by the terms of its last version. */
  ghost predicate FindsLive(a: Analysis, start: Schema, log: Log, s: State) {
    forall t, d :: LiveTerm(a, start, log, t, d) ==> Finds(s, t, d)
  }

  /** Documents deleted last are tombstoned, so that no term finds them. */
  ghost predicate HidesDeleted(log: Log, s: State) {
    forall d :: DeletedLast(log, d) ==> d in s.tombstones
  }

  lemma FreshPostingsHave(d: DocId, version: seq<seq<Token>>, t: Term)
    ensures t in FreshPostings(d, version) <==> Mentions(Flatten(version), t)
  {
    var all := Flatten(version);
    hide Flatten;
    RecordAllHas(map[], d, all, t, d);
    var b := RecordAll(map[], d, all);
    hide RecordAll;
    assert t in DocumentPostings(b, d) <==> Has(b, t, d);
  }

  lemma VisibleIsFound(s: State, t: Term, d: DocId)
    requires s.segments == []
    ensures Finds(s, t, d) <==> t in VisiblePostings(s, d)
  {
    assert t in DocumentPostings(s.buffer, d) <==> Has(s.buffer, t, d);
  }

  lemma HeldIsFound(a: Analysis, start: Schema, log: Log, s: State)
    requires HoldsLastVersions(a, start, log, s) && s.segments == []
    ensures FindsLastVersions(a, start, log, s)
  {
    hide VisiblePostings, FreshPostings, IsVersion, IndexedUnder, Finds, LastLive;
    forall t, d ensures Finds(s, t, d) <==> LiveTerm(a, start, log, t, d) {
      VisibleIsFound(s, t, d);
      assert HoldsVersion(a, s, d, LastLive(a, start, log, d));
      match LastLive(a, start, log, d)
      case None =>
      case Some((schema, fields)) =>
        var version :| IsVersion(a, schema, fields, version) && VisiblePostings(s, d) == FreshPostings(d, version);
        FreshPostingsHave(d, version, t);
        VersionMentions(a, schema, fields, version, t);
    }
  }

  // --- Adding a version --------------------------------------------------------

  lemma RecordKeepsOthers(b: Buffer, d: DocId, token: Token, e: DocId)
    requires e != d
    ensures DocumentPostings(Record(b, d, token), e) == DocumentPostings(b, e)
  {
  }

  lemma {:induction false} RecordAllKeepsOthers(b: Buffer, d: DocId, tokens: seq<Token>, e: DocId)
    requires e != d
    ensures DocumentPostings(RecordAll(b, d, tokens), e) == DocumentPostings(b, e)
    decreases |tokens|
  {
    if tokens != [] {
      RecordAllKeepsOthers(b, d, tokens[..|tokens| - 1], e);
      RecordKeepsOthers(RecordAll(b, d, tokens[..|tokens| - 1]), d, tokens[|tokens| - 1], e);
    }
  }

  lemma WithoutKeepsOthers(b: Buffer, d: DocId, e: DocId)
    ensures e != d ==> DocumentPostings(Without(b, d), e) == DocumentPostings(b, e)
    ensures DocumentPostings(Without(b, d), d) == map[]
  {
    if e != d {
      forall t | t in b && e in b[t] ensures e in b[t] - {d} {
      }
    }
  }

  lemma AddedKeepsOthers(s: State, d: DocId, tokens: seq<Token>, e: DocId)
    requires e != d
    ensures DocumentPostings(Added(s, d, tokens).buffer, e) == DocumentPostings(s.buffer, e)
    ensures e in Added(s, d, tokens).tombstones <==> e in s.tombstones
  {
    hide DocumentPostings, RecordAll, Without;
    RecordAllKeepsOthers(Cleared(s, d).buffer, d, tokens, e);
    WithoutKeepsOthers(s.buffer, d, e);
  }

  lemma {:induction false} AddedAllKeeps(s: State, d: DocId, version: seq<seq<Token>>, e: DocId)
    requires WellFormed(s)
    ensures WellFormed(AddedAll(s, d, version))
    ensures AddedAll(s, d, version).segments == s.segments
    ensures e != d ==> VisiblePostings(AddedAll(s, d, version), e) == VisiblePostings(s, e)
    decreases |version|
  {
    hide WellFormed, DocumentPostings;
    if version != [] {
      var init, last := version[..|version| - 1], version[|version| - 1];
      AddedAllKeeps(s, d, init, e);
      AddedIsWellFormed(AddedAll(s, d, init), d, last);
      if e != d {
        AddedKeepsOthers(AddedAll(s, d, init), d, last, e);
      }
    }
  }

  /** The index once the version that the store holds, if any, is deleted. */
  function Retired(s: State, store: Store, id: DocId): State {
    if id in store then Deleted(s, id) else s
  }

  lemma NoPostingsLeft(s: State, d: DocId)
    requires WellFormed(s) && VisiblePostings(s, d) == map[]
    ensures DocumentPostings(Cleared(s, d).buffer, d) == map[]
  {
    WithoutKeepsOthers(s.buffer, d, d);
    if d in s.tombstones && d !in s.bufferDocs {
      assert forall t :: Has(s.buffer, t, d) ==> d in s.bufferDocs;
      assert DocumentPostings(s.buffer, d) == map[];
    }
  }

  /** Indexing one version during an unflushed replay: the document gets its postings alone, others keep theirs. */
  lemma ReplayIndexes(s: State, store: Store, d: DocId, version: seq<seq<Token>>, e: DocId)
    requires ReplayState(s, store)
    ensures var s' := AddedAll(Retired(s, store, d), d, version);
            && WellFormed(s') && s'.segments == []
            && VisiblePostings(s', e) == if e == d then FreshPostings(d, version) else VisiblePostings(s, e)
  {
    var gone := Retired(s, store, d);
    AddedAllKeeps(gone, d, version, e);
    if e == d {
      if version == [] {
        assert FreshPostings(d, version) == map[];
      } else {
        AddedAllBuffer(gone, d, version);
        NoPostingsLeft(gone, d);
        hide DocumentPostings, RecordAll, Cleared, Flatten, WellFormed;
        assert DocumentPostings(map[], d) == map[] by { NoDocument(d); }
        RecordAllOfDocument(Cleared(gone, d).buffer, map[], d, Flatten(version));
      }
    }
  }

  lemma NoDocument(d: DocId)
    ensures DocumentPostings(map[], d) == map[]
  {
  }

  // --- The engine as the program keeps it --------------------------------------

  /**
   * A version was indexed, with or without flushes on the way. Segments are only ever appended
   * by a flush, so an unchanged list means that nothing was flushed.
   */
  ghost predicate IndexedVersion(before: State, now: State, id: DocId, version: seq<seq<Token>>) {
    && WellFormed(now)
    && before.segments <= now.segments
    && (now.segments == before.segments ==> now == AddedAll(before, id, version))
    && (forall t :: Mentions(Flatten(version), t) ==> Finds(now, t, id))
    && (forall t :: HasPosting(now, t, id) ==> HasPosting(before, t, id) || Mentions(Flatten(version), t))
    && (forall t, e :: e != id ==> (Finds(now, t, e) <==> Finds(before, t, e)))
    && (forall e :: e != id ==> (e in now.tombstones <==> e in before.tombstones))
  }

  lemma NothingIndexed(s: State, id: DocId)
    requires WellFormed(s)
    ensures IndexedVersion(s, s, id, [])
  {
  }

  /** One field more, whether or not it makes the index flush. */
  lemma FieldIndexed(before: State, s: State, now: State, id: DocId, version: seq<seq<Token>>, tokens: seq<Token>)
    requires IndexedVersion(before, s, id, version) && WellFormed(now)
    requires now == Added(s, id, tokens) || now == Flushed(Added(s, id, tokens))
    ensures IndexedVersion(before, now, id, version + [tokens])
  {
    hide WellFormed, Finds, Mentions;
    var version' := version + [tokens];
    assert version'[..|version|] == version && version'[|version|] == tokens;
    assert |before.segments| <= |s.segments|;
    forall t ensures Mentions(Flatten(version'), t) ==> Finds(now, t, id) {
      MentionsConcat(Flatten(version), tokens, t);
      AddedFinds(s, id, tokens, t, id);
    }
    forall t | HasPosting(now, t, id) ensures HasPosting(before, t, id) || Mentions(Flatten(version'), t) {
      MentionsConcat(Flatten(version), tokens, t);
      AddedHas(s, id, tokens, t, id);
      FlushedHas(Added(s, id, tokens), t, id);
    }
    forall t, e | e != id ensures Finds(now, t, e) <==> Finds(before, t, e) {
      AddedFinds(s, id, tokens, t, e);
    }
  }

  /** What indexing a version means for searches, term by term. */
  lemma VersionMeans(a: Analysis, schema: Schema, fields: Fields, version: seq<seq<Token>>, before: State, now: State,
                     id: DocId)
    requires IsVersion(a, schema, fields, version) && IndexedVersion(before, now, id, version)
    ensures var after := SchemaAfterDocument(a, schema, fields);
            && (forall name <- fields, w | after[name].index && after[name].kind == Text
                                           && w in a.analyze(fields[name].value) ::
                  Finds(now, name + ":" + w.term, id))
            && (forall name <- fields | after[name].index && after[name].kind !in {Text, Skip} ::
                  Finds(now, name + ":" + fields[name].value, id))
            && (forall t | HasPosting(now, t, id) && !HasPosting(before, t, id) ::
                  exists name <- fields ::
                    && after[name].index && after[name].kind != Skip
                    && if after[name].kind == Text
                       then exists w <- a.analyze(fields[name].value) :: t == name + ":" + w.term
                       else t == name + ":" + fields[name].value)
            && (forall t, e | e != id :: Finds(now, t, e) <==> Finds(before, t, e))
  {
    hide IsVersion, IndexedUnder, Mentions, Finds, HasPosting, SchemaAfterDocument, Flatten, WellFormed;
    forall t ensures Mentions(Flatten(version), t) <==> IndexedUnder(a, schema, fields, t) {
      VersionMentions(a, schema, fields, version, t);
    }
    forall t {
      TermsOfDocument(a, schema, fields, t);
    }
  }

  /** All that an engine keeps. */
  datatype Kept = Kept(wal: Log, schema: Schema, index: State, store: Store)

  class Engine {
    const index: Index
    var store: Store
    var wal: Log
    var schema: Schema
    const analysis: Analysis

    constructor (analysis: Analysis, store: Store, schema: Schema, flushSize: nat, maxTokens: nat)
      requires InfersNoSkip(analysis) && SchemaValid(analysis, schema)
      ensures Valid() && index.Now() == EMPTY && Follows(schema, store)
      ensures fresh(index) && fresh(index.trie) && fresh(index.trie.at.Values)
      ensures this.store == store && wal == [] && this.schema == schema && this.analysis == analysis
    {
      hide Led, WellFormed, KnowsTerms, T.Trie.Valid, InfersNoSkip, SchemaValid, Dropped;
      index := new Index(flushSize, maxTokens);
      this.store, wal, this.schema := store, [], schema;
      this.analysis := analysis;
      new;
      StartsLed(analysis, schema, store);
    }

    ghost predicate Valid()
      reads this, index, index.trie, index.trie.at.Values
    {
      InfersNoSkip(analysis) && SchemaValid(analysis, schema) && index.Valid()
    }

    ghost function All(): Kept
      reads this, index
    {
      Kept(wal, schema, index.Now(), store)
    }

    /** The engine is where the logged operations lead from the given schema and store, with an empty index. */
    ghost predicate Follows(start: Schema, store0: Store)
      reads this, index
    {
      Led(analysis, start, store0, All())
    }

    method IndexInternal(id: DocId, fields: Fields) returns (ghost version: seq<seq<Token>>)
      requires Valid()
      modifies this`store, this`schema, index, index.trie, index.trie.at.Values
      ensures fresh(index.trie.at.Values - old(index.trie.at.Values))
      ensures Valid() && Dropped(schema) == Dropped(old(schema))
      ensures schema == SchemaAfterDocument(analysis, old(schema), fields)
      ensures IsVersion(analysis, old(schema), fields, version)
      ensures IndexedVersion(old(index.Now()), index.Now(), id, version)
      ensures store == old(store)[id := fields - Dropped(schema)]
      ensures schema.Keys == old(schema).Keys + fields.Keys
      ensures forall name <- old(schema).Keys - fields.Keys :: schema[name] == old(schema)[name]
      ensures forall name <- fields | name !in old(schema) ::
                schema[name] == FieldMapping(analysis.infer(fields[name].value), true, true, false)
      ensures forall name <- fields | name in old(schema) ::
                schema[name] == if !old(schema)[name].isExplicit
                                   && old(schema)[name].kind != analysis.infer(fields[name].value)
                                then FieldMapping(Text, true, true, false) else old(schema)[name]
      ensures store == old(store)[id := map name | name in fields && schema[name].kind != Skip && schema[name].store ::
                                          fields[name]]
      ensures forall name <- fields, w | schema[name].index && schema[name].kind == Text
                                         && w in analysis.analyze(fields[name].value) ::
                Finds(index.Now(), name + ":" + w.term, id)
      ensures forall name <- fields | schema[name].index && schema[name].kind !in {Text, Skip} ::
                Finds(index.Now(), name + ":" + fields[name].value, id)
      ensures forall t | HasPosting(index.Now(), t, id) && !HasPosting(old(index.Now()), t, id) ::
                exists name <- fields ::
                  && schema[name].index && schema[name].kind != Skip
                  && if schema[name].kind == Text
                     then exists w <- analysis.analyze(fields[name].value) :: t == name + ":" + w.term
                     else t == name + ":" + fields[name].value
      ensures forall t, e | e != id :: Finds(index.Now(), t, e) <==> Finds(old(index.Now()), t, e)
    {
      hide IsVersion, SchemaAfterDocument, Dropped, Resolve, FieldTokens, SchemaValid, IndexedVersion, WellFormed,
           KnowsTerms, T.Trie.Valid, Finds, HasPosting, InfersNoSkip;
      SchemaOfDocument(analysis, schema, fields);
      StoredOfDocument(analysis, schema, fields);
      version := [];
      var document: Fields := map[];
      ghost var before, index0 := schema, index.Now();
      ghost var kept := SchemaAfterDocument(analysis, before, fields);
      ResolveKeepsDropped(analysis, before, fields);
      var todo := fields.Keys;
      NoFields(analysis, before, fields);
      ghost var dropped := Dropped(kept);
      NothingIndexed(index0, id);
      while todo != {}
        invariant todo <= fields.Keys
        invariant schema == SchemaAfterDocument(analysis, before, fields - todo)
        invariant index.Valid() && fresh(index.trie.at.Values - old(index.trie.at.Values))
        invariant IndexedVersion(index0, index.Now(), id, version)
        invariant IsVersion(analysis, before, fields - todo, version)
        invariant document == fields - todo - dropped
        invariant store == old(store)
      {
        var name :| name in todo;
        var field := fields[name];
        var fm := Resolve(analysis, schema, name, field.value);
        SchemaStep(analysis, before, fields, todo, name);
        DocumentStep(analysis, before, fields, todo, name, dropped);
        schema := schema[name := fm];
        OneMoreField(analysis, before, fields, todo, name, version);
        todo := todo - {name};
        if fm.kind == Skip {
          continue;
        }
        if fm.store {
          document := document[name := field];
        }
        if fm.index {
          version := AddField(id, name, field.value, fm, index0, version);
        }
      }
      assert fields - todo == fields;
      store := store[id := document];
      VersionMeans(analysis, before, fields, version, index0, index.Now(), id);
    }

    /** A text is analysed; every other type is one term. */
    method AddField(id: DocId, name: string, value: string, fm: FieldMapping, ghost before: State,
                    ghost version: seq<seq<Token>>)
      returns (ghost version': seq<seq<Token>>)
      requires index.Valid() && fm.kind != Skip && IndexedVersion(before, index.Now(), id, version)
      modifies index, index.trie, index.trie.at.Values
      ensures fresh(index.trie.at.Values - old(index.trie.at.Values))
      ensures version' == version + [FieldTokens(analysis, fm, name, value)]
      ensures index.Valid() && IndexedVersion(before, index.Now(), id, version')
    {
      hide IndexedVersion, WellFormed, Added, Flushed, KnowsTerms, T.Trie.Valid;
      ghost var s := index.Now();
      version' := version + [FieldTokens(analysis, fm, name, value)];
      if fm.kind == Text {
        index.Add(id, analysis.analyze(value), Some(name));
      } else {
        index.AddRaw(id, name, value);
      }
      FieldIndexed(before, s, index.Now(), id, version, FieldTokens(analysis, fm, name, value));
    }

    /**
     * `crashes` are the logs and stores the process may die with, one after each step. The log comes
     * first, so a replay of it is able to finish the operation.
     */
    method Index(id: DocId, fields: Fields) returns (ok: bool, ghost crashes: seq<(Log, Store)>)
      requires Valid()
      modifies this, index, index.trie, index.trie.at.Values
      ensures fresh(index.trie.at.Values - old(index.trie.at.Values))
      ensures Valid() && ok == (id != "")
      ensures !ok ==> index.Now() == old(index.Now()) && store == old(store) && wal == old(wal) && schema == old(schema)
      ensures ok ==>
        && wal == old(wal) + [LogIndex(id, fields)]
        && store == StoreStep(old(store), LogIndex(id, fields), Dropped(old(schema)))
        && schema == SchemaAfterDocument(analysis, old(schema), fields) && Dropped(schema) == Dropped(old(schema))
        && exists version :: IsVersion(analysis, old(schema), fields, version)
             && IndexedVersion(Retired(old(index.Now()), old(store), id), index.Now(), id, version)
      ensures forall t, e | e != id :: Finds(index.Now(), t, e) <==> Finds(old(index.Now()), t, e)
      ensures ok ==> crashes == [(wal, old(store)), (wal, old(store) - {id}), (wal, store)]
      ensures StaysLed(analysis, old(All()), All(), crashes)
    {
      hide IsVersion, IndexedVersion, WellFormed, SchemaAfterDocument, SchemaAfter, StoreAfter, Dropped, ReplayedSoFar,
           KnowsTerms, InfersNoSkip, SchemaValid, T.Trie.Valid, Finds, HasPosting, StoreStep, StaysLed;
      ghost var all0, s0, schema0 := All(), index.Now(), schema;
      crashes := [];
      if id == "" {
        NothingDone(analysis, all0);
        return false, crashes;
      }
      wal := wal + [LogIndex(id, fields)];
      ghost var store0 := store;
      crashes := [(wal, store)];
      if id in store {
        index.Delete(id);
        store := store - {id};
      }
      crashes := crashes + [(wal, store)];
      RetiringFinds(s0, store0, id);
      ghost var version := IndexInternal(id, fields);
      crashes := crashes + [(wal, store)];
      StoreReplaced(store0, id, fields, Dropped(schema));
      assert store0 - {id} == if id in store0 then store0 - {id} else store0;
      IndexedIsLed(analysis, all0, id, fields, version, All(), crashes);
      ok := true;
    }

    method DeleteInternal(id: DocId)
      requires index.Valid()
      modifies this`store, index
      ensures index.Valid() && index.Now() == Deleted(old(index.Now()), id) && store == old(store) - {id}
      ensures forall t, e :: Finds(index.Now(), t, e) <==> e != id && Finds(old(index.Now()), t, e)
    {
      hide WellFormed, KnowsTerms, T.Trie.Valid;
      DeletedFinds(index.Now(), id);
      hide Finds;
      index.Delete(id);
      store := store - {id};
    }

    method Delete(id: DocId) returns (ghost crashes: seq<(Log, Store)>)
      requires Valid()
      modifies this, index
      ensures store == old(store) - {id} && crashes == [(wal, old(store)), (wal, store)]
      ensures forall t, e :: Finds(index.Now(), t, e) <==> e != id && Finds(old(index.Now()), t, e)
      ensures Valid() && schema == old(schema) && wal == old(wal) + [LogDelete(id)]
      ensures store == StoreStep(old(store), LogDelete(id), Dropped(schema))
      ensures index.Now() == Deleted(old(index.Now()), id)
      ensures StaysLed(analysis, old(All()), All(), crashes)
    {
      hide WellFormed, SchemaAfter, StoreAfter, Dropped, ReplayedSoFar, KnowsTerms, InfersNoSkip, SchemaValid,
           T.Trie.Valid, StaysLed, Finds;
      ghost var all0 := All();
      wal := wal + [LogDelete(id)];
      crashes := [(wal, store)];
      DeleteInternal(id);
      crashes := crashes + [(wal, store)];
      DeletedIsLed(analysis, all0, id, crashes);
    }

    method ReplayWAL(log: Log)
      requires Valid()
      modifies this`store, this`schema, index, index.trie, index.trie.at.Values
      ensures fresh(index.trie.at.Values - old(index.trie.at.Values))
      ensures Valid() && Dropped(schema) == Dropped(old(schema))
      ensures schema == SchemaAfter(analysis, old(schema), log)
      ensures store == Replayed(old(store), log, Dropped(schema))
      ensures old(index.Now()) == EMPTY ==>
                FindsLive(analysis, old(schema), log, index.Now()) && HidesDeleted(log, index.Now())
      ensures old(index.Now()) == EMPTY && index.Now().segments == [] ==>
                && HoldsLastVersions(analysis, old(schema), log, index.Now())
                && FindsLastVersions(analysis, old(schema), log, index.Now())
    {
      hide ReplayedSoFar, WellFormed, Dropped, StoreAfter, SchemaAfter, InfersNoSkip, SchemaValid, KnowsTerms,
           T.Trie.Valid,
           HoldsLastVersions, FindsLastVersions, FindsLive, HidesDeleted;
      ghost var start, store0, index0 := schema, store, index.Now();
      ghost var dropped := Dropped(schema);
      ghost var all := RestoredLog(log);
      assert log[..0] == [] && all[..0] == [];
      ReplayStarts(analysis, start, store, dropped, index0);
      for i := 0 to |log|
        invariant Valid() && Dropped(schema) == dropped
        invariant fresh(index.trie.at.Values - old(index.trie.at.Values))
        invariant schema == SchemaAfter(analysis, start, log[..i])
        invariant store == StoreAfter(store0, all[..i], dropped)
        invariant index0 == EMPTY ==> ReplayedSoFar(analysis, start, log[..i], index.Now(), store)
      {
        LogGrows(analysis, start, store0, log, i, dropped);
        ReplayEntry(log[i], start, log[..i], index0);
      }
      assert log[..|log|] == log && all[..|log|] == all;
      if index0 == EMPTY {
        ReplayEnds(analysis, start, log, index.Now(), store);
      }
    }

    /** One entry handed over by the log reader. */
    method ReplayEntry(e: LogEntry, ghost start: Schema, ghost log: Log, ghost index0: State)
      requires Valid() && schema == SchemaAfter(analysis, start, log)
      requires index0 == EMPTY ==> ReplayedSoFar(analysis, start, log, index.Now(), store)
      modifies this`store, this`schema, index, index.trie, index.trie.at.Values
      ensures fresh(index.trie.at.Values - old(index.trie.at.Values))
      ensures Valid() && Dropped(schema) == Dropped(old(schema))
      ensures schema == if e.LogIndex? then SchemaAfterDocument(analysis, old(schema), e.fields) else old(schema)
      ensures store == StoreStep(old(store), Restored(e), Dropped(schema))
      ensures index0 == EMPTY ==> ReplayedSoFar(analysis, start, log + [e], index.Now(), store)
    {
      hide ReplayedSoFar, IndexedVersion, IsVersion, WellFormed, Dropped, SchemaAfterDocument, SchemaAfter,
           InfersNoSkip, SchemaValid, EntryToFields, KnowsTerms, T.Trie.Valid;
      ghost var s, store0 := index.Now(), store;
      match e
      case LogIndex(id, raw) =>
        var fields := EntryToFields(raw);
        OnlyValuesMatter(analysis, schema, raw);
        if id in store {
          DeleteInternal(id);
        }
        ghost var version := IndexInternal(id, fields);
        StoreReplaced(store0, id, fields, Dropped(schema));
        if index0 == EMPTY {
          VersionReplayed(analysis, start, log, s, store0, id, raw, version, index.Now(), store);
        }
      case LogDelete(id) =>
        DeleteInternal(id);
        if index0 == EMPTY {
          DeleteReplayed(analysis, start, log, s, store0, id);
        }
    }
  }

  lemma DeletedFinds(s: State, id: DocId)
    ensures forall t, e :: Finds(Deleted(s, id), t, e) <==> e != id && Finds(s, t, e)
  {
  }

  lemma RetiringFinds(s: State, store: Store, id: DocId)
    ensures forall t, e | e != id :: Finds(Retired(s, store, id), t, e) <==> Finds(s, t, e)
  {
  }

  /** Once an entry is logged, the store before it, without its document, and after it are those of a crash. */
  lemma CrashesAreReplayed(store0: Store, log: Log, e: LogEntry, dropped: set<string>, c: Store)
    requires var s := StoreAfter(store0, log, dropped); c == s || c == s - {e.id} || c == StoreStep(s, e, dropped)
    ensures CrashedIn(store0, log + [e], dropped, c)
  {
    hide StoreStep;
    var all, s := log + [e], StoreAfter(store0, log, dropped);
    assert all[..|log|] == log && all[..|log| + 1] == all;
    if c == s || c == s - {e.id} {
      assert CrashStore(store0, all, |log|, dropped, c);
    } else {
      assert CrashStore(store0, all, |log| + 1, dropped, c);
    }
  }

  /** Schema, index and store are where the log leads. */
  ghost predicate Led(a: Analysis, start: Schema, store0: Store, k: Kept) {
    && k.schema == SchemaAfter(a, start, k.wal) && Dropped(k.schema) == Dropped(start)
    && k.store == StoreAfter(store0, k.wal, Dropped(start))
    && ReplayedSoFar(a, start, k.wal, k.index, k.store)
  }

  /**
   * Wherever the log led before from, it leads now, and each of the given logs and stores is that of an
   * engine that died in some operation of the log.
   */
  ghost predicate StaysLed(a: Analysis, before: Kept, now: Kept, crashes: seq<(Log, Store)>) {
    forall start, store0 | Led(a, start, store0, before) ::
      Led(a, start, store0, now) && AllRecover(start, store0, crashes)
  }

  lemma StartsLed(a: Analysis, start: Schema, store: Store)
    ensures Led(a, start, store, Kept([], start, EMPTY, store))
  {
    hide Dropped, ReplayedSoFar;
    ReplayStarts(a, start, store, Dropped(start), EMPTY);
  }

  lemma NothingDone(a: Analysis, k: Kept)
    ensures StaysLed(a, k, k, [])
  {
    hide Led;
  }

  /** An indexed version follows its log entry, and so do the stores on the way there. */
  lemma IndexedIsLed(a: Analysis, k: Kept, id: DocId, fields: Fields, version: seq<seq<Token>>, k': Kept,
                     crashes: seq<(Log, Store)>)
    requires IsVersion(a, k.schema, fields, version)
    requires IndexedVersion(Retired(k.index, k.store, id), k'.index, id, version)
    requires k'.wal == k.wal + [LogIndex(id, fields)]
    requires k'.schema == SchemaAfterDocument(a, k.schema, fields) && Dropped(k'.schema) == Dropped(k.schema)
    requires k'.store == StoreStep(k.store, LogIndex(id, fields), Dropped(k.schema))
    requires crashes == [(k'.wal, k.store), (k'.wal, k.store - {id}), (k'.wal, k'.store)]
    ensures StaysLed(a, k, k', crashes)
  {
    hide IsVersion, IndexedVersion, SchemaAfterDocument, SchemaAfter, StoreAfter, Dropped, ReplayedSoFar, CrashedIn;
    forall start, store0 | Led(a, start, store0, k)
      ensures Led(a, start, store0, k') && AllRecover(start, store0, crashes)
    {
      LogGrowsBy(a, start, store0, k.wal, LogIndex(id, fields), Dropped(start));
      VersionReplayed(a, start, k.wal, k.index, k.store, id, fields, version, k'.index, k'.store);
      CrashesAreReplayed(store0, k.wal, LogIndex(id, fields), Dropped(start), k.store);
      CrashesAreReplayed(store0, k.wal, LogIndex(id, fields), Dropped(start), k.store - {id});
      CrashesAreReplayed(store0, k.wal, LogIndex(id, fields), Dropped(start), k'.store);
    }
  }

  lemma DeletedIsLed(a: Analysis, k: Kept, id: DocId, crashes: seq<(Log, Store)>)
    requires var wal := k.wal + [LogDelete(id)]; crashes == [(wal, k.store), (wal, k.store - {id})]
    ensures StaysLed(a, k, Kept(k.wal + [LogDelete(id)], k.schema, Deleted(k.index, id), k.store - {id}), crashes)
  {
    hide SchemaAfter, StoreAfter, Dropped, ReplayedSoFar, CrashedIn;
    var k' := Kept(k.wal + [LogDelete(id)], k.schema, Deleted(k.index, id), k.store - {id});
    forall start, store0 | Led(a, start, store0, k)
      ensures Led(a, start, store0, k') && AllRecover(start, store0, crashes)
    {
      LogGrowsBy(a, start, store0, k.wal, LogDelete(id), Dropped(start));
      DeleteReplayed(a, start, k.wal, k.index, k.store, id);
      CrashesAreReplayed(store0, k.wal, LogDelete(id), Dropped(start), k.store);
      CrashesAreReplayed(store0, k.wal, LogDelete(id), Dropped(start), k.store - {id});
    }
  }

  /** Every one of the stores is that of an engine that died in some operation of its log. */
  ghost predicate AllRecover(start: Schema, store0: Store, crashes: seq<(Log, Store)>) {
    forall c <- crashes :: CrashedIn(store0, c.0, Dropped(start), c.1)
  }

  /** The store of an engine that died in some operation of the log. */
  ghost predicate CrashedIn(store0: Store, log: Log, dropped: set<string>, c: Store) {
    exists k: nat :: k <= |log| && CrashStore(store0, log, k, dropped, c)
  }

  /** What a replay into an empty index has achieved so far; more as long as nothing was flushed. */
  ghost predicate ReplayedSoFar(a: Analysis, start: Schema, log: Log, s: State, store: Store) {
    && FindsLive(a, start, log, s) && HidesDeleted(log, s)
    && (s.segments == [] ==> ReplayState(s, store) && HoldsLastVersions(a, start, log, s))
  }

  lemma ReplayStarts(a: Analysis, start: Schema, store: Store, dropped: set<string>, index0: State)
    ensures SchemaAfter(a, start, []) == start && StoreAfter(store, [], dropped) == store
    ensures index0 == EMPTY ==> ReplayedSoFar(a, start, [], index0, store)
  {
    assert forall d :: VisiblePostings(EMPTY, d) == map[];
  }

  lemma ReplayEnds(a: Analysis, start: Schema, log: Log, s: State, store: Store)
    requires ReplayedSoFar(a, start, log, s, store)
    ensures FindsLive(a, start, log, s) && HidesDeleted(log, s)
    ensures s.segments == [] ==> HoldsLastVersions(a, start, log, s) && FindsLastVersions(a, start, log, s)
  {
    if s.segments == [] {
      HeldIsFound(a, start, log, s);
    }
  }

  lemma LogGrowsBy(a: Analysis, start: Schema, store: Store, log: Log, e: LogEntry, dropped: set<string>)
    ensures SchemaAfter(a, start, log + [e])
            == var before := SchemaAfter(a, start, log);
               if e.LogIndex? then SchemaAfterDocument(a, before, e.fields) else before
    ensures StoreAfter(store, log + [e], dropped) == StoreStep(StoreAfter(store, log, dropped), e, dropped)
  {
    hide SchemaAfterDocument, StoreStep;
    assert (log + [e])[..|log|] == log;
  }

  lemma LogGrows(a: Analysis, start: Schema, store: Store, log: Log, i: nat, dropped: set<string>)
    requires i < |log|
    ensures log[..i + 1] == log[..i] + [log[i]]
    ensures SchemaAfter(a, start, log[..i + 1])
            == var before := SchemaAfter(a, start, log[..i]);
               if log[i].LogIndex? then SchemaAfterDocument(a, before, log[i].fields) else before
    ensures StoreAfter(store, RestoredLog(log)[..i + 1], dropped)
            == StoreStep(StoreAfter(store, RestoredLog(log)[..i], dropped), Restored(log[i]), dropped)
  {
    hide SchemaAfterDocument, StoreStep;
    var all := RestoredLog(log);
    assert log[..i + 1][..i] == log[..i] && all[..i + 1][..i] == all[..i];
  }

  lemma NoFields(a: Analysis, schema: Schema, fields: Fields)
    ensures fields - fields.Keys == map[]
    ensures IsVersion(a, schema, fields - fields.Keys, [])
    ensures SchemaAfterDocument(a, schema, fields - fields.Keys) == schema
  {
    assert fields - fields.Keys == map[];
    assert IndexedFields(a, schema, map[]) == {};
    assert ListsNames([], {}) && VersionIn(a, schema, map[], []) == [];
  }

  /** Only field values decide how a document is indexed. */
  lemma OnlyValuesMatter(a: Analysis, schema: Schema, fields: Fields)
    ensures SchemaAfterDocument(a, schema, EntryToFields(fields)) == SchemaAfterDocument(a, schema, fields)
    ensures forall version :: IsVersion(a, schema, EntryToFields(fields), version) ==>
            IsVersion(a, schema, fields, version)
  {
    hide TokensOf, Resolve, Indexes;
    var raw := EntryToFields(fields);
    assert raw.Keys == fields.Keys && forall name <- fields :: raw[name].value == fields[name].value;
    assert IndexedFields(a, schema, raw) == IndexedFields(a, schema, fields);
    forall version | IsVersion(a, schema, raw, version) ensures IsVersion(a, schema, fields, version) {
      var order :| ListsNames(order, IndexedFields(a, schema, raw)) && version == VersionIn(a, schema, raw, order);
      forall name | name in order ensures TokensOf(a, schema, raw, name) == TokensOf(a, schema, fields, name) {
        SameTokens(a, schema, raw, fields, name);
      }
      assert version == VersionIn(a, schema, fields, order);
    }
  }

  lemma SameTokens(a: Analysis, schema: Schema, x: Fields, y: Fields, name: string)
    requires name in x && name in y && x[name].value == y[name].value
    ensures TokensOf(a, schema, x, name) == TokensOf(a, schema, y, name)
  {
  }

  lemma StoreReplaced(s: Store, id: DocId, fields: Fields, dropped: set<string>)
    ensures (s - {id})[id := fields - dropped] == s[id := fields - dropped]
            == StoreStep(s, LogIndex(id, fields), dropped)
  {
  }

  lemma LogMore(a: Analysis, start: Schema, log: Log, e: LogEntry, d: DocId)
    ensures LastLive(a, start, log + [e], d)
            == if e.id != d then LastLive(a, start, log, d)
               else if e.LogIndex? then Some((SchemaAfter(a, start, log), e.fields)) else None
    ensures LastEntry(log + [e], d) == if e.id == d then Some(e) else LastEntry(log, d)
  {
    assert (log + [e])[..|log|] == log;
  }

  lemma VersionReplayed(a: Analysis, start: Schema, log: Log, s: State, store: Store, id: DocId, fields: Fields,
                        version: seq<seq<Token>>, s': State, store': Store)
    requires ReplayedSoFar(a, start, log, s, store)
    requires IsVersion(a, SchemaAfter(a, start, log), fields, version)
    requires IndexedVersion(Retired(s, store, id), s', id, version)
    requires store'.Keys == store.Keys + {id}
    ensures ReplayedSoFar(a, start, log + [LogIndex(id, fields)], s', store')
  {
    hide IsVersion, EntryToFields, IndexedUnder, LastLive, LastEntry, AddedAll, WellFormed, ReplayState,
         HoldsLastVersions;
    var log' := log + [LogIndex(id, fields)];
    forall t, d | LiveTerm(a, start, log', t, d) ensures Finds(s', t, d) {
      LogMore(a, start, log, LogIndex(id, fields), d);
      if d == id {
        VersionMentions(a, SchemaAfter(a, start, log), fields, version, t);
      } else {
        assert LiveTerm(a, start, log, t, d);
        assert Finds(Retired(s, store, id), t, d) <==> Finds(s, t, d);
      }
    }
    forall d | DeletedLast(log', d) ensures d in s'.tombstones {
      LogMore(a, start, log, LogIndex(id, fields), d);
      assert DeletedLast(log, d);
    }
    if s'.segments == [] {
      UnflushedVersion(a, start, log, s, store, id, fields, version, s', store');
    }
  }

  lemma UnflushedVersion(a: Analysis, start: Schema, log: Log, s: State, store: Store, id: DocId, fields: Fields,
                         version: seq<seq<Token>>, s': State, store': Store)
    requires ReplayState(s, store) && HoldsLastVersions(a, start, log, s)
    requires IsVersion(a, SchemaAfter(a, start, log), fields, version)
    requires s' == AddedAll(Retired(s, store, id), id, version)
    requires store'.Keys == store.Keys + {id}
    ensures ReplayState(s', store') && HoldsLastVersions(a, start, log + [LogIndex(id, fields)], s')
  {
    hide IsVersion, LastLive, AddedAll, WellFormed, VisiblePostings, FreshPostings, HoldsVersion;
    ReplayIndexes(s, store, id, version, id);
    forall d ensures HoldsVersion(a, s', d, LastLive(a, start, log + [LogIndex(id, fields)], d)) {
      UnflushedOne(a, start, log, s, store, id, fields, version, d);
    }
    forall d | VisiblePostings(s', d) != map[] ensures d in store' {
      ReplayIndexes(s, store, id, version, d);
    }
  }

  lemma UnflushedOne(a: Analysis, start: Schema, log: Log, s: State, store: Store, id: DocId, fields: Fields,
                     version: seq<seq<Token>>, d: DocId)
    requires ReplayState(s, store) && HoldsVersion(a, s, d, LastLive(a, start, log, d))
    requires IsVersion(a, SchemaAfter(a, start, log), fields, version)
    ensures HoldsVersion(a, AddedAll(Retired(s, store, id), id, version), d,
                         LastLive(a, start, log + [LogIndex(id, fields)], d))
  {
    hide IsVersion, LastLive, AddedAll, WellFormed, VisiblePostings, FreshPostings, Retired;
    LogMore(a, start, log, LogIndex(id, fields), d);
    ReplayIndexes(s, store, id, version, d);
  }

  lemma DeleteReplayed(a: Analysis, start: Schema, log: Log, s: State, store: Store, id: DocId)
    requires ReplayedSoFar(a, start, log, s, store)
    ensures ReplayedSoFar(a, start, log + [LogDelete(id)], Deleted(s, id), store - {id})
  {
    hide LastLive, LastEntry, IsVersion, IndexedUnder, FreshPostings, DocumentPostings;
    var log', s' := log + [LogDelete(id)], Deleted(s, id);
    forall t, d | LiveTerm(a, start, log', t, d) ensures Finds(s', t, d) {
      LogMore(a, start, log, LogDelete(id), d);
      assert LiveTerm(a, start, log, t, d);
    }
    forall d | DeletedLast(log', d) ensures d in s'.tombstones {
      LogMore(a, start, log, LogDelete(id), d);
      assert d != id ==> DeletedLast(log, d);
    }
    if s.segments == [] {
      forall d ensures HoldsVersion(a, s', d, LastLive(a, start, log', d)) {
        LogMore(a, start, log, LogDelete(id), d);
        assert HoldsVersion(a, s, d, LastLive(a, start, log, d));
        assert d != id ==> VisiblePostings(s', d) == VisiblePostings(s, d);
      }
    }
  }

  /** An unflushed run and an unflushed replay of its log answer every search alike. */
  lemma LiveAndRecoveredAgree(a: Analysis, start: Schema, log: Log, live: State, recovered: State)
    requires HoldsLastVersions(a, start, log, live) && live.segments == []
    requires HoldsLastVersions(a, start, log, recovered) && recovered.segments == []
    ensures forall t, d :: Finds(live, t, d) <==> Finds(recovered, t, d)
  {
    hide Finds, LiveTerm, HoldsLastVersions;
    HeldIsFound(a, start, log, live);
    HeldIsFound(a, start, log, recovered);
  }

  /** Recovery after a crash: a fresh engine over the surviving store, and the log replayed into it. */
  method Recover(analysis: Analysis, survived: Store, schema: Schema, log: Log, flushSize: nat, maxTokens: nat)
    returns (e: Engine)
    requires InfersNoSkip(analysis) && SchemaValid(analysis, schema)
    ensures fresh(e) && e.Valid()
    ensures forall s, k: nat :: k <= |log| && CrashStore(s, log, k, Dropped(schema), survived) ==>
              StoredValues(e.store) == StoredValues(StoreAfter(s, log, Dropped(schema)))
    ensures FindsLive(analysis, schema, log, e.index.Now()) && HidesDeleted(log, e.index.Now())
    ensures e.index.Now().segments == [] ==>
              HoldsLastVersions(analysis, schema, log, e.index.Now())
                  && FindsLastVersions(analysis, schema, log, e.index.Now())
  {
    e := new Engine(analysis, survived, schema, flushSize, maxTokens);
    e.ReplayWAL(log);
    hide StoreAfter, Dropped, FindsLastVersions, HoldsLastVersions, FindsLive, HidesDeleted, StoredValues, CrashStore,
         SchemaValid, InfersNoSkip, WellFormed;
    forall s, k: nat | k <= |log| && CrashStore(s, log, k, Dropped(schema), survived)
      ensures StoredValues(e.store) == StoredValues(StoreAfter(s, log, Dropped(schema)))
    {
      RedoIsIdempotent(s, log, k, Dropped(schema), survived);
    }
  }

  lemma OneMoreField(a: Analysis, schema: Schema, fields: Fields, todo: set<string>, name: string,
                     version: seq<seq<Token>>)
    requires name in todo && name in fields
    requires IsVersion(a, schema, fields - todo, version)
    ensures var fm := Resolve(a, schema, name, fields[name].value);
            var version' := if Indexes(fm) then version + [FieldTokens(a, fm, name, fields[name].value)] else version;
            IsVersion(a, schema, fields - (todo - {name}), version')
  {
    hide Resolve, Indexes, FieldTokens, IndexedFields, VersionIn, ListsNames;
    var before, field := fields - todo, fields[name];
    assert fields - (todo - {name}) == before[name := field] && name !in before;
    var order := VersionOrder(a, schema, before, version);
    IndexedWith(a, schema, before, name, field);
    ListsWith(order, IndexedFields(a, schema, before), name);
    VersionWith(a, schema, before, order, name, field);
  }

  lemma VersionOrder(a: Analysis, schema: Schema, fields: Fields, version: seq<seq<Token>>) returns (order: seq<string>)
    requires IsVersion(a, schema, fields, version)
    ensures ListsNames(order, IndexedFields(a, schema, fields)) && forall name <- order :: name in fields
    ensures version == VersionIn(a, schema, fields, order)
  {
    order :| ListsNames(order, IndexedFields(a, schema, fields)) && version == VersionIn(a, schema, fields, order);
  }

  lemma IndexedWith(a: Analysis, schema: Schema, before: Fields, name: string, field: Field)
    requires name !in before
    ensures IndexedFields(a, schema, before[name := field])
            == IndexedFields(a, schema, before)
               + (if Indexes(Resolve(a, schema, name, field.value)) then {name} else {})
    ensures name !in IndexedFields(a, schema, before)
    ensures forall n <- IndexedFields(a, schema, before) :: n in before
  {
    hide Resolve, Indexes;
  }

  lemma ListsWith(order: seq<string>, names: set<string>, name: string)
    requires ListsNames(order, names) && name !in names
    ensures ListsNames(order + [name], names + {name}) && ListsNames(order, names + {})
    ensures forall n <- order :: n in names
  {
  }

  lemma VersionWith(a: Analysis, schema: Schema, before: Fields, order: seq<string>, name: string, field: Field)
    requires name !in before && forall n <- order :: n in before
    ensures var now := before[name := field];
            && VersionIn(a, schema, now, order) == VersionIn(a, schema, before, order)
            && VersionIn(a, schema, now, order + [name])
               == VersionIn(a, schema, before, order)
                  + [FieldTokens(a, Resolve(a, schema, name, field.value), name, field.value)]
  {
    hide Resolve, FieldTokens;
    var now := before[name := field];
    assert forall i :: 0 <= i < |order| ==> order[i] in order;
    assert forall n <- order + [name] :: n in now;
  }

  lemma ResolveReadsOneField(a: Analysis, x: Schema, y: Schema, name: string, value: string)
    requires (name in x <==> name in y) && (name in x ==> x[name] == y[name])
    ensures Resolve(a, x, name, value) == Resolve(a, y, name, value)
  {
  }

  /** Fields resolve independently of each other. */
  lemma SchemaStep(a: Analysis, schema: Schema, fields: Fields, todo: set<string>, name: string)
    requires name in todo && name in fields
    ensures var fm := Resolve(a, schema, name, fields[name].value);
            var sofar := SchemaAfterDocument(a, schema, fields - todo);
            && Resolve(a, sofar, name, fields[name].value) == fm
            && sofar[name := fm] == SchemaAfterDocument(a, schema, fields - (todo - {name}))
  {
    hide Resolve;
    var before, now := fields - todo, fields - (todo - {name});
    ResolveReadsOneField(a, schema, SchemaAfterDocument(a, schema, before), name, fields[name].value);
    assert now == before[name := fields[name]];
    ResolvedMore(a, schema, before, name, fields[name]);
  }

  lemma ResolvedMore(a: Analysis, schema: Schema, fields: Fields, name: string, field: Field)
    ensures SchemaAfterDocument(a, schema, fields[name := field])
            == SchemaAfterDocument(a, schema, fields)[name := Resolve(a, schema, name, field.value)]
  {
    hide Resolve;
  }

  /** What one field adds to the stored document. */
  lemma DocumentStep(a: Analysis, schema: Schema, fields: Fields, todo: set<string>, name: string, dropped: set<string>)
    requires name in todo && name in fields
    requires dropped == Dropped(SchemaAfterDocument(a, schema, fields))
    ensures fields - (todo - {name}) - dropped
            == if Stores(Resolve(a, schema, name, fields[name].value))
                then (fields - todo - dropped)[name := fields[name]]
               else fields - todo - dropped
  {
    hide Resolve;
    assert SchemaAfterDocument(a, schema, fields)[name] == Resolve(a, schema, name, fields[name].value);
    assert name in dropped <==> !Stores(Resolve(a, schema, name, fields[name].value));
    hide Stores, Dropped, SchemaAfterDocument;
  }

  lemma MentionsConcat(x: seq<Token>, y: seq<Token>, t: Term)
    ensures Mentions(x + y, t) <==> Mentions(x, t) || Mentions(y, t)
  {
    if Mentions(x, t) {
      var i :| 0 <= i < |x| && x[i].term == t;
      assert (x + y)[i] == x[i];
    }
    if Mentions(y, t) {
      var i :| 0 <= i < |y| && y[i].term == t;
      assert (x + y)[|x| + i] == y[i];
    }
  }
}
