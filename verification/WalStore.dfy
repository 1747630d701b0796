/**
 * The document store over the write-ahead log: what a run without a crash stores, what a
 * replay restores of it, and why replaying over any half-done run is harmless.
 * From engine/snapshot.go, engine/mapping.go and wal/wal.go.
 */
module WalStore {
  import opened Wrappers
  import opened InvertedIndex

  // --- Documents and the log ---------------------------------------------------

  datatype Field = Field(value: string, boost: real, vector: Option<seq<real>>)

  type Fields = map<string, Field>
  type Store = map<DocId, Fields>

  datatype LogEntry = LogIndex(id: DocId, fields: Fields) | LogDelete(id: DocId)

  type Log = seq<LogEntry>

  /** What the log gives back of a field: its value, and zero for everything else. */
  function OnlyValue(f: Field): Field { Field(f.value, 0.0, None) }

  function EntryToFields(fields: Fields): Fields {
    map name | name in fields :: OnlyValue(fields[name])
  }

  // --- Schema ------------------------------------------------------------------

  datatype FieldType = Text | Keyword | Integer | Float | Boolean | Skip

  datatype FieldMapping = FieldMapping(kind: FieldType, index: bool, store: bool, isExplicit: bool)

  type Schema = map<string, FieldMapping>

  /** Type inference and text analysis, both given. */
  datatype Analysis = Analysis(infer: string -> FieldType, analyze: string -> seq<Token>)

  function Resolve(a: Analysis, schema: Schema, name: string, value: string): FieldMapping {
    if name !in schema then FieldMapping(a.infer(value), true, true, false)
    else if schema[name].isExplicit then schema[name]
    else if schema[name].kind != a.infer(value) then FieldMapping(Text, true, true, false)
    else schema[name]
  }

  function SchemaAfterDocument(a: Analysis, schema: Schema, fields: Fields): Schema {
    schema + map name | name in fields :: Resolve(a, schema, name, fields[name].value)
  }

  function SchemaAfter(a: Analysis, schema: Schema, log: Log): Schema {
    if log == [] then schema
    else
      var before := SchemaAfter(a, schema, log[..|log| - 1]);
      match log[|log| - 1]
      case LogIndex(_, fields) => SchemaAfterDocument(a, before, fields)
      case LogDelete(_) => before
  }

  predicate Stores(fm: FieldMapping) { fm.kind != Skip && fm.store }

  predicate Indexes(fm: FieldMapping) { fm.kind != Skip && fm.index }

  /** Fields the schema keeps out of the document store. */
  function Dropped(schema: Schema): set<string> {
    set name | name in schema && !Stores(schema[name])
  }

  /** Inferred mappings store everything, and inference never yields a skip. */
  predicate SchemaValid(a: Analysis, schema: Schema) {
    forall name <- schema :: !schema[name].isExplicit ==> Stores(schema[name])
  }

  ghost predicate InfersNoSkip(a: Analysis) {
    forall value :: a.infer(value) != Skip
  }

  lemma ResolveKeepsDropped(a: Analysis, schema: Schema, fields: Fields)
    requires InfersNoSkip(a) && SchemaValid(a, schema)
    ensures SchemaValid(a, SchemaAfterDocument(a, schema, fields))
    ensures Dropped(SchemaAfterDocument(a, schema, fields)) == Dropped(schema)
  {
    var schema' := SchemaAfterDocument(a, schema, fields);
    forall name ensures name in Dropped(schema') <==> name in Dropped(schema) {
      if name in fields {
        assert schema'[name] == Resolve(a, schema, name, fields[name].value);
      }
    }
  }

  // --- The document store over a log -------------------------------------------

  function StoreStep(s: Store, e: LogEntry, dropped: set<string>): Store {
    match e
    case LogIndex(id, fields) => s[id := fields - dropped]
    case LogDelete(id) => s - {id}
  }

  /** A run without crashes. */
  function StoreAfter(s: Store, log: Log, dropped: set<string>): Store {
    if log == [] then s else StoreStep(StoreAfter(s, log[..|log| - 1], dropped), log[|log| - 1], dropped)
  }

  function Restored(e: LogEntry): LogEntry {
    match e
    case LogIndex(id, fields) => LogIndex(id, EntryToFields(fields))
    case LogDelete(_) => e
  }

  function RestoredLog(log: Log): Log {
    seq(|log|, i requires 0 <= i < |log| => Restored(log[i]))
  }

  /** A replay of the log over whatever the store holds. */
  function Replayed(s: Store, log: Log, dropped: set<string>): Store {
    StoreAfter(s, RestoredLog(log), dropped)
  }

  /** Field values, the part of a document the log restores. */
  function ValuesOf(fields: Fields): map<string, string> {
    map name | name in fields :: fields[name].value
  }

  function StoredValues(s: Store): map<DocId, map<string, string>> {
    map id | id in s :: ValuesOf(s[id])
  }

  predicate Names(log: Log, id: DocId) {
    exists i :: 0 <= i < |log| && log[i].id == id
  }

  /** The last entry naming `id` decides; `None` if no entry does. */
  function LastEntry(log: Log, id: DocId): Option<LogEntry> {
    if log == [] then None
    else if log[|log| - 1].id == id then Some(log[|log| - 1])
    else LastEntry(log[..|log| - 1], id)
  }

  lemma {:induction false} LastEntryDecides(s: Store, log: Log, dropped: set<string>, id: DocId)
    ensures var s' := StoreAfter(s, log, dropped);
            match LastEntry(log, id)
            case None => !Names(log, id) && (id in s' <==> id in s) && (id in s ==> s'[id] == s[id])
            case Some(LogIndex(i, fields)) => i == id && Names(log, id) && id in s' && s'[id] == fields - dropped
            case Some(LogDelete(i)) => i == id && Names(log, id) && id !in s'
    decreases |log|
  {
    if log != [] {
      var init, last := log[..|log| - 1], log[|log| - 1];
      LastEntryDecides(s, init, dropped, id);
      assert log == init + [last];
      assert Names(log, id) <==> Names(init, id) || last.id == id;
    }
  }

  lemma {:induction false} LastEntryRestored(log: Log, id: DocId)
    ensures LastEntry(RestoredLog(log), id)
            == match LastEntry(log, id)
               case None => None
               case Some(e) => Some(Restored(e))
    decreases |log|
  {
    if log != [] {
      LastEntryRestored(log[..|log| - 1], id);
      assert RestoredLog(log)[..|log| - 1] == RestoredLog(log[..|log| - 1]);
    }
  }

  /** Two stores read the same at the ids a log leaves alone. */
  predicate AgreeOutside(s: Store, c: Store, log: Log) {
    forall id <- s.Keys + c.Keys :: !Names(log, id) ==> id in s && id in c && ValuesOf(s[id]) == ValuesOf(c[id])
  }

  lemma ReplayRestoresOne(s: Store, c: Store, log: Log, dropped: set<string>, id: DocId)
    requires AgreeOutside(s, c, log)
    ensures var redo, live := Replayed(c, log, dropped), StoreAfter(s, log, dropped);
            && (id in redo <==> id in live)
            && (id in live ==> ValuesOf(redo[id]) == ValuesOf(live[id]))
  {
    hide StoreAfter, RestoredLog, Names;
    LastEntryDecides(s, log, dropped, id);
    LastEntryDecides(c, RestoredLog(log), dropped, id);
    LastEntryRestored(log, id);
    match LastEntry(log, id)
    case None => assert id in s <==> id in c;
    case Some(LogIndex(_, fields)) => assert ValuesOf(EntryToFields(fields) - dropped) == ValuesOf(fields - dropped);
    case Some(LogDelete(_)) =>
  }

  /**
   * Redo: a replay over any store that agrees outside the log gives every id the field
   * values of the run without a crash.
   */
  lemma ReplayRestoresValues(s: Store, c: Store, log: Log, dropped: set<string>)
    requires AgreeOutside(s, c, log)
    ensures StoredValues(Replayed(c, log, dropped)) == StoredValues(StoreAfter(s, log, dropped))
  {
    hide StoreAfter, Replayed;
    forall id
      ensures id in Replayed(c, log, dropped) <==> id in StoreAfter(s, log, dropped)
      ensures id in StoreAfter(s, log, dropped) ==>
                ValuesOf(Replayed(c, log, dropped)[id]) == ValuesOf(StoreAfter(s, log, dropped)[id])
    {
      ReplayRestoresOne(s, c, log, dropped, id);
    }
  }

  /**
   * The store when the engine dies during operation `k`, perhaps between removing the old version
   * and storing the new.
   */
  predicate CrashStore(s: Store, log: Log, k: nat, dropped: set<string>, c: Store)
    requires k <= |log|
  {
    var before := StoreAfter(s, log[..k], dropped);
    c == before || (k < |log| && c == before - {log[k].id})
  }

  lemma NamesPrefix(log: Log, k: nat, id: DocId)
    requires k <= |log|
    ensures Names(log[..k], id) ==> Names(log, id)
    ensures k < |log| ==> Names(log, log[k].id)
  {
    if Names(log[..k], id) {
      var i :| 0 <= i < k && log[..k][i].id == id;
      assert log[i].id == id;
    }
  }

  /** Replaying the whole log over the effects of any prefix of it, with one operation half done, completes the run. */
  lemma RedoIsIdempotent(s: Store, log: Log, k: nat, dropped: set<string>, c: Store)
    requires k <= |log| && CrashStore(s, log, k, dropped, c)
    ensures StoredValues(Replayed(c, log, dropped)) == StoredValues(StoreAfter(s, log, dropped))
  {
    hide StoreAfter, Names;
    forall id | id in s.Keys + c.Keys && !Names(log, id)
      ensures id in s && id in c && ValuesOf(s[id]) == ValuesOf(c[id])
    {
      LastEntryDecides(s, log[..k], dropped, id);
      NamesPrefix(log, k, id);
    }
    ReplayRestoresValues(s, c, log, dropped);
  }

  /** A replay interrupted anywhere, even inside one entry, and started over ends the same. */
  lemma ReplayTwice(s: Store, log: Log, k: nat, dropped: set<string>, c: Store)
    requires k <= |log| && CrashStore(s, RestoredLog(log), k, dropped, c)
    ensures StoredValues(Replayed(c, log, dropped)) == StoredValues(Replayed(s, log, dropped))
  {
    var again := RestoredLog(log);
    RedoIsIdempotent(s, again, k, dropped, c);
    assert RestoredLog(again) == again by {
      forall i | 0 <= i < |log| ensures Restored(again[i]) == again[i] {
        RestoredTwice(log[i]);
      }
    }
  }

  lemma RestoredTwice(e: LogEntry)
    ensures Restored(Restored(e)) == Restored(e)
  {
    if e.LogIndex? {
      assert EntryToFields(EntryToFields(e.fields)) == EntryToFields(e.fields);
    }
  }

  lemma RestoredFieldsIff(all: Fields, dropped: set<string>)
    ensures EntryToFields(all) - dropped == all - dropped
            <==> forall name <- all - dropped :: all[name].boost == 0.0 && all[name].vector == None
  {
    var raw, fields := EntryToFields(all) - dropped, all - dropped;
    assert raw.Keys == fields.Keys;
    forall name | name in fields
      ensures raw[name] == fields[name] <==> all[name].boost == 0.0 && all[name].vector == None
    {
      assert raw[name] == OnlyValue(all[name]);
    }
    if raw == fields {
      assert forall name <- fields :: raw[name] == fields[name];
    }
  }

  /** A replay restores a whole document exactly when no stored field of its last version had a boost or a vector. */
  lemma ReplayRestoresDocumentIff(s: Store, log: Log, dropped: set<string>, id: DocId)
    requires LastEntry(log, id).Some? && LastEntry(log, id).value.LogIndex?
    ensures var fields := LastEntry(log, id).value.fields;
            var redo, live := Replayed(s, log, dropped), StoreAfter(s, log, dropped);
            && id in redo && id in live
            && (redo[id] == live[id]
                <==> forall name <- fields - dropped :: fields[name].boost == 0.0 && fields[name].vector == None)
  {
    hide StoreAfter, EntryToFields, LastEntry, RestoredLog;
    LastEntryDecides(s, log, dropped, id);
    LastEntryDecides(s, RestoredLog(log), dropped, id);
    LastEntryRestored(log, id);
    RestoredFieldsIff(LastEntry(log, id).value.fields, dropped);
  }
}
