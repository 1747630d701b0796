/**
 * The append-only log of storage/local/local.go: records on disk, the in-memory
 * offset index, recovery by scanning, and compaction.
 */
module LogStore {
  import opened Bytes
  import opened Wrappers

  const HEADER_SIZE := 9
  const TYPE_PUT: byte := 1
  const TYPE_DELETE: byte := 2

  // --- Records -----------------------------------------------------------------

  datatype Header = Header(kind: byte, keyLen: nat, valLen: nat)

  function EncodeHeader(h: Header): (buf: bytes)
    ensures |buf| == HEADER_SIZE
  {
    [h.kind] + PutUint32(h.keyLen) + PutUint32(h.valLen)
  }

  function DecodeHeader(buf: bytes): (h: Header)
    requires |buf| == HEADER_SIZE
    ensures h.keyLen < U32_LIMIT && h.valLen < U32_LIMIT
  {
    Header(buf[0], Uint32(buf[1..5]), Uint32(buf[5..9]))
  }

  /** The 32-bit length fields are exact on precisely the lengths that fit them. */
  lemma HeaderRoundTrip(h: Header)
    ensures DecodeHeader(EncodeHeader(h)) == h <==> h.keyLen < U32_LIMIT && h.valLen < U32_LIMIT
  {
    hide PutUint32, Uint32;
    var buf := EncodeHeader(h);
    assert buf[1..5] == PutUint32(h.keyLen) && buf[5..9] == PutUint32(h.valLen);
    Uint32RoundTrip(h.keyLen);
    Uint32RoundTrip(h.valLen);
  }

  /** A kind byte and two lengths, each in four bytes with the most significant first. */
  predicate IsHeader(buf: bytes, kind: byte, keyLen: nat, valLen: nat) {
    && |buf| == 9 && buf[0] == kind
    && (keyLen < U32_LIMIT ==>
          buf[1] as int * 0x1000000 + buf[2] as int * 0x10000 + buf[3] as int * 0x100 + buf[4] as int == keyLen)
    && (valLen < U32_LIMIT ==>
          buf[5] as int * 0x1000000 + buf[6] as int * 0x10000 + buf[7] as int * 0x100 + buf[8] as int == valLen)
  }

  lemma HeaderBytes(h: Header)
    ensures IsHeader(EncodeHeader(h), h.kind, h.keyLen, h.valLen)
  {
    hide PutUint32;
    Uint32RoundTrip(h.keyLen);
    Uint32RoundTrip(h.valLen);
    var buf := EncodeHeader(h);
    assert buf[1..5] == PutUint32(h.keyLen) && buf[5..9] == PutUint32(h.valLen);
  }

  datatype Record = Put(key: Blob, value: Blob) | Delete(key: Blob)
  {
    function Head(): Header {
      if Put? then Header(TYPE_PUT, |key|, |value|) else Header(TYPE_DELETE, |key|, 0)
    }

    function Encode(): bytes {
      EncodeHeader(Head()) + key + (if Put? then value else [])
    }

    function Size(): nat {
      HEADER_SIZE + |key| + (if Put? then |value| else 0)
    }
  }

  function EncodeLog(log: seq<Record>): bytes {
    if log == [] then [] else EncodeLog(log[..|log| - 1]) + log[|log| - 1].Encode()
  }

  // --- The store as a value ----------------------------------------------------

  datatype Entry = Entry(offset: nat, size: nat)

  type Index = map<bytes, Entry>

  datatype State = State(file: bytes, entries: Index)

  function HeaderAt(file: bytes, offset: nat): (h: Header)
    requires offset + HEADER_SIZE <= |file|
    ensures h.keyLen < U32_LIMIT && h.valLen < U32_LIMIT
  {
    DecodeHeader(file[offset..offset + HEADER_SIZE])
  }

  /** `e` points at a put record for `key` whose header and key are on disk. */
  predicate PointsAtPut(file: bytes, e: Entry, key: bytes) {
    && e.offset + HEADER_SIZE + |key| <= |file|
    && e.size >= HEADER_SIZE + |key|
    && HeaderAt(file, e.offset) == Header(TYPE_PUT, |key|, e.size - HEADER_SIZE - |key|)
    && file[e.offset + HEADER_SIZE..e.offset + HEADER_SIZE + |key|] == key
  }

  predicate WellIndexed(s: State) {
    forall key <- s.entries :: PointsAtPut(s.file, s.entries[key], key)
  }

  /** The whole record, value included, lies inside the file. */
  predicate OnDisk(file: bytes, e: Entry) {
    e.offset + e.size <= |file|
  }

  predicate Apart(e: Entry, f: Entry) {
    e.offset + e.size <= f.offset || f.offset + f.size <= e.offset
  }

  /** Entries of different keys occupy disjoint byte ranges. */
  predicate Disjoint(entries: Index) {
    forall k <- entries, l <- entries :: k != l ==> Apart(entries[k], entries[l])
  }

  function ValueAt(file: bytes, e: Entry, key: bytes): Blob
    requires PointsAtPut(file, e, key) && OnDisk(file, e)
  {
    ValueLengthFits(file, e, key);
    file[e.offset + HEADER_SIZE + |key|..e.offset + e.size]
  }

  lemma ValueLengthFits(file: bytes, e: Entry, key: bytes)
    requires PointsAtPut(file, e, key) && OnDisk(file, e)
    ensures e.size - HEADER_SIZE - |key| < U32_LIMIT
  {
  }

  /** What the store says: the map that `Get` reads. */
  function View(s: State): map<Blob, Blob>
    requires WellIndexed(s)
  {
    map key: Blob | key in s.entries && OnDisk(s.file, s.entries[key]) :: ValueAt(s.file, s.entries[key], key)
  }

  // --- Transitions -------------------------------------------------------------

  function Indexed(entries: Index, r: Record, offset: nat): Index {
    if r.Put? then entries[r.key := Entry(offset, r.Size())] else entries - {r.key}
  }

  function Appended(s: State, r: Record): State {
    State(s.file + r.Encode(), Indexed(s.entries, r, |s.file|))
  }

  function WrittenBy(log: seq<Record>): State {
    if log == [] then State([], map[]) else Appended(WrittenBy(log[..|log| - 1]), log[|log| - 1])
  }

  /** The scan of the log from `offset` on, as `loadEntries` runs it. */
  function Load(file: bytes, offset: nat, entries: Index): Index
    decreases if offset <= |file| then |file| - offset else 0
  {
    if offset + HEADER_SIZE > |file| then entries
    else
      var h := HeaderAt(file, offset);
      if offset + HEADER_SIZE + h.keyLen > |file| then entries
      else
        var key := file[offset + HEADER_SIZE..offset + HEADER_SIZE + h.keyLen];
        var size := HEADER_SIZE + h.keyLen + h.valLen;
        Load(file, offset + size,
             if h.kind == TYPE_PUT then entries[key := Entry(offset, size)] else entries - {key})
  }

  function Reopened(file: bytes): State {
    State(file, Load(file, 0, map[]))
  }

  function Rewrites(view: map<Blob, Blob>, order: seq<Blob>): seq<Record>
    requires forall key <- order :: key in view
  {
    seq(|order|, i requires 0 <= i < |order| => Put(order[i], view[order[i]]))
  }

  predicate Lists(order: seq<Blob>, keys: set<Blob>) {
    && (forall i, j :: 0 <= i < j < |order| ==> order[i] != order[j])
    && (forall key <- order :: key in keys)
    && (forall key <- keys :: key in order)
  }

  /** A compaction writes one put per readable key, in whatever order the map iterates. */
  ghost predicate Compacted(s: State, s': State)
    requires WellIndexed(s)
  {
    exists order :: Lists(order, View(s).Keys) && s' == WrittenBy(Rewrites(View(s), order))
  }

  // --- The store as the program keeps it ---------------------------------------

  class Store {
    var file: bytes
    var entries: Index

    ghost function Now(): State
      reads this
    {
      State(file, entries)
    }

    ghost predicate Valid()
      reads this
    {
      WellIndexed(Now())
    }

    /** `New` on a path that holds `disk`. */
    constructor (disk: bytes)
      ensures Valid() && Now() == Reopened(disk)
    {
      file := disk;
      entries := map[];
      new;
      LoadIsWellIndexed(disk, 0, map[]);
      LoadEntries();
    }

    method LoadEntries()
      requires entries == map[]
      modifies this`entries
      ensures Now() == Reopened(file)
    {
      var offset := 0;
      while offset + HEADER_SIZE <= |file|
        invariant Load(file, offset, entries) == Load(file, 0, map[])
        decreases |file| - offset
      {
        var header := DecodeHeader(file[offset..offset + HEADER_SIZE]);
        if offset + HEADER_SIZE + header.keyLen > |file| {
          break;
        }
        var key := file[offset + HEADER_SIZE..offset + HEADER_SIZE + header.keyLen];
        var size := HEADER_SIZE + header.keyLen + header.valLen;
        if header.kind == TYPE_PUT {
          entries := entries[key := Entry(offset, size)];
        } else {
          entries := entries - {key};
        }
        offset := offset + size;
      }
    }

    /** A key or value too long for its length field is written all the same, under a header that misdescribes it. */
    method Put(key: bytes, value: bytes)
      modifies this
      ensures file == old(file) + EncodeHeader(Header(TYPE_PUT, |key|, |value|)) + key + value
      ensures entries == old(entries)[key := Entry(|old(file)|, HEADER_SIZE + |key| + |value|)]
      ensures old(Valid()) ==> (Valid() <==> |key| < U32_LIMIT && |value| < U32_LIMIT)
      ensures |key| < U32_LIMIT && |value| < U32_LIMIT ==> Now() == Appended(old(Now()), Record.Put(key, value))
      ensures |file| == |old(file)| + 9 + |key| + |value| && file[|old(file)| + 9..] == key + value
      ensures IsHeader(file[|old(file)|..|old(file)| + 9], 1, |key|, |value|)
    {
      hide EncodeHeader, WellIndexed, IsHeader;
      HeaderBytes(Header(TYPE_PUT, |key|, |value|));
      ghost var s := Now();
      var offset := |file|;
      file := file + EncodeHeader(Header(TYPE_PUT, |key|, |value|));
      file := file + key;
      file := file + value;
      entries := entries[key := Entry(offset, HEADER_SIZE + |key| + |value|)];
      assert file[offset..offset + 9] == EncodeHeader(Header(TYPE_PUT, |key|, |value|));
      if |key| < U32_LIMIT && |value| < U32_LIMIT {
        WritesOfPut(s, key, value);
        if WellIndexed(s) {
          PutIsWellIndexed(s, Record.Put(key, value));
        }
      } else {
        OversizedPut(s.file, key, value, Now());
      }
    }

    method Delete(key: bytes)
      modifies this
      ensures file == old(file) + EncodeHeader(Header(TYPE_DELETE, |key|, 0)) + key
      ensures entries == old(entries) - {key}
      ensures old(Valid()) ==> Valid()
      ensures |key| < U32_LIMIT ==> Now() == Appended(old(Now()), Record.Delete(key))
      ensures |file| == |old(file)| + 9 + |key| && file[|old(file)| + 9..] == key
      ensures IsHeader(file[|old(file)|..|old(file)| + 9], 2, |key|, 0)
    {
      hide EncodeHeader, WellIndexed, IsHeader;
      HeaderBytes(Header(TYPE_DELETE, |key|, 0));
      ghost var s := Now();
      file := file + EncodeHeader(Header(TYPE_DELETE, |key|, 0));
      file := file + key;
      entries := entries - {key};
      ghost var tail := EncodeHeader(Header(TYPE_DELETE, |key|, 0)) + key;
      assert file == s.file + tail;
      if WellIndexed(s) {
        WellIndexedExtends(s, tail);
        FewerAreWellIndexed(State(file, s.entries), key);
      }
    }

    method Get(key: bytes) returns (value: Option<Blob>)
      requires Valid()
      ensures value == if key in View(Now()) then Some(View(Now())[key]) else None
      ensures value.Some? <==> key in entries && entries[key].offset + entries[key].size <= |file|
      ensures value.Some? ==>
                var e := entries[key];
                9 + |key| <= e.size && value.value == file[e.offset + 9 + |key|..e.offset + e.size]
    {
      hide DecodeHeader, PointsAtPut, WellIndexed, View, ValueAt;
      ViewMeans(Now(), key);
      if key !in entries {
        return None;
      }
      var e := entries[key];
      if e.offset + e.size > |file| {
        return None;
      }
      var buf := file[e.offset..e.offset + e.size];
      assert PointsAtPut(file, e, key) by { IndexedPoints(Now(), key); }
      ReadRecord(file, e, key);
      ReadKeyIsViewed(Now(), key);
      var header := DecodeHeader(buf[..HEADER_SIZE]);
      var valueOffset := HEADER_SIZE + header.keyLen;
      var v := buf[valueOffset..valueOffset + header.valLen];
      if header.kind != TYPE_PUT {
        return None;
      }
      value := Some(v);
    }

    method Compact()
      requires Valid()
      modifies this
      ensures Valid() && Compacted(old(Now()), Now())
    {
      var newFile: bytes := [];
      var newEntries: Index := map[];
      var offset := 0;
      ghost var view := View(Now());
      ghost var order: seq<Blob> := [];
      var todo := entries.Keys;
      while todo != {}
        invariant todo <= entries.Keys
        invariant Lists(order, view.Keys - todo)
        invariant State(newFile, newEntries) == WrittenBy(Rewrites(view, order))
        invariant offset == |newFile|
        invariant Now() == old(Now())
        modifies {}
      {
        var key :| key in todo;
        var found := Get(key);
        ListsOneMore(order, view.Keys, todo, key);
        todo := todo - {key};
        if found == None {
          continue;
        }
        var value := found.value;
        RewriteOneMore(view, order, key);
        WritesOfPut(State(newFile, newEntries), key, value);
        order := order + [key];
        newFile := newFile + EncodeHeader(Header(TYPE_PUT, |key|, |value|));
        newFile := newFile + key;
        newFile := newFile + value;
        newEntries := newEntries[key := Entry(offset, HEADER_SIZE + |key| + |value|)];
        offset := offset + (HEADER_SIZE + |key| + |value|);
      }
      assert view.Keys - todo == view.Keys;
      LogIsWellIndexed(Rewrites(view, order));
      file := newFile;
      entries := newEntries;
    }
  }

  /** What `Get` reads of a record that is wholly on disk. */
  lemma ReadRecord(file: bytes, e: Entry, key: bytes)
    requires PointsAtPut(file, e, key) && OnDisk(file, e)
    ensures var buf := file[e.offset..e.offset + e.size];
            && |buf| == e.size && HEADER_SIZE + |key| <= e.size
            && DecodeHeader(buf[..HEADER_SIZE]) == Header(TYPE_PUT, |key|, e.size - HEADER_SIZE - |key|)
            && buf[HEADER_SIZE + |key|..e.size] == ValueAt(file, e, key)
  {
    hide DecodeHeader;
    assert file[e.offset..e.offset + e.size][..HEADER_SIZE] == file[e.offset..e.offset + HEADER_SIZE];
  }

  lemma IndexedPoints(s: State, key: bytes)
    requires WellIndexed(s) && key in s.entries
    ensures PointsAtPut(s.file, s.entries[key], key)
  {
  }

  lemma ViewMeans(s: State, key: bytes)
    requires WellIndexed(s)
    ensures key in View(s) <==> key in s.entries && OnDisk(s.file, s.entries[key])
    ensures key in View(s) ==>
              var e := s.entries[key];
              9 + |key| <= e.size && View(s)[key] == s.file[e.offset + 9 + |key|..e.offset + e.size]
  {
    if key in s.entries {
      assert PointsAtPut(s.file, s.entries[key], key);
    }
  }

  lemma ReadKeyIsViewed(s: State, key: bytes)
    requires WellIndexed(s) && key in s.entries && OnDisk(s.file, s.entries[key])
    ensures key in View(s) && View(s)[key] == ValueAt(s.file, s.entries[key], key)
  {
    assert PointsAtPut(s.file, s.entries[key], key);
  }

  lemma FewerAreWellIndexed(s: State, key: bytes)
    requires WellIndexed(s)
    ensures WellIndexed(State(s.file, s.entries - {key}))
  {
  }

  /** A put that does not fit its length fields leaves an entry that points at no put of its size. */
  lemma OversizedPut(before: bytes, key: bytes, value: bytes, s: State)
    requires |key| >= U32_LIMIT || |value| >= U32_LIMIT
    requires s.file == before + EncodeHeader(Header(TYPE_PUT, |key|, |value|)) + key + value
    requires key in s.entries && s.entries[key] == Entry(|before|, HEADER_SIZE + |key| + |value|)
    ensures !WellIndexed(s)
  {
    hide EncodeHeader, DecodeHeader;
    var h := Header(TYPE_PUT, |key|, |value|);
    assert s.file[|before|..|before| + HEADER_SIZE] == EncodeHeader(h);
    HeaderRoundTrip(h);
    assert HeaderAt(s.file, |before|) != h;
    assert !PointsAtPut(s.file, s.entries[key], key);
  }

  lemma ListsOneMore(order: seq<Blob>, keys: set<Blob>, todo: set<bytes>, key: bytes)
    requires Lists(order, keys - todo) && key in todo
    ensures key in keys ==> Lists(order + [key], keys - (todo - {key}))
    ensures key !in keys ==> Lists(order, keys - (todo - {key}))
  {
    if key !in keys {
      assert keys - (todo - {key}) == keys - todo;
    }
  }

  /** The three writes of a put amount to one record behind the log. */
  lemma WritesOfPut(s: State, key: Blob, value: Blob)
    ensures Appended(s, Put(key, value)) ==
            State(s.file + EncodeHeader(Header(TYPE_PUT, |key|, |value|)) + key + value,
                  s.entries[key := Entry(|s.file|, HEADER_SIZE + |key| + |value|)])
  {
    assert s.file + Put(key, value).Encode()
           == s.file + EncodeHeader(Header(TYPE_PUT, |key|, |value|)) + key + value;
  }

  lemma RewriteOneMore(view: map<Blob, Blob>, order: seq<Blob>, key: Blob)
    requires key in view && forall k <- order :: k in view
    ensures Rewrites(view, order + [key]) == Rewrites(view, order) + [Put(key, view[key])]
    ensures WrittenBy(Rewrites(view, order + [key])) ==
            Appended(WrittenBy(Rewrites(view, order)), Put(key, view[key]))
  {
    var before, after := Rewrites(view, order), Rewrites(view, order + [key]);
    assert after == before + [Put(key, view[key])];
    assert after[..|after| - 1] == before;
  }

  // --- Every index points at records -------------------------------------------

  /** Records already on disk are not disturbed by bytes behind them. */
  lemma PointsAtPutExtends(file: bytes, tail: bytes, e: Entry, key: bytes)
    requires PointsAtPut(file, e, key)
    ensures PointsAtPut(file + tail, e, key)
    ensures OnDisk(file, e) ==> ValueAt(file + tail, e, key) == ValueAt(file, e, key)
  {
    var o := e.offset;
    assert (file + tail)[o..o + HEADER_SIZE] == file[o..o + HEADER_SIZE];
    assert (file + tail)[o + HEADER_SIZE..o + HEADER_SIZE + |key|] == file[o + HEADER_SIZE..o + HEADER_SIZE + |key|];
    if OnDisk(file, e) {
      assert (file + tail)[o + HEADER_SIZE + |key|..o + e.size] == file[o + HEADER_SIZE + |key|..o + e.size];
    }
  }

  lemma WellIndexedExtends(s: State, tail: bytes)
    requires WellIndexed(s)
    ensures WellIndexed(State(s.file + tail, s.entries))
  {
    forall key <- s.entries ensures PointsAtPut(s.file + tail, s.entries[key], key) {
      PointsAtPutExtends(s.file, tail, s.entries[key], key);
    }
  }

  lemma EncodeSize(r: Record)
    ensures |r.Encode()| == r.Size()
  {
  }

  /** A record read back at the offset where it was written. */
  lemma RecordAt(before: bytes, r: Record, after: bytes)
    ensures |r.Encode()| == r.Size()
    ensures var file := before + r.Encode() + after;
            && HeaderAt(file, |before|) == r.Head()
            && file[|before| + HEADER_SIZE..|before| + HEADER_SIZE + |r.key|] == r.key
            && (r.Put? ==> file[|before| + HEADER_SIZE + |r.key|..|before| + r.Size()] == r.value)
  {
    var value := if r.Put? then r.value else [];
    var file := before + r.Encode() + after;
    assert file == before + EncodeHeader(r.Head()) + r.key + value + after;
    assert file[|before|..|before| + HEADER_SIZE] == EncodeHeader(r.Head());
    HeaderRoundTrip(r.Head());
  }

  lemma PutIsWellIndexed(s: State, r: Record)
    requires WellIndexed(s) && r.Put?
    ensures WellIndexed(Appended(s, r))
    ensures var e := Entry(|s.file|, r.Size());
            var file := Appended(s, r).file;
            PointsAtPut(file, e, r.key) && OnDisk(file, e) && ValueAt(file, e, r.key) == r.value
  {
    WellIndexedExtends(s, r.Encode());
    RecordAt(s.file, r, []);
    assert s.file + r.Encode() + [] == s.file + r.Encode();
    assert PointsAtPut(Appended(s, r).file, Entry(|s.file|, r.Size()), r.key);
  }

  lemma DeleteIsWellIndexed(s: State, r: Record)
    requires WellIndexed(s) && r.Delete?
    ensures WellIndexed(Appended(s, r))
  {
    WellIndexedExtends(s, r.Encode());
  }

  lemma AppendIsWellIndexed(s: State, r: Record)
    requires WellIndexed(s)
    ensures WellIndexed(Appended(s, r))
  {
    if r.Put? { PutIsWellIndexed(s, r); } else { DeleteIsWellIndexed(s, r); }
  }

  lemma {:induction false} LogIsWellIndexed(log: seq<Record>)
    ensures WellIndexed(WrittenBy(log)) && WrittenBy(log).file == EncodeLog(log)
  {
    if log != [] {
      LogIsWellIndexed(log[..|log| - 1]);
      AppendIsWellIndexed(WrittenBy(log[..|log| - 1]), log[|log| - 1]);
    }
  }

  /** Whatever bytes the file holds, a scan only indexes put records that are there. */
  lemma {:induction false} LoadIsWellIndexed(file: bytes, offset: nat, entries: Index)
    requires WellIndexed(State(file, entries))
    ensures WellIndexed(State(file, Load(file, offset, entries)))
    decreases if offset <= |file| then |file| - offset else 0
  {
    hide HeaderAt, DecodeHeader;
    if offset + HEADER_SIZE <= |file| {
      var h := HeaderAt(file, offset);
      if offset + HEADER_SIZE + h.keyLen <= |file| {
        var key := file[offset + HEADER_SIZE..offset + HEADER_SIZE + h.keyLen];
        var size := HEADER_SIZE + h.keyLen + h.valLen;
        var entries' := if h.kind == TYPE_PUT then entries[key := Entry(offset, size)] else entries - {key};
        LoadIsWellIndexed(file, offset + size, entries');
      }
    }
  }

  /** The scan also gives every key its own stretch of the file. */
  lemma {:induction false} LoadIsDisjoint(file: bytes, offset: nat, entries: Index)
    requires Disjoint(entries) && forall key <- entries :: entries[key].offset + entries[key].size <= offset
    ensures Disjoint(Load(file, offset, entries))
    decreases if offset <= |file| then |file| - offset else 0
  {
    hide HeaderAt, DecodeHeader;
    if offset + HEADER_SIZE <= |file| {
      var h := HeaderAt(file, offset);
      if offset + HEADER_SIZE + h.keyLen <= |file| {
        var key := file[offset + HEADER_SIZE..offset + HEADER_SIZE + h.keyLen];
        var size := HEADER_SIZE + h.keyLen + h.valLen;
        var entries' := if h.kind == TYPE_PUT then entries[key := Entry(offset, size)] else entries - {key};
        LoadIsDisjoint(file, offset + size, entries');
      }
    }
  }

  // --- The file format, byte by byte -------------------------------------------

  /** Opening literal bytes: kind one puts, and any other kind takes the key out again. */
  lemma OpeningBytes(key: bytes, value: bytes, kind: byte)
    requires |key| < 256 && |value| < 256
    ensures var file := [1, 0, 0, 0, |key|, 0, 0, 0, |value|] + key + value
                        + ([kind, 0, 0, 0, |key|, 0, 0, 0, 0] + key);
            Reopened(file).entries
            == if kind == 1 then map[key := Entry(9 + |key| + |value|, 9 + |key|)] else map[]
  {
    hide Load, HeaderAt;
    var first := [1, 0, 0, 0, |key|, 0, 0, 0, |value|] + key + value;
    var second := [kind, 0, 0, 0, |key|, 0, 0, 0, 0] + key;
    assert first[9..9 + |key|] == key && second[9..9 + |key|] == key;
    PutThenOther(first, second, key, |value|, kind);
  }

  lemma PutThenOther(first: bytes, second: bytes, key: bytes, valLen: nat, kind: byte)
    requires |key| < 256 && valLen < 256 && |first| == 9 + |key| + valLen && |second| == 9 + |key|
    requires first[..9] == [1, 0, 0, 0, |key|, 0, 0, 0, valLen] && first[9..9 + |key|] == key
    requires second[..9] == [kind, 0, 0, 0, |key|, 0, 0, 0, 0] && second[9..9 + |key|] == key
    ensures Reopened(first + second).entries == if kind == 1 then map[key := Entry(|first|, |second|)] else map[]
  {
    hide Load, HeaderAt;
    var file, put, again := first + second, map[key := Entry(0, |first|)], map[key := Entry(|first|, |second|)];
    assert [] + first + second == file && first + second + [] == file;
    LoadBytes([], first, 1, key, valLen, second, map[]);
    LoadBytes(first, second, kind, key, 0, [], put);
    assert put[key := Entry(|first|, |second|)] == again && put - {key} == map[];
    LoadEnds(file, if kind == 1 then again else map[]);
  }

  lemma LoadEnds(file: bytes, entries: Index)
    ensures Load(file, |file|, entries) == entries
  {
  }

  /** One record of the scan, whatever stands before and behind it. */
  lemma LoadBytes(before: bytes, record: bytes, kind: byte, key: bytes, valLen: nat, after: bytes, entries: Index)
    requires |key| < 256 && valLen < 256 && |record| == 9 + |key| + valLen
    requires record[..9] == [kind, 0, 0, 0, |key|, 0, 0, 0, valLen] && record[9..9 + |key|] == key
    ensures Load(before + record + after, |before|, entries)
            == Load(before + record + after, |before| + |record|,
                    if kind == 1 then entries[key := Entry(|before|, |record|)] else entries - {key})
  {
    var file, o := before + record + after, |before|;
    assert file[o..o + 9] == record[..9] && file[o + 9..o + 9 + |key|] == record[9..9 + |key|];
    var head := record[..9];
    assert head[1..5] == [0, 0, 0, |key|] && head[5..9] == [0, 0, 0, valLen];
    assert HeaderAt(file, o) == Header(kind, |key|, valLen);
  }
}
