/**
 * What the log store promises over whole runs: it refines a map, it recovers from
 * any cut of its file, and compaction keeps its meaning without growing the file.
 */
module LogStoreRuns {
  import opened Bytes
  import opened LogStore
  import opened Sequences

  // --- A log means a map -------------------------------------------------------

  function Effect(m: map<Blob, Blob>, r: Record): map<Blob, Blob> {
    if r.Put? then m[r.key := r.value] else m - {r.key}
  }

  function Fold(log: seq<Record>): map<Blob, Blob> {
    if log == [] then map[] else Effect(Fold(log[..|log| - 1]), log[|log| - 1])
  }

  /** Nothing indexed reaches past the end of the file. */
  predicate Sealed(s: State) {
    forall key <- s.entries :: OnDisk(s.file, s.entries[key])
  }

  /** With one more record behind the log, another key reads as before unless its torn record is thereby filled up. */
  lemma AppendFrame(s: State, r: Record, key: Blob)
    requires WellIndexed(s) && key != r.key
    ensures WellIndexed(Appended(s, r))
    ensures (key in View(Appended(s, r)) <==> key in View(s))
            && (key in View(s) ==> View(Appended(s, r))[key] == View(s)[key])
            <==>
            !(key in s.entries && |s.file| < s.entries[key].offset + s.entries[key].size <= |s.file| + r.Size())
  {
    AppendIsWellIndexed(s, r);
    RecordAt(s.file, r, []);
    if key in s.entries {
      PointsAtPutExtends(s.file, r.Encode(), s.entries[key], key);
    }
  }

  /** Bytes behind a sealed store change none of its answers. */
  lemma ViewExtends(s: State, tail: bytes)
    requires WellIndexed(s) && Sealed(s)
    ensures var t := State(s.file + tail, s.entries); WellIndexed(t) && Sealed(t) && View(t) == View(s)
  {
    var t := State(s.file + tail, s.entries);
    forall key <- s.entries
      ensures PointsAtPut(t.file, s.entries[key], key) && OnDisk(t.file, s.entries[key])
      ensures ValueAt(t.file, s.entries[key], key) == ValueAt(s.file, s.entries[key], key)
    {
      PointsAtPutExtends(s.file, tail, s.entries[key], key);
    }
  }

  lemma IndexingEffect(s: State, key: Blob, e: Entry)
    requires WellIndexed(s) && PointsAtPut(s.file, e, key) && OnDisk(s.file, e)
    ensures WellIndexed(State(s.file, s.entries[key := e]))
    ensures View(State(s.file, s.entries[key := e])) == View(s)[key := ValueAt(s.file, e, key)]
  {
  }

  lemma UnindexingEffect(s: State, key: Blob)
    requires WellIndexed(s)
    ensures WellIndexed(State(s.file, s.entries - {key}))
    ensures View(State(s.file, s.entries - {key})) == View(s) - {key}
  {
  }

  lemma AppendEffect(s: State, r: Record)
    requires WellIndexed(s) && Sealed(s)
    ensures WellIndexed(Appended(s, r)) && Sealed(Appended(s, r))
    ensures View(Appended(s, r)) == Effect(View(s), r)
    ensures Disjoint(s.entries) ==> Disjoint(Appended(s, r).entries)
  {
    hide WellIndexed, EncodeHeader;
    var t := State(s.file + r.Encode(), s.entries);
    ViewExtends(s, r.Encode());
    if r.Put? {
      PutIsWellIndexed(s, r);
      IndexingEffect(t, r.key, Entry(|s.file|, r.Size()));
    } else {
      UnindexingEffect(t, r.key);
    }
  }

  /** The live store after writing a log reads exactly as the log's fold. */
  lemma {:induction false} LogMeaning(log: seq<Record>)
    ensures WellIndexed(WrittenBy(log)) && Sealed(WrittenBy(log)) && Disjoint(WrittenBy(log).entries)
    ensures WrittenBy(log).file == EncodeLog(log)
    ensures View(WrittenBy(log)) == Fold(log)
  {
    if log != [] {
      LogMeaning(log[..|log| - 1]);
      AppendEffect(WrittenBy(log[..|log| - 1]), log[|log| - 1]);
    }
  }

  // --- Recovery ----------------------------------------------------------------

  /** The bytes of `r` stand at `offset`. */
  predicate Holds(file: bytes, offset: nat, r: Record) {
    offset + r.Size() <= |file| && file[offset..offset + r.Size()] == r.Encode()
  }

  lemma HeldRecord(file: bytes, offset: nat, r: Record)
    requires Holds(file, offset, r)
    ensures offset + HEADER_SIZE + |r.key| <= |file| && HeaderAt(file, offset) == r.Head()
    ensures file[offset + HEADER_SIZE..offset + HEADER_SIZE + |r.key|] == r.key
  {
    hide HeaderAt, EncodeHeader;
    RecordAt(file[..offset], r, file[offset + r.Size()..]);
    assert file == file[..offset] + r.Encode() + file[offset + r.Size()..];
  }

  /** Scanning past one whole record indexes exactly that record. */
  lemma LoadOneRecord(file: bytes, offset: nat, r: Record, entries: Index)
    requires Holds(file, offset, r)
    ensures Load(file, offset, entries) == Load(file, offset + r.Size(), Indexed(entries, r, offset))
  {
    hide HeaderAt, EncodeHeader, Holds;
    HeldRecord(file, offset, r);
  }

  lemma RecordBehind(before: bytes, r: Record, file: bytes)
    requires before + r.Encode() <= file
    ensures before <= file && Holds(file, |before|, r)
  {
    EncodeSize(r);
    ConcatPrefix(before, r.Encode(), file);
  }

  lemma LastRecordHolds(log: seq<Record>, file: bytes)
    requires log != [] && EncodeLog(log) <= file
    ensures EncodeLog(log[..|log| - 1]) <= file
    ensures Holds(file, |EncodeLog(log[..|log| - 1])|, log[|log| - 1])
    ensures |EncodeLog(log)| == |EncodeLog(log[..|log| - 1])| + log[|log| - 1].Size()
  {
    EncodeSize(log[|log| - 1]);
    RecordBehind(EncodeLog(log[..|log| - 1]), log[|log| - 1], file);
  }

  lemma ConcatPrefix(a: bytes, b: bytes, file: bytes)
    requires a + b <= file
    ensures a <= file && file[|a|..|a| + |b|] == b
  {
  }

  /** A scan reaches the end of any log the file starts with, having rebuilt its index. */
  lemma {:induction false} LoadLog(log: seq<Record>, file: bytes)
    requires EncodeLog(log) <= file
    ensures Load(file, 0, map[]) == Load(file, |EncodeLog(log)|, WrittenBy(log).entries)
    decreases |log|
  {
    hide EncodeHeader, Load;
    if log != [] {
      var init, r := log[..|log| - 1], log[|log| - 1];
      LastRecordHolds(log, file);
      LoadLog(init, file);
      LogMeaning(init);
      LoadOneRecord(file, |EncodeLog(init)|, r, WrittenBy(init).entries);
    }
  }

  /** With no cut, the reopened store is the live store. */
  lemma ReopenIsIdentity(log: seq<Record>)
    ensures Reopened(EncodeLog(log)) == WrittenBy(log)
  {
    LoadLog(log, EncodeLog(log));
    LogMeaning(log);
  }

  lemma PrefixesOfInit(log: seq<Record>, m: nat)
    requires m < |log|
    ensures var init := log[..|log| - 1];
            && init[..m] == log[..m]
            && (m < |init| ==> init[..m + 1] == log[..m + 1])
            && (m == |init| ==> log[..m + 1] == log)
  {
  }

  /** How many records lie entirely within the first `n` bytes. */
  function Complete(log: seq<Record>, n: nat): (m: nat)
    ensures m <= |log|
    ensures |EncodeLog(log[..m])| <= n
    ensures m < |log| ==> n < |EncodeLog(log[..m + 1])|
  {
    if |EncodeLog(log)| <= n then
      assert log[..|log|] == log;
      |log|
    else
      var init := log[..|log| - 1];
      var m := Complete(init, n);
      PrefixesOfInit(log, m);
      m
  }

  /** The cut falls inside the value of a put whose header and key survive. */
  predicate TornPut(log: seq<Record>, n: nat) {
    var m := Complete(log, n);
    m < |log| && log[m].Put? && |EncodeLog(log[..m])| + HEADER_SIZE + |log[m].key| <= n
  }

  function AfterCut(log: seq<Record>, n: nat): map<Blob, Blob> {
    var m := Complete(log, n);
    if TornPut(log, n) then Fold(log[..m]) - {log[m].key} else Fold(log[..m])
  }

  lemma {:induction false} EncodeLogSplits(log: seq<Record>, m: nat)
    requires m < |log|
    ensures EncodeLog(log[..m + 1]) <= EncodeLog(log)
    decreases |log|
  {
    if m + 1 == |log| {
      assert log[..m + 1] == log;
    } else {
      var init := log[..|log| - 1];
      assert init[..m + 1] == log[..m + 1];
      EncodeLogSplits(init, m);
    }
  }

  /** The scan of a piece of one record stops there, having indexed at most a torn put. */
  lemma LoadTornRecord(before: bytes, r: Record, piece: bytes, entries: Index)
    requires piece < r.Encode()
    ensures Load(before + piece, |before|, entries)
            == if r.Put? && HEADER_SIZE + |r.key| <= |piece|
               then entries[r.key := Entry(|before|, r.Size())] else entries
  {
    hide EncodeHeader, DecodeHeader;
    RecordAt(before, r, []);
    var file, whole := before + piece, before + r.Encode() + [];
    assert file == whole[..|file|];
    if HEADER_SIZE <= |piece| {
      assert file[|before|..|before| + HEADER_SIZE] == whole[|before|..|before| + HEADER_SIZE];
      if HEADER_SIZE + |r.key| <= |piece| {
        assert file[|before| + HEADER_SIZE..|before| + HEADER_SIZE + |r.key|]
            == whole[|before| + HEADER_SIZE..|before| + HEADER_SIZE + |r.key|];
      }
    }
  }

  /** What is left of the log at a cut: the complete records and a piece of the next one. */
  lemma CutPiece(log: seq<Record>, n: nat)
    requires n < |EncodeLog(log)| && Complete(log, n) < |log|
    ensures var m := Complete(log, n);
            var before := EncodeLog(log[..m]);
            && before <= EncodeLog(log)[..n]
            && EncodeLog(log)[..n][|before|..] < log[m].Encode()
  {
    var m := Complete(log, n);
    EncodeLogSplits(log, m);
    assert log[..m + 1][..m] == log[..m];
    PieceOf(EncodeLog(log[..m]), log[m].Encode(), EncodeLog(log), n);
  }

  lemma PieceOf(before: bytes, b: bytes, whole: bytes, n: nat)
    requires before + b <= whole && |before| <= n < |before| + |b|
    ensures before <= whole[..n] && whole[..n][|before|..] < b
  {
    assert whole[..n] == (before + b)[..n];
    assert whole[..n][|before|..] == b[..n - |before|];
  }

  /** The cut leaves the answers of the complete records, except for a torn put's own key. */
  lemma TornView(s: State, key: Blob, e: Entry, view: map<Blob, Blob>)
    requires WellIndexed(s) && Sealed(s) && View(s) == view && !OnDisk(s.file, e)
    requires WellIndexed(State(s.file, s.entries[key := e]))
    ensures View(State(s.file, s.entries[key := e])) == view - {key}
  {
  }

  /**
   * Recovery from any cut: the first `n` bytes of a log read as the fold of the
   * records complete in them, except that a put torn inside its value hides its key.
   */
  lemma RecoveryAtAnyCut(log: seq<Record>, n: nat)
    requires n <= |EncodeLog(log)|
    ensures WellIndexed(Reopened(EncodeLog(log)[..n]))
    ensures View(Reopened(EncodeLog(log)[..n])) == AfterCut(log, n)
  {
    hide Load;
    var file := EncodeLog(log)[..n];
    LoadIsWellIndexed(file, 0, map[]);
    var m := Complete(log, n);
    if m == |log| {
      assert log[..m] == log && file == EncodeLog(log);
      LogMeaning(log);
      ReopenIsIdentity(log);
    } else {
      assert log[..|log|] == log;
      RecoveryInsideRecord(log, n, log[..m], log[m]);
    }
  }

  lemma RecoveryInsideRecord(log: seq<Record>, n: nat, done: seq<Record>, r: Record)
    requires n < |EncodeLog(log)| && Complete(log, n) < |log|
    requires done == log[..Complete(log, n)] && r == log[Complete(log, n)]
    requires WellIndexed(Reopened(EncodeLog(log)[..n]))
    ensures View(Reopened(EncodeLog(log)[..n])) == AfterCut(log, n)
  {
    hide EncodeLog, Complete, Fold, Load, View, WellIndexed, Sealed, WrittenBy;
    CutPiece(log, n);
    PieceRecovered(EncodeLog(log)[..n], done, r);
  }

  /** Behind a whole log, a piece of one record more changes nothing, or hides the key of a torn put. */
  lemma PieceRecovered(file: bytes, done: seq<Record>, r: Record)
    requires EncodeLog(done) <= file && file[|EncodeLog(done)|..] < r.Encode() && WellIndexed(Reopened(file))
    ensures View(Reopened(file))
            == if r.Put? && |EncodeLog(done)| + HEADER_SIZE + |r.key| <= |file|
               then Fold(done) - {r.key} else Fold(done)
  {
    hide Load, EncodeLog, Fold, View, WellIndexed, Sealed, WrittenBy;
    var before, entries := EncodeLog(done), WrittenBy(done).entries;
    var piece := file[|before|..];
    assert file == before + piece;
    LoadLog(done, file);
    LogMeaning(done);
    LoadTornRecord(before, r, piece, entries);
    ViewExtends(WrittenBy(done), piece);
    if r.Put? && |before| + HEADER_SIZE + |r.key| <= |file| {
      EncodeSize(r);
      TornView(State(file, entries), r.key, Entry(|before|, r.Size()), Fold(done));
    }
  }

  // --- Writing behind a torn tail ----------------------------------------------

  /** Where the scan of a file gives up. */
  function ScanEnd(file: bytes, offset: nat): nat
    decreases if offset <= |file| then |file| - offset else 0
  {
    if offset + HEADER_SIZE > |file| then offset
    else
      var h := HeaderAt(file, offset);
      if offset + HEADER_SIZE + h.keyLen > |file| then offset
      else ScanEnd(file, offset + HEADER_SIZE + h.keyLen + h.valLen)
  }

  lemma SameHeader(file: bytes, tail: bytes, offset: nat)
    requires offset + HEADER_SIZE <= |file|
    ensures HeaderAt(file + tail, offset) == HeaderAt(file, offset)
    ensures var k := HeaderAt(file, offset).keyLen;
            offset + HEADER_SIZE + k <= |file| ==>
              (file + tail)[offset + HEADER_SIZE..offset + HEADER_SIZE + k]
              == file[offset + HEADER_SIZE..offset + HEADER_SIZE + k]
  {
    assert (file + tail)[offset..offset + HEADER_SIZE] == file[offset..offset + HEADER_SIZE];
    var k := HeaderAt(file, offset).keyLen;
    if offset + HEADER_SIZE + k <= |file| {
      assert (file + tail)[offset + HEADER_SIZE..offset + HEADER_SIZE + k]
          == file[offset + HEADER_SIZE..offset + HEADER_SIZE + k];
    }
  }

  /** With bytes behind the file, a scan goes on from where it gave up. */
  lemma {:induction false} LoadGoesOn(file: bytes, tail: bytes, offset: nat, entries: Index)
    ensures Load(file + tail, offset, entries)
            == Load(file + tail, ScanEnd(file, offset), Load(file, offset, entries))
    decreases if offset <= |file| then |file| - offset else 0
  {
    hide HeaderAt;
    if offset + HEADER_SIZE <= |file| {
      SameHeader(file, tail, offset);
      var h := HeaderAt(file, offset);
      if offset + HEADER_SIZE + h.keyLen <= |file| {
        var key := file[offset + HEADER_SIZE..offset + HEADER_SIZE + h.keyLen];
        var size := HEADER_SIZE + h.keyLen + h.valLen;
        LoadGoesOn(file, tail, offset + size,
                   if h.kind == TYPE_PUT then entries[key := Entry(offset, size)] else entries - {key});
      }
    }
  }

  /** If a scan gives up before the end, nothing appended later is ever found at its own offset. */
  lemma {:induction false} TornEndNeverVisited(file: bytes, tail: bytes, offset: nat, entries: Index)
    requires offset <= |file| ==> ScanEnd(file, offset) != |file|
    requires forall key <- entries :: entries[key].offset != |file|
    ensures forall key <- Load(file + tail, offset, entries) ::
              Load(file + tail, offset, entries)[key].offset != |file|
    decreases if offset <= |file + tail| then |file + tail| - offset else 0
  {
    var all := file + tail;
    if offset + HEADER_SIZE <= |all| {
      var h := HeaderAt(all, offset);
      if offset + HEADER_SIZE <= |file| {
        SameHeader(file, tail, offset);
      }
      if offset + HEADER_SIZE + h.keyLen <= |all| {
        var key: Blob := all[offset + HEADER_SIZE..offset + HEADER_SIZE + h.keyLen];
        var size := HEADER_SIZE + h.keyLen + h.valLen;
        TornEndNeverVisited(file, tail, offset + size,
                            if h.kind == TYPE_PUT then entries[key := Entry(offset, size)] else entries - {key});
      }
    }
  }

  lemma PutAfterCleanScan(disk: bytes, r: Record)
    requires ScanEnd(disk, 0) == |disk|
    ensures Reopened(disk + r.Encode()) == Appended(Reopened(disk), r)
  {
    hide EncodeHeader, HeaderAt;
    LoadGoesOn(disk, r.Encode(), 0, map[]);
    RecordBehind(disk, r, disk + r.Encode());
    LoadOneRecord(disk + r.Encode(), |disk|, r, Reopened(disk).entries);
  }

  /** A put made after recovery is found at the next open exactly when the recovery scan used up the file. */
  lemma PutAfterRecoverySurvives(disk: bytes, r: Record)
    requires r.Put?
    ensures var next := Reopened(Appended(Reopened(disk), r).file);
            && (r.key in next.entries && next.entries[r.key] == Entry(|disk|, r.Size()) <==> ScanEnd(disk, 0) == |disk|)
            && (next == Appended(Reopened(disk), r) <==> ScanEnd(disk, 0) == |disk|)
  {
    hide EncodeHeader, HeaderAt, Load, ScanEnd;
    if ScanEnd(disk, 0) == |disk| {
      PutAfterCleanScan(disk, r);
    } else {
      TornEndNeverVisited(disk, r.Encode(), 0, map[]);
      assert Appended(Reopened(disk), r).entries[r.key].offset == |disk|;
    }
  }

  /**
   * What a record written after a recovery amounts to at the next open: the scan reads on from
   * where it gave up. Where it had used up the file, it finds the record; where no header fits
   * any more behind the point it gave up at, the record leaves no trace.
   */
  lemma AppendAfterRecovery(disk: bytes, r: Record)
    ensures var next := Reopened(disk + r.Encode()).entries;
            && next == Load(disk + r.Encode(), ScanEnd(disk, 0), Reopened(disk).entries)
            && (ScanEnd(disk, 0) == |disk| ==> next == Appended(Reopened(disk), r).entries)
            && (ScanEnd(disk, 0) + HEADER_SIZE > |disk| + r.Size() ==> next == Reopened(disk).entries)
  {
    hide EncodeHeader, HeaderAt;
    LoadGoesOn(disk, r.Encode(), 0, map[]);
    EncodeSize(r);
    if ScanEnd(disk, 0) == |disk| {
      PutAfterCleanScan(disk, r);
    }
  }

  /** So a delete whose record disappears in a torn value is undone exactly if there was something to delete. */
  lemma DeleteAfterRecovery(disk: bytes, key: Blob)
    requires ScanEnd(disk, 0) + HEADER_SIZE > |disk| + Delete(key).Size()
    ensures key !in Appended(Reopened(disk), Delete(key)).entries
    ensures key in Reopened(disk + Delete(key).Encode()).entries <==> key in Reopened(disk).entries
  {
    AppendAfterRecovery(disk, Delete(key));
  }

  lemma ScanOneRecord(file: bytes, offset: nat, r: Record)
    requires Holds(file, offset, r)
    ensures ScanEnd(file, offset) == ScanEnd(file, offset + r.Size())
  {
    hide HeaderAt, EncodeHeader, Holds;
    HeldRecord(file, offset, r);
  }

  lemma ScanTornPut(before: bytes, r: Record, piece: bytes)
    requires r.Put? && piece < r.Encode() && HEADER_SIZE + |r.key| <= |piece|
    ensures ScanEnd(before + piece, |before|) == |before| + r.Size()
  {
    hide EncodeHeader, DecodeHeader;
    RecordAt(before, r, []);
    var file, whole := before + piece, before + r.Encode() + [];
    assert file == whole[..|file|];
    assert file[|before|..|before| + HEADER_SIZE] == whole[|before|..|before| + HEADER_SIZE];
  }

  /** A key deleted after a recovery from a torn put comes back at the next open. */
  lemma DeletedKeyComesBack()
    ensures var disk := EncodeLog([Put([97], [7]), Put([98], [7, 7, 7])])[..21];
            && [97] !in Appended(Reopened(disk), Delete([97])).entries
            && [97] in Reopened(disk + Delete([97]).Encode()).entries
  {
    hide EncodeHeader, Load;
    var first, torn := Put([97], [7]), Put([98], [7, 7, 7]);
    var one, log := [first], [first, torn];
    assert log[..1] == one && one[..0] == [];
    EncodeSize(first);
    EncodeSize(torn);
    EncodeSize(Delete([97]));
    assert EncodeLog(one) == first.Encode() && EncodeLog(log) == first.Encode() + torn.Encode();
    var piece := torn.Encode()[..10];
    var disk := EncodeLog(log)[..21];
    assert disk == first.Encode() + piece;
    TornBehind(first, torn, piece);
    DeleteAfterRecovery(disk, [97]);
  }

  lemma TornBehind(first: Record, torn: Record, piece: bytes)
    requires first.Put? && torn.Put? && torn.key != first.key
    requires piece < torn.Encode() && HEADER_SIZE + |torn.key| <= |piece|
    ensures var disk := first.Encode() + piece;
            ScanEnd(disk, 0) == first.Size() + torn.Size() && first.key in Reopened(disk).entries
  {
    hide EncodeHeader, Load, ScanEnd;
    var disk := first.Encode() + piece;
    EncodeSize(first);
    assert [] + first.Encode() <= disk;
    RecordBehind([], first, disk);
    ScanOneRecord(disk, 0, first);
    ScanTornPut(first.Encode(), torn, piece);
    LoadOneRecord(disk, 0, first, map[]);
    LoadTornRecord(first.Encode(), torn, piece, Indexed(map[], first, 0));
  }

  /** A key torn by a crash reads absent, and comes back with foreign bytes once another put is appended. */
  lemma TornKeyComesBack()
    ensures var disk := EncodeLog([Put([97], [7])])[..10];
            var s := Reopened(disk);
            var s' := Appended(s, Put([99], [9]));
            && WellIndexed(s) && WellIndexed(s')
            && [97] !in View(s)
            && [97] in View(s') && View(s')[[97]] == [TYPE_PUT]
  {
    hide Load;
    var other := Put([99], [9]);
    var disk := TornDisk();
    LoadIsWellIndexed(disk, 0, map[]);
    var s := Reopened(disk);
    AppendIsWellIndexed(s, other);
    RecordAt(disk, other, []);
    var s' := Appended(s, other);
    assert s'.file[10..11] == [TYPE_PUT];
  }

  // --- Compaction --------------------------------------------------------------

  lemma {:induction false} FoldRewrites(view: map<Blob, Blob>, order: seq<Blob>)
    requires forall key <- order :: key in view
    ensures Fold(Rewrites(view, order)) == map key | key in view && key in order :: view[key]
    decreases |order|
  {
    if order != [] {
      var init, key := order[..|order| - 1], order[|order| - 1];
      assert order == init + [key];
      FoldRewrites(view, init);
      RewriteOneMore(view, init, key);
      var log := Rewrites(view, order);
      assert log[..|log| - 1] == Rewrites(view, init);
    } else {
      assert Rewrites(view, order) == [];
    }
  }

  function TotalSize(ranges: seq<Entry>): nat {
    if ranges == [] then 0 else TotalSize(ranges[..|ranges| - 1]) + ranges[|ranges| - 1].size
  }

  lemma {:induction false} TotalSizeWithout(ranges: seq<Entry>, i: nat)
    requires i < |ranges|
    ensures TotalSize(ranges) == TotalSize(ranges[..i] + ranges[i + 1..]) + ranges[i].size
    decreases |ranges|
  {
    var init, last := ranges[..|ranges| - 1], ranges[|ranges| - 1];
    var without := ranges[..i] + ranges[i + 1..];
    if i == |ranges| - 1 {
      assert without == init;
    } else {
      TotalSizeWithout(init, i);
      assert without[..|without| - 1] == init[..i] + init[i + 1..];
    }
  }

  lemma LastRange(ranges: seq<Entry>) returns (i: nat)
    requires ranges != []
    ensures i < |ranges| && forall j :: 0 <= j < |ranges| ==>
              ranges[j].offset + ranges[j].size <= ranges[i].offset + ranges[i].size
  {
    i := 0;
    for k := 0 to |ranges|
      invariant i < |ranges|
      invariant forall j :: 0 <= j < k ==> ranges[j].offset + ranges[j].size <= ranges[i].offset + ranges[i].size
    {
      if ranges[k].offset + ranges[k].size > ranges[i].offset + ranges[i].size {
        i := k;
      }
    }
  }

  /** Disjoint non-empty ranges below `n` cover at most `n` bytes. */
  lemma {:induction false} Packing(ranges: seq<Entry>, n: nat)
    requires forall i :: 0 <= i < |ranges| ==> 0 < ranges[i].size && ranges[i].offset + ranges[i].size <= n
    requires forall i, j :: 0 <= i < j < |ranges| ==> Apart(ranges[i], ranges[j])
    ensures TotalSize(ranges) <= n
    decreases |ranges|
  {
    if ranges != [] {
      var i := LastRange(ranges);
      Packing(ranges[..i] + ranges[i + 1..], ranges[i].offset);
      TotalSizeWithout(ranges, i);
    }
  }

  /** Where the records of the listed keys stand. */
  function Ranges(s: State, order: seq<Blob>): seq<Entry>
    requires WellIndexed(s) && forall key <- order :: key in View(s)
  {
    seq(|order|, i requires 0 <= i < |order| => assert order[i] in View(s); s.entries[order[i]])
  }

  /** A rewritten log is as long as the records it keeps. */
  lemma {:induction false} RewrittenLength(s: State, order: seq<Blob>)
    requires WellIndexed(s) && forall key <- order :: key in View(s)
    ensures |EncodeLog(Rewrites(View(s), order))| == TotalSize(Ranges(s, order))
    decreases |order|
  {
    var log := Rewrites(View(s), order);
    if order != [] {
      var init, key := order[..|order| - 1], order[|order| - 1];
      assert order == init + [key];
      RewrittenLength(s, init);
      RewriteOneMore(View(s), init, key);
      assert log[..|log| - 1] == Rewrites(View(s), init);
      assert Ranges(s, order)[..|order| - 1] == Ranges(s, init);
      RecordAt([], Put(key, View(s)[key]), []);
    }
  }

  lemma ReadableRange(s: State, key: Blob)
    requires WellIndexed(s) && key in View(s)
    ensures key in s.entries && 0 < s.entries[key].size && s.entries[key].offset + s.entries[key].size <= |s.file|
  {
  }

  lemma RangesAreApart(s: State, order: seq<Blob>)
    requires WellIndexed(s) && Disjoint(s.entries) && Lists(order, View(s).Keys)
    ensures TotalSize(Ranges(s, order)) <= |s.file|
  {
    var ranges := Ranges(s, order);
    forall i | 0 <= i < |order|
      ensures order[i] in s.entries && ranges[i] == s.entries[order[i]]
      ensures 0 < ranges[i].size && ranges[i].offset + ranges[i].size <= |s.file|
    {
      ReadableRange(s, order[i]);
    }
    forall i, j | 0 <= i < j < |ranges| ensures Apart(ranges[i], ranges[j]) {
      assert order[i] in s.entries && order[j] in s.entries && order[i] != order[j];
    }
    Packing(ranges, |s.file|);
  }

  lemma CompactNeverGrows(s: State, order: seq<Blob>)
    requires WellIndexed(s) && Disjoint(s.entries) && Lists(order, View(s).Keys)
    ensures |EncodeLog(Rewrites(View(s), order))| <= |s.file|
  {
    RewrittenLength(s, order);
    RangesAreApart(s, order);
  }

  /**
   * Compaction keeps every answer and leaves an honest log that reopens as itself; its length is
   * that of the readable records.
   */
  lemma CompactPreserves(s: State, s': State)
    requires WellIndexed(s) && Compacted(s, s')
    ensures WellIndexed(s') && Sealed(s') && Disjoint(s'.entries)
    ensures View(s') == View(s)
    ensures Reopened(s'.file) == s'
    ensures s'.entries.Keys == View(s).Keys
    ensures |s'.file| == IndexSize(Readable(s))
    ensures Disjoint(s.entries) ==> |s'.file| <= |s.file|
  {
    hide WellIndexed, View;
    var order :| Lists(order, View(s).Keys) && s' == WrittenBy(Rewrites(View(s), order));
    var log := Rewrites(View(s), order);
    LogMeaning(log);
    ReopenIsIdentity(log);
    FoldRewrites(View(s), order);
    assert View(s') == View(s);
    SealedKeys(s');
    RewrittenLength(s, order);
    RangesTotal(s, order);
    if Disjoint(s.entries) {
      CompactNeverGrows(s, order);
    }
  }

  // --- When compaction grows the file ------------------------------------------

  /** The bytes that the indexed records take, torn ones counted in full. */
  ghost function IndexSize(entries: Index): nat
    decreases |entries|
  {
    if entries == map[] then 0
    else
      var key :| key in entries;
      assert (entries - {key}).Keys == entries.Keys - {key};
      entries[key].size + IndexSize(entries - {key})
  }

  /** The indexed records that lie wholly inside the file. */
  function Readable(s: State): Index {
    map key | key in s.entries && OnDisk(s.file, s.entries[key]) :: s.entries[key]
  }

  lemma {:induction false} IndexSizeWithout(entries: Index, key: bytes)
    requires key in entries
    ensures IndexSize(entries) == entries[key].size + IndexSize(entries - {key})
    decreases |entries|
  {
    var k :| k in entries && IndexSize(entries) == entries[k].size + IndexSize(entries - {k});
    if k != key {
      assert (entries - {k}).Keys == entries.Keys - {k} && (entries - {key}).Keys == entries.Keys - {key};
      IndexSizeWithout(entries - {k}, key);
      IndexSizeWithout(entries - {key}, k);
      assert entries - {k} - {key} == entries - {key} - {k};
    }
  }

  lemma IndexSizeWith(entries: Index, key: bytes, e: Entry)
    ensures IndexSize(entries[key := e]) == e.size + IndexSize(entries - {key})
    ensures IndexSize(entries - {key}) <= IndexSize(entries)
    ensures key !in entries ==> IndexSize(entries[key := e]) == e.size + IndexSize(entries)
  {
    IndexSizeWithout(entries[key := e], key);
    assert entries[key := e] - {key} == entries - {key};
    if key in entries {
      IndexSizeWithout(entries, key);
    } else {
      assert entries - {key} == entries;
    }
  }

  lemma {:induction false} IndexSizeOfPart(part: Index, entries: Index)
    requires forall key <- part :: key in entries && entries[key] == part[key]
    ensures IndexSize(part) <= IndexSize(entries)
    decreases |part|
  {
    if part != map[] {
      var key :| key in part;
      assert (part - {key}).Keys == part.Keys - {key};
      IndexSizeOfPart(part - {key}, entries - {key});
      IndexSizeWithout(part, key);
      IndexSizeWithout(entries, key);
    }
  }

  function EntriesOf(s: State, order: seq<Blob>): Index {
    map key | key in s.entries && key in order :: s.entries[key]
  }

  lemma OneRangeMore(s: State, init: seq<Blob>, key: Blob)
    requires WellIndexed(s) && (forall k <- init :: k in View(s)) && key in View(s) && key in s.entries
    ensures forall k <- init + [key] :: k in View(s)
    ensures TotalSize(Ranges(s, init + [key])) == TotalSize(Ranges(s, init)) + s.entries[key].size
  {
    hide View, WellIndexed;
    assert Ranges(s, init + [key])[..|init|] == Ranges(s, init);
  }

  lemma OneEntryMore(s: State, init: seq<Blob>, key: Blob)
    requires key in s.entries && key !in init
    ensures EntriesOf(s, init + [key]) == EntriesOf(s, init)[key := s.entries[key]]
    ensures key !in EntriesOf(s, init) && EntriesOf(s, []) == map[]
  {
  }

  lemma {:induction false} RangesAddUp(s: State, order: seq<Blob>)
    requires WellIndexed(s) && forall key <- order :: key in View(s)
    requires forall i, j :: 0 <= i < j < |order| ==> order[i] != order[j]
    ensures TotalSize(Ranges(s, order)) == IndexSize(EntriesOf(s, order))
    decreases |order|
  {
    if order == [] {
      assert EntriesOf(s, order) == map[];
    } else {
      hide View, WellIndexed, Ranges, TotalSize, EntriesOf, IndexSize;
      var init, key := order[..|order| - 1], order[|order| - 1];
      assert order == init + [key] && key !in init;
      RangesAddUp(s, init);
      ReadableRange(s, key);
      OneRangeMore(s, init, key);
      OneEntryMore(s, init, key);
      IndexSizeWith(EntriesOf(s, init), key, s.entries[key]);
    }
  }

  lemma RangesTotal(s: State, order: seq<Blob>)
    requires WellIndexed(s) && Lists(order, View(s).Keys)
    ensures TotalSize(Ranges(s, order)) == IndexSize(Readable(s))
  {
    RangesAddUp(s, order);
    assert EntriesOf(s, order) == Readable(s);
  }

  function AppendedAll(s: State, log: seq<Record>): State {
    if log == [] then s else Appended(AppendedAll(s, log[..|log| - 1]), log[|log| - 1])
  }

  /** Puts and deletes never make the indexed records outgrow the file. */
  lemma {:induction false} RoomIsKept(s: State, log: seq<Record>)
    requires IndexSize(s.entries) <= |s.file|
    ensures IndexSize(AppendedAll(s, log).entries) <= |AppendedAll(s, log).file|
    decreases |log|
  {
    if log != [] {
      RoomIsKept(s, log[..|log| - 1]);
      var t, r := AppendedAll(s, log[..|log| - 1]), log[|log| - 1];
      EncodeSize(r);
      IndexSizeWith(t.entries, r.key, Entry(|t.file|, r.Size()));
    }
  }

  /** A compaction of `t` may end as `t'`, in a longer file. */
  ghost predicate Grows(t: State, t': State) {
    WellIndexed(t) && Compacted(t, t') && |t'.file| > |t.file|
  }

  lemma SomeCompaction(s: State) returns (s': State)
    requires WellIndexed(s)
    ensures Compacted(s, s')
  {
    var keys := View(s).Keys;
    var order: seq<Blob> := [];
    var todo := keys;
    while todo != {}
      invariant todo <= keys && Lists(order, keys - todo)
    {
      var key :| key in todo;
      ListsOneMore(order, keys, todo, key);
      order, todo := order + [key], todo - {key};
    }
    assert keys - todo == keys;
    s' := WrittenBy(Rewrites(View(s), order));
  }

  lemma {:induction false} DistinctOffsets(entries: Index, n: nat)
    requires forall key <- entries :: entries[key].offset < n
    requires forall k <- entries, l <- entries :: k != l ==> entries[k].offset != entries[l].offset
    ensures |entries| <= n
    decreases n
  {
    if key :| key in entries && entries[key].offset == n - 1 {
      assert (entries - {key}).Keys == entries.Keys - {key};
      DistinctOffsets(entries - {key}, n - 1);
    } else if n > 0 {
      DistinctOffsets(entries, n - 1);
    } else {
      assert forall key :: key !in entries;
    }
  }

  lemma PutUint64Injective(m: u64, n: u64)
    requires PutUint64(m) == PutUint64(n)
    ensures m == n
  {
    Uint64RoundTrip(m);
    Uint64RoundTrip(n);
  }

  lemma FreshKey(entries: Index) returns (key: Blob)
    requires |entries| < U64_LIMIT
    ensures key !in entries && |key| == 8
  {
    hide PutUint64;
    var taken: set<Blob> := {};
    for n := 0 to |entries| + 1
      invariant taken <= entries.Keys && |taken| == n
      invariant forall k <- taken :: exists m: u64 :: m < n && k == PutUint64(m)
    {
      SubsetSize(taken, entries.Keys);
      key := PutUint64(n);
      if key !in entries {
        return;
      }
      if key in taken {
        var m: u64 :| m < n && key == PutUint64(m);
        PutUint64Injective(m, n);
      }
      taken := taken + {key};
    }
    SubsetSize(taken, entries.Keys);
    assert false;
  }

  /** A put of a fresh key with the longest value fills up every torn record. */
  lemma FillingPut(s: State, key: Blob, value: Blob)
    requires WellIndexed(s) && key !in s.entries && |value| == U32_LIMIT - 1
    ensures var t := Appended(s, Put(key, value));
            WellIndexed(t) && Readable(t) == t.entries
            && |t.file| - IndexSize(t.entries) == |s.file| - IndexSize(s.entries)
  {
    var r := Put(key, value);
    var t := Appended(s, r);
    AppendIsWellIndexed(s, r);
    EncodeSize(r);
    IndexSizeWith(s.entries, key, Entry(|s.file|, r.Size()));
    forall k | k in t.entries ensures OnDisk(t.file, t.entries[k]) {
      if k != key {
        assert PointsAtPut(s.file, s.entries[k], k);
      }
    }
  }

  lemma ReopenedIndexFits(disk: bytes)
    ensures WellIndexed(Reopened(disk)) && |Reopened(disk).entries| <= |disk|
  {
    hide Load;
    LoadIsWellIndexed(disk, 0, map[]);
    LoadIsDisjoint(disk, 0, map[]);
    var entries := Reopened(disk).entries;
    forall k, l | k in entries && l in entries && k != l ensures entries[k].offset != entries[l].offset {
      assert Apart(entries[k], entries[l]);
      assert PointsAtPut(disk, entries[k], k) && PointsAtPut(disk, entries[l], l);
    }
    forall k | k in entries ensures entries[k].offset < |disk| {
      assert PointsAtPut(disk, entries[k], k);
    }
    DistinctOffsets(entries, |disk|);
  }

  /** A compaction cannot grow a file that has room for its indexed records. */
  lemma RoomMeansNoGrowth(t: State, t': State)
    requires Grows(t, t')
    ensures IndexSize(t.entries) > |t.file|
  {
    CompactPreserves(t, t');
    IndexSizeOfPart(Readable(t), t.entries);
  }

  lemma FillingGrows(s: State) returns (log: seq<Record>, t': State)
    requires WellIndexed(s) && |s.entries| < U64_LIMIT && IndexSize(s.entries) > |s.file|
    ensures Grows(AppendedAll(s, log), t')
  {
    hide PutUint64, WellIndexed, Compacted, Readable, EncodeHeader;
    var key := FreshKey(s.entries);
    var r := Put(key, seq(U32_LIMIT - 1, i => 0));
    FillingPut(s, key, r.value);
    log := [r];
    assert log[..0] == [];
    assert AppendedAll(s, log) == Appended(s, r);
    hide AppendedAll, Appended;
    t' := SomeCompaction(Appended(s, r));
    CompactPreserves(Appended(s, r), t');
  }

  /**
   * Some puts and deletes after opening `disk` make a compaction grow the file exactly when
   * the records found there, a torn one counted in full, take more bytes than the file has.
   * File sizes are signed 64-bit numbers.
   */
  lemma CompactionGrowsIff(disk: bytes)
    requires |disk| < 0x8000_0000_0000_0000
    ensures (exists log: seq<Record>, t': State :: Grows(AppendedAll(Reopened(disk), log), t'))
            <==> IndexSize(Reopened(disk).entries) > |disk|
  {
    hide Load, Grows, AppendedAll;
    ReopenedIndexFits(disk);
    var s := Reopened(disk);
    if IndexSize(s.entries) > |disk| {
      var log, t' := FillingGrows(s);
    }
    if log: seq<Record>, t': State :| Grows(AppendedAll(s, log), t') {
      RoomMeansNoGrowth(AppendedAll(s, log), t');
      if IndexSize(s.entries) <= |disk| {
        RoomIsKept(s, log);
      }
    }
  }

  lemma TwoOverlapping(t: State)
    requires WellIndexed(t) && |t.file| == 21
    requires t.entries == map[[97] := Entry(0, 11)][[99] := Entry(10, 11)]
    ensures IndexSize(Readable(t)) == 22
  {
    hide WellIndexed, IndexSize;
    assert Readable(t) == t.entries;
    OneEntry([97], Entry(0, 11));
    IndexSizeWith(map[[97] := Entry(0, 11)], [99], Entry(10, 11));
  }

  lemma OneEntry(key: Blob, e: Entry)
    ensures IndexSize(map[key := e]) == e.size
  {
    var none: Index := map[];
    IndexSizeWith(none, key, e);
    assert none[key := e] == map[key := e];
  }

  /** The smallest such file: ten bytes of a torn put, whose revival makes a compaction write 22 bytes for 21. */
  lemma CompactionCanGrow()
    ensures var disk := EncodeLog([Put([97], [7])])[..10];
            var t := Appended(Reopened(disk), Put([99], [9]));
            && IndexSize(Reopened(disk).entries) == 11 && |disk| == 10
            && |t.file| == 21
            && (exists t' :: Grows(t, t'))
            && forall t' :: WellIndexed(t) && Compacted(t, t') ==> |t'.file| == 22
  {
    hide EncodeHeader, EncodeLog, Load, WellIndexed, Compacted, IndexSize, Readable;
    var disk := TornDisk();
    var s, other := Reopened(disk), Put([99], [9]);
    ReopenedIndexFits(disk);
    OneEntry([97], Entry(0, 11));
    AppendIsWellIndexed(s, other);
    EncodeSize(other);
    var t := Appended(s, other);
    TwoOverlapping(t);
    var t' := SomeCompaction(t);
    CompactPreserves(t, t');
    assert Grows(t, t');
    forall t' | Compacted(t, t') ensures |t'.file| == 22 {
      CompactPreserves(t, t');
    }
  }

  /** Ten of the eleven bytes of a put: header and key are down, the value is not. */
  lemma TornDisk() returns (disk: bytes)
    ensures disk == EncodeLog([Put([97], [7])])[..10] && |disk| == 10
    ensures Reopened(disk).entries == map[[97] := Entry(0, 11)]
  {
    hide EncodeHeader;
    var r := Put([97], [7]);
    var log := [r];
    assert log[..0] == [];
    EncodeSize(r);
    assert EncodeLog(log) == r.Encode();
    disk := EncodeLog(log)[..10];
    assert [] + disk == disk;
    LoadTornRecord([], r, disk, map[]);
  }

  lemma SealedKeys(s: State)
    requires WellIndexed(s) && Sealed(s)
    ensures s.entries.Keys == View(s).Keys
  {
  }

  // --- Runs --------------------------------------------------------------------

  datatype Op = OpPut(key: Blob, value: Blob) | OpDelete(key: Blob) | OpCompact | OpReopen

  ghost predicate Step(s: State, op: Op, s': State) {
    && WellIndexed(s)
    && match op
       case OpPut(key, value) => s' == Appended(s, Put(key, value))
       case OpDelete(key) => s' == Appended(s, Delete(key))
       case OpCompact => Compacted(s, s')
       case OpReopen => s' == Reopened(s.file)
  }

  ghost predicate IsRun(states: seq<State>, ops: seq<Op>) {
    && |states| == |ops| + 1
    && forall i :: 0 <= i < |ops| ==> Step(states[i], ops[i], states[i + 1])
  }

  function MapAfter(ops: seq<Op>): map<Blob, Blob> {
    if ops == [] then map[]
    else
      var m := MapAfter(ops[..|ops| - 1]);
      match ops[|ops| - 1]
      case OpPut(key, value) => m[key := value]
      case OpDelete(key) => m - {key}
      case OpCompact => m
      case OpReopen => m
  }

  /** Every run from an empty file leaves an honest log that means the map of its puts and deletes. */
  lemma {:induction false} RunIsALog(states: seq<State>, ops: seq<Op>) returns (log: seq<Record>)
    requires IsRun(states, ops) && states[0] == State([], map[])
    ensures states[|ops|] == WrittenBy(log) && Fold(log) == MapAfter(ops)
    decreases |ops|
  {
    if ops == [] {
      log := [];
    } else {
      var n := |ops| - 1;
      var before := RunIsALog(states[..n + 1], ops[..n]);
      LogMeaning(before);
      assert Step(states[n], ops[n], states[n + 1]);
      match ops[n]
      case OpPut(key, value) =>
        log := before + [Put(key, value)];
        assert log[..|log| - 1] == before;
      case OpDelete(key) =>
        log := before + [Delete(key)];
        assert log[..|log| - 1] == before;
      case OpCompact =>
        CompactPreserves(states[n], states[n + 1]);
        var order :| Lists(order, View(states[n]).Keys)
                     && states[n + 1] == WrittenBy(Rewrites(View(states[n]), order));
        log := Rewrites(View(states[n]), order);
        LogMeaning(log);
      case OpReopen =>
        ReopenIsIdentity(before);
        log := before;
    }
  }

  /** Refinement: after any run the store reads as the map, and reopening it changes nothing. */
  lemma RunRefinesMap(states: seq<State>, ops: seq<Op>)
    requires IsRun(states, ops) && states[0] == State([], map[])
    ensures WellIndexed(states[|ops|]) && View(states[|ops|]) == MapAfter(ops)
    ensures Reopened(states[|ops|].file) == states[|ops|]
  {
    var log := RunIsALog(states, ops);
    LogMeaning(log);
    ReopenIsIdentity(log);
  }

  /** Along every run from an empty file, no compaction grows the file. */
  lemma RunCompactNeverGrows(states: seq<State>, ops: seq<Op>, last: State)
    requires IsRun(states, ops) && states[0] == State([], map[])
    requires Step(states[|ops|], OpCompact, last)
    ensures |last.file| <= |states[|ops|].file|
  {
    var log := RunIsALog(states, ops);
    LogMeaning(log);
    CompactPreserves(states[|ops|], last);
  }

  /** Crash safety of whole runs: any cut of the file a run leaves recovers a prefix of its log. */
  lemma RunRecovers(states: seq<State>, ops: seq<Op>, n: nat) returns (log: seq<Record>)
    requires IsRun(states, ops) && states[0] == State([], map[])
    requires n <= |states[|ops|].file|
    ensures EncodeLog(log) == states[|ops|].file && Fold(log) == MapAfter(ops)
    ensures WellIndexed(Reopened(states[|ops|].file[..n]))
    ensures View(Reopened(states[|ops|].file[..n])) == AfterCut(log, n)
  {
    log := RunIsALog(states, ops);
    LogMeaning(log);
    RecoveryAtAnyCut(log, n);
  }

  lemma PrefixIsShort(log: seq<Record>, r: Record, m: nat)
    requires m <= |log| + 1
    ensures m < |log| ==> |EncodeLog((log + [r])[..m + 1])| <= |EncodeLog(log)|
  {
    if m < |log| {
      EncodeLogSplits(log, m);
      assert (log + [r])[..m + 1] == log[..m + 1];
    }
  }

  /** A crash while one more record is being appended. */
  lemma CrashWhileAppending(log: seq<Record>, r: Record, n: nat)
    requires |EncodeLog(log)| <= n < |EncodeLog(log + [r])|
    ensures AfterCut(log + [r], n)
            == if r.Put? && |EncodeLog(log)| + HEADER_SIZE + |r.key| <= n then Fold(log) - {r.key} else Fold(log)
  {
    hide EncodeHeader;
    var all := log + [r];
    assert all[..|log|] == log && all[..|all|] == all;
    var m := Complete(all, n);
    PrefixIsShort(log, r, m);
  }

  /**
   * A crash inside a put or a delete: the reopened store reads as the map before the
   * operation, or, once the header and key of a put are down, as that map without the key.
   */
  lemma CrashInsideOperation(states: seq<State>, ops: seq<Op>, op: Op, last: State, n: nat)
    requires IsRun(states, ops) && states[0] == State([], map[])
    requires Step(states[|ops|], op, last) && (op.OpPut? || op.OpDelete?)
    requires |states[|ops|].file| <= n < |last.file|
    ensures WellIndexed(Reopened(last.file[..n]))
    ensures View(Reopened(last.file[..n]))
            == if op.OpPut? && |states[|ops|].file| + HEADER_SIZE + |op.key| <= n
               then MapAfter(ops) - {op.key} else MapAfter(ops)
  {
    var log := RunIsALog(states, ops);
    var r := if op.OpPut? then Put(op.key, op.value) else Delete(op.key);
    LogMeaning(log);
    LogMeaning(log + [r]);
    assert (log + [r])[..|log|] == log;
    CrashWhileAppending(log, r, n);
    RecoveryAtAnyCut(log + [r], n);
  }

  /** From any bytes on disk, no run ever indexes something that is not a put record, so `Get` stays in its buffer. */
  lemma {:induction false} RunsStayWellIndexed(states: seq<State>, ops: seq<Op>, disk: bytes)
    requires IsRun(states, ops) && states[0] == Reopened(disk)
    ensures WellIndexed(states[|ops|])
    decreases |ops|
  {
    if ops == [] {
      LoadIsWellIndexed(disk, 0, map[]);
    } else {
      var n := |ops| - 1;
      assert Step(states[n], ops[n], states[n + 1]);
      match ops[n]
      case OpPut(key, value) => AppendIsWellIndexed(states[n], Put(key, value));
      case OpDelete(key) => AppendIsWellIndexed(states[n], Delete(key));
      case OpCompact => CompactPreserves(states[n], states[n + 1]);
      case OpReopen => LoadIsWellIndexed(states[n].file, 0, map[]);
    }
  }
}
