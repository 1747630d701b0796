/** The on-disk form of a leaf block of index/numeric.go. */
module BlockCodec {
  import opened Bytes
  import opened Wrappers

  datatype NumericEntry = NumericEntry(value: u64, docId: Blob)

  function EncodeEntry(e: NumericEntry): bytes {
    PutUint64(e.value) + PutUint32(|e.docId|) + e.docId
  }

  function EncodeEntries(es: seq<NumericEntry>): bytes {
    if es == [] then [] else EncodeEntry(es[0]) + EncodeEntries(es[1..])
  }

  function EncodeBlock(es: seq<NumericEntry>): bytes {
    PutUint32(|es|) + EncodeEntries(es)
  }

  /** Reading `count` entries from `offset` on; `None` stands for the errors of a short input. */
  function DecodeEntries(data: bytes, offset: nat, count: nat): Option<seq<NumericEntry>>
    decreases count
  {
    if count == 0 then Some([])
    else if offset + 12 > |data| then None
    else
      var value := Uint64(data[offset..offset + 8]);
      var idLen := Uint32(data[offset + 8..offset + 12]);
      if offset + 12 + idLen > |data| then None
      else
        match DecodeEntries(data, offset + 12 + idLen, count - 1)
        case None => None
        case Some(rest) => Some([NumericEntry(value, data[offset + 12..offset + 12 + idLen])] + rest)
  }

  function DecodeBlock(data: bytes): Option<seq<NumericEntry>> {
    if |data| < 4 then None else DecodeEntries(data, 4, Uint32(data[..4]))
  }

  // --- As the program does it --------------------------------------------------

  method Encode(es: seq<NumericEntry>) returns (buf: bytes)
    ensures buf == EncodeBlock(es)
  {
    hide PutUint32, PutUint64;
    buf := PutUint32(|es|);
    for i := 0 to |es|
      invariant EncodeBlock(es) == buf + EncodeEntries(es[i..])
    {
      var entry := es[i];
      assert es[i..][1..] == es[i + 1..];
      ghost var before := buf;
      buf := buf + PutUint64(entry.value);
      buf := buf + PutUint32(|entry.docId|);
      buf := buf + entry.docId;
      assert buf == before + EncodeEntry(entry);
    }
  }

  method Decode(data: bytes) returns (entries: Option<seq<NumericEntry>>)
    ensures entries == DecodeBlock(data)
  {
    hide Uint64, Uint32, DecodeEntries, Prepended;
    if |data| < 4 {
      return None;
    }
    var count := Uint32(data[..4]);
    var out: seq<NumericEntry> := [];
    var offset := 4;
    DecodeEnds(data, offset, count);
    for i := 0 to count
      invariant 4 <= offset
      invariant DecodeBlock(data) == Prepended(out, DecodeEntries(data, offset, count - i))
    {
      DecodeStep(data, offset, count - i, out);
      if offset + 8 > |data| {
        return None;
      }
      var value := Uint64(data[offset..offset + 8]);
      offset := offset + 8;
      if offset + 4 > |data| {
        return None;
      }
      var idLen := Uint32(data[offset..offset + 4]);
      offset := offset + 4;
      if offset + idLen > |data| {
        return None;
      }
      var docId: Blob := data[offset..offset + idLen];
      offset := offset + idLen;
      out := out + [NumericEntry(value, docId)];
    }
    DecodeDone(data, offset, out);
    entries := Some(out);
  }

  function Prepended(es: seq<NumericEntry>, rest: Option<seq<NumericEntry>>): Option<seq<NumericEntry>> {
    if rest.None? then None else Some(es + rest.value)
  }

  lemma DecodeEnds(data: bytes, offset: nat, count: nat)
    ensures Prepended([], DecodeEntries(data, offset, count)) == DecodeEntries(data, offset, count)
  {
    var all := DecodeEntries(data, offset, count);
    assert all.Some? ==> [] + all.value == all.value;
  }

  lemma DecodeDone(data: bytes, offset: nat, out: seq<NumericEntry>)
    ensures Prepended(out, DecodeEntries(data, offset, 0)) == Some(out)
  {
    assert out + [] == out;
  }

  /** One entry further on, or the error of a short input. */
  lemma DecodeStep(data: bytes, offset: nat, count: nat, out: seq<NumericEntry>)
    requires count > 0
    ensures offset + 12 > |data| ==> Prepended(out, DecodeEntries(data, offset, count)) == None
    ensures offset + 12 <= |data| ==>
              var idLen := Uint32(data[offset + 8..offset + 12]);
              var next := offset + 12 + idLen;
              Prepended(out, DecodeEntries(data, offset, count))
              == if next > |data| then None
                 else Prepended(out + [NumericEntry(Uint64(data[offset..offset + 8]), data[offset + 12..next])],
                                DecodeEntries(data, next, count - 1))
  {
    hide Uint32, Uint64;
    if offset + 12 <= |data| {
      var next := offset + 12 + Uint32(data[offset + 8..offset + 12]);
      if next <= |data| {
        var e := NumericEntry(Uint64(data[offset..offset + 8]), data[offset + 12..next]);
        var rest := DecodeEntries(data, next, count - 1);
        if rest.Some? {
          assert out + ([e] + rest.value) == (out + [e]) + rest.value;
        }
      }
    }
  }

  // --- Round trip --------------------------------------------------------------

  /** The fields of an entry read back where it was written. */
  lemma EntryAt(before: bytes, e: NumericEntry, after: bytes)
    ensures var data, o := before + EncodeEntry(e) + after, |before|;
            && |EncodeEntry(e)| == 12 + |e.docId|
            && Uint64(data[o..o + 8]) == e.value
            && Uint32(data[o + 8..o + 12]) == |e.docId|
            && data[o + 12..o + 12 + |e.docId|] == e.docId
  {
    hide PutUint32, PutUint64, Uint32, Uint64;
    var data, o := before + EncodeEntry(e) + after, |before|;
    assert data[o..o + 8] == PutUint64(e.value);
    assert data[o + 8..o + 12] == PutUint32(|e.docId|);
    Uint64RoundTrip(e.value);
    Uint32RoundTrip(|e.docId|);
  }

  lemma DecodeNext(before: bytes, e: NumericEntry, tail: bytes, rest: seq<NumericEntry>)
    requires DecodeEntries(before + EncodeEntry(e) + tail, |before + EncodeEntry(e)|, |rest|) == Some(rest)
    ensures DecodeEntries(before + EncodeEntry(e) + tail, |before|, |rest| + 1) == Some([e] + rest)
  {
    hide EncodeEntry, Uint32, Uint64;
    EntryAt(before, e, tail);
  }

  lemma EncodeNext(e: NumericEntry, rest: seq<NumericEntry>)
    ensures EncodeEntries([e] + rest) == EncodeEntry(e) + EncodeEntries(rest)
    ensures EncodeEntries([]) == []
  {
    assert ([e] + rest)[1..] == rest;
  }

  lemma {:induction false} DecodeEncodedEntries(before: bytes, es: seq<NumericEntry>, after: bytes)
    ensures DecodeEntries(before + EncodeEntries(es) + after, |before|, |es|) == Some(es)
    decreases |es|
  {
    hide EncodeEntry, EncodeEntries, Uint32, Uint64;
    if es != [] {
      var e, rest := es[0], es[1..];
      assert es == [e] + rest;
      EncodeNext(e, rest);
      var enc, tail := EncodeEntry(e), EncodeEntries(rest) + after;
      DecodeEncodedEntries(before + enc, rest, after);
      assert before + EncodeEntries(es) + after == before + enc + tail == (before + enc) + EncodeEntries(rest) + after;
      DecodeNext(before, e, tail, rest);
    }
  }

  /** Whatever follows an encoded block is ignored. */
  lemma BlockRoundTrip(es: seq<NumericEntry>, after: bytes)
    requires |es| < U32_LIMIT
    ensures DecodeBlock(EncodeBlock(es) + after) == Some(es)
  {
    hide PutUint32, Uint32, EncodeEntries, DecodeEntries;
    var data := EncodeBlock(es) + after;
    assert data[..4] == PutUint32(|es|);
    Uint32RoundTrip(|es|);
    DecodeEncodedEntries(PutUint32(|es|), es, after);
  }

  lemma {:induction false} DecodeCutEntries(before: bytes, es: seq<NumericEntry>, cut: bytes)
    requires cut < EncodeEntries(es)
    ensures DecodeEntries(before + cut, |before|, |es|) == None
    decreases |es|
  {
    hide EncodeEntry, Uint32, Uint64;
    var e := es[0];
    var enc := EncodeEntry(e);
    EntryAt(before, e, EncodeEntries(es[1..]));
    if |enc| <= |cut| {
      var rest := cut[|enc|..];
      assert cut == enc + rest && rest < EncodeEntries(es[1..]);
      EntryAt(before, e, rest);
      assert before + cut == before + enc + rest;
      DecodeCutEntries(before + enc, es[1..], rest);
    } else {
      assert cut == enc[..|cut|];
      CutEntry(before, e, cut);
    }
  }

  lemma CutEntry(before: bytes, e: NumericEntry, cut: bytes)
    requires cut < EncodeEntry(e)
    ensures var data, o := before + cut, |before|;
            o + 12 > |data| || o + 12 + Uint32(data[o + 8..o + 12]) > |data|
  {
    hide Uint32, Uint64;
    EntryAt(before, e, []);
    var data, whole, o := before + cut, before + EncodeEntry(e) + [], |before|;
    if o + 12 <= |data| {
      assert data[o + 8..o + 12] == whole[o + 8..o + 12];
    }
  }

  /** No strict prefix of an encoded block is accepted. */
  lemma CutBlockRejected(es: seq<NumericEntry>, cut: bytes)
    requires |es| < U32_LIMIT && cut < EncodeBlock(es)
    ensures DecodeBlock(cut) == None
  {
    hide PutUint32, Uint32, EncodeEntries, DecodeEntries;
    if |cut| >= 4 {
      assert cut[..4] == PutUint32(|es|);
      Uint32RoundTrip(|es|);
      assert cut == PutUint32(|es|) + cut[4..] && cut[4..] < EncodeEntries(es);
      DecodeCutEntries(PutUint32(|es|), es, cut[4..]);
    }
  }

  // --- What is a block ---------------------------------------------------------

  lemma {:induction false} DecodedEntriesStand(data: bytes, offset: nat, count: nat)
    requires offset <= |data| && DecodeEntries(data, offset, count).Some?
    ensures var es := DecodeEntries(data, offset, count).value;
            |es| == count && EncodeEntries(es) <= data[offset..]
    decreases count
  {
    if count > 0 {
      var idLen := Uint32(data[offset + 8..offset + 12]);
      var next := offset + 12 + idLen;
      DecodedEntriesStand(data, next, count - 1);
      var rest := DecodeEntries(data, next, count - 1).value;
      var e := NumericEntry(Uint64(data[offset..offset + 8]), data[offset + 12..next]);
      EntryStands(data, offset, e);
      assert ([e] + rest)[1..] == rest;
      PrefixesJoin(data, offset, EncodeEntry(e), EncodeEntries(rest));
    }
  }

  lemma EntryStands(data: bytes, offset: nat, e: NumericEntry)
    requires offset + 12 + |e.docId| <= |data| && e.value == Uint64(data[offset..offset + 8])
    requires |e.docId| == Uint32(data[offset + 8..offset + 12])
    requires e.docId == data[offset + 12..offset + 12 + |e.docId|]
    ensures EncodeEntry(e) <= data[offset..] && |EncodeEntry(e)| == 12 + |e.docId|
  {
    hide PutUint64, Uint64, PutUint32, Uint32;
    Uint64Canonical(data[offset..offset + 8]);
    Uint32Canonical(data[offset + 8..offset + 12]);
    assert EncodeEntry(e)
        == data[offset..offset + 8] + data[offset + 8..offset + 12] + data[offset + 12..offset + 12 + |e.docId|]
        == data[offset..][..12 + |e.docId|];
  }

  lemma PrefixesJoin(data: bytes, offset: nat, a: bytes, b: bytes)
    requires offset + |a| <= |data| && a <= data[offset..] && b <= data[offset + |a|..]
    ensures a + b <= data[offset..]
  {
    assert data[offset..][|a|..] == data[offset + |a|..];
  }

  /** Decoding accepts exactly the data that start with an encoded block, and yields its entries. */
  lemma DecodesIff(data: bytes, es: seq<NumericEntry>)
    ensures DecodeBlock(data) == Some(es) <==> |es| < U32_LIMIT && EncodeBlock(es) <= data
  {
    if DecodeBlock(data) == Some(es) {
      DecodedEntriesStand(data, 4, Uint32(data[..4]));
      Uint32Canonical(data[..4]);
      assert data[0..] == data;
      hide PutUint32, Uint32;
      PrefixesJoin(data, 0, PutUint32(|es|), EncodeEntries(es));
    }
    if |es| < U32_LIMIT && EncodeBlock(es) <= data {
      BlockRoundTrip(es, data[|EncodeBlock(es)|..]);
      assert data == EncodeBlock(es) + data[|EncodeBlock(es)|..];
    }
  }

  /** The bytes of a block: the count, and of each entry its code, the length of its id, and the id. */
  lemma BlockBytes()
    ensures EncodeBlock([NumericEntry(0x0102_0304_0506_0708, [97, 98]), NumericEntry(9, [])])
            == [0, 0, 0, 2] + [1, 2, 3, 4, 5, 6, 7, 8, 0, 0, 0, 2, 97, 98] + [0, 0, 0, 0, 0, 0, 0, 9, 0, 0, 0, 0]
  {
    var e, f := NumericEntry(0x0102_0304_0506_0708, [97, 98]), NumericEntry(9, []);
    assert EncodeEntry(e) == [1, 2, 3, 4, 5, 6, 7, 8, 0, 0, 0, 2, 97, 98];
    assert EncodeEntry(f) == [0, 0, 0, 0, 0, 0, 0, 9, 0, 0, 0, 0];
    assert [e, f][1..] == [f] && [f][1..] == [];
    assert EncodeEntries([f]) == EncodeEntry(f) + EncodeEntries([]);
    assert EncodeEntries([e, f]) == EncodeEntry(e) + EncodeEntries([f]);
  }
}
