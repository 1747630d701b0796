/** Bytes and the big-endian integers of Go's encoding/binary. */
module Bytes {

  type byte = b: int | 0 <= b < 256

  type bytes = seq<byte>

  const U32_LIMIT := 0x1_0000_0000
  const U64_LIMIT := 0x1_0000_0000_0000_0000

  /** A byte string whose length fits the 32-bit length fields of the on-disk formats. */
  type Blob = s: bytes | |s| < U32_LIMIT

  type u64 = n: int | 0 <= n < U64_LIMIT

  /** `binary.BigEndian.PutUint32(buf, uint32(v))`: the conversion keeps the low 32 bits. */
  function PutUint32(v: nat): (s: bytes)
    ensures |s| == 4
  {
    [v / 0x1000000 % 256, v / 0x10000 % 256, v / 0x100 % 256, v % 256]
  }

  function Uint32(s: bytes): (v: nat)
    requires |s| == 4
    ensures v < U32_LIMIT
  {
    s[0] as int * 0x1000000 + s[1] as int * 0x10000 + s[2] as int * 0x100 + s[3] as int
  }

  function PutUint64(v: u64): (s: bytes)
    ensures |s| == 8
  {
    PutUint32(v / U32_LIMIT) + PutUint32(v % U32_LIMIT)
  }

  function Uint64(s: bytes): (v: u64)
    requires |s| == 8
  {
    Uint32(s[..4]) * U32_LIMIT + Uint32(s[4..])
  }

  lemma Uint32RoundTrip(v: nat)
    ensures Uint32(PutUint32(v)) == v % U32_LIMIT
  {
    var a := v / 256;
    var b := a / 256;
    var c := b / 256;
    assert v / 0x10000 == b && v / 0x1000000 == c;
    var s := [c % 256, b % 256, a % 256, v % 256];
    assert PutUint32(v) == s;
    hide PutUint32;
    assert v == 256 * a + s[3] && a == 256 * b + s[2] && b == 256 * c + s[1] && c == 256 * (c / 256) + s[0];
    assert v == U32_LIMIT * (c / 256) + Uint32(s);
  }

  lemma Uint64RoundTrip(v: u64)
    ensures Uint64(PutUint64(v)) == v
  {
    hide PutUint32, Uint32;
    Uint32RoundTrip(v / U32_LIMIT);
    Uint32RoundTrip(v % U32_LIMIT);
    var s := PutUint64(v);
    assert s[..4] == PutUint32(v / U32_LIMIT) && s[4..] == PutUint32(v % U32_LIMIT);
  }

  /** Every four bytes are the encoding of their number. */
  lemma Uint32Canonical(s: bytes)
    requires |s| == 4
    ensures PutUint32(Uint32(s)) == s
  {
    var v := Uint32(s);
    assert v / 256 == s[0] as int * 0x10000 + s[1] as int * 0x100 + s[2] as int;
    assert v / 0x10000 == s[0] as int * 0x100 + s[1] as int && v / 0x1000000 == s[0];
  }

  lemma Uint64Canonical(s: bytes)
    requires |s| == 8
    ensures PutUint64(Uint64(s)) == s
  {
    hide PutUint32, Uint32;
    Uint32Canonical(s[..4]);
    Uint32Canonical(s[4..]);
    assert Uint64(s) / U32_LIMIT == Uint32(s[..4]) && Uint64(s) % U32_LIMIT == Uint32(s[4..]);
    assert s == s[..4] + s[4..];
  }
}
