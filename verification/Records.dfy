/** Blob records: the bytes written to a segment for one key and value, how they are read back,
    and how a segment scan sees them. */
module Records {
  import opened Bytes

  const BLOB_MAGIC: seq<byte> := [0x42, 0x4C, 0x4F, 0x42]
  const BLOB_MAGIC_COMPRESSED: seq<byte> := [0x42, 0x4C, 0x4F, 0x43]
  const COMPRESSION_THRESHOLD: nat := 128

  datatype Compression = Uncompressed | Lz4

  /** The library functions the store calls. Nothing is assumed about them except what a lemma says.
      `digest` is the 32-byte hash of a key that the Bloom filter works on, `lossy` is what replaces
      a key that is not valid UTF-8. */
  datatype Env = Env(
    crc32: Checksum,
    blake3: seq<byte> -> Str,
    digest: Str -> seq<byte>,
    compress: seq<byte> -> Option<seq<byte>>,
    decompress: (seq<byte>, int) -> Option<seq<byte>>,
    lossy: seq<byte> -> Str)

  /** What `read_blob` returns: `Ok(None)`, `Ok(Some(value))` or an error. */
  datatype ReadOutcome = Missing | Value(value: seq<byte>) | Failure

  // ---------- Writing ----------

  /** The bytes stored for a value, and whether they are compressed. */
  function Stored(env: Env, mode: Compression, value: seq<byte>): (r: (seq<byte>, bool))
    ensures |r.0| <= |value|
    ensures !r.1 ==> r.0 == value
  {
    if mode == Lz4 && |value| >= COMPRESSION_THRESHOLD then
      var c := env.compress(value);
      if c.Some? && |c.value| < |value| then (c.value, true) else (value, false)
    else (value, false)
  }

  /** The checksummed part of a record. */
  function Body(key: Str, stored: seq<byte>, origLen: nat): (r: seq<byte>)
    ensures |r| == 20 + |key| + |stored|
  {
    LE(|key|, 4) + LE(|stored|, 8) + LE(origLen, 8) + key + stored
  }

  function Record(env: Env, mode: Compression, key: Str, value: seq<byte>): (r: seq<byte>)
    ensures |r| == 28 + |key| + |Stored(env, mode, value).0|
  {
    var (stored, compressed) := Stored(env, mode, value);
    var body := Body(key, stored, |value|);
    (if compressed then BLOB_MAGIC_COMPRESSED else BLOB_MAGIC) + body + LE(env.crc32(body), 4)
  }

  /** The lengths survive the casts to u32 and u64. */
  predicate Fits(key: Str, value: seq<byte>) {
    |key| < 0x1_0000_0000 && |value| < 0x1_0000_0000_0000_0000
  }

  // ---------- Reading ----------

  /** A cast to i32. */
  function AsI32(n: nat): (r: int)
    ensures -0x8000_0000 <= r < 0x8000_0000 && (r - n) % 0x1_0000_0000 == 0
  {
    (n + 0x8000_0000) % 0x1_0000_0000 - 0x8000_0000
  }

  predicate HasMagic(s: seq<byte>)
    requires |s| >= 4
  {
    s[..4] == BLOB_MAGIC || s[..4] == BLOB_MAGIC_COMPRESSED
  }

  /** Where the value of the record at the front of `s` ends, by its length fields. */
  function ValueEnd(s: seq<byte>): nat
    requires |s| >= 24
  {
    24 + FromLE(s[4..8]) + FromLE(s[8..16])
  }

  /** What reading the record at the front of `s` gives. */
  function ReadAt(env: Env, s: seq<byte>): ReadOutcome {
    if |s| < 24 || !HasMagic(s) || |s| < ValueEnd(s) + 4 then Failure
    else
      var end := ValueEnd(s);
      var stored := s[24 + FromLE(s[4..8])..end];
      if env.crc32(s[4..end]) != FromLE(s[end..end + 4]) then Failure
      else if s[..4] == BLOB_MAGIC then Value(stored)
      else
        var d := env.decompress(stored, AsI32(FromLE(s[16..24])));
        if d.Some? then Value(d.value) else Failure
  }

  /** What a segment scan makes of the front of `s`: the end, an error, or one record.
      The scan does not verify checksums. */
  datatype Scanned = Stop | Broken | Item(key: Str, origLen: nat, size: nat)

  function Decoded(env: Env, bytes: seq<byte>): Str {
    if ValidUtf8(bytes) then bytes else env.lossy(bytes)
  }

  function ScanAt(env: Env, s: seq<byte>): (r: Scanned)
    ensures r.Item? ==> 28 <= r.size <= |s|
  {
    if |s| < 4 || !HasMagic(s) then Stop
    else if |s| < 24 || |s| < ValueEnd(s) + 4 then Broken
    else Item(Decoded(env, s[24..24 + FromLE(s[4..8])]), FromLE(s[16..24]), ValueEnd(s) + 4)
  }

  // ---------- Reading inverts writing ----------

  lemma BodyFields(key: Str, stored: seq<byte>, origLen: nat)
    requires |key| < 0x1_0000_0000 && |stored| < 0x1_0000_0000_0000_0000 && origLen < 0x1_0000_0000_0000_0000
    ensures var b := Body(key, stored, origLen);
            && FromLE(b[..4]) == |key| && FromLE(b[4..12]) == |stored| && FromLE(b[12..20]) == origLen
            && b[20..20 + |key|] == key && b[20 + |key|..] == stored
  {
    hide LE, FromLE, Pow256;
    var b := Body(key, stored, origLen);
    Widths();
    FromLEInverts(|key|, 4);
    FromLEInverts(|stored|, 8);
    FromLEInverts(origLen, 8);
    assert b[..4] == LE(|key|, 4);
    assert b[4..12] == LE(|stored|, 8);
    assert b[12..20] == LE(origLen, 8);
  }

  /** Slices of bytes framed by a 4-byte magic and followed by anything. */
  lemma Framed(magic: seq<byte>, b: seq<byte>, t: seq<byte>, n: nat)
    requires |magic| == 4 && 20 <= n <= |b|
    ensures var s := magic + b + t;
            && s[..4] == magic && s[4..8] == b[..4] && s[8..16] == b[4..12] && s[16..24] == b[12..20]
            && s[24..4 + n] == b[20..n] && s[4 + n..4 + |b|] == b[n..] && s[4..4 + |b|] == b
  {
  }

  /** The fields of a record, in place, whatever follows it. */
  lemma RecordFields(env: Env, mode: Compression, key: Str, value: seq<byte>, tail: seq<byte>)
    requires Fits(key, value)
    ensures var s := Record(env, mode, key, value) + tail;
            var (stored, compressed) := Stored(env, mode, value);
            && s[..4] == (if compressed then BLOB_MAGIC_COMPRESSED else BLOB_MAGIC)
            && FromLE(s[4..8]) == |key| && FromLE(s[8..16]) == |stored| && FromLE(s[16..24]) == |value|
            && var end := 24 + |key| + |stored|;
            && s[24..24 + |key|] == key && s[24 + |key|..end] == stored
            && s[4..end] == Body(key, stored, |value|)
            && FromLE(s[end..end + 4]) == env.crc32(s[4..end])
  {
    var (stored, compressed) := Stored(env, mode, value);
    var magic := if compressed then BLOB_MAGIC_COMPRESSED else BLOB_MAGIC;
    var b := Body(key, stored, |value|);
    var check := LE(env.crc32(b), 4);
    hide Body, LE;
    ConcatAssoc(magic + b, check, tail);
    BodyFields(key, stored, |value|);
    Framed(magic, b, check + tail, 20 + |key|);
    MiddleSlice(magic + b, check, tail);
    Widths();
    FromLEInverts(env.crc32(b), 4);
  }

  /** A value is stored compressed exactly in compressing mode, from 128 bytes on, and if that makes it
      shorter; the first four bytes of the record say which. */
  lemma CompressedIff(env: Env, mode: Compression, key: Str, value: seq<byte>)
    ensures var c := env.compress(value);
            var small := mode == Lz4 && |value| >= 128 && c.Some? && |c.value| < |value|;
            && Stored(env, mode, value) == (if small then c.value else value, small)
            && Record(env, mode, key, value)[..4] == [0x42, 0x4C, 0x4F, if small then 0x43 else 0x42]
  {
  }

  /** Reading a written record gives the value, except that a compressed one depends on the codec. */
  lemma ReadWritten(env: Env, mode: Compression, key: Str, value: seq<byte>, tail: seq<byte>)
    requires Fits(key, value)
    ensures var (stored, compressed) := Stored(env, mode, value);
            ReadAt(env, Record(env, mode, key, value) + tail) ==
            if !compressed then Value(value)
            else
              var d := env.decompress(stored, AsI32(|value|));
              if d.Some? then Value(d.value) else Failure
  {
    RecordFields(env, mode, key, value, tail);
    hide Record, FromLE;
  }

  /** A record with intact lengths and a wrong stored checksum does not read, whatever follows it; nor
      does anything that starts with neither magic. */
  lemma ReadBadChecksum(env: Env, compressed: bool, key: Str, stored: seq<byte>, origLen: nat, check: seq<byte>, tail: seq<byte>)
    requires |key| < 0x1_0000_0000 && |stored| < 0x1_0000_0000_0000_0000 && origLen < 0x1_0000_0000_0000_0000
    requires |check| == 4 && FromLE(check) != env.crc32(Body(key, stored, origLen))
    ensures var magic := if compressed then BLOB_MAGIC_COMPRESSED else BLOB_MAGIC;
            ReadAt(env, magic + Body(key, stored, origLen) + check + tail) == Failure
  {
    var magic := if compressed then BLOB_MAGIC_COMPRESSED else BLOB_MAGIC;
    var b := Body(key, stored, origLen);
    hide Body, FromLE;
    ConcatAssoc(magic + b, check, tail);
    BodyFields(key, stored, origLen);
    Framed(magic, b, check + tail, 20 + |key|);
    MiddleSlice(magic + b, check, tail);
  }

  lemma ReadBadMagic(env: Env, s: seq<byte>)
    requires |s| >= 4 && s[..4] != [0x42, 0x4C, 0x4F, 0x42] && s[..4] != [0x42, 0x4C, 0x4F, 0x43]
    ensures ReadAt(env, s) == Failure && ScanAt(env, s) == Stop
  {
  }

  /** The compressor used this result for `v`. */
  predicate Compresses(env: Env, v: seq<byte>) {
    Stored(env, Lz4, v).1
  }

  /** The codec pairs up on everything it is used for. */
  ghost predicate CodecPairs(env: Env) {
    forall v: seq<byte> :: |v| < 0x1_0000_0000_0000_0000 && Compresses(env, v) ==>
      env.decompress(Stored(env, Lz4, v).0, AsI32(|v|)) == Some(v)
  }

  ghost predicate ReadsBack(env: Env) {
    forall mode, key: Str, value, tail: seq<byte> :: Fits(key, value) ==>
      ReadAt(env, Record(env, mode, key, value) + tail) == Value(value)
  }

  /** Every record reads back, in either mode and whatever follows it, exactly when the codec pairs up. */
  lemma ReadsBackIffCodecPairs(env: Env)
    ensures ReadsBack(env) <==> CodecPairs(env)
  {
    hide ReadAt, Record, AsI32;
    if CodecPairs(env) {
      forall mode, key: Str, value, tail: seq<byte> | Fits(key, value)
        ensures ReadAt(env, Record(env, mode, key, value) + tail) == Value(value)
      {
        ReadWritten(env, mode, key, value, tail);
        assert Stored(env, mode, value).1 ==> Compresses(env, value);
      }
    }
    if ReadsBack(env) {
      forall v: seq<byte> | |v| < 0x1_0000_0000_0000_0000 && Compresses(env, v)
        ensures env.decompress(Stored(env, Lz4, v).0, AsI32(|v|)) == Some(v)
      {
        ReadWritten(env, Lz4, [], v, []);
        assert Fits([], v);
        assert ReadAt(env, Record(env, Lz4, [], v) + []) == Value(v);
      }
    }
  }

  /** A record that reads correctly goes on reading the same when bytes are appended after it. */
  lemma ReadStable(env: Env, s: seq<byte>, more: seq<byte>)
    requires ReadAt(env, s).Value?
    ensures ReadAt(env, s + more) == ReadAt(env, s)
  {
    var t, end := s + more, ValueEnd(s);
    assert t[..4] == s[..4] && t[4..8] == s[4..8] && t[8..16] == s[8..16] && t[16..24] == s[16..24];
    var k := 24 + FromLE(s[4..8]);
    assert t[k..end] == s[k..end] && t[4..end] == s[4..end] && t[end..end + 4] == s[end..end + 4];
  }

  /** What a scan reports: the key bytes if they are valid UTF-8 and their replacement if not, the
      uncompressed length, and the size; and it breaks exactly when the magic is there and the rest is not. */
  lemma ScanReports(env: Env, s: seq<byte>)
    requires |s| >= 4 && (s[..4] == [0x42, 0x4C, 0x4F, 0x42] || s[..4] == [0x42, 0x4C, 0x4F, 0x43])
    ensures |s| < 24 ==> ScanAt(env, s) == Broken
    ensures |s| >= 24 ==>
              var keyLen, valLen := FromLE(s[4..8]), FromLE(s[8..16]);
              ScanAt(env, s) == if |s| < 28 + keyLen + valLen then Broken
                                else
                                  var key := s[24..24 + keyLen];
                                  Item(if ValidUtf8(key) then key else env.lossy(key), FromLE(s[16..24]), 28 + keyLen + valLen)
  {
    hide FromLE, ValidUtf8;
  }

  /** A scan sees a written record as its key, its uncompressed length and its size. */
  lemma ScanWritten(env: Env, mode: Compression, key: Str, value: seq<byte>, tail: seq<byte>)
    requires Fits(key, value)
    ensures ScanAt(env, Record(env, mode, key, value) + tail) == Item(key, |value|, |Record(env, mode, key, value)|)
  {
    RecordFields(env, mode, key, value, tail);
    hide Record, FromLE;
  }

  /** A record cut within its magic ends a scan; cut anywhere later it breaks it. */
  lemma ScanCut(env: Env, mode: Compression, key: Str, value: seq<byte>, n: nat)
    requires Fits(key, value) && n < |Record(env, mode, key, value)|
    ensures ScanAt(env, Record(env, mode, key, value)[..n]) == if n < 4 then Stop else Broken
  {
    var full := Record(env, mode, key, value);
    RecordFields(env, mode, key, value, []);
    assert full + [] == full;
    hide Record, FromLE;
    var s := full[..n];
    if n >= 4 {
      assert s[..4] == full[..4];
    }
    if n >= 24 {
      assert s[4..8] == full[4..8] && s[8..16] == full[8..16];
    }
  }

  /** A scanned record is scanned the same when bytes are appended after it. */
  lemma ScanStable(env: Env, s: seq<byte>, more: seq<byte>)
    requires ScanAt(env, s).Item?
    ensures ScanAt(env, s + more) == ScanAt(env, s)
  {
    var t := s + more;
    assert t[..4] == s[..4] && t[4..8] == s[4..8] && t[8..16] == s[8..16] && t[16..24] == s[16..24];
    var k := 24 + FromLE(s[4..8]);
    assert t[24..k] == s[24..k];
  }

  // ---------- Step by step ----------

  /** The fixed-size fields of a record, as read. */
  datatype Header = Header(compressed: bool, keyLen: seq<byte>, valLen: seq<byte>, origLen: seq<byte>)

  /** `eof` also stands for a bad magic: a scan ends there, a read fails. */
  method ReadHeader(s: seq<byte>) returns (h: Option<Header>, eof: bool, rest: seq<byte>)
    ensures eof <==> |s| < 4 || !HasMagic(s)
    ensures h.Some? <==> |s| >= 24 && HasMagic(s)
    ensures h.Some? ==>
              h.value == Header(s[..4] == BLOB_MAGIC_COMPRESSED, s[4..8], s[8..16], s[16..24]) && rest == s[24..]
  {
    var magic, keyLen, valLen, origLen;
    magic, rest := ReadExact(s, 4);
    if magic.None? { return None, true, rest; }
    var compressed := magic.value == BLOB_MAGIC_COMPRESSED;
    if magic.value != BLOB_MAGIC && !compressed { return None, true, rest; }
    keyLen, rest := ReadExact(rest, 4);
    if keyLen.None? { return None, false, rest; }
    valLen, rest := ReadExact(rest, 8);
    if valLen.None? { return None, false, rest; }
    origLen, rest := ReadExact(rest, 8);
    if origLen.None? { return None, false, rest; }
    return Some(Header(compressed, keyLen.value, valLen.value, origLen.value)), false, rest;
  }

  lemma ChecksummedPart(s: seq<byte>, keyEnd: nat, end: nat)
    requires 24 <= keyEnd <= end <= |s|
    ensures s[4..8] + s[8..16] + s[16..24] + s[24..keyEnd] + s[keyEnd..end] == s[4..end]
  {
  }

  /** Reads the record at the front of `s`, the part of a segment file after a seek. */
  method ReadRecord(env: Env, s: seq<byte>) returns (r: ReadOutcome)
    ensures r == ReadAt(env, s)
  {
    hide FromLE, Pow256, AsI32;
    var header, eof, rest := ReadHeader(s);
    if header.None? { return Failure; }
    var Header(compressed, keyLen, valLen, origLen) := header.value;
    var key, value, stored;
    key, rest := ReadExact(rest, FromLE(keyLen));
    if key.None? { return Failure; }
    ghost var keyEnd := 24 + FromLE(s[4..8]);
    assert key.value == s[24..keyEnd] && rest == s[keyEnd..];
    value, rest := ReadExact(rest, FromLE(valLen));
    if value.None? { return Failure; }
    ghost var end := ValueEnd(s);
    assert value.value == s[keyEnd..end] && rest == s[end..];
    stored, rest := ReadExact(rest, 4);
    if stored.None? { return Failure; }
    assert stored.value == s[end..end + 4];
    ChecksummedPart(s, keyEnd, end);
    if env.crc32(keyLen + valLen + origLen + key.value + value.value) != FromLE(stored.value) { return Failure; }
    if compressed {
      var d := env.decompress(value.value, AsI32(FromLE(origLen)));
      return if d.Some? then Value(d.value) else Failure;
    }
    return Value(value.value);
  }

  /** One round of the segment scan. */
  method ScanRecord(env: Env, s: seq<byte>) returns (r: Scanned, rest: seq<byte>)
    ensures r == ScanAt(env, s)
    ensures r.Item? ==> rest == s[r.size..]
  {
    hide FromLE, ValidUtf8;
    var header, eof;
    header, eof, rest := ReadHeader(s);
    if header.None? { return if eof then Stop else Broken, rest; }
    var keyLen, valLen := FromLE(header.value.keyLen), FromLE(header.value.valLen);
    var keyBytes, checksum;
    keyBytes, rest := ReadExact(rest, keyLen);
    if keyBytes.None? { return Broken, rest; }
    var key := if ValidUtf8(keyBytes.value) then keyBytes.value else env.lossy(keyBytes.value);
    assert keyBytes.value == s[24..24 + keyLen] && rest == s[24 + keyLen..];
    rest := if valLen <= |rest| then rest[valLen..] else [];
    checksum, rest := ReadExact(rest, 4);
    if checksum.None? { return Broken, rest; }
    assert rest == s[ValueEnd(s) + 4..];
    return Item(key, FromLE(header.value.origLen), 4 + 4 + 8 + 8 + keyLen + valLen + 4), rest;
  }
}
