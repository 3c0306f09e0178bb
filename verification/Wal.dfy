/** The write-ahead log: entry codec, appending, replay, and what survives a crash. */
module Wal {
  import opened Bytes

  const WAL_MAGIC: seq<byte> := [0x57, 0x41, 0x4C, 0x31]
  const OP_PUT: byte := 1
  const OP_DELETE: byte := 2

  datatype Op = Put(key: Str, value: seq<byte>) | Delete(key: Str)
  datatype Entry = Entry(sequence: nat, op: Op)
  datatype SyncPolicy = Always | Interval | Never

  /** What one attempt to read an entry gives: end of log, an error, or an entry and its size. */
  datatype ReadResult = Eof | Corrupt | Read(entry: Entry, size: nat)

  /** The lengths and the sequence number survive the casts to u32 and u64. */
  predicate Fits(e: Entry) {
    && e.sequence < 0x1_0000_0000_0000_0000
    && |e.op.key| < 0x1_0000_0000
    && (e.op.Put? ==> |e.op.value| < 0x1_0000_0000)
  }

  predicate AllFit(es: seq<Entry>) {
    forall i :: 0 <= i < |es| ==> Fits(es[i])
  }

  // ---------- Codec ----------

  function OpCode(op: Op): byte {
    if op.Put? then OP_PUT else OP_DELETE
  }

  function ValueOf(op: Op): seq<byte> {
    if op.Put? then op.value else []
  }

  /** The checksummed part of an entry. */
  function Body(e: Entry): (r: seq<byte>)
    ensures |r| == 17 + |e.op.key| + |ValueOf(e.op)|
  {
    LE(e.sequence, 8) + [OpCode(e.op)] + LE(|e.op.key|, 4) + LE(|ValueOf(e.op)|, 4) + e.op.key + ValueOf(e.op)
  }

  function Encode(crc: Checksum, e: Entry): (r: seq<byte>)
    ensures |r| == 25 + |e.op.key| + |ValueOf(e.op)|
  {
    WAL_MAGIC + Body(e) + LE(crc(Body(e)), 4)
  }

  function EncodeAll(crc: Checksum, es: seq<Entry>): seq<byte> {
    if es == [] then [] else Encode(crc, es[0]) + EncodeAll(crc, es[1..])
  }

  /** What reading an entry from the front of `s` gives. */
  function Decode(crc: Checksum, s: seq<byte>): (r: ReadResult)
    ensures r.Read? ==> 0 < r.size <= |s|
  {
    if |s| < 4 then Eof
    else if s[..4] != WAL_MAGIC || |s| < 21 then Corrupt
    else
      var keyEnd := 21 + FromLE(s[13..17]);
      if |s| < keyEnd || !ValidUtf8(s[21..keyEnd]) then Corrupt
      else
        var end := if s[12] == OP_PUT then keyEnd + FromLE(s[17..21]) else keyEnd;
        if |s| < end + 4 || crc(s[4..end]) != FromLE(s[end..end + 4]) then Corrupt
        else if s[12] == OP_PUT then
          Read(Entry(FromLE(s[4..12]), Put(s[21..keyEnd], s[keyEnd..end])), end + 4)
        else if s[12] == OP_DELETE then
          Read(Entry(FromLE(s[4..12]), Delete(s[21..keyEnd])), end + 4)
        else Corrupt
  }

  /** The entries that replaying a log file delivers. */
  function Replayed(crc: Checksum, s: seq<byte>): seq<Entry> {
    var r := Decode(crc, s);
    if r.Read? then [r.entry] + Replayed(crc, s[r.size..]) else []
  }

  lemma BodyFields(e: Entry)
    requires Fits(e)
    ensures var b := Body(e);
            && FromLE(b[..8]) == e.sequence && b[8] == OpCode(e.op)
            && FromLE(b[9..13]) == |e.op.key| && FromLE(b[13..17]) == |ValueOf(e.op)|
            && b[17..17 + |e.op.key|] == e.op.key && b[17 + |e.op.key|..] == ValueOf(e.op)
  {
    hide LE, FromLE, Pow256;
    Widths();
    FromLEInverts(e.sequence, 8);
    FromLEInverts(|e.op.key|, 4);
    FromLEInverts(|ValueOf(e.op)|, 4);
    var b := Body(e);
    assert b[..8] == LE(e.sequence, 8);
    assert b[9..13] == LE(|e.op.key|, 4);
    assert b[13..17] == LE(|ValueOf(e.op)|, 4);
  }

  /** Slices of bytes framed by a 4-byte magic and followed by anything. */
  lemma Framed(magic: seq<byte>, b: seq<byte>, s: seq<byte>, n: nat)
    requires |magic| == 4 && 17 <= n <= |b| && magic + b <= s
    ensures s[..4] == magic && s[4..12] == b[..8] && s[12] == b[8] && s[13..17] == b[9..13] && s[17..21] == b[13..17]
    ensures s[21..4 + n] == b[17..n] && s[4 + n..4 + |b|] == b[n..] && s[4..4 + |b|] == b
  {
    var p := magic + b;
    assert forall i :: 0 <= i < |p| ==> s[i] == p[i];
  }

  /** Where the fields of an entry sit in any byte sequence that starts with its magic and body. */
  lemma FieldsInPlace(e: Entry, s: seq<byte>)
    requires Fits(e)
    requires WAL_MAGIC + Body(e) <= s
    ensures |s| >= 21 && s[..4] == WAL_MAGIC == [0x57, 0x41, 0x4C, 0x31] && s[12] == OpCode(e.op) == if e.op.Put? then 1 else 2
    ensures FromLE(s[4..12]) == e.sequence
    ensures FromLE(s[13..17]) == |e.op.key| && FromLE(s[17..21]) == |ValueOf(e.op)|
    ensures var k := 21 + |e.op.key|;
            s[21..k] == e.op.key && s[k..k + |ValueOf(e.op)|] == ValueOf(e.op) && s[4..k + |ValueOf(e.op)|] == Body(e)
  {
    hide Body, FromLE;
    BodyFields(e);
    Framed(WAL_MAGIC, Body(e), s, 17 + |e.op.key|);
  }

  /** Reading bytes that start with an entry's magic and body: the stored checksum decides. */
  lemma DecodeFrame(crc: Checksum, e: Entry, s: seq<byte>)
    requires Fits(e)
    requires WAL_MAGIC + Body(e) <= s && 8 + |Body(e)| <= |s|
    ensures var end := 4 + |Body(e)|;
            Decode(crc, s) == if FromLE(s[end..end + 4]) == crc(Body(e)) then Read(e, end + 4) else Corrupt
  {
    hide Body, FromLE;
    FieldsInPlace(e, s);
  }

  /** Reading back an entry gives that entry, whatever follows it. */
  lemma DecodeEncode(crc: Checksum, e: Entry, tail: seq<byte>)
    requires Fits(e)
    ensures Decode(crc, Encode(crc, e) + tail) == Read(e, |Encode(crc, e)|)
  {
    var head, stored := WAL_MAGIC + Body(e), LE(crc(Body(e)), 4);
    MiddleSlice(head, stored, tail);
    DecodeFrame(crc, e, head + stored + tail);
    Widths();
    FromLEInverts(crc(Body(e)), 4);
  }

  /** An entry cut anywhere before its end is never delivered. */
  lemma DecodeCut(crc: Checksum, e: Entry, n: nat)
    requires Fits(e) && n < |Encode(crc, e)|
    ensures !Decode(crc, Encode(crc, e)[..n]).Read?
  {
    hide Body, LE, FromLE, ValidUtf8;
    var full := Encode(crc, e);
    var s := full[..n];
    if n >= 21 {
      assert WAL_MAGIC + Body(e) <= full;
      FieldsInPlace(e, full);
      assert s[13..17] == full[13..17] && s[17..21] == full[17..21];
    }
  }

  /** An entry with intact lengths and a wrong stored checksum is an error, whatever follows it. */
  lemma DecodeBadChecksum(crc: Checksum, e: Entry, stored: seq<byte>, tail: seq<byte>)
    requires Fits(e) && |stored| == 4 && FromLE(stored) != crc(Body(e))
    ensures Decode(crc, WAL_MAGIC + Body(e) + stored + tail) == Corrupt
  {
    var head := WAL_MAGIC + Body(e);
    MiddleSlice(head, stored, tail);
    DecodeFrame(crc, e, head + stored + tail);
  }

  lemma {:induction false} LEInverts(s: seq<byte>)
    ensures LE(FromLE(s), |s|) == s
  {
    if s != [] {
      LEInverts(s[1..]);
      assert FromLE(s) % 256 == s[0] && FromLE(s) / 256 == FromLE(s[1..]);
    }
  }

  lemma DeliveredFields(crc: Checksum, s: seq<byte>)
    requires Decode(crc, s).Read?
    ensures var e, n := Decode(crc, s).entry, Decode(crc, s).size;
            var k := 21 + |e.op.key|;
            && k <= n - 4 < n <= |s| && s[..4] == WAL_MAGIC && s[12] == OpCode(e.op)
            && FromLE(s[4..12]) == e.sequence && FromLE(s[13..17]) == |e.op.key|
            && s[21..k] == e.op.key && s[k..n - 4] == ValueOf(e.op)
            && (e.op.Put? ==> FromLE(s[17..21]) == |e.op.value|)
            && FromLE(s[n - 4..n]) == crc(s[4..n - 4])
  {
    hide FromLE, ValidUtf8;
  }

  lemma DeliveredFits(crc: Checksum, s: seq<byte>)
    requires Decode(crc, s).Read?
    ensures Fits(Decode(crc, s).entry)
  {
    Widths();
    DeliveredFields(crc, s);
    assert FromLE(s[4..12]) < Pow256(8) && FromLE(s[13..17]) < Pow256(4) && FromLE(s[17..21]) < Pow256(4);
    hide Decode, FromLE, Pow256;
  }

  lemma DeliveredBody(crc: Checksum, s: seq<byte>)
    requires Decode(crc, s).Read? && (Decode(crc, s).entry.op.Put? || FromLE(s[17..21]) == 0)
    ensures s[4..Decode(crc, s).size - 4] == Body(Decode(crc, s).entry)
  {
    var e, n := Decode(crc, s).entry, Decode(crc, s).size;
    DeliveredFields(crc, s);
    LEInverts(s[4..12]);
    LEInverts(s[13..17]);
    LEInverts(s[17..21]);
    hide Decode, FromLE, LE;
    ChecksummedPart(s, 21 + |e.op.key|, n - 4);
  }

  lemma ThreeParts(s: seq<byte>, n: nat)
    requires 8 <= n <= |s|
    ensures s[..n] == s[..4] + s[4..n - 4] + s[n - 4..n]
  {
  }

  lemma DeliveredEncoding(crc: Checksum, s: seq<byte>)
    requires Decode(crc, s).Read? && (Decode(crc, s).entry.op.Put? || FromLE(s[17..21]) == 0)
    ensures s[..Decode(crc, s).size] == Encode(crc, Decode(crc, s).entry)
  {
    var e, n := Decode(crc, s).entry, Decode(crc, s).size;
    DeliveredFields(crc, s);
    DeliveredBody(crc, s);
    LEInverts(s[n - 4..n]);
    hide Decode, FromLE, LE, Body, OpCode, ValueOf, ValidUtf8;
    ThreeParts(s, n);
  }

  /** Whatever is delivered was written: the bytes read are exactly the entry's encoding, up to the
      value length of a delete, which is not looked at. */
  lemma DeliveredIsWritten(crc: Checksum, s: seq<byte>)
    requires Decode(crc, s).Read?
    ensures var e, n := Decode(crc, s).entry, Decode(crc, s).size;
            Fits(e) && (s[..n] == Encode(crc, e) <==> e.op.Put? || FromLE(s[17..21]) == 0)
  {
    DeliveredFields(crc, s);
    DeliveredFits(crc, s);
    hide Decode, FromLE, Body, LE;
    var e, n := Decode(crc, s).entry, Decode(crc, s).size;
    if e.op.Put? || FromLE(s[17..21]) == 0 {
      DeliveredEncoding(crc, s);
    } else {
      FieldsInPlace(e, Encode(crc, e));
      SliceTake(s, n, 17, 21);
      assert FromLE(s[..n][17..21]) != FromLE(Encode(crc, e)[17..21]);
    }
  }

  // ---------- Whole logs ----------

  lemma {:induction false} EncodeAllConcat(crc: Checksum, a: seq<Entry>, b: seq<Entry>)
    ensures EncodeAll(crc, a + b) == EncodeAll(crc, a) + EncodeAll(crc, b)
  {
    hide Encode;
    if a == [] {
      assert a + b == b;
    } else {
      EncodeAllConcat(crc, a[1..], b);
      ConcatTail(a, b);
      ConcatAssoc(Encode(crc, a[0]), EncodeAll(crc, a[1..]), EncodeAll(crc, b));
    }
  }

  lemma ReplayStep(crc: Checksum, e: Entry, more: seq<byte>)
    requires Fits(e)
    ensures Replayed(crc, Encode(crc, e) + more) == [e] + Replayed(crc, more)
  {
    DecodeEncode(crc, e, more);
    DropPrefix(Encode(crc, e), more);
  }

  /** Replay delivers a whole log and then goes on with what follows it. */
  lemma {:induction false} ReplayThrough(crc: Checksum, es: seq<Entry>, tail: seq<byte>)
    requires AllFit(es)
    ensures Replayed(crc, EncodeAll(crc, es) + tail) == es + Replayed(crc, tail)
  {
    if es == [] {
      assert EncodeAll(crc, es) + tail == tail;
    } else {
      var more := EncodeAll(crc, es[1..]);
      calc {
        Replayed(crc, EncodeAll(crc, es) + tail);
        { ConcatAssoc(Encode(crc, es[0]), more, tail); }
        Replayed(crc, Encode(crc, es[0]) + (more + tail));
        { ReplayStep(crc, es[0], more + tail); }
        [es[0]] + Replayed(crc, more + tail);
        { ReplayThrough(crc, es[1..], tail); }
        [es[0]] + (es[1..] + Replayed(crc, tail));
        { ConcatAssoc([es[0]], es[1..], Replayed(crc, tail)); HeadTail(es); }
        es + Replayed(crc, tail);
      }
    }
  }

  /** Replaying an intact log gives back exactly the entries written, in order. */
  lemma ReplayInverts(crc: Checksum, es: seq<Entry>)
    requires AllFit(es)
    ensures Replayed(crc, EncodeAll(crc, es)) == es
  {
    ReplayThrough(crc, es, []);
    assert EncodeAll(crc, es) + [] == EncodeAll(crc, es);
  }

  /** Crash prefix: cut the log at any byte. If exactly `k` entries end at or before the cut,
      replay delivers exactly those `k` entries. */
  lemma CrashPrefix(crc: Checksum, es: seq<Entry>, cut: nat, k: nat)
    requires AllFit(es) && cut <= |EncodeAll(crc, es)| && k <= |es|
    requires |EncodeAll(crc, es[..k])| <= cut
    requires k < |es| ==> cut < |EncodeAll(crc, es[..k + 1])|
    ensures Replayed(crc, EncodeAll(crc, es)[..cut]) == es[..k]
  {
    hide Encode, Decode;
    var whole := EncodeAll(crc, es[..k]);
    assert es == es[..k] + es[k..];
    EncodeAllConcat(crc, es[..k], es[k..]);
    if k == |es| {
      assert es[..k] == es;
      assert EncodeAll(crc, es)[..cut] == EncodeAll(crc, es);
      ReplayInverts(crc, es);
    } else {
      assert es[..k + 1] == es[..k] + [es[k]];
      EncodeAllConcat(crc, es[..k], [es[k]]);
      assert EncodeAll(crc, [es[k]]) == Encode(crc, es[k]);
      var m := cut - |whole|;
      assert EncodeAll(crc, es)[..cut] == whole + Encode(crc, es[k])[..m];
      ReplayThrough(crc, es[..k], Encode(crc, es[k])[..m]);
      DecodeCut(crc, es[k], m);
    }
  }

  /** Every cut has such a `k`, so every crash loses a suffix of the entries and nothing else. */
  lemma {:induction false} CrashKeepsAPrefix(crc: Checksum, es: seq<Entry>, cut: nat) returns (k: nat)
    requires AllFit(es) && cut <= |EncodeAll(crc, es)|
    ensures k <= |es| && Replayed(crc, EncodeAll(crc, es)[..cut]) == es[..k]
    ensures |EncodeAll(crc, es[..k])| <= cut && (k < |es| ==> cut < |EncodeAll(crc, es[..k + 1])|)
  {
    hide Encode, Decode, Replayed;
    k := 0;
    while k < |es| && |EncodeAll(crc, es[..k + 1])| <= cut
      invariant k <= |es| && |EncodeAll(crc, es[..k])| <= cut
    {
      k := k + 1;
    }
    CrashPrefix(crc, es, cut, k);
  }

  /** Corruption: damage the stored checksum of the entry after `es`. Whatever comes later,
      replay delivers exactly the entries before the damaged one. */
  lemma ReplayStopsAtDamage(crc: Checksum, es: seq<Entry>, e: Entry, stored: seq<byte>, tail: seq<byte>)
    requires AllFit(es) && Fits(e) && |stored| == 4 && FromLE(stored) != crc(Body(e))
    ensures Replayed(crc, EncodeAll(crc, es) + (WAL_MAGIC + Body(e) + stored + tail)) == es
  {
    hide Decode, Body, EncodeAll, FromLE;
    DecodeBadChecksum(crc, e, stored, tail);
    ReplayThrough(crc, es, WAL_MAGIC + Body(e) + stored + tail);
  }

  // ---------- Sequence numbers ----------

  predicate Numbered(es: seq<Entry>) {
    forall i :: 0 <= i < |es| ==> es[i].sequence == i
  }

  function MaxSequence(es: seq<Entry>): nat {
    if es == [] then 0
    else
      var m := MaxSequence(es[..|es| - 1]);
      if m > es[|es| - 1].sequence then m else es[|es| - 1].sequence
  }

  /** The number given to the first entry appended after opening a log that holds `es`. */
  function NextSequence(es: seq<Entry>): nat {
    if es == [] then 0 else MaxSequence(es) + 1
  }

  /** The next number is above every number in use, by one above the highest. */
  lemma {:induction false} NextSequenceIsFresh(es: seq<Entry>)
    ensures forall i :: 0 <= i < |es| ==> es[i].sequence < NextSequence(es)
    ensures if es == [] then NextSequence(es) == 0 else exists i :: 0 <= i < |es| && es[i].sequence == NextSequence(es) - 1
  {
    if es != [] {
      var before := es[..|es| - 1];
      NextSequenceIsFresh(before);
      assert es[|es| - 1].sequence <= MaxSequence(es);
      if before != [] && MaxSequence(before) > es[|es| - 1].sequence {
        var i :| 0 <= i < |before| && before[i].sequence == NextSequence(before) - 1;
        assert es[i].sequence == NextSequence(es) - 1;
      } else {
        assert es[|es| - 1].sequence == NextSequence(es) - 1;
      }
    }
  }

  lemma {:induction false} NumberedNext(es: seq<Entry>)
    requires Numbered(es)
    ensures NextSequence(es) == |es|
  {
    if es != [] {
      NumberedNext(es[..|es| - 1]);
    }
  }

  /** A byte stream that is exactly its entries, numbered 0, 1, 2, ..., with the next number after them. */
  predicate Intact(crc: Checksum, stream: seq<byte>, next: nat) {
    var es := Replayed(crc, stream);
    stream == EncodeAll(crc, es) && Numbered(es) && AllFit(es) && next == |es|
  }

  /** Appending the next numbered entry keeps a stream intact and adds exactly that entry. */
  lemma AppendKeepsIntact(crc: Checksum, stream: seq<byte>, next: nat, op: Op)
    requires Intact(crc, stream, next) && Fits(Entry(next, op))
    ensures Intact(crc, stream + Encode(crc, Entry(next, op)), next + 1)
    ensures Replayed(crc, stream + Encode(crc, Entry(next, op))) == Replayed(crc, stream) + [Entry(next, op)]
  {
    hide Encode, Decode;
    var es, e := Replayed(crc, stream), Entry(next, op);
    EncodeAllConcat(crc, es, [e]);
    assert EncodeAll(crc, [e]) == Encode(crc, e);
    ReplayInverts(crc, es + [e]);
  }

  /** The file of numbered entries reopens intact: the next number is the number of entries. */
  lemma ReopenIntact(crc: Checksum, es: seq<Entry>)
    requires AllFit(es) && Numbered(es)
    ensures Intact(crc, EncodeAll(crc, es), NextSequence(Replayed(crc, EncodeAll(crc, es))))
  {
    ReplayInverts(crc, es);
    NumberedNext(es);
  }

  /** What can happen to a fully flushed log between two moments. */
  datatype LogStep = Appended(op: Op) | Truncated | Reopened

  datatype LogState = LogState(stream: seq<byte>, next: nat)

  function AfterSteps(crc: Checksum, steps: seq<LogStep>): LogState {
    if steps == [] then LogState([], 0)
    else
      var before := AfterSteps(crc, steps[..|steps| - 1]);
      match steps[|steps| - 1]
      case Appended(op) => LogState(before.stream + Encode(crc, Entry(before.next, op)), before.next + 1)
      case Truncated => LogState([], 0)
      case Reopened => LogState(before.stream, NextSequence(Replayed(crc, before.stream)))
  }

  /** Numbering: after every run of appends, truncations and reopenings the file holds exactly the
      entries 0 to n-1 in order, and the next number is n. */
  lemma {:induction false} RunsStayIntact(crc: Checksum, steps: seq<LogStep>)
    requires |steps| <= 0x1_0000_0000_0000_0000
    requires forall s :: s in steps && s.Appended? ==> Fits(Entry(0, s.op))
    ensures var after := AfterSteps(crc, steps);
            Intact(crc, after.stream, after.next) && after.next <= |steps|
  {
    if steps == [] {
      assert EncodeAll(crc, []) == [];
    } else {
      RunsStayIntact(crc, steps[..|steps| - 1]);
      var before := AfterSteps(crc, steps[..|steps| - 1]);
      match steps[|steps| - 1]
      case Appended(op) => AppendKeepsIntact(crc, before.stream, before.next, op);
      case Truncated => assert EncodeAll(crc, []) == [];
      case Reopened => ReopenIntact(crc, Replayed(crc, before.stream));
                       NumberedNext(Replayed(crc, before.stream));
    }
  }

  // ---------- The reader ----------

  lemma ChecksummedPart(s: seq<byte>, keyEnd: nat, end: nat)
    requires 21 <= keyEnd <= end <= |s|
    ensures s[4..12] + [s[12]] + s[13..17] + s[17..21] + s[21..keyEnd] + s[keyEnd..end] == s[4..end]
  {
  }

  /** The fixed-size fields of an entry, as read: they are checksummed byte for byte. */
  datatype Header = Header(sequence: seq<byte>, op: byte, keyLen: seq<byte>, valLen: seq<byte>)

  method ReadHeader(s: seq<byte>) returns (h: Option<Header>, eof: bool, rest: seq<byte>)
    ensures eof <==> |s| < 4
    ensures h.Some? <==> |s| >= 21 && s[..4] == WAL_MAGIC
    ensures h.Some? ==> h.value == Header(s[4..12], s[12], s[13..17], s[17..21]) && rest == s[21..]
  {
    var magic, sequence, op, keyLen, valLen;
    magic, rest := ReadExact(s, 4);
    if magic.None? { return None, true, rest; }
    if magic.value != WAL_MAGIC { return None, false, rest; }
    sequence, rest := ReadExact(rest, 8);
    if sequence.None? { return None, false, rest; }
    op, rest := ReadExact(rest, 1);
    if op.None? { return None, false, rest; }
    keyLen, rest := ReadExact(rest, 4);
    if keyLen.None? { return None, false, rest; }
    valLen, rest := ReadExact(rest, 4);
    if valLen.None? { return None, false, rest; }
    return Some(Header(sequence.value, op.value[0], keyLen.value, valLen.value)), false, rest;
  }

  method ReadEntry(crc: Checksum, s: seq<byte>) returns (r: ReadResult, rest: seq<byte>)
    ensures r == Decode(crc, s)
    ensures r.Read? ==> rest == s[r.size..]
  {
    hide FromLE, Pow256, ValidUtf8;
    var header, eof, key, stored;
    header, eof, rest := ReadHeader(s);
    if header.None? { return if eof then Eof else Corrupt, rest; }
    var Header(sequence, op, keyLen, valLen) := header.value;
    key, rest := ReadExact(rest, FromLE(keyLen));
    if key.None? { return Corrupt, rest; }
    ghost var keyEnd := 21 + FromLE(s[13..17]);
    assert key.value == s[21..keyEnd] && rest == s[keyEnd..];
    if !ValidUtf8(key.value) { return Corrupt, rest; }
    var value: Option<seq<byte>> := Some([]);
    if op == OP_PUT {
      value, rest := ReadExact(rest, FromLE(valLen));
      if value.None? { return Corrupt, rest; }
    }
    ghost var end := keyEnd + |value.value|;
    assert value.value == s[keyEnd..end] && rest == s[end..];
    stored, rest := ReadExact(rest, 4);
    if stored.None? { return Corrupt, rest; }
    var checked := sequence + [op] + keyLen + valLen + key.value + value.value;
    ChecksummedPart(s, keyEnd, end);
    assert stored.value == s[end..end + 4];
    if crc(checked) != FromLE(stored.value) { return Corrupt, rest; }
    var size := 25 + |key.value| + |value.value|;
    if op == OP_PUT {
      return Read(Entry(FromLE(sequence), Put(key.value, value.value)), size), rest;
    } else if op == OP_DELETE {
      return Read(Entry(FromLE(sequence), Delete(key.value)), size), rest;
    }
    return Corrupt, rest;
  }

  /** The entries handed, in order, to the replay callback. */
  method Replay(crc: Checksum, file: seq<byte>) returns (delivered: seq<Entry>)
    ensures delivered == Replayed(crc, file)
  {
    hide Decode;
    var rest := file;
    delivered := [];
    while true
      invariant delivered + Replayed(crc, rest) == Replayed(crc, file)
      decreases |rest|
    {
      var r;
      r, rest := ReadEntry(crc, rest);
      if !r.Read? { break; }
      ConcatAssoc(delivered, [r.entry], Replayed(crc, rest));
      delivered := delivered + [r.entry];
    }
  }

  method FindLastSequence(crc: Checksum, file: seq<byte>) returns (next: nat)
    ensures next == NextSequence(Replayed(crc, file))
  {
    hide Decode;
    var rest := file;
    var maxSeq: Option<nat> := None;
    ghost var seen: seq<Entry> := [];
    while true
      invariant seen + Replayed(crc, rest) == Replayed(crc, file)
      invariant maxSeq == if seen == [] then None else Some(MaxSequence(seen))
      decreases |rest|
    {
      var r;
      r, rest := ReadEntry(crc, rest);
      if !r.Read? { break; }
      var m := if maxSeq.Some? then maxSeq.value else 0;
      maxSeq := Some(if m > r.entry.sequence then m else r.entry.sequence);
      ConcatAssoc(seen, [r.entry], Replayed(crc, rest));
      assert (seen + [r.entry])[..|seen|] == seen;
      seen := seen + [r.entry];
    }
    assert seen + [] == seen;
    next := if maxSeq.Some? then maxSeq.value + 1 else 0;
  }

  // ---------- The log ----------

  /** An open log. `file` is what the operating system has, `buffer` what the buffered writer
      still holds; their concatenation is the byte stream written so far. */
  class Log {
    const crc: Checksum
    const policy: SyncPolicy
    var file: seq<byte>
    var buffer: seq<byte>
    var nextSequence: nat

    ghost function Stream(): seq<byte>
      reads this
    {
      file + buffer
    }

    ghost function Entries(): seq<Entry>
      reads this
    {
      Replayed(crc, Stream())
    }

    ghost predicate IsIntact()
      reads this
    {
      Intact(crc, Stream(), nextSequence)
    }

    constructor Open(crc: Checksum, policy: SyncPolicy, file: seq<byte>)
      ensures this.crc == crc && this.policy == policy
      ensures this.file == file && buffer == []
      ensures nextSequence == NextSequence(Replayed(crc, file))
    {
      var next := FindLastSequence(crc, file);
      this.crc, this.policy, this.file, this.buffer, this.nextSequence := crc, policy, file, [], next;
    }

    /** Moves the whole buffer to the file. */
    method Flush()
      modifies this
      ensures file == old(Stream()) && buffer == [] && nextSequence == old(nextSequence)
      ensures Stream() == old(Stream())
    {
      file := file + buffer;
      buffer := [];
    }

    /** A buffered write: the writer may pass any part of its buffer on to the file. */
    method Write(data: seq<byte>)
      modifies this
      ensures Stream() == old(Stream()) + data
      ensures old(file) <= file
      ensures nextSequence == old(nextSequence)
    {
      buffer := buffer + data;
      var spilled: nat :| spilled <= |buffer|;
      file := file + buffer[..spilled];
      buffer := buffer[spilled..];
    }

    /** Writes `data` and adds it to the data to be checksummed. */
    method WriteChecked(data: seq<byte>, checksumData: seq<byte>, ghost before: seq<byte>) returns (r: seq<byte>)
      requires Stream() == before + checksumData
      modifies this
      ensures r == checksumData + data && Stream() == before + r
      ensures old(file) <= file
      ensures nextSequence == old(nextSequence)
    {
      Write(data);
      r := checksumData + data;
      ConcatAssoc(before, checksumData, data);
    }

    method WriteEntry(e: Entry)
      modifies this
      ensures Stream() == old(Stream()) + Encode(crc, e)
      ensures old(file) <= file
      ensures nextSequence == old(nextSequence)
    {
      ghost var start := Stream();
      var key, value := e.op.key, ValueOf(e.op);
      Write(WAL_MAGIC);
      ghost var before := Stream();
      Write(LE(e.sequence, 8));
      var body := LE(e.sequence, 8);
      body := WriteChecked([OpCode(e.op)], body, before);
      body := WriteChecked(LE(|key|, 4), body, before);
      body := WriteChecked(LE(|value|, 4), body, before);
      body := WriteChecked(key, body, before);
      body := WriteChecked(value, body, before);
      Write(LE(crc(body), 4));
      ConcatAssoc(start, WAL_MAGIC, body);
      ConcatAssoc(start, WAL_MAGIC + body, LE(crc(body), 4));
    }

    /** Appends one operation. Under the policies that flush, the entry is in the file on return. */
    method Append(op: Op) returns (sequence: nat)
      modifies this
      ensures sequence == old(nextSequence) && nextSequence == sequence + 1
      ensures Stream() == old(Stream()) + Encode(crc, Entry(sequence, op))
      ensures old(file) <= file
      ensures policy != Never ==> buffer == []
      ensures old(IsIntact()) && Fits(Entry(sequence, op)) ==>
                IsIntact() && Entries() == old(Entries()) + [Entry(sequence, op)]
    {
      sequence := nextSequence;
      nextSequence := nextSequence + 1;
      WriteEntry(Entry(sequence, op));
      if policy != Never {
        Flush();
      }
      if old(IsIntact()) && Fits(Entry(sequence, op)) {
        AppendKeepsIntact(crc, old(Stream()), sequence, op);
      }
    }

    method Sync()
      modifies this
      ensures file == old(Stream()) && buffer == [] && nextSequence == old(nextSequence)
    {
      Flush();
    }

    method Truncate()
      modifies this
      ensures IsIntact() && Entries() == [] && nextSequence == 0 && Stream() == []
    {
      Flush();
      file := [];
      nextSequence := 0;
    }

    /** Whatever the policy and however much was still buffered, a crash that keeps any prefix of
        the file loses only a suffix of the appended entries. */
    lemma SurvivesCrash(cut: nat) returns (k: nat)
      requires IsIntact() && cut <= |file|
      ensures k <= |Entries()| && Replayed(crc, file[..cut]) == Entries()[..k]
      ensures buffer == [] && cut == |file| ==> k == |Entries()|
    {
      assert file[..cut] == Stream()[..cut];
      k := CrashKeepsAPrefix(crc, Entries(), cut);
      if buffer == [] && cut == |file| {
        assert Stream()[..cut] == Stream();
        assert Replayed(crc, file[..cut]) == Entries();
      }
    }
  }
}
