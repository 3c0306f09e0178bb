/** The rewrite loop of compaction: every readable record is copied into new segment files. */
module Compaction {
  import opened Bytes
  import opened Records
  import opened Index
  import opened Store

  /** The copy before a possible rollover: an append to the current file. */
  function Appended(env: Env, st: State, acc: State, key: Str, value: seq<byte>): State {
    var (files, loc, written) := WriteToSegment(env, st.mode, acc.segments, acc.segment, acc.offset, key, value);
    acc.(segments := files, index := acc.index[key := loc], offset := acc.offset + written)
  }

  /** Copies one record of `st` to the end of the new files and rolls over after a full segment.
      An unreadable record is skipped. */
  function Copy(env: Env, st: State, acc: State, key: Str): State
    requires key in st.index
  {
    var r := ReadBlob(env, st.segments, st.index[key]);
    if !r.Value? then acc
    else
      var next := Appended(env, st, acc, key, r.value);
      if next.offset > SEGMENT_SIZE then next.(segment := next.segment + 1, offset := 0) else next
  }

  /** Nothing copied yet. The filter and the compression mode stay as they are. */
  function Emptied(st: State): State {
    st.(segments := map[], index := map[], segment := 0, offset := 0)
  }

  /** The store after the index was iterated in the given order. */
  function Rewritten(env: Env, st: State, order: seq<Str>): State
    requires forall k :: k in order ==> k in st.index
  {
    if order == [] then Emptied(st)
    else Copy(env, st, Rewritten(env, st, order[..|order| - 1]), order[|order| - 1])
  }

  /** Bytes in the files numbered below `n`. */
  function TotalBytes(segments: Segments, n: nat): nat {
    if n == 0 then 0 else TotalBytes(segments, n - 1) + |FileOf(segments, n - 1)|
  }

  /** The record of a key can be read. */
  predicate Reads(env: Env, st: State, key: Str) {
    key in st.index && ReadBlob(env, st.segments, st.index[key]).Value?
  }

  /** Size of the readable records of some keys, as they are written now. */
  function RecordBytes(env: Env, st: State, order: seq<Str>): nat {
    if order == [] then 0
    else
      var key := order[|order| - 1];
      RecordBytes(env, st, order[..|order| - 1])
      + if !Reads(env, st, key) then 0
        else 28 + |key| + |Stored(env, st.mode, ReadBlob(env, st.segments, st.index[key]).value).0|
  }

  /** Every readable record can be written: its lengths fit. */
  ghost predicate Writable(env: Env, st: State) {
    forall k :: Reads(env, st, k) ==> Fits(k, ReadBlob(env, st.segments, st.index[k]).value)
  }

  /** The new files, after copying the keys of `order`, hold exactly their readable records and nothing else. */
  ghost predicate Copied(env: Env, st: State, order: seq<Str>, acc: State) {
    && Positioned(acc)
    && acc.bloom == st.bloom && acc.mode == st.mode
    && (forall k :: k in acc.index <==> k in order && Reads(env, st, k))
    && (forall k :: k in acc.index ==>
          && acc.index[k].expiresAt == None && Reads(env, st, k)
          && ReadBlob(env, acc.segments, acc.index[k]) == ReadBlob(env, st.segments, st.index[k]))
    && TotalBytes(acc.segments, acc.segment + 1) == RecordBytes(env, st, order)
  }

  lemma {:induction false} TotalFrame(a: Segments, b: Segments, n: nat)
    requires forall s: nat :: s < n ==> FileOf(a, s) == FileOf(b, s)
    ensures TotalBytes(a, n) == TotalBytes(b, n)
  {
    if n > 0 {
      TotalFrame(a, b, n - 1);
    }
  }

  lemma AppendedParts(env: Env, st: State, acc: State, key: Str, value: seq<byte>)
    requires Positioned(acc) && Fits(key, value) && Sound(env, st.mode)
    ensures var record := Record(env, st.mode, key, value);
            var after := Appended(env, st, acc, key, value);
            && Positioned(after)
            && after.segment == acc.segment && after.bloom == acc.bloom && after.mode == acc.mode
            && after.segments == acc.segments[acc.segment := FileOf(acc.segments, acc.segment) + record]
            && key in after.index && after.index == acc.index[key := after.index[key]]
            && after.index[key].expiresAt == None
            && ReadBlob(env, after.segments, after.index[key]) == Value(value)
            && TotalBytes(after.segments, after.segment + 1) == TotalBytes(acc.segments, acc.segment + 1) + |record|
  {
    hide Record, ReadAt;
    var record := Record(env, st.mode, key, value);
    WriteAtEnd(FileOf(acc.segments, acc.segment), record);
    AppendedReads(env, st.mode, key, value);
    TotalFrame(acc.segments, Appended(env, st, acc, key, value).segments, acc.segment);
  }

  lemma RecordBytesNext(env: Env, st: State, order: seq<Str>, key: Str)
    ensures RecordBytes(env, st, order + [key]) ==
            RecordBytes(env, st, order)
            + if !Reads(env, st, key) then 0
              else |Record(env, st.mode, key, ReadBlob(env, st.segments, st.index[key]).value)|
  {
    hide ReadBlob, Record;
    assert (order + [key])[..|order|] == order;
  }

  /** Appending to the current file leaves what was copied before as it was. */
  lemma EarlierCopiesStay(env: Env, acc: State, record: seq<byte>)
    requires Positioned(acc)
    ensures forall k :: k in acc.index && ReadBlob(env, acc.segments, acc.index[k]).Value? ==>
              ReadBlob(env, acc.segments[acc.segment := FileOf(acc.segments, acc.segment) + record], acc.index[k])
              == ReadBlob(env, acc.segments, acc.index[k])
  {
    hide ReadBlob;
    forall k | k in acc.index && ReadBlob(env, acc.segments, acc.index[k]).Value?
      ensures ReadBlob(env, acc.segments[acc.segment := FileOf(acc.segments, acc.segment) + record], acc.index[k])
              == ReadBlob(env, acc.segments, acc.index[k])
    {
      ReadBlobStable(env, acc.segments, acc.segment, record, acc.index[k]);
    }
  }

  lemma CopyAppends(env: Env, st: State, order: seq<Str>, acc: State, key: Str)
    requires Writable(env, st) && Sound(env, st.mode) && Reads(env, st, key) && Copied(env, st, order, acc)
    ensures Copied(env, st, order + [key], Appended(env, st, acc, key, ReadBlob(env, st.segments, st.index[key]).value))
  {
    hide ReadBlob, Record, Appended, TotalBytes, RecordBytes, Positioned, FileOf, Fits;
    var value := ReadBlob(env, st.segments, st.index[key]).value;
    var after := Appended(env, st, acc, key, value);
    AppendedParts(env, st, acc, key, value);
    RecordBytesNext(env, st, order, key);
    EarlierCopiesStay(env, acc, Record(env, st.mode, key, value));
  }

  /** A record that cannot be read is skipped. */
  lemma CopySkips(env: Env, st: State, order: seq<Str>, acc: State, key: Str)
    requires !Reads(env, st, key) && Copied(env, st, order, acc)
    ensures Copied(env, st, order + [key], acc)
  {
    hide ReadBlob, TotalBytes, RecordBytes, Positioned;
    RecordBytesNext(env, st, order, key);
  }

  /** Moving on to the next segment, which does not exist yet. */
  lemma RollOver(env: Env, st: State, order: seq<Str>, acc: State)
    requires Copied(env, st, order, acc)
    ensures Copied(env, st, order, acc.(segment := acc.segment + 1, offset := 0))
  {
    hide ReadBlob, RecordBytes;
  }

  lemma CopyStep(env: Env, st: State, order: seq<Str>, acc: State, key: Str)
    requires Writable(env, st) && Sound(env, st.mode) && key in st.index && Copied(env, st, order, acc)
    ensures Copied(env, st, order + [key], Copy(env, st, acc, key))
  {
    hide ReadBlob, Appended, Copied;
    if Reads(env, st, key) {
      CopyAppends(env, st, order, acc, key);
      var after := Appended(env, st, acc, key, ReadBlob(env, st.segments, st.index[key]).value);
      RollOver(env, st, order + [key], after);
    } else {
      CopySkips(env, st, order, acc, key);
    }
  }

  lemma {:induction false} RewriteCopies(env: Env, st: State, order: seq<Str>)
    requires Writable(env, st) && Sound(env, st.mode) && forall k :: k in order ==> k in st.index
    ensures Copied(env, st, order, Rewritten(env, st, order))
  {
    hide ReadBlob, Copy, Copied;
    if order == [] {
      NothingCopied(env, st);
    } else {
      var prefix := order[..|order| - 1];
      RewriteCopies(env, st, prefix);
      CopyStep(env, st, prefix, Rewritten(env, st, prefix), order[|order| - 1]);
      assert order == prefix + [order[|order| - 1]];
    }
  }

  lemma NothingCopied(env: Env, st: State)
    ensures Copied(env, st, [], Emptied(st))
  {
    assert TotalBytes(map[], 1) == 0;
  }

  /** Compaction preserves meaning: for every state and every iteration order of the index, the keys
      that survive are exactly those whose record reads, each reads as before, none expires, and the
      new files hold exactly the bytes of those records. */
  lemma RewritePreserves(env: Env, st: State, order: seq<Str>)
    requires Writable(env, st) && Sound(env, st.mode) && Enumerates(order, st.index)
    ensures var after := Rewritten(env, st, order);
            && Positioned(after) && Readable(env, after) && (Filtered(env, st) ==> Filtered(env, after))
            && (forall k :: k in after.index <==> Reads(env, st, k))
            && (forall k :: k in after.index ==>
                  && after.index[k].expiresAt == None
                  && ReadBlob(env, after.segments, after.index[k]) == ReadBlob(env, st.segments, st.index[k]))
            && TotalBytes(after.segments, after.segment + 1) == RecordBytes(env, st, order)
  {
    hide ReadBlob, Rewritten;
    RewriteCopies(env, st, order);
  }

  /** So a key reads the same as before exactly when it was not indexed, or its record reads and it had
      not expired, or its record does not read and that showed as nothing already. */
  lemma RewrittenReadsSameIff(env: Env, st: State, order: seq<Str>, key: Str, now: nat)
    requires Writable(env, st) && Sound(env, st.mode) && Enumerates(order, st.index) && Filtered(env, st)
    ensures Get(env, Rewritten(env, st, order), key, now) == Get(env, st, key, now) <==>
            (key in st.index ==>
               var expired := key in Expired(st.index, now);
               if Reads(env, st, key) then !expired
               else expired || ReadBlob(env, st.segments, st.index[key]) == Missing)
  {
    hide ReadBlob, Rewritten;
    RewritePreserves(env, st, order);
    FilterInvisible(env, st, key, now);
    FilterInvisible(env, Rewritten(env, st, order), key, now);
  }

  lemma AppendFills(acc: State, next: State, record: seq<byte>)
    requires FullBelow(acc.segments, acc.segment) && Positioned(next) && next.segment == acc.segment
    requires next.segments == acc.segments[acc.segment := FileOf(acc.segments, acc.segment) + record]
    ensures FullBelow(next.segments, next.segment)
    ensures next.offset > 64 * 1024 * 1024 ==> FullBelow(next.segments, next.segment + 1)
  {
    forall s: nat | s < acc.segment ensures |FileOf(next.segments, s)| > 64 * 1024 * 1024 {
      assert FileOf(next.segments, s) == FileOf(acc.segments, s);
    }
  }

  lemma CopyFills(env: Env, st: State, acc: State, key: Str)
    requires key in st.index && Writable(env, st) && Sound(env, st.mode) && Positioned(acc)
    requires acc.offset <= 64 * 1024 * 1024 && FullBelow(acc.segments, acc.segment)
    ensures var after := Copy(env, st, acc, key);
            Positioned(after) && after.offset <= 64 * 1024 * 1024 && FullBelow(after.segments, after.segment)
  {
    hide ReadBlob, Appended, FullBelow, TotalBytes, Record, Sound, FileOf;
    if Reads(env, st, key) {
      var value := ReadBlob(env, st.segments, st.index[key]).value;
      AppendedParts(env, st, acc, key, value);
      var next := Appended(env, st, acc, key, value);
      AppendFills(acc, next, Record(env, st.mode, key, value));
      NextPositioned(next);
    }
  }

  lemma NextPositioned(st: State)
    requires Positioned(st)
    ensures Positioned(st.(segment := st.segment + 1, offset := 0))
  {
  }

  /** Compaction moves to a new segment exactly when the current one is over the segment size. */
  lemma {:induction false} RewriteFillsSegments(env: Env, st: State, order: seq<Str>)
    requires Writable(env, st) && Sound(env, st.mode) && forall k :: k in order ==> k in st.index
    ensures var after := Rewritten(env, st, order);
            Positioned(after) && after.offset <= 64 * 1024 * 1024 && FullBelow(after.segments, after.segment)
  {
    hide ReadBlob, Copy, FullBelow, Positioned, Writable;
    if order == [] {
      assert FullBelow(map[], 0) && Positioned(Emptied(st)) by { NothingFull(st); }
    } else {
      RewriteFillsSegments(env, st, order[..|order| - 1]);
      CopyFills(env, st, Rewritten(env, st, order[..|order| - 1]), order[|order| - 1]);
    }
  }

  lemma NothingFull(st: State)
    ensures FullBelow(map[], 0) && Positioned(Emptied(st))
  {
  }

  // ---------- Stores reached by runs ----------

  ghost predicate CellsFit(m: Contents) {
    forall k :: k in m ==> Fits(k, m[k].value)
  }

  lemma {:induction false} SpecFits(env: Env, start: State, ops: seq<Op>)
    requires Proper(env, start, ops) && CellsFit(Abs(env, start))
    ensures CellsFit(Spec(env, start, ops))
  {
    hide ReadBlob, Step, Abs, Inv;
    if ops != [] {
      SpecFits(env, start, ops[..|ops| - 1]);
    }
  }

  /** Every record of a store reached by a run can be written again. */
  lemma RunWritable(env: Env, start: State, ops: seq<Op>)
    requires Proper(env, start, ops) && CellsFit(Abs(env, start))
    ensures Writable(env, After(env, start, ops))
  {
    hide ReadBlob, Step, Fits;
    SpecFits(env, start, ops);
    var t := LatestClock(ops);
    RunAgrees(env, start, ops, t);
    var st := After(env, start, ops);
    forall k | Reads(env, st, k) ensures Fits(k, ReadBlob(env, st.segments, st.index[k]).value) {
      assert k in Abs(env, st);
    }
  }
}
