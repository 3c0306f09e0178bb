/** The blob store as values: its state, what each operation does to it, and the proof that over
    every run it behaves as a plain map from keys to values. */
module Store {
  import opened Bytes
  import opened Records
  import opened Index

  const SEGMENT_SIZE: nat := 64 * 1024 * 1024
  const MAX_SEGMENTS: nat := 1000

  /** A Bloom filter: each hash has a set of bit positions. False positives are possible. */
  datatype Bloom = Bloom(probes: seq<byte> -> set<nat>, bits: set<nat>) {
    function With(d: seq<byte>): Bloom {
      Bloom(probes, bits + probes(d))
    }
    predicate Check(d: seq<byte>) {
      probes(d) <= bits
    }
  }

  /** Segment files by number. */
  type Segments = map<nat, seq<byte>>

  datatype State = State(
    segments: Segments,
    index: Entries,
    bloom: Bloom,
    segment: nat,
    offset: nat,
    mode: Compression)

  // ---------- Operations ----------

  function FileOf(segments: Segments, segment: nat): seq<byte> {
    if segment in segments then segments[segment] else []
  }

  /** Writing at a position of a file: overwrites, extends, and fills a gap with zeros. */
  function WriteAt(file: seq<byte>, offset: nat, data: seq<byte>): seq<byte> {
    if offset > |file| then file + seq(offset - |file|, _ => 0) + data
    else file[..offset] + data + (if offset + |data| < |file| then file[offset + |data|..] else [])
  }

  /** Writes a record to a segment: the new files, the location, and the bytes written. */
  function WriteToSegment(env: Env, mode: Compression, segments: Segments, segment: nat, offset: nat,
                          key: Str, value: seq<byte>): (Segments, Location, nat)
  {
    var record := Record(env, mode, key, value);
    (segments[segment := WriteAt(FileOf(segments, segment), offset, record)],
     Location(segment, offset, |value|, env.blake3(value), None),
     |record|)
  }

  predicate AtLimit(st: State) {
    st.offset > SEGMENT_SIZE && st.segment + 1 >= MAX_SEGMENTS
  }

  /** Appends a record, rolling over to a new segment after a full one. At the segment limit the
      write fails, but only after the position has moved. */
  function WriteBlob(env: Env, st: State, key: Str, value: seq<byte>): (State, Option<Location>) {
    var rolled := if st.offset > SEGMENT_SIZE then st.(segment := st.segment + 1, offset := 0) else st;
    if AtLimit(st) then (rolled, None)
    else
      var (segments, loc, written) :=
        WriteToSegment(env, st.mode, st.segments, rolled.segment, rolled.offset, key, value);
      (rolled.(segments := segments, offset := loc.offset + written), Some(loc))
  }

  function Deadline(ttl: Option<nat>, now: nat): Option<nat> {
    if ttl.Some? then Some(now + ttl.value) else None
  }

  /** Stores a value; the flag is whether the put succeeded. */
  function PutState(env: Env, st: State, key: Str, value: seq<byte>, ttl: Option<nat>, now: nat): (State, bool) {
    var marked := st.(bloom := st.bloom.With(env.digest(key)));
    var (written, loc) := WriteBlob(env, marked, key, value);
    if loc.None? then (written, false)
    else (written.(index := written.index[key := loc.value.(expiresAt := Deadline(ttl, now))]), true)
  }

  function DeleteState(st: State, key: Str): State {
    st.(index := st.index - {key})
  }

  function CleanupState(st: State, now: nat): State {
    st.(index := st.index - Expired(st.index, now))
  }

  function ReadBlob(env: Env, segments: Segments, loc: Location): ReadOutcome {
    if loc.shard !in segments then Missing
    else if loc.offset > |segments[loc.shard]| then Failure
    else ReadAt(env, segments[loc.shard][loc.offset..])
  }

  /** Looking a key up in the index and reading its record. */
  function Fetch(env: Env, st: State, key: Str, now: nat): ReadOutcome {
    var loc := Lookup(st.index, key, now);
    if loc.None? then Missing else ReadBlob(env, st.segments, loc.value)
  }

  function Get(env: Env, st: State, key: Str, now: nat): ReadOutcome {
    if !st.bloom.Check(env.digest(key)) then Missing else Fetch(env, st, key, now)
  }

  // ---------- The invariant ----------

  /** Files are append-only up to the current position, which is the end of the newest file. */
  ghost predicate Positioned(st: State) {
    && (forall s :: s in st.segments ==> s <= st.segment)
    && st.offset == |FileOf(st.segments, st.segment)|
  }

  ghost predicate Readable(env: Env, st: State) {
    forall k :: k in st.index ==> ReadBlob(env, st.segments, st.index[k]).Value?
  }

  ghost predicate Filtered(env: Env, st: State) {
    forall k :: k in st.index ==> st.bloom.Check(env.digest(k))
  }

  ghost predicate Inv(env: Env, st: State) {
    Positioned(st) && Readable(env, st) && Filtered(env, st)
  }

  /** The filter never hides a key. */
  lemma FilterInvisible(env: Env, st: State, key: Str, now: nat)
    requires Filtered(env, st)
    ensures Get(env, st, key, now) == Fetch(env, st, key, now)
  {
  }

  // ---------- The map a store stands for ----------

  datatype Cell = Cell(value: seq<byte>, expiresAt: Option<nat>)

  type Contents = map<Str, Cell>

  ghost function Abs(env: Env, st: State): Contents
    requires Readable(env, st)
  {
    map k | k in st.index :: Cell(ReadBlob(env, st.segments, st.index[k]).value, st.index[k].expiresAt)
  }

  function LookupCell(m: Contents, key: Str, now: nat): ReadOutcome {
    if key !in m || (m[key].expiresAt.Some? && now > m[key].expiresAt.value) then Missing
    else Value(m[key].value)
  }

  lemma GetReadsAbs(env: Env, st: State, key: Str, now: nat)
    requires Inv(env, st)
    ensures Get(env, st, key, now) == LookupCell(Abs(env, st), key, now)
  {
    hide ReadBlob;
    FilterInvisible(env, st, key, now);
  }

  // ---------- Every operation keeps the invariant ----------

  /** Uncompressed, or with a codec that pairs up. */
  ghost predicate Sound(env: Env, mode: Compression) {
    mode == Uncompressed || CodecPairs(env)
  }

  lemma AppendedReads(env: Env, mode: Compression, key: Str, value: seq<byte>)
    requires Fits(key, value) && Sound(env, mode)
    ensures ReadAt(env, Record(env, mode, key, value)) == Value(value)
  {
    var r := Record(env, mode, key, value);
    hide ReadAt, Record, AsI32;
    ReadWritten(env, mode, key, value, []);
    assert r + [] == r;
    assert Stored(env, mode, value).1 ==> Compresses(env, value);
  }

  /** Writing at a position: the data is there, the bytes before and after it are as they were, and a
      gap between the end of the file and the position reads as zeros. */
  lemma WriteAtMeans(file: seq<byte>, offset: nat, data: seq<byte>, i: nat)
    requires i < |WriteAt(file, offset, data)|
    ensures |WriteAt(file, offset, data)| == if offset + |data| < |file| then |file| else offset + |data|
    ensures WriteAt(file, offset, data)[i] ==
            if offset <= i < offset + |data| then data[i - offset] else if i < |file| then file[i] else 0
  {
  }

  lemma WriteAtEnd(file: seq<byte>, data: seq<byte>)
    ensures WriteAt(file, |file|, data) == file + data
    ensures (file + data)[|file|..] == data
  {
  }

  lemma ReadBlobStable(env: Env, segments: Segments, segment: nat, data: seq<byte>, loc: Location)
    requires ReadBlob(env, segments, loc).Value?
    ensures ReadBlob(env, segments[segment := FileOf(segments, segment) + data], loc) == ReadBlob(env, segments, loc)
  {
    hide ReadAt;
    if loc.shard == segment {
      var file := segments[segment];
      ReadStable(env, file[loc.offset..], data);
      assert (file + data)[loc.offset..] == file[loc.offset..] + data;
    }
  }

  /** What a successful write does: it extends one file, keeps every readable record, and the new
      record reads back as the value. */
  lemma WriteBlobAppends(env: Env, st: State, key: Str, value: seq<byte>)
    requires Positioned(st) && Fits(key, value) && Sound(env, st.mode)
    ensures var (after, loc) := WriteBlob(env, st, key, value);
            && Positioned(after) && (loc.None? <==> AtLimit(st))
            && (loc.None? ==> after.segments == st.segments)
            && after.index == st.index && after.bloom == st.bloom && after.mode == st.mode
            && (loc.Some? ==>
                  && after.segments == st.segments[after.segment := FileOf(st.segments, after.segment) + Record(env, st.mode, key, value)]
                  && loc.value.shard == after.segment
                  && loc.value.offset == |FileOf(st.segments, after.segment)|
                  && loc.value.size == |value| && loc.value.blake3 == env.blake3(value)
                  && ReadBlob(env, after.segments, loc.value) == Value(value))
  {
    hide Record, ReadAt;
    var segment := if st.offset > SEGMENT_SIZE then st.segment + 1 else st.segment;
    WriteAtEnd(FileOf(st.segments, segment), Record(env, st.mode, key, value));
    AppendedReads(env, st.mode, key, value);
  }

  /** The expiry is not part of where a record is. */
  lemma ReadBlobIgnoresExpiry(env: Env, segments: Segments, loc: Location, expiresAt: Option<nat>)
    ensures ReadBlob(env, segments, loc.(expiresAt := expiresAt)) == ReadBlob(env, segments, loc)
  {
  }

  /** What a put does to each part of the state. */
  lemma PutParts(env: Env, st: State, key: Str, value: seq<byte>, ttl: Option<nat>, now: nat)
    requires Positioned(st) && Fits(key, value) && Sound(env, st.mode)
    ensures var (after, ok) := PutState(env, st, key, value, ttl, now);
            && Positioned(after) && (ok <==> !AtLimit(st)) && after.mode == st.mode
            && after.bloom == st.bloom.With(env.digest(key))
            && (!ok ==> after.segments == st.segments && after.index == st.index)
            && (ok ==>
                  && after.segments == st.segments[after.segment := FileOf(st.segments, after.segment) + Record(env, st.mode, key, value)]
                  && key in after.index && after.index == st.index[key := after.index[key]]
                  && after.index[key].shard == after.segment && after.index[key].size == |value|
                  && after.index[key].offset == |FileOf(st.segments, after.segment)|
                  && after.index[key].expiresAt == Deadline(ttl, now) && after.index[key].blake3 == env.blake3(value)
                  && ReadBlob(env, after.segments, after.index[key]) == Value(value))
  {
    hide ReadBlob, WriteBlob, Record;
    var marked := st.(bloom := st.bloom.With(env.digest(key)));
    WriteBlobAppends(env, marked, key, value);
    var (written, loc) := WriteBlob(env, marked, key, value);
    if loc.Some? {
      ReadBlobIgnoresExpiry(env, written.segments, loc.value, Deadline(ttl, now));
    }
  }

  /** A put keeps every record that could be read. */
  lemma PutKeepsRecords(env: Env, st: State, key: Str, value: seq<byte>, ttl: Option<nat>, now: nat, loc: Location)
    requires Positioned(st) && Fits(key, value) && Sound(env, st.mode)
    requires ReadBlob(env, st.segments, loc).Value?
    ensures ReadBlob(env, PutState(env, st, key, value, ttl, now).0.segments, loc) == ReadBlob(env, st.segments, loc)
  {
    hide ReadBlob, PutState, Record;
    PutParts(env, st, key, value, ttl, now);
    var (after, ok) := PutState(env, st, key, value, ttl, now);
    if ok {
      ReadBlobStable(env, st.segments, after.segment, Record(env, st.mode, key, value), loc);
    }
  }

  /** Storing a value: the invariant stays, the new contents differ from the old exactly at `key`,
      and a put that fails, which happens exactly at the segment limit, changes nothing visible. */
  lemma PutKeeps(env: Env, st: State, key: Str, value: seq<byte>, ttl: Option<nat>, now: nat)
    requires Inv(env, st) && Fits(key, value) && Sound(env, st.mode)
    ensures var (after, ok) := PutState(env, st, key, value, ttl, now);
            && Inv(env, after) && (ok <==> !AtLimit(st))
            && Abs(env, after) == if ok then Abs(env, st)[key := Cell(value, Deadline(ttl, now))] else Abs(env, st)
  {
    hide ReadBlob, PutState, Record, Positioned, AtLimit;
    PutParts(env, st, key, value, ttl, now);
    forall k | k in st.index
      ensures ReadBlob(env, PutState(env, st, key, value, ttl, now).0.segments, st.index[k])
              == ReadBlob(env, st.segments, st.index[k])
    {
      PutKeepsRecords(env, st, key, value, ttl, now, st.index[k]);
    }
  }

  lemma DropKeeps(env: Env, st: State, keys: set<Str>)
    requires Inv(env, st)
    ensures Inv(env, st.(index := st.index - keys))
    ensures Abs(env, st.(index := st.index - keys)) == Abs(env, st) - keys
  {
    hide ReadBlob;
  }

  lemma ModeKeeps(env: Env, st: State, mode: Compression)
    requires Inv(env, st)
    ensures Inv(env, st.(mode := mode)) && Abs(env, st.(mode := mode)) == Abs(env, st)
  {
    hide ReadBlob;
  }

  // ---------- Runs ----------

  datatype Op =
    | Put(key: Str, value: seq<byte>, ttl: Option<nat>, now: nat)
    | Delete(key: Str)
    | Cleanup(now: nat)
    | SetMode(mode: Compression)

  /** The state after one operation, and whether it succeeded. */
  function Step(env: Env, st: State, op: Op): (State, bool) {
    match op
    case Put(key, value, ttl, now) => PutState(env, st, key, value, ttl, now)
    case Delete(key) => (DeleteState(st, key), true)
    case Cleanup(now) => (CleanupState(st, now), true)
    case SetMode(mode) => (st.(mode := mode), true)
  }

  function After(env: Env, start: State, ops: seq<Op>): State {
    if ops == [] then start else Step(env, After(env, start, ops[..|ops| - 1]), ops[|ops| - 1]).0
  }

  /** The plain map after one operation. */
  function SpecStep(m: Contents, op: Op, ok: bool): Contents {
    match op
    case Put(key, value, ttl, now) => if ok then m[key := Cell(value, Deadline(ttl, now))] else m
    case Delete(key) => m - {key}
    case Cleanup(_) => m
    case SetMode(_) => m
  }

  /** The plain map, starting from the store's contents: the last successful put of each key that was
      not deleted since. Cleaning up expired keys does not concern it. */
  ghost function Spec(env: Env, start: State, ops: seq<Op>): Contents
    requires Readable(env, start)
  {
    if ops == [] then Abs(env, start)
    else
      var before := After(env, start, ops[..|ops| - 1]);
      SpecStep(Spec(env, start, ops[..|ops| - 1]), ops[|ops| - 1], Step(env, before, ops[|ops| - 1]).1)
  }

  /** A store with nothing in it; its filter may hold anything. */
  ghost predicate Fresh(st: State) {
    st.segments == map[] && st.index == map[] && st.segment == 0 && st.offset == 0
  }

  /** A fresh store is a good start, and stands for the empty map. */
  lemma FreshInv(env: Env, start: State)
    requires Fresh(start)
    ensures Inv(env, start) && Abs(env, start) == map[]
  {
  }

  /** The run starts in a good state, every put fits and every compression mode in use is sound. */
  ghost predicate Proper(env: Env, start: State, ops: seq<Op>) {
    && Inv(env, start) && Sound(env, start.mode)
    && (forall i :: 0 <= i < |ops| && ops[i].Put? ==> Fits(ops[i].key, ops[i].value))
    && (forall i :: 0 <= i < |ops| && ops[i].SetMode? ==> Sound(env, ops[i].mode))
  }

  /** No clock reading in the run is later than `t`. */
  ghost predicate NoLater(ops: seq<Op>, t: nat) {
    && (forall i :: 0 <= i < |ops| && ops[i].Put? ==> ops[i].now <= t)
    && (forall i :: 0 <= i < |ops| && ops[i].Cleanup? ==> ops[i].now <= t)
  }

  /** The store's contents agree with the plain map, except for keys that have expired by `t`. */
  ghost predicate Agree(store: Contents, m: Contents, t: nat) {
    && (forall k :: k in store ==> k in m && m[k] == store[k])
    && (forall k :: k in m && k !in store ==> m[k].expiresAt.Some? && t > m[k].expiresAt.value)
  }

  lemma AgreePut(store: Contents, m: Contents, t: nat, key: Str, cell: Cell)
    requires Agree(store, m, t)
    ensures Agree(store[key := cell], m[key := cell], t)
  {
  }

  lemma AgreeDelete(store: Contents, m: Contents, t: nat, key: Str)
    requires Agree(store, m, t)
    ensures Agree(store - {key}, m - {key}, t)
  {
  }

  lemma AgreeCleanup(env: Env, st: State, m: Contents, now: nat, t: nat)
    requires Readable(env, st) && Agree(Abs(env, st), m, t) && now <= t
    ensures Agree(Abs(env, st) - Expired(st.index, now), m, t)
  {
    hide ReadBlob;
  }

  lemma StepAgrees(env: Env, st: State, op: Op, m: Contents, t: nat)
    requires Inv(env, st) && Sound(env, st.mode) && Agree(Abs(env, st), m, t)
    requires op.Put? ==> Fits(op.key, op.value)
    requires op.Cleanup? ==> op.now <= t
    ensures var (after, ok) := Step(env, st, op);
            Inv(env, after) && Agree(Abs(env, after), SpecStep(m, op, ok), t)
  {
    hide ReadBlob, PutState, Agree, AtLimit, Positioned, Abs;
    match op
    case Put(key, value, ttl, now) =>
      PutKeeps(env, st, key, value, ttl, now);
      AgreePut(Abs(env, st), m, t, key, Cell(value, Deadline(ttl, now)));
    case Delete(key) =>
      DropKeeps(env, st, {key});
      AgreeDelete(Abs(env, st), m, t, key);
    case Cleanup(now) =>
      DropKeeps(env, st, Expired(st.index, now));
      AgreeCleanup(env, st, m, now, t);
    case SetMode(mode) =>
      ModeKeeps(env, st, mode);
  }

  lemma {:induction false} RunAgrees(env: Env, start: State, ops: seq<Op>, t: nat)
    requires Proper(env, start, ops) && NoLater(ops, t)
    ensures var st := After(env, start, ops);
            Inv(env, st) && Sound(env, st.mode) && Agree(Abs(env, st), Spec(env, start, ops), t)
  {
    assert Readable(env, start);
    hide ReadBlob, Inv, Step;
    if ops != [] {
      var prefix, op := ops[..|ops| - 1], ops[|ops| - 1];
      RunAgrees(env, start, prefix, t);
      StepAgrees(env, After(env, start, prefix), op, Spec(env, start, prefix), t);
      StepMode(env, After(env, start, prefix), op);
    }
  }

  lemma StepMode(env: Env, st: State, op: Op)
    ensures Step(env, st, op).0.mode == if op.SetMode? then op.mode else st.mode
  {
  }

  /** The store is a map: after every run of puts, deletes, cleanups and mode changes, from an empty
      store or any other good state, and for every clock reading no earlier than those in the run,
      `get` returns exactly what the last successful put stored, unless it was deleted since or has
      expired.
      `get` changes nothing, so this covers every `get` in the middle of a longer run too. */
  lemma GetReturnsLastPut(env: Env, start: State, ops: seq<Op>, key: Str, now: nat)
    requires Proper(env, start, ops) && NoLater(ops, now)
    ensures Get(env, After(env, start, ops), key, now) == LookupCell(Spec(env, start, ops), key, now)
  {
    RunAgrees(env, start, ops, now);
    hide Get, ReadBlob;
    GetReadsAbs(env, After(env, start, ops), key, now);
  }

  // ---------- Time to live ----------

  predicate Touches(op: Op, key: Str) {
    (op.Put? || op.Delete?) && op.key == key
  }

  lemma {:induction false} UntouchedSince(env: Env, start: State, ops: seq<Op>, more: seq<Op>, key: Str)
    requires Readable(env, start) && forall i :: 0 <= i < |more| ==> !Touches(more[i], key)
    ensures var before, after := Spec(env, start, ops), Spec(env, start, ops + more);
            (key in after <==> key in before) && (key in before ==> after[key] == before[key])
  {
    hide Step, Abs;
    if more == [] {
      assert ops + more == ops;
    } else {
      var shorter := more[..|more| - 1];
      assert (ops + more)[..|ops + more| - 1] == ops + shorter;
      UntouchedSince(env, start, ops, shorter, key);
    }
  }

  /** A key reads as the value of its last put until the time of the put plus its time to live, that
      moment included, and as nothing after it; without a time to live it reads so at every moment. */
  lemma TtlIsExact(env: Env, start: State, before: seq<Op>, put: Op, after: seq<Op>, now: nat)
    requires Proper(env, start, before + [put] + after) && NoLater(before + [put] + after, now)
    requires put.Put? && Step(env, After(env, start, before), put).1
    requires forall i :: 0 <= i < |after| ==> !Touches(after[i], put.key)
    ensures Get(env, After(env, start, before + [put] + after), put.key, now) ==
            if put.ttl.None? || now <= put.now + put.ttl.value then Value(put.value) else Missing
  {
    hide Step, Get, ReadBlob, Inv, Abs;
    ProperIsReadable(env, start, before + [put] + after);
    var ops := before + [put];
    assert ops[..|ops| - 1] == before;
    assert Spec(env, start, ops) == Spec(env, start, before)[put.key := Cell(put.value, Deadline(put.ttl, put.now))];
    UntouchedSince(env, start, ops, after, put.key);
    GetReturnsLastPut(env, start, ops + after, put.key, now);
  }

  lemma ProperIsReadable(env: Env, start: State, ops: seq<Op>)
    requires Proper(env, start, ops)
    ensures Readable(env, start)
  {
  }

  // ---------- Nothing is overwritten ----------

  ghost predicate Extends(earlier: Segments, later: Segments) {
    forall s :: s in earlier ==> s in later && earlier[s] <= later[s]
  }

  lemma StepExtends(env: Env, st: State, op: Op)
    requires Inv(env, st) && Sound(env, st.mode)
    requires op.Put? ==> Fits(op.key, op.value)
    ensures Extends(st.segments, Step(env, st, op).0.segments)
  {
    hide PutState, ReadBlob, Record;
    if op.Put? {
      PutParts(env, st, op.key, op.value, op.ttl, op.now);
    }
  }

  lemma ReadBlobExtends(env: Env, a: Segments, b: Segments, loc: Location)
    requires Extends(a, b) && ReadBlob(env, a, loc).Value?
    ensures ReadBlob(env, b, loc) == ReadBlob(env, a, loc)
  {
    hide ReadAt;
    var s, t := a[loc.shard], b[loc.shard];
    ReadStable(env, s[loc.offset..], t[|s|..]);
    assert t == s + t[|s|..];
    assert t[loc.offset..] == s[loc.offset..] + t[|s|..];
  }

  /** Over every run the segment files only grow at their ends, so a record that could be read at
      some moment, whether or not it is still indexed, reads the same ever after. */
  lemma {:induction false} RunsOverwriteNothing(env: Env, start: State, ops: seq<Op>, more: seq<Op>, loc: Location)
    requires Proper(env, start, ops + more)
    ensures Extends(After(env, start, ops).segments, After(env, start, ops + more).segments)
    ensures ReadBlob(env, After(env, start, ops).segments, loc).Value? ==>
              ReadBlob(env, After(env, start, ops + more).segments, loc) == ReadBlob(env, After(env, start, ops).segments, loc)
  {
    hide ReadBlob, Step;
    var a, c := After(env, start, ops).segments, After(env, start, ops + more).segments;
    if more == [] {
      assert ops + more == ops;
    } else {
      var shorter := more[..|more| - 1];
      assert (ops + more)[..|ops + more| - 1] == ops + shorter;
      RunsOverwriteNothing(env, start, ops, shorter, loc);
      var t := LatestClock(ops + shorter);
      RunAgrees(env, start, ops + shorter, t);
      StepExtends(env, After(env, start, ops + shorter), more[|more| - 1]);
    }
    if ReadBlob(env, a, loc).Value? {
      ReadBlobExtends(env, a, c, loc);
    }
  }

  /** A moment no earlier than any clock reading of the run. */
  lemma {:induction false} LatestClock(ops: seq<Op>) returns (t: nat)
    ensures NoLater(ops, t)
  {
    t := 0;
    for i := 0 to |ops|
      invariant NoLater(ops[..i], t)
    {
      var now := if ops[i].Put? || ops[i].Cleanup? then ops[i].now else 0;
      t := if now > t then now else t;
      assert ops[..i + 1] == ops[..i] + [ops[i]];
    }
    assert ops[..|ops|] == ops;
  }

  // ---------- The filter ----------

  lemma StepFiltered(env: Env, st: State, op: Op)
    requires Filtered(env, st)
    ensures Filtered(env, Step(env, st, op).0)
  {
    hide Record;
  }

  /** Over every run, from any state whose filter hides no key and whatever the files hold, the filter
      hides no key. */
  lemma {:induction false} RunFiltered(env: Env, start: State, ops: seq<Op>)
    requires Filtered(env, start)
    ensures Filtered(env, After(env, start, ops))
  {
    hide Step;
    if ops != [] {
      RunFiltered(env, start, ops[..|ops| - 1]);
      StepFiltered(env, After(env, start, ops[..|ops| - 1]), ops[|ops| - 1]);
    }
  }

  // ---------- The segment limit ----------

  /** A put stays in its segment or moves to the next one. */
  lemma StepSegment(env: Env, st: State, op: Op)
    ensures Step(env, st, op).0.segment == if op.Put? && st.offset > SEGMENT_SIZE then st.segment + 1 else st.segment
  {
    hide Record;
  }

  /** No put of the run is made at the limit. */
  predicate NoPutAtLimit(env: Env, start: State, ops: seq<Op>) {
    ops == [] ||
    (var before := ops[..|ops| - 1];
     NoPutAtLimit(env, start, before) && (ops[|ops| - 1].Put? ==> !AtLimit(After(env, start, before))))
  }

  /** The current segment stays below the limit exactly as long as no put is made at the limit. */
  lemma {:induction false} SegmentWithinLimitIff(env: Env, start: State, ops: seq<Op>)
    requires start.segment < MAX_SEGMENTS
    ensures After(env, start, ops).segment < MAX_SEGMENTS <==> NoPutAtLimit(env, start, ops)
  {
    hide Step;
    if ops != [] {
      var before := ops[..|ops| - 1];
      SegmentWithinLimitIff(env, start, before);
      StepSegment(env, After(env, start, before), ops[|ops| - 1]);
    }
  }

  /** No put of the run is made after the limit has refused one. */
  predicate NoPutBeyond(env: Env, start: State, ops: seq<Op>) {
    ops == [] ||
    (var before := ops[..|ops| - 1];
     NoPutBeyond(env, start, before) && (ops[|ops| - 1].Put? ==> After(env, start, before).segment < MAX_SEGMENTS))
  }

  ghost predicate FilesWithin(segments: Segments) {
    forall s :: s in segments ==> s < MAX_SEGMENTS
  }

  lemma StepFiles(env: Env, st: State, op: Op)
    ensures var (after, ok) := Step(env, st, op);
            && after.segments.Keys == st.segments.Keys + (if op.Put? && ok then {after.segment} else {})
            && (op.Put? ==> (ok <==> !(st.offset > 64 * 1024 * 1024 && st.segment + 1 >= 1000)) && (!ok ==> after.offset == 0))
            && (!op.Put? ==> after.offset == st.offset)
  {
    hide Record;
  }

  /** The segment limit bounds the segment files exactly as long as no put follows a refused one. */
  lemma {:induction false} FilesWithinLimitIff(env: Env, start: State, ops: seq<Op>)
    requires start.segment < MAX_SEGMENTS && FilesWithin(start.segments)
    ensures var st := After(env, start, ops);
            && (FilesWithin(st.segments) <==> NoPutBeyond(env, start, ops))
            && (NoPutBeyond(env, start, ops) && st.segment >= MAX_SEGMENTS ==> st.offset == 0)
  {
    hide Step;
    if ops != [] {
      var before, op := ops[..|ops| - 1], ops[|ops| - 1];
      FilesWithinLimitIff(env, start, before);
      StepSegment(env, After(env, start, before), op);
      StepFiles(env, After(env, start, before), op);
    }
  }

  /** Every segment below the current one is over the segment size. */
  ghost predicate FullBelow(segments: Segments, segment: nat) {
    forall s: nat :: s < segment ==> |FileOf(segments, s)| > 64 * 1024 * 1024
  }

  lemma StepFills(env: Env, st: State, op: Op)
    requires Inv(env, st) && Sound(env, st.mode) && FullBelow(st.segments, st.segment)
    requires op.Put? ==> Fits(op.key, op.value)
    ensures var after := Step(env, st, op).0; FullBelow(after.segments, after.segment)
  {
    hide PutState, ReadBlob, Record, AtLimit;
    StepSegment(env, st, op);
    if op.Put? {
      PutParts(env, st, op.key, op.value, op.ttl, op.now);
    }
    var after := Step(env, st, op).0;
    forall s: nat | s < after.segment ensures |FileOf(after.segments, s)| > 64 * 1024 * 1024 {
      assert FileOf(after.segments, s) == FileOf(st.segments, s);
    }
  }

  /** Over every run a segment is left only when it is over the segment size. */
  lemma {:induction false} RunFillsSegments(env: Env, start: State, ops: seq<Op>)
    requires Proper(env, start, ops) && FullBelow(start.segments, start.segment)
    ensures var st := After(env, start, ops); FullBelow(st.segments, st.segment)
  {
    hide Step, ReadBlob, Inv, FullBelow;
    if ops != [] {
      var before := ops[..|ops| - 1];
      RunFillsSegments(env, start, before);
      var t := LatestClock(before);
      RunAgrees(env, start, before, t);
      StepFills(env, After(env, start, before), ops[|ops| - 1]);
    }
  }

  /** A value that fills a segment by itself. */
  function Filler(): seq<byte> {
    seq(SEGMENT_SIZE, _ => 0)
  }

  function FillerPut(key: Str): Op {
    Put(key, Filler(), None, 0)
  }

  lemma FillerFills(env: Env, st: State, key: Str)
    requires st.mode == Uncompressed && !AtLimit(st)
    ensures var (after, ok) := Step(env, st, FillerPut(key));
            && ok && after.mode == Uncompressed && after.offset > SEGMENT_SIZE
            && after.segment == if st.offset > SEGMENT_SIZE then st.segment + 1 else st.segment
  {
    assert |Record(env, Uncompressed, key, Filler())| >= SEGMENT_SIZE;
    hide Record;
  }

  /** A run of `k` puts that each fill a segment. */
  lemma {:induction false} FillersFill(env: Env, start: State, k: nat)
    requires Fresh(start) && start.mode == Uncompressed && 0 < k <= MAX_SEGMENTS
    ensures var st := After(env, start, seq(k, _ => FillerPut([])));
            st.mode == Uncompressed && st.segment == k - 1 && st.offset > SEGMENT_SIZE
  {
    hide Step;
    var ops := seq(k, _ => FillerPut([]));
    assert ops[..k - 1] == seq(k - 1, _ => FillerPut([]));
    if k > 1 {
      FillersFill(env, start, k - 1);
    }
    FillerFills(env, After(env, start, ops[..k - 1]), []);
  }

  /** The limit is reached by a thousand puts of segment size into an empty store. There it refuses one
      put, and the next put creates a segment beyond it. */
  lemma LimitIsPassed(env: Env, start: State)
    requires Fresh(start) && start.mode == Uncompressed
    ensures var ops := seq(MAX_SEGMENTS, _ => FillerPut([]));
            var put := FillerPut([]);
            && AtLimit(After(env, start, ops))
            && !Step(env, After(env, start, ops), put).1
            && MAX_SEGMENTS in After(env, start, ops + [put] + [put]).segments
  {
    var ops, put := seq(MAX_SEGMENTS, _ => FillerPut([])), FillerPut([]);
    FillersFill(env, start, MAX_SEGMENTS);
    assert (ops + [put])[..|ops|] == ops;
    assert (ops + [put] + [put])[..|ops| + 1] == ops + [put];
    AtLimitRefuses(env, After(env, start, ops), put);
  }

  lemma AtLimitRefuses(env: Env, st: State, put: Op)
    requires put.Put? && AtLimit(st)
    ensures !Step(env, st, put).1
    ensures var (after, ok) := Step(env, Step(env, st, put).0, put);
            ok && after.segment == st.segment + 1 && after.segment in after.segments
  {
    hide Record;
  }
}
