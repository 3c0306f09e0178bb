/** Opening a store from what is on disk, and what that recovers. */
module Recovery {
  import opened Bytes
  import opened Records
  import opened Index
  import opened Store
  import opened Rescan
  import Wal

  /** The saved Bloom filter file: absent, not readable as a filter, or some filter, maybe stale. */
  datatype SavedFilter = NoFilter | Unreadable | Saved(filter: Bloom)

  /** Everything `open` looks at; `order` is the order in which the directories list the segments. */
  datatype Disk = Disk(
    snapshot: Option<seq<byte>>,
    filter: SavedFilter,
    log: seq<byte>,
    segments: Segments,
    order: seq<nat>)

  ghost predicate Listed(disk: Disk) {
    ListsFiles(disk.order, disk.segments)
  }

  /** Replaying the log: a put only reaches the filter, a delete only the index. */
  function Applied(env: Env, r: Rebuilt, es: seq<Wal.Entry>): Rebuilt {
    if es == [] then r
    else
      var before := Applied(env, r, es[..|es| - 1]);
      match es[|es| - 1].op
      case Put(key, _) => before.(bloom := before.bloom.With(env.digest(key)))
      case Delete(key) => before.(index := before.index - {key})
  }

  function Marked(env: Env, bloom: Bloom, keys: set<Str>): Bloom {
    Bloom(bloom.probes, bloom.bits + set k, p | k in keys && p in bloom.probes(env.digest(k)) :: p)
  }

  function Loaded(disk: Disk): Option<Entries> {
    if disk.snapshot.None? then Some(map[]) else Load(disk.snapshot.value)
  }

  function InitialFilter(disk: Disk, blank: Bloom): Bloom {
    if disk.filter.Saved? then disk.filter.filter else blank
  }

  /** The reopened store, or None for an error. Without a snapshot the segments are rescanned, after
      the log; with one they are not. */
  function Open(env: Env, disk: Disk, blank: Bloom): Option<State>
    requires forall s :: s in disk.order ==> s in disk.segments
  {
    var loaded := Loaded(disk);
    if loaded.None? then None
    else
      var replayed := Applied(env, Rebuilt(loaded.value, InitialFilter(disk, blank)), Wal.Replayed(env.crc32, disk.log));
      var rebuilt :=
        if disk.snapshot.None? then Rebuild(env, disk.segments, disk.order, replayed)
        else Some(replayed.(bloom := Marked(env, replayed.bloom, replayed.index.Keys)));
      if rebuilt.None? then None
      else
        var (segment, offset) := Position(Sizes(disk.segments, disk.order));
        Some(State(disk.segments, rebuilt.value.index, rebuilt.value.bloom, segment, offset, Uncompressed))
  }

  // ---------- Step by step ----------

  method ReplayLog(env: Env, log: seq<byte>, start: Rebuilt) returns (r: Rebuilt)
    ensures r == Applied(env, start, Wal.Replayed(env.crc32, log))
  {
    var entries := Wal.Replay(env.crc32, log);
    r := start;
    for i := 0 to |entries|
      invariant r == Applied(env, start, entries[..i])
    {
      assert entries[..i + 1][..i] == entries[..i];
      match entries[i].op {
        case Put(key, _) => r := r.(bloom := r.bloom.With(env.digest(key)));
        case Delete(key) => r := r.(index := r.index - {key});
      }
    }
    assert entries[..|entries|] == entries;
  }

  lemma MarkOne(env: Env, bloom: Bloom, keys: set<Str>, key: Str)
    ensures Marked(env, bloom, keys + {key}) == Marked(env, bloom, keys).With(env.digest(key))
  {
  }

  method MarkKeys(env: Env, bloom: Bloom, m: Entries) returns (b: Bloom)
    ensures b == Marked(env, bloom, m.Keys)
  {
    b := bloom;
    var left := m.Keys;
    ghost var done: set<Str> := {};
    assert Marked(env, bloom, {}).bits == bloom.bits;
    while left != {}
      invariant done + left == m.Keys && done !! left
      invariant b == Marked(env, bloom, done)
    {
      var key :| key in left;
      MarkOne(env, bloom, done, key);
      b := b.With(env.digest(key));
      left := left - {key};
      done := done + {key};
    }
    assert done == m.Keys;
  }

  method OpenStore(env: Env, disk: Disk, blank: Bloom) returns (r: Option<State>)
    requires forall s :: s in disk.order ==> s in disk.segments
    ensures r == Open(env, disk, blank)
  {
    var loaded: Option<Entries> := Some(map[]);
    if disk.snapshot.Some? {
      loaded := LoadSnapshot(disk.snapshot.value);
    }
    if loaded.None? { return None; }
    var filter := match disk.filter { case NoFilter => blank case Unreadable => blank case Saved(f) => f };
    var acc := ReplayLog(env, disk.log, Rebuilt(loaded.value, filter));
    if disk.snapshot.None? {
      var rebuilt := RebuildIndexFromSegments(env, disk.segments, disk.order, acc);
      if rebuilt.None? { return None; }
      acc := rebuilt.value;
    } else {
      var marked := MarkKeys(env, acc.bloom, acc.index);
      acc := acc.(bloom := marked);
    }
    var segment, offset := FindCurrentPosition(Sizes(disk.segments, disk.order));
    return Some(State(disk.segments, acc.index, acc.bloom, segment, offset, Uncompressed));
  }

  // ---------- The filter ----------

  ghost predicate Covered(env: Env, r: Rebuilt) {
    forall k :: k in r.index ==> r.bloom.Check(env.digest(k))
  }

  lemma {:induction false} ScanCovers(env: Env, s: seq<byte>, segment: nat, offset: nat, r: Rebuilt)
    requires Covered(env, r) && Scan(env, s, segment, offset, r).Some?
    ensures Covered(env, Scan(env, s, segment, offset, r).value)
    decreases |s|
  {
    hide ScanAt;
    var item := ScanAt(env, s);
    if item.Item? {
      ScanCovers(env, s[item.size..], segment, offset + item.size, Found(env, r, segment, offset, item.key, item.origLen));
    }
  }

  lemma {:induction false} RebuildCovers(env: Env, segments: Segments, order: seq<nat>, r: Rebuilt)
    requires Covered(env, r) && forall s :: s in order ==> s in segments
    requires Rebuild(env, segments, order, r).Some?
    ensures Covered(env, Rebuild(env, segments, order, r).value)
  {
    hide Scan, Covered;
    if order != [] {
      var prefix, s := order[..|order| - 1], order[|order| - 1];
      RebuildCovers(env, segments, prefix, r);
      ScanCovers(env, segments[s], s, 0, Rebuild(env, segments, prefix, r).value);
    }
  }

  function Deleted(es: seq<Wal.Entry>): set<Str> {
    set i | 0 <= i < |es| && es[i].op.Delete? :: es[i].op.key
  }

  lemma {:induction false} AppliedIndex(env: Env, r: Rebuilt, es: seq<Wal.Entry>)
    ensures Applied(env, r, es).index == r.index - Deleted(es)
  {
    if es == [] {
      assert r.index - {} == r.index;
    } else {
      var before, op := es[..|es| - 1], es[|es| - 1].op;
      AppliedIndex(env, r, before);
      assert Deleted(es) == Deleted(before) + (if op.Delete? then {op.key} else {});
    }
  }

  /** After `open`, through either branch, with any saved filter and any bytes on disk, the filter
      hides no key: `get` is the same as the lookup without it. */
  lemma OpenIsFiltered(env: Env, disk: Disk, blank: Bloom, key: Str, now: nat)
    requires Listed(disk) && Open(env, disk, blank).Some?
    ensures var st := Open(env, disk, blank).value;
            Filtered(env, st) && Get(env, st, key, now) == Fetch(env, st, key, now)
  {
    hide Scan, Applied, Rebuild;
    var replayed := Applied(env, Rebuilt(Loaded(disk).value, InitialFilter(disk, blank)), Wal.Replayed(env.crc32, disk.log));
    if disk.snapshot.None? {
      AppliedIndex(env, Rebuilt(map[], InitialFilter(disk, blank)), Wal.Replayed(env.crc32, disk.log));
      RebuildCovers(env, disk.segments, disk.order, replayed);
    }
    FilterInvisible(env, Open(env, disk, blank).value, key, now);
  }

  /** So the filter hides no key in any state reached after opening, whatever was on disk. */
  lemma OpenedRunIsFiltered(env: Env, disk: Disk, blank: Bloom, ops: seq<Op>, key: Str, now: nat)
    requires Listed(disk) && Open(env, disk, blank).Some?
    ensures var st := After(env, Open(env, disk, blank).value, ops);
            Filtered(env, st) && Get(env, st, key, now) == Fetch(env, st, key, now)
  {
    hide Open, Get, Fetch, Filtered;
    OpenIsFiltered(env, disk, blank, key, now);
    RunFiltered(env, Open(env, disk, blank).value, ops);
    FilterInvisible(env, After(env, Open(env, disk, blank).value, ops), key, now);
  }

  // ---------- Without a snapshot ----------

  function KeysOf(filed: Filed): set<Str> {
    set p | p in filed :: p.1
  }

  /** What rescanning the files in some order restores: for each key, the value that the last listed of
      its files has. Nothing expires. */
  function Restored(filed: Filed, order: seq<nat>): Contents {
    map k | k in KeysOf(filed) && LastIn(order, FilesOf(filed, k)).Some? ::
      Cell(filed[(LastIn(order, FilesOf(filed, k)).value, k)], None)
  }

  lemma RestoredAt(filed: Filed, order: seq<nat>, key: Str)
    ensures var last := LastIn(order, FilesOf(filed, key));
            && (key in Restored(filed, order) <==> last.Some?)
            && (last.Some? ==> Restored(filed, order)[key] == Cell(filed[(last.value, key)], None))
  {
    hide LastIn;
    var last := LastIn(order, FilesOf(filed, key));
    if last.Some? {
      assert (last.value, key) in filed;
    }
  }

  /** A disk holding the segment files of `st`, listed in any order, and no snapshot. */
  ghost predicate OnlySegments(disk: Disk, st: State) {
    disk.snapshot.None? && disk.segments == st.segments && Listed(disk)
  }

  lemma OpenedIndex(env: Env, disk: Disk, blank: Bloom)
    requires disk.snapshot.None? && Listed(disk)
    ensures var bloom := Applied(env, Rebuilt(map[], InitialFilter(disk, blank)), Wal.Replayed(env.crc32, disk.log)).bloom;
            var found := Rebuild(env, disk.segments, disk.order, Rebuilt(map[], bloom));
            && (Open(env, disk, blank).Some? <==> found.Some?)
            && (found.Some? ==> Open(env, disk, blank).value.index == found.value.index)
  {
    hide Rebuild, Applied, Position;
    AppliedIndex(env, Rebuilt(map[], InitialFilter(disk, blank)), Wal.Replayed(env.crc32, disk.log));
  }

  /** Without a snapshot `open` succeeds exactly when every segment scans. */
  lemma OpenSucceedsIff(env: Env, disk: Disk, blank: Bloom)
    requires disk.snapshot.None? && Listed(disk)
    ensures Open(env, disk, blank).Some? <==> forall s :: s in disk.segments ==> Scans(env, disk.segments[s])
  {
    hide Open, Rebuild, Scans, Applied;
    OpenedIndex(env, disk, blank);
    var bloom := Applied(env, Rebuilt(map[], InitialFilter(disk, blank)), Wal.Replayed(env.crc32, disk.log)).bloom;
    RebuildSucceedsIff(env, disk.segments, disk.order, Rebuilt(map[], bloom));
  }

  /** A crash that leaves the last record of a segment cut: `open` without a snapshot then succeeds
      exactly when the cut is within the record's first four bytes. */
  lemma CutSegmentOpensIff(env: Env, segments: Segments, segment: nat, mode: Compression, key: Str, value: seq<byte>, n: nat,
                           disk: Disk, blank: Bloom)
    requires WholeFiles(env, segments) && Fits(key, value) && n < |Record(env, mode, key, value)|
    requires disk.snapshot.None? && Listed(disk)
    requires disk.segments == segments[segment := FileOf(segments, segment) + Record(env, mode, key, value)[..n]]
    ensures Open(env, disk, blank).Some? <==> n < 4
  {
    assert Whole(env, FileOf(segments, segment));
    hide Open, Whole, Record, Scans;
    OpenSucceedsIff(env, disk, blank);
    CutFileScansIff(env, FileOf(segments, segment), mode, key, value, n);
    forall s | s in disk.segments && s != segment ensures Scans(env, disk.segments[s]) {
      WholeScans(env, segments[s]);
    }
    assert segment in disk.segments && (Scans(env, disk.segments[segment]) <==> n < 4);
  }

  lemma OpenPosition(env: Env, disk: Disk, blank: Bloom)
    requires Listed(disk) && Open(env, disk, blank).Some?
    ensures var st := Open(env, disk, blank).value;
            && st.segments == disk.segments && st.mode == Uncompressed
            && (st.segment, st.offset) == Position(Sizes(disk.segments, disk.order))
  {
    hide Applied, Rebuild, Position;
  }

  /** Opening the files of a positioned store appends where nothing is overwritten. */
  lemma OpenIsPositioned(env: Env, st: State, disk: Disk, blank: Bloom)
    requires Positioned(st) && disk.segments == st.segments && Listed(disk) && Open(env, disk, blank).Some?
    ensures Positioned(Open(env, disk, blank).value)
  {
    hide Open, Position;
    PositionRecovered(st, disk.order);
    OpenPosition(env, disk, blank);
  }

  lemma OpenedKey(env: Env, filed: Filed, disk: Disk, blank: Bloom, key: Str)
    requires FiledIn(env, disk.segments, filed) && disk.snapshot.None? && Listed(disk)
    ensures Open(env, disk, blank).Some?
    ensures var index := Open(env, disk, blank).value.index;
            var m := Restored(filed, disk.order);
            && (key in index <==> key in m)
            && (key in m ==>
                  && ReadBlob(env, disk.segments, index[key]) == Value(m[key].value)
                  && index[key].expiresAt == m[key].expiresAt
                  && PlacedAt(env, disk.segments, key, index[key]))
  {
    hide Rebuild, Applied, Open, ReadBlob, PlacedAt, FiledIn, LastIn, FilesOf, Restored;
    OpenedIndex(env, disk, blank);
    var bloom := Applied(env, Rebuilt(map[], InitialFilter(disk, blank)), Wal.Replayed(env.crc32, disk.log)).bloom;
    RebuildReadsFiled(env, disk.segments, filed, disk.order, bloom, key);
    RestoredAt(filed, disk.order, key);
  }

  /** Recovery from the segments: with any log, any saved filter and any directory order, `open`
      succeeds and gives a good state that stands for what the files restore. */
  lemma OpenRestores(env: Env, st: State, filed: Filed, disk: Disk, blank: Bloom)
    requires Positioned(st) && FiledIn(env, st.segments, filed) && OnlySegments(disk, st)
    ensures Open(env, disk, blank).Some?
    ensures var reopened := Open(env, disk, blank).value;
            Inv(env, reopened) && Placed(env, reopened) && Abs(env, reopened) == Restored(filed, disk.order)
  {
    hide Open, ReadBlob, PlacedAt, FiledIn, Restored, Positioned;
    OpenedKey(env, filed, disk, blank, []);
    var reopened := Open(env, disk, blank).value;
    OpenIsFiltered(env, disk, blank, [], 0);
    OpenIsPositioned(env, st, disk, blank);
    OpenPosition(env, disk, blank);
    forall k: Str
      ensures k in reopened.index <==> k in Restored(filed, disk.order)
      ensures k in reopened.index ==>
                && ReadBlob(env, reopened.segments, reopened.index[k]) == Value(Restored(filed, disk.order)[k].value)
                && reopened.index[k].expiresAt == Restored(filed, disk.order)[k].expiresAt
                && PlacedAt(env, reopened.segments, k, reopened.index[k])
    {
      OpenedKey(env, filed, disk, blank, k);
    }
  }

  /** So after every run, from any good state, a key that was ever put reads as the value that the last
      listed of its files has, even if it was deleted or had expired. */
  lemma OpenAfterRun(env: Env, start: State, ops: seq<Op>, filed: Filed, disk: Disk, blank: Bloom, key: Str, now: nat)
    requires Proper(env, start, ops) && FiledIn(env, start.segments, filed) && OnlySegments(disk, After(env, start, ops))
    ensures Open(env, disk, blank).Some?
    ensures var filed' := FiledAfter(env, start, ops, filed);
            var last := LastIn(disk.order, FilesOf(filed', key));
            var reopened := Open(env, disk, blank).value;
            && Inv(env, reopened) && (last.Some? <==> FilesOf(filed', key) != {})
            && Get(env, reopened, key, now) == if last.Some? then Value(filed'[(last.value, key)]) else Missing
  {
    hide ReadBlob, Step, Open, Get, FiledIn, FilesOf, Restored, LastIn;
    var st, filed' := After(env, start, ops), FiledAfter(env, start, ops, filed);
    var t := LatestClock(ops);
    RunAgrees(env, start, ops, t);
    RunFiled(env, start, ops, filed);
    OpenRestores(env, st, filed', disk, blank);
    RestoredAt(filed', disk.order, key);
    GetReadsAbs(env, Open(env, disk, blank).value, key, now);
    RebuildReadsFiled(env, st.segments, filed', disk.order, Bloom(_ => {}, {}), key);
  }

  /** What every store that was never reopened out of order knows about its files. */
  ghost predicate InStep(env: Env, st: State, filed: Filed, puts: map<Str, seq<byte>>) {
    FiledIn(env, st.segments, filed) && Placed(env, st) && Newest(filed, puts, st.segment) && Fronted(st, filed)
  }

  /** Then a live key reads as its last put. */
  lemma LiveIsLastPut(env: Env, st: State, filed: Filed, puts: map<Str, seq<byte>>, key: Str)
    requires InStep(env, st, filed, puts) && key in st.index
    ensures key in puts && ReadBlob(env, st.segments, st.index[key]) == Value(puts[key])
  {
    hide ReadBlob, Holdings, Whole, FilesOf;
    var loc := st.index[key];
    assert PlacedAt(env, st.segments, key, loc);
    assert FiledAt(env, st.segments, filed, loc.shard, key);
    assert NewestAt(filed, puts, st.segment, key);
    ReadsByPlace(env, st.segments, Holdings(env, st.segments[loc.shard], loc.shard, 0)[key], loc);
  }

  lemma RunInStep(env: Env, start: State, ops: seq<Op>, filed: Filed, puts: map<Str, seq<byte>>)
    requires Proper(env, start, ops) && InStep(env, start, filed, puts)
    ensures InStep(env, After(env, start, ops), FiledAfter(env, start, ops, filed), LastPuts(env, start, ops, puts))
  {
    hide Step, FiledIn, Placed, Newest, Fronted, Inv;
    RunFiled(env, start, ops, filed);
    RunNewest(env, start, ops, filed, puts);
  }

  /** A key reads the same before the store was closed and after it was reopened without a snapshot
      exactly when, if it was ever put, it was live and the last listed of its files has its last value. */
  lemma ReopenedReadsSameIff(env: Env, start: State, ops: seq<Op>, filed: Filed, puts: map<Str, seq<byte>>,
                             disk: Disk, blank: Bloom, key: Str, now: nat)
    requires Proper(env, start, ops) && InStep(env, start, filed, puts) && OnlySegments(disk, After(env, start, ops))
    ensures Open(env, disk, blank).Some?
    ensures var st := After(env, start, ops);
            var last := LastPuts(env, start, ops, puts);
            var filed' := FiledAfter(env, start, ops, filed);
            var listed := LastIn(disk.order, FilesOf(filed', key));
            && (listed.Some? <==> key in last)
            && (Get(env, Open(env, disk, blank).value, key, now) == Get(env, st, key, now) <==>
                (key in last ==> Lookup(st.index, key, now).Some? && filed'[(listed.value, key)] == last[key]))
            && (NewestListedLast(disk.order, FilesOf(filed', key)) ==> filed'[(listed.value, key)] == last[key])
  {
    hide ReadBlob, Step, Open, FiledIn, Placed, Newest, Fronted, FilesOf, LastIn, Inv, Filtered;
    var st, last := After(env, start, ops), LastPuts(env, start, ops, puts);
    var filed' := FiledAfter(env, start, ops, filed);
    OpenAfterRun(env, start, ops, filed, disk, blank, key, now);
    RunInStep(env, start, ops, filed, puts);
    assert NewestAt(filed', last, st.segment, key) by { NewestHere(filed', last, st.segment, key); }
    var t := LatestClock(ops);
    RunAgrees(env, start, ops, t);
    InvIsFiltered(env, st);
    FilterInvisible(env, st, key, now);
    if key in st.index {
      LiveIsLastPut(env, st, filed', last, key);
    }
  }

  lemma NewestHere(filed: Filed, puts: map<Str, seq<byte>>, segment: nat, key: Str)
    requires Newest(filed, puts, segment)
    ensures NewestAt(filed, puts, segment, key)
  {
  }

  lemma InvIsFiltered(env: Env, st: State)
    requires Inv(env, st)
    ensures Filtered(env, st)
  {
  }

  /** In particular a deleted key comes back. */
  lemma DeletedKeyReturns(env: Env, start: State, ops: seq<Op>, filed: Filed, disk: Disk, blank: Bloom, key: Str, now: nat)
    requires Proper(env, start, ops) && FiledIn(env, start.segments, filed)
    requires FilesOf(FiledAfter(env, start, ops, filed), key) != {}
    requires OnlySegments(disk, After(env, start, ops + [Delete(key)]))
    ensures Get(env, After(env, start, ops + [Delete(key)]), key, now) == Missing
    ensures Open(env, disk, blank).Some?
    ensures var filed' := FiledAfter(env, start, ops, filed);
            var last := LastIn(disk.order, FilesOf(filed', key));
            last.Some? && Get(env, Open(env, disk, blank).value, key, now) == Value(filed'[(last.value, key)])
  {
    hide ReadBlob, Open, FiledIn, FilesOf, Inv, Bloom.Check;
    var longer := ops + [Delete(key)];
    assert longer[..|longer| - 1] == ops;
    OpenAfterRun(env, start, longer, filed, disk, blank, key, now);
  }

  // ---------- With a snapshot ----------

  /** Recovery from a snapshot: the index comes back as saved, less every key that has a delete
      anywhere in the log, even an old one. It is the saved index exactly when there is no such key
      and no expiry of 0. */
  lemma OpenFromSnapshot(env: Env, disk: Disk, blank: Bloom, m: Entries, saved: seq<Str>)
    requires Listed(disk) && EntriesFit(m) && Enumerates(saved, m)
    requires disk.snapshot == Some(Snapshot(m, saved, true))
    ensures Open(env, disk, blank).Some?
    ensures var deleted := Deleted(Wal.Replayed(env.crc32, disk.log));
            var st := Open(env, disk, blank).value;
            && st.index == ReloadedAll(m, true) - deleted
            && (st.index == m <==> m.Keys !! deleted && forall k :: k in m ==> m[k].expiresAt != Some(0))
  {
    hide Open, Load, Snapshot, Deleted, ReloadedAll;
    LoadSave(m, saved, true);
    OpenLoaded(env, disk, blank);
    ReloadedWithout(m, Deleted(Wal.Replayed(env.crc32, disk.log)));
  }

  lemma OpenLoaded(env: Env, disk: Disk, blank: Bloom)
    requires Listed(disk) && disk.snapshot.Some? && Load(disk.snapshot.value).Some?
    ensures Open(env, disk, blank).Some?
    ensures Open(env, disk, blank).value.index
            == Load(disk.snapshot.value).value - Deleted(Wal.Replayed(env.crc32, disk.log))
  {
    hide Applied, Load, Deleted, Position, Rebuild;
    AppliedIndex(env, Rebuilt(Load(disk.snapshot.value).value, InitialFilter(disk, blank)), Wal.Replayed(env.crc32, disk.log));
  }

  /** Opening fails when the snapshot does not load, as when it was cut anywhere. */
  lemma BadSnapshotFails(env: Env, disk: Disk, blank: Bloom)
    requires Listed(disk) && disk.snapshot.Some? && Load(disk.snapshot.value).None?
    ensures Open(env, disk, blank).None?
  {
    hide Load, Applied, Rebuild, Position;
  }

  lemma CutSnapshotFailsToOpen(env: Env, disk: Disk, blank: Bloom, m: Entries, saved: seq<Str>, n: nat)
    requires Listed(disk) && EntriesFit(m) && Enumerates(saved, m) && n < |Snapshot(m, saved, true)|
    requires disk.snapshot == Some(Snapshot(m, saved, true)[..n])
    ensures Open(env, disk, blank).None?
  {
    hide Open, Load, Snapshot;
    CutSnapshotFails(m, saved, true, n);
    BadSnapshotFails(env, disk, blank);
  }

  lemma ReloadedWithout(m: Entries, keys: set<Str>)
    ensures ReloadedAll(m, true) - keys == m <==> m.Keys !! keys && forall k :: k in m ==> m[k].expiresAt != Some(0)
  {
    var index := ReloadedAll(m, true) - keys;
    if m.Keys !! keys && forall k :: k in m ==> m[k].expiresAt != Some(0) {
      assert index == m;
    } else if k :| k in m && k in keys {
      assert k !in index;
    } else {
      var k :| k in m && m[k].expiresAt == Some(0);
      assert index[k] != m[k];
    }
  }

  /** Opening over the segment files of `st` with a snapshot whose records can all be read there gives
      a good state, which stands for the snapshot less the logged deletes. */
  lemma OpenOverSnapshot(env: Env, st: State, disk: Disk, blank: Bloom)
    requires Positioned(st) && disk.segments == st.segments && Listed(disk)
    requires disk.snapshot.Some? && Load(disk.snapshot.value).Some?
    requires Readable(env, st.(index := Load(disk.snapshot.value).value))
    ensures Open(env, disk, blank).Some?
    ensures var reopened := Open(env, disk, blank).value;
            && Inv(env, reopened)
            && Abs(env, reopened) == Abs(env, st.(index := Load(disk.snapshot.value).value))
                                     - Deleted(Wal.Replayed(env.crc32, disk.log))
  {
    hide ReadBlob, Load, Open, Deleted, Positioned;
    OpenLoaded(env, disk, blank);
    OpenIsFiltered(env, disk, blank, [], 0);
    OpenIsPositioned(env, st, disk, blank);
    OpenPosition(env, disk, blank);
  }

  /** A saved and reloaded expiry of 0 means never. */
  function ReloadedCells(m: Contents): Contents {
    map k | k in m :: if m[k].expiresAt == Some(0) then m[k].(expiresAt := None) else m[k]
  }

  /** The records of a snapshot can still be read after any further run, with the values they had. */
  lemma SavedStays(env: Env, st: State, after: State)
    requires Readable(env, st) && Extends(st.segments, after.segments)
    ensures Readable(env, after.(index := ReloadedAll(st.index, true)))
    ensures Abs(env, after.(index := ReloadedAll(st.index, true))) == ReloadedCells(Abs(env, st))
  {
    hide ReadBlob;
    forall k | k in st.index
      ensures ReadBlob(env, after.segments, Reloaded(st.index[k], true)) == ReadBlob(env, st.segments, st.index[k])
    {
      ReadBlobExtends(env, st.segments, after.segments, st.index[k]);
      ReadsByPlace(env, after.segments, Reloaded(st.index[k], true), st.index[k]);
    }
  }

  /** A snapshot of `st`, and a disk as a further run leaves it. */
  ghost predicate SavedThenRun(env: Env, st: State, more: seq<Op>, saved: seq<Str>, disk: Disk) {
    && Proper(env, st, more) && EntriesFit(st.index) && Enumerates(saved, st.index)
    && disk.snapshot == Some(Snapshot(st.index, saved, true))
    && disk.segments == After(env, st, more).segments && Listed(disk)
  }

  /** Reopening from a snapshot, whatever was done since it was saved: the store is a good one and
      stands for what was saved, less every key with a delete in the log. Later puts are lost. */
  lemma SnapshotReopens(env: Env, st: State, more: seq<Op>, saved: seq<Str>, disk: Disk, blank: Bloom, key: Str, now: nat)
    requires SavedThenRun(env, st, more, saved, disk)
    ensures Open(env, disk, blank).Some?
    ensures var reopened := Open(env, disk, blank).value;
            var m := ReloadedCells(Abs(env, st)) - Deleted(Wal.Replayed(env.crc32, disk.log));
            Inv(env, reopened) && Abs(env, reopened) == m && Get(env, reopened, key, now) == LookupCell(m, key, now)
  {
    hide ReadBlob, Step, Open, Get, Load, Snapshot, Deleted, ReloadedAll, ReloadedCells, Enumerates, EntriesFit;
    var after := After(env, st, more);
    LoadSave(st.index, saved, true);
    var t := LatestClock(more);
    RunAgrees(env, st, more, t);
    assert [] + more == more;
    RunsOverwriteNothing(env, st, [], more, Location(0, 0, 0, [], None));
    SavedStays(env, st, after);
    OpenOverSnapshot(env, after, disk, blank);
    GetReadsAbs(env, Open(env, disk, blank).value, key, now);
  }

  /** So a key reads as before exactly when what was saved for it, unless a delete is logged, is what
      it reads as now. */
  lemma SnapshotReadsSameIff(env: Env, st: State, more: seq<Op>, saved: seq<Str>, disk: Disk, blank: Bloom, key: Str, now: nat)
    requires SavedThenRun(env, st, more, saved, disk) && NoLater(more, now)
    ensures Open(env, disk, blank).Some?
    ensures var kept := if key in Deleted(Wal.Replayed(env.crc32, disk.log)) then Missing
                        else LookupCell(ReloadedCells(Abs(env, st)), key, now);
            Get(env, Open(env, disk, blank).value, key, now) == Get(env, After(env, st, more), key, now)
            <==> LookupCell(Spec(env, st, more), key, now) == kept
  {
    hide ReadBlob, Step, Open, Get, Deleted, ReloadedCells, Abs, Spec;
    SnapshotReopens(env, st, more, saved, disk, blank, key, now);
    GetReturnsLastPut(env, st, more, key, now);
  }

  /** A key that was neither put nor deleted since the snapshot reads as before exactly when it has no
      delete in the log or was not there anyway (or has an expiry of 0). */
  lemma UntouchedSurvivesIff(env: Env, st: State, more: seq<Op>, saved: seq<Str>, disk: Disk, blank: Bloom, key: Str, now: nat)
    requires SavedThenRun(env, st, more, saved, disk) && NoLater(more, now)
    requires forall i :: 0 <= i < |more| ==> !Touches(more[i], key)
    requires key in st.index ==> st.index[key].expiresAt != Some(0)
    ensures Open(env, disk, blank).Some?
    ensures Get(env, Open(env, disk, blank).value, key, now) == Get(env, After(env, st, more), key, now)
            <==> (Lookup(st.index, key, now).Some? ==> key !in Deleted(Wal.Replayed(env.crc32, disk.log)))
  {
    hide ReadBlob, Step, Open, Get, Deleted;
    SnapshotReadsSameIff(env, st, more, saved, disk, blank, key, now);
    assert [] + more == more;
    UntouchedSince(env, st, [], more, key);
  }
}
