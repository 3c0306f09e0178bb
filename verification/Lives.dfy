/** Whole lives of a store: operations, snapshots and reopenings in any order, with the write-ahead
    log and the snapshot file that they leave on disk, and the plain map that all of it stands for. */
module Lives {
  import opened Bytes
  import opened Records
  import opened Index
  import opened Store
  import opened Rescan
  import opened Recovery
  import Wal

  /** A store, its flushed log with the next sequence number, and its snapshot file, if any. */
  datatype World = World(store: State, log: seq<byte>, next: nat, snapshot: Option<seq<byte>>)

  /** `Save` carries the iteration order of the index; `Reopen` whatever filter file it finds, the new
      filter it would start with, and the directory order of the segments. */
  datatype Event =
    | Do(op: Op)
    | Save(keys: seq<Str>)
    | Reopen(filter: SavedFilter, blank: Bloom, order: seq<nat>)

  /** The log entry of an operation. */
  function Logged(op: Op): Option<Wal.Op> {
    match op
    case Put(key, value, _, _) => Some(Wal.Put(key, value))
    case Delete(key) => Some(Wal.Delete(key))
    case Cleanup(_) => None
    case SetMode(_) => None
  }

  /** Lengths fit, modes are sound, and orders list what there is. */
  ghost predicate Allowed(env: Env, w: World, ev: Event) {
    match ev
    case Do(op) =>
      && (op.Put? ==> Fits(op.key, op.value)) && (op.SetMode? ==> Sound(env, op.mode))
      && (Logged(op).Some? ==> Wal.Fits(Wal.Entry(w.next, Logged(op).value)))
    case Save(order) => EntriesFit(w.store.index) && Enumerates(order, w.store.index)
    case Reopen(_, _, order) => ListsFiles(order, w.store.segments)
  }

  function DiskOf(w: World, filter: SavedFilter, order: seq<nat>): Disk {
    Disk(w.snapshot, filter, w.log, w.store.segments, order)
  }

  function WithLog(env: Env, w: World, entry: Option<Wal.Op>): World {
    if entry.None? then w
    else w.(log := w.log + Wal.Encode(env.crc32, Wal.Entry(w.next, entry.value)), next := w.next + 1)
  }

  /** A failed reopening leaves everything as it was. */
  function Next(env: Env, w: World, ev: Event): World
    requires Allowed(env, w, ev)
  {
    match ev
    case Do(op) => WithLog(env, w, Logged(op)).(store := Step(env, w.store, op).0)
    case Save(order) => w.(snapshot := Some(Snapshot(w.store.index, order, true)))
    case Reopen(filter, blank, order) =>
      var r := Open(env, DiskOf(w, filter, order), blank);
      if r.None? then w
      else w.(store := r.value, next := Wal.NextSequence(Wal.Replayed(env.crc32, w.log)))
  }

  // ---------- What a life stands for ----------

  /** The contents, what each file last has, what was last saved, and the keys ever deleted. */
  datatype Model = Model(contents: Contents, filed: Filed, saved: Option<Contents>, deleted: set<Str>)

  function ExpiredCells(m: Contents, now: nat): set<Str> {
    set k | k in m && m[k].expiresAt.Some? && now > m[k].expiresAt.value
  }

  /** An operation, given whether it succeeded and in which segment. */
  function Done(m: Model, op: Op, ok: bool, segment: nat): Model {
    match op
    case Put(key, value, ttl, now) =>
      if !ok then m
      else m.(contents := m.contents[key := Cell(value, Deadline(ttl, now))], filed := m.filed[(segment, key) := value])
    case Delete(key) => m.(contents := m.contents - {key}, deleted := m.deleted + {key})
    case Cleanup(now) => m.(contents := m.contents - ExpiredCells(m.contents, now))
    case SetMode(_) => m
  }

  /** Reopening restores what was last saved less every key ever deleted; without a snapshot, what the
      files restore. */
  function ModelNext(env: Env, w: World, m: Model, ev: Event): Model {
    match ev
    case Do(op) => var (after, ok) := Step(env, w.store, op); Done(m, op, ok, after.segment)
    case Save(_) => m.(saved := Some(ReloadedCells(m.contents)))
    case Reopen(_, _, order) =>
      m.(contents := if m.saved.None? then Restored(m.filed, order) else m.saved.value - m.deleted)
  }

  // ---------- The invariant ----------

  /** The log holds exactly its entries, and their deletes are the model's. */
  ghost predicate LogKept(env: Env, w: World, m: Model) {
    Wal.Intact(env.crc32, w.log, w.next) && Deleted(Wal.Replayed(env.crc32, w.log)) == m.deleted
  }

  /** The snapshot loads, and its records read as the model's saved contents. */
  ghost predicate SnapshotKept(env: Env, w: World, m: Model) {
    && (w.snapshot.None? <==> m.saved.None?)
    && (w.snapshot.Some? ==>
          && Load(w.snapshot.value).Some?
          && var saved := w.store.(index := Load(w.snapshot.value).value);
          && Readable(env, saved) && Abs(env, saved) == m.saved.value)
  }

  ghost predicate LifeInv(env: Env, w: World, m: Model) {
    && Inv(env, w.store) && Sound(env, w.store.mode) && Abs(env, w.store) == m.contents
    && FiledIn(env, w.store.segments, m.filed)
    && LogKept(env, w, m) && SnapshotKept(env, w, m)
  }

  lemma DeletedOneMore(es: seq<Wal.Entry>, e: Wal.Entry)
    ensures Deleted(es + [e]) == Deleted(es) + (if e.op.Delete? then {e.op.key} else {})
  {
    var longer := es + [e];
    assert longer[|es|] == e && forall i :: 0 <= i < |es| ==> longer[i] == es[i];
    if e.op.Delete? {
      assert longer[|es|].op.key in Deleted(longer);
    }
  }

  lemma DoKeepsLog(env: Env, w: World, m: Model, op: Op)
    requires LogKept(env, w, m) && Allowed(env, w, Do(op))
    ensures LogKept(env, Next(env, w, Do(op)), ModelNext(env, w, m, Do(op)))
  {
    hide Step, Wal.Replayed, Wal.Intact, Wal.Encode, Deleted;
    if Logged(op).Some? {
      var e := Wal.Entry(w.next, Logged(op).value);
      Wal.AppendKeepsIntact(env.crc32, w.log, w.next, Logged(op).value);
      DeletedOneMore(Wal.Replayed(env.crc32, w.log), e);
    }
  }

  lemma ExpiredInAbs(env: Env, st: State, now: nat)
    requires Readable(env, st)
    ensures ExpiredCells(Abs(env, st), now) == Expired(st.index, now)
  {
    hide ReadBlob;
  }

  lemma DoKeepsContents(env: Env, st: State, m: Model, op: Op)
    requires Inv(env, st) && Sound(env, st.mode) && Abs(env, st) == m.contents
    requires (op.Put? ==> Fits(op.key, op.value)) && (op.SetMode? ==> Sound(env, op.mode))
    ensures var (after, ok) := Step(env, st, op);
            Inv(env, after) && Sound(env, after.mode) && Abs(env, after) == Done(m, op, ok, after.segment).contents
  {
    hide ReadBlob, PutState, Abs, AtLimit, Positioned, Readable, Filtered;
    StepMode(env, st, op);
    match op
    case Put(key, value, ttl, now) => PutKeeps(env, st, key, value, ttl, now);
    case Delete(key) => DropKeeps(env, st, {key});
    case Cleanup(now) =>
      DropKeeps(env, st, Expired(st.index, now));
      ExpiredInAbs(env, st, now);
    case SetMode(mode) => ModeKeeps(env, st, mode);
  }

  /** Files that only grow keep everything that could be read. */
  lemma ExtendedReads(env: Env, st: State, after: State, index: Entries)
    requires Extends(st.segments, after.segments) && Readable(env, st.(index := index))
    ensures Readable(env, after.(index := index)) && Abs(env, after.(index := index)) == Abs(env, st.(index := index))
  {
    hide ReadBlob;
    forall k | k in index ensures ReadBlob(env, after.segments, index[k]) == ReadBlob(env, st.segments, index[k]) {
      ReadBlobExtends(env, st.segments, after.segments, index[k]);
    }
  }

  lemma DoKeepsSnapshot(env: Env, w: World, m: Model, op: Op)
    requires Inv(env, w.store) && Sound(env, w.store.mode) && SnapshotKept(env, w, m) && Allowed(env, w, Do(op))
    ensures SnapshotKept(env, Next(env, w, Do(op)), ModelNext(env, w, m, Do(op)))
  {
    hide Step, ReadBlob, Load, Readable, Abs, Inv, Wal.Encode;
    StepExtends(env, w.store, op);
    if w.snapshot.Some? {
      ExtendedReads(env, w.store, Step(env, w.store, op).0, Load(w.snapshot.value).value);
    }
  }

  lemma DoKeeps(env: Env, w: World, m: Model, op: Op)
    requires LifeInv(env, w, m) && Allowed(env, w, Do(op))
    ensures LifeInv(env, Next(env, w, Do(op)), ModelNext(env, w, m, Do(op)))
  {
    hide Step, Inv, Abs, FiledIn, LogKept, SnapshotKept, Wal.Encode, Sound, Placed;
    DoKeepsLog(env, w, m, op);
    DoKeepsSnapshot(env, w, m, op);
    DoKeepsContents(env, w.store, m, op);
    StepFiled(env, w.store, op, m.filed);
  }

  lemma SaveKeeps(env: Env, w: World, m: Model, order: seq<Str>)
    requires LifeInv(env, w, m) && Allowed(env, w, Save(order))
    ensures LifeInv(env, Next(env, w, Save(order)), ModelNext(env, w, m, Save(order)))
  {
    hide ReadBlob, Load, Snapshot, FiledIn, ReloadedAll, ReloadedCells, LogKept, Abs, Readable, Enumerates, EntriesFit;
    assert Readable(env, w.store) by { ReadableNow(env, w.store); }
    LoadSave(w.store.index, order, true);
    SavedStays(env, w.store, w.store);
    LogStays(env, w, Next(env, w, Save(order)), m, ModelNext(env, w, m, Save(order)));
  }

  lemma ReadableNow(env: Env, st: State)
    requires Inv(env, st)
    ensures Readable(env, st)
  {
  }

  lemma LogStays(env: Env, w: World, after: World, m: Model, later: Model)
    requires LogKept(env, w, m) && after.log == w.log && after.next == w.next && later.deleted == m.deleted
    ensures LogKept(env, after, later)
  {
  }

  lemma ReopenKeepsLog(env: Env, w: World, m: Model)
    requires LogKept(env, w, m)
    ensures LogKept(env, w.(next := Wal.NextSequence(Wal.Replayed(env.crc32, w.log))), m)
  {
    hide Wal.Replayed, Deleted;
    Wal.ReopenIntact(env.crc32, Wal.Replayed(env.crc32, w.log));
  }

  lemma ReopenKeeps(env: Env, w: World, m: Model, filter: SavedFilter, blank: Bloom, order: seq<nat>)
    requires LifeInv(env, w, m) && Allowed(env, w, Reopen(filter, blank, order))
    ensures Open(env, DiskOf(w, filter, order), blank).Some?
    ensures LifeInv(env, Next(env, w, Reopen(filter, blank, order)), ModelNext(env, w, m, Reopen(filter, blank, order)))
  {
    hide ReadBlob, Load, FiledIn, Abs, Readable, Open, Restored, Deleted, Wal.Replayed, Wal.Intact, Placed, Positioned;
    var disk := DiskOf(w, filter, order);
    ReopenKeepsLog(env, w, m);
    if m.saved.None? {
      OpenRestores(env, w.store, m.filed, disk, blank);
    } else {
      OpenOverSnapshot(env, w.store, disk, blank);
    }
    OpenPosition(env, disk, blank);
    var reopened := Open(env, disk, blank).value;
    if w.snapshot.Some? {
      ExtendedReads(env, w.store, reopened, Load(w.snapshot.value).value);
    }
  }

  lemma EventKeeps(env: Env, w: World, m: Model, ev: Event)
    requires LifeInv(env, w, m) && Allowed(env, w, ev)
    ensures LifeInv(env, Next(env, w, ev), ModelNext(env, w, m, ev))
  {
    hide LifeInv, Allowed, Next, ModelNext;
    match ev
    case Do(op) => DoKeeps(env, w, m, op);
    case Save(order) => SaveKeeps(env, w, m, order);
    case Reopen(filter, blank, order) => ReopenKeeps(env, w, m, filter, blank, order);
  }

  // ---------- Lives ----------

  ghost predicate Lives(env: Env, w: World, events: seq<Event>)
    decreases events
  {
    events == [] || (Allowed(env, w, events[0]) && Lives(env, Next(env, w, events[0]), events[1..]))
  }

  function AfterLife(env: Env, w: World, events: seq<Event>): World
    requires Lives(env, w, events)
    decreases events
  {
    if events == [] then w else AfterLife(env, Next(env, w, events[0]), events[1..])
  }

  function ModelAfter(env: Env, w: World, m: Model, events: seq<Event>): Model
    requires Lives(env, w, events)
    decreases events
  {
    if events == [] then m
    else ModelAfter(env, Next(env, w, events[0]), ModelNext(env, w, m, events[0]), events[1..])
  }

  lemma {:induction false} LifeKeeps(env: Env, w: World, m: Model, events: seq<Event>)
    requires LifeInv(env, w, m) && Lives(env, w, events)
    ensures LifeInv(env, AfterLife(env, w, events), ModelAfter(env, w, m, events))
    decreases events
  {
    hide LifeInv, Allowed, Next, ModelNext;
    if events != [] {
      EventKeeps(env, w, m, events[0]);
      LifeKeeps(env, Next(env, w, events[0]), ModelNext(env, w, m, events[0]), events[1..]);
    }
  }

  function NewWorld(start: State): World {
    World(start, [], 0, None)
  }

  const NOTHING: Model := Model(map[], map[], None, {})

  lemma NewWorldInv(env: Env, start: State)
    requires Fresh(start) && Sound(env, start.mode)
    ensures LifeInv(env, NewWorld(start), NOTHING)
  {
    FreshInv(env, start);
    FreshFiled(env, start);
    assert Wal.Replayed(env.crc32, []) == [] && Wal.EncodeAll(env.crc32, []) == [];
  }

  /** The store refines a map over whole lives: after every sequence of operations, snapshots and
      reopenings, in any iteration and directory orders and with any filter files, the invariant holds
      and `get` is a lookup in the model's contents. */
  lemma LifeRefinesModel(env: Env, start: State, events: seq<Event>, key: Str, now: nat)
    requires Fresh(start) && Sound(env, start.mode) && Lives(env, NewWorld(start), events)
    ensures var w := AfterLife(env, NewWorld(start), events);
            var m := ModelAfter(env, NewWorld(start), NOTHING, events);
            LifeInv(env, w, m) && Get(env, w.store, key, now) == LookupCell(m.contents, key, now)
  {
    hide Lives, AfterLife, ModelAfter, Get, Abs, FiledIn, LogKept, SnapshotKept, Sound;
    NewWorldInv(env, start);
    LifeKeeps(env, NewWorld(start), NOTHING, events);
    GetReadsAbs(env, AfterLife(env, NewWorld(start), events).store, key, now);
  }

  // ---------- What is lost ----------

  lemma GetFromModel(env: Env, w: World, m: Model, key: Str, now: nat)
    requires LifeInv(env, w, m)
    ensures Get(env, w.store, key, now) == LookupCell(m.contents, key, now)
  {
    hide Get, Abs, FiledIn, LogKept, SnapshotKept, Sound;
    GetReadsAbs(env, w.store, key, now);
  }

  lemma SavedThenReopened(env: Env, w: World, m: Model, saving: Event, reopening: Event)
    requires LifeInv(env, w, m) && saving.Save? && reopening.Reopen?
    requires Allowed(env, w, saving) && Allowed(env, Next(env, w, saving), reopening)
    ensures LifeInv(env, Next(env, Next(env, w, saving), reopening),
                    m.(saved := Some(ReloadedCells(m.contents)), contents := ReloadedCells(m.contents) - m.deleted))
  {
    hide LifeInv, Allowed, Next, ReloadedCells;
    EventKeeps(env, w, m, saving);
    var saved, m1 := Next(env, w, saving), ModelNext(env, w, m, saving);
    EventKeeps(env, saved, m1, reopening);
    assert ModelNext(env, saved, m1, reopening)
        == m.(saved := Some(ReloadedCells(m.contents)), contents := ReloadedCells(m.contents) - m.deleted);
  }

  /** After saving and reopening a key reads as before exactly when it was not there or was never
      deleted since the log began, even if it was put again after that. (An expiry of 0 comes back as
      never.) */
  lemma SaveAndReopenReadsSameIff(env: Env, w: World, m: Model, saving: Event, reopening: Event, key: Str, now: nat)
    requires LifeInv(env, w, m) && saving.Save? && reopening.Reopen?
    requires Allowed(env, w, saving) && Allowed(env, Next(env, w, saving), reopening)
    requires key in m.contents ==> m.contents[key].expiresAt != Some(0)
    ensures Get(env, Next(env, Next(env, w, saving), reopening).store, key, now) == Get(env, w.store, key, now)
            <==> (LookupCell(m.contents, key, now).Value? ==> key !in m.deleted)
  {
    hide LifeInv, Allowed, Next, Get;
    SavedThenReopened(env, w, m, saving, reopening);
    var later := m.(saved := Some(ReloadedCells(m.contents)), contents := ReloadedCells(m.contents) - m.deleted);
    GetFromModel(env, w, m, key, now);
    GetFromModel(env, Next(env, Next(env, w, saving), reopening), later, key, now);
  }

  /** Lengths that fit the log. */
  predicate Short(op: Op) {
    (op.Put? || op.Delete?) && |op.key| < LIMIT32 && (op.Put? ==> |op.value| < LIMIT32)
  }

  lemma DoModel(env: Env, w: World, m: Model, op: Op)
    requires LifeInv(env, w, m) && Short(op)
    requires w.store.segment + 1 < MAX_SEGMENTS && w.next + 1 < LIMIT64
    ensures Allowed(env, w, Do(op))
    ensures var after := Next(env, w, Do(op));
            var later := ModelNext(env, w, m, Do(op));
            && LifeInv(env, after, later) && after.store.segment <= w.store.segment + 1 && after.next == w.next + 1
            && (op.Put? ==> later.contents == m.contents[op.key := Cell(op.value, Deadline(op.ttl, op.now))]
                            && later.deleted == m.deleted)
  {
    hide LifeInv, Step, Wal.Encode;
    assert Allowed(env, w, Do(op));
    DoKeeps(env, w, m, op);
    StepSegment(env, w.store, op);
    StepFiles(env, w.store, op);
  }

  lemma FirstEvent(env: Env, w: World, m: Model, ev: Event, rest: seq<Event>)
    requires Allowed(env, w, ev) && Lives(env, Next(env, w, ev), rest)
    ensures Lives(env, w, [ev] + rest)
    ensures AfterLife(env, w, [ev] + rest) == AfterLife(env, Next(env, w, ev), rest)
    ensures ModelAfter(env, w, m, [ev] + rest) == ModelAfter(env, Next(env, w, ev), ModelNext(env, w, m, ev), rest)
  {
    hide Allowed, Next, ModelNext;
    assert ([ev] + rest)[1..] == rest;
  }

  lemma NoEvents(env: Env, w: World, m: Model)
    ensures Lives(env, w, []) && AfterLife(env, w, []) == w && ModelAfter(env, w, m, []) == m
  {
  }

  /** Such a life: put a key, delete it, and put it again. */
  function PutDeletePut(key: Str, value: seq<byte>): seq<Event> {
    [Do(Put(key, value, None, 0)), Do(Delete(key)), Do(Put(key, value, None, 0))]
  }

  lemma PutDeletePutModel(env: Env, start: State, key: Str, value: seq<byte>)
    requires Fresh(start) && Sound(env, start.mode) && |key| < LIMIT32 && |value| < LIMIT32
    ensures Lives(env, NewWorld(start), PutDeletePut(key, value))
    ensures var w := AfterLife(env, NewWorld(start), PutDeletePut(key, value));
            var m := ModelAfter(env, NewWorld(start), NOTHING, PutDeletePut(key, value));
            LifeInv(env, w, m) && m.contents == map[key := Cell(value, None)] && m.deleted == {key}
  {
    hide Allowed, Next, LifeInv, Lives, AfterLife, ModelAfter;
    var put, delete := Do(Put(key, value, None, 0)), Do(Delete(key));
    NewWorldInv(env, start);
    var w0, m0 := NewWorld(start), NOTHING;
    DoModel(env, w0, m0, put.op);
    var w1, m1 := Next(env, w0, put), ModelNext(env, w0, m0, put);
    DoModel(env, w1, m1, delete.op);
    var w2, m2 := Next(env, w1, delete), ModelNext(env, w1, m1, delete);
    assert m2.contents == map[] && m2.deleted == {key};
    DoModel(env, w2, m2, put.op);
    NoEvents(env, Next(env, w2, put), ModelNext(env, w2, m2, put));
    FirstEvent(env, w2, m2, put, []);
    FirstEvent(env, w1, m1, delete, [put] + []);
    FirstEvent(env, w0, m0, put, [delete] + ([put] + []));
    assert [put] + ([delete] + ([put] + [])) == PutDeletePut(key, value);
  }

  /** It is a life, and it loses the key when the store is saved and reopened. */
  lemma ReputKeyIsLost(env: Env, start: State, key: Str, value: seq<byte>, saving: Event, reopening: Event, now: nat)
    requires Fresh(start) && Sound(env, start.mode) && |key| < LIMIT32 && |value| < LIMIT32
    requires Lives(env, NewWorld(start), PutDeletePut(key, value))
    requires saving.Save? && Allowed(env, AfterLife(env, NewWorld(start), PutDeletePut(key, value)), saving)
    requires reopening.Reopen?
    requires Allowed(env, Next(env, AfterLife(env, NewWorld(start), PutDeletePut(key, value)), saving), reopening)
    ensures var w := AfterLife(env, NewWorld(start), PutDeletePut(key, value));
            && Get(env, w.store, key, now) == Value(value)
            && Get(env, Next(env, Next(env, w, saving), reopening).store, key, now) == Missing
  {
    hide LifeInv, Allowed, Next, Get, AfterLife, Lives, ModelAfter, PutDeletePut;
    var w := AfterLife(env, NewWorld(start), PutDeletePut(key, value));
    var m := ModelAfter(env, NewWorld(start), NOTHING, PutDeletePut(key, value));
    PutDeletePutModel(env, start, key, value);
    SavedThenReopened(env, w, m, saving, reopening);
    var later := m.(saved := Some(ReloadedCells(m.contents)), contents := ReloadedCells(m.contents) - m.deleted);
    GetFromModel(env, w, m, key, now);
    GetFromModel(env, Next(env, Next(env, w, saving), reopening), later, key, now);
  }
}
