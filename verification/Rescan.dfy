/** Rebuilding the index by scanning the segment files, and finding the append position again. */
module Rescan {
  import opened Bytes
  import opened Records
  import opened Index
  import opened Store

  /** The index and filter that a scan fills. */
  datatype Rebuilt = Rebuilt(index: Entries, bloom: Bloom)

  function Found(env: Env, r: Rebuilt, segment: nat, offset: nat, key: Str, size: nat): Rebuilt {
    Rebuilt(r.index[key := Location(segment, offset, size, env.blake3(key), None)], r.bloom.With(env.digest(key)))
  }

  /** Scanning the rest `s` of a segment file from a running offset; None is an error. */
  function Scan(env: Env, s: seq<byte>, segment: nat, offset: nat, r: Rebuilt): Option<Rebuilt>
    decreases |s|
  {
    var item := ScanAt(env, s);
    match item
    case Stop => Some(r)
    case Broken => None
    case Item(key, size, length) =>
      Scan(env, s[length..], segment, offset + length, Found(env, r, segment, offset, key, size))
  }

  /** Scanning the files in the order in which the directory lists them. */
  function Rebuild(env: Env, segments: Segments, order: seq<nat>, r: Rebuilt): Option<Rebuilt>
    requires forall s :: s in order ==> s in segments
  {
    if order == [] then Some(r)
    else
      var before := Rebuild(env, segments, order[..|order| - 1], r);
      var s := order[|order| - 1];
      if before.None? then None else Scan(env, segments[s], s, 0, before.value)
  }

  method ScanSegment(env: Env, file: seq<byte>, segment: nat, start: Rebuilt) returns (r: Option<Rebuilt>)
    ensures r == Scan(env, file, segment, 0, start)
  {
    var rest, offset, acc := file, 0, start;
    while true
      invariant Scan(env, rest, segment, offset, acc) == Scan(env, file, segment, 0, start)
      decreases |rest|
    {
      var item;
      item, rest := ScanRecord(env, rest);
      match item {
        case Stop => return Some(acc);
        case Broken => return None;
        case Item(key, size, length) =>
          acc := Rebuilt(acc.index[key := Location(segment, offset, size, env.blake3(key), None)],
                         acc.bloom.With(env.digest(key)));
          offset := offset + length;
      }
    }
  }

  method RebuildIndexFromSegments(env: Env, segments: Segments, order: seq<nat>, start: Rebuilt) returns (r: Option<Rebuilt>)
    requires forall s :: s in order ==> s in segments
    ensures r == Rebuild(env, segments, order, start)
  {
    var acc := start;
    for i := 0 to |order|
      invariant Rebuild(env, segments, order[..i], start) == Some(acc)
    {
      assert order[..i + 1][..i] == order[..i];
      var next := ScanSegment(env, segments[order[i]], order[i], acc);
      if next.None? {
        FailedRebuild(env, segments, order, i, start);
        return None;
      }
      acc := next.value;
    }
    assert order[..|order|] == order;
    return Some(acc);
  }

  lemma {:induction false} FailedRebuild(env: Env, segments: Segments, order: seq<nat>, i: nat, r: Rebuilt)
    requires i < |order| && forall s :: s in order ==> s in segments
    requires Rebuild(env, segments, order[..i + 1], r).None?
    ensures Rebuild(env, segments, order, r).None?
    decreases |order|
  {
    if i + 1 == |order| {
      assert order[..i + 1] == order;
    } else {
      assert order[..|order| - 1][..i + 1] == order[..i + 1];
      FailedRebuild(env, segments, order[..|order| - 1], i, r);
    }
  }

  // ---------- A scan follows the writer ----------

  /** A file made of whole records. */
  predicate Whole(env: Env, s: seq<byte>)
    decreases |s|
  {
    s == [] || (ScanAt(env, s).Item? && Whole(env, s[ScanAt(env, s).size..]))
  }

  lemma ScanStep(env: Env, s: seq<byte>, segment: nat, offset: nat, r: Rebuilt)
    requires ScanAt(env, s).Item?
    ensures var item := ScanAt(env, s);
            Scan(env, s, segment, offset, r) ==
            Scan(env, s[item.size..], segment, offset + item.size, Found(env, r, segment, offset, item.key, item.origLen))
  {
  }

  lemma ScanNothing(env: Env, segment: nat, offset: nat, r: Rebuilt)
    ensures Scan(env, [], segment, offset, r) == Some(r)
  {
  }

  /** Over whole records the scanner's running offset is the length scanned so far. */
  lemma {:induction false} ScanConcat(env: Env, s: seq<byte>, t: seq<byte>, segment: nat, offset: nat, r: Rebuilt)
    requires Whole(env, s)
    ensures Scan(env, s, segment, offset, r).Some?
    ensures Scan(env, s + t, segment, offset, r) ==
            Scan(env, t, segment, offset + |s|, Scan(env, s, segment, offset, r).value)
    decreases |s|
  {
    ScanNothing(env, segment, offset, r);
    hide ScanAt, Found, Scan;
    if s == [] {
      assert s + t == t;
    } else {
      var item := ScanAt(env, s);
      ScanStable(env, s, t);
      ScanStep(env, s, segment, offset, r);
      ScanStep(env, s + t, segment, offset, r);
      assert (s + t)[item.size..] == s[item.size..] + t;
      ScanConcat(env, s[item.size..], t, segment, offset + item.size, Found(env, r, segment, offset, item.key, item.origLen));
    }
  }

  lemma {:induction false} WholeConcat(env: Env, s: seq<byte>, t: seq<byte>)
    requires Whole(env, s) && Whole(env, t)
    ensures Whole(env, s + t)
    decreases |s|
  {
    hide ScanAt;
    if s == [] {
      assert s + t == t;
    } else {
      var item := ScanAt(env, s);
      ScanStable(env, s, t);
      assert (s + t)[item.size..] == s[item.size..] + t;
      WholeConcat(env, s[item.size..], t);
    }
  }

  lemma ScanOneRecord(env: Env, mode: Compression, key: Str, value: seq<byte>, segment: nat, offset: nat, r: Rebuilt)
    requires Fits(key, value)
    ensures Whole(env, Record(env, mode, key, value))
    ensures Scan(env, Record(env, mode, key, value), segment, offset, r) == Some(Found(env, r, segment, offset, key, |value|))
  {
    var record := Record(env, mode, key, value);
    ScanWritten(env, mode, key, value, []);
    hide Record, Found;
    assert record + [] == record;
    assert record[|record|..] == [];
  }

  /** Scanning a file after one more record was appended: the record is found where it was written. */
  lemma ScanAppended(env: Env, file: seq<byte>, mode: Compression, key: Str, value: seq<byte>, segment: nat, r: Rebuilt)
    requires Whole(env, file) && Fits(key, value)
    ensures Whole(env, file + Record(env, mode, key, value))
    ensures Scan(env, file, segment, 0, r).Some?
    ensures Scan(env, file + Record(env, mode, key, value), segment, 0, r) ==
            Some(Found(env, Scan(env, file, segment, 0, r).value, segment, |file|, key, |value|))
  {
    hide Record, Scan, Found, Whole;
    ScanConcat(env, file, Record(env, mode, key, value), segment, 0, r);
    var mid := Scan(env, file, segment, 0, r).value;
    ScanOneRecord(env, mode, key, value, segment, |file|, mid);
    WholeConcat(env, file, Record(env, mode, key, value));
  }

  // ---------- Files in order ----------

  ghost predicate WholeFiles(env: Env, segments: Segments) {
    forall s :: s in segments ==> Whole(env, segments[s])
  }

  ghost predicate Sorted(order: seq<nat>) {
    forall i, j :: 0 <= i < j < |order| ==> order[i] < order[j]
  }

  ghost predicate ListsFiles(order: seq<nat>, segments: Segments) {
    && (forall s :: s in order <==> s in segments)
    && (forall i, j :: 0 <= i < j < |order| ==> order[i] != order[j])
  }

  lemma {:induction false} RebuildSucceeds(env: Env, segments: Segments, order: seq<nat>, r: Rebuilt)
    requires WholeFiles(env, segments) && forall s :: s in order ==> s in segments
    ensures Rebuild(env, segments, order, r).Some?
  {
    hide Scan, Whole;
    if order != [] {
      var prefix, s := order[..|order| - 1], order[|order| - 1];
      RebuildSucceeds(env, segments, prefix, r);
      ScanConcat(env, segments[s], [], s, 0, Rebuild(env, segments, prefix, r).value);
    }
  }

  // ---------- Broken files ----------

  /** Scanning the file ends without an error. */
  predicate Scans(env: Env, s: seq<byte>)
    decreases |s|
  {
    var item := ScanAt(env, s);
    item.Stop? || (item.Item? && Scans(env, s[item.size..]))
  }

  lemma {:induction false} ScanSucceedsIff(env: Env, s: seq<byte>, segment: nat, offset: nat, r: Rebuilt)
    ensures Scan(env, s, segment, offset, r).Some? <==> Scans(env, s)
    decreases |s|
  {
    hide ScanAt, Found;
    var item := ScanAt(env, s);
    if item.Item? {
      ScanSucceedsIff(env, s[item.size..], segment, offset + item.size, Found(env, r, segment, offset, item.key, item.origLen));
    }
  }

  /** A rescan succeeds exactly when every file does. */
  lemma {:induction false} RebuildSucceedsIff(env: Env, segments: Segments, order: seq<nat>, r: Rebuilt)
    requires forall s :: s in order ==> s in segments
    ensures Rebuild(env, segments, order, r).Some? <==> forall s :: s in order ==> Scans(env, segments[s])
  {
    hide Scan, Scans;
    if order != [] {
      var prefix, s := order[..|order| - 1], order[|order| - 1];
      RebuildSucceedsIff(env, segments, prefix, r);
      assert order == prefix + [s];
      if Rebuild(env, segments, prefix, r).Some? {
        ScanSucceedsIff(env, segments[s], s, 0, Rebuild(env, segments, prefix, r).value);
      }
    }
  }

  /** Whole records followed by a cut one scan exactly when the cut is within its magic. */
  lemma {:induction false} CutFileScansIff(env: Env, file: seq<byte>, mode: Compression, key: Str, value: seq<byte>, n: nat)
    requires Whole(env, file) && Fits(key, value) && n < |Record(env, mode, key, value)|
    ensures Scans(env, file + Record(env, mode, key, value)[..n]) <==> n < 4
    decreases |file|
  {
    hide Record;
    var cut := Record(env, mode, key, value)[..n];
    if file == [] {
      ScanCut(env, mode, key, value, n);
      assert file + cut == cut;
    } else {
      var item := ScanAt(env, file);
      ScanStable(env, file, cut);
      assert (file + cut)[item.size..] == file[item.size..] + cut;
      hide ScanAt;
      CutFileScansIff(env, file[item.size..], mode, key, value, n);
    }
  }

  lemma {:induction false} WholeScans(env: Env, s: seq<byte>)
    requires Whole(env, s)
    ensures Scans(env, s)
    decreases |s|
  {
    var item := ScanAt(env, s);
    if s != [] {
      hide ScanAt;
      WholeScans(env, s[item.size..]);
    }
  }

  // ---------- What each file holds ----------

  /** What a file contributes to a rescan. */
  function Holdings(env: Env, s: seq<byte>, segment: nat, offset: nat): Entries
    decreases |s|
  {
    var item := ScanAt(env, s);
    if !item.Item? then map[]
    else
      map[item.key := Location(segment, offset, item.origLen, env.blake3(item.key), None)]
      + Holdings(env, s[item.size..], segment, offset + item.size)
  }

  lemma {:induction false} HoldingsShard(env: Env, s: seq<byte>, segment: nat, offset: nat)
    ensures forall k :: k in Holdings(env, s, segment, offset) ==>
              var loc := Holdings(env, s, segment, offset)[k];
              loc.shard == segment && loc.expiresAt == None && loc.blake3 == env.blake3(k)
    decreases |s|
  {
    hide ScanAt;
    var item := ScanAt(env, s);
    if item.Item? {
      HoldingsShard(env, s[item.size..], segment, offset + item.size);
    }
  }

  lemma {:induction false} ScanAddsHoldings(env: Env, s: seq<byte>, segment: nat, offset: nat, r: Rebuilt)
    requires Scan(env, s, segment, offset, r).Some?
    ensures Scan(env, s, segment, offset, r).value.index == r.index + Holdings(env, s, segment, offset)
    decreases |s|
  {
    hide ScanAt;
    var item := ScanAt(env, s);
    if item.Item? {
      var loc := Location(segment, offset, item.origLen, env.blake3(item.key), None);
      ScanAddsHoldings(env, s[item.size..], segment, offset + item.size, Found(env, r, segment, offset, item.key, item.origLen));
      UpdateThenMerge(r.index, item.key, loc, Holdings(env, s[item.size..], segment, offset + item.size));
    } else {
      assert r.index + map[] == r.index;
    }
  }

  /** After one more append a file holds the same as before, and the new record where it was written. */
  lemma HoldingsAppended(env: Env, file: seq<byte>, mode: Compression, key: Str, value: seq<byte>, segment: nat)
    requires Whole(env, file) && Fits(key, value)
    ensures Whole(env, file + Record(env, mode, key, value))
    ensures Holdings(env, file + Record(env, mode, key, value), segment, 0) ==
            Holdings(env, file, segment, 0)[key := Location(segment, |file|, |value|, env.blake3(key), None)]
  {
    hide Scan, Holdings, Whole, Record;
    var nothing := Rebuilt(map[], Bloom(_ => {}, {}));
    ScanAppended(env, file, mode, key, value, segment, nothing);
    ScanAddsHoldings(env, file, segment, 0, nothing);
    ScanAddsHoldings(env, file + Record(env, mode, key, value), segment, 0, nothing);
    assert map[] + Holdings(env, file, segment, 0) == Holdings(env, file, segment, 0);
  }

  predicate Holds(env: Env, segments: Segments, s: nat, key: Str) {
    s in segments && key in Holdings(env, segments[s], s, 0)
  }

  function Holders(env: Env, segments: Segments, key: Str): set<nat> {
    set s | s in segments && Holds(env, segments, s, key)
  }

  /** The last of some files in listing order. */
  function LastIn(order: seq<nat>, files: set<nat>): (r: Option<nat>)
    ensures r.Some? ==> r.value in order && r.value in files
    ensures r.None? ==> forall s :: s in order ==> s !in files
  {
    if order == [] then None
    else if order[|order| - 1] in files then Some(order[|order| - 1])
    else LastIn(order[..|order| - 1], files)
  }

  predicate IsHighest(files: set<nat>, s: nat) {
    s in files && forall t :: t in files ==> t <= s
  }

  /** In ascending order the last file is the highest. */
  lemma {:induction false} LastIsHighest(order: seq<nat>, files: set<nat>)
    requires Sorted(order) && forall s :: s in files ==> s in order
    ensures var last := LastIn(order, files); last.Some? ==> IsHighest(files, last.value)
  {
    if order != [] {
      var prefix, s := order[..|order| - 1], order[|order| - 1];
      assert order == prefix + [s];
      if s !in files {
        LastIsHighest(prefix, files);
      }
    }
  }

  /** Whatever the order, the last listed file that holds a key decides where it is found. */
  lemma {:induction false} RebuildTakesLastHolder(env: Env, segments: Segments, order: seq<nat>, r: Rebuilt, key: Str)
    requires r.index == map[] && forall s :: s in order ==> s in segments
    requires Rebuild(env, segments, order, r).Some?
    ensures var h := LastIn(order, Holders(env, segments, key));
            var found := Rebuild(env, segments, order, r).value.index;
            && (key in found <==> h.Some?)
            && (h.Some? ==> found[key] == Holdings(env, segments[h.value], h.value, 0)[key])
  {
    hide Scan, Holdings;
    if order != [] {
      var prefix, s := order[..|order| - 1], order[|order| - 1];
      RebuildTakesLastHolder(env, segments, prefix, r, key);
      ScanAddsHoldings(env, segments[s], s, 0, Rebuild(env, segments, prefix, r).value);
    }
  }

  /** Directory order: rescanning in two orders finds a key in the same place exactly when the same
      file is the last one to hold it in both. */
  lemma RescanOrderMatters(env: Env, segments: Segments, order: seq<nat>, other: seq<nat>, r: Rebuilt, key: Str)
    requires r.index == map[] && WholeFiles(env, segments)
    requires ListsFiles(order, segments) && ListsFiles(other, segments)
    ensures var files := Holders(env, segments, key);
            var a := Rebuild(env, segments, order, r);
            var b := Rebuild(env, segments, other, r);
            && a.Some? && b.Some?
            && (key in a.value.index <==> files != {}) && (key in b.value.index <==> files != {})
            && (files != {} ==>
                  (a.value.index[key] == b.value.index[key] <==> LastIn(order, files) == LastIn(other, files)))
  {
    hide Scan, Holdings, Rebuild, LastIn;
    RebuildSucceeds(env, segments, order, r);
    RebuildSucceeds(env, segments, other, r);
    RebuildTakesLastHolder(env, segments, order, r, key);
    RebuildTakesLastHolder(env, segments, other, r, key);
    var files := Holders(env, segments, key);
    if s :| s in files {
      assert s in order && s in other;
      var h, m := LastIn(order, files).value, LastIn(other, files).value;
      HoldingsShard(env, segments[h], h, 0);
      HoldingsShard(env, segments[m], m, 0);
    }
  }

  // ---------- What a run leaves in the files ----------

  /** The value of the last put of each key into each file. */
  type Filed = map<(nat, Str), seq<byte>>

  function FilesOf(filed: Filed, key: Str): (files: set<nat>)
    ensures forall s: nat :: s in files <==> (s, key) in filed
  {
    set p | p in filed && p.1 == key :: p.0
  }

  ghost predicate FiledAt(env: Env, segments: Segments, filed: Filed, s: nat, k: Str) {
    && ((s, k) in filed <==> Holds(env, segments, s, k))
    && ((s, k) in filed ==> ReadBlob(env, segments, Holdings(env, segments[s], s, 0)[k]) == Value(filed[(s, k)]))
  }

  /** The files are whole, and hold and read as `filed` says. */
  ghost predicate FiledIn(env: Env, segments: Segments, filed: Filed) {
    WholeFiles(env, segments) && forall s: nat, k: Str :: FiledAt(env, segments, filed, s, k)
  }

  lemma FilesAreHolders(env: Env, segments: Segments, filed: Filed, key: Str)
    requires FiledIn(env, segments, filed)
    ensures FilesOf(filed, key) == Holders(env, segments, key)
  {
    hide Holdings, Whole, ReadBlob;
    forall s: nat ensures s in FilesOf(filed, key) <==> s in Holders(env, segments, key) {
      assert FiledAt(env, segments, filed, s, key);
    }
  }

  lemma AppendHolds(env: Env, segments: Segments, n: nat, mode: Compression, key: Str, value: seq<byte>, s: nat, k: Str)
    requires WholeFiles(env, segments) && Fits(key, value)
    ensures var after := segments[n := FileOf(segments, n) + Record(env, mode, key, value)];
            && WholeFiles(env, after)
            && (Holds(env, after, s, k) <==> Holds(env, segments, s, k) || (s, k) == (n, key))
            && (Holds(env, after, s, k) ==>
                  Holdings(env, after[s], s, 0)[k] ==
                  if (s, k) == (n, key) then Location(n, |FileOf(segments, n)|, |value|, env.blake3(key), None)
                  else Holdings(env, segments[s], s, 0)[k])
  {
    var file := FileOf(segments, n);
    assert Whole(env, file) && (file == [] ==> Holdings(env, file, n, 0) == map[]);
    hide Whole, Holdings, Record;
    HoldingsAppended(env, file, mode, key, value, n);
  }

  lemma AppendFiledAt(env: Env, segments: Segments, n: nat, mode: Compression, key: Str, value: seq<byte>, filed: Filed,
                      s: nat, k: Str)
    requires WholeFiles(env, segments) && FiledAt(env, segments, filed, s, k) && Fits(key, value) && Sound(env, mode)
    ensures FiledAt(env, segments[n := FileOf(segments, n) + Record(env, mode, key, value)], filed[(n, key) := value], s, k)
  {
    AppendHolds(env, segments, n, mode, key, value, s, k);
    if (s, k) == (n, key) {
      WrittenReads(env, segments, n, mode, key, value);
    } else if (s, k) in filed {
      hide Holdings, Whole, ReadBlob, Record;
      ReadBlobStable(env, segments, n, Record(env, mode, key, value), Holdings(env, segments[s], s, 0)[k]);
    }
  }

  lemma WrittenReads(env: Env, segments: Segments, n: nat, mode: Compression, key: Str, value: seq<byte>)
    requires Fits(key, value) && Sound(env, mode)
    ensures var after := segments[n := FileOf(segments, n) + Record(env, mode, key, value)];
            ReadBlob(env, after, Location(n, |FileOf(segments, n)|, |value|, env.blake3(key), None)) == Value(value)
  {
    hide Record, ReadAt;
    AppendedReads(env, mode, key, value);
    WriteAtEnd(FileOf(segments, n), Record(env, mode, key, value));
  }

  /** Appending a record to a file: it now has that value for that key, and all else is as it was. */
  lemma AppendFiled(env: Env, segments: Segments, n: nat, mode: Compression, key: Str, value: seq<byte>, filed: Filed)
    requires FiledIn(env, segments, filed) && Fits(key, value) && Sound(env, mode)
    ensures FiledIn(env, segments[n := FileOf(segments, n) + Record(env, mode, key, value)], filed[(n, key) := value])
  {
    hide FiledAt, Record, WholeFiles, Fits, Sound;
    var after, later := segments[n := FileOf(segments, n) + Record(env, mode, key, value)], filed[(n, key) := value];
    forall s: nat, k: Str ensures FiledAt(env, after, later, s, k) {
      assert FiledAt(env, segments, filed, s, k);
      AppendFiledAt(env, segments, n, mode, key, value, filed, s, k);
    }
    AppendHolds(env, segments, n, mode, key, value, n, key);
  }

  predicate SamePlace(a: Location, b: Location) {
    a.shard == b.shard && a.offset == b.offset && a.size == b.size
  }

  lemma ReadsByPlace(env: Env, segments: Segments, a: Location, b: Location)
    requires SamePlace(a, b)
    ensures ReadBlob(env, segments, a) == ReadBlob(env, segments, b)
  {
  }

  /** A live key is where its file last has it. */
  predicate PlacedAt(env: Env, segments: Segments, k: Str, loc: Location) {
    Holds(env, segments, loc.shard, k) && SamePlace(Holdings(env, segments[loc.shard], loc.shard, 0)[k], loc)
  }

  ghost predicate Placed(env: Env, st: State) {
    forall k :: k in st.index ==> PlacedAt(env, st.segments, k, st.index[k])
  }

  /** What the files hold after a run, from what they held before it. */
  function FiledAfter(env: Env, start: State, ops: seq<Op>, filed: Filed): Filed {
    if ops == [] then filed
    else
      var before, op := ops[..|ops| - 1], ops[|ops| - 1];
      var m := FiledAfter(env, start, before, filed);
      var (after, ok) := Step(env, After(env, start, before), op);
      if op.Put? && ok then m[(after.segment, op.key) := op.value] else m
  }

  /** The value of the last successful put of every key, whatever was deleted or expired since. */
  function LastPuts(env: Env, start: State, ops: seq<Op>, puts: map<Str, seq<byte>>): map<Str, seq<byte>> {
    if ops == [] then puts
    else
      var before, op := ops[..|ops| - 1], ops[|ops| - 1];
      var m := LastPuts(env, start, before, puts);
      if op.Put? && Step(env, After(env, start, before), op).1 then m[op.key := op.value] else m
  }

  lemma PutPlaced(env: Env, st: State, op: Op)
    requires op.Put? && Fits(op.key, op.value) && Positioned(st) && Sound(env, st.mode)
    requires WholeFiles(env, st.segments) && Placed(env, st)
    ensures Placed(env, Step(env, st, op).0)
  {
    hide ReadBlob, PutState, Record, Holdings, Whole, AtLimit, Positioned;
    PutParts(env, st, op.key, op.value, op.ttl, op.now);
    var (after, ok) := Step(env, st, op);
    if ok {
      forall k | k in after.index ensures PlacedAt(env, after.segments, k, after.index[k]) {
        assert k != op.key ==> PlacedAt(env, st.segments, k, st.index[k]);
        AppendHolds(env, st.segments, after.segment, st.mode, op.key, op.value, after.index[k].shard, k);
      }
    }
  }

  lemma StepFiled(env: Env, st: State, op: Op, filed: Filed)
    requires Inv(env, st) && Sound(env, st.mode) && FiledIn(env, st.segments, filed)
    requires op.Put? ==> Fits(op.key, op.value)
    ensures var (after, ok) := Step(env, st, op);
            && FiledIn(env, after.segments, if op.Put? && ok then filed[(after.segment, op.key) := op.value] else filed)
            && (Placed(env, st) ==> Placed(env, after))
  {
    hide ReadBlob, PutState, Record, FiledAt, AtLimit, WholeFiles, PlacedAt;
    if op.Put? {
      PutParts(env, st, op.key, op.value, op.ttl, op.now);
      var (after, ok) := Step(env, st, op);
      if ok {
        AppendFiled(env, st.segments, after.segment, st.mode, op.key, op.value, filed);
      }
      if Placed(env, st) {
        PutPlaced(env, st, op);
      }
    }
  }

  /** Over every run, from any good state, the files hold what the run put into them; and if every
      live key was where its file last has it, it stays so. */
  lemma {:induction false} RunFiled(env: Env, start: State, ops: seq<Op>, filed: Filed)
    requires Proper(env, start, ops) && FiledIn(env, start.segments, filed)
    ensures FiledIn(env, After(env, start, ops).segments, FiledAfter(env, start, ops, filed))
    ensures Placed(env, start) ==> Placed(env, After(env, start, ops))
  {
    hide ReadBlob, Step, Inv, FiledIn, Placed;
    if ops != [] {
      var prefix, op := ops[..|ops| - 1], ops[|ops| - 1];
      RunFiled(env, start, prefix, filed);
      var t := LatestClock(prefix);
      RunAgrees(env, start, prefix, t);
      StepFiled(env, After(env, start, prefix), op, FiledAfter(env, start, prefix, filed));
    }
  }

  /** `puts` are the values in the highest file of every key, and no file is above `segment`. */
  ghost predicate NewestAt(filed: Filed, puts: map<Str, seq<byte>>, segment: nat, k: Str) {
    var files := FilesOf(filed, k);
    && (k in puts <==> files != {})
    && forall s :: s in files ==> s <= segment && (IsHighest(files, s) ==> (s, k) in filed && filed[(s, k)] == puts[k])
  }

  ghost predicate Newest(filed: Filed, puts: map<Str, seq<byte>>, segment: nat) {
    forall k: Str :: NewestAt(filed, puts, segment, k)
  }

  /** Every live key is in the highest of its files. */
  ghost predicate Fronted(st: State, filed: Filed) {
    forall k :: k in st.index ==> IsHighest(FilesOf(filed, k), st.index[k].shard)
  }

  lemma FilesOfPut(filed: Filed, n: nat, key: Str, value: seq<byte>, k: Str)
    ensures FilesOf(filed[(n, key) := value], k) == FilesOf(filed, k) + (if k == key then {n} else {})
  {
    hide FilesOf;
  }

  lemma PutNewest(filed: Filed, puts: map<Str, seq<byte>>, segment: nat, n: nat, key: Str, value: seq<byte>)
    requires Newest(filed, puts, segment) && segment <= n
    ensures Newest(filed[(n, key) := value], puts[key := value], n)
  {
    var later, last := filed[(n, key) := value], puts[key := value];
    forall k: Str ensures NewestAt(later, last, n, k) {
      assert NewestAt(filed, puts, segment, k);
      FilesOfPut(filed, n, key, value, k);
      hide FilesOf;
    }
  }

  lemma LaterSegment(filed: Filed, puts: map<Str, seq<byte>>, segment: nat, n: nat)
    requires Newest(filed, puts, segment) && segment <= n
    ensures Newest(filed, puts, n)
  {
    forall k: Str ensures NewestAt(filed, puts, n, k) {
      assert NewestAt(filed, puts, segment, k);
    }
  }

  lemma PutFronted(filed: Filed, puts: map<Str, seq<byte>>, st: State, after: State, key: Str, value: seq<byte>)
    requires Newest(filed, puts, st.segment) && Fronted(st, filed) && st.segment <= after.segment
    requires key in after.index && after.index == st.index[key := after.index[key]] && after.index[key].shard == after.segment
    ensures Fronted(after, filed[(after.segment, key) := value])
  {
    forall k | k in after.index
      ensures IsHighest(FilesOf(filed[(after.segment, key) := value], k), after.index[k].shard)
    {
      assert NewestAt(filed, puts, st.segment, k);
      FilesOfPut(filed, after.segment, key, value, k);
      hide FilesOf;
    }
  }

  lemma StepNewest(env: Env, st: State, op: Op, filed: Filed, puts: map<Str, seq<byte>>)
    requires Inv(env, st) && Sound(env, st.mode) && Newest(filed, puts, st.segment)
    requires op.Put? ==> Fits(op.key, op.value)
    ensures var (after, ok) := Step(env, st, op);
            var put := op.Put? && ok;
            var filed' := if put then filed[(after.segment, op.key) := op.value] else filed;
            && Newest(filed', if put then puts[op.key := op.value] else puts, after.segment)
            && (Fronted(st, filed) ==> Fronted(after, filed'))
  {
    hide ReadBlob, PutState, Record, Newest, AtLimit, IsHighest, FilesOf;
    if op.Put? {
      PutParts(env, st, op.key, op.value, op.ttl, op.now);
      StepSegment(env, st, op);
      var (after, ok) := Step(env, st, op);
      if ok {
        PutNewest(filed, puts, st.segment, after.segment, op.key, op.value);
        if Fronted(st, filed) {
          PutFronted(filed, puts, st, after, op.key, op.value);
        }
      } else {
        LaterSegment(filed, puts, st.segment, after.segment);
      }
    }
  }

  /** Over every run the last put of a key is in the highest of its files; and if every live key was
      in the highest of its files, it stays so. */
  lemma {:induction false} RunNewest(env: Env, start: State, ops: seq<Op>, filed: Filed, puts: map<Str, seq<byte>>)
    requires Proper(env, start, ops) && Newest(filed, puts, start.segment)
    ensures var st := After(env, start, ops);
            var filed' := FiledAfter(env, start, ops, filed);
            && Newest(filed', LastPuts(env, start, ops, puts), st.segment)
            && (Fronted(start, filed) ==> Fronted(st, filed'))
  {
    hide ReadBlob, Step, Inv, Newest, Fronted;
    if ops != [] {
      var prefix, op := ops[..|ops| - 1], ops[|ops| - 1];
      RunNewest(env, start, prefix, filed, puts);
      var t := LatestClock(prefix);
      RunAgrees(env, start, prefix, t);
      StepNewest(env, After(env, start, prefix), op, FiledAfter(env, start, prefix, filed), LastPuts(env, start, prefix, puts));
    }
  }

  /** A fresh store holds nothing, and everything in it is where it should be. */
  lemma FreshFiled(env: Env, start: State)
    requires Fresh(start)
    ensures FiledIn(env, start.segments, map[]) && Placed(env, start)
    ensures Newest(map[], map[], start.segment) && Fronted(start, map[])
  {
    forall s: nat, k: Str ensures FiledAt(env, start.segments, map[], s, k) {
    }
    forall k: Str ensures NewestAt(map[], map[], start.segment, k) {
    }
  }

  // ---------- Rescanning after a run ----------

  /** Rebuild: whatever the directory order, a rescan of the files succeeds and finds exactly the keys
      they hold, each reading as the value last put into the last listed of its files. */
  lemma RebuildReadsFiled(env: Env, segments: Segments, filed: Filed, order: seq<nat>, bloom: Bloom, key: Str)
    requires FiledIn(env, segments, filed) && ListsFiles(order, segments)
    ensures var found := Rebuild(env, segments, order, Rebuilt(map[], bloom));
            var last := LastIn(order, FilesOf(filed, key));
            && found.Some? && (key in found.value.index <==> last.Some?) && (last.Some? <==> FilesOf(filed, key) != {})
            && (last.Some? ==>
                  var loc := found.value.index[key];
                  && loc.shard == last.value && loc.expiresAt == None && loc.blake3 == env.blake3(key) && PlacedAt(env, segments, key, loc)
                  && (last.value, key) in filed
                  && ReadBlob(env, segments, loc) == Value(filed[(last.value, key)]))
  {
    hide Scan, Holdings, Rebuild, Whole, ReadBlob, FilesOf;
    var r := Rebuilt(map[], bloom);
    RebuildSucceeds(env, segments, order, r);
    RebuildTakesLastHolder(env, segments, order, r, key);
    FilesAreHolders(env, segments, filed, key);
    var files := Holders(env, segments, key);
    assert forall s :: s in files ==> s in order;
    var last := LastIn(order, files);
    if last.Some? {
      HoldingsShard(env, segments[last.value], last.value, 0);
      assert FiledAt(env, segments, filed, last.value, key);
    }
  }

  /** The last listed of the key's files is the highest, as it always is in ascending order. */
  ghost predicate NewestListedLast(order: seq<nat>, files: set<nat>) {
    LastIn(order, files).Some? && IsHighest(files, LastIn(order, files).value)
  }

  /** So after every run, from any good state and in any directory order, the rescan finds exactly the
      keys ever put. A key listed newest last has the value of its last put; and a live key is found at
      the shard, offset and size it has in the live index exactly when it is listed newest last. */
  lemma RebuildTracksRun(env: Env, start: State, ops: seq<Op>, filed: Filed, puts: map<Str, seq<byte>>,
                         order: seq<nat>, bloom: Bloom, key: Str)
    requires Proper(env, start, ops) && FiledIn(env, start.segments, filed) && Placed(env, start)
    requires Newest(filed, puts, start.segment) && Fronted(start, filed)
    requires ListsFiles(order, After(env, start, ops).segments)
    ensures var st := After(env, start, ops);
            var last := LastPuts(env, start, ops, puts);
            var newest := NewestListedLast(order, FilesOf(FiledAfter(env, start, ops, filed), key));
            var found := Rebuild(env, st.segments, order, Rebuilt(map[], bloom));
            && found.Some? && (key in found.value.index <==> key in last) && (key in st.index ==> key in last)
            && (key in last && newest ==> ReadBlob(env, st.segments, found.value.index[key]) == Value(last[key]))
            && (key in st.index ==> (SamePlace(found.value.index[key], st.index[key]) <==> newest))
  {
    hide ReadBlob, Step, Holdings, Rebuild, FiledIn, FilesOf, Inv;
    var st := After(env, start, ops);
    var filed' := FiledAfter(env, start, ops, filed);
    RunFiled(env, start, ops, filed);
    RunNewest(env, start, ops, filed, puts);
    RebuildReadsFiled(env, st.segments, filed', order, bloom, key);
    assert NewestAt(filed', LastPuts(env, start, ops, puts), st.segment, key);
    assert key in st.index ==> PlacedAt(env, st.segments, key, st.index[key]);
  }

  /** The same index, up to content hashes and expiry. */
  ghost predicate SameIndex(a: Entries, b: Entries) {
    a.Keys == b.Keys && forall k :: k in a ==> SamePlace(a[k], b[k])
  }

  /** The rescan gives the live index exactly when every key ever put is live and listed newest last. */
  lemma RebuildIsLiveIff(env: Env, start: State, ops: seq<Op>, filed: Filed, puts: map<Str, seq<byte>>,
                         order: seq<nat>, bloom: Bloom)
    requires Proper(env, start, ops) && FiledIn(env, start.segments, filed) && Placed(env, start)
    requires Newest(filed, puts, start.segment) && Fronted(start, filed)
    requires ListsFiles(order, After(env, start, ops).segments)
    ensures var st := After(env, start, ops);
            var found := Rebuild(env, st.segments, order, Rebuilt(map[], bloom));
            && found.Some?
            && (SameIndex(found.value.index, st.index) <==>
                forall k :: k in LastPuts(env, start, ops, puts) ==>
                  k in st.index && NewestListedLast(order, FilesOf(FiledAfter(env, start, ops, filed), k)))
  {
    hide ReadBlob, Step, Rebuild, FiledIn, FilesOf, Inv, Placed, Newest, Fronted, NewestListedLast, SamePlace;
    RebuildTracksRun(env, start, ops, filed, puts, order, bloom, []);
    var st, last := After(env, start, ops), LastPuts(env, start, ops, puts);
    var filed' := FiledAfter(env, start, ops, filed);
    var found := Rebuild(env, st.segments, order, Rebuilt(map[], bloom)).value.index;
    forall k: Str
      ensures (k in found <==> k in last) && (k in st.index ==> k in last)
      ensures k in st.index ==> (SamePlace(found[k], st.index[k]) <==> NewestListedLast(order, FilesOf(filed', k)))
    {
      RebuildTracksRun(env, start, ops, filed, puts, order, bloom, k);
    }
  }

  /** Files are kept in directories by their number modulo 100, and listed directory by directory. */
  ghost predicate ByDirectory(order: seq<nat>) {
    forall i, j, k :: 0 <= i < j < k < |order| && order[i] % 100 == order[k] % 100 ==> order[j] % 100 == order[i] % 100
  }

  /** So once segments 0, 1 and 100 exist no listing is ascending. */
  lemma NoAscendingListing(order: seq<nat>)
    requires ByDirectory(order) && 0 in order && 1 in order && 100 in order
    ensures !Sorted(order)
  {
    var i :| 0 <= i < |order| && order[i] == 0;
    var j :| 0 <= j < |order| && order[j] == 1;
    var k :| 0 <= k < |order| && order[k] == 100;
    assert order[i] % 100 == order[k] % 100 && order[j] % 100 != order[i] % 100;
  }

  /** Two puts of a key, the first of which fills a segment. */
  function TwoFiles(): seq<Op> {
    [FillerPut([]), Put([], [], None, 0)]
  }

  lemma TwoFilesProper(env: Env, start: State)
    requires Fresh(start) && start.mode == Uncompressed
    ensures Proper(env, start, TwoFiles())
  {
    FreshInv(env, start);
    hide Inv;
  }

  lemma TwoFilesFiled(env: Env, start: State)
    requires Fresh(start) && start.mode == Uncompressed
    ensures After(env, start, TwoFiles()).segments.Keys == {0, 1}
    ensures FiledAfter(env, start, TwoFiles(), map[]) == map[(0, []) := Filler(), (1, []) := []]
  {
    hide Step, Filler;
    var first, second := FillerPut([]), Put([], [], None, 0);
    FillerFills(env, start, []);
    StepFiles(env, start, first);
    var full := Step(env, start, first).0;
    assert [first][..0] == [];
    assert After(env, start, [first]) == full;
    assert FiledAfter(env, start, [first], map[]) == map[(0, []) := Filler()];
    StepSegment(env, full, second);
    StepFiles(env, full, second);
    assert TwoFiles()[..1] == [first];
    assert After(env, start, TwoFiles()) == Step(env, full, second).0;
  }

  /** The order can matter: after these puts the two directory orders give the key two values. */
  lemma OrdersDisagree(env: Env, start: State, bloom: Bloom)
    requires Fresh(start) && start.mode == Uncompressed
    ensures After(env, start, TwoFiles()).segments.Keys == {0, 1}
    ensures var segments := After(env, start, TwoFiles()).segments;
            var up := Rebuild(env, segments, [0, 1], Rebuilt(map[], bloom));
            var down := Rebuild(env, segments, [1, 0], Rebuilt(map[], bloom));
            && up.Some? && down.Some? && [] in up.value.index && [] in down.value.index
            && ReadBlob(env, segments, up.value.index[[]]) == Value([])
            && ReadBlob(env, segments, down.value.index[[]]) == Value(Filler()) && Filler() != []
  {
    hide Step, Rebuild, ReadBlob, FiledIn, Proper, TwoFiles, FilesOf, PlacedAt;
    TwoFilesProper(env, start);
    TwoFilesFiled(env, start);
    FreshFiled(env, start);
    RunFiled(env, start, TwoFiles(), map[]);
    var segments := After(env, start, TwoFiles()).segments;
    var filed: Filed := map[(0, []) := Filler(), (1, []) := []];
    assert FilesOf(filed, []) == {0, 1};
    LastOfTwo(0, 1);
    LastOfTwo(1, 0);
    RebuildReadsFiled(env, segments, filed, [0, 1], bloom, []);
    RebuildReadsFiled(env, segments, filed, [1, 0], bloom, []);
  }

  lemma LastOfTwo(a: nat, b: nat)
    ensures LastIn([a, b], {a, b}) == Some(b)
  {
  }

  // ---------- The append position ----------

  predicate AtMost(a: (nat, nat), b: (nat, nat)) {
    a.0 < b.0 || (a.0 == b.0 && a.1 <= b.1)
  }

  /** The highest segment of a directory listing, and its size. */
  function Position(listing: seq<(nat, nat)>): (r: (nat, nat))
    ensures forall i :: 0 <= i < |listing| ==> AtMost(listing[i], r)
    ensures r == (0, 0) || r in listing
  {
    if listing == [] then (0, 0)
    else
      var best, last := Position(listing[..|listing| - 1]), listing[|listing| - 1];
      if AtMost(last, best) then best else last
  }

  method FindCurrentPosition(listing: seq<(nat, nat)>) returns (segment: nat, offset: nat)
    ensures (segment, offset) == Position(listing)
  {
    segment, offset := 0, 0;
    for i := 0 to |listing|
      invariant (segment, offset) == Position(listing[..i])
    {
      assert listing[..i + 1][..i] == listing[..i];
      var (s, size) := listing[i];
      if s > segment || (s == segment && size > offset) {
        segment, offset := s, size;
      }
    }
    assert listing[..|listing|] == listing;
  }

  function Sizes(segments: Segments, order: seq<nat>): seq<(nat, nat)>
    requires forall s :: s in order ==> s in segments
  {
    seq(|order|, i requires 0 <= i < |order| => (order[i], |segments[order[i]]|))
  }

  /** Append position: whatever the directory order, the position found is one from which appending
      overwrites nothing, and it is the writer's own position exactly when the writer's segment
      exists or is the first one. */
  lemma PositionRecovered(st: State, order: seq<nat>)
    requires Positioned(st) && ListsFiles(order, st.segments)
    ensures var (segment, offset) := Position(Sizes(st.segments, order));
            && Positioned(st.(segment := segment, offset := offset))
            && ((segment, offset) == (st.segment, st.offset) <==> st.segment in st.segments || st.segment == 0)
  {
    var listing := Sizes(st.segments, order);
    var p := Position(listing);
    forall s | s in st.segments ensures AtMost((s, |st.segments[s]|), p) {
      var i :| 0 <= i < |order| && order[i] == s;
      assert listing[i] == (s, |st.segments[s]|);
    }
    if p in listing {
      var i :| 0 <= i < |listing| && listing[i] == p;
      assert order[i] in order;
    }
  }

  /** A put that succeeds leaves the writer in an existing segment, so a run whose puts all
      succeeded is reopened exactly where it stopped. */
  lemma RunPositionRecovered(env: Env, start: State, ops: seq<Op>, order: seq<nat>)
    requires Proper(env, start, ops) && ListsFiles(order, After(env, start, ops).segments)
    requires start.segment in start.segments || start.segment == 0
    requires forall i :: 0 <= i < |ops| ==> Step(env, After(env, start, ops[..i]), ops[i]).1
    ensures var st := After(env, start, ops);
            Position(Sizes(st.segments, order)) == (st.segment, st.offset)
  {
    var t := LatestClock(ops);
    RunAgrees(env, start, ops, t);
    SuccessesStayInFile(env, start, ops);
    PositionRecovered(After(env, start, ops), order);
  }

  lemma {:induction false} SuccessesStayInFile(env: Env, start: State, ops: seq<Op>)
    requires Proper(env, start, ops) && (start.segment in start.segments || start.segment == 0)
    requires forall i :: 0 <= i < |ops| ==> Step(env, After(env, start, ops[..i]), ops[i]).1
    ensures var st := After(env, start, ops); st.segment in st.segments || st.segment == 0
  {
    hide PutState, Record;
    if ops != [] {
      var prefix, op := ops[..|ops| - 1], ops[|ops| - 1];
      forall i | 0 <= i < |prefix| ensures Step(env, After(env, start, prefix[..i]), prefix[i]).1 {
        assert prefix[..i] == ops[..i] && prefix[i] == ops[i];
      }
      SuccessesStayInFile(env, start, prefix);
      if op.Put? {
        var t := LatestClock(prefix);
        RunAgrees(env, start, prefix, t);
        assert Step(env, After(env, start, ops[..|ops| - 1]), ops[|ops| - 1]).1;
        PutParts(env, After(env, start, prefix), op.key, op.value, op.ttl, op.now);
      }
    }
  }
}
