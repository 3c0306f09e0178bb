/** The in-memory index: expiry, and the snapshot file it is saved to and loaded from. */
module Index {
  import opened Bytes

  /** Where a value is stored. A key whose `expiresAt` is before now has expired. */
  datatype Location = Location(shard: nat, offset: nat, size: nat, blake3: Str, expiresAt: Option<nat>)

  type Entries = map<Str, Location>

  // ---------- Expiry ----------

  predicate ExpiredAt(loc: Location, now: nat) {
    loc.expiresAt.Some? && now > loc.expiresAt.value
  }

  function Expired(m: Entries, now: nat): set<Str> {
    set k | k in m && ExpiredAt(m[k], now)
  }

  function Lookup(m: Entries, key: Str, now: nat): Option<Location> {
    if key in m && !ExpiredAt(m[key], now) then Some(m[key]) else None
  }

  // ---------- Snapshot format ----------

  const MAGIC_V2: seq<byte> := [0x4B, 0x56, 0x49, 0x4E, 0x44, 0x45, 0x58, 0x32]
  const MAGIC_V3: seq<byte> := [0x4B, 0x56, 0x49, 0x4E, 0x44, 0x45, 0x58, 0x33]

  const LIMIT32: nat := 0x1_0000_0000
  const LIMIT64: nat := 0x1_0000_0000_0000_0000

  /** Everything survives the casts to u32 and u64. */
  predicate LocationFits(loc: Location) {
    && loc.shard < LIMIT64 && loc.offset < LIMIT64 && loc.size < LIMIT64
    && |loc.blake3| < LIMIT32
    && (loc.expiresAt.Some? ==> loc.expiresAt.value < LIMIT64)
  }

  predicate EntriesFit(m: Entries) {
    |m| < LIMIT64 && forall k :: k in m ==> |k| < LIMIT32 && LocationFits(m[k])
  }

  function EncodeStr(s: Str): (r: seq<byte>)
    ensures |r| == 4 + |s|
  {
    LE(|s|, 4) + s
  }

  /** The expiry field: absent before version 3, and 0 for "never". */
  function EncodeExpiry(e: Option<nat>, ttl: bool): seq<byte> {
    if ttl then LE(if e.Some? then e.value else 0, 8) else []
  }

  /** One entry written in front of `tail`. */
  function ItemThen(k: Str, loc: Location, ttl: bool, tail: seq<byte>): seq<byte> {
    EncodeStr(k)
    + (LE(loc.shard, 8)
       + (LE(loc.offset, 8)
          + (LE(loc.size, 8)
             + (EncodeStr(loc.blake3)
                + (EncodeExpiry(loc.expiresAt, ttl) + tail)))))
  }

  function Items(m: Entries, order: seq<Str>, ttl: bool): seq<byte>
    requires forall k :: k in order ==> k in m
  {
    if order == [] then [] else ItemThen(order[0], m[order[0]], ttl, Items(m, order[1..], ttl))
  }

  /** The snapshot of `m` written in the given iteration order. Version 3 is what is saved today;
      version 2, without expiry, can still be loaded. */
  function Snapshot(m: Entries, order: seq<Str>, ttl: bool): seq<byte>
    requires forall k :: k in order ==> k in m
  {
    (if ttl then MAGIC_V3 else MAGIC_V2) + (LE(|m|, 8) + Items(m, order, ttl))
  }

  ghost predicate Enumerates(order: seq<Str>, m: Entries) {
    && (forall k :: k in order <==> k in m)
    && (forall i, j :: 0 <= i < j < |order| ==> order[i] != order[j])
    && |order| == |m|
  }

  // ---------- Loading ----------

  function DecodeStr(s: seq<byte>): Option<(Str, seq<byte>)> {
    if |s| < 4 || |s| < 4 + FromLE(s[..4]) || !ValidUtf8(s[4..4 + FromLE(s[..4])]) then None
    else Some((s[4..4 + FromLE(s[..4])], s[4 + FromLE(s[..4])..]))
  }

  function DecodeU64(s: seq<byte>): Option<(nat, seq<byte>)> {
    if |s| < 8 then None else Some((FromLE(s[..8]), s[8..]))
  }

  function DecodeExpiry(s: seq<byte>, ttl: bool): Option<(Option<nat>, seq<byte>)> {
    if !ttl then Some((None, s))
    else
      var r := DecodeU64(s);
      if r.None? then None
      else Some((if r.value.0 == 0 then None else Some(r.value.0), r.value.1))
  }

  function DecodeItem(s: seq<byte>, ttl: bool): Option<(Str, Location, seq<byte>)> {
    var key := DecodeStr(s);
    if key.None? then None else
    var shard := DecodeU64(key.value.1);
    if shard.None? then None else
    var offset := DecodeU64(shard.value.1);
    if offset.None? then None else
    var size := DecodeU64(offset.value.1);
    if size.None? then None else
    var hash := DecodeStr(size.value.1);
    if hash.None? then None else
    var expiry := DecodeExpiry(hash.value.1, ttl);
    if expiry.None? then None
    else Some((key.value.0,
               Location(shard.value.0, offset.value.0, size.value.0, hash.value.0, expiry.value.0),
               expiry.value.1))
  }

  function LoadItems(s: seq<byte>, n: nat, ttl: bool, m: Entries): Option<Entries> {
    if n == 0 then Some(m)
    else
      var item := DecodeItem(s, ttl);
      if item.None? then None else LoadItems(item.value.2, n - 1, ttl, m[item.value.0 := item.value.1])
  }

  /** The index that loading a snapshot file gives; None is an error. */
  function Load(s: seq<byte>): Option<Entries> {
    if |s| < 16 || (s[..8] != MAGIC_V2 && s[..8] != MAGIC_V3) then None
    else LoadItems(s[16..], FromLE(s[8..16]), s[..8] == MAGIC_V3, map[])
  }

  // ---------- Decoding inverts encoding ----------

  lemma StrRoundTrip(k: Str, tail: seq<byte>)
    requires |k| < LIMIT32
    ensures DecodeStr(EncodeStr(k) + tail) == Some((k, tail))
  {
    var s := EncodeStr(k) + tail;
    Widths();
    FromLEInverts(|k|, 4);
    assert s[..4] == LE(|k|, 4);
    assert s[4..4 + |k|] == k;
    assert s[4 + |k|..] == tail;
  }

  lemma U64RoundTrip(n: nat, tail: seq<byte>)
    requires n < LIMIT64
    ensures DecodeU64(LE(n, 8) + tail) == Some((n, tail))
  {
    Widths();
    FromLEInverts(n, 8);
    assert (LE(n, 8) + tail)[..8] == LE(n, 8);
  }

  /** What a saved location looks like when it is loaded: an expiry of 0, or any expiry in the
      old format, comes back as "never". */
  function Reloaded(loc: Location, ttl: bool): Location {
    if ttl && loc.expiresAt != Some(0) then loc else loc.(expiresAt := None)
  }

  function ReloadedAll(m: Entries, ttl: bool): Entries {
    map k | k in m :: Reloaded(m[k], ttl)
  }

  lemma ExpiryRoundTrip(e: Option<nat>, ttl: bool, tail: seq<byte>)
    requires e.Some? ==> e.value < LIMIT64
    ensures DecodeExpiry(EncodeExpiry(e, ttl) + tail, ttl) == Some((if ttl && e != Some(0) then e else None, tail))
  {
    if ttl {
      U64RoundTrip(if e.Some? then e.value else 0, tail);
    } else {
      assert [] + tail == tail;
    }
  }

  lemma ItemRoundTrip(k: Str, loc: Location, ttl: bool, tail: seq<byte>)
    requires |k| < LIMIT32 && LocationFits(loc)
    ensures DecodeItem(ItemThen(k, loc, ttl, tail), ttl) == Some((k, Reloaded(loc, ttl), tail))
  {
    var t5 := EncodeExpiry(loc.expiresAt, ttl) + tail;
    var t4 := EncodeStr(loc.blake3) + t5;
    var t3 := LE(loc.size, 8) + t4;
    var t2 := LE(loc.offset, 8) + t3;
    var t1 := LE(loc.shard, 8) + t2;
    StrRoundTrip(k, t1);
    U64RoundTrip(loc.shard, t2);
    U64RoundTrip(loc.offset, t3);
    U64RoundTrip(loc.size, t4);
    StrRoundTrip(loc.blake3, t5);
    ExpiryRoundTrip(loc.expiresAt, ttl, tail);
  }

  lemma AtOffset(s: seq<byte>, off: nat, a: seq<byte>, rest: seq<byte>)
    requires off <= |s| && s[off..] == a + rest
    ensures off + |a| <= |s| && s[off..off + |a|] == a && s[off + |a|..] == rest
  {
    assert s == s[..off] + (a + rest);
  }

  lemma NumberAt(s: seq<byte>, a: nat, x: nat, rest: seq<byte>)
    requires x < LIMIT64 && a <= |s| && s[a..] == LE(x, 8) + rest
    ensures a + 8 <= |s| && FromLE(s[a..a + 8]) == x && s[a + 8..] == rest
  {
    Widths();
    FromLEInverts(x, 8);
    hide LE, FromLE, Pow256;
    AtOffset(s, a, LE(x, 8), rest);
  }

  lemma StrAt(s: seq<byte>, a: nat, k: Str, rest: seq<byte>)
    requires |k| < LIMIT32 && a <= |s| && s[a..] == EncodeStr(k) + rest
    ensures a + 4 + |k| <= |s| && FromLE(s[a..a + 4]) == |k| && s[a + 4..a + 4 + |k|] == k && s[a + 4 + |k|..] == rest
  {
    Widths();
    FromLEInverts(|k|, 4);
    ConcatAssoc(LE(|k|, 4), k, rest);
    hide LE, FromLE, Pow256;
    AtOffset(s, a, LE(|k|, 4), k + rest);
    AtOffset(s, a + 4, k, rest);
  }

  lemma FrontFields(s: seq<byte>, k: Str, loc: Location, rest: seq<byte>)
    requires |k| < LIMIT32 && LocationFits(loc)
    requires s == EncodeStr(k) + (LE(loc.shard, 8) + (LE(loc.offset, 8) + (LE(loc.size, 8) + rest)))
    ensures var a := 4 + |k|;
            && a + 24 <= |s| && FromLE(s[0..4]) == |k| && s[4..a] == k
            && FromLE(s[a..a + 8]) == loc.shard && FromLE(s[a + 8..a + 16]) == loc.offset && FromLE(s[a + 16..a + 24]) == loc.size
            && s[a + 24..] == rest
  {
    hide LE, FromLE, Pow256, EncodeStr;
    var t3 := LE(loc.size, 8) + rest;
    var t2 := LE(loc.offset, 8) + t3;
    assert s[0..] == s;
    StrAt(s, 0, k, LE(loc.shard, 8) + t2);
    NumberAt(s, 4 + |k|, loc.shard, t2);
    NumberAt(s, 12 + |k|, loc.offset, t3);
    NumberAt(s, 20 + |k|, loc.size, rest);
  }

  lemma BackFields(s: seq<byte>, a: nat, loc: Location, ttl: bool, tail: seq<byte>)
    requires LocationFits(loc) && a <= |s| && s[a..] == EncodeStr(loc.blake3) + (EncodeExpiry(loc.expiresAt, ttl) + tail)
    ensures var b := a + 4 + |loc.blake3|;
            && |s| == b + (if ttl then 8 else 0) + |tail|
            && FromLE(s[a..a + 4]) == |loc.blake3| && s[a + 4..b] == loc.blake3
            && (ttl ==> FromLE(s[b..b + 8]) == if loc.expiresAt.Some? then loc.expiresAt.value else 0)
            && s[b + (if ttl then 8 else 0)..] == tail
  {
    hide LE, FromLE, Pow256, EncodeStr;
    StrAt(s, a, loc.blake3, EncodeExpiry(loc.expiresAt, ttl) + tail);
    if ttl {
      NumberAt(s, a + 4 + |loc.blake3|, if loc.expiresAt.Some? then loc.expiresAt.value else 0, tail);
    } else {
      assert [] + tail == tail;
    }
  }

  /** Where the fields of a saved entry sit: key length, key, shard, offset, size, hash length, hash, and
      in the current format the expiry, 0 for never. */
  lemma ItemFields(k: Str, loc: Location, ttl: bool, tail: seq<byte>)
    requires |k| < LIMIT32 && LocationFits(loc)
    ensures var s, a := ItemThen(k, loc, ttl, tail), 4 + |k|;
            var b := a + 28 + |loc.blake3|;
            && |s| == b + (if ttl then 8 else 0) + |tail|
            && FromLE(s[0..4]) == |k| && s[4..a] == k
            && FromLE(s[a..a + 8]) == loc.shard && FromLE(s[a + 8..a + 16]) == loc.offset && FromLE(s[a + 16..a + 24]) == loc.size
            && FromLE(s[a + 24..a + 28]) == |loc.blake3| && s[a + 28..b] == loc.blake3
            && (ttl ==> FromLE(s[b..b + 8]) == if loc.expiresAt.Some? then loc.expiresAt.value else 0)
            && s[b + (if ttl then 8 else 0)..] == tail
  {
    hide LE, FromLE, Pow256, EncodeStr, EncodeExpiry, LocationFits;
    var s := ItemThen(k, loc, ttl, tail);
    FrontFields(s, k, loc, EncodeStr(loc.blake3) + (EncodeExpiry(loc.expiresAt, ttl) + tail));
    BackFields(s, 28 + |k|, loc, ttl, tail);
  }

  function ReloadedIn(m: Entries, order: seq<Str>, ttl: bool): Entries
    requires forall k :: k in order ==> k in m
  {
    map k | k in order :: Reloaded(m[k], ttl)
  }

  lemma ReloadedInStep(m: Entries, order: seq<Str>, ttl: bool, acc: Entries)
    requires order != [] && forall k :: k in order ==> k in m
    ensures acc[order[0] := Reloaded(m[order[0]], ttl)] + ReloadedIn(m, order[1..], ttl) == acc + ReloadedIn(m, order, ttl)
  {
    HeadTail(order);
  }

  lemma {:induction false} LoadItemsRoundTrip(m: Entries, order: seq<Str>, ttl: bool, acc: Entries)
    requires EntriesFit(m)
    requires forall k :: k in order ==> k in m
    ensures LoadItems(Items(m, order, ttl), |order|, ttl, acc) == Some(acc + ReloadedIn(m, order, ttl))
  {
    hide DecodeItem, ItemThen, Reloaded, LocationFits;
    if order == [] {
      assert acc + ReloadedIn(m, order, ttl) == acc;
    } else {
      var k, rest := order[0], order[1..];
      assert EntriesFit(m) && k in m;
      ItemRoundTrip(k, m[k], ttl, Items(m, rest, ttl));
      LoadItemsRoundTrip(m, rest, ttl, acc[k := Reloaded(m[k], ttl)]);
      ReloadedInStep(m, order, ttl, acc);
    }
  }

  lemma Header(m: Entries, order: seq<Str>, ttl: bool)
    requires |m| < LIMIT64 && forall k :: k in order ==> k in m
    ensures var s := Snapshot(m, order, ttl);
            && |s| >= 16 && s[..8] == (if ttl then MAGIC_V3 else MAGIC_V2)
            && FromLE(s[8..16]) == |m| && s[16..] == Items(m, order, ttl)
  {
    hide Items;
    var s := Snapshot(m, order, ttl);
    Widths();
    FromLEInverts(|m|, 8);
    assert s[8..16] == LE(|m|, 8);
  }

  lemma ReloadedInAny(m: Entries, order: seq<Str>, ttl: bool)
    requires Enumerates(order, m)
    ensures map[] + ReloadedIn(m, order, ttl) == ReloadedAll(m, ttl)
  {
    hide Reloaded;
  }

  lemma LoadBody(s: seq<byte>, ttl: bool)
    requires |s| >= 16 && s[..8] == (if ttl then MAGIC_V3 else MAGIC_V2)
    ensures Load(s) == LoadItems(s[16..], FromLE(s[8..16]), ttl, map[])
  {
    hide LoadItems, FromLE;
    assert MAGIC_V2[7] != MAGIC_V3[7];
  }

  /** A file that starts with neither "KVINDEX2" nor "KVINDEX3" does not load. */
  lemma WrongMagicFails(s: seq<byte>)
    requires |s| >= 8 && s[..8] != [75, 86, 73, 78, 68, 69, 88, 50]
    requires s[..8] != [75, 86, 73, 78, 68, 69, 88, 51]
    ensures Load(s).None?
  {
    hide LoadItems;
  }

  lemma LoadShort(s: seq<byte>)
    requires |s| < 16
    ensures Load(s).None?
  {
  }

  /** Loading a snapshot, whatever the iteration order it was saved in, gives back the index
      up to `Reloaded`. */
  lemma LoadSave(m: Entries, order: seq<Str>, ttl: bool)
    requires EntriesFit(m) && Enumerates(order, m)
    ensures Load(Snapshot(m, order, ttl)) == Some(ReloadedAll(m, ttl))
  {
    hide Load, Snapshot, Items, LoadItems, FromLE, ReloadedIn, ReloadedAll, LocationFits;
    Header(m, order, ttl);
    LoadBody(Snapshot(m, order, ttl), ttl);
    LoadItemsRoundTrip(m, order, ttl, map[]);
    ReloadedInAny(m, order, ttl);
  }

  /** Round trip: exactly the indexes without an expiry of 0 come back unchanged. */
  lemma SnapshotRoundTrip(m: Entries, order: seq<Str>)
    requires EntriesFit(m) && Enumerates(order, m)
    ensures Load(Snapshot(m, order, true)) == Some(m) <==> forall k :: k in m ==> m[k].expiresAt != Some(0)
  {
    LoadSave(m, order, true);
    var r := ReloadedAll(m, true);
    if forall k :: k in m ==> m[k].expiresAt != Some(0) {
      assert r == m;
    } else {
      var k :| k in m && m[k].expiresAt == Some(0);
      assert r[k] != m[k];
    }
  }

  // ---------- Cut snapshots ----------

  lemma TakeConcat(a: seq<byte>, b: seq<byte>, n: nat)
    requires n <= |a + b|
    ensures n < |a| ==> (a + b)[..n] == a[..n]
    ensures n >= |a| ==> (a + b)[..n] == a + b[..n - |a|]
  {
  }

  lemma StrCut(k: Str, tail: seq<byte>, n: nat)
    requires |k| < LIMIT32 && n <= |EncodeStr(k) + tail|
    ensures n < |EncodeStr(k)| ==> DecodeStr((EncodeStr(k) + tail)[..n]).None?
    ensures n >= |EncodeStr(k)| ==> DecodeStr((EncodeStr(k) + tail)[..n]) == Some((k, tail[..n - |EncodeStr(k)|]))
  {
    TakeConcat(EncodeStr(k), tail, n);
    if n >= |EncodeStr(k)| {
      StrRoundTrip(k, tail[..n - |EncodeStr(k)|]);
    } else if n >= 4 {
      Widths();
      FromLEInverts(|k|, 4);
      assert EncodeStr(k)[..n][..4] == LE(|k|, 4);
    }
  }

  lemma U64Cut(v: nat, tail: seq<byte>, n: nat)
    requires v < LIMIT64 && n <= |LE(v, 8) + tail|
    ensures n < 8 ==> DecodeU64((LE(v, 8) + tail)[..n]).None?
    ensures n >= 8 ==> DecodeU64((LE(v, 8) + tail)[..n]) == Some((v, tail[..n - 8]))
  {
    TakeConcat(LE(v, 8), tail, n);
    if n >= 8 {
      U64RoundTrip(v, tail[..n - 8]);
    }
  }

  lemma ExpiryCut(e: Option<nat>, ttl: bool, tail: seq<byte>, n: nat)
    requires (e.Some? ==> e.value < LIMIT64) && n < |EncodeExpiry(e, ttl) + tail|
    ensures var r := DecodeExpiry((EncodeExpiry(e, ttl) + tail)[..n], ttl);
            r.None? || exists m: nat :: m < |tail| && r.value.1 == tail[..m]
  {
    if ttl {
      U64Cut(if e.Some? then e.value else 0, tail, n);
    } else {
      assert [] + tail == tail;
      assert DecodeExpiry(tail[..n], ttl).value.1 == tail[..n];
    }
  }

  /** Cutting a snapshot inside or after an entry: the entry fails to load, or what follows it is cut. */
  lemma ItemCut(k: Str, loc: Location, ttl: bool, tail: seq<byte>, n: nat)
    requires |k| < LIMIT32 && LocationFits(loc) && n < |ItemThen(k, loc, ttl, tail)|
    ensures var r := DecodeItem(ItemThen(k, loc, ttl, tail)[..n], ttl);
            r.None? || exists m: nat :: m < |tail| && r.value.2 == tail[..m]
  {
    hide DecodeStr, DecodeU64, DecodeExpiry, EncodeStr, EncodeExpiry;
    var t5 := EncodeExpiry(loc.expiresAt, ttl) + tail;
    var t4 := EncodeStr(loc.blake3) + t5;
    var t3 := LE(loc.size, 8) + t4;
    var t2 := LE(loc.offset, 8) + t3;
    var t1 := LE(loc.shard, 8) + t2;
    StrCut(k, t1, n);
    var n1 := n - |EncodeStr(k)|;
    if n1 < 0 { return; }
    U64Cut(loc.shard, t2, n1);
    if n1 < 8 { return; }
    U64Cut(loc.offset, t3, n1 - 8);
    if n1 < 16 { return; }
    U64Cut(loc.size, t4, n1 - 16);
    if n1 < 24 { return; }
    StrCut(loc.blake3, t5, n1 - 24);
    var n5 := n1 - 24 - |EncodeStr(loc.blake3)|;
    if n5 < 0 { return; }
    ExpiryCut(loc.expiresAt, ttl, tail, n5);
  }

  lemma {:induction false} LoadItemsCut(m: Entries, order: seq<Str>, ttl: bool, n: nat, acc: Entries)
    requires EntriesFit(m)
    requires forall k :: k in order ==> k in m
    requires n < |Items(m, order, ttl)|
    ensures LoadItems(Items(m, order, ttl)[..n], |order|, ttl, acc).None?
  {
    hide DecodeItem, ItemThen, LocationFits;
    var tail := Items(m, order[1..], ttl);
    ItemCut(order[0], m[order[0]], ttl, tail, n);
    var item := DecodeItem(Items(m, order, ttl)[..n], ttl);
    if item.Some? {
      var j: nat :| j < |tail| && item.value.2 == tail[..j];
      LoadItemsCut(m, order[1..], ttl, j, acc[item.value.0 := item.value.1]);
    }
  }

  lemma LoadCut(full: seq<byte>, ttl: bool, n: nat)
    requires 16 <= n <= |full| && full[..8] == (if ttl then MAGIC_V3 else MAGIC_V2)
    ensures Load(full[..n]) == LoadItems(full[16..][..n - 16], FromLE(full[8..16]), ttl, map[])
  {
    hide Load, LoadItems, FromLE;
    SliceTake(full, n, 8, 16);
    SliceTake(full, n, 16, 16);
    LoadBody(full[..n], ttl);
  }

  lemma EnumeratesAll(order: seq<Str>, m: Entries)
    requires Enumerates(order, m)
    ensures |order| == |m| && forall k :: k in order ==> k in m
  {
  }

  lemma FewEntries(m: Entries)
    requires EntriesFit(m)
    ensures |m| < LIMIT64
  {
  }

  lemma CutBodyFails(full: seq<byte>, m: Entries, order: seq<Str>, ttl: bool, n: nat)
    requires EntriesFit(m) && |order| == |m| && forall k :: k in order ==> k in m
    requires 16 <= n < |full| && full[..8] == (if ttl then MAGIC_V3 else MAGIC_V2)
    requires FromLE(full[8..16]) == |m| && full[16..] == Items(m, order, ttl)
    ensures Load(full[..n]).None?
  {
    hide Load, Items, LoadItems, FromLE, EntriesFit;
    LoadCut(full, ttl, n);
    LoadItemsCut(m, order, ttl, n - 16, map[]);
  }

  /** No strict prefix of a snapshot loads. */
  lemma CutSnapshotFails(m: Entries, order: seq<Str>, ttl: bool, n: nat)
    requires EntriesFit(m) && Enumerates(order, m)
    requires n < |Snapshot(m, order, ttl)|
    ensures Load(Snapshot(m, order, ttl)[..n]).None?
  {
    hide Load, Snapshot, Items, LoadItems, FromLE, EntriesFit, Enumerates;
    EnumeratesAll(order, m);
    assert |m| < LIMIT64 by { FewEntries(m); }
    Header(m, order, ttl);
    var full := Snapshot(m, order, ttl);
    if n < 16 {
      LoadShort(full[..n]);
    } else {
      CutBodyFails(full, m, order, ttl, n);
    }
  }

  // ---------- Saving and loading, step by step ----------

  lemma ItemThenConcat(k: Str, loc: Location, ttl: bool, a: seq<byte>, b: seq<byte>)
    ensures ItemThen(k, loc, ttl, a) + b == ItemThen(k, loc, ttl, a + b)
  {
    var e, h := EncodeExpiry(loc.expiresAt, ttl), EncodeStr(loc.blake3);
    var z, o, s := LE(loc.size, 8), LE(loc.offset, 8), LE(loc.shard, 8);
    ConcatAssoc(e, a, b);
    ConcatAssoc(h, e + a, b);
    ConcatAssoc(z, h + (e + a), b);
    ConcatAssoc(o, z + (h + (e + a)), b);
    ConcatAssoc(s, o + (z + (h + (e + a))), b);
    ConcatAssoc(EncodeStr(k), s + (o + (z + (h + (e + a)))), b);
  }

  lemma {:induction false} ItemsAppend(m: Entries, order: seq<Str>, k: Str, ttl: bool)
    requires k in m && forall x :: x in order ==> x in m
    ensures Items(m, order + [k], ttl) == Items(m, order, ttl) + ItemThen(k, m[k], ttl, [])
  {
    hide ItemThen;
    if order == [] {
      assert order + [k] == [k];
      assert Items(m, [k], ttl) == ItemThen(k, m[k], ttl, []);
    } else {
      assert (order + [k])[1..] == order[1..] + [k];
      ItemsAppend(m, order[1..], k, ttl);
      ItemThenConcat(order[0], m[order[0]], ttl, Items(m, order[1..], ttl), ItemThen(k, m[k], ttl, []));
    }
  }

  /** Writes one entry after what is already in the file. */
  method WriteItem(file: seq<byte>, k: Str, loc: Location) returns (out: seq<byte>)
    ensures out == file + ItemThen(k, loc, true, [])
  {
    var s, o, z := LE(loc.shard, 8), LE(loc.offset, 8), LE(loc.size, 8);
    var h, e := EncodeStr(loc.blake3), EncodeExpiry(loc.expiresAt, true);
    var f1 := file + EncodeStr(k);
    var f2 := f1 + s;
    var f3 := f2 + o;
    var f4 := f3 + z;
    var f5 := f4 + h;
    out := f5 + e;
    assert e + [] == e;
    ConcatAssoc(f4, h, e);
    ConcatAssoc(f3, z, h + e);
    ConcatAssoc(f2, o, z + (h + e));
    ConcatAssoc(f1, s, o + (z + (h + e)));
    ConcatAssoc(file, EncodeStr(k), s + (o + (z + (h + e))));
  }

  method ReadStr(s: seq<byte>) returns (r: Option<(Str, seq<byte>)>)
    ensures r == DecodeStr(s)
  {
    var len, rest := ReadExact(s, 4);
    if len.None? { return None; }
    var n := FromLE(len.value);
    var bytes;
    bytes, rest := ReadExact(rest, n);
    if bytes.None? { return None; }
    SliceSlice(s, 4, n);
    if !ValidUtf8(bytes.value) { return None; }
    return Some((bytes.value, rest));
  }

  method ReadU64(s: seq<byte>) returns (r: Option<(nat, seq<byte>)>)
    ensures r == DecodeU64(s)
  {
    var bytes, rest := ReadExact(s, 8);
    if bytes.None? { return None; }
    return Some((FromLE(bytes.value), rest));
  }

  method ReadItem(s: seq<byte>, ttl: bool) returns (r: Option<(Str, Location, seq<byte>)>)
    ensures r == DecodeItem(s, ttl)
  {
    hide DecodeStr, DecodeU64;
    var key := ReadStr(s);
    if key.None? { return None; }
    var shard := ReadU64(key.value.1);
    if shard.None? { return None; }
    var offset := ReadU64(shard.value.1);
    if offset.None? { return None; }
    var size := ReadU64(offset.value.1);
    if size.None? { return None; }
    var hash := ReadStr(size.value.1);
    if hash.None? { return None; }
    var expiresAt: Option<nat>, rest := None, hash.value.1;
    if ttl {
      var stamp := ReadU64(rest);
      if stamp.None? { return None; }
      expiresAt := if stamp.value.0 == 0 then None else Some(stamp.value.0);
      rest := stamp.value.1;
    }
    return Some((key.value.0, Location(shard.value.0, offset.value.0, size.value.0, hash.value.0, expiresAt), rest));
  }

  /** Loading stops at the first entry that does not decode; bytes after the last entry are ignored. */
  method LoadSnapshot(file: seq<byte>) returns (r: Option<Entries>)
    ensures r == Load(file)
  {
    hide DecodeItem;
    var magic, rest := ReadExact(file, 8);
    if magic.None? { return None; }
    var ttl := magic.value == MAGIC_V3;
    if magic.value != MAGIC_V2 && !ttl { return None; }
    var count;
    count, rest := ReadExact(rest, 8);
    if count.None? { return None; }
    SliceSlice(file, 8, 8);
    var n := FromLE(count.value);
    var m: Entries := map[];
    for i := 0 to n
      invariant LoadItems(rest, n - i, ttl, m) == Load(file)
    {
      var item := ReadItem(rest, ttl);
      if item.None? { return None; }
      m := m[item.value.0 := item.value.1];
      rest := item.value.2;
    }
    return Some(m);
  }

  // ---------- The index object ----------

  class KeyIndex {
    var entries: Entries

    constructor ()
      ensures entries == map[]
    {
      entries := map[];
    }

    method Insert(key: Str, loc: Location)
      modifies this
      ensures entries == old(entries)[key := loc]
    {
      entries := entries[key := loc];
    }

    method Remove(key: Str) returns (removed: Option<Location>)
      modifies this
      ensures entries == old(entries) - {key}
      ensures removed == if key in old(entries) then Some(old(entries)[key]) else None
    {
      removed := if key in entries then Some(entries[key]) else None;
      entries := entries - {key};
    }

    method IsExpired(key: Str, now: nat) returns (expired: bool)
      ensures expired <==> key in Expired(entries, now)
    {
      if key in entries && entries[key].expiresAt.Some? {
        return now > entries[key].expiresAt.value;
      }
      return false;
    }

    method GetIfValid(key: Str, now: nat) returns (loc: Option<Location>)
      ensures loc == Lookup(entries, key, now)
    {
      var expired := IsExpired(key, now);
      if expired { return None; }
      return if key in entries then Some(entries[key]) else None;
    }

    /** The keys that have expired, collected in whatever order the map is iterated. */
    method CollectExpired(now: nat) returns (found: seq<Str>)
      ensures forall k :: k in found <==> k in Expired(entries, now)
      ensures |found| == |Expired(entries, now)|
    {
      ghost var all := Expired(entries, now);
      found := [];
      var left := entries.Keys;
      assert all - left == {};
      while left != {}
        invariant left <= entries.Keys
        invariant forall k :: k in found <==> k in all - left
        invariant |found| == |all - left|
      {
        var key :| key in left;
        VisitOne(all, left, key);
        left := left - {key};
        if ExpiredAt(entries[key], now) {
          found := found + [key];
        }
      }
      assert all - left == all;
    }

    /** Removes exactly the expired keys and returns how many there were. */
    method CleanupExpired(now: nat) returns (count: nat)
      modifies this
      ensures entries == old(entries) - Expired(old(entries), now)
      ensures count == |Expired(old(entries), now)|
    {
      var expired := CollectExpired(now);
      count := |expired|;
      for i := 0 to count
        invariant entries == old(entries) - (set k | k in expired[..i])
      {
        assert expired[..i + 1] == expired[..i] + [expired[i]];
        entries := entries - {expired[i]};
      }
      assert expired[..count] == expired;
      assert (set k | k in expired) == Expired(old(entries), now);
    }

    /** Saves the index; `order` is the order in which the map happened to be iterated. */
    method SaveSnapshot() returns (file: seq<byte>, order: seq<Str>)
      ensures Enumerates(order, entries)
      ensures file == Snapshot(entries, order, true)
    {
      hide ItemThen;
      var header := MAGIC_V3 + LE(|entries|, 8);
      file := header;
      order := [];
      var left := entries.Keys;
      assert header + [] == header;
      while left != {}
        invariant left <= entries.Keys
        invariant forall k :: k in order <==> k in entries && k !in left
        invariant forall i, j :: 0 <= i < j < |order| ==> order[i] != order[j]
        invariant |order| + |left| == |entries|
        invariant file == header + Items(entries, order, true)
      {
        var key :| key in left;
        left := left - {key};
        file := WriteItem(file, key, entries[key]);
        ItemsAppend(entries, order, key, true);
        ConcatAssoc(header, Items(entries, order, true), ItemThen(key, entries[key], true, []));
        order := order + [key];
      }
      ConcatAssoc(MAGIC_V3, LE(|entries|, 8), Items(entries, order, true));
    }
  }
}
