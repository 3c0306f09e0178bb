/** The blob store as an object: the same operations, written as updates in place. */
module BlobStore {
  import opened Bytes
  import opened Records
  import opened Index
  import opened Store
  import opened Compaction
  import Wal

  class BlobStore {
    const env: Env
    var segments: Segments
    var index: KeyIndex
    var bloom: Bloom
    var wal: Wal.Log
    var currentSegment: nat
    var currentOffset: nat
    var compression: Compression

    /** The store as a value. */
    ghost function View(): State
      reads this, index
    {
      State(segments, index.entries, bloom, currentSegment, currentOffset, compression)
    }

    constructor (env: Env, wal: Wal.Log, index: KeyIndex, st: State)
      requires index.entries == st.index
      ensures this.env == env && this.wal == wal && this.index == index && View() == st
    {
      this.env, this.wal, this.index := env, wal, index;
      segments, bloom := st.segments, st.bloom;
      currentSegment, currentOffset, compression := st.segment, st.offset, st.mode;
    }

    method SetCompression(mode: Compression)
      modifies this
      ensures View() == old(View()).(mode := mode)
      ensures index == old(index) && wal == old(wal)
    {
      compression := mode;
    }

    /** Writes a record into the segment files under some base directory. */
    method WriteBlobToSegment(files: Segments, segment: nat, offset: nat, key: Str, value: seq<byte>)
      returns (after: Segments, loc: Location, written: nat)
      ensures (after, loc, written) == WriteToSegment(env, compression, files, segment, offset, key, value)
    {
      var writeValue, isCompressed := value, false;
      if compression == Lz4 && |value| >= COMPRESSION_THRESHOLD {
        var compressed := env.compress(value);
        if compressed.Some? && |compressed.value| < |value| {
          writeValue, isCompressed := compressed.value, true;
        }
      }
      var data := if isCompressed then BLOB_MAGIC_COMPRESSED else BLOB_MAGIC;
      var checksumData := LE(|key|, 4) + LE(|writeValue|, 8) + LE(|value|, 8) + key + writeValue;
      data := data + checksumData + LE(env.crc32(checksumData), 4);
      after := files[segment := WriteAt(FileOf(files, segment), offset, data)];
      loc := Location(segment, offset, |value|, env.blake3(value), None);
      written := 4 + 4 + 8 + 8 + |key| + |writeValue| + 4;
    }

    method WriteBlob(key: Str, value: seq<byte>) returns (loc: Option<Location>)
      modifies this
      ensures (View(), loc) == Store.WriteBlob(env, old(View()), key, value)
      ensures loc.Some? ==> loc.value.expiresAt == None
      ensures index == old(index) && wal == old(wal)
    {
      if currentOffset > SEGMENT_SIZE {
        currentSegment := currentSegment + 1;
        currentOffset := 0;
        if currentSegment >= MAX_SEGMENTS {
          return None;
        }
      }
      var after, location, written := WriteBlobToSegment(segments, currentSegment, currentOffset, key, value);
      segments := after;
      currentOffset := location.offset + written;
      return Some(location);
    }

    /** The log entry is written first, and stays there even if the put fails. */
    method PutWithTtl(key: Str, value: seq<byte>, ttl: Option<nat>, now: nat) returns (ok: bool)
      modifies this, index, wal
      ensures (View(), ok) == PutState(env, old(View()), key, value, ttl, now)
      ensures index == old(index) && wal == old(wal)
      ensures ok ==> key in index.entries
                     && index.entries[key].expiresAt == if ttl.Some? then Some(now + ttl.value) else None
      ensures wal.Stream() == old(wal.Stream()) + Wal.Encode(wal.crc, Wal.Entry(old(wal.nextSequence), Wal.Put(key, value)))
    {
      hide Store.WriteBlob;
      var sequence := wal.Append(Wal.Put(key, value));
      bloom := bloom.With(env.digest(key));
      var location := WriteBlob(key, value);
      if location.None? {
        return false;
      }
      var entry := location.value;
      if ttl.Some? {
        entry := entry.(expiresAt := Some(now + ttl.value));
      }
      index.Insert(key, entry);
      return true;
    }

    method ReadBlob(loc: Location) returns (r: ReadOutcome)
      ensures r == Store.ReadBlob(env, segments, loc)
    {
      if loc.shard !in segments {
        return Missing;
      }
      if loc.offset > |segments[loc.shard]| {
        return Failure;
      }
      r := ReadRecord(env, segments[loc.shard][loc.offset..]);
    }

    method Get(key: Str, now: nat) returns (r: ReadOutcome)
      ensures r == Store.Get(env, View(), key, now)
    {
      if !bloom.Check(env.digest(key)) {
        return Missing;
      }
      var loc := index.GetIfValid(key, now);
      if loc.None? {
        return Missing;
      }
      r := ReadBlob(loc.value);
    }

    method Delete(key: Str)
      modifies index, wal
      ensures View() == DeleteState(old(View()), key)
      ensures wal.Stream() == old(wal.Stream()) + Wal.Encode(wal.crc, Wal.Entry(old(wal.nextSequence), Wal.Delete(key)))
    {
      var sequence := wal.Append(Wal.Delete(key));
      var removed := index.Remove(key);
    }

    method CleanupExpired(now: nat) returns (count: nat)
      modifies index
      ensures View() == CleanupState(old(View()), now)
      ensures count == |Expired(old(View()).index, now)|
    {
      count := index.CleanupExpired(now);
    }

    /** The rewrite loop of compaction: copies every readable record into new files.
        `order` is the order in which the index happened to be iterated. */
    method RewriteLive() returns (files: Segments, newIndex: Entries, segment: nat, offset: nat, order: seq<Str>)
      ensures Enumerates(order, index.entries)
      ensures View().(segments := files, index := newIndex, segment := segment, offset := offset)
              == Rewritten(env, View(), order)
    {
      hide Store.ReadBlob, WriteToSegment;
      files, newIndex, segment, offset, order := map[], map[], 0, 0, [];
      var left := index.entries.Keys;
      while left != {}
        invariant left <= index.entries.Keys
        invariant forall k :: k in order <==> k in index.entries && k !in left
        invariant forall i, j :: 0 <= i < j < |order| ==> order[i] != order[j]
        invariant |order| + |left| == |index.entries|
        invariant View().(segments := files, index := newIndex, segment := segment, offset := offset)
                  == Rewritten(env, View(), order)
      {
        var key :| key in left;
        left := left - {key};
        assert (order + [key])[..|order|] == order;
        order := order + [key];
        var value := ReadBlob(index.entries[key]);
        if value.Value? {
          var after, loc, written := WriteBlobToSegment(files, segment, offset, key, value.value);
          files := after;
          newIndex := newIndex[key := loc];
          offset := offset + written;
          if offset > SEGMENT_SIZE {
            segment, offset := segment + 1, 0;
          }
        }
      }
    }
  }
}
