/** Bytes, little-endian integers, UTF-8 strings and a sequential reader:
    what the write-ahead log, the index snapshot and the blob segments share. */
module Bytes {

  datatype Option<+T> = None | Some(value: T)

  type byte = x: int | 0 <= x < 256
  type u32 = x: int | 0 <= x < 0x1_0000_0000

  /** Any checksum: the proofs never look inside it. */
  type Checksum = seq<byte> -> u32

  // ---------- Little-endian integers ----------

  function Pow256(w: nat): (p: nat)
    ensures p > 0
  {
    if w == 0 then 1 else 256 * Pow256(w - 1)
  }

  /** The low `w` bytes of `n`, least significant first. Higher bytes are lost,
      as in the source's `as u32` casts. */
  function LE(n: nat, w: nat): (r: seq<byte>)
    ensures |r| == w
    decreases n, w
  {
    if w == 0 then [] else [n % 256] + LE(n / 256, w - 1)
  }

  function FromLE(s: seq<byte>): (n: nat)
    ensures n < Pow256(|s|)
  {
    if s == [] then 0 else s[0] + 256 * FromLE(s[1..])
  }

  lemma {:induction false} FromLEInverts(n: nat, w: nat)
    requires n < Pow256(w)
    ensures FromLE(LE(n, w)) == n
  {
    if w > 0 {
      FromLEInverts(n / 256, w - 1);
      assert LE(n, w)[1..] == LE(n / 256, w - 1);
    }
  }

  lemma Quotients(n: nat)
    ensures n / 256 / 256 == n / 65536 && n / 65536 / 256 == n / 16777216 && n / 16777216 / 256 == n / 0x1_0000_0000
  {
  }

  lemma LEParts(n: nat, w: nat)
    ensures LE(n, w + 4) == [n % 256, n / 256 % 256, n / 256 / 256 % 256, n / 256 / 256 / 256 % 256]
                            + LE(n / 256 / 256 / 256 / 256, w)
  {
    var a := n / 256;
    var b := a / 256;
    var c := b / 256;
    assert LE(n, w + 4) == [n % 256] + LE(a, w + 3);
    assert LE(a, w + 3) == [a % 256] + LE(b, w + 2);
    assert LE(b, w + 2) == [b % 256] + LE(c, w + 1);
  }

  /** Least significant byte first. */
  lemma LittleEndian(n: nat)
    ensures LE(n, 4) == [n % 256, n / 256 % 256, n / 65536 % 256, n / 16777216 % 256]
    ensures LE(n, 8) == LE(n, 4) + LE(n / 0x1_0000_0000, 4)
  {
    Quotients(n);
    LEParts(n, 0);
    LEParts(n, 4);
    assert LE(n / 0x1_0000_0000, 0) == [];
    hide LE;
  }

  lemma Widths()
    ensures Pow256(4) == 0x1_0000_0000
    ensures Pow256(8) == 0x1_0000_0000_0000_0000
  {
    assert Pow256(2) == 65536;
    assert Pow256(4) == 256 * (256 * Pow256(2));
    assert Pow256(6) == 256 * (256 * Pow256(4));
    assert Pow256(8) == 256 * (256 * Pow256(6));
  }

  // ---------- UTF-8 strings ----------

  predicate Continuation(b: byte) {
    0x80 <= b < 0xC0
  }

  /** Length of the well-formed UTF-8 sequence that starts `s`, or 0. */
  function ScalarLength(s: seq<byte>): (n: nat)
    requires s != []
    ensures n <= |s|
  {
    var b := s[0];
    if b < 0x80 then 1
    else if 0xC2 <= b < 0xE0 && |s| >= 2 && Continuation(s[1]) then 2
    else if 0xE0 <= b < 0xF0 && |s| >= 3 && Continuation(s[1]) && Continuation(s[2])
            && (b == 0xE0 ==> s[1] >= 0xA0) && (b == 0xED ==> s[1] < 0xA0) then 3
    else if 0xF0 <= b < 0xF5 && |s| >= 4 && Continuation(s[1]) && Continuation(s[2]) && Continuation(s[3])
            && (b == 0xF0 ==> s[1] >= 0x90) && (b == 0xF4 ==> s[1] < 0x90) then 4
    else 0
  }

  predicate ValidUtf8(s: seq<byte>) {
    s == [] || (ScalarLength(s) > 0 && ValidUtf8(s[ScalarLength(s)..]))
  }

  /** A Unicode scalar value. */
  predicate Scalar(c: nat) {
    c < 0xD800 || 0xE000 <= c < 0x11_0000
  }

  /** The UTF-8 encoding of a scalar value. */
  function Utf8(c: nat): seq<byte>
    requires Scalar(c)
  {
    if c < 0x80 then [c]
    else if c < 0x800 then [0xC0 + c / 64, 0x80 + c % 64]
    else if c < 0x1_0000 then [0xE0 + c / 4096, 0x80 + c / 64 % 64, 0x80 + c % 64]
    else [0xF0 + c / 262144, 0x80 + c / 4096 % 64, 0x80 + c / 64 % 64, 0x80 + c % 64]
  }

  lemma ScalarLengthOf(c: nat, tail: seq<byte>)
    requires Scalar(c)
    ensures ScalarLength(Utf8(c) + tail) == |Utf8(c)|
  {
  }

  lemma Base64(q: nat, x: nat)
    requires x < 64
    ensures (q * 64 + x) / 64 == q && (q * 64 + x) % 64 == x
  {
  }

  lemma TwoBytes(b: int, x: int) returns (c: nat)
    requires 0xC2 <= b < 0xE0 && 0x80 <= x < 0xC0
    ensures 0x80 <= c < 0x800 && Scalar(c) && Utf8(c) == [b, x]
  {
    c := (b - 0xC0) * 64 + (x - 0x80);
    Base64(b - 0xC0, x - 0x80);
  }

  lemma ThreeBytes(b: int, x: int, y: int) returns (c: nat)
    requires 0xE0 <= b < 0xF0 && 0x80 <= x < 0xC0 && 0x80 <= y < 0xC0
    requires (b == 0xE0 ==> x >= 0xA0) && (b == 0xED ==> x < 0xA0)
    ensures Scalar(c) && Utf8(c) == [b, x, y]
  {
    var q := (b - 0xE0) * 64 + (x - 0x80);
    c := q * 64 + (y - 0x80);
    Base64(b - 0xE0, x - 0x80);
    Base64(q, y - 0x80);
    assert c / 4096 == c / 64 / 64;
    assert 0x800 <= c < 0x1_0000;
  }

  lemma FourBytes(b: int, x: int, y: int, z: int) returns (c: nat)
    requires 0xF0 <= b < 0xF5 && 0x80 <= x < 0xC0 && 0x80 <= y < 0xC0 && 0x80 <= z < 0xC0
    requires (b == 0xF0 ==> x >= 0x90) && (b == 0xF4 ==> x < 0x90)
    ensures Scalar(c) && Utf8(c) == [b, x, y, z]
  {
    var p := (b - 0xF0) * 64 + (x - 0x80);
    var q := p * 64 + (y - 0x80);
    c := q * 64 + (z - 0x80);
    Base64(b - 0xF0, x - 0x80);
    Base64(p, y - 0x80);
    Base64(q, z - 0x80);
    assert c / 4096 == c / 64 / 64 && c / 262144 == c / 64 / 64 / 64;
    assert 0x1_0000 <= c < 0x11_0000;
  }

  lemma ScalarAt(s: seq<byte>) returns (c: nat)
    requires s != [] && ScalarLength(s) > 0
    ensures Scalar(c) && s[..ScalarLength(s)] == Utf8(c)
  {
    hide Utf8, Scalar;
    var n := ScalarLength(s);
    if n == 1 {
      c := s[0];
      OneByte(c);
    } else if n == 2 {
      c := TwoBytes(s[0], s[1]);
    } else if n == 3 {
      c := ThreeBytes(s[0], s[1], s[2]);
    } else {
      c := FourBytes(s[0], s[1], s[2], s[3]);
    }
  }

  lemma OneByte(c: nat)
    requires c < 0x80
    ensures Scalar(c) && Utf8(c) == [c]
  {
  }

  function Utf8All(cs: seq<nat>): seq<byte>
    requires forall i :: 0 <= i < |cs| ==> Scalar(cs[i])
  {
    if cs == [] then [] else Utf8(cs[0]) + Utf8All(cs[1..])
  }

  /** The valid strings are exactly the encodings of sequences of scalar values. */
  lemma {:induction false} EncodedIsValid(cs: seq<nat>)
    requires forall i :: 0 <= i < |cs| ==> Scalar(cs[i])
    ensures ValidUtf8(Utf8All(cs))
  {
    if cs != [] {
      EncodedIsValid(cs[1..]);
      ScalarLengthOf(cs[0], Utf8All(cs[1..]));
      DropPrefix(Utf8(cs[0]), Utf8All(cs[1..]));
    }
  }

  lemma {:induction false} ValidIsEncoded(s: seq<byte>) returns (cs: seq<nat>)
    requires ValidUtf8(s)
    ensures (forall i :: 0 <= i < |cs| ==> Scalar(cs[i])) && s == Utf8All(cs)
    decreases |s|
  {
    if s == [] {
      cs := [];
    } else {
      var n := ScalarLength(s);
      var c := ScalarAt(s);
      var rest := ValidIsEncoded(s[n..]);
      cs := [c] + rest;
      assert cs[1..] == rest && s == s[..n] + s[n..];
    }
  }

  /** A string, as its UTF-8 bytes. */
  type Str = s: seq<byte> | ValidUtf8(s) witness []

  // ---------- Sequential reading ----------

  /** Reads exactly `n` bytes of what is left of a file, or fails; `rest` is what is left after it.
      After a failure the source never reads again. */
  method ReadExact(left: seq<byte>, n: nat) returns (r: Option<seq<byte>>, rest: seq<byte>)
    ensures r.Some? <==> n <= |left|
    ensures r.Some? ==> r.value == left[..n] && rest == left[n..]
    ensures r.None? ==> rest == []
  {
    if n <= |left| {
      r, rest := Some(left[..n]), left[n..];
    } else {
      r, rest := None, [];
    }
  }

  // ---------- Sequences ----------

  lemma SliceSlice(s: seq<byte>, a: nat, n: nat)
    requires a + n <= |s|
    ensures s[a..][..n] == s[a..a + n]
    ensures s[a..][n..] == s[a + n..]
  {
  }

  lemma SliceTake(s: seq<byte>, n: nat, a: nat, b: nat)
    requires a <= b <= n <= |s|
    ensures s[..n][..a] == s[..a]
    ensures s[..n][a..b] == s[a..b]
    ensures s[..n][a..] == s[a..][..n - a]
  {
  }

  lemma ConcatAssoc<T>(a: seq<T>, b: seq<T>, c: seq<T>)
    ensures (a + b) + c == a + (b + c)
  {
  }

  lemma DropPrefix<T>(a: seq<T>, b: seq<T>)
    ensures (a + b)[|a|..] == b
  {
  }

  lemma MiddleSlice<T>(a: seq<T>, b: seq<T>, c: seq<T>)
    ensures (a + b + c)[|a|..|a| + |b|] == b
    ensures a + b <= a + b + c
  {
  }

  lemma ConcatTail<T>(a: seq<T>, b: seq<T>)
    requires a != []
    ensures (a + b)[0] == a[0] && (a + b)[1..] == a[1..] + b
  {
  }

  lemma HeadTail<T>(s: seq<T>)
    requires s != []
    ensures s == [s[0]] + s[1..]
  {
  }

  lemma UpdateThenMerge<K, V>(m: map<K, V>, k: K, v: V, more: map<K, V>)
    ensures m[k := v] + more == m + (map[k := v] + more)
  {
  }

  /** Moving `x` out of what is left to visit. */
  lemma VisitOne<T>(all: set<T>, left: set<T>, x: T)
    requires x in left
    ensures all - (left - {x}) == (all - left) + (if x in all then {x} else {})
    ensures |all - (left - {x})| == |all - left| + (if x in all then 1 else 0)
  {
    assert all - (left - {x}) == (all - left) + (if x in all then {x} else {});
  }

  /** A set of numbers within an interval is no larger than the interval. */
  lemma {:induction false} IntervalSet(s: set<nat>, lo: nat, n: nat)
    requires forall x :: x in s ==> lo <= x < lo + n
    ensures |s| <= n
    decreases n
  {
    if n == 0 {
      assert s == {};
    } else {
      IntervalSet(s - {lo + n - 1}, lo, n - 1);
      assert s <= (s - {lo + n - 1}) + {lo + n - 1};
      assert lo + n - 1 in s ==> |s| == |s - {lo + n - 1}| + 1;
    }
  }

  lemma {:induction false} IntervalWithin(s: set<nat>, lo: nat, n: nat)
    requires forall x: nat :: lo <= x < lo + n ==> x in s
    ensures |s| >= n
    decreases n
  {
    if n > 0 {
      IntervalWithin(s - {lo + n - 1}, lo, n - 1);
    }
  }

  lemma SubsetSize(a: set<nat>, b: set<nat>)
    requires a <= b
    ensures |a| <= |b|
  {
    assert b == a + (b - a);
  }
}
