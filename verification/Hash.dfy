/** Highest-random-weight placement: ranking nodes for a key, and the ring of shards. */
module Hash {
  import opened Bytes

  /** The first 8 bytes of the hash of a string, as a number. Nothing is assumed about it. The weight of
      a node for a key is the hash of the key followed by the node. */
  type Hasher = string -> nat

  // ---------- Sequences ----------

  function Filter(s: seq<string>, keep: string -> bool): (r: seq<string>)
    ensures |r| <= |s|
    ensures forall x :: x in r <==> x in s && keep(x)
  {
    if s == [] then []
    else if keep(s[0]) then [s[0]] + Filter(s[1..], keep)
    else Filter(s[1..], keep)
  }

  function Without(s: seq<string>, x: string): seq<string> {
    Filter(s, y => y != x)
  }

  predicate Distinct(s: seq<string>) {
    forall i, j :: 0 <= i < j < |s| ==> s[i] != s[j]
  }

  function Take(s: seq<string>, n: nat): seq<string> {
    if n <= |s| then s[..n] else s
  }

  // ---------- Ranking ----------

  /** Puts `x` before the first node that is not heavier. */
  function Insert(h: Hasher, key: string, x: string, s: seq<string>): seq<string> {
    if s == [] || h(key + x) >= h(key + s[0]) then [x] + s
    else [s[0]] + Insert(h, key, x, s[1..])
  }

  /** The nodes by descending weight, equal weights in their original order. */
  function HrwHash(h: Hasher, key: string, nodes: seq<string>): seq<string> {
    if nodes == [] then [] else Insert(h, key, nodes[0], HrwHash(h, key, nodes[1..]))
  }

  function SelectReplicas(h: Hasher, key: string, nodes: seq<string>, n: nat): seq<string> {
    Take(HrwHash(h, key, nodes), n)
  }

  ghost predicate Descending(h: Hasher, key: string, s: seq<string>) {
    forall i, j :: 0 <= i < j < |s| ==> h(key + s[i]) >= h(key + s[j])
  }

  /** The nodes of one weight, in order. */
  function OfWeight(h: Hasher, key: string, s: seq<string>, w: nat): seq<string> {
    Filter(s, y => h(key + y) == w)
  }

  lemma {:induction false} InsertPermutes(h: Hasher, key: string, x: string, s: seq<string>)
    ensures multiset(Insert(h, key, x, s)) == multiset(s) + multiset{x}
  {
    if s != [] && h(key + x) < h(key + s[0]) {
      InsertPermutes(h, key, x, s[1..]);
      HeadTail(s);
    }
  }

  lemma DescendsFrom(h: Hasher, key: string, x: string, s: seq<string>)
    requires Descending(h, key, s) && forall y :: y in s ==> h(key + x) >= h(key + y)
    ensures Descending(h, key, [x] + s)
  {
  }

  lemma {:induction false} InsertDescends(h: Hasher, key: string, x: string, s: seq<string>)
    requires Descending(h, key, s)
    ensures Descending(h, key, Insert(h, key, x, s))
  {
    if s != [] && h(key + x) < h(key + s[0]) {
      InsertDescends(h, key, x, s[1..]);
      InsertPermutes(h, key, x, s[1..]);
      var t := Insert(h, key, x, s[1..]);
      forall y | y in t ensures h(key + s[0]) >= h(key + y) {
        assert y in multiset(t);
      }
      DescendsFrom(h, key, s[0], t);
    } else {
      assert forall y :: y in s ==> h(key + s[0]) >= h(key + y);
      DescendsFrom(h, key, x, s);
    }
  }

  lemma {:induction false} HrwDescends(h: Hasher, key: string, nodes: seq<string>)
    ensures Descending(h, key, HrwHash(h, key, nodes))
    ensures multiset(HrwHash(h, key, nodes)) == multiset(nodes)
  {
    if nodes != [] {
      HrwDescends(h, key, nodes[1..]);
      InsertDescends(h, key, nodes[0], HrwHash(h, key, nodes[1..]));
      InsertPermutes(h, key, nodes[0], HrwHash(h, key, nodes[1..]));
      HeadTail(nodes);
    }
  }

  lemma {:induction false} InsertFilter(h: Hasher, key: string, x: string, s: seq<string>, keep: string -> bool)
    requires Descending(h, key, s)
    ensures Filter(Insert(h, key, x, s), keep) ==
            if keep(x) then Insert(h, key, x, Filter(s, keep)) else Filter(s, keep)
  {
    if s == [] || h(key + x) >= h(key + s[0]) {
      assert ([x] + s)[1..] == s;
      var t := Filter(s, keep);
      if t != [] {
        assert t[0] in t;
        assert t[0] in s;
      }
    } else {
      var t := Insert(h, key, x, s[1..]);
      assert ([s[0]] + t)[1..] == t;
      InsertFilter(h, key, x, s[1..], keep);
    }
  }

  /** Ranking commutes with leaving out any nodes, ties included. */
  lemma {:induction false} HrwFilter(h: Hasher, key: string, nodes: seq<string>, keep: string -> bool)
    ensures Filter(HrwHash(h, key, nodes), keep) == HrwHash(h, key, Filter(nodes, keep))
  {
    if nodes != [] {
      HrwFilter(h, key, nodes[1..], keep);
      HrwDescends(h, key, nodes[1..]);
      InsertFilter(h, key, nodes[0], HrwHash(h, key, nodes[1..]), keep);
      if keep(nodes[0]) {
        assert Filter(nodes, keep)[1..] == Filter(nodes[1..], keep);
      }
    }
  }

  lemma {:induction false} EqualWeightsStay(h: Hasher, key: string, s: seq<string>, w: nat)
    requires forall i :: 0 <= i < |s| ==> h(key + s[i]) == w
    ensures HrwHash(h, key, s) == s
  {
    if s != [] {
      EqualWeightsStay(h, key, s[1..], w);
    }
  }

  /** Ranking is the stable descending sort: a descending permutation in which the nodes of each
      weight keep their order. */
  lemma HrwIsStableSort(h: Hasher, key: string, nodes: seq<string>, w: nat)
    ensures var r := HrwHash(h, key, nodes);
            && (forall i, j :: 0 <= i < j < |r| ==> h(key + r[i]) >= h(key + r[j]))
            && multiset(r) == multiset(nodes)
            && Filter(r, y => h(key + y) == w) == Filter(nodes, y => h(key + y) == w)
  {
    HrwDescends(h, key, nodes);
    HrwFilter(h, key, nodes, y => h(key + y) == w);
    var same := OfWeight(h, key, nodes, w);
    assert forall i :: 0 <= i < |same| ==> same[i] in same;
    EqualWeightsStay(h, key, same, w);
  }

  /** And it is the only one: two descending lists with the same nodes of each weight, in the same
      order, are equal. */
  lemma {:induction false} StableSortIsUnique(h: Hasher, key: string, a: seq<string>, b: seq<string>)
    requires Descending(h, key, a) && Descending(h, key, b)
    requires forall w: nat :: OfWeight(h, key, a, w) == OfWeight(h, key, b, w)
    ensures a == b
  {
    assert a != [] ==> a[0] in OfWeight(h, key, a, h(key + a[0]));
    assert b != [] ==> b[0] in OfWeight(h, key, b, h(key + b[0]));
    if a != [] && b != [] {
      SameFirst(h, key, a, b);
      forall w: nat ensures OfWeight(h, key, a[1..], w) == OfWeight(h, key, b[1..], w) {
        OfWeightTail(h, key, a, w);
        OfWeightTail(h, key, b, w);
      }
      StableSortIsUnique(h, key, a[1..], b[1..]);
    }
  }

  lemma OfWeightTail(h: Hasher, key: string, s: seq<string>, w: nat)
    requires s != []
    ensures OfWeight(h, key, s[1..], w) ==
            if h(key + s[0]) == w then OfWeight(h, key, s, w)[1..] else OfWeight(h, key, s, w)
  {
  }

  lemma SameFirst(h: Hasher, key: string, a: seq<string>, b: seq<string>)
    requires a != [] && b != [] && Descending(h, key, a) && Descending(h, key, b)
    requires forall w: nat :: OfWeight(h, key, a, w) == OfWeight(h, key, b, w)
    ensures a[0] == b[0]
  {
    var v, w := h(key + a[0]), h(key + b[0]);
    assert a[0] in OfWeight(h, key, a, v) && b[0] in OfWeight(h, key, b, w);
    assert a[0] in b && b[0] in a;
    assert OfWeight(h, key, a, v)[0] == a[0] && OfWeight(h, key, b, w)[0] == b[0];
  }

  // ---------- Minimal movement ----------

  lemma {:induction false} FilterConcat(a: seq<string>, b: seq<string>, keep: string -> bool)
    ensures Filter(a + b, keep) == Filter(a, keep) + Filter(b, keep)
  {
    if a == [] {
      assert a + b == b;
    } else {
      assert (a + b)[1..] == a[1..] + b;
      FilterConcat(a[1..], b, keep);
    }
  }

  lemma {:induction false} FilterAll(s: seq<string>, keep: string -> bool)
    requires forall x :: x in s ==> keep(x)
    ensures Filter(s, keep) == s
  {
    if s != [] {
      FilterAll(s[1..], keep);
    }
  }

  /** When only some nodes are left, the replicas still there stay, in order and in front; at most as
      many are gained as were lost; and if none was lost nothing changes. */
  lemma SelectionShrinks(h: Hasher, key: string, nodes: seq<string>, n: nat, keep: string -> bool)
    ensures var before := SelectReplicas(h, key, nodes, n);
            var after := SelectReplicas(h, key, Filter(nodes, keep), n);
            && Filter(before, keep) <= after && |after| <= |before|
            && ((forall x :: x in before ==> keep(x)) ==> after == before)
  {
    var ranked := HrwHash(h, key, nodes);
    var before := Take(ranked, n);
    HrwFilter(h, key, nodes, keep);
    assert ranked == before + ranked[|before|..];
    FilterConcat(before, ranked[|before|..], keep);
    if forall x :: x in before ==> keep(x) {
      FilterAll(before, keep);
    }
  }

  lemma {:induction false} WithoutOne(s: seq<string>, x: string)
    requires Distinct(s)
    ensures |Without(s, x)| == if x in s then |s| - 1 else |s|
  {
    if s != [] {
      WithoutOne(s[1..], x);
      if s[0] == x {
        FilterAll(s[1..], y => y != x);
      }
    }
  }

  lemma HrwMembers(h: Hasher, key: string, nodes: seq<string>)
    ensures forall x :: x in HrwHash(h, key, nodes) <==> x in nodes
    ensures |HrwHash(h, key, nodes)| == |nodes|
  {
    HrwDescends(h, key, nodes);
    var ranked := HrwHash(h, key, nodes);
    assert |multiset(ranked)| == |ranked| && |multiset(nodes)| == |nodes|;
    assert forall x :: x in ranked <==> x in multiset(ranked);
    assert forall x :: x in nodes <==> x in multiset(nodes);
  }

  lemma HrwDistinct(h: Hasher, key: string, nodes: seq<string>)
    requires Distinct(nodes)
    ensures Distinct(HrwHash(h, key, nodes)) && |HrwHash(h, key, nodes)| == |nodes|
    ensures forall x :: x in HrwHash(h, key, nodes) <==> x in nodes
  {
    HrwDescends(h, key, nodes);
    HrwMembers(h, key, nodes);
    DistinctByCount(nodes);
    CountDistinct(HrwHash(h, key, nodes));
  }

  lemma DistinctByCount(s: seq<string>)
    requires Distinct(s)
    ensures forall x :: multiset(s)[x] <= 1
  {
    forall x ensures multiset(s)[x] <= 1 {
      CountAtMostOne(s, x);
    }
  }

  lemma {:induction false} CountAtMostOne(s: seq<string>, x: string)
    requires Distinct(s)
    ensures multiset(s)[x] <= 1
  {
    if s != [] {
      HeadTail(s);
      CountAtMostOne(s[1..], x);
      if s[0] == x {
        assert x !in s[1..];
      }
    }
  }

  lemma CountDistinct(s: seq<string>)
    requires forall x :: multiset(s)[x] <= 1
    ensures Distinct(s)
  {
    forall i, j | 0 <= i < j < |s| ensures s[i] != s[j] {
      assert s == s[..j] + [s[j]] + s[j + 1..];
      assert multiset(s)[s[j]] == multiset(s[..j])[s[j]] + 1 + multiset(s[j + 1..])[s[j]];
      assert s[i] in s[..j] && multiset(s[..j])[s[i]] >= 1;
    }
  }

  lemma {:induction false} FilterNone(s: seq<string>, keep: string -> bool)
    requires forall x :: x in s ==> !keep(x)
    ensures Filter(s, keep) == []
  {
    if s != [] {
      FilterNone(s[1..], keep);
    }
  }

  lemma {:induction false} FilterOne(s: seq<string>, k: nat, keep: string -> bool)
    requires Distinct(s) && k < |s| && forall x :: x in s ==> (keep(x) <==> x == s[k])
    ensures Filter(s, keep) == [s[k]]
  {
    if k == 0 {
      FilterNone(s[1..], keep);
    } else {
      FilterOne(s[1..], k - 1, keep);
    }
  }

  lemma {:induction false} FilterTwo(s: seq<string>, i: nat, j: nat, keep: string -> bool)
    requires Distinct(s) && i < j < |s| && forall x :: x in s ==> (keep(x) <==> x == s[i] || x == s[j])
    ensures Filter(s, keep) == [s[i], s[j]]
  {
    if i == 0 {
      FilterOne(s[1..], j - 1, keep);
    } else {
      FilterTwo(s[1..], i - 1, j - 1, keep);
    }
  }

  /** Of two nodes that hash the same the one listed first is ranked first. */
  lemma TiesKeepOrder(h: Hasher, key: string, nodes: seq<string>, i: nat, j: nat, a: nat, b: nat)
    requires Distinct(nodes) && j < i < |nodes| && h(key + nodes[i]) == h(key + nodes[j])
    requires var r := HrwHash(h, key, nodes); a < |r| && b < |r| && r[a] == nodes[i] && r[b] == nodes[j]
    ensures b < a
  {
    var r := HrwHash(h, key, nodes);
    var x, y := nodes[i], nodes[j];
    var keep := z => z == x || z == y;
    HrwFilter(h, key, nodes, keep);
    HrwDistinct(h, key, nodes);
    FilterTwo(nodes, j, i, keep);
    assert HrwHash(h, key, [y, x]) == [y, x] by {
      assert [y, x][1..] == [x] && HrwHash(h, key, [x]) == [x];
    }
    hide HrwHash, Filter;
    if a < b {
      FilterTwo(r, a, b, keep);
    }
  }

  lemma TakenFirst(r: seq<string>, n: nat, a: nat, b: nat)
    requires Distinct(r) && a < |r| && b < |r| && r[a] in Take(r, n) && r[b] !in Take(r, n)
    ensures a < b
  {
    assert n <= |r| && b >= n;
    var k :| 0 <= k < n && r[k] == r[a];
  }

  /** The replicas are the heaviest nodes: each hashes, after the key, at least as high as any node left
      out, and higher unless it is listed first. */
  lemma SelectsHeaviest(h: Hasher, key: string, nodes: seq<string>, n: nat, i: nat, j: nat)
    requires Distinct(nodes) && i < |nodes| && j < |nodes|
    requires nodes[i] in SelectReplicas(h, key, nodes, n) && nodes[j] !in SelectReplicas(h, key, nodes, n)
    ensures h(key + nodes[i]) > h(key + nodes[j]) || (h(key + nodes[i]) == h(key + nodes[j]) && i < j)
  {
    var r := HrwHash(h, key, nodes);
    HrwDescends(h, key, nodes);
    HrwDistinct(h, key, nodes);
    hide HrwHash;
    assert nodes[i] in r && nodes[j] in r;
    var a :| 0 <= a < |r| && r[a] == nodes[i];
    var b :| 0 <= b < |r| && r[b] == nodes[j];
    TakenFirst(r, n, a, b);
    if h(key + nodes[i]) == h(key + nodes[j]) && j < i {
      TiesKeepOrder(h, key, nodes, i, j, a, b);
    }
  }

  /** Removing one node: a selection without it is unchanged; one with it keeps its other replicas,
      in order, and gains at most one at the end. */
  lemma RemovingOneNode(h: Hasher, key: string, nodes: seq<string>, n: nat, x: string)
    requires Distinct(nodes)
    ensures var before := SelectReplicas(h, key, nodes, n);
            var after := SelectReplicas(h, key, Without(nodes, x), n);
            && (x !in before ==> after == before)
            && Without(before, x) <= after && |after| <= |Without(before, x)| + 1
            && x !in after
  {
    SelectionShrinks(h, key, nodes, n, y => y != x);
    HrwDistinct(h, key, nodes);
    WithoutOne(SelectReplicas(h, key, nodes, n), x);
    HrwMembers(h, key, Without(nodes, x));
    hide HrwHash;
  }
}
