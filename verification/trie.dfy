/** The pointer trie over encoded readings (`learning/index.rs`): insertion, walking and
    the order in which its nodes are visited. */
module Tries {
  import opened Wrappers
  import opened Bytes

  datatype Edge = Edge(id: byte, node: nat)

  /** The children of a node are a map from character ids, kept in ascending order. */
  datatype TrieNode = TrieNode(children: seq<Edge>, records: seq<nat>)

  type Key = seq<byte>

  const EMPTY_NODE := TrieNode([], [])

  const EMPTY_TRIE := [EMPTY_NODE]

  // ----- the children of one node -----

  ghost predicate AscendingIds(edges: seq<Edge>) {
    forall i, j :: 0 <= i < j < |edges| ==> edges[i].id < edges[j].id
  }

  function Find(edges: seq<Edge>, id: byte): (r: Option<nat>)
    ensures r.Some? ==> Edge(id, r.value) in edges
  {
    if edges == [] then None
    else if edges[0].id == id then Some(edges[0].node)
    else Find(edges[1..], id)
  }

  lemma {:induction false} FindAt(edges: seq<Edge>, i: nat)
    requires AscendingIds(edges) && i < |edges|
    ensures Find(edges, edges[i].id) == Some(edges[i].node)
  {
    if i > 0 {
      FindAt(edges[1..], i - 1);
    }
  }

  function WithEdge(edges: seq<Edge>, e: Edge): (r: seq<Edge>)
    ensures forall x :: x in r <==> x == e || x in edges
  {
    if edges == [] then [e]
    else if e.id < edges[0].id then [e] + edges
    else [edges[0]] + WithEdge(edges[1..], e)
  }

  lemma {:induction false} WithEdgeAscends(edges: seq<Edge>, e: Edge)
    requires AscendingIds(edges) && Find(edges, e.id).None?
    ensures AscendingIds(WithEdge(edges, e))
  {
    if edges != [] && e.id >= edges[0].id {
      WithEdgeAscends(edges[1..], e);
      var rest := WithEdge(edges[1..], e);
      forall j | 0 <= j < |rest|
        ensures edges[0].id < rest[j].id
      {
        assert rest[j] in rest;
      }
    }
  }

  lemma {:induction false} FindWithEdge(edges: seq<Edge>, e: Edge, id: byte)
    requires AscendingIds(edges) && Find(edges, e.id).None?
    ensures Find(WithEdge(edges, e), id) == if id == e.id then Some(e.node) else Find(edges, id)
  {
    if edges == [] {
      assert [e][1..] == [];
    } else if e.id < edges[0].id {
      assert ([e] + edges)[1..] == edges;
    } else {
      FindWithEdge(edges[1..], e, id);
      assert WithEdge(edges, e)[1..] == WithEdge(edges[1..], e);
    }
  }

  // ----- well-formed tries -----

  predicate IsChild(nodes: seq<TrieNode>, node: nat, id: byte, child: nat) {
    node < |nodes| && Edge(id, child) in nodes[node].children
  }

  /** Children come after their parent, and no node is shared. */
  ghost predicate WellFormed(nodes: seq<TrieNode>) {
    && |nodes| > 0
    && (forall n :: 0 <= n < |nodes| ==> AscendingIds(nodes[n].children))
    && (forall n: nat, c, child: nat :: IsChild(nodes, n, c, child) ==> n < child < |nodes|)
    && (forall n: nat, c, m: nat, d, child: nat :: IsChild(nodes, n, c, child) && IsChild(nodes, m, d, child) ==> n == m && c == d)
  }

  function ChildOf(nodes: seq<TrieNode>, node: nat, id: byte): (r: Option<nat>)
    requires WellFormed(nodes) && node < |nodes|
    ensures r.Some? ==> IsChild(nodes, node, id, r.value) && node < r.value < |nodes|
  {
    var r := Find(nodes[node].children, id);
    assert r.Some? ==> IsChild(nodes, node, id, r.value);
    r
  }

  function Walk(nodes: seq<TrieNode>, node: nat, key: Key): (r: Option<nat>)
    requires WellFormed(nodes) && node < |nodes|
    ensures r.Some? ==> node <= r.value < |nodes|
    decreases |key|
  {
    if key == [] then Some(node)
    else
      var child := ChildOf(nodes, node, key[0]);
      if child.Some? then Walk(nodes, child.value, key[1..]) else None
  }

  function RecordsAt(nodes: seq<TrieNode>, key: Key): seq<nat>
    requires WellFormed(nodes)
  {
    var node := Walk(nodes, 0, key);
    if node.Some? then nodes[node.value].records else []
  }

  lemma {:induction false} WalkAppend(nodes: seq<TrieNode>, node: nat, a: Key, b: Key)
    requires WellFormed(nodes) && node < |nodes|
    ensures Walk(nodes, node, a + b) ==
            if Walk(nodes, node, a).Some? then Walk(nodes, Walk(nodes, node, a).value, b) else None
    decreases |a|
  {
    if a == [] {
      assert a + b == b;
    } else {
      assert (a + b)[0] == a[0] && (a + b)[1..] == a[1..] + b;
      var child := ChildOf(nodes, node, a[0]);
      if child.Some? {
        WalkAppend(nodes, child.value, a[1..], b);
      }
    }
  }

  lemma {:induction false} WalkChild(nodes: seq<TrieNode>, p: Key, c: byte)
    requires WellFormed(nodes) && Walk(nodes, 0, p).Some?
    ensures Walk(nodes, 0, p + [c]) == ChildOf(nodes, Walk(nodes, 0, p).value, c)
  {
    WalkAppend(nodes, 0, p, [c]);
    assert [c][1..] == [];
  }

  /** Different keys lead to different nodes. */
  lemma {:induction false} PathsAreUnique(nodes: seq<TrieNode>, p: Key, q: Key)
    requires WellFormed(nodes) && Walk(nodes, 0, p).Some? && Walk(nodes, 0, p) == Walk(nodes, 0, q)
    ensures p == q
    decreases |p|
  {
    if p == [] && q == [] {
    } else if p == [] {
      SplitLast(nodes, q);
    } else if q == [] {
      SplitLast(nodes, p);
    } else {
      SplitLast(nodes, p);
      SplitLast(nodes, q);
      PathsAreUnique(nodes, p[..|p| - 1], q[..|q| - 1]);
      assert p == p[..|p| - 1] + [p[|p| - 1]] && q == q[..|q| - 1] + [q[|q| - 1]];
    }
  }

  lemma {:induction false} SplitLast(nodes: seq<TrieNode>, p: Key)
    requires WellFormed(nodes) && p != [] && Walk(nodes, 0, p).Some?
    ensures Walk(nodes, 0, p[..|p| - 1]).Some?
    ensures IsChild(nodes, Walk(nodes, 0, p[..|p| - 1]).value, p[|p| - 1], Walk(nodes, 0, p).value)
    ensures Walk(nodes, 0, p).value > 0
  {
    hide Walk;
    var init, c := p[..|p| - 1], p[|p| - 1];
    assert p == init + [c];
    WalkAppend(nodes, 0, init, [c]);
    WalkChild(nodes, init, c);
  }

  // ----- insertion -----

  function AddRecord(nodes: seq<TrieNode>, node: nat, record: nat): seq<TrieNode>
    requires node < |nodes|
  {
    nodes[node := TrieNode(nodes[node].children, nodes[node].records + [record])]
  }

  /** A fresh child of `node` under `id`. */
  function Grow(nodes: seq<TrieNode>, node: nat, id: byte): seq<TrieNode>
    requires node < |nodes|
  {
    nodes[node := TrieNode(WithEdge(nodes[node].children, Edge(id, |nodes|)), nodes[node].records)] + [EMPTY_NODE]
  }

  lemma {:induction false} GrowIsWellFormed(nodes: seq<TrieNode>, node: nat, id: byte)
    requires WellFormed(nodes) && node < |nodes| && Find(nodes[node].children, id).None?
    ensures WellFormed(Grow(nodes, node, id))
  {
    var grown := Grow(nodes, node, id);
    WithEdgeAscends(nodes[node].children, Edge(id, |nodes|));
    forall n: nat, c, child: nat | IsChild(grown, n, c, child)
      ensures (n == node && c == id && child == |nodes|) || IsChild(nodes, n, c, child)
    {
    }
  }

  lemma {:induction false} AddRecordIsWellFormed(nodes: seq<TrieNode>, node: nat, record: nat)
    requires WellFormed(nodes) && node < |nodes|
    ensures WellFormed(AddRecord(nodes, node, record))
  {
    var added := AddRecord(nodes, node, record);
    forall n: nat, c, child: nat | IsChild(added, n, c, child)
      ensures IsChild(nodes, n, c, child)
    {
    }
  }

  function InsertAt(nodes: seq<TrieNode>, node: nat, ids: Key, record: nat): (r: seq<TrieNode>)
    requires WellFormed(nodes) && node < |nodes|
    ensures WellFormed(r)
    decreases |ids|
  {
    if ids == [] then
      AddRecordIsWellFormed(nodes, node, record);
      AddRecord(nodes, node, record)
    else
      var child := ChildOf(nodes, node, ids[0]);
      if child.Some? then InsertAt(nodes, child.value, ids[1..], record)
      else
        GrowIsWellFormed(nodes, node, ids[0]);
        InsertAt(Grow(nodes, node, ids[0]), |nodes|, ids[1..], record)
  }

  lemma {:induction false} AddRecordKeepsWalks(nodes: seq<TrieNode>, node: nat, record: nat, from: nat, key: Key)
    requires WellFormed(nodes) && node < |nodes| && from < |nodes| && WellFormed(AddRecord(nodes, node, record))
    ensures Walk(AddRecord(nodes, node, record), from, key) == Walk(nodes, from, key)
    decreases |key|
  {
    if key != [] {
      var child := ChildOf(nodes, from, key[0]);
      if child.Some? {
        AddRecordKeepsWalks(nodes, node, record, child.value, key[1..]);
      }
    }
  }

  lemma {:induction false} GrowKeepsWalks(nodes: seq<TrieNode>, node: nat, id: byte, from: nat, key: Key)
    requires WellFormed(nodes) && node < |nodes| && Find(nodes[node].children, id).None? && from < |nodes|
    requires WellFormed(Grow(nodes, node, id))
    ensures Walk(nodes, from, key).Some? ==> Walk(Grow(nodes, node, id), from, key) == Walk(nodes, from, key)
    ensures Walk(nodes, from, key).None? && Walk(Grow(nodes, node, id), from, key).Some? ==>
              Walk(Grow(nodes, node, id), from, key).value == |nodes|
    decreases |key|
  {
    if key != [] {
      var child := ChildOf(nodes, from, key[0]);
      if from == node {
        FindWithEdge(nodes[node].children, Edge(id, |nodes|), key[0]);
      }
      if child.Some? {
        GrowKeepsWalks(nodes, node, id, child.value, key[1..]);
      }
    }
  }

  lemma {:induction false} AddRecordAdds(nodes: seq<TrieNode>, p: Key, record: nat, key: Key)
    requires WellFormed(nodes) && Walk(nodes, 0, p).Some?
    requires WellFormed(AddRecord(nodes, Walk(nodes, 0, p).value, record))
    ensures RecordsAt(AddRecord(nodes, Walk(nodes, 0, p).value, record), key)
            == RecordsAt(nodes, key) + if key == p then [record] else []
  {
    var node := Walk(nodes, 0, p).value;
    AddRecordKeepsWalks(nodes, node, record, 0, key);
    if Walk(nodes, 0, key) == Some(node) {
      PathsAreUnique(nodes, p, key);
    }
  }

  lemma {:induction false} GrowAdds(nodes: seq<TrieNode>, p: Key, c: byte, key: Key)
    requires WellFormed(nodes) && Walk(nodes, 0, p).Some? && Find(nodes[Walk(nodes, 0, p).value].children, c).None?
    ensures var grown := Grow(nodes, Walk(nodes, 0, p).value, c);
            WellFormed(grown) && Walk(grown, 0, p + [c]) == Some(|nodes|) && RecordsAt(grown, key) == RecordsAt(nodes, key)
  {
    hide WithEdge, Find;
    var node := Walk(nodes, 0, p).value;
    GrowIsWellFormed(nodes, node, c);
    GrowKeepsWalks(nodes, node, c, 0, p);
    WalkChild(Grow(nodes, node, c), p, c);
    FindWithEdge(nodes[node].children, Edge(c, |nodes|), c);
    GrowKeepsWalks(nodes, node, c, 0, key);
  }

  /** Inserting below the node of path `p` adds the record at `p + ids` and nowhere else. */
  lemma {:induction false} InsertAtAdds(nodes: seq<TrieNode>, p: Key, ids: Key, record: nat, key: Key)
    requires WellFormed(nodes) && Walk(nodes, 0, p).Some?
    ensures RecordsAt(InsertAt(nodes, Walk(nodes, 0, p).value, ids, record), key)
            == RecordsAt(nodes, key) + if key == p + ids then [record] else []
    decreases |ids|
  {
    hide Walk, Grow, AddRecord, RecordsAt;
    var node := Walk(nodes, 0, p).value;
    if ids == [] {
      assert p + ids == p;
      AddRecordIsWellFormed(nodes, node, record);
      AddRecordAdds(nodes, p, record, key);
    } else {
      var c := ids[0];
      assert p + ids == (p + [c]) + ids[1..];
      if ChildOf(nodes, node, c).Some? {
        WalkChild(nodes, p, c);
        InsertAtAdds(nodes, p + [c], ids[1..], record, key);
      } else {
        GrowAdds(nodes, p, c, key);
        InsertAtAdds(Grow(nodes, node, c), p + [c], ids[1..], record, key);
      }
    }
  }

  // ----- the trie of a list of readings -----

  /** The trie of the first `n` records; a record whose reading cannot be encoded is skipped. */
  function Build(keys: seq<Option<Key>>, n: nat): (r: seq<TrieNode>)
    requires n <= |keys|
    ensures WellFormed(r)
  {
    if n == 0 then EMPTY_TRIE
    else if keys[n - 1].Some? then InsertAt(Build(keys, n - 1), 0, keys[n - 1].value, n - 1)
    else Build(keys, n - 1)
  }

  datatype MatchKind = Exact | Prefixes | Completions

  /** How a reading answers a lookup key, said without any index. */
  predicate Answers(kind: MatchKind, reading: Option<Key>, ids: Key) {
    reading.Some? &&
    match kind
    case Exact => reading.value == ids
    case Prefixes => reading.value != [] && reading.value <= ids
    case Completions => ids <= reading.value
  }

  /** The linear scan: positions of the answering records, ascending. */
  function Scan(kind: MatchKind, keys: seq<Option<Key>>, n: nat, ids: Key): seq<nat>
    requires n <= |keys|
  {
    if n == 0 then []
    else Scan(kind, keys, n - 1, ids) + if Answers(kind, keys[n - 1], ids) then [n - 1] else []
  }

  lemma {:induction false} BuildAnswersExactly(keys: seq<Option<Key>>, n: nat, ids: Key)
    requires n <= |keys|
    ensures RecordsAt(Build(keys, n), ids) == Scan(Exact, keys, n, ids)
  {
    hide InsertAt, RecordsAt, Walk;
    if n == 0 {
      NothingInEmptyTrie(ids);
    } else {
      BuildAnswersExactly(keys, n - 1, ids);
      if keys[n - 1].Some? {
        var reading := keys[n - 1].value;
        InsertAdds(Build(keys, n - 1), reading, n - 1, ids);
        assert Answers(Exact, keys[n - 1], ids) <==> ids == reading;
      }
    }
  }

  lemma {:induction false} NothingInEmptyTrie(ids: Key)
    ensures WellFormed(EMPTY_TRIE) && RecordsAt(EMPTY_TRIE, ids) == []
  {
  }

  lemma {:induction false} InsertAdds(nodes: seq<TrieNode>, ids: Key, record: nat, key: Key)
    requires WellFormed(nodes)
    ensures RecordsAt(InsertAt(nodes, 0, ids, record), key)
            == RecordsAt(nodes, key) + if key == ids then [record] else []
  {
    assert [] + ids == ids;
    InsertAtAdds(nodes, [], ids, record, key);
  }

  /** How often `x` occurs. */
  function Count(s: seq<nat>, x: nat): nat {
    if s == [] then 0
    else Count(s[..|s| - 1], x) + if s[|s| - 1] == x then 1 else 0
  }

  lemma {:induction false} CountSnoc(s: seq<nat>, y: nat, x: nat)
    ensures Count(s + [y], x) == Count(s, x) + if y == x then 1 else 0
  {
    assert (s + [y])[..|s|] == s;
  }

  lemma {:induction false} CountAppend(a: seq<nat>, b: seq<nat>, x: nat)
    ensures Count(a + b, x) == Count(a, x) + Count(b, x)
  {
    if b == [] {
      assert a + b == a;
    } else {
      var init, last := b[..|b| - 1], b[|b| - 1];
      CountAppend(a, init, x);
      assert a + b == (a + init) + [last];
      CountSnoc(a + init, last, x);
    }
  }

  lemma {:induction false} CountIn(s: seq<nat>, x: nat)
    ensures Count(s, x) > 0 <==> x in s
  {
    if s != [] {
      CountIn(s[..|s| - 1], x);
      assert s == s[..|s| - 1] + [s[|s| - 1]];
    }
  }

  /** The scan finds each answering record once. */
  lemma {:induction false} ScanCounts(kind: MatchKind, keys: seq<Option<Key>>, n: nat, ids: Key, i: nat)
    requires n <= |keys|
    ensures Count(Scan(kind, keys, n, ids), i) == if i < n && Answers(kind, keys[i], ids) then 1 else 0
  {
    hide Answers, Count, Scan;
    if n == 0 {
      NothingScanned(kind, keys, ids, i);
    } else {
      ScanCounts(kind, keys, n - 1, ids, i);
      ScanSnoc(kind, keys, n, ids);
      if Answers(kind, keys[n - 1], ids) {
        CountSnoc(Scan(kind, keys, n - 1, ids), n - 1, i);
      }
    }
  }

  lemma {:induction false} NothingScanned(kind: MatchKind, keys: seq<Option<Key>>, ids: Key, i: nat)
    ensures Scan(kind, keys, 0, ids) == [] && Count([], i) == 0
  {
  }

  lemma {:induction false} ScanSnoc(kind: MatchKind, keys: seq<Option<Key>>, n: nat, ids: Key)
    requires 0 < n <= |keys|
    ensures Scan(kind, keys, n, ids) ==
            if Answers(kind, keys[n - 1], ids) then Scan(kind, keys, n - 1, ids) + [n - 1] else Scan(kind, keys, n - 1, ids)
  {
    hide Answers;
    assert Scan(kind, keys, n - 1, ids) + [] == Scan(kind, keys, n - 1, ids);
  }

  ghost predicate Sorted(s: seq<nat>) {
    forall i, j :: 0 <= i < j < |s| ==> s[i] <= s[j]
  }

  lemma {:induction false} ScanIsSorted(kind: MatchKind, keys: seq<Option<Key>>, n: nat, ids: Key)
    requires n <= |keys|
    ensures Sorted(Scan(kind, keys, n, ids)) && forall i :: i in Scan(kind, keys, n, ids) ==> i < n
  {
    if n > 0 {
      ScanIsSorted(kind, keys, n - 1, ids);
      var before, s := Scan(kind, keys, n - 1, ids), Scan(kind, keys, n, ids);
      forall i, j | 0 <= i < j < |s|
        ensures s[i] <= s[j]
      {
        assert s[i] == before[i] && before[i] in before;
        if j < |before| {
          assert s[j] == before[j];
        }
      }
    }
  }

  /** Every reading, and every prefix of one, has a node. */
  lemma {:induction false} ReadingsHaveNodes(keys: seq<Option<Key>>, i: nat, p: Key)
    requires i < |keys| && keys[i].Some? && p <= keys[i].value
    ensures Walk(Build(keys, |keys|), 0, p).Some?
    ensures p != keys[i].value ==>
              ChildOf(Build(keys, |keys|), Walk(Build(keys, |keys|), 0, p).value, keys[i].value[|p|]).Some?
  {
    var nodes, key := Build(keys, |keys|), keys[i].value;
    BuildAnswersExactly(keys, |keys|, key);
    ScanCounts(Exact, keys, |keys|, key, i);
    CountIn(RecordsAt(nodes, key), i);
    var rest := key[|p|..];
    assert key == p + rest;
    WalkAppend(nodes, 0, p, rest);
  }
}
