/** Visiting a trie: depth first with a stack, and breadth first with a queue. */
module TrieOrders {
  import opened Wrappers
  import opened Bytes
  import opened Tries

  function Children(nodes: seq<TrieNode>, node: nat): seq<Edge>
    requires node < |nodes|
  {
    nodes[node].children
  }

  /** Every listed edge leads to a node after `above`. */
  predicate Within(nodes: seq<TrieNode>, edges: seq<Edge>, above: int) {
    -1 <= above < |nodes| && forall i :: 0 <= i < |edges| ==> above < edges[i].node < |nodes|
  }

  predicate Inside(nodes: seq<TrieNode>, edges: seq<Edge>) {
    Within(nodes, edges, -1)
  }

  lemma {:induction false} ChildrenAreLater(nodes: seq<TrieNode>, node: nat)
    requires WellFormed(nodes) && node < |nodes|
    ensures Within(nodes, Children(nodes, node), node)
  {
    var edges := Children(nodes, node);
    forall i | 0 <= i < |edges|
      ensures node < edges[i].node < |nodes|
    {
      assert IsChild(nodes, node, edges[i].id, edges[i].node);
    }
  }

  // ----- depth first -----

  /** A subtree in the order a stack of pending nodes yields it. */
  function Subtree(nodes: seq<TrieNode>, edge: Edge): seq<Edge>
    requires WellFormed(nodes) && edge.node < |nodes|
    decreases |nodes| - edge.node, 1, 0
  {
    ChildrenAreLater(nodes, edge.node);
    [edge] + Pending(nodes, Children(nodes, edge.node), edge.node)
  }

  function Pending(nodes: seq<TrieNode>, stack: seq<Edge>, above: int): seq<Edge>
    requires WellFormed(nodes) && Within(nodes, stack, above)
    decreases |nodes| - above, 0, |stack|
  {
    if stack == [] then []
    else Subtree(nodes, stack[|stack| - 1]) + Pending(nodes, stack[..|stack| - 1], above)
  }

  lemma {:induction false} PendingAbove(nodes: seq<TrieNode>, stack: seq<Edge>, above: int)
    requires WellFormed(nodes) && Within(nodes, stack, above)
    ensures Pending(nodes, stack, above) == Pending(nodes, stack, -1)
    decreases |stack|
  {
    if stack != [] {
      PendingAbove(nodes, stack[..|stack| - 1], above);
    }
  }

  lemma {:induction false} SubtreeUnfolds(nodes: seq<TrieNode>, edge: Edge)
    requires WellFormed(nodes) && edge.node < |nodes|
    ensures Inside(nodes, Children(nodes, edge.node))
    ensures Subtree(nodes, edge) == [edge] + Pending(nodes, Children(nodes, edge.node), -1)
  {
    ChildrenAreLater(nodes, edge.node);
    PendingAbove(nodes, Children(nodes, edge.node), edge.node);
  }

  lemma {:induction false} PendingAppend(nodes: seq<TrieNode>, a: seq<Edge>, b: seq<Edge>)
    requires WellFormed(nodes) && Inside(nodes, a) && Inside(nodes, b)
    ensures Inside(nodes, a + b)
    ensures Pending(nodes, a + b, -1) == Pending(nodes, b, -1) + Pending(nodes, a, -1)
    decreases |b|
  {
    if b == [] {
      assert a + b == a;
    } else {
      assert (a + b)[..|a + b| - 1] == a + b[..|b| - 1];
      PendingAppend(nodes, a, b[..|b| - 1]);
    }
  }

  lemma {:induction false} PendingOne(nodes: seq<TrieNode>, edge: Edge)
    requires WellFormed(nodes) && edge.node < |nodes|
    ensures Inside(nodes, [edge]) && Pending(nodes, [edge], -1) == Subtree(nodes, edge)
  {
    assert [edge][..0] == [];
    assert Pending(nodes, [], -1) == [];
  }

  /** Popping the top of the stack and pushing its children. */
  lemma {:induction false} PopAndPush(nodes: seq<TrieNode>, rest: seq<Edge>, top: Edge)
    requires WellFormed(nodes) && Inside(nodes, rest) && top.node < |nodes|
    ensures Inside(nodes, rest + [top]) && Inside(nodes, rest + Children(nodes, top.node))
    ensures Pending(nodes, rest + [top], -1) == [top] + Pending(nodes, rest + Children(nodes, top.node), -1)
  {
    SubtreeUnfolds(nodes, top);
    PendingOne(nodes, top);
    PendingAppend(nodes, rest, [top]);
    PendingAppend(nodes, rest, Children(nodes, top.node));
  }

  /** The records found along a visit. */
  function Collected(nodes: seq<TrieNode>, order: seq<Edge>): seq<nat>
    requires Inside(nodes, order)
  {
    if order == [] then []
    else Collected(nodes, order[..|order| - 1]) + nodes[order[|order| - 1].node].records
  }

  lemma {:induction false} CollectedAppend(nodes: seq<TrieNode>, a: seq<Edge>, b: seq<Edge>)
    requires Inside(nodes, a) && Inside(nodes, b)
    ensures Inside(nodes, a + b)
    ensures Collected(nodes, a + b) == Collected(nodes, a) + Collected(nodes, b)
    decreases |b|
  {
    if b == [] {
      assert a + b == a;
    } else {
      assert (a + b)[..|a + b| - 1] == a + b[..|b| - 1];
      CollectedAppend(nodes, a, b[..|b| - 1]);
    }
  }

  lemma {:induction false} CollectedOne(nodes: seq<TrieNode>, edge: Edge)
    requires edge.node < |nodes|
    ensures Inside(nodes, [edge]) && Collected(nodes, [edge]) == nodes[edge.node].records
  {
    assert [edge][..0] == [];
  }

  lemma {:induction false} SubtreeInside(nodes: seq<TrieNode>, edge: Edge)
    requires WellFormed(nodes) && edge.node < |nodes|
    ensures Inside(nodes, Subtree(nodes, edge))
    decreases |nodes| - edge.node, 1, 0
  {
    ChildrenAreLater(nodes, edge.node);
    PendingInside(nodes, Children(nodes, edge.node), edge.node);
  }

  lemma {:induction false} PendingInside(nodes: seq<TrieNode>, stack: seq<Edge>, above: int)
    requires WellFormed(nodes) && Within(nodes, stack, above)
    ensures Inside(nodes, Pending(nodes, stack, above))
    decreases |nodes| - above, 0, |stack|
  {
    if stack != [] {
      SubtreeInside(nodes, stack[|stack| - 1]);
      PendingInside(nodes, stack[..|stack| - 1], above);
    }
  }

  // ----- what a subtree holds -----

  /** Record `i` has a reading that starts with `p`. */
  predicate Extends(keys: seq<Option<Key>>, i: nat, p: Key) {
    i < |keys| && keys[i].Some? && p <= keys[i].value
  }

  /** Some child among the first `k` edges lies on the way to record `i`. */
  predicate ViaChild(keys: seq<Option<Key>>, i: nat, p: Key, edges: seq<Edge>, k: nat)
    requires k <= |edges|
  {
    exists j :: 0 <= j < k && Extends(keys, i, p + [edges[j].id])
  }

  predicate ReadsAs(keys: seq<Option<Key>>, i: nat, p: Key) {
    i < |keys| && keys[i] == Some(p)
  }

  lemma {:induction false} ExtensionIsViaChild(keys: seq<Option<Key>>, i: nat, p: Key, node: nat)
    requires Walk(Build(keys, |keys|), 0, p) == Some(node)
    requires Extends(keys, i, p) && !ReadsAs(keys, i, p)
    ensures var edges := Children(Build(keys, |keys|), node); ViaChild(keys, i, p, edges, |edges|)
  {
    var nodes, key := Build(keys, |keys|), keys[i].value;
    assert |p| == |key| ==> p == key;
    ReadingsHaveNodes(keys, i, p);
    var edges := Children(nodes, node);
    var j :| 0 <= j < |edges| && edges[j] == Edge(key[|p|], ChildOf(nodes, node, key[|p|]).value);
    assert p + [key[|p|]] <= key;
    assert Extends(keys, i, p + [edges[j].id]);
  }

  /** A reading that starts with `p` ends there or goes on through exactly one child. */
  lemma {:induction false} ExtendsOrHere(keys: seq<Option<Key>>, i: nat, p: Key, node: nat)
    requires Walk(Build(keys, |keys|), 0, p) == Some(node)
    ensures var edges := Children(Build(keys, |keys|), node);
            && (Extends(keys, i, p) <==> ReadsAs(keys, i, p) || ViaChild(keys, i, p, edges, |edges|))
            && !(ReadsAs(keys, i, p) && ViaChild(keys, i, p, edges, |edges|))
  {
    var edges := Children(Build(keys, |keys|), node);
    if Extends(keys, i, p) && !ReadsAs(keys, i, p) {
      ExtensionIsViaChild(keys, i, p, node);
    }
    if ViaChild(keys, i, p, edges, |edges|) {
      var j :| 0 <= j < |edges| && Extends(keys, i, p + [edges[j].id]);
      assert p <= p + [edges[j].id] <= keys[i].value;
    }
  }

  lemma {:induction false} OnlyOneChild(keys: seq<Option<Key>>, i: nat, p: Key, edges: seq<Edge>, k: nat)
    requires AscendingIds(edges) && 0 < k <= |edges|
    ensures ViaChild(keys, i, p, edges, k) <==>
            ViaChild(keys, i, p, edges, k - 1) || Extends(keys, i, p + [edges[k - 1].id])
    ensures !(ViaChild(keys, i, p, edges, k - 1) && Extends(keys, i, p + [edges[k - 1].id]))
  {
    forall j | 0 <= j < k && Extends(keys, i, p + [edges[j].id])
      ensures |p| < |keys[i].value| && keys[i].value[|p|] == edges[j].id
    {
      assert (p + [edges[j].id])[|p|] == edges[j].id;
    }
  }

  /** Each record whose reading starts with `p` is found exactly once in the subtree at `p`. */
  lemma {:induction false} SubtreeCounts(keys: seq<Option<Key>>, p: Key, edge: Edge, i: nat)
    requires Walk(Build(keys, |keys|), 0, p) == Some(edge.node)
    ensures var nodes := Build(keys, |keys|);
            && Inside(nodes, Subtree(nodes, edge))
            && Count(Collected(nodes, Subtree(nodes, edge)), i) == if Extends(keys, i, p) then 1 else 0
    decreases |Build(keys, |keys|)| - edge.node, 1, 0
  {
    hide Walk, Build, ViaChild, Collected, Count;
    var nodes := Build(keys, |keys|);
    var edges := Children(nodes, edge.node);
    ChildrenAreLater(nodes, edge.node);
    assert edges[..|edges|] == edges;
    ChildrenCount(keys, p, edge.node, |edges|, i);
    ExtendsOrHere(keys, i, p, edge.node);
    CollectedOne(nodes, edge);
    CollectedAppend(nodes, [edge], Pending(nodes, edges, edge.node));
    CountAppend(nodes[edge.node].records, Collected(nodes, Pending(nodes, edges, edge.node)), i);
    HereCounts(keys, p, edge.node, i);
  }

  lemma {:induction false} HereCounts(keys: seq<Option<Key>>, p: Key, node: nat, i: nat)
    requires Walk(Build(keys, |keys|), 0, p) == Some(node)
    ensures Count(Build(keys, |keys|)[node].records, i) == if ReadsAs(keys, i, p) then 1 else 0
  {
    BuildAnswersExactly(keys, |keys|, p);
    ScanCounts(Exact, keys, |keys|, p, i);
  }

  lemma {:induction false} ChildrenCount(keys: seq<Option<Key>>, p: Key, node: nat, k: nat, i: nat)
    requires Walk(Build(keys, |keys|), 0, p) == Some(node)
    requires k <= |Children(Build(keys, |keys|), node)|
    ensures var nodes := Build(keys, |keys|);
            var edges := Children(nodes, node);
            && Within(nodes, edges[..k], node) && Inside(nodes, Pending(nodes, edges[..k], node))
            && Count(Collected(nodes, Pending(nodes, edges[..k], node)), i)
               == if ViaChild(keys, i, p, edges, k) then 1 else 0
    decreases |Build(keys, |keys|)| - node, 0, k
  {
    hide Walk, Build, Subtree, ViaChild;
    var nodes := Build(keys, |keys|);
    var edges := Children(nodes, node);
    ChildrenAreLater(nodes, node);
    if k > 0 {
      ChildStep(keys, p, node, k);
      SubtreeCounts(keys, p + [edges[k - 1].id], edges[k - 1], i);
      ChildrenCount(keys, p, node, k - 1, i);
      assert edges[..k][..k - 1] == edges[..k - 1];
      var first, rest := Subtree(nodes, edges[k - 1]), Pending(nodes, edges[..k - 1], node);
      CollectedAppend(nodes, first, rest);
      CountAppend(Collected(nodes, first), Collected(nodes, rest), i);
      OnlyOneChild(keys, i, p, edges, k);
    } else {
      NoChildYet(keys, i, p, edges);
    }
  }

  lemma {:induction false} NoChildYet(keys: seq<Option<Key>>, i: nat, p: Key, edges: seq<Edge>)
    ensures !ViaChild(keys, i, p, edges, 0)
  {
  }

  lemma {:induction false} ChildStep(keys: seq<Option<Key>>, p: Key, node: nat, k: nat)
    requires Walk(Build(keys, |keys|), 0, p) == Some(node)
    requires 0 < k <= |Children(Build(keys, |keys|), node)|
    ensures var e := Children(Build(keys, |keys|), node)[k - 1];
            Walk(Build(keys, |keys|), 0, p + [e.id]) == Some(e.node)
    ensures AscendingIds(Children(Build(keys, |keys|), node))
  {
    var nodes := Build(keys, |keys|);
    FindAt(nodes[node].children, k - 1);
    WalkChild(nodes, p, Children(nodes, node)[k - 1].id);
  }

  // ----- breadth first -----

  /** How many nodes a queue still has to yield. */
  function Remaining(nodes: seq<TrieNode>, queue: seq<Edge>): nat
    requires WellFormed(nodes) && Inside(nodes, queue)
  {
    |Pending(nodes, queue, -1)|
  }

  lemma {:induction false} ShiftQueue(nodes: seq<TrieNode>, first: Edge, rest: seq<Edge>)
    requires WellFormed(nodes) && Inside(nodes, [first] + rest)
    ensures first.node < |nodes| && Inside(nodes, rest)
    ensures Inside(nodes, rest + Children(nodes, first.node))
    ensures Remaining(nodes, [first] + rest) == 1 + Remaining(nodes, rest + Children(nodes, first.node))
  {
    var queue := [first] + rest;
    assert queue[0] == first;
    assert forall i :: 0 <= i < |rest| ==> rest[i] == queue[i + 1];
    SubtreeUnfolds(nodes, first);
    PendingOne(nodes, first);
    PendingAppend(nodes, [first], rest);
    PendingAppend(nodes, rest, Children(nodes, first.node));
  }

  function BreadthFirst(nodes: seq<TrieNode>, queue: seq<Edge>): seq<Edge>
    requires WellFormed(nodes) && Inside(nodes, queue)
    decreases Remaining(nodes, queue)
  {
    if queue == [] then []
    else
      assert [queue[0]] + queue[1..] == queue;
      ShiftQueue(nodes, queue[0], queue[1..]);
      [queue[0]] + BreadthFirst(nodes, queue[1..] + Children(nodes, queue[0].node))
  }

  /** All the children of a list of nodes, in order. */
  function ChildrenOf(nodes: seq<TrieNode>, order: seq<Edge>): seq<Edge>
    requires Inside(nodes, order)
  {
    if order == [] then []
    else ChildrenOf(nodes, order[..|order| - 1]) + Children(nodes, order[|order| - 1].node)
  }

  lemma {:induction false} ChildrenOfAppend(nodes: seq<TrieNode>, a: seq<Edge>, b: seq<Edge>)
    requires Inside(nodes, a) && Inside(nodes, b)
    ensures Inside(nodes, a + b)
    ensures ChildrenOf(nodes, a + b) == ChildrenOf(nodes, a) + ChildrenOf(nodes, b)
    decreases |b|
  {
    hide Children;
    if b == [] {
      assert a + b == a;
    } else {
      assert (a + b)[..|a + b| - 1] == a + b[..|b| - 1];
      ChildrenOfAppend(nodes, a, b[..|b| - 1]);
    }
  }

  lemma {:induction false} ChildrenOfOne(nodes: seq<TrieNode>, edge: Edge)
    requires edge.node < |nodes|
    ensures Inside(nodes, [edge]) && ChildrenOf(nodes, [edge]) == Children(nodes, edge.node)
  {
    assert [edge][..0] == [];
  }

  /** A breadth-first order is its starting queue followed by the children of all its members. */
  lemma {:induction false} BreadthFirstIsClosed(nodes: seq<TrieNode>, queue: seq<Edge>)
    requires WellFormed(nodes) && Inside(nodes, queue)
    ensures Inside(nodes, BreadthFirst(nodes, queue))
    ensures BreadthFirst(nodes, queue) == queue + ChildrenOf(nodes, BreadthFirst(nodes, queue))
    decreases Remaining(nodes, queue)
  {
    hide Remaining, Pending;
    if queue != [] {
      var first, rest := queue[0], queue[1..];
      assert [first] + rest == queue;
      ShiftQueue(nodes, first, rest);
      var below := Children(nodes, first.node);
      BreadthFirstIsClosed(nodes, rest + below);
      var order := BreadthFirst(nodes, rest + below);
      ChildrenOfOne(nodes, first);
      ChildrenOfAppend(nodes, [first], order);
      MoveBracket([first], rest, below, ChildrenOf(nodes, order));
    }
  }

  lemma {:induction false} MoveBracket(a: seq<Edge>, b: seq<Edge>, c: seq<Edge>, d: seq<Edge>)
    ensures a + ((b + c) + d) == (a + b) + (c + d)
  {
  }
}
