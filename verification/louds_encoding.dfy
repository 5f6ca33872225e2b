/** The breadth-first encoding of a trie (`MemoryTrie::encode`) and what parsing recovers. */
module LoudsEncoding {
  import opened Wrappers
  import opened Bytes
  import opened Tries
  import opened TrieOrders
  import opened LoudsTrees

  datatype EncodedIndex = EncodedIndex(louds: seq<byte>, characters: seq<byte>, blocks: seq<seq<nat>>)

  const ROOT := Edge(0, 0)

  /** The trie nodes by number: entry `k` is node number `k + 1`. */
  function Order(nodes: seq<TrieNode>): seq<Edge>
    requires WellFormed(nodes)
  {
    BreadthFirst(nodes, [ROOT])
  }

  function Unary(n: nat): seq<bool> {
    Repeat(true, n) + [false]
  }

  function UnaryDegrees(nodes: seq<TrieNode>, order: seq<Edge>): seq<bool>
    requires Inside(nodes, order)
  {
    if order == [] then []
    else UnaryDegrees(nodes, order[..|order| - 1]) + Unary(|Children(nodes, order[|order| - 1].node)|)
  }

  function Ids(order: seq<Edge>): (r: seq<byte>)
    ensures |r| == |order| && forall k :: 0 <= k < |r| ==> r[k] == order[k].id
  {
    seq(|order|, k requires 0 <= k < |order| => order[k].id)
  }

  /** The records of each listed node. */
  function Blocks(nodes: seq<TrieNode>, order: seq<Edge>): (r: seq<seq<nat>>)
    requires Inside(nodes, order)
    ensures |r| == |order| && forall k :: 0 <= k < |r| ==> r[k] == nodes[order[k].node].records
  {
    seq(|order|, k requires 0 <= k < |order| => nodes[order[k].node].records)
  }

  function EncodedBits(nodes: seq<TrieNode>, order: seq<Edge>): seq<bool>
    requires Inside(nodes, order)
  {
    [true, false] + UnaryDegrees(nodes, order)
  }

  /** The two leading entries stand for the super-root and the root; neither has records. */
  function Encoded(nodes: seq<TrieNode>): EncodedIndex
    requires WellFormed(nodes)
  {
    OrderInside(nodes);
    var order := Order(nodes);
    EncodedIndex(Pack(EncodedBits(nodes, order)), [0] + Ids(order), [[], []] + Blocks(nodes, order[1..]))
  }

  // ----- the numbering -----

  /** The order starts at the root, and the children of its members follow in order. */
  lemma {:induction false} OrderIsClosed(nodes: seq<TrieNode>)
    requires WellFormed(nodes)
    ensures Inside(nodes, Order(nodes)) && |Order(nodes)| > 0 && Order(nodes)[0] == ROOT
    ensures Order(nodes) == [ROOT] + ChildrenOf(nodes, Order(nodes))
  {
    hide BreadthFirst, ChildrenOf;
    BreadthFirstIsClosed(nodes, [ROOT]);
  }

  lemma {:induction false} OrderInside(nodes: seq<TrieNode>)
    requires WellFormed(nodes)
    ensures Inside(nodes, Order(nodes)) && |Order(nodes)| > 0 && Inside(nodes, Order(nodes)[1..])
  {
    OrderIsClosed(nodes);
  }

  /** How many children the first `k` numbered nodes have: the numbers they use up. */
  function Used(nodes: seq<TrieNode>, k: nat): nat
    requires WellFormed(nodes) && k <= |Order(nodes)|
  {
    OrderIsClosed(nodes);
    |ChildrenOf(nodes, Order(nodes)[..k])|
  }

  lemma {:induction false} UsedStep(nodes: seq<TrieNode>, k: nat)
    requires WellFormed(nodes) && k < |Order(nodes)|
    ensures Order(nodes)[k].node < |nodes|
    ensures Used(nodes, k + 1) == Used(nodes, k) + |Children(nodes, Order(nodes)[k].node)|
  {
    hide BreadthFirst, Order;
    OrderIsClosed(nodes);
    assert Order(nodes)[..k + 1][..k] == Order(nodes)[..k];
  }

  lemma {:induction false} UsedBounds(nodes: seq<TrieNode>, k: nat)
    requires WellFormed(nodes) && k <= |Order(nodes)|
    ensures Used(nodes, k) < |Order(nodes)|
    ensures Used(nodes, 0) == 0 && Used(nodes, |Order(nodes)|) == |Order(nodes)| - 1
  {
    hide BreadthFirst, Order;
    OrderIsClosed(nodes);
    var order := Order(nodes);
    var a, b := order[..k], order[k..];
    assert order == a + b && Inside(nodes, a) && Inside(nodes, b);
    ChildrenOfAppend(nodes, a, b);
    assert order[..|order|] == order;
    assert order[..0] == [];
  }

  /** Child `j` of the node at index `k` sits right behind the children of all nodes before it. */
  lemma {:induction false} ChildIndex(nodes: seq<TrieNode>, k: nat, j: nat)
    requires WellFormed(nodes) && k < |Order(nodes)| && Order(nodes)[k].node < |nodes|
    requires j < |Children(nodes, Order(nodes)[k].node)|
    ensures 1 + Used(nodes, k) + j < |Order(nodes)|
    ensures Order(nodes)[1 + Used(nodes, k) + j] == Children(nodes, Order(nodes)[k].node)[j]
  {
    hide Order, Used;
    OrderIsClosed(nodes);
    ChildrenInParts(nodes, Order(nodes), k);
    UsedIs(nodes, k);
  }

  lemma {:induction false} UsedIs(nodes: seq<TrieNode>, k: nat)
    requires WellFormed(nodes) && k <= |Order(nodes)|
    ensures Inside(nodes, Order(nodes)[..k]) && Used(nodes, k) == |ChildrenOf(nodes, Order(nodes)[..k])|
  {
    hide Order;
    OrderIsClosed(nodes);
  }

  lemma {:induction false} ChildrenInParts(nodes: seq<TrieNode>, order: seq<Edge>, k: nat)
    requires Inside(nodes, order) && k < |order|
    ensures Inside(nodes, order[..k])
    ensures var first := |ChildrenOf(nodes, order[..k])|;
            var edges := Children(nodes, order[k].node);
            && first + |edges| <= |ChildrenOf(nodes, order)|
            && ChildrenOf(nodes, order)[first..first + |edges|] == edges
  {
    hide ChildrenOf, Children;
    var a, e, b := order[..k], order[k], order[k + 1..];
    assert order == (a + [e]) + b && Inside(nodes, a) && Inside(nodes, b);
    ChildrenOfOne(nodes, e);
    ChildrenOfAppend(nodes, a, [e]);
    ChildrenOfAppend(nodes, a + [e], b);
  }

  // ----- delimiters of the encoding -----

  /** The position of the delimiter behind the first `k` numbered nodes. */
  function Delimiters(nodes: seq<TrieNode>, n: nat): (r: seq<nat>)
    requires WellFormed(nodes) && n <= |Order(nodes)|
    ensures |r| == n + 1 && forall k :: 0 <= k <= n ==> r[k] == 1 + k + Used(nodes, k)
  {
    seq(n + 1, k requires 0 <= k <= n => 1 + k + Used(nodes, k))
  }

  lemma {:induction false} ZerosOfUnary(bits: seq<bool>, n: nat)
    ensures Zeros(bits + Unary(n)) == Zeros(bits) + [|bits| + n]
  {
    hide Zeros;
    assert bits + Unary(n) == (bits + Repeat(true, n)) + [false];
    ZerosSnoc(bits + Repeat(true, n), false);
    OnesHideNothing(bits, n);
  }

  lemma {:induction false} ZerosOfStart()
    ensures Zeros([true, false]) == [1]
  {
    hide Zeros;
    assert [true, false] == ([] + [true]) + [false];
    ZerosSnoc([] + [true], false);
    ZerosSnoc([], true);
    NoZeros([]);
  }

  lemma {:induction false} ZerosOfEncoding(nodes: seq<TrieNode>, k: nat)
    requires WellFormed(nodes) && k <= |Order(nodes)|
    ensures Inside(nodes, Order(nodes)[..k])
    ensures var bits := EncodedBits(nodes, Order(nodes)[..k]);
            |bits| == 2 + k + Used(nodes, k) && Zeros(bits) == Delimiters(nodes, k)
  {
    hide Zeros, Order, Used, EncodedBits;
    OrderIsClosed(nodes);
    UsedBounds(nodes, k);
    if k == 0 {
      ZerosOfStart();
      EncodedBitsStart(nodes);
    } else {
      ZerosOfEncoding(nodes, k - 1);
      UsedStep(nodes, k - 1);
      EncodedBitsStep(nodes, k - 1);
      var before := EncodedBits(nodes, Order(nodes)[..k - 1]);
      ZerosOfUnary(before, |Children(nodes, Order(nodes)[k - 1].node)|);
      assert Delimiters(nodes, k) == Delimiters(nodes, k - 1) + [1 + k + Used(nodes, k)];
    }
  }

  lemma {:induction false} EncodedBitsStart(nodes: seq<TrieNode>)
    requires WellFormed(nodes) && Inside(nodes, Order(nodes)[..0])
    ensures EncodedBits(nodes, Order(nodes)[..0]) == [true, false]
  {
    hide Order;
  }

  lemma {:induction false} EncodedBitsStep(nodes: seq<TrieNode>, k: nat)
    requires WellFormed(nodes) && k < |Order(nodes)| && Inside(nodes, Order(nodes))
    ensures EncodedBits(nodes, Order(nodes)[..k + 1])
            == EncodedBits(nodes, Order(nodes)[..k]) + Unary(|Children(nodes, Order(nodes)[k].node)|)
  {
    hide Order;
    assert Order(nodes)[..k + 1][..k] == Order(nodes)[..k];
  }

  // ----- the round trip -----

  /** A parsed tree is the trie: same ids, and the children of every node are exactly the
      consecutive numbers the numbering gave them. */
  ghost predicate Represents(louds: Louds, nodes: seq<TrieNode>)
    requires WellFormed(nodes)
  {
    && louds.nodeIds == [0] + Ids(Order(nodes))
    && |louds.childRanges| == |Order(nodes)| + 1
    && louds.childRanges[0] == Range(0, 0)
    && forall k :: 0 <= k < |Order(nodes)| ==>
         louds.childRanges[k + 1] == Range(2 + Used(nodes, k), 2 + Used(nodes, k + 1))
  }

  function ExpectedRanges(nodes: seq<TrieNode>, n: nat): (r: seq<Range>)
    requires WellFormed(nodes) && n <= |Order(nodes)|
    ensures |r| == n + 1 && r[0] == Range(0, 0)
    ensures forall k :: 0 <= k < n ==> r[k + 1] == Range(2 + Used(nodes, k), 2 + Used(nodes, k + 1))
  {
    [Range(0, 0)] + seq(n, k requires 0 <= k < n => Range(2 + Used(nodes, k), 2 + Used(nodes, k + 1)))
  }

  lemma {:induction false} RangeOfEncoding(nodes: seq<TrieNode>, zeros: seq<nat>, node: nat)
    requires WellFormed(nodes) && zeros == Delimiters(nodes, |Order(nodes)|) && 0 < node <= |Order(nodes)|
    ensures RangeOf(zeros, node, |Order(nodes)| + 1) == Ok(Range(2 + Used(nodes, node - 1), 2 + Used(nodes, node)))
  {
    hide Order, Used;
    UsedBounds(nodes, node - 1);
    UsedBounds(nodes, node);
  }

  lemma {:induction false} RangesStep(zeros: seq<nat>, node: nat, nodeCount: nat)
    requires 0 < node <= nodeCount <= |zeros|
    ensures node == 1 ==> Ranges(zeros, node, nodeCount) == Ok([Range(0, 0)])
    ensures node > 1 && Ranges(zeros, node - 1, nodeCount).Ok? && RangeOf(zeros, node - 1, nodeCount).Ok? ==>
              Ranges(zeros, node, nodeCount)
              == Ok(Ranges(zeros, node - 1, nodeCount).value + [RangeOf(zeros, node - 1, nodeCount).value])
  {
    hide RangeOf;
  }

  lemma {:induction false} RangesOfEncoding(nodes: seq<TrieNode>, zeros: seq<nat>, n: nat)
    requires WellFormed(nodes) && zeros == Delimiters(nodes, |Order(nodes)|) && n <= |Order(nodes)|
    ensures Ranges(zeros, n + 1, |Order(nodes)| + 1) == Ok(ExpectedRanges(nodes, n))
  {
    hide Order, Used, RangeOf, Ranges;
    RangesStep(zeros, n + 1, |Order(nodes)| + 1);
    if n == 0 {
      assert ExpectedRanges(nodes, 0) == [Range(0, 0)];
    } else {
      RangesOfEncoding(nodes, zeros, n - 1);
      RangeOfEncoding(nodes, zeros, n);
      assert ExpectedRanges(nodes, n) == ExpectedRanges(nodes, n - 1) + [Range(2 + Used(nodes, n - 1), 2 + Used(nodes, n))];
    }
  }

  lemma {:induction false} ZerosOfPacked(nodes: seq<TrieNode>)
    requires WellFormed(nodes)
    ensures |Encoded(nodes).louds| % 8 == 0
    ensures Zeros(Unpack(Encoded(nodes).louds)) == Delimiters(nodes, |Order(nodes)|)
  {
    hide Zeros, Order, Pack, Unpack, Delimiters;
    OrderInside(nodes);
    var order := Order(nodes);
    var bits := EncodedBits(nodes, order);
    assert order[..|order|] == order;
    ZerosOfEncoding(nodes, |order|);
    UnpackPack(bits);
    OnesHideNothing(bits, PadLength(|bits|));
  }

  /** Encoding a trie and parsing it back succeeds and gives the trie, for every trie: through
      the breadth-first numbering, the packing into words and the delimiter arithmetic. */
  lemma {:induction false} LoudsRoundTrip(nodes: seq<TrieNode>)
    requires WellFormed(nodes)
    ensures Parse(Encoded(nodes).louds, Encoded(nodes).characters).Ok?
    ensures Represents(Parse(Encoded(nodes).louds, Encoded(nodes).characters).value, nodes)
  {
    hide Zeros, Order, Pack, Unpack, Delimiters, Ranges, Used;
    ZerosOfPacked(nodes);
    RangesOfEncoding(nodes, Delimiters(nodes, |Order(nodes)|), |Order(nodes)|);
  }

  // ----- walking the numbers instead of the pointers -----

  lemma {:induction false} FirstWithIdSkips(nodeIds: seq<byte>, from: nat, to: nat, id: byte, at: nat)
    requires from <= at <= to && forall i :: from <= i < at && i < |nodeIds| ==> nodeIds[i] != id
    ensures FirstWithId(nodeIds, from, to, id) == FirstWithId(nodeIds, at, to, id)
    decreases at - from
  {
    if from < at {
      FirstWithIdSkips(nodeIds, from + 1, to, id, at);
    }
  }

  lemma {:induction false} FindMeansIndex(edges: seq<Edge>, id: byte)
    ensures Find(edges, id).None? ==> forall j :: 0 <= j < |edges| ==> edges[j].id != id
  {
    if edges != [] {
      FindMeansIndex(edges[1..], id);
      forall j | 0 <= j < |edges| && Find(edges, id).None?
        ensures edges[j].id != id
      {
        assert j > 0 ==> edges[1..][j - 1] == edges[j];
      }
    }
  }

  /** The numbers of a node's children, their ids and the nodes they stand for. */
  lemma {:induction false} NumberedChildren(louds: Louds, nodes: seq<TrieNode>, k: nat)
    requires WellFormed(nodes) && Represents(louds, nodes) && k < |Order(nodes)|
    ensures Order(nodes)[k].node < |nodes|
    ensures var edges := Children(nodes, Order(nodes)[k].node);
            var first := 2 + Used(nodes, k);
            && ChildRange(louds, k + 1) == Range(first, first + |edges|)
            && first + |edges| <= |louds.nodeIds|
            && forall j :: 0 <= j < |edges| ==>
                 louds.nodeIds[first + j] == edges[j].id && Order(nodes)[first + j - 1] == edges[j]
  {
    hide Order, Used;
    UsedStep(nodes, k);
    UsedBounds(nodes, k + 1);
    assert louds.childRanges[k + 1] == Range(2 + Used(nodes, k), 2 + Used(nodes, k + 1));
    var edges := Children(nodes, Order(nodes)[k].node);
    forall j | 0 <= j < |edges|
      ensures louds.nodeIds[2 + Used(nodes, k) + j] == edges[j].id
      ensures Order(nodes)[1 + Used(nodes, k) + j] == edges[j]
    {
      ChildIndex(nodes, k, j);
    }
  }

  /** Searching a child by number agrees with following the pointer. */
  lemma {:induction false} SearchChildAgrees(louds: Louds, nodes: seq<TrieNode>, k: nat, id: byte)
    requires WellFormed(nodes) && Represents(louds, nodes) && k < |Order(nodes)| && Order(nodes)[k].node < |nodes|
    ensures var found := SearchChild(louds, k + 1, id);
            var child := ChildOf(nodes, Order(nodes)[k].node, id);
            && (found.Some? <==> child.Some?)
            && (found.Some? ==>
                  && 0 < found.value <= |Order(nodes)| && Order(nodes)[found.value - 1] == Edge(id, child.value))
  {
    hide Order, Used, Represents, FirstWithId;
    NumberedChildren(louds, nodes, k);
    var edges := Children(nodes, Order(nodes)[k].node);
    var first := 2 + Used(nodes, k);
    assert |louds.nodeIds| == |Order(nodes)| + 1 by {
      NodeCount(louds, nodes);
    }
    SearchEdges(louds.nodeIds, edges, first, id);
    assert AscendingIds(edges);
  }

  lemma {:induction false} NodeCount(louds: Louds, nodes: seq<TrieNode>)
    requires WellFormed(nodes) && Represents(louds, nodes)
    ensures |louds.nodeIds| == |Order(nodes)| + 1
  {
    hide Order;
  }

  /** Searching consecutive numbers that carry the ids of `edges` finds what a map lookup finds. */
  lemma {:induction false} SearchEdges(nodeIds: seq<byte>, edges: seq<Edge>, first: nat, id: byte)
    requires AscendingIds(edges) && first + |edges| <= |nodeIds|
    requires forall j :: 0 <= j < |edges| ==> nodeIds[first + j] == edges[j].id
    ensures var found := FirstWithId(nodeIds, first, first + |edges|, id);
            && (found.Some? <==> Find(edges, id).Some?)
            && (found.Some? ==>
                  first <= found.value < first + |edges| && edges[found.value - first] == Edge(id, Find(edges, id).value))
  {
    if Find(edges, id).Some? {
      var j :| 0 <= j < |edges| && edges[j] == Edge(id, Find(edges, id).value);
      SmallerIdsDiffer(nodeIds, edges, first, j);
      FirstWithIdSkips(nodeIds, first, first + |edges|, id, first + j);
    } else {
      FindMeansIndex(edges, id);
      forall i | first <= i < first + |edges|
        ensures nodeIds[i] != id
      {
        assert nodeIds[first + (i - first)] == edges[i - first].id;
      }
      FirstWithIdSkips(nodeIds, first, first + |edges|, id, first + |edges|);
    }
  }

  lemma {:induction false} SmallerIdsDiffer(nodeIds: seq<byte>, edges: seq<Edge>, first: nat, j: nat)
    requires AscendingIds(edges) && j < |edges| && first + |edges| <= |nodeIds|
    requires forall i :: 0 <= i < |edges| ==> nodeIds[first + i] == edges[i].id
    ensures forall i :: first <= i < first + j ==> nodeIds[i] != edges[j].id
  {
    forall i | first <= i < first + j
      ensures nodeIds[i] != edges[j].id
    {
      assert nodeIds[first + (i - first)] == edges[i - first].id;
    }
  }
}
