/** The two index objects of the learning memory (`learning/index.rs`): the pointer trie that
    grows with every new record, and the read-only form searched by node numbers. */
module MemoryIndexes {
  import opened Wrappers
  import opened Numbers
  import opened Bytes
  import opened Tries
  import opened TrieOrders
  import opened LoudsTrees
  import opened LoudsEncoding
  import opened IndexSearch

  const USIZE_MAX: nat := 0xFFFF_FFFF_FFFF_FFFF

  const DESCENDANT_LIMIT: nat := 700

  function Targets(edges: seq<Edge>): (r: seq<nat>)
    ensures |r| == |edges| && forall i :: 0 <= i < |r| ==> r[i] == edges[i].node
  {
    seq(|edges|, i requires 0 <= i < |edges| => edges[i].node)
  }

  lemma {:induction false} BuildSnoc(keys: seq<Option<Key>>, n: nat, more: seq<Option<Key>>)
    requires n <= |keys|
    ensures Build(keys + more, n) == Build(keys, n)
  {
    hide InsertAt;
    if n > 0 {
      assert (keys + more)[n - 1] == keys[n - 1];
      BuildSnoc(keys, n - 1, more);
    }
  }

  /** Inserting one more reading at the next position indexes the longer list. */
  lemma {:induction false} InsertExtendsBuild(keys: seq<Option<Key>>, ids: Key)
    ensures InsertAt(Build(keys, |keys|), 0, ids, |keys|) == Build(keys + [Some(ids)], |keys| + 1)
  {
    hide InsertAt;
    BuildSnoc(keys, |keys|, [Some(ids)]);
  }

  lemma {:induction false} FoundExactly(records: seq<nat>, kind: MatchKind, keys: seq<Option<Key>>, ids: Key)
    requires records == Scan(kind, keys, |keys|, ids)
    ensures Found(records, kind, keys, ids)
  {
  }

  class MemoryTrie {
    var nodes: seq<TrieNode>

    ghost predicate Valid()
      reads this
    {
      WellFormed(nodes)
    }

    /** The trie holds exactly the listed readings, each under its position. */
    ghost predicate Indexes(keys: seq<Option<Key>>)
      reads this
    {
      nodes == Build(keys, |keys|)
    }

    constructor ()
      ensures Valid() && Indexes([])
    {
      nodes := EMPTY_TRIE;
    }

    /** Reindexing a whole list; a reading outside the character table is left out. */
    constructor FromReadings(keys: seq<Option<Key>>)
      ensures Valid() && Indexes(keys)
    {
      nodes := EMPTY_TRIE;
      new;
      for i := 0 to |keys|
        invariant nodes == Build(keys, i)
      {
        if keys[i].Some? {
          Insert(keys[i].value, i);
        }
      }
    }

    method Insert(ids: Key, record: nat)
      requires Valid()
      modifies this
      ensures Valid() && nodes == InsertAt(old(nodes), 0, ids, record)
    {
      hide Walk, Find, WithEdge;
      var node: nat := 0;
      assert ids[0..] == ids;
      for i := 0 to |ids|
        invariant WellFormed(nodes) && node < |nodes|
        invariant InsertAt(nodes, node, ids[i..], record) == InsertAt(old(nodes), 0, ids, record)
      {
        assert ids[i..][0] == ids[i] && ids[i..][1..] == ids[i + 1..];
        var child := ChildOf(nodes, node, ids[i]);
        if child.Some? {
          node := child.value;
        } else {
          GrowIsWellFormed(nodes, node, ids[i]);
          var new_node := |nodes|;
          nodes := Grow(nodes, node, ids[i]);
          node := new_node;
        }
      }
      AddRecordIsWellFormed(nodes, node, record);
      nodes := AddRecord(nodes, node, record);
    }

    /** All records below a node, taken from a stack of pending nodes. */
    method CollectBelow(node: nat) returns (records: seq<nat>)
      requires Valid() && node < |nodes|
      ensures Inside(nodes, Subtree(nodes, Edge(0, node)))
      ensures records == Collected(nodes, Subtree(nodes, Edge(0, node)))
    {
      hide Subtree, Pending, Collected, Children;
      records := [];
      var pending := [node];
      ghost var stack, done := [Edge(0, node)], [];
      PendingOne(nodes, Edge(0, node));
      SubtreeInside(nodes, Edge(0, node));
      NothingCollected(nodes);
      while |pending| > 0
        invariant |pending| == |stack| && forall i :: 0 <= i < |pending| ==> pending[i] == stack[i].node
        invariant Inside(nodes, stack) && Inside(nodes, done)
        invariant done + Pending(nodes, stack, -1) == Subtree(nodes, Edge(0, node))
        invariant records == Collected(nodes, done)
        decreases |Pending(nodes, stack, -1)|
      {
        var top := pending[|pending| - 1];
        pending := pending[..|pending| - 1];
        ghost var edge, rest := stack[|stack| - 1], stack[..|stack| - 1];
        assert stack == rest + [edge];
        PopAndPush(nodes, rest, edge);
        CollectedOne(nodes, edge);
        CollectedAppend(nodes, done, [edge]);
        assert done + Pending(nodes, stack, -1) == (done + [edge]) + Pending(nodes, rest + Children(nodes, top), -1);
        records := records + nodes[top].records;
        pending := pending + Targets(Children(nodes, top));
        stack, done := rest + Children(nodes, top), done + [edge];
      }
      NothingPending(nodes, stack);
      assert done + [] == done;
    }

    /** Every lookup answers what a linear scan of the readings answers. */
    method Lookup(ids: Key, kind: MatchKind, ghost keys: seq<Option<Key>>) returns (records: seq<nat>)
      requires Indexes(keys)
      ensures records == Scan(kind, keys, |keys|, ids)
    {
      hide Walk, Scan, Count, Subtree, Collected, SortAscending, Build, Found;
      var node := 0;
      var found := [];
      RootWalk(nodes);
      assert ids[..0] == [];
      NoPrefixesOfNothing(keys);
      for i := 0 to |ids|
        invariant Walk(nodes, 0, ids[..i]) == Some(node)
        invariant kind != Prefixes ==> found == []
        invariant kind == Prefixes ==> Found(found, Prefixes, keys, ids[..i])
      {
        var child := ChildOf(nodes, node, ids[i]);
        if child.None? {
          StoppedEarly(found, kind, keys, ids, i, node);
          return SortAscending(found);
        }
        WalkNext(nodes, ids, i);
        node := child.value;
        if kind == Prefixes {
          BuildAnswersExactly(keys, |keys|, ids[..i + 1]);
          PrefixesStep(found, keys, ids, i);
          found := found + nodes[node].records;
        }
      }
      assert ids[..|ids|] == ids;
      match kind {
        case Exact =>
          found := found + nodes[node].records;
          BuildAnswersExactly(keys, |keys|, ids);
          FoundExactly(found, Exact, keys, ids);
        case Completions =>
          var below := CollectBelow(node);
          found := found + below;
          assert found == below;
          FoundSubtree(keys, ids, Edge(0, node));
        case Prefixes =>
      }
      FoundSorted(found, kind, keys, ids);
      records := SortAscending(found);
    }

    /** The breadth-first encoding, level by level. */
    method Encode() returns (index: EncodedIndex)
      requires Valid()
      ensures index == Encoded(nodes)
    {
      hide BreadthFirst, UnaryDegrees, Pack, Remaining;
      ghost var order := [ROOT];
      var bits, characters, blocks := [true, false], [0, 0], [[], []];
      var current := Children(nodes, 0);
      StartOrder(nodes);
      UnaryOne(nodes);
      bits := bits + Repeat(true, |current|) + [false];
      assert bits == EncodedBits(nodes, order);
      assert characters == [0] + Ids(order);
      assert blocks == [[], []] + Blocks(nodes, order[1..]);
      while |current| > 0
        invariant EncodedSoFar(nodes, order, current, bits, characters, blocks)
        decreases |BreadthFirst(nodes, current)|
      {
        var next := [];
        ghost var size := |BreadthFirst(nodes, current)|;
        assert current[0..] + next == current;
        for j := 0 to |current|
          invariant EncodedSoFar(nodes, order, current[j..] + next, bits, characters, blocks)
          invariant |BreadthFirst(nodes, current[j..] + next)| + j == size
        {
          var node := current[j].node;
          var below := Children(nodes, node);
          assert current[j..] + next == [current[j]] + (current[j + 1..] + next);
          EncodeStep(nodes, order, current[j], current[j + 1..] + next, bits, characters, blocks);
          assert (current[j + 1..] + next) + below == current[j + 1..] + (next + below);
          characters := characters + [current[j].id];
          blocks := blocks + [nodes[node].records];
          assert bits + Repeat(true, |below|) + [false] == bits + Unary(|below|);
          bits := bits + Repeat(true, |below|) + [false];
          next := next + below;
          order := order + [current[j]];
        }
        assert current[|current|..] + next == next;
        current := next;
      }
      EncodedAll(nodes, order, current, bits, characters, blocks);
      var louds := EncodeLouds(bits);
      index := EncodedIndex(louds, characters, blocks);
    }
  }

  lemma {:induction false} NothingCollected(nodes: seq<TrieNode>)
    requires WellFormed(nodes)
    ensures Inside(nodes, []) && Collected(nodes, []) == []
  {
  }

  lemma {:induction false} NothingPending(nodes: seq<TrieNode>, stack: seq<Edge>)
    requires WellFormed(nodes) && stack == [] && Inside(nodes, stack)
    ensures Pending(nodes, stack, -1) == []
  {
  }

  lemma {:induction false} RootWalk(nodes: seq<TrieNode>)
    requires WellFormed(nodes)
    ensures Walk(nodes, 0, []) == Some(0)
  {
  }

  /** One more id of a key, and what it means when there is no such child. */
  lemma {:induction false} WalkNext(nodes: seq<TrieNode>, ids: Key, i: nat)
    requires WellFormed(nodes) && i < |ids| && Walk(nodes, 0, ids[..i]).Some?
    ensures Walk(nodes, 0, ids[..i + 1]) == ChildOf(nodes, Walk(nodes, 0, ids[..i]).value, ids[i])
    ensures Walk(nodes, 0, ids[..i + 1]).None? ==> Walk(nodes, 0, ids).None?
  {
    hide Walk, Find;
    assert ids[..i + 1] == ids[..i] + [ids[i]] && ids == ids[..i + 1] + ids[i + 1..];
    WalkChild(nodes, ids[..i], ids[i]);
    WalkAppend(nodes, 0, ids[..i + 1], ids[i + 1..]);
  }

  /** Where the walk cannot go on, what was found so far is all there is. */
  lemma {:induction false} StoppedEarly(found: seq<nat>, kind: MatchKind, keys: seq<Option<Key>>, ids: Key, k: nat, node: nat)
    requires k < |ids| && Walk(Build(keys, |keys|), 0, ids[..k]) == Some(node)
    requires ChildOf(Build(keys, |keys|), node, ids[k]).None?
    requires kind != Prefixes ==> found == []
    requires kind == Prefixes ==> Found(found, Prefixes, keys, ids[..k])
    ensures SortAscending(found) == Scan(kind, keys, |keys|, ids)
  {
    hide Walk, Build, Scan, SortAscending, Found;
    StoppedWalk(keys, ids, k, node);
    if kind == Prefixes {
      StoppedPrefixes(found, keys, ids, k);
    } else {
      StoppedOthers(kind, keys, ids, k);
    }
    FoundSorted(found, kind, keys, ids);
  }

  // ----- the encoding loop -----

  /** Everything encoded so far stands for the visited nodes `order`; the rest of the
      breadth-first order is still to come out of `queue`. */
  ghost predicate EncodedSoFar(nodes: seq<TrieNode>, order: seq<Edge>, queue: seq<Edge>,
                               bits: seq<bool>, characters: seq<byte>, blocks: seq<seq<nat>>)
  {
    && WellFormed(nodes) && Inside(nodes, order) && Inside(nodes, queue) && |order| > 0
    && order + BreadthFirst(nodes, queue) == Order(nodes)
    && bits == EncodedBits(nodes, order)
    && characters == [0] + Ids(order)
    && Inside(nodes, order[1..]) && blocks == [[], []] + Blocks(nodes, order[1..])
  }

  lemma {:induction false} StartOrder(nodes: seq<TrieNode>)
    requires WellFormed(nodes)
    ensures Inside(nodes, [ROOT]) && Inside(nodes, Children(nodes, 0))
    ensures [ROOT] + BreadthFirst(nodes, Children(nodes, 0)) == Order(nodes)
  {
    ChildrenAreLater(nodes, 0);
    assert [ROOT][0] == ROOT && [ROOT][1..] + Children(nodes, 0) == Children(nodes, 0);
  }

  lemma {:induction false} UnaryOne(nodes: seq<TrieNode>)
    requires WellFormed(nodes)
    ensures EncodedBits(nodes, [ROOT]) == [true, false] + Repeat(true, |Children(nodes, 0)|) + [false]
  {
    assert [ROOT][..0] == [];
    assert UnaryDegrees(nodes, [ROOT]) == Unary(|Children(nodes, 0)|);
  }

  lemma {:induction false} BreadthFirstUnfolds(nodes: seq<TrieNode>, first: Edge, rest: seq<Edge>)
    requires WellFormed(nodes) && Inside(nodes, [first] + rest)
    ensures first.node < |nodes| && Inside(nodes, rest + Children(nodes, first.node))
    ensures BreadthFirst(nodes, [first] + rest) == [first] + BreadthFirst(nodes, rest + Children(nodes, first.node))
  {
    hide Remaining, Pending;
    ShiftQueue(nodes, first, rest);
    assert ([first] + rest)[1..] == rest;
  }

  lemma {:induction false} EncodeStep(nodes: seq<TrieNode>, order: seq<Edge>, first: Edge, rest: seq<Edge>,
                                      bits: seq<bool>, characters: seq<byte>, blocks: seq<seq<nat>>)
    requires EncodedSoFar(nodes, order, [first] + rest, bits, characters, blocks)
    ensures first.node < |nodes|
    ensures var below := Children(nodes, first.node);
            && EncodedSoFar(nodes, order + [first], rest + below,
                            bits + Unary(|below|), characters + [first.id], blocks + [nodes[first.node].records])
            && |BreadthFirst(nodes, [first] + rest)| == 1 + |BreadthFirst(nodes, rest + below)|
  {
    hide BreadthFirst, Children;
    BreadthFirstUnfolds(nodes, first, rest);
    var longer := order + [first];
    assert longer[..|order|] == order && longer[1..] == order[1..] + [first];
    assert Inside(nodes, longer) && Inside(nodes, longer[1..]);
    assert longer + BreadthFirst(nodes, rest + Children(nodes, first.node)) == order + BreadthFirst(nodes, [first] + rest);
    assert EncodedBits(nodes, longer) == EncodedBits(nodes, order) + Unary(|Children(nodes, first.node)|);
    assert [0] + Ids(longer) == ([0] + Ids(order)) + [first.id];
    assert Blocks(nodes, longer[1..]) == Blocks(nodes, order[1..]) + [nodes[first.node].records];
  }

  lemma {:induction false} EncodedAll(nodes: seq<TrieNode>, order: seq<Edge>, queue: seq<Edge>,
                                      bits: seq<bool>, characters: seq<byte>, blocks: seq<seq<nat>>)
    requires queue == [] && EncodedSoFar(nodes, order, queue, bits, characters, blocks)
    ensures Encoded(nodes) == EncodedIndex(Pack(bits), characters, blocks)
  {
    hide Pack, EncodedBits;
    assert order + [] == order;
  }

  // ----- searching by number -----

  /** The stored form stands for the trie: its topology and each node's records. */
  ghost predicate Stores(louds: Louds, blocks: seq<seq<nat>>, nodes: seq<TrieNode>) {
    && WellFormed(nodes) && Represents(louds, nodes)
    && Inside(nodes, Order(nodes)[1..]) && blocks == [[], []] + Blocks(nodes, Order(nodes)[1..])
  }

  lemma {:induction false} EncodedIsStored(nodes: seq<TrieNode>)
    requires WellFormed(nodes)
    ensures Parse(Encoded(nodes).louds, Encoded(nodes).characters).Ok?
    ensures Stores(Parse(Encoded(nodes).louds, Encoded(nodes).characters).value, Encoded(nodes).blocks, nodes)
  {
    hide Parse, Pack, Represents, BreadthFirst, EncodedBits;
    LoudsRoundTrip(nodes);
    OrderInside(nodes);
  }

  /** A number that stands for a node other than the root. */
  predicate IsNumber(nodes: seq<TrieNode>, number: nat)
    requires WellFormed(nodes)
  {
    2 <= number <= |Order(nodes)|
  }

  lemma {:induction false} BlockOfNumber(louds: Louds, blocks: seq<seq<nat>>, nodes: seq<TrieNode>, number: nat)
    requires Stores(louds, blocks, nodes) && IsNumber(nodes, number)
    ensures |blocks| == |Order(nodes)| + 1 && Order(nodes)[number - 1].node < |nodes|
    ensures blocks[number] == nodes[Order(nodes)[number - 1].node].records
  {
    hide Order, Represents;
    OrderInside(nodes);
    assert Order(nodes)[1..][number - 2] == Order(nodes)[number - 1];
  }

  ghost predicate AllNumbers(nodes: seq<TrieNode>, numbers: seq<nat>)
    requires WellFormed(nodes)
  {
    forall i :: 0 <= i < |numbers| ==> IsNumber(nodes, numbers[i])
  }

  ghost function Numbered(nodes: seq<TrieNode>, numbers: seq<nat>): (r: seq<Edge>)
    requires WellFormed(nodes) && AllNumbers(nodes, numbers)
    ensures |r| == |numbers| && forall i :: 0 <= i < |r| ==> r[i] == Order(nodes)[numbers[i] - 1]
  {
    seq(|numbers|, i requires 0 <= i < |numbers| => Order(nodes)[numbers[i] - 1])
  }

  lemma {:induction false} NumberedInside(nodes: seq<TrieNode>, numbers: seq<nat>)
    requires WellFormed(nodes) && AllNumbers(nodes, numbers)
    ensures Inside(nodes, Numbered(nodes, numbers))
  {
    hide Order;
    OrderIsClosed(nodes);
  }

  lemma {:induction false} NumberAt(nodes: seq<TrieNode>, numbers: seq<nat>, j: nat)
    requires WellFormed(nodes) && AllNumbers(nodes, numbers) && j < |numbers|
    ensures 0 < numbers[j] <= |Order(nodes)| && Numbered(nodes, numbers)[j] == Order(nodes)[numbers[j] - 1]
  {
    hide Order;
  }

  lemma {:induction false} NumberedAppend(nodes: seq<TrieNode>, a: seq<nat>, b: seq<nat>)
    requires WellFormed(nodes) && AllNumbers(nodes, a) && AllNumbers(nodes, b)
    ensures AllNumbers(nodes, a + b)
    ensures Numbered(nodes, a + b) == Numbered(nodes, a) + Numbered(nodes, b)
  {
    hide Order;
  }

  /** The numbers `first..first + n`. */
  function Consecutive(first: nat, n: nat): (r: seq<nat>)
    ensures |r| == n && forall i :: 0 <= i < n ==> r[i] == first + i
  {
    seq(n, i requires 0 <= i < n => first + i)
  }

  lemma {:induction false} DirectNumbers(louds: Louds, nodes: seq<TrieNode>, parent: nat)
    requires WellFormed(nodes) && Represents(louds, nodes) && 0 < parent <= |Order(nodes)|
    ensures Order(nodes)[parent - 1].node < |nodes|
    ensures ChildRange(louds, parent).start <= ChildRange(louds, parent).end
    ensures var range := ChildRange(louds, parent);
            var direct := Consecutive(range.start, range.end - range.start);
            AllNumbers(nodes, direct) && Numbered(nodes, direct) == Children(nodes, Order(nodes)[parent - 1].node)
  {
    hide Order, Represents, Used, Children;
    NodeCount(louds, nodes);
    NumberedChildren(louds, nodes, parent - 1);
    var edges := Children(nodes, Order(nodes)[parent - 1].node);
    var range := ChildRange(louds, parent);
    var direct := Consecutive(range.start, range.end - range.start);
    forall j | 0 <= j < |direct|
      ensures IsNumber(nodes, direct[j]) && Order(nodes)[direct[j] - 1] == edges[j]
    {
    }
    assert Numbered(nodes, direct) == edges;
  }

  /** A found child number is never the root's. */
  lemma {:induction false} FoundChildNumber(louds: Louds, nodes: seq<TrieNode>, number: nat, id: byte)
    requires WellFormed(nodes) && Represents(louds, nodes) && 0 < number <= |Order(nodes)|
    ensures Order(nodes)[number - 1].node < |nodes|
    ensures var found := SearchChild(louds, number, id);
            var child := ChildOf(nodes, Order(nodes)[number - 1].node, id);
            && (found.Some? <==> child.Some?)
            && (found.Some? ==> IsNumber(nodes, found.value) && Order(nodes)[found.value - 1].node == child.value)
  {
    hide Order, Represents, Used, SearchChild, Find;
    OrderIsClosed(nodes);
    SearchChildAgrees(louds, nodes, number - 1, id);
  }

  class MemoryLouds {
    var louds: Louds
    var blocks: seq<seq<nat>>

    /** The stored form of exactly the listed readings. */
    ghost predicate Indexes(keys: seq<Option<Key>>)
      reads this
    {
      Stores(louds, blocks, Build(keys, |keys|))
    }

    constructor (keys: seq<Option<Key>>)
      ensures Indexes(keys)
    {
      hide Stores, Build, Parse;
      var trie := new MemoryTrie.FromReadings(keys);
      var encoded := trie.Encode();
      EncodedIsStored(Build(keys, |keys|));
      var parsed := ParseLouds(encoded.louds, encoded.characters);
      louds := parsed.value;
      blocks := encoded.blocks;
    }

    /** The numbers of the nodes below `parent`, children first, cut off once the output is
        larger than the limit. */
    method DescendantsFrom(parent: nat, depth: nat, maxDepth: nat, maxCount: nat, ghost nodes: seq<TrieNode>)
      returns (output: seq<nat>)
      requires Stores(louds, blocks, nodes) && 0 < parent <= |Order(nodes)| && Order(nodes)[parent - 1].node < |nodes|
      requires depth + |nodes| - Order(nodes)[parent - 1].node <= maxDepth
      ensures AllNumbers(nodes, output)
      ensures Numbered(nodes, output) == Bounded(nodes, Order(nodes)[parent - 1].node, maxCount)
      decreases |nodes| - Order(nodes)[parent - 1].node
    {
      hide Order, Represents, Bounded, BoundedFrom, ChildRange, Stores, Children, AllNumbers, IsNumber;
      StoredTopology(louds, blocks, nodes);
      ghost var node := Order(nodes)[parent - 1].node;
      var range := ChildRange(louds, parent);
      DirectNumbers(louds, nodes, parent);
      ChildrenAreLater(nodes, node);
      var direct := Consecutive(range.start, range.end - range.start);
      output := direct;
      BoundedStarts(nodes, node, maxCount);
      if depth == maxDepth {
        assert false;
      }
      var j := 0;
      while j < |direct|
        invariant 0 <= j <= |direct| && AllNumbers(nodes, output)
        invariant BoundedFrom(nodes, node, j, Numbered(nodes, output), maxCount) == Bounded(nodes, node, maxCount)
      {
        if |output| > maxCount {
          BoundedStops(nodes, node, j, Numbered(nodes, output), maxCount);
          return;
        }
        BoundedGoesOn(nodes, node, j, Numbered(nodes, output), maxCount);
        NumberAt(nodes, direct, j);
        var below := DescendantsFrom(direct[j], depth + 1, maxDepth, Minus(maxCount, |output|), nodes);
        NumberedAppend(nodes, output, below);
        output := output + below;
        j := j + 1;
      }
      BoundedStops(nodes, node, j, Numbered(nodes, output), maxCount);
    }

    /** Walking by number follows the pointers. */
    method Search(ids: Key, ghost nodes: seq<TrieNode>) returns (number: Option<nat>)
      requires Stores(louds, blocks, nodes)
      ensures number.Some? <==> Walk(nodes, 0, ids).Some?
      ensures number.Some? ==> 0 < number.value <= |Order(nodes)| && Walk(nodes, 0, ids) == Some(Order(nodes)[number.value - 1].node)
    {
      hide Walk, Order, Represents, SearchChild, Find;
      var node := 1;
      OrderIsClosed(nodes);
      RootWalk(nodes);
      assert ids[..0] == [];
      for i := 0 to |ids|
        invariant 0 < node <= |Order(nodes)| && Walk(nodes, 0, ids[..i]) == Some(Order(nodes)[node - 1].node)
      {
        FoundChildNumber(louds, nodes, node, ids[i]);
        WalkNext(nodes, ids, i);
        var child := SearchChild(louds, node, ids[i]);
        if child.None? {
          return None;
        }
        node := child.value;
      }
      assert ids[..|ids|] == ids;
      number := Some(node);
    }

    method CollectNumbers(numbers: seq<nat>, ghost nodes: seq<TrieNode>) returns (records: seq<nat>)
      requires Stores(louds, blocks, nodes) && AllNumbers(nodes, numbers)
      ensures Inside(nodes, Numbered(nodes, numbers))
      ensures records == Collected(nodes, Numbered(nodes, numbers))
    {
      hide Order, Represents, Collected;
      records := [];
      NumberedInside(nodes, numbers);
      NothingCollected(nodes);
      ghost var edges := Numbered(nodes, numbers);
      assert edges[..0] == [];
      for i := 0 to |numbers|
        invariant Inside(nodes, edges[..i]) && records == Collected(nodes, edges[..i])
      {
        BlockOfNumber(louds, blocks, nodes, numbers[i]);
        assert edges[..i + 1] == edges[..i] + [edges[i]];
        CollectedOne(nodes, edges[i]);
        CollectedAppend(nodes, edges[..i], [edges[i]]);
        records := records + blocks[numbers[i]];
      }
      assert edges[..|numbers|] == edges;
    }

    /** The numbers below the node of a key, as far as the limit allows. */
    method Descendants(ids: Key, maxDepth: nat, maxCount: nat, ghost keys: seq<Option<Key>>) returns (records: seq<nat>)
      requires Indexes(keys) && |Build(keys, |keys|)| <= maxDepth
      requires Walk(Build(keys, |keys|), 0, ids).Some?
      ensures BoundedPrediction(SortAscending(records), keys, ids, maxCount)
    {
      hide Walk, Build, Order, Represents, BoundedPrediction, SortAscending, Collected, Bounded, BoundedFrom;
      ghost var nodes := Build(keys, |keys|);
      var root := Search(ids, nodes);
      var numbers := DescendantsFrom(root.value, 0, maxDepth, maxCount, nodes);
      records := CollectNumbers(numbers, nodes);
      Predicted(keys, ids, Order(nodes)[root.value - 1].node, maxCount);
    }

    /** Exact and prefix lookups of a non-empty key answer what a linear scan answers. A
        prediction gives each strict extension at most once, and all of them when at most
        700 nodes lie below the key. */
    method Lookup(ids: Key, kind: MatchKind, ghost keys: seq<Option<Key>>) returns (records: seq<nat>)
      requires Indexes(keys) && |Build(keys, |keys|)| <= USIZE_MAX
      ensures kind != Completions && ids != [] ==> records == Scan(kind, keys, |keys|, ids)
      ensures kind != Completions && ids == [] ==> records == []
      ensures kind == Completions ==> BoundedPrediction(records, keys, ids, 700)
    {
      hide Walk, Scan, Count, Collected, SortAscending, Build, Found, Order, Represents, SearchChild,
           BoundedPrediction, Find, Stores;
      ghost var nodes := Build(keys, |keys|);
      var node: nat := 1;
      var found := [];
      StartNumber(louds, blocks, keys);
      assert ids[..0] == [];
      for i := 0 to |ids|
        invariant if i == 0 then node == 1 else IsNumber(nodes, node)
        invariant AtNumber(nodes, ids[..i], node)
        invariant kind != Prefixes || i == 0 ==> found == []
        invariant kind == Prefixes ==> Found(found, Prefixes, keys, ids[..i])
      {
        NumberStep(louds, blocks, keys, ids, i, node, found, kind);
        var child := SearchChild(louds, node, ids[i]);
        if child.None? {
          return SortAscending(found);
        }
        node := child.value;
        if kind == Prefixes {
          found := found + blocks[node];
        }
      }
      assert ids[..|ids|] == ids;
      match kind {
        case Exact =>
          ExactBlock(louds, blocks, keys, ids, node);
          found := found + blocks[node];
          assert found == blocks[node];
        case Completions =>
          found := Descendants(ids, USIZE_MAX, DESCENDANT_LIMIT, keys);
        case Prefixes =>
          FoundSorted(found, Prefixes, keys, ids);
          if ids == [] {
            NothingSorted();
          }
      }
      records := SortAscending(found);
    }
  }

  /** Number `number` stands for the node that the key leads to. */
  ghost predicate AtNumber(nodes: seq<TrieNode>, ids: Key, number: nat) {
    WellFormed(nodes) && 0 < number <= |Order(nodes)| && Walk(nodes, 0, ids) == Some(Order(nodes)[number - 1].node)
  }

  lemma {:induction false} StartNumber(louds: Louds, blocks: seq<seq<nat>>, keys: seq<Option<Key>>)
    requires Stores(louds, blocks, Build(keys, |keys|))
    ensures AtNumber(Build(keys, |keys|), [], 1) && Found([], Prefixes, keys, [])
  {
    hide Walk, Build, Order, Represents, Found;
    OrderIsClosed(Build(keys, |keys|));
    RootWalk(Build(keys, |keys|));
    NoPrefixesOfNothing(keys);
  }

  /** One step of a lookup by numbers: it follows the trie, and where it cannot go on, what was
      found so far is the answer. */
  lemma {:induction false} NumberStep(louds: Louds, blocks: seq<seq<nat>>, keys: seq<Option<Key>>, ids: Key, i: nat,
                                      number: nat, found: seq<nat>, kind: MatchKind)
    requires Stores(louds, blocks, Build(keys, |keys|)) && i < |ids| && AtNumber(Build(keys, |keys|), ids[..i], number)
    requires kind != Prefixes ==> found == []
    requires kind == Prefixes ==> Found(found, Prefixes, keys, ids[..i])
    ensures var child := SearchChild(louds, number, ids[i]);
            && (child.Some? ==>
                  && IsNumber(Build(keys, |keys|), child.value) && AtNumber(Build(keys, |keys|), ids[..i + 1], child.value)
                  && child.value < |blocks|
                  && (kind == Prefixes ==> Found(found + blocks[child.value], Prefixes, keys, ids[..i + 1])))
            && (child.None? ==>
                  && SortAscending(found) == Scan(kind, keys, |keys|, ids)
                  && (kind == Completions ==> BoundedPrediction(SortAscending(found), keys, ids, 700)))
  {
    hide Walk, Scan, Count, SortAscending, Build, Found, Order, Represents, SearchChild, BoundedPrediction, Find, Stores;
    var nodes := Build(keys, |keys|);
    var node := Order(nodes)[number - 1].node;
    StoredTopology(louds, blocks, nodes);
    FoundChildNumber(louds, nodes, number, ids[i]);
    WalkNext(nodes, ids, i);
    var child := SearchChild(louds, number, ids[i]);
    if child.Some? {
      BlockOfNumber(louds, blocks, nodes, child.value);
      if kind == Prefixes {
        BuildAnswersExactly(keys, |keys|, ids[..i + 1]);
        PrefixesStep(found, keys, ids, i);
      }
    } else {
      StoppedEarly(found, kind, keys, ids, i, node);
      if kind == Completions {
        NothingPredicted(keys, ids, i, node);
        NothingSorted();
      }
    }
  }

  lemma {:induction false} StoredTopology(louds: Louds, blocks: seq<seq<nat>>, nodes: seq<TrieNode>)
    requires Stores(louds, blocks, nodes)
    ensures WellFormed(nodes) && Represents(louds, nodes)
  {
    hide Order, Represents;
  }

  /** The block of the node a key leads to; the root's block is always empty. */
  lemma {:induction false} ExactBlock(louds: Louds, blocks: seq<seq<nat>>, keys: seq<Option<Key>>, ids: Key, number: nat)
    requires Stores(louds, blocks, Build(keys, |keys|))
    requires if ids == [] then number == 1 else IsNumber(Build(keys, |keys|), number)
    requires ids != [] ==> Walk(Build(keys, |keys|), 0, ids) == Some(Order(Build(keys, |keys|))[number - 1].node)
    ensures number < |blocks|
    ensures SortAscending(blocks[number]) == if ids == [] then [] else Scan(Exact, keys, |keys|, ids)
  {
    hide Walk, Build, Order, Represents, Scan, SortAscending, Found;
    if ids == [] {
      NothingSorted();
    } else {
      BlockOfNumber(louds, blocks, Build(keys, |keys|), number);
      BuildAnswersExactly(keys, |keys|, ids);
      FoundExactly(blocks[number], Exact, keys, ids);
      FoundSorted(blocks[number], Exact, keys, ids);
    }
  }

  lemma {:induction false} NothingSorted()
    ensures SortAscending([]) == []
  {
  }

  // ----- bounded predictions -----

  lemma {:induction false} BoundedStarts(nodes: seq<TrieNode>, node: nat, limit: nat)
    requires WellFormed(nodes) && node < |nodes|
    ensures BoundedFrom(nodes, node, 0, Children(nodes, node), limit) == Bounded(nodes, node, limit)
  {
    hide BoundedFrom;
  }

  lemma {:induction false} BoundedStops(nodes: seq<TrieNode>, node: nat, j: nat, output: seq<Edge>, limit: nat)
    requires WellFormed(nodes) && node < |nodes| && j <= |Children(nodes, node)|
    requires j == |Children(nodes, node)| || |output| > limit
    ensures BoundedFrom(nodes, node, j, output, limit) == output
  {
    hide Bounded;
  }

  lemma {:induction false} BoundedGoesOn(nodes: seq<TrieNode>, node: nat, j: nat, output: seq<Edge>, limit: nat)
    requires WellFormed(nodes) && node < |nodes| && j < |Children(nodes, node)| && |output| <= limit
    ensures node < Children(nodes, node)[j].node < |nodes|
    ensures BoundedFrom(nodes, node, j, output, limit)
            == BoundedFrom(nodes, node, j + 1, output + Bounded(nodes, Children(nodes, node)[j].node, Minus(limit, |output|)), limit)
  {
    hide Bounded;
    ChildrenAreLater(nodes, node);
  }

  /** How many nodes lie below a key. */
  function NodesBelow(nodes: seq<TrieNode>, ids: Key): nat
    requires WellFormed(nodes)
  {
    var node := Walk(nodes, 0, ids);
    if node.Some? then Total(nodes, node.value) else 0
  }

  predicate IsStrict(keys: seq<Option<Key>>, i: nat, ids: Key) {
    i < |keys| && keys[i].Some? && ids < keys[i].value
  }

  /** The records of the first whole families of nodes below the key. */
  function FirstFamilies(keys: seq<Option<Key>>, ids: Key, limit: nat): seq<nat> {
    var nodes := Build(keys, |keys|);
    match Walk(nodes, 0, ids)
    case None => []
    case Some(node) =>
      BoundedIsFlat(nodes, node, limit);
      BoundedCounts(keys, ids, node, limit, 0);
      Collected(nodes, TakenUpTo(Families(nodes, node), limit))
  }

  /** Ascending, sound, free of duplicates, and complete whenever the limit allows it. */
  ghost predicate BoundedPrediction(records: seq<nat>, keys: seq<Option<Key>>, ids: Key, limit: nat) {
    && Sorted(records) && records == SortAscending(FirstFamilies(keys, ids, limit))
    && (forall i: nat :: Count(records, i) <= if IsStrict(keys, i, ids) then 1 else 0)
    && (NodesBelow(Build(keys, |keys|), ids) <= limit ==>
          forall i: nat :: Count(records, i) == if IsStrict(keys, i, ids) then 1 else 0)
  }

  lemma {:induction false} StrictMeans(keys: seq<Option<Key>>, i: nat, ids: Key)
    ensures IsStrict(keys, i, ids) <==> StrictlyExtends(keys, i, ids)
  {
    if i < |keys| && keys[i].Some? && ids <= keys[i].value {
      var reading := keys[i].value;
      assert keys[i] == Some(reading) && (|ids| == |reading| ==> reading == reading[..|ids|] == ids);
    }
  }

  lemma {:induction false} Predicted(keys: seq<Option<Key>>, ids: Key, node: nat, limit: nat)
    requires Walk(Build(keys, |keys|), 0, ids) == Some(node)
    ensures Inside(Build(keys, |keys|), Bounded(Build(keys, |keys|), node, limit))
    ensures BoundedPrediction(SortAscending(Collected(Build(keys, |keys|), Bounded(Build(keys, |keys|), node, limit))), keys, ids, limit)
  {
    hide Walk, Build, Count, Collected, Bounded, Total, SortAscending, StrictlyExtends, IsStrict;
    var nodes := Build(keys, |keys|);
    BoundedCounts(keys, ids, node, limit, 0);
    BoundedIsFlat(nodes, node, limit);
    var found := Collected(nodes, Bounded(nodes, node, limit));
    SortAscendingIsSorted(found);
    forall i: nat
      ensures Count(SortAscending(found), i) == Count(found, i)
      ensures Count(found, i) <= if IsStrict(keys, i, ids) then 1 else 0
      ensures NodesBelow(nodes, ids) <= limit ==> Count(found, i) == if IsStrict(keys, i, ids) then 1 else 0
    {
      SortAscendingCounts(found, i);
      BoundedCounts(keys, ids, node, limit, i);
      StrictMeans(keys, i, ids);
    }
  }

  lemma {:induction false} NothingPredicted(keys: seq<Option<Key>>, ids: Key, k: nat, node: nat)
    requires k < |ids| && Walk(Build(keys, |keys|), 0, ids[..k]) == Some(node)
    requires ChildOf(Build(keys, |keys|), node, ids[k]).None?
    ensures BoundedPrediction([], keys, ids, 700)
  {
    hide Walk, Build;
    StoppedWalk(keys, ids, k, node);
    assert ids == (ids[..k] + [ids[k]]) + ids[k + 1..];
    WalkChild(Build(keys, |keys|), ids[..k], ids[k]);
    WalkAppend(Build(keys, |keys|), 0, ids[..k] + [ids[k]], ids[k + 1..]);
    forall i: nat
      ensures !IsStrict(keys, i, ids)
    {
      if i < |keys| && keys[i].Some? {
        LongerKey(keys[i].value, ids, k);
      }
    }
  }
}
