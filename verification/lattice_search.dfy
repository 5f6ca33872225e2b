/** The loops of the n-best search (`lattice.rs`): building the nodes, walking all indices and
    passing completed paths on. */
module LatticeSearch {
  import opened Wrappers
  import opened LatticeIndices
  import opened Lattices
  import Composing
  import Segments

  method InsertPredecessor(values: seq<Scored>, value: Scored, nBest: nat) returns (result: seq<Scored>)
    requires |values| <= nBest && nBest > 0
    ensures result == InsertTop(values, value, nBest)
  {
    var index := |values|;
    assert values[..|values|] == values;
    while index > 0 && values[index - 1].total < value.total
      invariant 0 <= index <= |values|
      invariant InsertionPoint(values[..index], value.total) == InsertionPoint(values, value.total)
    {
      assert values[..index][..index - 1] == values[..index - 1];
      index := index - 1;
    }
    if index == nBest {
      return values;
    }
    result := values;
    if |result| >= nBest {
      result := result[..|result| - 1];
    }
    result := result[..index] + [value] + result[index..];
  }

  method InsertPredecessors(values: seq<Scored>, connection: real, completed: seq<Scored>, nBest: nat) returns (result: seq<Scored>)
    requires |values| <= nBest && nBest > 0
    ensures result == InsertAll(values, ConnectAll(connection, completed), nBest)
  {
    hide InsertTop;
    ghost var more := ConnectAll(connection, completed);
    result := values;
    for i := 0 to |completed|
      invariant |result| <= nBest && result == InsertAll(values, more[..i], nBest)
    {
      assert more[..i + 1][..i] == more[..i];
      result := InsertPredecessor(result, Scored(completed[i].path, completed[i].total + connection), nBest);
    }
    assert more[..|completed|] == more;
  }

  // ----- nodes -----

  function NumbersAt(l: Lattice, s: nat): (r: seq<nat>)
    requires s < |l.words|
    ensures |r| == |l.words[s]| && forall i :: 0 <= i < |r| ==> r[i] == First(l, s) + i
  {
    From(First(l, s), |l.words[s]|)
  }

  function From(first: nat, n: nat): (r: seq<nat>)
    ensures |r| == n && forall i :: 0 <= i < n ==> r[i] == first + i
  {
    seq(n, i requires 0 <= i < n => first + i)
  }

  ghost predicate StartsListed(l: Lattice, starts: seq<seq<nat>>) {
    |starts| <= |l.words| && forall s :: 0 <= s < |starts| ==> starts[s] == NumbersAt(l, s)
  }

  /** One node per word; `starts` lists the nodes by where they start. */
  method BuildNodes(l: Lattice) returns (nodes: seq<Node>, starts: seq<seq<nat>>)
    ensures nodes == Nodes(l)
    ensures |starts| == |l.words| && StartsListed(l, starts)
  {
    nodes := [];
    starts := [];
    for start := 0 to |l.words|
      invariant nodes == NodesBefore(l, start) && |starts| == start && StartsListed(l, starts)
    {
      var numbers: seq<nat> := [];
      ghost var before := nodes;
      assert NodesAt(l.words[start], start)[..0] == [];
      for i := 0 to |l.words[start]|
        invariant nodes == before + NodesAt(l.words[start], start)[..i]
        invariant numbers == NumbersAt(l, start)[..i]
      {
        var word := l.words[start][i];
        numbers := numbers + [|nodes|];
        nodes := nodes + [Node(word, start, start + word.length)];
      }
      starts := starts + [numbers];
    }
  }

  // ----- one node -----

  /** All nodes before `v` have been processed. */
  ghost predicate Processed(l: Lattice, predecessors: seq<seq<Scored>>, v: nat) {
    && Fits(l) && v <= |Nodes(l)| && |predecessors| == |Nodes(l)|
    && forall w :: v <= w < |Nodes(l)| ==> predecessors[w] == PredecessorsFrom(l, w, v)
  }

  method InitialPredecessors(l: Lattice, nodes: seq<Node>) returns (predecessors: seq<seq<Scored>>)
    requires Fits(l) && nodes == Nodes(l)
    ensures Processed(l, predecessors, 0)
  {
    predecessors := [];
    for v := 0 to |nodes|
      invariant |predecessors| == v
      invariant forall w :: 0 <= w < v ==> predecessors[w] == PredecessorsFrom(l, w, 0)
    {
      predecessors := predecessors + [if nodes[v].from == 0 then [Scored([], 0.0)] else []];
    }
  }

  method CompletePaths(l: Lattice, nodes: seq<Node>, v: nat, predecessors: seq<Scored>) returns (completed: seq<Scored>)
    requires Fits(l) && nodes == Nodes(l) && v < |nodes|
    ensures completed == ExtendAll(l, v, predecessors)
  {
    completed := [];
    for i := 0 to |predecessors|
      invariant completed == ExtendAll(l, v, predecessors)[..i]
    {
      var headConnection := if nodes[v].from == 0 then l.cost(l.contextRightId, nodes[v].word.leftId) else 0.0;
      var total := predecessors[i].total + nodes[v].word.value + headConnection;
      completed := completed + [Scored(predecessors[i].path + [v], total)];
    }
  }

  /** What passing on the paths of `v` makes of the list of a later node. */
  lemma {:induction false} PassedOn(l: Lattice, v: nat, w: nat)
    requires Fits(l) && v < w < |Nodes(l)|
    ensures PredecessorsFrom(l, w, v + 1)
            == if Nodes(l)[v].to == Nodes(l)[w].from then
                 InsertAll(PredecessorsFrom(l, w, v), ConnectAll(Connection(l, v, w), Completed(l, v)), l.nBest)
               else PredecessorsFrom(l, w, v)
  {
    hide Nodes, InsertAll, Completed, ConnectAll, PredecessorsFrom;
    NodeFacts(l, v);
    if Nodes(l)[w].from == 0 {
      StartUnaffected(l, w, v);
    } else {
      PredecessorsStep(l, w, v + 1);
    }
  }

  lemma {:induction false} StartUnaffected(l: Lattice, w: nat, v: nat)
    requires Fits(l) && v < w < |Nodes(l)| && Nodes(l)[w].from == 0
    ensures PredecessorsFrom(l, w, v + 1) == PredecessorsFrom(l, w, v)
  {
    hide Nodes;
  }

  lemma {:induction false} SkippedNode(l: Lattice, predecessors: seq<seq<Scored>>, v: nat)
    requires Processed(l, predecessors, v) && v < |Nodes(l)| && predecessors[v] == []
    ensures Completed(l, v) == [] && Processed(l, predecessors, v + 1)
  {
    hide Nodes, PredecessorsFrom;
    assert Completed(l, v) == [];
    forall w | v + 1 <= w < |Nodes(l)|
      ensures predecessors[w] == PredecessorsFrom(l, w, v + 1)
    {
      PassedOn(l, v, w);
      assert ConnectAll(Connection(l, v, w), []) == [];
    }
  }

  /** Which nodes start where `v` ends. */
  lemma {:induction false} NextNode(l: Lattice, v: nat, w: nat)
    requires Fits(l) && v < |Nodes(l)| && w < |Nodes(l)|
    ensures var to := Nodes(l)[v].to;
            to <= |l.words|
            && (to == |l.words| ==> Nodes(l)[w].from != to)
            && (to < |l.words| ==> (Nodes(l)[w].from == to <==> First(l, to) <= w < First(l, to + 1)))
  {
    hide Fits;
    NodeFacts(l, v);
    NodeFacts(l, w);
    var from, to := Nodes(l)[w].from, Nodes(l)[v].to;
    if from < to {
      FirstGrows(l, from + 1, to);
    } else if to < from {
      FirstGrows(l, to + 1, from);
    }
  }

  lemma {:induction false} FirstStep(l: Lattice, s: nat)
    requires s < |l.words|
    ensures First(l, s + 1) == First(l, s) + |l.words[s]| <= |Nodes(l)|
  {
    FirstGrows(l, s + 1, |l.words|);
  }

  lemma {:induction false} ResultsStep(l: Lattice, v: nat)
    requires Fits(l) && v < |Nodes(l)|
    ensures Completed(l, v) == [] || Nodes(l)[v].to != |l.words| ==> ResultsFrom(l, v + 1) == ResultsFrom(l, v)
    ensures Nodes(l)[v].to == |l.words| ==> ResultsFrom(l, v + 1) == ResultsFrom(l, v) + Completed(l, v)
  {
    hide Nodes, Completed, Fits;
    assert ResultsFrom(l, v) + [] == ResultsFrom(l, v);
  }

  method ProcessNode(l: Lattice, nodes: seq<Node>, starts: seq<seq<nat>>, m: DualIndexMap, inputCount: nat,
                     predecessors: seq<seq<Scored>>, results: seq<Scored>, v: nat)
    returns (newPredecessors: seq<seq<Scored>>, newResults: seq<Scored>)
    requires Processed(l, predecessors, v) && v < |Nodes(l)| && nodes == Nodes(l) && results == ResultsFrom(l, v)
    requires |starts| == |l.words| && StartsListed(l, starts) && Relates(m, inputCount, |l.words|)
    ensures Processed(l, newPredecessors, v + 1) && newResults == ResultsFrom(l, v + 1)
  {
    hide Nodes, PredecessorsFrom, Fits, Relates, First, NodesBefore, ResultsFrom;
    ResultsStep(l, v);
    newPredecessors, newResults := predecessors, results;
    if |predecessors[v]| == 0 {
      SkippedNode(l, predecessors, v);
      return;
    }
    NodeFacts(l, v);
    var completed := CompletePaths(l, nodes, v, predecessors[v]);
    var to := nodes[v].to;
    var next := DualOfSurface(m, to);
    EndsTogether(m, inputCount, |l.words|, to);
    if HasSurface(next, |l.words|) || HasInput(next, inputCount) {
      newResults := results + completed;
      PassedToNobody(l, predecessors, v);
      return;
    }
    newPredecessors := PassOn(l, nodes, starts[to], predecessors, completed, v);
  }

  lemma {:induction false} PassedToNobody(l: Lattice, predecessors: seq<seq<Scored>>, v: nat)
    requires Processed(l, predecessors, v) && v < |Nodes(l)| && Nodes(l)[v].to == |l.words|
    ensures Processed(l, predecessors, v + 1)
  {
    hide Nodes, PredecessorsFrom, Completed;
    forall w | v + 1 <= w < |Nodes(l)|
      ensures predecessors[w] == PredecessorsFrom(l, w, v + 1)
    {
      NextNode(l, v, w);
      PassedOn(l, v, w);
    }
  }

  method PassOn(l: Lattice, nodes: seq<Node>, nextNodes: seq<nat>, predecessors: seq<seq<Scored>>, completed: seq<Scored>, v: nat)
    returns (newPredecessors: seq<seq<Scored>>)
    requires Processed(l, predecessors, v) && v < |Nodes(l)| && nodes == Nodes(l) && completed == Completed(l, v)
    requires Nodes(l)[v].to < |l.words| && nextNodes == NumbersAt(l, Nodes(l)[v].to)
    ensures Processed(l, newPredecessors, v + 1)
  {
    hide Nodes, PredecessorsFrom, First, NodesBefore, Completed, InsertAll, ConnectAll;
    newPredecessors := predecessors;
    var to := nodes[v].to;
    ghost var first := First(l, to);
    FirstStep(l, to);
    for c := 0 to |nextNodes|
      invariant |newPredecessors| == |Nodes(l)|
      invariant forall w :: v < w < |Nodes(l)| ==>
                  newPredecessors[w] == if first <= w < first + c then PredecessorsFrom(l, w, v + 1) else PredecessorsFrom(l, w, v)
    {
      var w := nextNodes[c];
      NextNode(l, v, w);
      EarlierNode(l, v, w);
      PassedOn(l, v, w);
      var connection := l.cost(nodes[v].word.rightId, nodes[w].word.leftId);
      var updated := InsertPredecessors(newPredecessors[w], connection, completed, l.nBest);
      newPredecessors := newPredecessors[w := updated];
    }
    forall w | v + 1 <= w < |Nodes(l)|
      ensures newPredecessors[w] == PredecessorsFrom(l, w, v + 1)
    {
      NextNode(l, v, w);
      PassedOn(l, v, w);
    }
  }

  // ----- the whole search -----

  lemma {:induction false} SurfaceAt(indices: seq<DualIndex>, j: nat)
    requires j < |indices|
    ensures SurfaceParts(indices[..j + 1]) == SurfaceParts(indices[..j]) + if indices[j].InputOnly? then [] else [indices[j].surface]
    ensures SurfaceParts(indices[..j + 1]) <= SurfaceParts(indices)
  {
    assert indices[..j + 1] == indices[..j] + [indices[j]];
    PartsSnoc(indices[..j], indices[j]);
    SurfacePartsPrefix(indices, j + 1);
  }

  lemma {:induction false} SurfacePartsPrefix(indices: seq<DualIndex>, j: nat)
    requires j <= |indices|
    ensures SurfaceParts(indices[..j]) <= SurfaceParts(indices)
  {
    if j < |indices| {
      assert indices[..|indices| - 1][..j] == indices[..j];
      SurfacePartsPrefix(indices[..|indices| - 1], j);
    } else {
      assert indices[..j] == indices;
    }
  }

  /** The search computes the specified results, for any text and any boundary map. */
  method Convert(l: Lattice, m: DualIndexMap, inputCount: nat) returns (results: seq<Scored>)
    requires Fits(l) && Relates(m, inputCount, |l.words|)
    ensures results == Results(l)
  {
    hide Fits, Relates, Nodes, ResultsFrom, First, NodesBefore, SurfaceParts, PredecessorsFrom;
    var indices := Indices(m, inputCount, |l.words|);
    var nodes, starts := BuildNodes(l);
    var predecessors := InitialPredecessors(l, nodes);
    results := [];
    NothingProcessed(l);
    NoParts();
    assert indices[..0] == [];
    ghost var v := 0;
    for j := 0 to |indices|
      invariant |SurfaceParts(indices[..j])| <= |l.words| && v == First(l, |SurfaceParts(indices[..j])|)
      invariant Processed(l, predecessors, v) && results == ResultsFrom(l, v)
    {
      SurfaceAt(indices, j);
      if !indices[j].InputOnly? {
        var s := indices[j].surface;
        ghost var parts := SurfaceParts(indices[..j + 1]);
        assert parts[|parts| - 1] == SurfaceParts(indices)[|parts| - 1] == |parts| - 1;
        FirstStep(l, s);
        ghost var start := v;
        for c := 0 to |starts[s]|
          invariant v == start + c && Processed(l, predecessors, v) && results == ResultsFrom(l, v)
        {
          predecessors, results := ProcessNode(l, nodes, starts, m, inputCount, predecessors, results, starts[s][c]);
          v := v + 1;
        }
      }
    }
    assert indices[..|indices|] == indices;
    AllNodesProcessed(l);
  }

  /** With nothing asked for, or nothing typed, nothing is searched. */
  method Search(l: Lattice, m: DualIndexMap, inputCount: nat) returns (results: seq<Scored>)
    requires Fits(l.(nBest := 1)) && Relates(m, inputCount, |l.words|)
    ensures l.nBest == 0 ==> results == []
    ensures l.nBest > 0 ==> Fits(l) && results == Results(l)
  {
    if l.nBest == 0 || |l.words| == 0 {
      return [];
    }
    results := Convert(l, m, inputCount);
  }

  /** The search over a composing text, with the boundary map of that text. `order` is the order
      in which the map's entries come out of their hash table. */
  method SearchText(reg: Segments.Registry, t: Composing.Text, l: Lattice, order: seq<nat>) returns (results: seq<Scored>)
    requires t.surface == Segments.Convert(reg, t.input) && |l.words| == |t.surface| && Fits(l.(nBest := 1))
    requires forall i :: i in order <==> i in InputToSurfaceMap(reg, t)
    ensures l.nBest == 0 ==> results == []
    ensures l.nBest > 0 ==> Fits(l) && results == Results(l)
  {
    hide Segments.Convert, InputToSurfaceMap, Monotone;
    TextMapsAreMonotone(reg, t);
    var m := NewMap(InputToSurfaceMap(reg, t), |t.input|, |t.surface|, order);
    results := Search(l, m, |t.input|);
  }

  lemma {:induction false} NothingProcessed(l: Lattice)
    requires Fits(l)
    ensures First(l, 0) == 0 && ResultsFrom(l, 0) == []
  {
  }

  lemma {:induction false} NoParts()
    ensures SurfaceParts([]) == []
  {
  }

  lemma {:induction false} AllNodesProcessed(l: Lattice)
    ensures First(l, |l.words|) == |Nodes(l)|
  {
  }
}
