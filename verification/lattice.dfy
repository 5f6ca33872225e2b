/** The n-best search over the word lattice (`lattice.rs`), without typo nodes and without a
    prefix constraint. Scores are exact numbers. */
module Lattices {
  import opened Wrappers
  import opened Numbers
  import opened LatticeIndices

  /** A dictionary word found at some text position. */
  datatype Word = Word(leftId: nat, rightId: nat, value: real, length: nat)

  datatype Node = Node(word: Word, from: nat, to: nat)

  /** `Scored` is a registered path, or a predecessor: the node numbers so far and their total. */
  datatype Scored = Scored(path: seq<nat>, total: real)

  type ConnectionCost = (nat, nat) -> real

  /** `words[s]` are the words found at text position `s`. */
  datatype Lattice = Lattice(words: seq<seq<Word>>, cost: ConnectionCost, contextRightId: nat, nBest: nat)

  ghost predicate Fits(l: Lattice) {
    && l.nBest > 0
    && forall s, i :: 0 <= s < |l.words| && 0 <= i < |l.words[s]| ==> 0 < l.words[s][i].length <= |l.words| - s
  }

  // ----- nodes -----

  function NodesAt(words: seq<Word>, from: nat): (r: seq<Node>)
    ensures |r| == |words| && forall i :: 0 <= i < |r| ==> r[i] == Node(words[i], from, from + words[i].length)
  {
    seq(|words|, i requires 0 <= i < |words| => Node(words[i], from, from + words[i].length))
  }

  /** The nodes that start before `s`, in the order they are created. */
  function NodesBefore(l: Lattice, s: nat): seq<Node>
    requires s <= |l.words|
  {
    if s == 0 then [] else NodesBefore(l, s - 1) + NodesAt(l.words[s - 1], s - 1)
  }

  function Nodes(l: Lattice): seq<Node> {
    NodesBefore(l, |l.words|)
  }

  /** The number of the first node that starts at `s` or later. */
  function First(l: Lattice, s: nat): nat
    requires s <= |l.words|
  {
    |NodesBefore(l, s)|
  }

  lemma {:induction false} NodesPrefix(l: Lattice, s: nat, e: nat)
    requires s <= e <= |l.words|
    ensures NodesBefore(l, s) <= NodesBefore(l, e)
    decreases e
  {
    if s < e {
      NodesPrefix(l, s, e - 1);
    }
  }

  /** Nodes are numbered by where they start. */
  lemma {:induction false} NodeAt(l: Lattice, s: nat, v: nat)
    requires s < |l.words| && First(l, s) <= v < First(l, s + 1)
    ensures v < |Nodes(l)| && Nodes(l)[v] == Node(l.words[s][v - First(l, s)], s, s + l.words[s][v - First(l, s)].length)
  {
    NodesPrefix(l, s + 1, |l.words|);
  }

  lemma {:induction false} WhereNodeStarts(l: Lattice, s: nat, v: nat)
    requires s <= |l.words| && v < First(l, s)
    ensures v < |Nodes(l)| && Nodes(l)[v].from < s
    ensures First(l, Nodes(l)[v].from) <= v < First(l, Nodes(l)[v].from + 1)
    ensures Fits(l) ==> Nodes(l)[v].from < Nodes(l)[v].to <= |l.words|
    decreases s
  {
    if v < First(l, s - 1) {
      WhereNodeStarts(l, s - 1, v);
    } else {
      NodeAt(l, s - 1, v);
    }
  }

  lemma {:induction false} FirstGrows(l: Lattice, s: nat, e: nat)
    requires s <= e <= |l.words|
    ensures First(l, s) <= First(l, e)
  {
    NodesPrefix(l, s, e);
  }

  lemma {:induction false} NodeFacts(l: Lattice, v: nat)
    requires Fits(l) && v < |Nodes(l)|
    ensures var n := Nodes(l)[v];
            n.from < |l.words| && n.from < n.to <= |l.words| && First(l, n.from) <= v < First(l, n.from + 1)
  {
    WhereNodeStarts(l, |l.words|, v);
  }

  /** A node that ends where another starts comes before it. */
  lemma {:induction false} EarlierNode(l: Lattice, u: nat, v: nat)
    requires Fits(l) && u < |Nodes(l)| && v < |Nodes(l)| && Nodes(l)[u].to == Nodes(l)[v].from
    ensures u < v
  {
    NodeFacts(l, u);
    NodeFacts(l, v);
    FirstGrows(l, Nodes(l)[u].from + 1, Nodes(l)[v].from);
  }

  // ----- the bounded predecessor list -----

  /** Behind the last entry that is at least as good. */
  function InsertionPoint(values: seq<Scored>, total: real): (r: nat)
    ensures r <= |values|
  {
    if values == [] then 0
    else if values[|values| - 1].total >= total then |values|
    else InsertionPoint(values[..|values| - 1], total)
  }

  function InsertTop(values: seq<Scored>, value: Scored, nBest: nat): (r: seq<Scored>)
    requires |values| <= nBest && nBest > 0
    ensures |r| <= nBest
  {
    var index := InsertionPoint(values, value.total);
    if index == nBest then values
    else
      var kept := if |values| >= nBest then values[..|values| - 1] else values;
      kept[..index] + [value] + kept[index..]
  }

  function InsertAll(values: seq<Scored>, more: seq<Scored>, nBest: nat): (r: seq<Scored>)
    requires |values| <= nBest && nBest > 0
    ensures |r| <= nBest
  {
    if more == [] then values
    else InsertTop(InsertAll(values, more[..|more| - 1], nBest), more[|more| - 1], nBest)
  }

  /** The insertion without a bound: a stable insertion sort. */
  function InsertStable(values: seq<Scored>, value: Scored): seq<Scored> {
    var index := InsertionPoint(values, value.total);
    values[..index] + [value] + values[index..]
  }

  function SortStable(values: seq<Scored>): seq<Scored> {
    if values == [] then [] else InsertStable(SortStable(values[..|values| - 1]), values[|values| - 1])
  }

  ghost predicate Descending(values: seq<Scored>) {
    forall i, j :: 0 <= i < j < |values| ==> values[i].total >= values[j].total
  }

  lemma {:induction false} InsertionPointMeans(values: seq<Scored>, total: real)
    requires Descending(values)
    ensures forall i :: 0 <= i < |values| ==> (i < InsertionPoint(values, total) <==> values[i].total >= total)
  {
    if values != [] && values[|values| - 1].total < total {
      InsertionPointMeans(values[..|values| - 1], total);
    }
  }

  lemma {:induction false} InsertionPointOfPrefix(values: seq<Scored>, n: nat, total: real)
    requires Descending(values) && n <= |values|
    ensures InsertionPoint(values[..n], total) == Min(InsertionPoint(values, total), n)
  {
    if n < |values| {
      var init := values[..|values| - 1];
      assert init[..n] == values[..n];
      if values[|values| - 1].total < total {
        InsertionPointOfPrefix(init, n, total);
      }
    } else {
      assert values[..n] == values;
    }
  }

  lemma {:induction false} InsertedDescends(values: seq<Scored>, value: Scored)
    requires Descending(values)
    ensures Descending(InsertStable(values, value))
    ensures multiset(InsertStable(values, value)) == multiset(values) + multiset{value}
  {
    InsertionPointMeans(values, value.total);
    var index := InsertionPoint(values, value.total);
    assert values == values[..index] + values[index..];
  }

  lemma {:induction false} SortDescends(values: seq<Scored>)
    ensures Descending(SortStable(values)) && multiset(SortStable(values)) == multiset(values)
  {
    hide InsertStable;
    if values != [] {
      SortDescends(values[..|values| - 1]);
      InsertedDescends(SortStable(values[..|values| - 1]), values[|values| - 1]);
      assert values == values[..|values| - 1] + [values[|values| - 1]];
    }
  }

  lemma {:induction false} InsertTopOfPrefix(sorted: seq<Scored>, value: Scored, nBest: nat)
    requires Descending(sorted) && nBest > 0
    ensures InsertTop(sorted[..Min(|sorted|, nBest)], value, nBest)
            == InsertStable(sorted, value)[..Min(|sorted| + 1, nBest)]
  {
    hide InsertionPoint;
    var n := Min(|sorted|, nBest);
    var index := InsertionPoint(sorted, value.total);
    InsertionPointOfPrefix(sorted, n, value.total);
    if |sorted| < nBest {
      assert sorted[..n] == sorted;
      assert InsertStable(sorted, value)[..|sorted| + 1] == InsertStable(sorted, value);
    } else {
      TopOfInserted(sorted, value, index, nBest);
    }
  }

  lemma {:induction false} TopOfInserted(sorted: seq<Scored>, value: Scored, index: nat, nBest: nat)
    requires index <= |sorted| && 0 < nBest <= |sorted|
    ensures index >= nBest ==> (sorted[..index] + [value] + sorted[index..])[..nBest] == sorted[..nBest]
    ensures index < nBest ==>
              var kept := sorted[..nBest][..nBest - 1];
              kept[..index] + [value] + kept[index..] == (sorted[..index] + [value] + sorted[index..])[..nBest]
  {
  }

  /** Inserting one by one keeps exactly the first `nBest` of the stable sort of everything. */
  lemma {:induction false} InsertAllIsStableTop(values: seq<Scored>, nBest: nat)
    requires nBest > 0
    ensures |SortStable(values)| == |values|
    ensures InsertAll([], values, nBest) == SortStable(values)[..Min(|values|, nBest)]
  {
    hide InsertTop, InsertStable;
    if values != [] {
      var init := values[..|values| - 1];
      InsertAllIsStableTop(init, nBest);
      SortDescends(init);
      SortDescends(values);
      assert |multiset(SortStable(values))| == |multiset(values)|;
      InsertTopOfPrefix(SortStable(init), values[|values| - 1], nBest);
    }
  }

  // ----- scores -----

  /** The connection to the text before, paid by the first word. */
  function HeadConnection(l: Lattice, n: Node): real {
    if n.from == 0 then l.cost(l.contextRightId, n.word.leftId) else 0.0
  }

  function Extend(l: Lattice, v: nat, predecessor: Scored): Scored
    requires v < |Nodes(l)|
  {
    Scored(predecessor.path + [v], predecessor.total + Nodes(l)[v].word.value + HeadConnection(l, Nodes(l)[v]))
  }

  function ExtendAll(l: Lattice, v: nat, predecessors: seq<Scored>): (r: seq<Scored>)
    requires v < |Nodes(l)|
    ensures |r| == |predecessors| && forall i :: 0 <= i < |r| ==> r[i] == Extend(l, v, predecessors[i])
  {
    seq(|predecessors|, i requires 0 <= i < |predecessors| => Extend(l, v, predecessors[i]))
  }

  function Connect(connection: real, path: Scored): Scored {
    Scored(path.path, path.total + connection)
  }

  function ConnectAll(connection: real, paths: seq<Scored>): (r: seq<Scored>)
    ensures |r| == |paths| && forall i :: 0 <= i < |r| ==> r[i] == Connect(connection, paths[i])
  {
    seq(|paths|, i requires 0 <= i < |paths| => Connect(connection, paths[i]))
  }

  function Connection(l: Lattice, u: nat, v: nat): real
    requires u < |Nodes(l)| && v < |Nodes(l)|
  {
    l.cost(Nodes(l)[u].word.rightId, Nodes(l)[v].word.leftId)
  }

  // ----- what the dynamic programming computes -----

  /** The paths that a node completes. */
  function Completed(l: Lattice, v: nat): seq<Scored>
    requires Fits(l) && v < |Nodes(l)|
    decreases v, 2
  {
    ExtendAll(l, v, Predecessors(l, v))
  }

  function Predecessors(l: Lattice, v: nat): seq<Scored>
    requires Fits(l) && v < |Nodes(l)|
    decreases v, 1
  {
    PredecessorsFrom(l, v, v)
  }

  /** The predecessor list of node `v` when the nodes before `k` have been processed. */
  function PredecessorsFrom(l: Lattice, v: nat, k: nat): (r: seq<Scored>)
    requires Fits(l) && k <= v < |Nodes(l)|
    ensures |r| <= l.nBest
    decreases v, 0, k
  {
    if Nodes(l)[v].from == 0 then [Scored([], 0.0)]
    else if k == 0 then []
    else
      var before := PredecessorsFrom(l, v, k - 1);
      if Nodes(l)[k - 1].to == Nodes(l)[v].from then
        InsertAll(before, ConnectAll(Connection(l, k - 1, v), Completed(l, k - 1)), l.nBest)
      else before
  }

  /** The complete paths found when the nodes before `k` have been processed. */
  function ResultsFrom(l: Lattice, k: nat): seq<Scored>
    requires Fits(l) && k <= |Nodes(l)|
  {
    if k == 0 then []
    else ResultsFrom(l, k - 1) + if Nodes(l)[k - 1].to == |l.words| then Completed(l, k - 1) else []
  }

  function Results(l: Lattice): seq<Scored>
    requires Fits(l)
  {
    ResultsFrom(l, |Nodes(l)|)
  }

  // ----- paths -----

  /** Words that follow each other from the start of the text. */
  ghost predicate IsPath(l: Lattice, path: seq<nat>)
    decreases |path|
  {
    && path != [] && path[|path| - 1] < |Nodes(l)|
    && if |path| == 1 then Nodes(l)[path[0]].from == 0
       else IsPath(l, path[..|path| - 1]) && Nodes(l)[path[|path| - 2]].to == Nodes(l)[path[|path| - 1]].from
  }

  ghost predicate IsCompletePath(l: Lattice, path: seq<nat>) {
    IsPath(l, path) && Nodes(l)[path[|path| - 1]].to == |l.words|
  }

  /** The score of a path, word by word. */
  ghost function Total(l: Lattice, path: seq<nat>): real
    requires IsPath(l, path)
    decreases |path|
  {
    var last := path[|path| - 1];
    var before := if |path| == 1 then 0.0 else Total(l, path[..|path| - 1]) + Connection(l, path[|path| - 2], last);
    before + Nodes(l)[last].word.value + HeadConnection(l, Nodes(l)[last])
  }

  // ----- insertion keeps what matters -----

  ghost predicate AllAtLeast(values: seq<Scored>, n: nat, total: real) {
    n <= |values| && forall i :: 0 <= i < n ==> values[i].total >= total
  }

  /** The value is kept, or the list is full of values at least as good. */
  ghost predicate Covered(values: seq<Scored>, value: Scored, nBest: nat) {
    value in values || (|values| == nBest && AllAtLeast(values, nBest, value.total))
  }

  lemma {:induction false} InsertTopDescends(values: seq<Scored>, value: Scored, nBest: nat)
    requires Descending(values) && |values| <= nBest && nBest > 0
    ensures Descending(InsertTop(values, value, nBest))
  {
    InsertionPointMeans(values, value.total);
  }

  lemma {:induction false} InsertTopCovers(values: seq<Scored>, value: Scored, nBest: nat)
    requires Descending(values) && |values| <= nBest && nBest > 0
    ensures Covered(InsertTop(values, value, nBest), value, nBest)
  {
    InsertionPointMeans(values, value.total);
    var index := InsertionPoint(values, value.total);
    if index < nBest {
      assert InsertTop(values, value, nBest)[index] == value;
    }
  }

  lemma {:induction false} InsertTopKeepsLead(values: seq<Scored>, value: Scored, nBest: nat, n: nat, total: real)
    requires Descending(values) && |values| <= nBest && nBest > 0 && AllAtLeast(values, n, total)
    ensures AllAtLeast(InsertTop(values, value, nBest), if value.total >= total then Min(n + 1, nBest) else n, total)
  {
    InsertionPointMeans(values, value.total);
    var index := InsertionPoint(values, value.total);
    if index < nBest {
      var r := InsertTop(values, value, nBest);
      assert r[index] == value;
      assert forall i :: 0 <= i < index ==> r[i] == values[i];
      assert forall i :: index < i < |r| ==> r[i] == values[i - 1];
    }
  }

  lemma {:induction false} InsertTopKeepsCover(values: seq<Scored>, value: Scored, other: Scored, nBest: nat)
    requires Descending(values) && |values| <= nBest && nBest > 0 && Covered(values, other, nBest)
    ensures Covered(InsertTop(values, value, nBest), other, nBest)
  {
    InsertionPointMeans(values, value.total);
    var index := InsertionPoint(values, value.total);
    var r := InsertTop(values, value, nBest);
    if other in values {
      var j :| 0 <= j < |values| && values[j] == other;
      if index < nBest {
        if j < index {
          assert r[j] == other;
        } else if j < nBest - 1 {
          assert r[j + 1] == other;
        } else {
          assert AllAtLeast(values, nBest, other.total);
          InsertTopKeepsLead(values, value, nBest, nBest, other.total);
        }
      }
    } else {
      InsertTopKeepsLead(values, value, nBest, nBest, other.total);
    }
  }

  lemma {:induction false} InsertAllDescends(values: seq<Scored>, more: seq<Scored>, nBest: nat)
    requires Descending(values) && |values| <= nBest && nBest > 0
    ensures Descending(InsertAll(values, more, nBest))
  {
    hide InsertTop;
    if more != [] {
      InsertAllDescends(values, more[..|more| - 1], nBest);
      InsertTopDescends(InsertAll(values, more[..|more| - 1], nBest), more[|more| - 1], nBest);
    }
  }

  lemma {:induction false} InsertAllKeepsCover(values: seq<Scored>, more: seq<Scored>, nBest: nat, other: Scored)
    requires Descending(values) && |values| <= nBest && nBest > 0
    requires Covered(values, other, nBest) || other in more
    ensures Covered(InsertAll(values, more, nBest), other, nBest)
  {
    hide InsertTop, Covered;
    if more != [] {
      var init, last := more[..|more| - 1], more[|more| - 1];
      InsertAllDescends(values, init, nBest);
      if other == last {
        InsertTopCovers(InsertAll(values, init, nBest), last, nBest);
      } else {
        assert more == init + [last];
        InsertAllKeepsCover(values, init, nBest, other);
        InsertTopKeepsCover(InsertAll(values, init, nBest), last, other, nBest);
      }
    }
  }

  /** As many good values inserted, as many good values kept. */
  lemma {:induction false} InsertAllLeads(values: seq<Scored>, more: seq<Scored>, nBest: nat, total: real)
    requires Descending(values) && |values| <= nBest && nBest > 0
    requires |more| <= nBest && AllAtLeast(more, |more|, total)
    ensures AllAtLeast(InsertAll(values, more, nBest), |more|, total)
  {
    hide InsertTop;
    if more != [] {
      var init := more[..|more| - 1];
      InsertAllDescends(values, init, nBest);
      InsertAllLeads(values, init, nBest, total);
      InsertTopKeepsLead(InsertAll(values, init, nBest), more[|more| - 1], nBest, |init|, total);
    }
  }

  lemma {:induction false} InsertAllKeepsLead(values: seq<Scored>, more: seq<Scored>, nBest: nat, n: nat, total: real)
    requires Descending(values) && |values| <= nBest && nBest > 0 && AllAtLeast(values, n, total)
    ensures AllAtLeast(InsertAll(values, more, nBest), n, total)
  {
    hide InsertTop;
    if more != [] {
      var init := more[..|more| - 1];
      InsertAllDescends(values, init, nBest);
      InsertAllKeepsLead(values, init, nBest, n, total);
      InsertTopKeepsLead(InsertAll(values, init, nBest), more[|more| - 1], nBest, n, total);
    }
  }

  // ----- optimality -----

  lemma {:induction false} PredecessorsDescend(l: Lattice, v: nat, k: nat)
    requires Fits(l) && k <= v < |Nodes(l)|
    ensures Descending(PredecessorsFrom(l, v, k))
  {
    hide InsertAll, Completed, ConnectAll, Nodes;
    if k > 0 && Nodes(l)[v].from != 0 {
      PredecessorsDescend(l, v, k - 1);
      InsertAllDescends(PredecessorsFrom(l, v, k - 1), ConnectAll(Connection(l, k - 1, v), Completed(l, k - 1)), l.nBest);
    }
  }

  lemma {:induction false} PredecessorsStep(l: Lattice, v: nat, k: nat)
    requires Fits(l) && 0 < k <= v < |Nodes(l)| && Nodes(l)[v].from != 0
    ensures PredecessorsFrom(l, v, k)
            == if Nodes(l)[k - 1].to == Nodes(l)[v].from then
                 InsertAll(PredecessorsFrom(l, v, k - 1), ConnectAll(Connection(l, k - 1, v), Completed(l, k - 1)), l.nBest)
               else PredecessorsFrom(l, v, k - 1)
  {
    hide InsertAll, Completed, ConnectAll, Nodes;
  }

  /** What node `u` contributes to the list of `v` is covered from then on. */
  lemma {:induction false} ContributionCovered(l: Lattice, v: nat, u: nat, k: nat, path: Scored)
    requires Fits(l) && u < k <= v < |Nodes(l)| && Nodes(l)[u].to == Nodes(l)[v].from != 0
    requires Covered(Completed(l, u), path, l.nBest)
    ensures Covered(PredecessorsFrom(l, v, k), Connect(Connection(l, u, v), path), l.nBest)
  {
    hide InsertAll, Completed, Covered, Nodes, PredecessorsFrom;
    PredecessorsDescend(l, v, k - 1);
    PredecessorsStep(l, v, k);
    var before := PredecessorsFrom(l, v, k - 1);
    var more := ConnectAll(Connection(l, k - 1, v), Completed(l, k - 1));
    if k - 1 == u {
      InsertedCovered(before, Completed(l, u), Connection(l, u, v), path, l.nBest);
    } else {
      ContributionCovered(l, v, u, k - 1, path);
      InsertAllKeepsCover(before, more, l.nBest, Connect(Connection(l, u, v), path));
    }
  }

  lemma {:induction false} InsertedCovered(before: seq<Scored>, completed: seq<Scored>, connection: real, path: Scored, nBest: nat)
    requires Descending(before) && |before| <= nBest && nBest > 0 && Covered(completed, path, nBest)
    ensures Covered(InsertAll(before, ConnectAll(connection, completed), nBest), Connect(connection, path), nBest)
  {
    hide InsertAll;
    var more := ConnectAll(connection, completed);
    if path in completed {
      var i :| 0 <= i < |completed| && completed[i] == path;
      assert more[i] == Connect(connection, path);
      InsertAllKeepsCover(before, more, nBest, Connect(connection, path));
    } else {
      InsertAllLeads(before, more, nBest, Connect(connection, path).total);
    }
  }

  lemma {:induction false} ExtendKeepsCover(l: Lattice, v: nat, predecessors: seq<Scored>, predecessor: Scored)
    requires v < |Nodes(l)| && Covered(predecessors, predecessor, l.nBest)
    ensures Covered(ExtendAll(l, v, predecessors), Extend(l, v, predecessor), l.nBest)
  {
    hide Nodes;
    if predecessor in predecessors {
      var i :| 0 <= i < |predecessors| && predecessors[i] == predecessor;
      assert ExtendAll(l, v, predecessors)[i] == Extend(l, v, predecessor);
    }
  }

  /** Every path is among those its last node completes, or that node completes `nBest` paths that
      are all at least as good. */
  lemma {:induction false} PathsAreCovered(l: Lattice, path: seq<nat>)
    requires Fits(l) && IsPath(l, path)
    ensures Covered(Completed(l, path[|path| - 1]), Scored(path, Total(l, path)), l.nBest)
    decreases |path|
  {
    hide Covered, Nodes, PredecessorsFrom;
    var v := path[|path| - 1];
    var init := path[..|path| - 1];
    assert path == init + [v];
    if init == [] {
      StartCovered(l, v);
      ExtendKeepsCover(l, v, Predecessors(l, v), Scored([], 0.0));
    } else {
      var u := init[|init| - 1];
      PathsAreCovered(l, init);
      EarlierNode(l, u, v);
      NodeFacts(l, u);
      ContributionCovered(l, v, u, v, Scored(init, Total(l, init)));
      ExtendKeepsCover(l, v, Predecessors(l, v), Connect(Connection(l, u, v), Scored(init, Total(l, init))));
    }
  }

  lemma {:induction false} StartCovered(l: Lattice, v: nat)
    requires Fits(l) && v < |Nodes(l)| && Nodes(l)[v].from == 0
    ensures Covered(Predecessors(l, v), Scored([], 0.0), l.nBest)
  {
    hide Nodes;
  }

  // ----- soundness -----

  /** Listed paths end at node `v`, carry their exact totals, and differ from each other. */
  ghost predicate Genuine(l: Lattice, values: seq<Scored>, v: nat) {
    && Differ(values)
    && forall i :: 0 <= i < |values| ==> GenuineOne(l, values[i], v)
  }

  ghost predicate GenuineOne(l: Lattice, value: Scored, v: nat) {
    IsPath(l, value.path) && value.path[|value.path| - 1] == v && value.total == Total(l, value.path)
  }

  ghost predicate Differ(values: seq<Scored>) {
    forall i, j :: 0 <= i < j < |values| ==> values[i].path != values[j].path
  }

  /** Listed predecessors of `v` end at a node before `k` that leads to `v`. */
  ghost predicate LeadsTo(l: Lattice, value: Scored, v: nat, k: nat) {
    && v < |Nodes(l)| && IsPath(l, value.path) && value.path[|value.path| - 1] < k
    && Nodes(l)[value.path[|value.path| - 1]].to == Nodes(l)[v].from
    && value.total == Total(l, value.path) + Connection(l, value.path[|value.path| - 1], v)
  }

  ghost predicate AllLeadTo(l: Lattice, values: seq<Scored>, v: nat, k: nat) {
    forall i :: 0 <= i < |values| ==> LeadsTo(l, values[i], v, k)
  }

  lemma {:induction false} InsertTopMembers(values: seq<Scored>, value: Scored, nBest: nat)
    requires |values| <= nBest && nBest > 0
    ensures forall x :: x in InsertTop(values, value, nBest) ==> x in values || x == value
    ensures Differ(values) && (forall i :: 0 <= i < |values| ==> values[i].path != value.path) ==> Differ(InsertTop(values, value, nBest))
  {
    var index := InsertionPoint(values, value.total);
    if index != nBest {
      var r := InsertTop(values, value, nBest);
      assert forall i :: 0 <= i < index ==> r[i] == values[i];
      assert forall i :: index < i < |r| ==> r[i] == values[i - 1];
    }
  }

  lemma {:induction false} InsertAllMembers(values: seq<Scored>, more: seq<Scored>, nBest: nat)
    requires |values| <= nBest && nBest > 0 && Differ(values) && Differ(more)
    requires forall i, j :: 0 <= i < |values| && 0 <= j < |more| ==> values[i].path != more[j].path
    ensures forall x :: x in InsertAll(values, more, nBest) ==> x in values || x in more
    ensures Differ(InsertAll(values, more, nBest))
  {
    hide InsertTop;
    if more != [] {
      var init, last := more[..|more| - 1], more[|more| - 1];
      InsertAllMembers(values, init, nBest);
      var before := InsertAll(values, init, nBest);
      forall i | 0 <= i < |before|
        ensures before[i].path != last.path
      {
        assert before[i] in before;
      }
      InsertTopMembers(before, last, nBest);
      assert more == init + [last];
    }
  }

  lemma {:induction false} ConnectedLead(l: Lattice, completed: seq<Scored>, u: nat, v: nat)
    requires u < |Nodes(l)| && v < |Nodes(l)| && Nodes(l)[u].to == Nodes(l)[v].from && Genuine(l, completed, u)
    ensures AllLeadTo(l, ConnectAll(Connection(l, u, v), completed), v, u + 1)
    ensures Differ(ConnectAll(Connection(l, u, v), completed))
  {
    hide Nodes, IsPath, Total;
    forall i | 0 <= i < |completed|
      ensures LeadsTo(l, ConnectAll(Connection(l, u, v), completed)[i], v, u + 1)
    {
      assert GenuineOne(l, completed[i], u);
    }
  }

  /** The predecessors of a node that does not start the text are genuine. */
  lemma {:induction false} PredecessorsAreGenuine(l: Lattice, v: nat, k: nat)
    requires Fits(l) && k <= v < |Nodes(l)| && Nodes(l)[v].from != 0
    ensures AllLeadTo(l, PredecessorsFrom(l, v, k), v, k) && Differ(PredecessorsFrom(l, v, k))
    decreases v, 0, k
  {
    hide Nodes, InsertAll, Completed, LeadsTo, Genuine, ConnectAll;
    if k > 0 {
      PredecessorsAreGenuine(l, v, k - 1);
      var before := PredecessorsFrom(l, v, k - 1);
      WidenLead(l, before, v, k - 1);
      if Nodes(l)[k - 1].to == Nodes(l)[v].from {
        CompletedAreGenuine(l, k - 1);
        ConnectedLead(l, Completed(l, k - 1), k - 1, v);
        var more := ConnectAll(Connection(l, k - 1, v), Completed(l, k - 1));
        NewPathsDiffer(l, before, more, v, k - 1, Completed(l, k - 1));
        InsertAllMembers(before, more, l.nBest);
        var r := InsertAll(before, more, l.nBest);
        forall i | 0 <= i < |r|
          ensures LeadsTo(l, r[i], v, k)
        {
          assert r[i] in r;
        }
      }
    }
  }

  lemma {:induction false} WidenLead(l: Lattice, values: seq<Scored>, v: nat, k: nat)
    requires AllLeadTo(l, values, v, k)
    ensures AllLeadTo(l, values, v, k + 1)
  {
    hide Nodes, IsPath, Total;
    forall i | 0 <= i < |values|
      ensures LeadsTo(l, values[i], v, k + 1)
    {
      assert LeadsTo(l, values[i], v, k);
    }
  }

  /** Paths through an earlier node differ from paths through node `k`. */
  lemma {:induction false} NewPathsDiffer(l: Lattice, before: seq<Scored>, more: seq<Scored>, v: nat, k: nat, completed: seq<Scored>)
    requires k < |Nodes(l)| && v < |Nodes(l)| && AllLeadTo(l, before, v, k)
    requires Genuine(l, completed, k) && more == ConnectAll(Connection(l, k, v), completed)
    ensures forall i, j :: 0 <= i < |before| && 0 <= j < |more| ==> before[i].path != more[j].path
  {
    hide Nodes, IsPath, Total;
    forall i, j | 0 <= i < |before| && 0 <= j < |more|
      ensures before[i].path != more[j].path
    {
      assert LeadsTo(l, before[i], v, k);
      assert GenuineOne(l, completed[j], k);
    }
  }

  lemma {:induction false} ExtendedIsGenuine(l: Lattice, v: nat, predecessor: Scored)
    requires v < |Nodes(l)| && Nodes(l)[v].from != 0 && LeadsTo(l, predecessor, v, v)
    ensures GenuineOne(l, Extend(l, v, predecessor), v)
  {
    hide Nodes;
    var path := predecessor.path + [v];
    assert path[..|path| - 1] == predecessor.path;
  }

  lemma {:induction false} StartIsGenuine(l: Lattice, v: nat)
    requires v < |Nodes(l)| && Nodes(l)[v].from == 0
    ensures GenuineOne(l, Extend(l, v, Scored([], 0.0)), v)
  {
    hide Nodes;
    assert [] + [v] == [v];
  }

  /** What a node completes are different paths that end there, with their exact totals. */
  lemma {:induction false} CompletedAreGenuine(l: Lattice, v: nat)
    requires Fits(l) && v < |Nodes(l)|
    ensures Genuine(l, Completed(l, v), v)
    decreases v, 2
  {
    hide Nodes, GenuineOne, LeadsTo, IsPath, Extend, PredecessorsFrom;
    if Nodes(l)[v].from == 0 {
      StartIsGenuine(l, v);
      OnlyStart(l, v);
    } else {
      PredecessorsAreGenuine(l, v, v);
      var before := Predecessors(l, v);
      forall i | 0 <= i < |before|
        ensures GenuineOne(l, Extend(l, v, before[i]), v)
      {
        ExtendedIsGenuine(l, v, before[i]);
      }
      ExtendedDiffer(l, v, before);
    }
  }

  lemma {:induction false} OnlyStart(l: Lattice, v: nat)
    requires Fits(l) && v < |Nodes(l)| && Nodes(l)[v].from == 0
    ensures Completed(l, v) == [Extend(l, v, Scored([], 0.0))]
  {
    hide Nodes, Extend;
    assert Predecessors(l, v) == [Scored([], 0.0)];
    assert |Completed(l, v)| == 1;
  }

  lemma {:induction false} ExtendedDiffer(l: Lattice, v: nat, before: seq<Scored>)
    requires v < |Nodes(l)| && Differ(before)
    ensures Differ(ExtendAll(l, v, before))
  {
    hide Nodes;
    var r := ExtendAll(l, v, before);
    forall i, j | 0 <= i < j < |r|
      ensures r[i].path != r[j].path
    {
      LongerPathsDiffer(before[i].path, before[j].path, v);
    }
  }

  lemma {:induction false} LongerPathsDiffer(a: seq<nat>, b: seq<nat>, v: nat)
    ensures a != b ==> a + [v] != b + [v]
  {
    assert (a + [v])[..|a + [v]| - 1] == a && (b + [v])[..|b + [v]| - 1] == b;
  }

  // ----- the results -----

  lemma {:induction false} ResultsContain(l: Lattice, v: nat, k: nat)
    requires Fits(l) && v < k <= |Nodes(l)| && Nodes(l)[v].to == |l.words|
    ensures forall x :: x in Completed(l, v) ==> x in ResultsFrom(l, k)
  {
    hide Nodes, Completed;
    if v < k - 1 {
      ResultsContain(l, v, k - 1);
    }
  }

  lemma {:induction false} ResultsAreGenuine(l: Lattice, k: nat)
    requires Fits(l) && k <= |Nodes(l)|
    ensures Differ(ResultsFrom(l, k))
    ensures forall x :: x in ResultsFrom(l, k) ==>
              IsCompletePath(l, x.path) && x.path[|x.path| - 1] < k && x.total == Total(l, x.path)
  {
    hide Nodes, Completed, Total;
    if k > 0 {
      ResultsAreGenuine(l, k - 1);
      if Nodes(l)[k - 1].to == |l.words| {
        CompletedAreGenuine(l, k - 1);
        var before, more := ResultsFrom(l, k - 1), Completed(l, k - 1);
        forall j | 0 <= j < |more|
          ensures IsCompletePath(l, more[j].path) && more[j].path[|more[j].path| - 1] == k - 1 && more[j].total == Total(l, more[j].path)
        {
          assert GenuineOne(l, more[j], k - 1);
        }
        assert forall i :: 0 <= i < |before| ==> before[i] in before;
      } else {
        assert ResultsFrom(l, k) == ResultsFrom(l, k - 1);
      }
    }
  }

  /** N-best optimality: every result is a different complete path with its exact score; and every
      complete path is a result, or `nBest` results through its last word are at least as good. */
  lemma {:induction false} NBestIsOptimal(l: Lattice, path: seq<nat>)
    requires Fits(l) && IsCompletePath(l, path)
    ensures || Scored(path, Total(l, path)) in Results(l)
            || (var kept := Completed(l, path[|path| - 1]);
                && |kept| == l.nBest && Differ(kept)
                && forall x :: x in kept ==> x in Results(l) && x.total >= Total(l, path))
  {
    hide Nodes, Completed, Total;
    var v := path[|path| - 1];
    PathsAreCovered(l, path);
    ResultsContain(l, v, |Nodes(l)|);
    CompletedAreGenuine(l, v);
  }

  lemma {:induction false} ResultsAreExact(l: Lattice)
    requires Fits(l)
    ensures Differ(Results(l))
    ensures forall x :: x in Results(l) ==> IsCompletePath(l, x.path) && x.total == Total(l, x.path)
  {
    hide Nodes, IsPath, Total, ResultsFrom;
    ResultsAreGenuine(l, |Nodes(l)|);
  }

  /** In particular the best path is found. */
  lemma {:induction false} BestPathIsFound(l: Lattice, path: seq<nat>)
    requires Fits(l) && IsCompletePath(l, path)
    ensures exists x :: x in Results(l) && x.total >= Total(l, path)
  {
    hide Nodes, Completed, Total, Results;
    NBestIsOptimal(l, path);
    if Scored(path, Total(l, path)) !in Results(l) {
      var kept := Completed(l, path[|path| - 1]);
      assert kept[0] in kept;
    }
  }
}
