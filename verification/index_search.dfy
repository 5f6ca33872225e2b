/** What lookups find: sorted answers, prefix walks and bounded predictions. */
module IndexSearch {
  import opened Wrappers
  import opened Numbers
  import opened Bytes
  import opened Tries
  import opened TrieOrders

  // ----- sorting the found records -----

  function InsertSorted(s: seq<nat>, x: nat): seq<nat> {
    if s == [] || s[|s| - 1] <= x then s + [x]
    else InsertSorted(s[..|s| - 1], x) + [s[|s| - 1]]
  }

  function SortAscending(s: seq<nat>): seq<nat> {
    if s == [] then [] else InsertSorted(SortAscending(s[..|s| - 1]), s[|s| - 1])
  }

  ghost predicate AllAtMost(s: seq<nat>, x: nat) {
    forall i :: 0 <= i < |s| ==> s[i] <= x
  }

  lemma {:induction false} InsertSortedIsSorted(s: seq<nat>, x: nat)
    requires Sorted(s)
    ensures Sorted(InsertSorted(s, x))
    ensures forall y :: AllAtMost(s, y) && x <= y ==> AllAtMost(InsertSorted(s, x), y)
  {
    if s != [] && s[|s| - 1] > x {
      var init, last := s[..|s| - 1], s[|s| - 1];
      InsertSortedIsSorted(init, x);
      assert AllAtMost(init, last);
      assert AllAtMost(InsertSorted(init, x), last);
      forall y | AllAtMost(s, y) && x <= y
        ensures AllAtMost(InsertSorted(s, x), y)
      {
        assert AllAtMost(init, y);
        assert AllAtMost(InsertSorted(init, x), y);
      }
    }
  }

  lemma {:induction false} InsertSortedCounts(s: seq<nat>, x: nat, y: nat)
    ensures Count(InsertSorted(s, x), y) == Count(s, y) + if x == y then 1 else 0
  {
    if s == [] || s[|s| - 1] <= x {
      CountSnoc(s, x, y);
    } else {
      var init, last := s[..|s| - 1], s[|s| - 1];
      InsertSortedCounts(init, x, y);
      CountSnoc(InsertSorted(init, x), last, y);
    }
  }

  lemma {:induction false} SortAscendingIsSorted(s: seq<nat>)
    ensures Sorted(SortAscending(s))
  {
    if s != [] {
      SortAscendingIsSorted(s[..|s| - 1]);
      InsertSortedIsSorted(SortAscending(s[..|s| - 1]), s[|s| - 1]);
    }
  }

  lemma {:induction false} SortAscendingCounts(s: seq<nat>, y: nat)
    ensures Count(SortAscending(s), y) == Count(s, y)
  {
    if s != [] {
      SortAscendingCounts(s[..|s| - 1], y);
      InsertSortedCounts(SortAscending(s[..|s| - 1]), s[|s| - 1], y);
    }
  }

  /** A sorted list is determined by how often each value occurs. */
  lemma {:induction false} SortedIsUnique(a: seq<nat>, b: seq<nat>)
    requires Sorted(a) && Sorted(b) && forall x :: Count(a, x) == Count(b, x)
    ensures a == b
    decreases |a|
  {
    if a == [] {
      if b != [] {
        CountIn(b, b[0]);
      }
    } else {
      SameLast(a, b);
      var x := a[|a| - 1];
      var a', b' := a[..|a| - 1], b[..|b| - 1];
      forall y
        ensures Count(a', y) == Count(b', y)
      {
        assert Count(a, y) == Count(b, y);
      }
      SortedIsUnique(a', b');
      assert a == a' + [x] && b == b' + [x];
    }
  }

  lemma {:induction false} SameLast(a: seq<nat>, b: seq<nat>)
    requires Sorted(a) && Sorted(b) && a != [] && forall x :: Count(a, x) == Count(b, x)
    ensures b != [] && a[|a| - 1] == b[|b| - 1]
  {
    var x := a[|a| - 1];
    CountIn(a, x);
    assert Count(b, x) > 0;
    CountIn(b, x);
    var y := b[|b| - 1];
    CountIn(b, y);
    assert Count(a, y) > 0;
    CountIn(a, y);
    assert x <= y by {
      var i :| 0 <= i < |b| && b[i] == x;
    }
    assert y <= x by {
      var i :| 0 <= i < |a| && a[i] == y;
    }
  }

  // ----- found records -----

  /** `records` holds each answering record once, and nothing else. */
  ghost predicate Found(records: seq<nat>, kind: MatchKind, keys: seq<Option<Key>>, ids: Key) {
    forall i :: Count(records, i) == Count(Scan(kind, keys, |keys|, ids), i)
  }

  /** Sorting what was found gives exactly the linear scan. */
  lemma {:induction false} FoundSorted(records: seq<nat>, kind: MatchKind, keys: seq<Option<Key>>, ids: Key)
    requires Found(records, kind, keys, ids)
    ensures SortAscending(records) == Scan(kind, keys, |keys|, ids)
  {
    hide Count, Scan, SortAscending;
    SortAscendingIsSorted(records);
    ScanIsSorted(kind, keys, |keys|, ids);
    forall i: nat
      ensures Count(SortAscending(records), i) == Count(Scan(kind, keys, |keys|, ids), i)
    {
      SortAscendingCounts(records, i);
    }
    SortedIsUnique(SortAscending(records), Scan(kind, keys, |keys|, ids));
  }

  lemma {:induction false} FoundNothing(kind: MatchKind, keys: seq<Option<Key>>, ids: Key)
    requires forall i :: 0 <= i < |keys| ==> !Answers(kind, keys[i], ids)
    ensures Found([], kind, keys, ids)
  {
    hide Answers, Scan, Count;
    forall i: nat
      ensures Count([], i) == Count(Scan(kind, keys, |keys|, ids), i)
    {
      ScanCounts(kind, keys, |keys|, ids, i);
      NothingScanned(kind, keys, ids, i);
    }
  }

  lemma {:induction false} NoPrefixesOfNothing(keys: seq<Option<Key>>)
    ensures Found([], Prefixes, keys, [])
  {
    FoundNothing(Prefixes, keys, []);
  }

  /** One more id of the key adds the records that read exactly as far. */
  lemma {:induction false} PrefixesStep(records: seq<nat>, keys: seq<Option<Key>>, ids: Key, k: nat)
    requires k < |ids| && Found(records, Prefixes, keys, ids[..k])
    ensures Found(records + Scan(Exact, keys, |keys|, ids[..k + 1]), Prefixes, keys, ids[..k + 1])
  {
    hide Scan, Count;
    var more := Scan(Exact, keys, |keys|, ids[..k + 1]);
    forall i: nat
      ensures Count(records + more, i) == Count(Scan(Prefixes, keys, |keys|, ids[..k + 1]), i)
    {
      CountAppend(records, more, i);
      ScanCounts(Prefixes, keys, |keys|, ids[..k], i);
      ScanCounts(Prefixes, keys, |keys|, ids[..k + 1], i);
      ScanCounts(Exact, keys, |keys|, ids[..k + 1], i);
      assert Count(records, i) == Count(Scan(Prefixes, keys, |keys|, ids[..k]), i);
      if i < |keys| && keys[i].Some? {
        LongerPrefix(keys[i].value, ids, k);
      }
    }
  }

  lemma {:induction false} LongerPrefix(reading: Key, ids: Key, k: nat)
    requires k < |ids|
    ensures reading <= ids[..k + 1] <==> reading <= ids[..k] || reading == ids[..k + 1]
    ensures !(reading <= ids[..k] && reading == ids[..k + 1])
  {
    if reading <= ids[..k + 1] && |reading| <= k {
      assert reading == ids[..k + 1][..|reading|] == ids[..k][..|reading|];
    }
    if reading <= ids[..k] {
      assert reading == ids[..k][..|reading|] == ids[..k + 1][..|reading|];
    }
  }

  /** Where the walk stops, no reading goes on. */
  lemma {:induction false} StoppedWalk(keys: seq<Option<Key>>, ids: Key, k: nat, node: nat)
    requires k < |ids| && Walk(Build(keys, |keys|), 0, ids[..k]) == Some(node)
    requires ChildOf(Build(keys, |keys|), node, ids[k]).None?
    ensures forall i :: 0 <= i < |keys| && keys[i].Some? ==> !(ids[..k + 1] <= keys[i].value)
  {
    forall i | 0 <= i < |keys| && keys[i].Some?
      ensures !(ids[..k + 1] <= keys[i].value)
    {
      if ids[..k + 1] <= keys[i].value {
        assert ids[..k + 1] == ids[..k] + [ids[k]];
        ReadingsHaveNodes(keys, i, ids[..k + 1]);
        WalkChild(Build(keys, |keys|), ids[..k], ids[k]);
      }
    }
  }

  lemma {:induction false} StoppedPrefixes(records: seq<nat>, keys: seq<Option<Key>>, ids: Key, k: nat)
    requires k < |ids| && Found(records, Prefixes, keys, ids[..k])
    requires forall i :: 0 <= i < |keys| && keys[i].Some? ==> !(ids[..k + 1] <= keys[i].value)
    ensures Found(records, Prefixes, keys, ids)
  {
    hide Scan, Count;
    forall i: nat
      ensures Count(records, i) == Count(Scan(Prefixes, keys, |keys|, ids), i)
    {
      ScanCounts(Prefixes, keys, |keys|, ids[..k], i);
      ScanCounts(Prefixes, keys, |keys|, ids, i);
      assert Count(records, i) == Count(Scan(Prefixes, keys, |keys|, ids[..k]), i);
      if i < |keys| && keys[i].Some? {
        ShortPrefix(keys[i].value, ids, k);
      }
    }
  }

  lemma {:induction false} ShortPrefix(reading: Key, ids: Key, k: nat)
    requires k < |ids| && !(ids[..k + 1] <= reading)
    ensures reading <= ids <==> reading <= ids[..k]
  {
    if reading <= ids && |reading| <= k {
      assert reading == ids[..|reading|] == ids[..k][..|reading|];
    }
    if reading <= ids[..k] {
      assert reading == ids[..k][..|reading|] == ids[..|reading|];
    }
  }

  lemma {:induction false} LongerKey(reading: Key, ids: Key, k: nat)
    requires k < |ids|
    ensures ids <= reading ==> ids[..k + 1] <= reading
  {
  }

  lemma {:induction false} StoppedOthers(kind: MatchKind, keys: seq<Option<Key>>, ids: Key, k: nat)
    requires k < |ids| && kind != Prefixes
    requires forall i :: 0 <= i < |keys| && keys[i].Some? ==> !(ids[..k + 1] <= keys[i].value)
    ensures Found([], kind, keys, ids)
  {
    forall i | 0 <= i < |keys| && keys[i].Some?
      ensures !(ids <= keys[i].value)
    {
      LongerKey(keys[i].value, ids, k);
    }
    FoundNothing(kind, keys, ids);
  }

  lemma {:induction false} FoundSubtree(keys: seq<Option<Key>>, ids: Key, edge: Edge)
    requires Walk(Build(keys, |keys|), 0, ids) == Some(edge.node)
    ensures Inside(Build(keys, |keys|), Subtree(Build(keys, |keys|), edge))
    ensures Found(Collected(Build(keys, |keys|), Subtree(Build(keys, |keys|), edge)), Completions, keys, ids)
  {
    hide Scan, Count, Subtree, Collected, Walk, Build;
    var nodes := Build(keys, |keys|);
    SubtreeInside(nodes, edge);
    forall i: nat
      ensures Count(Collected(nodes, Subtree(nodes, edge)), i) == Count(Scan(Completions, keys, |keys|, ids), i)
    {
      SubtreeCounts(keys, ids, edge, i);
      ScanCounts(Completions, keys, |keys|, ids, i);
    }
  }

  // ----- bounded predictions -----

  /** `descendants_from`, on the nodes the numbers stand for: all children first, then the
      descendants of each child while the output is not larger than the limit. */
  function Bounded(nodes: seq<TrieNode>, node: nat, limit: nat): seq<Edge>
    requires WellFormed(nodes) && node < |nodes|
    decreases |nodes| - node, 1, 0
  {
    BoundedFrom(nodes, node, 0, Children(nodes, node), limit)
  }

  function BoundedFrom(nodes: seq<TrieNode>, node: nat, j: nat, output: seq<Edge>, limit: nat): seq<Edge>
    requires WellFormed(nodes) && node < |nodes| && j <= |Children(nodes, node)|
    decreases |nodes| - node, 0, |Children(nodes, node)| - j
  {
    var children := Children(nodes, node);
    if j == |children| || |output| > limit then output
    else
      ChildrenAreLater(nodes, node);
      BoundedFrom(nodes, node, j + 1, output + Bounded(nodes, children[j].node, Minus(limit, |output|)), limit)
  }

  /** The number of strict descendants of a node. */
  function Total(nodes: seq<TrieNode>, node: nat): nat
    requires WellFormed(nodes) && node < |nodes|
    decreases |nodes| - node, 1, 0
  {
    |Children(nodes, node)| + TotalFrom(nodes, node, 0)
  }

  function TotalFrom(nodes: seq<TrieNode>, node: nat, j: nat): nat
    requires WellFormed(nodes) && node < |nodes| && j <= |Children(nodes, node)|
    decreases |nodes| - node, 0, |Children(nodes, node)| - j
  {
    var children := Children(nodes, node);
    if j == |children| then 0
    else
      ChildrenAreLater(nodes, node);
      Total(nodes, children[j].node) + TotalFrom(nodes, node, j + 1)
  }

  /** The families of children below a node: its own, then those below each child in turn. */
  function Families(nodes: seq<TrieNode>, node: nat): seq<seq<Edge>>
    requires WellFormed(nodes) && node < |nodes|
    decreases |nodes| - node, 1, 0
  {
    [Children(nodes, node)] + FamiliesFrom(nodes, node, 0)
  }

  function FamiliesFrom(nodes: seq<TrieNode>, node: nat, j: nat): seq<seq<Edge>>
    requires WellFormed(nodes) && node < |nodes| && j <= |Children(nodes, node)|
    decreases |nodes| - node, 0, |Children(nodes, node)| - j
  {
    var children := Children(nodes, node);
    if j == |children| then []
    else
      ChildrenAreLater(nodes, node);
      Families(nodes, children[j].node) + FamiliesFrom(nodes, node, j + 1)
  }

  /** Whole families in order, until they have more members than the limit. */
  function TakenUpTo(families: seq<seq<Edge>>, limit: nat): seq<Edge> {
    if families == [] then []
    else if |families[0]| > limit then families[0]
    else families[0] + TakenUpTo(families[1..], limit - |families[0]|)
  }

  lemma {:induction false} TakenAppend(a: seq<seq<Edge>>, b: seq<seq<Edge>>, limit: nat)
    ensures TakenUpTo(a + b, limit)
            == TakenUpTo(a, limit)
               + if |TakenUpTo(a, limit)| > limit then [] else TakenUpTo(b, limit - |TakenUpTo(a, limit)|)
    decreases |a|
  {
    if a == [] {
      assert a + b == b;
    } else {
      assert (a + b)[1..] == a[1..] + b;
      if |a[0]| <= limit {
        TakenAppend(a[1..], b, limit - |a[0]|);
      }
    }
  }

  /** The recursion that hands what is left of the limit from child to child takes families in
      order under the one limit. */
  lemma {:induction false} BoundedIsFlat(nodes: seq<TrieNode>, node: nat, limit: nat)
    requires WellFormed(nodes) && node < |nodes|
    ensures Bounded(nodes, node, limit) == TakenUpTo(Families(nodes, node), limit)
    decreases |nodes| - node, 1, 0
  {
    hide Children, BoundedFrom;
    var children := Children(nodes, node);
    BoundedFromIsFlat(nodes, node, 0, children, limit);
    assert Families(nodes, node)[1..] == FamiliesFrom(nodes, node, 0);
    assert children + [] == children;
  }

  lemma {:induction false} BoundedFromIsFlat(nodes: seq<TrieNode>, node: nat, j: nat, output: seq<Edge>, limit: nat)
    requires WellFormed(nodes) && node < |nodes| && j <= |Children(nodes, node)|
    ensures BoundedFrom(nodes, node, j, output, limit)
            == output + if |output| > limit then [] else TakenUpTo(FamiliesFrom(nodes, node, j), limit - |output|)
    decreases |nodes| - node, 0, |Children(nodes, node)| - j
  {
    hide Children, Bounded, Families;
    var children := Children(nodes, node);
    if j == |children| || |output| > limit {
      assert output + [] == output;
    } else {
      ChildrenAreLater(nodes, node);
      var child, left := children[j].node, limit - |output|;
      BoundedIsFlat(nodes, child, left);
      var deeper := Bounded(nodes, child, left);
      BoundedFromIsFlat(nodes, node, j + 1, output + deeper, limit);
      TakenAppend(Families(nodes, child), FamiliesFrom(nodes, node, j + 1), left);
      if |deeper| <= left {
        var rest := TakenUpTo(FamiliesFrom(nodes, node, j + 1), left - |deeper|);
        assert (output + deeper) + rest == output + (deeper + rest);
      } else {
        assert (output + deeper) + [] == output + (deeper + []);
      }
    }
  }

  predicate StrictlyExtends(keys: seq<Option<Key>>, i: nat, p: Key) {
    Extends(keys, i, p) && !ReadsAs(keys, i, p)
  }

  /** Some child from index `j` on lies strictly inside the way to record `i`. */
  predicate StrictlyVia(keys: seq<Option<Key>>, i: nat, p: Key, edges: seq<Edge>, j: nat) {
    exists m :: j <= m < |edges| && StrictlyExtends(keys, i, p + [edges[m].id])
  }

  predicate ReadsAsChild(keys: seq<Option<Key>>, i: nat, p: Key, edges: seq<Edge>, k: nat)
    requires k <= |edges|
  {
    exists m :: 0 <= m < k && ReadsAs(keys, i, p + [edges[m].id])
  }

  /** The nodes above all share one path: at most one child is on the way to a record. */
  lemma {:induction false} SameChild(keys: seq<Option<Key>>, i: nat, p: Key, edges: seq<Edge>, m: nat, n: nat)
    requires AscendingIds(edges) && m < |edges| && n < |edges|
    requires Extends(keys, i, p + [edges[m].id]) && Extends(keys, i, p + [edges[n].id])
    ensures m == n
  {
    var key := keys[i].value;
    assert key[|p|] == (p + [edges[m].id])[|p|] == edges[m].id;
    assert key[|p|] == (p + [edges[n].id])[|p|] == edges[n].id;
  }

  lemma {:induction false} DirectCounts(keys: seq<Option<Key>>, p: Key, node: nat, k: nat, i: nat)
    requires Walk(Build(keys, |keys|), 0, p) == Some(node)
    requires k <= |Children(Build(keys, |keys|), node)|
    ensures var nodes := Build(keys, |keys|);
            var edges := Children(nodes, node);
            && Inside(nodes, edges[..k])
            && Count(Collected(nodes, edges[..k]), i) == if ReadsAsChild(keys, i, p, edges, k) then 1 else 0
    decreases k
  {
    hide Walk, Build, Count;
    var nodes := Build(keys, |keys|);
    var edges := Children(nodes, node);
    ChildrenAreLater(nodes, node);
    if k == 0 {
      NothingScanned(Exact, keys, p, i);
    } else {
      ChildStep(keys, p, node, k);
      DirectCounts(keys, p, node, k - 1, i);
      HereCounts(keys, p + [edges[k - 1].id], edges[k - 1].node, i);
      assert edges[..k] == edges[..k - 1] + [edges[k - 1]];
      CollectedOne(nodes, edges[k - 1]);
      CollectedAppend(nodes, edges[..k - 1], [edges[k - 1]]);
      CountAppend(Collected(nodes, edges[..k - 1]), nodes[edges[k - 1].node].records, i);
      OnlyOneReads(keys, i, p, edges, k);
    }
  }

  lemma {:induction false} OnlyOneReads(keys: seq<Option<Key>>, i: nat, p: Key, edges: seq<Edge>, k: nat)
    requires AscendingIds(edges) && 0 < k <= |edges|
    ensures ReadsAsChild(keys, i, p, edges, k) <==>
            ReadsAsChild(keys, i, p, edges, k - 1) || ReadsAs(keys, i, p + [edges[k - 1].id])
    ensures !(ReadsAsChild(keys, i, p, edges, k - 1) && ReadsAs(keys, i, p + [edges[k - 1].id]))
  {
    if ReadsAsChild(keys, i, p, edges, k - 1) && ReadsAs(keys, i, p + [edges[k - 1].id]) {
      var m :| 0 <= m < k - 1 && ReadsAs(keys, i, p + [edges[m].id]);
      SameChild(keys, i, p, edges, m, k - 1);
    }
  }

  /** The bounded walk finds a record at most once and only if its reading strictly extends
      the key; and it finds all of those when the descendants fit the limit. */
  lemma {:induction false} BoundedCounts(keys: seq<Option<Key>>, p: Key, node: nat, limit: nat, i: nat)
    requires Walk(Build(keys, |keys|), 0, p) == Some(node)
    ensures var nodes := Build(keys, |keys|);
            var found := Bounded(nodes, node, limit);
            var expected := if StrictlyExtends(keys, i, p) then 1 else 0;
            && Inside(nodes, found)
            && Count(Collected(nodes, found), i) <= expected
            && (Total(nodes, node) <= limit ==>
                  Count(Collected(nodes, found), i) == expected && |found| == Total(nodes, node))
    decreases |Build(keys, |keys|)| - node, 1, 0
  {
    hide Walk, Build, Count, Collected;
    var nodes := Build(keys, |keys|);
    var edges := Children(nodes, node);
    ChildrenAreLater(nodes, node);
    assert edges[..|edges|] == edges;
    DirectCounts(keys, p, node, |edges|, i);
    BoundedFromCounts(keys, p, node, 0, edges, limit, i);
    StrictlyIsChildOrVia(keys, i, p, node);
  }

  lemma {:induction false} StrictlyIsChildOrVia(keys: seq<Option<Key>>, i: nat, p: Key, node: nat)
    requires Walk(Build(keys, |keys|), 0, p) == Some(node)
    ensures var edges := Children(Build(keys, |keys|), node);
            && (StrictlyExtends(keys, i, p) <==> ReadsAsChild(keys, i, p, edges, |edges|) || StrictlyVia(keys, i, p, edges, 0))
            && !(ReadsAsChild(keys, i, p, edges, |edges|) && StrictlyVia(keys, i, p, edges, 0))
  {
    hide Walk, Build;
    var edges := Children(Build(keys, |keys|), node);
    ExtendsOrHere(keys, i, p, node);
    if StrictlyExtends(keys, i, p) {
      var m :| 0 <= m < |edges| && Extends(keys, i, p + [edges[m].id]);
      if !ReadsAs(keys, i, p + [edges[m].id]) {
        assert StrictlyExtends(keys, i, p + [edges[m].id]);
      }
    }
    if ReadsAsChild(keys, i, p, edges, |edges|) {
      var m :| 0 <= m < |edges| && ReadsAs(keys, i, p + [edges[m].id]);
      assert Extends(keys, i, p + [edges[m].id]);
      if StrictlyVia(keys, i, p, edges, 0) {
        var n :| 0 <= n < |edges| && StrictlyExtends(keys, i, p + [edges[n].id]);
        WellFormedAscends(Build(keys, |keys|), node);
        SameChild(keys, i, p, edges, m, n);
      }
    }
    if StrictlyVia(keys, i, p, edges, 0) {
      var n :| 0 <= n < |edges| && StrictlyExtends(keys, i, p + [edges[n].id]);
      assert Extends(keys, i, p + [edges[n].id]);
    }
  }

  lemma {:induction false} WellFormedAscends(nodes: seq<TrieNode>, node: nat)
    requires WellFormed(nodes) && node < |nodes|
    ensures AscendingIds(Children(nodes, node))
  {
  }

  lemma {:induction false} BoundedFromCounts(keys: seq<Option<Key>>, p: Key, node: nat, j: nat, output: seq<Edge>, limit: nat, i: nat)
    requires Walk(Build(keys, |keys|), 0, p) == Some(node)
    requires j <= |Children(Build(keys, |keys|), node)| && Inside(Build(keys, |keys|), output)
    ensures var nodes := Build(keys, |keys|);
            var found := BoundedFrom(nodes, node, j, output, limit);
            var more := if StrictlyVia(keys, i, p, Children(nodes, node), j) then 1 else 0;
            && Inside(nodes, found)
            && Count(Collected(nodes, found), i) <= Count(Collected(nodes, output), i) + more
            && (|output| + TotalFrom(nodes, node, j) <= limit ==>
                  && Count(Collected(nodes, found), i) == Count(Collected(nodes, output), i) + more
                  && |found| == |output| + TotalFrom(nodes, node, j))
    decreases |Build(keys, |keys|)| - node, 0, |Children(Build(keys, |keys|), node)| - j
  {
    hide Walk, Build, Count, Collected, Bounded, Total;
    var nodes := Build(keys, |keys|);
    var edges := Children(nodes, node);
    if j < |edges| {
      ChildrenAreLater(nodes, node);
      ChildStep(keys, p, node, j + 1);
      StrictlyViaNext(keys, i, p, edges, j);
      if |output| <= limit {
        var e := edges[j];
        var deeper := Bounded(nodes, e.node, Minus(limit, |output|));
        BoundedCounts(keys, p + [e.id], e.node, Minus(limit, |output|), i);
        CollectedAppend(nodes, output, deeper);
        CountAppend(Collected(nodes, output), Collected(nodes, deeper), i);
        BoundedFromCounts(keys, p, node, j + 1, output + deeper, limit, i);
      }
    }
  }

  lemma {:induction false} StrictlyViaNext(keys: seq<Option<Key>>, i: nat, p: Key, edges: seq<Edge>, j: nat)
    requires AscendingIds(edges) && j < |edges|
    ensures StrictlyVia(keys, i, p, edges, j) <==>
            StrictlyExtends(keys, i, p + [edges[j].id]) || StrictlyVia(keys, i, p, edges, j + 1)
    ensures !(StrictlyExtends(keys, i, p + [edges[j].id]) && StrictlyVia(keys, i, p, edges, j + 1))
  {
    if StrictlyExtends(keys, i, p + [edges[j].id]) && StrictlyVia(keys, i, p, edges, j + 1) {
      var m :| j + 1 <= m < |edges| && StrictlyExtends(keys, i, p + [edges[m].id]);
      SameChild(keys, i, p, edges, j, m);
    }
  }
}
