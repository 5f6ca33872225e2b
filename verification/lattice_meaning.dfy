/** What the totals of the lattice search add up, and over which sentences (`lattice.rs`). */
module LatticeMeanings {
  import opened Wrappers
  import opened LatticeIndices
  import opened Lattices
  import opened InputTables
  import opened Segments
  import opened Composing

  /** Words that follow each other from the start of the text. */
  ghost predicate FollowEachOther(l: Lattice, path: seq<nat>) {
    && path != [] && (forall i :: 0 <= i < |path| ==> path[i] < |Nodes(l)|)
    && Nodes(l)[path[0]].from == 0
    && forall i :: 0 <= i < |path| - 1 ==> Nodes(l)[path[i]].to == Nodes(l)[path[i + 1]].from
  }

  lemma {:induction false} PathsFollow(l: Lattice, path: seq<nat>)
    requires Fits(l)
    ensures IsPath(l, path) <==> FollowEachOther(l, path)
    ensures IsCompletePath(l, path) <==> FollowEachOther(l, path) && Nodes(l)[path[|path| - 1]].to == |l.words|
    decreases |path|
  {
    hide Nodes;
    if |path| > 1 {
      var init := path[..|path| - 1];
      PathsFollow(l, init);
      assert forall i :: 0 <= i < |init| ==> init[i] == path[i];
      if FollowEachOther(l, path) {
        assert Nodes(l)[path[|path| - 2]].to == Nodes(l)[path[|path| - 2 + 1]].from;
      }
      if IsPath(l, path) {
        forall i | 0 <= i < |path| - 1
          ensures Nodes(l)[path[i]].to == Nodes(l)[path[i + 1]].from
        {
          if i < |init| - 1 {
            assert Nodes(l)[init[i]].to == Nodes(l)[init[i + 1]].from;
          }
        }
      }
    }
  }

  /** The score of words read from the front: for each of them its own value, and the cost of
      putting its left id behind the right id of what stands before it. */
  ghost function Score(l: Lattice, path: seq<nat>, rightId: nat): real
    requires forall i :: 0 <= i < |path| ==> path[i] < |Nodes(l)|
  {
    if path == [] then 0.0
    else
      var word := Nodes(l)[path[0]].word;
      l.cost(rightId, word.leftId) + word.value + Score(l, path[1..], word.rightId)
  }

  lemma {:induction false} ScoreOneMore(l: Lattice, path: seq<nat>, v: nat, rightId: nat)
    requires path != [] && v < |Nodes(l)| && forall i :: 0 <= i < |path| ==> path[i] < |Nodes(l)|
    ensures Score(l, path + [v], rightId)
            == Score(l, path, rightId) + l.cost(Nodes(l)[path[|path| - 1]].word.rightId, Nodes(l)[v].word.leftId) + Nodes(l)[v].word.value
  {
    hide Nodes;
    var word := Nodes(l)[path[0]].word;
    assert (path + [v])[1..] == path[1..] + [v];
    if |path| == 1 {
      assert path[1..] == [] && [v][1..] == [];
      assert Score(l, [v], word.rightId) == l.cost(word.rightId, Nodes(l)[v].word.leftId) + Nodes(l)[v].word.value + Score(l, [v][1..], Nodes(l)[v].word.rightId);
    } else {
      ScoreOneMore(l, path[1..], v, word.rightId);
    }
  }

  /** The total of a path is that score behind the context. */
  lemma {:induction false} TotalIsScore(l: Lattice, path: seq<nat>)
    requires Fits(l) && IsPath(l, path)
    ensures forall i :: 0 <= i < |path| ==> path[i] < |Nodes(l)|
    ensures Total(l, path) == Score(l, path, l.contextRightId)
    decreases |path|
  {
    hide Nodes;
    PathsFollow(l, path);
    if |path| == 1 {
      assert path[1..] == [];
      assert Score(l, path[1..], Nodes(l)[path[0]].word.rightId) == 0.0;
    } else {
      var init, v := path[..|path| - 1], path[|path| - 1];
      TotalIsScore(l, init);
      ScoreOneMore(l, init, v, l.contextRightId);
      assert path == init + [v];
      NodeFacts(l, path[|path| - 2]);
    }
  }

  /** The search in plain words: every result is a sentence over the whole text, with its score,
      and no sentence over the whole text scores higher than all of them. */
  lemma {:induction false} SearchMeans(l: Lattice, path: seq<nat>)
    requires Fits(l)
    ensures forall i :: 0 <= i < |Results(l)| ==>
              var found := Results(l)[i];
              && FollowEachOther(l, found.path) && Nodes(l)[found.path[|found.path| - 1]].to == |l.words|
              && found.total == Score(l, found.path, l.contextRightId)
    ensures FollowEachOther(l, path) && Nodes(l)[path[|path| - 1]].to == |l.words| ==>
              exists x :: x in Results(l) && x.total >= Score(l, path, l.contextRightId)
  {
    hide Nodes, Results, Score, IsPath, Total;
    ResultsAreExact(l);
    forall i | 0 <= i < |Results(l)|
      ensures FollowEachOther(l, Results(l)[i].path)
      ensures Results(l)[i].total == Score(l, Results(l)[i].path, l.contextRightId)
    {
      PathsFollow(l, Results(l)[i].path);
      TotalIsScore(l, Results(l)[i].path);
    }
    PathsFollow(l, path);
    if IsCompletePath(l, path) {
      BestPathIsFound(l, path);
      TotalIsScore(l, path);
    }
  }

  // ----- where keystrokes and text meet -----

  ghost predicate AllDirect(elements: seq<InputElement>) {
    forall i :: 0 <= i < |elements| ==> elements[i].style == Direct && elements[i].piece.Character?
  }

  /** Characters typed directly delete nothing and show one grapheme each. */
  lemma {:induction false} DirectIsClean(reg: Registry, segments: seq<Segment>, elements: seq<InputElement>, kept: nat)
    requires AllDirect(elements) && kept <= |Flat(segments)|
    ensures Clean(reg, segments, elements, kept)
    ensures |Flat(Run(reg, segments, elements))| == |Flat(segments)| + |elements|
    decreases |elements|
  {
    if elements != [] {
      var e := elements[0];
      if segments != [] && segments[|segments| - 1].style == Direct {
        StepSameStyle(reg, segments, e);
      } else {
        StepNewStyle(reg, segments, e);
      }
      DirectIsClean(reg, Step(reg, segments, e).segments, elements[1..], kept);
    }
  }

  lemma {:induction false} DirectCuts(reg: Registry, input: seq<InputElement>, i: nat)
    requires AllDirect(input) && i <= |input|
    ensures CleanCut(reg, input, i) && |Convert(reg, input[..i])| == i
  {
    DirectIsClean(reg, [], input[..i], 0);
    DirectIsClean(reg, Run(reg, [], input[..i]), input[i..], i);
  }

  /** The map of a text relates exactly the clean cuts of its keystrokes to the text shown before
      them; the short cut for text typed directly changes nothing. */
  lemma {:induction false} TextMapMeans(reg: Registry, t: Text, i: nat)
    requires t.surface == Convert(reg, t.input)
    ensures i in InputToSurfaceMap(reg, t) <==> i <= |t.input| && CleanCut(reg, t.input, i)
    ensures i in InputToSurfaceMap(reg, t) ==> InputToSurfaceMap(reg, t)[i] == |Convert(reg, t.input[..i])|
  {
    hide Convert, CleanCut, Boundaries, ListsCleanCuts;
    if HasIdentityMapping(t) {
      assert AllDirect(t.input);
      if i <= |t.input| {
        DirectCuts(reg, t.input, i);
      }
    } else {
      MapOfBoundaries(reg, t.input, i);
    }
  }

  lemma {:induction false} MapOfBoundaries(reg: Registry, input: seq<InputElement>, i: nat)
    ensures i in BoundaryMap(Boundaries(reg, input)) <==> i <= |input| && CleanCut(reg, input, i)
    ensures i in BoundaryMap(Boundaries(reg, input)) ==> BoundaryMap(Boundaries(reg, input))[i] == |Convert(reg, input[..i])|
  {
    hide Convert, CleanCut, Boundaries, BoundaryMap;
    var b := Boundaries(reg, input);
    BoundariesAreCleanCuts(reg, input);
    BoundaryMapIs(b);
    if i in BoundaryMap(b) {
      var k :| 0 <= k < |b| && b[k].input == i;
      assert IsBoundary(reg, input, b[k]);
    }
    if i <= |input| && CleanCut(reg, input, i) {
      var p := IndexPair(i, |Convert(reg, input[..i])|);
      assert IsBoundary(reg, input, p);
      var k :| 0 <= k < |b| && b[k] == p;
      assert b[k].input == i;
    }
  }

  /** At every place where the two spaces meet, the keystrokes before it show the text before it, and
      those behind it the text behind it. */
  lemma {:induction false} TextMapSplits(reg: Registry, t: Text, i: nat)
    requires SilentRegistry(reg) && t.surface == Convert(reg, t.input) && i in InputToSurfaceMap(reg, t)
    ensures i <= |t.input| && InputToSurfaceMap(reg, t)[i] <= |t.surface|
    ensures Convert(reg, t.input[..i]) == t.surface[..InputToSurfaceMap(reg, t)[i]]
    ensures Convert(reg, t.input[i..]) == t.surface[InputToSurfaceMap(reg, t)[i]..]
  {
    hide Convert, CleanCut, InputToSurfaceMap, SilentRegistry;
    TextMapMeans(reg, t, i);
    CleanCutFactors(reg, t.input, i);
  }

  /** A text position is paired with a keystroke position shown there, if there is one. */
  lemma {:induction false} DualMeans(m: DualIndexMap, inputCount: nat, surfaceCount: nat, surface: nat)
    requires Relates(m, inputCount, surfaceCount) && surface <= surfaceCount
    ensures match DualOfSurface(m, surface)
            case Both(i, s) => s == surface && i in m.inputToSurface && m.inputToSurface[i] == surface
            case SurfaceOnly(s) => s == surface && forall i :: i in m.inputToSurface ==> m.inputToSurface[i] != surface
            case InputOnly(_) => false
  {
  }
}
