/** The composing buffer (`input/composing.rs`) on values: raw keystrokes, the converted
    text and a cursor, kept in step under edits anywhere in the text. */
module Composing {
  import opened Wrappers
  import opened Numbers
  import opened InputTables
  import opened Segments

  datatype Text = Text(input: seq<InputElement>, surface: seq<Grapheme>, cursor: nat)

  const EMPTY_TEXT := Text([], [], 0)

  /** The shown text is the conversion of the keystrokes. */
  predicate Valid(reg: Registry, t: Text) {
    t.surface == Convert(reg, t.input) && t.cursor <= |t.surface|
  }

  // ----- independent boundaries -----

  datatype IndexPair = IndexPair(input: nat, surface: nat)

  /** Popping boundaries that a deletion has reached. */
  function DropAbove(boundaries: seq<IndexPair>, limit: nat): (r: seq<IndexPair>)
    ensures r <= boundaries
    ensures r != [] ==> r[|r| - 1].surface <= limit
    ensures |r| < |boundaries| ==> boundaries[|r|].surface > limit
  {
    if boundaries == [] || boundaries[|boundaries| - 1].surface <= limit then boundaries
    else DropAbove(boundaries[..|boundaries| - 1], limit)
  }

  function Boundaries(reg: Registry, input: seq<InputElement>): seq<IndexPair> {
    if input == [] then [IndexPair(0, 0)]
    else
      var init := input[..|input| - 1];
      var segments := Run(reg, [], init);
      var step := Step(reg, segments, input[|input| - 1]);
      DropAbove(Boundaries(reg, init), Minus(|Flat(segments)|, step.deleted))
      + [IndexPair(|input|, |Flat(step.segments)|)]
  }

  ghost predicate Ascending(b: seq<IndexPair>) {
    forall i, j :: 0 <= i < j < |b| ==> b[i].input < b[j].input && b[i].surface <= b[j].surface
  }

  ghost predicate IsBoundary(reg: Registry, input: seq<InputElement>, p: IndexPair) {
    p.input <= |input| && p.surface == |Convert(reg, input[..p.input])| && CleanCut(reg, input, p.input)
  }

  /** `b` lists exactly the clean cuts of the input, in order, with their surface positions. */
  ghost predicate ListsCleanCuts(reg: Registry, input: seq<InputElement>, b: seq<IndexPair>) {
    && Ascending(b)
    && |b| > 0 && b[0] == IndexPair(0, 0) && b[|b| - 1] == IndexPair(|input|, |Convert(reg, input)|)
    && (forall k :: 0 <= k < |b| ==> IsBoundary(reg, input, b[k]))
    && (forall p :: IsBoundary(reg, input, p) ==> p in b)
  }

  lemma {:induction false} BoundarySnoc(reg: Registry, init: seq<InputElement>, e: InputElement, p: IndexPair)
    requires p.input <= |init|
    ensures IsBoundary(reg, init + [e], p) <==>
            && IsBoundary(reg, init, p)
            && p.surface + Step(reg, Run(reg, [], init), e).deleted <= |Convert(reg, init)|
  {
    hide Step, Clean, Flat, Run;
    var a, b := init[..p.input], init[p.input..];
    assert (init + [e])[..p.input] == a && (init + [e])[p.input..] == b + [e];
    assert a + b == init;
    var left := Run(reg, [], a);
    RunAppend(reg, [], a, b);
    CleanAppend(reg, left, b, [e], |Flat(left)|);
    CleanOne(reg, Run(reg, left, b), e, |Flat(left)|);
  }

  lemma {:induction false} WholeInputIsBoundary(reg: Registry, input: seq<InputElement>)
    ensures IsBoundary(reg, input, IndexPair(|input|, |Convert(reg, input)|))
  {
    assert input[..|input|] == input;
  }

  lemma {:induction false} DropAboveKeepsExactly(b: seq<IndexPair>, limit: nat, p: IndexPair)
    requires Ascending(b)
    ensures p in DropAbove(b, limit) <==> p in b && p.surface <= limit
  {
    var r := DropAbove(b, limit);
    assert r == b[..|r|];
    if p in b {
      var k :| 0 <= k < |b| && b[k] == p;
      if k < |r| {
        assert r[k] == p;
        assert k < |r| - 1 ==> b[k].surface <= b[|r| - 1].surface;
      } else {
        assert k > |r| ==> b[|r|].surface <= b[k].surface;
      }
    }
  }

  /** The incremental pop-and-push computation finds every clean cut and nothing else. */
  lemma {:induction false} BoundariesAreCleanCuts(reg: Registry, input: seq<InputElement>)
    ensures ListsCleanCuts(reg, input, Boundaries(reg, input))
  {
    if input == [] {
      assert input[..0] == [];
      forall p | IsBoundary(reg, input, p)
        ensures p in Boundaries(reg, input)
      {
        assert p == IndexPair(0, 0);
      }
    } else {
      var init, e := input[..|input| - 1], input[|input| - 1];
      assert input == init + [e];
      BoundariesAreCleanCuts(reg, init);
      BoundariesSnoc(reg, init, e);
    }
  }

  lemma {:induction false} BoundariesSnoc(reg: Registry, init: seq<InputElement>, e: InputElement)
    requires ListsCleanCuts(reg, init, Boundaries(reg, init))
    ensures ListsCleanCuts(reg, init + [e], Boundaries(reg, init + [e]))
  {
    hide IsBoundary, Convert, DropAbove, Step, SnocLimit;
    var all := Boundaries(reg, init);
    var limit := SnocLimit(reg, init, e);
    var kept := DropAbove(all, limit);
    var last := IndexPair(|init| + 1, |Convert(reg, init + [e])|);
    SnocConverts(reg, init, e);
    BoundariesUnfold(reg, init, e);
    assert forall k :: 0 <= k < |all| ==> IsBoundary(reg, init, all[k]);
    DropAboveKeepsExactly(all, limit, IndexPair(0, 0));
    PushAscends(all, kept, |init|, limit, last);
    forall p
      ensures p in kept + [last] <==> IsBoundary(reg, init + [e], p)
    {
      SnocMember(reg, init, e, p);
    }
  }

  lemma {:induction false} BoundariesUnfold(reg: Registry, init: seq<InputElement>, e: InputElement)
    ensures Boundaries(reg, init + [e]) ==
            DropAbove(Boundaries(reg, init), SnocLimit(reg, init, e)) + [IndexPair(|init| + 1, |Convert(reg, init + [e])|)]
  {
    hide Step;
    assert (init + [e])[..|init|] == init;
    SnocConverts(reg, init, e);
  }

  /** The surface position below which the last keystroke of `init + [e]` changes nothing. */
  function SnocLimit(reg: Registry, init: seq<InputElement>, e: InputElement): nat {
    Minus(|Flat(Run(reg, [], init))|, Step(reg, Run(reg, [], init), e).deleted)
  }

  lemma {:induction false} SnocConverts(reg: Registry, init: seq<InputElement>, e: InputElement)
    ensures Convert(reg, init + [e]) == Flat(Step(reg, Run(reg, [], init), e).segments)
    ensures SnocLimit(reg, init, e) <= |Convert(reg, init + [e])|
    ensures SnocLimit(reg, init, e) + Step(reg, Run(reg, [], init), e).deleted == |Convert(reg, init)|
  {
    var segments := Run(reg, [], init);
    RunAppend(reg, [], init, [e]);
    RunOne(reg, segments, e);
    StepKeepsFront(reg, segments, e);
  }

  lemma {:induction false} SnocMember(reg: Registry, init: seq<InputElement>, e: InputElement, p: IndexPair)
    requires ListsCleanCuts(reg, init, Boundaries(reg, init))
    ensures p in DropAbove(Boundaries(reg, init), SnocLimit(reg, init, e))
                 + [IndexPair(|init| + 1, |Convert(reg, init + [e])|)]
            <==> IsBoundary(reg, init + [e], p)
  {
    hide Convert, Step, Boundaries, DropAbove;
    var input := init + [e];
    var all := Boundaries(reg, init);
    var last := IndexPair(|init| + 1, |Convert(reg, input)|);
    DropAboveKeepsExactly(all, SnocLimit(reg, init, e), p);
    SnocConverts(reg, init, e);
    if p.input <= |init| {
      BoundarySnoc(reg, init, e, p);
    } else {
      assert forall k :: 0 <= k < |all| ==> IsBoundary(reg, init, all[k]);
      WholeInputIsBoundary(reg, input);
      assert p.input == |input| ==> input[..p.input] == input;
    }
  }

  lemma {:induction false} PushAscends(all: seq<IndexPair>, kept: seq<IndexPair>, n: nat, limit: nat, last: IndexPair)
    requires Ascending(all) && (forall k :: 0 <= k < |all| ==> all[k].input <= n)
    requires kept == DropAbove(all, limit) && last.input == n + 1 && limit <= last.surface
    ensures Ascending(kept + [last])
  {
    assert kept == all[..|kept|];
    forall k | 0 <= k < |kept|
      ensures kept[k].surface <= last.surface && kept[k].input < last.input
    {
      assert kept[k] == all[k];
      DropAboveKeepsExactly(all, limit, kept[k]);
    }
  }

  // ----- forcing the input to split at a surface position -----

  datatype Found = At(input: nat) | Within(start: IndexPair, end: IndexPair)

  /** The search from the last boundary backwards. */
  function Search(b: seq<IndexPair>, target: nat, end: IndexPair): Found {
    if b == [] then Within(IndexPair(0, 0), end)
    else
      var p := b[|b| - 1];
      if p.surface == target then At(p.input)
      else if p.surface < target then Within(p, end)
      else Search(b[..|b| - 1], target, if p.surface < end.surface then p else end)
  }

  /** The search ends at a listed boundary, and every boundary behind it lies beyond `target`. */
  lemma {:induction false} SearchFinds(b: seq<IndexPair>, target: nat, end: IndexPair) returns (k: nat)
    requires b != [] && b[0] == IndexPair(0, 0) && 0 < target < end.surface
    ensures k < |b| && forall i :: k < i < |b| ==> b[i].surface > target
    ensures match Search(b, target, end)
            case At(input) => b[k] == IndexPair(input, target)
            case Within(start, finish) =>
              && b[k] == start && start.surface < target < finish.surface
              && (finish == end || finish in b[k + 1..])
  {
    var p := b[|b| - 1];
    if p.surface <= target {
      k := |b| - 1;
    } else {
      var init := b[..|b| - 1];
      var next := if p.surface < end.surface then p else end;
      k := SearchFinds(init, target, next);
      assert forall i :: k < i < |init| ==> init[i] == b[i];
      assert b[k + 1..] == init[k + 1..] + [p];
    }
  }

  datatype Forced = Forced(text: Text, index: nat)

  function Locate(reg: Registry, input: seq<InputElement>, target: nat): Found {
    Search(Boundaries(reg, input), target, IndexPair(|input|, |Convert(reg, input)|))
  }

  /** The search returns a clean cut at `target`, or the closest clean cuts around it. */
  lemma {:induction false} LocateIsBoundary(reg: Registry, input: seq<InputElement>, target: nat)
    requires 0 < target < |Convert(reg, input)|
    ensures match Locate(reg, input, target)
            case At(i) => IsBoundary(reg, input, IndexPair(i, target))
            case Within(start, end) =>
              && IsBoundary(reg, input, start) && IsBoundary(reg, input, end)
              && start.surface < target < end.surface <= |Convert(reg, input)|
              && start.input < end.input
  {
    var b := Boundaries(reg, input);
    BoundariesAreCleanCuts(reg, input);
    var k := SearchFinds(b, target, IndexPair(|input|, |Convert(reg, input)|));
    var found := Locate(reg, input, target);
    if found.Within? {
      var m :| k < m < |b| && b[m] == found.end;
    }
  }

  /** No clean cut shown before `target` is passed over. */
  lemma {:induction false} LocateIsLast(reg: Registry, input: seq<InputElement>, target: nat, cut: IndexPair)
    requires 0 < target < |Convert(reg, input)| && IsBoundary(reg, input, cut) && cut.surface < target
    ensures match Locate(reg, input, target)
            case At(i) => cut.input <= i
            case Within(start, _) => cut.input <= start.input
  {
    hide IsBoundary, Convert, Boundaries, Search;
    var b := Boundaries(reg, input);
    BoundariesAreCleanCuts(reg, input);
    var k := SearchFinds(b, target, IndexPair(|input|, |Convert(reg, input)|));
    var m :| 0 <= m < |b| && b[m] == cut;
  }

  /** The text with the keystrokes between two boundaries replaced by what they show. */
  function FreezeWithin(t: Text, start: IndexPair, end: IndexPair): Text
    requires start.input <= end.input <= |t.input| && start.surface <= end.surface <= |t.surface|
  {
    t.(input := t.input[..start.input] + Frozen(t.surface[start.surface..end.surface]) + t.input[end.input..])
  }

  /** `force_input_cursor`: an input index at which the input may be split where the text
      shows position `target`; a run of keystrokes cut in half becomes frozen text. */
  function ForceCursor(reg: Registry, t: Text, target: nat): (r: Forced)
    requires Valid(reg, t)
    ensures r.index <= |r.text.input|
    ensures r.text.surface == t.surface && r.text.cursor == t.cursor
  {
    if target == 0 then Forced(t, 0)
    else if target >= |t.surface| then Forced(t, |t.input|)
    else
      LocateIsBoundary(reg, t.input, target);
      match Locate(reg, t.input, target)
      case At(i) => Forced(t, i)
      case Within(start, end) => Forced(FreezeWithin(t, start, end), target - start.surface + start.input)
  }

  lemma {:induction false} FrozenTextConverts(reg: Registry, a: seq<InputElement>, text: seq<Grapheme>)
    ensures Convert(reg, a + Frozen(text)) == Convert(reg, a) + text
  {
    RunAppend(reg, [], a, Frozen(text));
    FrozenRun(reg, Run(reg, [], a), text);
  }

  lemma {:induction false} FrozenBetween(reg: Registry, a: seq<InputElement>, text: seq<Grapheme>, b: seq<InputElement>)
    requires SilentRegistry(reg) && text != []
    ensures Convert(reg, a + Frozen(text) + b) == Convert(reg, a) + text + Convert(reg, b)
  {
    hide Convert;
    var left := a + Frozen(text);
    CutBehindFrozen(reg, left, b);
    CleanCutFactors(reg, left + b, |left|);
    assert (left + b)[..|left|] == left && (left + b)[|left|..] == b;
    FrozenTextConverts(reg, a, text);
  }

  /** The input may be split anywhere inside frozen text. */
  lemma {:induction false} CutInsideFrozen(reg: Registry, a: seq<InputElement>, text: seq<Grapheme>, b: seq<InputElement>, k: nat)
    requires 0 < k <= |text|
    ensures IsBoundary(reg, a + Frozen(text) + b, IndexPair(|a| + k, |Convert(reg, a)| + k))
  {
    var left := a + Frozen(text[..k]);
    var right := Frozen(text[k..]) + b;
    assert a + Frozen(text) + b == left + right;
    CutBehindFrozen(reg, left, right);
    FrozenTextConverts(reg, a, text[..k]);
    assert (left + right)[..|left|] == left;
  }

  lemma {:induction false} SliceInThree(text: seq<Grapheme>, i: nat, j: nat)
    requires i <= j <= |text|
    ensures text[..i] + text[i..j] + text[j..] == text
  {
  }

  lemma {:induction false} BoundaryFactors(reg: Registry, input: seq<InputElement>, p: IndexPair)
    requires SilentRegistry(reg) && IsBoundary(reg, input, p)
    ensures p.surface <= |Convert(reg, input)|
    ensures Convert(reg, input[..p.input]) == Convert(reg, input)[..p.surface]
    ensures Convert(reg, input[p.input..]) == Convert(reg, input)[p.surface..]
  {
    hide Convert;
    CleanCutFactors(reg, input, p.input);
  }

  /** Replacing the keystrokes between two clean cuts by their frozen text. */
  lemma {:induction false} FreezeSpan(reg: Registry, input: seq<InputElement>, start: IndexPair, end: IndexPair, k: nat)
    requires SilentRegistry(reg)
    requires IsBoundary(reg, input, start) && IsBoundary(reg, input, end) && start.input < end.input
    requires start.surface < end.surface <= |Convert(reg, input)| && 0 < k < end.surface - start.surface
    ensures var text := Convert(reg, input);
            var after := input[..start.input] + Frozen(text[start.surface..end.surface]) + input[end.input..];
            && Convert(reg, after) == text
            && IsBoundary(reg, after, IndexPair(start.input + k, start.surface + k))
  {
    hide Convert, CleanCut;
    var text := Convert(reg, input);
    var mid := text[start.surface..end.surface];
    BoundaryFactors(reg, input, start);
    BoundaryFactors(reg, input, end);
    FrozenBetween(reg, input[..start.input], mid, input[end.input..]);
    SliceInThree(text, start.surface, end.surface);
    CutInsideFrozen(reg, input[..start.input], mid, input[end.input..], k);
  }

  /** A cut is clean when the rest of its own part is harmless and the next part is sealed off. */
  lemma {:induction false} CutFromParts(reg: Registry, a: seq<InputElement>, m: seq<InputElement>, b: seq<InputElement>, i: nat)
    requires i <= |a|
    ensures CleanCut(reg, a + m + b, i) <==>
            var left := Run(reg, [], a[..i]);
            && Clean(reg, left, a[i..], |Flat(left)|)
            && Clean(reg, Run(reg, [], a), m, |Flat(left)|)
            && Clean(reg, Run(reg, [], a + m), b, |Flat(left)|)
  {
    hide Clean, Run, Flat, Step;
    var left := Run(reg, [], a[..i]);
    var kept := |Flat(left)|;
    assert a == a[..i] + a[i..];
    RunAppend(reg, [], a[..i], a[i..]);
    RunAppend(reg, [], a, m);
    assert (a + m + b)[..i] == a[..i] && (a + m + b)[i..] == a[i..] + (m + b);
    CleanAppend(reg, left, a[i..], m + b, kept);
    CleanAppend(reg, Run(reg, [], a), m, b, kept);
  }

  /** Earlier clean cuts survive the freezing of a later span. */
  lemma {:induction false} FreezeKeepsEarlierCuts(reg: Registry, a: seq<InputElement>, m: seq<InputElement>, b: seq<InputElement>,
                               text: seq<Grapheme>, i: nat)
    requires text != [] && i <= |a| && CleanCut(reg, a + m + b, i)
    ensures CleanCut(reg, a + Frozen(text) + b, i)
  {
    hide Clean, Run, Flat, Step;
    var kept := |Convert(reg, a[..i])|;
    CutFromParts(reg, a, m, b, i);
    CutFromParts(reg, a, Frozen(text), b, i);
    CutFromPartsLength(reg, a, i);
    FrozenRun(reg, Run(reg, [], a), text);
    CleanWeaken(reg, Run(reg, [], a), Frozen(text), |Convert(reg, a)|, kept);
    FrozenShields(reg, a, text, b, kept);
  }

  lemma {:induction false} CutFromPartsLength(reg: Registry, a: seq<InputElement>, i: nat)
    requires i <= |a| && Clean(reg, Run(reg, [], a[..i]), a[i..], |Convert(reg, a[..i])|)
    ensures |Convert(reg, a[..i])| <= |Convert(reg, a)|
  {
    hide Clean, Run, Flat, Step;
    assert a == a[..i] + a[i..];
    RunAppend(reg, [], a[..i], a[i..]);
    CleanKeepsText(reg, Run(reg, [], a[..i]), a[i..], |Convert(reg, a[..i])|);
  }

  lemma {:induction false} FrozenShields(reg: Registry, a: seq<InputElement>, text: seq<Grapheme>, b: seq<InputElement>, kept: nat)
    requires text != [] && kept <= |Convert(reg, a)|
    ensures Clean(reg, Run(reg, [], a + Frozen(text)), b, kept)
  {
    hide Clean, Run, Flat, Step;
    var left := a + Frozen(text);
    CutBehindFrozen(reg, left, b);
    assert (left + b)[..|left|] == left && (left + b)[|left|..] == b;
    FrozenTextConverts(reg, a, text);
    CleanWeaken(reg, Run(reg, [], left), b, |Convert(reg, left)|, kept);
  }

  /** Forcing leaves the conversion alone and returns a clean cut at the asked position. */
  lemma {:induction false} ForceSplits(reg: Registry, t: Text, target: nat)
    requires SilentRegistry(reg) && Valid(reg, t) && target <= |t.surface|
    ensures var r := ForceCursor(reg, t, target);
            && Valid(reg, r.text)
            && IsBoundary(reg, r.text.input, IndexPair(r.index, target))
            && Convert(reg, r.text.input[..r.index]) == t.surface[..target]
            && Convert(reg, r.text.input[r.index..]) == t.surface[target..]
  {
    ForceReturnsBoundary(reg, t, target);
    var r := ForceCursor(reg, t, target);
    BoundaryFactors(reg, r.text.input, IndexPair(r.index, target));
  }

  lemma {:induction false} ForceReturnsBoundary(reg: Registry, t: Text, target: nat)
    requires SilentRegistry(reg) && Valid(reg, t) && target <= |t.surface|
    ensures Valid(reg, ForceCursor(reg, t, target).text)
    ensures IsBoundary(reg, ForceCursor(reg, t, target).text.input, IndexPair(ForceCursor(reg, t, target).index, target))
  {
    if target == 0 {
      assert t.input[..0] == [];
      StartIsCut(reg, t.input);
    } else if target >= |t.surface| {
      WholeInputIsBoundary(reg, t.input);
    } else {
      ForceInsideReturnsBoundary(reg, t, target);
    }
  }

  lemma {:induction false} ForceInsideReturnsBoundary(reg: Registry, t: Text, target: nat)
    requires SilentRegistry(reg) && Valid(reg, t) && 0 < target < |t.surface|
    ensures Valid(reg, ForceCursor(reg, t, target).text)
    ensures IsBoundary(reg, ForceCursor(reg, t, target).text.input, IndexPair(ForceCursor(reg, t, target).index, target))
  {
    hide IsBoundary, Convert, Locate, FreezeWithin;
    LocateIsBoundary(reg, t.input, target);
    match Locate(reg, t.input, target)
    case At(i) =>
    case Within(start, end) => FreezeWithinIsValid(reg, t, start, end, target);
  }

  lemma {:induction false} FreezeWithinIsValid(reg: Registry, t: Text, start: IndexPair, end: IndexPair, target: nat)
    requires SilentRegistry(reg) && Valid(reg, t)
    requires IsBoundary(reg, t.input, start) && IsBoundary(reg, t.input, end)
    requires start.input < end.input && start.surface < target < end.surface <= |t.surface|
    ensures Valid(reg, FreezeWithin(t, start, end))
    ensures IsBoundary(reg, FreezeWithin(t, start, end).input,
                       IndexPair(target - start.surface + start.input, target))
  {
    hide Convert, IsBoundary;
    FreezeSpan(reg, t.input, start, end, target - start.surface);
  }

  lemma {:induction false} StartIsCut(reg: Registry, input: seq<InputElement>)
    ensures CleanCut(reg, input, 0)
  {
    assert input[..0] == [] && input[0..] == input;
    SealedIsClean(reg, [], input, 0);
  }

  /** A clean cut strictly before the forced position stays where it was. */
  lemma {:induction false} ForceKeepsEarlierCuts(reg: Registry, t: Text, target: nat, cut: IndexPair)
    requires Valid(reg, t) && target <= |t.surface|
    requires IsBoundary(reg, t.input, cut) && cut.surface < target
    ensures var r := ForceCursor(reg, t, target);
            && cut.input <= r.index && IsBoundary(reg, r.text.input, cut)
            && r.text.input[..cut.input] == t.input[..cut.input]
  {
    hide Convert, Locate;
    if target < |t.surface| {
      LocateIsBoundary(reg, t.input, target);
      LocateIsLast(reg, t.input, target, cut);
      match Locate(reg, t.input, target)
      case At(i) =>
      case Within(start, end) =>
        SpanKeepsEarlierCuts(reg, t.input, start, end, t.surface[start.surface..end.surface], cut);
    } else {
      assert ForceCursor(reg, t, target) == Forced(t, |t.input|);
    }
  }

  lemma {:induction false} SpanKeepsEarlierCuts(reg: Registry, input: seq<InputElement>, start: IndexPair, end: IndexPair,
                             text: seq<Grapheme>, cut: IndexPair)
    requires start.input < end.input <= |input| && text != []
    requires IsBoundary(reg, input, cut) && cut.input <= start.input
    ensures var after := input[..start.input] + Frozen(text) + input[end.input..];
            IsBoundary(reg, after, cut) && after[..cut.input] == input[..cut.input]
  {
    hide Convert, CleanCut;
    var a, m, z := input[..start.input], input[start.input..end.input], input[end.input..];
    assert a + m + z == input;
    FreezeKeepsEarlierCuts(reg, a, m, z, text, cut.input);
    assert (a + Frozen(text) + z)[..cut.input] == a[..cut.input] == input[..cut.input];
  }
}
