/** The composing buffer as the program keeps it: an object whose methods splice its
    keystrokes and its text in place. Every method computes what `Edits` says. */
module ComposingTexts {
  import opened Wrappers
  import opened Numbers
  import opened InputTables
  import opened Segments
  import opened Composing
  import opened Edits

  /** `update_surface`: one piece applied to the text of its run. */
  method UpdateSurfaceInPlace(reg: Registry, surface: seq<Grapheme>, piece: InputPiece, style: InputStyle)
    returns (result: seq<Grapheme>, deleted: nat)
    ensures Applied(result, deleted) == UpdateSurface(reg, surface, piece, style)
  {
    var table := reg.Resolve(style);
    if table.Some? {
      result, deleted := ApplyInPlace(table.value, surface, piece);
    } else {
      result, deleted := surface, 0;
      if piece.Displayed().Some? {
        result := result + [piece.Displayed().value];
      }
    }
  }

  /** `update_segments`. */
  method UpdateSegments(reg: Registry, segments: seq<Segment>, element: InputElement)
    returns (result: seq<Segment>, deleted: nat)
    ensures Stepped(result, deleted) == Step(reg, segments, element)
  {
    result := segments;
    if |result| > 0 && result[|result| - 1].style == element.style {
      var surface;
      surface, deleted := UpdateSurfaceInPlace(reg, result[|result| - 1].graphemes, element.piece, element.style);
      result := result[..|result| - 1] + [Segment(surface, element.style)];
    } else if |result| == 0 && element.piece.CompositionSeparator? {
      deleted := 0;
    } else {
      var surface, _ := UpdateSurfaceInPlace(reg, [], element.piece, element.style);
      result := result + [Segment(surface, element.style)];
      deleted := 0;
    }
  }

  lemma {:induction false} RunSnoc(reg: Registry, elements: seq<InputElement>, n: nat)
    requires n < |elements|
    ensures Run(reg, [], elements[..n + 1]) == Step(reg, Run(reg, [], elements[..n]), elements[n]).segments
  {
    assert elements[..n + 1] == elements[..n] + [elements[n]];
    RunAppend(reg, [], elements[..n], [elements[n]]);
    RunOne(reg, Run(reg, [], elements[..n]), elements[n]);
  }

  lemma {:induction false} FlatCons(first: Segment, rest: seq<Segment>)
    ensures Flat([first] + rest) == first.graphemes + Flat(rest)
  {
    if rest == [] {
      assert [first] + rest == [] + [first];
      FlatLast([], first);
    } else {
      var init, last := rest[..|rest| - 1], rest[|rest| - 1];
      FlatCons(first, init);
      assert [first] + rest == ([first] + init) + [last];
      FlatLast([first] + init, last);
    }
  }

  method ConvertElements(reg: Registry, elements: seq<InputElement>) returns (surface: seq<Grapheme>)
    ensures surface == Convert(reg, elements)
  {
    var segments: seq<Segment> := [];
    for n := 0 to |elements|
      invariant segments == Run(reg, [], elements[..n])
    {
      RunSnoc(reg, elements, n);
      var next, _ := UpdateSegments(reg, segments, elements[n]);
      segments := next;
    }
    assert elements[..|elements|] == elements;
    surface := [];
    for n := 0 to |segments|
      invariant surface == Flat(segments[..n])
    {
      assert segments[..n + 1] == segments[..n] + [segments[n]];
      FlatLast(segments[..n], segments[n]);
      surface := surface + segments[n].graphemes;
    }
    assert segments[..|segments|] == segments;
  }

  method CommonPrefixLength(left: seq<Grapheme>, right: seq<Grapheme>) returns (n: nat)
    ensures n <= |left| && n <= |right| && left[..n] == right[..n]
    ensures n < |left| && n < |right| ==> left[n] != right[n]
  {
    n := 0;
    while n < |left| && n < |right| && left[n] == right[n]
      invariant n <= |left| && n <= |right| && left[..n] == right[..n]
    {
      n := n + 1;
    }
  }

  /** The length of the last run, by which the converted length is kept up to date. */
  function TailLength(segments: seq<Segment>): nat {
    if segments == [] then 0 else |segments[|segments| - 1].graphemes|
  }

  lemma {:induction false} LengthAfterStep(reg: Registry, segments: seq<Segment>, e: InputElement)
    ensures var after := Step(reg, segments, e).segments;
            && (|after| == |segments| ==> |Flat(after)| == |Flat(segments)| - TailLength(segments) + TailLength(after))
            && (|after| != |segments| ==> |Flat(after)| == |Flat(segments)| + TailLength(after))
            && TailLength(segments) <= |Flat(segments)|
  {
    if segments != [] && segments[|segments| - 1].style == e.style {
      StepSameStyle(reg, segments, e);
    } else if segments != [] || !e.piece.CompositionSeparator? {
      StepNewStyle(reg, segments, e);
    }
  }

  lemma {:induction false} BoundariesStep(reg: Registry, input: seq<InputElement>, n: nat)
    requires n < |input|
    ensures Boundaries(reg, input[..n + 1]) ==
            DropAbove(Boundaries(reg, input[..n]),
                      Minus(|Flat(Run(reg, [], input[..n]))|, Step(reg, Run(reg, [], input[..n]), input[n]).deleted))
            + [IndexPair(n + 1, |Flat(Step(reg, Run(reg, [], input[..n]), input[n]).segments)|)]
  {
    assert input[..n + 1][..n] == input[..n];
  }

  /** Popping boundaries from the end while a deletion has reached them. */
  method PopAbove(boundaries: seq<IndexPair>, limit: nat) returns (kept: seq<IndexPair>)
    ensures kept == DropAbove(boundaries, limit)
  {
    kept := boundaries;
    while |kept| > 0 && kept[|kept| - 1].surface > limit
      invariant DropAbove(boundaries, limit) == DropAbove(kept, limit)
    {
      kept := kept[..|kept| - 1];
    }
  }

  /** The search for the boundaries around `target`, popping from the end. */
  method SearchBackwards(list: seq<IndexPair>, target: nat, last: IndexPair) returns (found: Found)
    ensures found == Search(list, target, last)
  {
    var boundaries, end := list, last;
    while |boundaries| > 0
      invariant Search(boundaries, target, end) == Search(list, target, last)
    {
      var start := boundaries[|boundaries| - 1];
      boundaries := boundaries[..|boundaries| - 1];
      if start.surface == target {
        return At(start.input);
      }
      if start.surface < target {
        return Within(start, end);
      }
      if start.surface < end.surface {
        end := start;
      }
    }
    found := Within(IndexPair(0, 0), end);
  }

  class ComposingText {
    var input: seq<InputElement>
    var surface: seq<Grapheme>
    var cursor: nat

    function Value(): Text
      reads this
    {
      Text(input, surface, cursor)
    }

    constructor ()
      ensures Value() == EMPTY_TEXT
    {
      input, surface, cursor := [], [], 0;
    }

    method IndependentBoundaries(reg: Registry) returns (boundaries: seq<IndexPair>)
      ensures boundaries == Boundaries(reg, input)
      ensures ListsCleanCuts(reg, input, boundaries)
    {
      boundaries := [IndexPair(0, 0)];
      var converting: seq<Segment> := [];
      var convertedLength := 0;
      assert input[..0] == [];
      for n := 0 to |input|
        invariant converting == Run(reg, [], input[..n])
        invariant convertedLength == |Flat(converting)|
        invariant boundaries == Boundaries(reg, input[..n])
      {
        RunSnoc(reg, input, n);
        LengthAfterStep(reg, converting, input[n]);
        BoundariesStep(reg, input, n);
        var previousCount, previousTail := |converting|, TailLength(converting);
        var deleted;
        converting, deleted := UpdateSegments(reg, converting, input[n]);
        var previousLength := convertedLength;
        if |converting| == previousCount {
          convertedLength := convertedLength - previousTail + TailLength(converting);
        } else {
          convertedLength := convertedLength + TailLength(converting);
        }
        boundaries := PopAbove(boundaries, Minus(previousLength, deleted));
        boundaries := boundaries + [IndexPair(n + 1, convertedLength)];
      }
      assert input[..|input|] == input;
      BoundariesAreCleanCuts(reg, input);
    }

    method ForceInputCursor(reg: Registry, target: nat) returns (index: nat)
      requires Valid(reg, Value())
      modifies this`input
      ensures Forced(Value(), index) == ForceCursor(reg, old(Value()), target)
    {
      if target == 0 {
        return 0;
      }
      if target >= |surface| {
        return |input|;
      }
      LocateIsBoundary(reg, input, target);
      var boundaries := IndependentBoundaries(reg);
      var found := SearchBackwards(boundaries, target, IndexPair(|input|, |surface|));
      match found {
        case At(i) =>
          index := i;
        case Within(start, end) =>
          input := input[..start.input] + Frozen(surface[start.surface..end.surface]) + input[end.input..];
          index := target - start.surface + start.input;
      }
    }

    /** Removing the separator an earlier edit left before `index`. */
    method RemoveSeparatorBefore(index: nat) returns (result: nat)
      requires index <= |input|
      modifies this`input
      ensures (input, result) == WithoutSeparator(old(input), index)
    {
      result := index;
      if result > 0 && input[result - 1].piece == CompositionSeparator && input[result - 1].style == FROZEN {
        input := input[..result - 1] + input[result..];
        result := result - 1;
      }
    }

    method InsertElements(reg: Registry, elements: seq<InputElement>)
      requires SilentRegistry(reg) && Valid(reg, Value())
      modifies this
      ensures Value() == Insert(reg, old(Value()), elements)
      ensures Anchored(old(Value())) ==> Valid(reg, Value())
      ensures surface[cursor..] == old(surface)[old(cursor)..]
    {
      if |elements| == 0 {
        return;
      }
      InsertKeepsTheRight(reg, Value(), elements);
      InsertIsValid(reg, Value(), elements);
      var added := elements;
      var inputCursor := ForceInputCursor(reg, cursor);
      if cursor != |surface| {
        added := added + [SEPARATOR];
      }
      inputCursor := RemoveSeparatorBefore(inputCursor);
      ghost var front := input[..inputCursor] + added;
      input := input[..inputCursor] + added + input[inputCursor..];
      assert input[..inputCursor + |added|] == front;
      var oldPrefix := surface[..cursor];
      var newPrefix := ConvertElements(reg, input[..inputCursor + |added|]);
      var common := CommonPrefixLength(oldPrefix, newPrefix);
      surface := newPrefix + surface[cursor..];
      cursor := cursor - (|oldPrefix| - common) + (|newPrefix| - common);
    }

    /** Splitting the keystrokes at both ends of the text to delete. */
    method SplitForDeletion(reg: Registry, n: nat) returns (target: nat, current: nat)
      requires SilentRegistry(reg) && Valid(reg, Value()) && 0 < n <= cursor
      modifies this`input
      ensures Cut(input, target, current) == CutFor(reg, old(Value()), n)
    {
      ForceSplits(reg, Value(), cursor - n);
      target := ForceInputCursor(reg, cursor - n);
      current := ForceInputCursor(reg, cursor);
    }

    /** Dropping the keystrokes from `from` to `to`; a separator stands between the rest. */
    method SpliceOut(from: nat, to: nat)
      requires from <= to <= |input|
      modifies this`input
      ensures var (kept, target) := WithoutSeparator(old(input), from);
              input == Joined(kept[..target], old(input)[to..])
    {
      var target := RemoveSeparatorBefore(from);
      var current := to - (from - target);
      assert input[current..] == old(input)[to..];
      if target == 0 || current == |input| {
        input := input[..target] + input[current..];
      } else {
        input := input[..target] + [SEPARATOR] + input[current..];
      }
    }

    method DeleteCharactersBackward(reg: Registry, count: nat)
      requires SilentRegistry(reg) && Valid(reg, Value())
      modifies this
      ensures Value() == DeleteBackward(reg, old(Value()), count)
    {
      var n := Min(count, cursor);
      if n == 0 {
        return;
      }
      var target, current := SplitForDeletion(reg, n);
      SpliceOut(target, current);
      cursor := cursor - n;
      surface := ConvertElements(reg, input);
    }

    method DeleteCharactersForward(reg: Registry, count: nat)
      requires SilentRegistry(reg) && Valid(reg, Value())
      modifies this
      ensures Value() == DeleteForward(reg, old(Value()), count)
    {
      hide DeleteBackward, Convert;
      var n := Min(count, |surface| - cursor);
      if n == 0 {
        return;
      }
      cursor := cursor + n;
      DeleteCharactersBackward(reg, n);
    }

    method MoveBy(delta: int) returns (moved: int)
      requires cursor <= |surface|
      modifies this`cursor
      ensures Value() == MoveCursor(old(Value()), delta) && cursor == old(cursor) + moved
    {
      var minimum, maximum := -(cursor as int), |surface| - cursor;
      moved := if delta < minimum then minimum else if delta > maximum then maximum else delta;
      cursor := cursor + moved;
    }

    /** Answers false, leaving the object unusable, where the program would overflow. */
    method CompletePrefixBy(reg: Registry, count: ComposingCount) returns (ok: bool)
      requires SilentRegistry(reg) && Valid(reg, Value())
      modifies this
      ensures ok <==> CompletePrefix(reg, old(Value()), count).Some?
      ensures ok ==> Value() == CompletePrefix(reg, old(Value()), count).value
      decreases count
    {
      match count {
        case Input(wanted) =>
          var n := Min(wanted, |input|);
          input := input[n..];
          var newSurface := ConvertElements(reg, input);
          if |newSurface| > |surface| {
            return false;
          }
          cursor := Minus(cursor, |surface| - |newSurface|);
          surface := newSurface;
          if cursor == 0 {
            cursor := |surface|;
          }
          ok := true;
        case Surface(wanted) =>
          var n := Min(wanted, |surface|);
          var index := ForceInputCursor(reg, n);
          input := input[index..];
          surface := surface[n..];
          cursor := Minus(cursor, n);
          if cursor == 0 {
            cursor := |surface|;
          }
          ok := true;
        case Composite(left, right) =>
          ok := CompletePrefixBy(reg, left);
          if ok {
            ok := CompletePrefixBy(reg, right);
          }
      }
    }

    method ClonePrefixToCursor(reg: Registry) returns (text: ComposingText)
      requires Valid(reg, Value())
      ensures fresh(text) && text.Value() == PrefixToCursor(reg, Value())
    {
      text := new ComposingText();
      text.input, text.surface, text.cursor := input, surface, cursor;
      var index := text.ForceInputCursor(reg, cursor);
      text.input := text.input[..index];
      text.surface := text.surface[..cursor];
    }

    method Clear()
      modifies this
      ensures Value() == EMPTY_TEXT
    {
      input, surface, cursor := [], [], 0;
    }
  }
}
