/** Which keystrokes an edit keeps, replaces and adds (`input/composing.rs`). */
module EditMeanings {
  import opened Wrappers
  import opened Numbers
  import opened InputTables
  import opened Segments
  import opened Composing
  import opened Edits

  // ----- splitting the keystrokes -----

  /** The last clean cut shown at `target`. */
  ghost predicate LastCutAt(reg: Registry, input: seq<InputElement>, target: nat, i: nat) {
    && IsBoundary(reg, input, IndexPair(i, target))
    && forall j: nat :: IsBoundary(reg, input, IndexPair(j, target)) ==> j <= i
  }

  ghost predicate CutAt(reg: Registry, input: seq<InputElement>, target: nat) {
    exists i: nat :: IsBoundary(reg, input, IndexPair(i, target))
  }

  /** The clean cuts closest to `target` on either side of it. */
  ghost predicate Closest(reg: Registry, input: seq<InputElement>, target: nat, start: IndexPair, end: IndexPair) {
    && IsBoundary(reg, input, start) && IsBoundary(reg, input, end) && start.surface < target < end.surface
    && forall p: IndexPair :: IsBoundary(reg, input, p) ==>
         && (p.surface < target ==> p.input <= start.input)
         && (p.surface > target ==> p.surface > end.surface || (p.surface == end.surface && p.input <= end.input))
  }

  /** The keystrokes in front of a position and those behind it. Only keystrokes whose text the
      position is in the middle of are replaced by that text. */
  ghost predicate SplitsInto(reg: Registry, t: Text, target: nat, left: seq<InputElement>, right: seq<InputElement>)
    requires Valid(reg, t)
  {
    if target == 0 then left == [] && right == t.input
    else if target >= |t.surface| then left == t.input && right == []
    else if CutAt(reg, t.input, target) then
      exists i: nat :: LastCutAt(reg, t.input, target, i) && i <= |t.input| && left == t.input[..i] && right == t.input[i..]
    else
      exists start, end :: Closest(reg, t.input, target, start, end) && SplitsWithin(t, target, start, end, left, right)
  }

  predicate SplitsWithin(t: Text, target: nat, start: IndexPair, end: IndexPair, left: seq<InputElement>, right: seq<InputElement>) {
    && start.input <= end.input <= |t.input| && start.surface < target < end.surface <= |t.surface|
    && left == t.input[..start.input] + Frozen(t.surface[start.surface..target])
    && right == Frozen(t.surface[target..end.surface]) + t.input[end.input..]
  }

  /** Every boundary from `n` on is shown behind `end`, or where `end` is with fewer keystrokes. */
  ghost predicate NoneCloser(b: seq<IndexPair>, n: nat, end: IndexPair) {
    forall i :: n <= i < |b| ==> b[i].surface > end.surface || (b[i].surface == end.surface && b[i].input <= end.input)
  }

  ghost predicate FoundClosest(b: seq<IndexPair>, target: nat, found: Found) {
    match found
    case At(input) =>
      IndexPair(input, target) in b && forall i :: 0 <= i < |b| && b[i].surface == target ==> b[i].input <= input
    case Within(start, end) =>
      && start in b && end in b && start.surface < target < end.surface
      && (forall i :: 0 <= i < |b| ==> b[i].surface != target && (b[i].surface < target ==> b[i].input <= start.input))
      && forall i :: 0 <= i < |b| && b[i].surface > target ==>
           b[i].surface > end.surface || (b[i].surface == end.surface && b[i].input <= end.input)
  }

  /** The search stops at the cuts closest to what it looks for. */
  lemma {:induction false} SearchIsClosest(b: seq<IndexPair>, n: nat, target: nat, end: IndexPair, e: nat)
    requires Ascending(b) && 0 < n <= |b| && b[0] == IndexPair(0, 0) && target > 0
    requires n - 1 <= e < |b| && b[e] == end && target < end.surface && NoneCloser(b, n, end)
    ensures FoundClosest(b, target, Search(b[..n], target, end))
  {
    hide FoundClosest, NoneCloser, Ascending;
    var p := b[n - 1];
    assert b[..n][..n - 1] == b[..n - 1];
    if p.surface > target {
      assert n > 1;
      Closer(b, n, end, e);
      if p.surface < end.surface {
        SearchIsClosest(b, n - 1, target, p, n - 1);
      } else {
        SearchIsClosest(b, n - 1, target, end, e);
      }
    } else {
      Stops(b, n, target, end);
    }
  }

  lemma {:induction false} Closer(b: seq<IndexPair>, n: nat, end: IndexPair, e: nat)
    requires Ascending(b) && 0 < n <= |b| && n - 1 <= e < |b| && b[e] == end && NoneCloser(b, n, end)
    ensures NoneCloser(b, n - 1, if b[n - 1].surface < end.surface then b[n - 1] else end)
  {
  }

  lemma {:induction false} Stops(b: seq<IndexPair>, n: nat, target: nat, end: IndexPair)
    requires Ascending(b) && 0 < n <= |b| && b[n - 1].surface <= target < end.surface && end in b && NoneCloser(b, n, end)
    ensures FoundClosest(b, target, if b[n - 1].surface == target then At(b[n - 1].input) else Within(b[n - 1], end))
  {
    var p := b[n - 1];
    assert forall i :: 0 <= i < n - 1 ==> b[i].input < p.input && b[i].surface <= p.surface;
    assert forall i :: n <= i < |b| ==> b[i].surface > target;
    assert p.surface == target ==> p == IndexPair(p.input, target);
  }

  lemma {:induction false} LocateMeans(reg: Registry, input: seq<InputElement>, target: nat)
    requires 0 < target < |Convert(reg, input)|
    ensures match Locate(reg, input, target)
            case At(i) => LastCutAt(reg, input, target, i)
            case Within(start, end) => Closest(reg, input, target, start, end) && !CutAt(reg, input, target)
  {
    hide IsBoundary, Boundaries, Search, Convert;
    var b := Boundaries(reg, input);
    BoundariesAreCleanCuts(reg, input);
    assert b[..|b|] == b;
    SearchIsClosest(b, |b|, target, b[|b| - 1], |b| - 1);
  }

  /** Where the keystrokes are split. */
  lemma {:induction false} ForceMeans(reg: Registry, t: Text, target: nat)
    requires Valid(reg, t) && target <= |t.surface|
    ensures var r := ForceCursor(reg, t, target);
            SplitsInto(reg, t, target, r.text.input[..r.index], r.text.input[r.index..])
  {
    hide IsBoundary, Convert, Locate, Closest, LastCutAt, CutAt;
    var r := ForceCursor(reg, t, target);
    var left, right := r.text.input[..r.index], r.text.input[r.index..];
    if 0 < target < |t.surface| {
      LocateMeans(reg, t.input, target);
      LocateIsBoundary(reg, t.input, target);
      match Locate(reg, t.input, target) {
        case At(i) =>
          CutIsCut(reg, t.input, target, i);
          assert LastCutAt(reg, t.input, target, i);
        case Within(start, end) =>
          BoundaryInside(reg, t.input, end);
          SplitFrozen(t, start, end, target);
          assert SplitsWithin(t, target, start, end, left, right);
      }
    }
  }

  lemma {:induction false} CutIsCut(reg: Registry, input: seq<InputElement>, target: nat, i: nat)
    requires LastCutAt(reg, input, target, i)
    ensures CutAt(reg, input, target) && i <= |input|
  {
    hide Convert;
  }

  lemma {:induction false} BoundaryInside(reg: Registry, input: seq<InputElement>, p: IndexPair)
    requires IsBoundary(reg, input, p)
    ensures p.input <= |input|
  {
  }

  lemma {:induction false} SplitFrozen(t: Text, start: IndexPair, end: IndexPair, target: nat)
    requires start.input <= end.input <= |t.input| && start.surface < target < end.surface <= |t.surface|
    ensures var input, at := FreezeWithin(t, start, end).input, target - start.surface + start.input;
            && at <= |input|
            && input[..at] == t.input[..start.input] + Frozen(t.surface[start.surface..target])
            && input[at..] == Frozen(t.surface[target..end.surface]) + t.input[end.input..]
  {
    var a, z := t.surface[start.surface..target], t.surface[target..end.surface];
    assert t.surface[start.surface..end.surface] == a + z;
    assert Frozen(a + z) == Frozen(a) + Frozen(z);
    assert FreezeWithin(t, start, end).input
        == (t.input[..start.input] + Frozen(a)) + (Frozen(z) + t.input[end.input..]);
  }

  /** There is one way to split the keystrokes. */
  lemma {:induction false} OneSplit(reg: Registry, t: Text, target: nat, left: seq<InputElement>, right: seq<InputElement>,
                                    left': seq<InputElement>, right': seq<InputElement>)
    requires Valid(reg, t)
    requires SplitsInto(reg, t, target, left, right) && SplitsInto(reg, t, target, left', right')
    ensures left == left' && right == right'
  {
    hide IsBoundary, Convert;
    if 0 < target < |t.surface| && !CutAt(reg, t.input, target) {
      var start, end :| Closest(reg, t.input, target, start, end) && SplitsWithin(t, target, start, end, left, right);
      var start', end' :| Closest(reg, t.input, target, start', end') && SplitsWithin(t, target, start', end', left', right');
      assert start.input == start'.input && end.input == end'.input;
      BoundaryShows(reg, t.input, start, start');
      BoundaryShows(reg, t.input, end, end');
    }
  }

  lemma {:induction false} BoundaryShows(reg: Registry, input: seq<InputElement>, p: IndexPair, q: IndexPair)
    requires IsBoundary(reg, input, p) && IsBoundary(reg, input, q) && p.input == q.input
    ensures p == q
  {
  }

  // ----- what the edits keep -----

  /** Keystrokes without the separator that an earlier edit left at their end. */
  function Front(left: seq<InputElement>): seq<InputElement> {
    if left != [] && left[|left| - 1] == SEPARATOR then left[..|left| - 1] else left
  }

  lemma {:induction false} FrontIsPrefix(reg: Registry, t: Text)
    requires Valid(reg, t)
    ensures var r := ForceCursor(reg, t, t.cursor);
            InsertionPrefix(reg, t) == Front(r.text.input[..r.index])
  {
    hide ForceCursor;
    var r := ForceCursor(reg, t, t.cursor);
    FrontOf(r.text.input, r.index);
  }

  lemma {:induction false} FrontOf(input: seq<InputElement>, i: nat)
    requires i <= |input|
    ensures WithoutSeparator(input, i).0[..WithoutSeparator(input, i).1] == Front(input[..i])
  {
    if i > 0 && input[i - 1] == SEPARATOR {
      assert (input[..i - 1] + input[i..])[..i - 1] == input[..i][..i - 1];
    }
  }

  /** Typing puts the new keystrokes between those in front of the cursor and those behind it,
      and closes them off from the text behind. */
  lemma {:induction false} InsertMeans(reg: Registry, t: Text, elements: seq<InputElement>, left: seq<InputElement>, right: seq<InputElement>)
    requires SilentRegistry(reg) && Valid(reg, t) && elements != [] && SplitsInto(reg, t, t.cursor, left, right)
    ensures var after := Insert(reg, t, elements);
            && after.input == Front(left) + elements + (if t.cursor == |t.surface| then [] else [SEPARATOR]) + right
            && after.surface == Convert(reg, Front(left) + elements) + t.surface[t.cursor..]
            && after.cursor == |Convert(reg, Front(left) + elements)|
  {
    hide SplitsInto, ForceCursor, Convert, InsertionPrefix;
    var r := ForceCursor(reg, t, t.cursor);
    ForceMeans(reg, t, t.cursor);
    OneSplit(reg, t, t.cursor, left, right, r.text.input[..r.index], r.text.input[r.index..]);
    FrontIsPrefix(reg, t);
    var front := Front(left) + elements;
    TrailingSeparatorIsSilent(reg, front);
    assert Front(left) + (elements + [SEPARATOR]) == front + [SEPARATOR];
    assert front + [] == front;
  }

  /** At the end of a text that is anchored, keystrokes are put behind all others. */
  lemma {:induction false} TypingAppends(reg: Registry, t: Text, elements: seq<InputElement>)
    requires SilentRegistry(reg) && Valid(reg, t) && Anchored(t) && t.cursor == |t.surface| && elements != []
    ensures var input := Front(t.input) + elements;
            Insert(reg, t, elements) == Text(input, Convert(reg, input), |Convert(reg, input)|)
  {
    hide Convert, Insert;
    InsertMeans(reg, t, elements, t.input, []);
    var input := Front(t.input) + elements;
    assert input + [] + [] == input && Convert(reg, input) + [] == Convert(reg, input);
    assert t.surface[t.cursor..] == [];
  }

  /** Every keystroke is one that a user types, and there is text from the first one on. */
  predicate ShowsThroughout(reg: Registry, keystrokes: seq<InputElement>) {
    keystrokes == [] ||
    (Convert(reg, keystrokes) != [] && keystrokes[|keystrokes| - 1] != SEPARATOR
     && ShowsThroughout(reg, keystrokes[..|keystrokes| - 1]))
  }

  /** Keystrokes typed one after the other show what all of them convert to. */
  function TypedOneByOne(reg: Registry, keystrokes: seq<InputElement>): (t: Text)
    requires SilentRegistry(reg) && ShowsThroughout(reg, keystrokes)
    ensures t == Text(keystrokes, Convert(reg, keystrokes), |Convert(reg, keystrokes)|)
  {
    hide SilentRegistry, Insert, Convert;
    if keystrokes == [] then
      NothingTyped(reg);
      EMPTY_TEXT
    else
      OneMore(reg, keystrokes);
      Insert(reg, TypedOneByOne(reg, keystrokes[..|keystrokes| - 1]), [keystrokes[|keystrokes| - 1]])
  }

  lemma {:induction false} NothingTyped(reg: Registry)
    ensures EMPTY_TEXT == Text([], Convert(reg, []), |Convert(reg, [])|)
  {
  }

  lemma {:induction false} OneMore(reg: Registry, keystrokes: seq<InputElement>)
    requires SilentRegistry(reg) && keystrokes != [] && ShowsThroughout(reg, keystrokes)
    ensures var before := keystrokes[..|keystrokes| - 1];
            var t := Text(before, Convert(reg, before), |Convert(reg, before)|);
            && Valid(reg, t)
            && Insert(reg, t, [keystrokes[|keystrokes| - 1]]) == Text(keystrokes, Convert(reg, keystrokes), |Convert(reg, keystrokes)|)
  {
    hide Convert, Insert;
    var before, last := keystrokes[..|keystrokes| - 1], keystrokes[|keystrokes| - 1];
    var t := Text(before, Convert(reg, before), |Convert(reg, before)|);
    assert before == [] || Convert(reg, before) != [];
    TypingAppends(reg, t, [last]);
    assert before + [last] == keystrokes;
  }

  /** Removing text keeps the keystrokes in front of it and those behind it, with a separator
      between them so that they do not join. */
  lemma {:induction false} DeletionMeans(reg: Registry, t: Text, n: nat, left: seq<InputElement>, rest: seq<InputElement>,
                                         deleted: seq<InputElement>, right: seq<InputElement>)
    requires SilentRegistry(reg) && Valid(reg, t) && 0 < n <= t.cursor
    requires SplitsInto(reg, t, t.cursor - n, left, rest)
    requires Valid(reg, t.(input := left + rest)) && SplitsInto(reg, t.(input := left + rest), t.cursor, left + deleted, right)
    ensures var kept := Front(left);
            DeleteSome(reg, t, n).input == kept + (if kept == [] || right == [] then [] else [SEPARATOR]) + right
  {
    hide SplitsInto, ForceCursor, Convert, Front, CutFor;
    var cut := CutFor(reg, t, n);
    CutMeans(reg, t, n, left, rest, left + deleted, right);
    FrontOf(cut.input, cut.target);
    assert (left + deleted)[..|left|] == left;
    assert cut.input[..cut.target] == left;
  }

  lemma {:induction false} CutMeans(reg: Registry, t: Text, n: nat, left: seq<InputElement>, rest: seq<InputElement>,
                                    before: seq<InputElement>, right: seq<InputElement>)
    requires SilentRegistry(reg) && Valid(reg, t) && 0 < n <= t.cursor
    requires SplitsInto(reg, t, t.cursor - n, left, rest)
    requires Valid(reg, t.(input := left + rest)) && SplitsInto(reg, t.(input := left + rest), t.cursor, before, right)
    ensures var cut := CutFor(reg, t, n);
            && cut.target == |left| && cut.input == before + right && cut.current == |before|
  {
    hide SplitsInto, ForceCursor, Convert, SilentRegistry;
    var first := ForceCursor(reg, t, t.cursor - n);
    ForceMeans(reg, t, t.cursor - n);
    OneSplit(reg, t, t.cursor - n, left, rest, first.text.input[..first.index], first.text.input[first.index..]);
    assert first.text.input == left + rest;
    assert first.text == t.(input := left + rest);
    var second := ForceCursor(reg, first.text, t.cursor);
    ForceMeans(reg, first.text, t.cursor);
    OneSplit(reg, first.text, t.cursor, before, right, second.text.input[..second.index], second.text.input[second.index..]);
  }

  lemma {:induction false} SplitsAtEnd(reg: Registry, t: Text, target: nat)
    requires Valid(reg, t) && 0 < target == |t.surface|
    ensures SplitsInto(reg, t, target, t.input, [])
  {
  }

  /** A backspace at the end keeps the keystrokes in front of what it takes away. */
  lemma {:induction false} BackspaceMeans(reg: Registry, t: Text, n: nat, left: seq<InputElement>, rest: seq<InputElement>)
    requires SilentRegistry(reg) && Valid(reg, t) && 0 < n <= t.cursor == |t.surface|
    requires SplitsInto(reg, t, t.cursor - n, left, rest)
    ensures DeleteBackward(reg, t, n).input == Front(left)
  {
    hide ForceCursor, Convert, Front, DeleteSome, SplitsInto, IsBoundary;
    var first := ForceCursor(reg, t, t.cursor - n);
    ForceMeans(reg, t, t.cursor - n);
    ForceReturnsBoundary(reg, t, t.cursor - n);
    OneSplit(reg, t, t.cursor - n, left, rest, first.text.input[..first.index], first.text.input[first.index..]);
    assert first.text.input == left + rest;
    SplitsAtEnd(reg, first.text, t.cursor);
    DeletionMeans(reg, t, n, left, rest, rest, []);
    assert Front(left) + [] + [] == Front(left);
  }

  /** Completing text leaves the keystrokes behind it, and the part before the cursor has those in front. */
  lemma {:induction false} PartsMean(reg: Registry, t: Text, count: nat, left: seq<InputElement>, right: seq<InputElement>)
    requires SilentRegistry(reg) && Valid(reg, t)
    requires SplitsInto(reg, t, if count < |t.surface| then count else |t.surface|, left, right)
    ensures CompletePrefix(reg, t, Surface(count)).Some? && CompletePrefix(reg, t, Surface(count)).value.input == right
    ensures count == t.cursor ==> PrefixToCursor(reg, t) == Text(left, t.surface[..t.cursor], t.cursor)
  {
    hide SplitsInto, ForceCursor, Convert, SilentRegistry;
    var k := Min(count, |t.surface|);
    var r := ForceCursor(reg, t, k);
    ForceMeans(reg, t, k);
    OneSplit(reg, t, k, left, right, r.text.input[..r.index], r.text.input[r.index..]);
  }
}
