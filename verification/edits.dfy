/** Edits of the composing buffer (`input/composing.rs`) and what they do to the shown text. */
module Edits {
  import opened Wrappers
  import opened Numbers
  import opened InputTables
  import opened Segments
  import opened Composing

  /** Dropping a separator that an earlier edit left just before index `i`. */
  function WithoutSeparator(input: seq<InputElement>, i: nat): (r: (seq<InputElement>, nat))
    requires i <= |input|
    ensures r.1 <= |r.0| && r.0[r.1..] == input[i..]
  {
    if i > 0 && input[i - 1] == SEPARATOR then (input[..i - 1] + input[i..], i - 1) else (input, i)
  }

  lemma {:induction false} WithoutSeparatorConverts(reg: Registry, input: seq<InputElement>, i: nat)
    requires i <= |input|
    ensures var (rest, k) := WithoutSeparator(input, i);
            Convert(reg, rest[..k]) == Convert(reg, input[..i])
  {
    if i > 0 && input[i - 1] == SEPARATOR {
      assert input[..i] == input[..i - 1] + [SEPARATOR];
      TrailingSeparatorIsSilent(reg, input[..i - 1]);
      assert (input[..i - 1] + input[i..])[..i - 1] == input[..i - 1];
    }
  }

  /** Input joined behind a frozen element, or to nothing, converts part by part. */
  lemma {:induction false} JoinConverts(reg: Registry, a: seq<InputElement>, b: seq<InputElement>)
    requires SilentRegistry(reg)
    requires a == [] || b == [] || a[|a| - 1].style == FROZEN
    ensures Convert(reg, a + b) == Convert(reg, a) + Convert(reg, b)
  {
    if a == [] {
      assert a + b == b;
    } else if b == [] {
      assert a + b == a;
    } else {
      CutBehindFrozen(reg, a, b);
      CleanCutFactors(reg, a + b, |a|);
      assert (a + b)[..|a|] == a && (a + b)[|a|..] == b;
    }
  }

  /** What a deletion leaves: a separator stands between two remaining parts. */
  function Joined(front: seq<InputElement>, back: seq<InputElement>): seq<InputElement> {
    if front == [] || back == [] then front + back else front + [SEPARATOR] + back
  }

  lemma {:induction false} JoinedConverts(reg: Registry, front: seq<InputElement>, back: seq<InputElement>)
    requires SilentRegistry(reg)
    ensures Convert(reg, Joined(front, back)) == Convert(reg, front) + Convert(reg, back)
  {
    if front == [] || back == [] {
      JoinConverts(reg, front, back);
    } else {
      TrailingSeparatorIsSilent(reg, front);
      JoinConverts(reg, front + [SEPARATOR], back);
    }
  }

  // ----- insertion -----

  /** The keystrokes that stay in front of an insertion at the cursor. */
  function InsertionPrefix(reg: Registry, t: Text): seq<InputElement>
    requires Valid(reg, t)
  {
    var forced := ForceCursor(reg, t, t.cursor);
    var (kept, i) := WithoutSeparator(forced.text.input, forced.index);
    kept[..i]
  }

  function InsertionSuffix(reg: Registry, t: Text): seq<InputElement>
    requires Valid(reg, t)
  {
    var forced := ForceCursor(reg, t, t.cursor);
    forced.text.input[forced.index..]
  }

  function Insert(reg: Registry, t: Text, elements: seq<InputElement>): Text
    requires Valid(reg, t)
  {
    if elements == [] then t
    else
      var added := if t.cursor == |t.surface| then elements else elements + [SEPARATOR];
      var front := InsertionPrefix(reg, t) + added;
      var prefix := Convert(reg, front);
      Text(front + InsertionSuffix(reg, t), prefix + t.surface[t.cursor..], |prefix|)
  }

  lemma {:induction false} InsertionSplits(reg: Registry, t: Text)
    requires SilentRegistry(reg) && Valid(reg, t)
    ensures Convert(reg, InsertionPrefix(reg, t)) == t.surface[..t.cursor]
    ensures Convert(reg, InsertionSuffix(reg, t)) == t.surface[t.cursor..]
  {
    ForceSplits(reg, t, t.cursor);
    var forced := ForceCursor(reg, t, t.cursor);
    WithoutSeparatorConverts(reg, forced.text.input, forced.index);
  }

  /** An insertion converts the kept keystrokes and the new ones together, and leaves every
      grapheme right of the cursor unchanged, with the cursor right before them. */
  lemma {:induction false} InsertKeepsTheRight(reg: Registry, t: Text, elements: seq<InputElement>)
    requires SilentRegistry(reg) && Valid(reg, t) && elements != []
    ensures var r := Insert(reg, t, elements);
            && r.cursor <= |r.surface| && r.surface[r.cursor..] == t.surface[t.cursor..]
            && r.surface[..r.cursor] == Convert(reg, InsertionPrefix(reg, t) + elements)
            && Convert(reg, InsertionPrefix(reg, t)) == t.surface[..t.cursor]
  {
    InsertionSplits(reg, t);
    var front := InsertionPrefix(reg, t) + elements;
    TrailingSeparatorIsSilent(reg, front);
    assert InsertionPrefix(reg, t) + (elements + [SEPARATOR]) == front + [SEPARATOR];
  }

  /** Keystrokes that show nothing while there is no text would be joined to the insertion. */
  predicate Anchored(t: Text) {
    t.surface == [] ==> t.input == []
  }

  /** On anchored text an insertion keeps text and keystrokes in step. Without that guard it
      does exactly when the leftover keystrokes still show nothing behind the new ones. */
  lemma {:induction false} InsertIsValid(reg: Registry, t: Text, elements: seq<InputElement>)
    requires SilentRegistry(reg) && Valid(reg, t) && elements != []
    ensures Anchored(t) ==> Valid(reg, Insert(reg, t, elements))
    ensures !Anchored(t) ==>
              (Valid(reg, Insert(reg, t, elements)) <==> Convert(reg, elements + t.input) == Convert(reg, elements))
  {
    InsertionSplits(reg, t);
    var added := if t.cursor == |t.surface| then elements else elements + [SEPARATOR];
    var front := InsertionPrefix(reg, t) + added;
    var back := InsertionSuffix(reg, t);
    if Anchored(t) {
      if t.cursor == |t.surface| {
        assert back == [];
      }
      JoinConverts(reg, front, back);
    } else {
      assert InsertionPrefix(reg, t) == [] && back == t.input;
      assert front == elements;
      assert t.surface[t.cursor..] == [];
    }
  }

  function StyleRun(input: seq<InputElement>, style: InputStyle): (n: nat)
    ensures n <= |input| && OfStyle(input[..n], style)
    ensures n < |input| ==> input[n].style != style
  {
    if input == [] || input[0].style != style then 0
    else
      var n := StyleRun(input[1..], style);
      assert input[..n + 1] == [input[0]] + input[1..][..n];
      n + 1
  }

  predicate OfStyle(input: seq<InputElement>, style: InputStyle) {
    forall k :: 0 <= k < |input| ==> input[k].style == style
  }

  /** The leftover keystrokes of the first style change nothing behind text of that style. */
  ghost predicate Harmless(reg: Registry, leftover: seq<InputElement>) {
    leftover == [] ||
    var style := leftover[0].style;
    forall run: seq<InputElement> :: run != [] && OfStyle(run, style) ==>
      Convert(reg, run + leftover[..StyleRun(leftover, style)]) == Convert(reg, run)
  }

  /** Which texts can be typed into safely: those whose keystrokes are empty if they show
      nothing, and those whose leftover keystrokes are harmless to their own style. */
  lemma {:induction false} InsertionsStayInStep(reg: Registry, t: Text)
    requires SilentRegistry(reg) && Valid(reg, t)
    ensures (forall elements: seq<InputElement> :: elements != [] ==> Valid(reg, Insert(reg, t, elements)))
            <==> Anchored(t) || Harmless(reg, t.input)
  {
    hide Convert, Insert, Harmless, SilentRegistry;
    if forall elements: seq<InputElement> :: elements != [] ==> Valid(reg, Insert(reg, t, elements)) {
      if !Anchored(t) {
        StaysInStepIfHarmless(reg, t);
      }
    } else {
      var elements: seq<InputElement> :| elements != [] && !Valid(reg, Insert(reg, t, elements));
      InsertIsValid(reg, t, elements);
      if Harmless(reg, t.input) {
        HarmlessBehindAnything(reg, t.input, elements);
      }
    }
  }

  lemma {:induction false} StaysInStepIfHarmless(reg: Registry, t: Text)
    requires SilentRegistry(reg) && Valid(reg, t) && !Anchored(t)
    requires forall elements: seq<InputElement> :: elements != [] ==> Valid(reg, Insert(reg, t, elements))
    ensures Harmless(reg, t.input)
  {
    hide Convert, Insert, SilentRegistry;
    var style := t.input[0].style;
    var n := StyleRun(t.input, style);
    forall run: seq<InputElement> | run != [] && OfStyle(run, style)
      ensures Convert(reg, run + t.input[..n]) == Convert(reg, run)
    {
      assert Valid(reg, Insert(reg, t, run));
      InsertIsValid(reg, t, run);
      LeadAndRest(reg, t.input, run);
    }
  }

  /** Behind text of the leading style, and behind nothing, the leading keystrokes and the rest
      convert on their own. */
  lemma {:induction false} LeadAndRest(reg: Registry, leftover: seq<InputElement>, run: seq<InputElement>)
    requires SilentRegistry(reg) && leftover != [] && OfStyle(run, leftover[0].style) && Convert(reg, leftover) == []
    ensures Convert(reg, run + leftover) == Convert(reg, run + leftover[..StyleRun(leftover, leftover[0].style)])
  {
    hide Convert, SilentRegistry;
    var n := StyleRun(leftover, leftover[0].style);
    var lead, rest := leftover[..n], leftover[n..];
    assert leftover == lead + rest && run + leftover == (run + lead) + rest;
    StyleFactors(reg, lead, rest);
    StyleFactors(reg, run + lead, rest);
  }

  /** Where the style changes, both sides convert on their own. */
  lemma {:induction false} StyleFactors(reg: Registry, a: seq<InputElement>, b: seq<InputElement>)
    requires SilentRegistry(reg) && (a == [] || b == [] || a[|a| - 1].style != b[0].style)
    ensures Convert(reg, a + b) == Convert(reg, a) + Convert(reg, b)
  {
    hide Convert, SilentRegistry;
    StyleCut(reg, a, b);
    CleanCutFactors(reg, a + b, |a|);
    assert (a + b)[..|a|] == a && (a + b)[|a|..] == b;
  }

  /** Where the last run of one style begins. */
  function LastRun(input: seq<InputElement>, style: InputStyle): (i: nat)
    ensures i <= |input| && OfStyle(input[i..], style)
    ensures i > 0 ==> input[i - 1].style != style
  {
    if input == [] || input[|input| - 1].style != style then |input|
    else
      var i := LastRun(input[..|input| - 1], style);
      assert input[i..] == input[..|input| - 1][i..] + [input[|input| - 1]];
      i
  }

  lemma {:induction false} HarmlessBehindAnything(reg: Registry, leftover: seq<InputElement>, elements: seq<InputElement>)
    requires SilentRegistry(reg) && Convert(reg, leftover) == [] && Harmless(reg, leftover)
    ensures Convert(reg, elements + leftover) == Convert(reg, elements)
  {
    hide Convert, SilentRegistry;
    if leftover == [] {
      assert elements + leftover == elements;
    } else {
      var style := leftover[0].style;
      var i := LastRun(elements, style);
      var head, run := elements[..i], elements[i..];
      assert elements == head + run && elements + leftover == head + (run + leftover);
      StyleFactors(reg, head, run + leftover);
      StyleFactors(reg, head, run);
      if run == [] {
        assert run + leftover == leftover;
        NothingConverts(reg);
      } else {
        LeadAndRest(reg, leftover, run);
      }
    }
  }

  lemma {:induction false} NothingConverts(reg: Registry)
    ensures Convert(reg, []) == []
  {
  }

  // ----- deletion -----

  /** The input split at both ends of the text to delete. */
  datatype Cut = Cut(input: seq<InputElement>, target: nat, current: nat)

  function CutFor(reg: Registry, t: Text, count: nat): (r: Cut)
    requires SilentRegistry(reg) && Valid(reg, t) && 0 < count <= t.cursor
    ensures r.target <= r.current <= |r.input|
  {
    ForceSplits(reg, t, t.cursor - count);
    var first := ForceCursor(reg, t, t.cursor - count);
    ForceKeepsEarlierCuts(reg, first.text, t.cursor, IndexPair(first.index, t.cursor - count));
    var second := ForceCursor(reg, first.text, t.cursor);
    Cut(second.text.input, first.index, second.index)
  }

  /** Both cuts hold in the same input, although the second one may freeze more of it. */
  lemma {:induction false} CutForSplits(reg: Registry, t: Text, count: nat)
    requires SilentRegistry(reg) && Valid(reg, t) && 0 < count <= t.cursor
    ensures var cut := CutFor(reg, t, count);
            && Convert(reg, cut.input[..cut.target]) == t.surface[..t.cursor - count]
            && Convert(reg, cut.input[cut.current..]) == t.surface[t.cursor..]
  {
    hide SilentRegistry, Convert, ForceCursor;
    ForceSplits(reg, t, t.cursor - count);
    var first := ForceCursor(reg, t, t.cursor - count);
    ForceKeepsEarlierCuts(reg, first.text, t.cursor, IndexPair(first.index, t.cursor - count));
    ForceSplits(reg, first.text, t.cursor);
  }

  /** A deletion up to an end of the text cuts at that end of the keystrokes. */
  lemma {:induction false} CutForEnds(reg: Registry, t: Text, count: nat)
    requires SilentRegistry(reg) && Valid(reg, t) && 0 < count <= t.cursor
    ensures count == t.cursor ==> CutFor(reg, t, count).target == 0
    ensures t.cursor == |t.surface| ==> CutFor(reg, t, count).current == |CutFor(reg, t, count).input|
  {
    hide SilentRegistry, Convert, Locate;
  }

  /** Removing `n` graphemes before the cursor, and the keystrokes behind them. */
  function DeleteSome(reg: Registry, t: Text, n: nat): Text
    requires SilentRegistry(reg) && Valid(reg, t) && 0 < n <= t.cursor
  {
    var cut := CutFor(reg, t, n);
    var (kept, target) := WithoutSeparator(cut.input, cut.target);
    var input := Joined(kept[..target], cut.input[cut.current..]);
    Text(input, Convert(reg, input), t.cursor - n)
  }

  lemma {:induction false} DeleteSomeIsExact(reg: Registry, t: Text, n: nat)
    requires SilentRegistry(reg) && Valid(reg, t) && 0 < n <= t.cursor
    ensures DeleteSome(reg, t, n).surface == t.surface[..t.cursor - n] + t.surface[t.cursor..]
    ensures Anchored(DeleteSome(reg, t, n))
  {
    CutForSplits(reg, t, n);
    var cut := CutFor(reg, t, n);
    WithoutSeparatorConverts(reg, cut.input, cut.target);
    var (kept, target) := WithoutSeparator(cut.input, cut.target);
    JoinedConverts(reg, kept[..target], cut.input[cut.current..]);
  }

  /** Deleting removes exactly the graphemes before the cursor; what stays on either side
      does not recombine, whatever keystrokes stood there. */
  function DeleteBackward(reg: Registry, t: Text, count: nat): (r: Text)
    requires SilentRegistry(reg) && Valid(reg, t)
    ensures Valid(reg, r) && r.cursor == t.cursor - Min(count, t.cursor)
    ensures r.surface == t.surface[..t.cursor - Min(count, t.cursor)] + t.surface[t.cursor..]
    ensures Anchored(t) ==> Anchored(r)
  {
    var n := Min(count, t.cursor);
    if n == 0 then
      assert t.surface[..t.cursor] + t.surface[t.cursor..] == t.surface;
      t
    else
      DeleteSomeIsExact(reg, t, n);
      DeleteSome(reg, t, n)
  }

  function DeleteForward(reg: Registry, t: Text, count: nat): Text
    requires SilentRegistry(reg) && Valid(reg, t)
  {
    var n := Min(count, |t.surface| - t.cursor);
    if n == 0 then t else DeleteBackward(reg, Text(t.input, t.surface, t.cursor + n), n)
  }

  /** Deleting forward removes exactly the graphemes behind the cursor, which stays. */
  lemma {:induction false} DeleteForwardIsExact(reg: Registry, t: Text, count: nat)
    requires SilentRegistry(reg) && Valid(reg, t)
    ensures var r := DeleteForward(reg, t, count);
            && Valid(reg, r) && r.cursor == t.cursor
            && r.surface == t.surface[..t.cursor] + t.surface[t.cursor + Min(count, |t.surface| - t.cursor)..]
            && (Anchored(t) ==> Anchored(r))
  {
    hide SilentRegistry, Convert, DeleteSome;
    if Min(count, |t.surface| - t.cursor) == 0 {
      assert t.surface[..t.cursor] + t.surface[t.cursor..] == t.surface;
    }
  }

  // ----- moving, completing, cutting -----

  function MoveCursor(t: Text, delta: int): Text
    requires t.cursor <= |t.surface|
  {
    var moved: int := if delta < -(t.cursor as int) then -(t.cursor as int)
                 else if delta > |t.surface| - t.cursor then |t.surface| - t.cursor
                 else delta;
    t.(cursor := t.cursor + moved)
  }

  datatype ComposingCount =
    | Input(count: nat)
    | Surface(count: nat)
    | Composite(left: ComposingCount, right: ComposingCount)

  /** A cursor that reached the start jumps to the end. */
  function Wrapped(cursor: nat, length: nat): nat {
    if cursor == 0 then length else cursor
  }

  /** `complete_prefix`; `None` is the arithmetic overflow of dropping keystrokes whose
      removal makes the text longer. */
  function CompletePrefix(reg: Registry, t: Text, count: ComposingCount): (r: Option<Text>)
    requires SilentRegistry(reg) && Valid(reg, t)
    ensures r.Some? ==> Valid(reg, r.value)
    decreases count
  {
    match count
    case Input(n) =>
      var input := t.input[Min(n, |t.input|)..];
      var surface := Convert(reg, input);
      if |surface| > |t.surface| then None
      else Some(Text(input, surface, Wrapped(Minus(t.cursor, |t.surface| - |surface|), |surface|)))
    case Surface(n) =>
      var k := Min(n, |t.surface|);
      var forced := ForceCursor(reg, t, k);
      ForceSplits(reg, t, k);
      Some(Text(forced.text.input[forced.index..], t.surface[k..], Wrapped(Minus(t.cursor, k), |t.surface| - k)))
    case Composite(left, right) =>
      var first := CompletePrefix(reg, t, left);
      if first.None? then None else CompletePrefix(reg, first.value, right)
  }

  predicate SurfaceOnly(count: ComposingCount) {
    match count
    case Input(_) => false
    case Surface(_) => true
    case Composite(left, right) => SurfaceOnly(left) && SurfaceOnly(right)
  }

  function Total(count: ComposingCount): nat {
    match count
    case Input(n) => n
    case Surface(n) => n
    case Composite(left, right) => Total(left) + Total(right)
  }

  /** Completing surface counts, nested in any way, leaves exactly the text behind them. */
  lemma {:induction false} CompleteSurfaceIsExact(reg: Registry, t: Text, count: ComposingCount)
    requires SilentRegistry(reg) && Valid(reg, t) && SurfaceOnly(count)
    ensures CompletePrefix(reg, t, count).Some?
    ensures CompletePrefix(reg, t, count).value.surface == t.surface[Min(Total(count), |t.surface|)..]
    ensures Anchored(t) ==> Anchored(CompletePrefix(reg, t, count).value)
    decreases count
  {
    hide Convert, ForceCursor;
    match count
    case Surface(n) => CompleteOneSurface(reg, t, n);
    case Composite(left, right) =>
      CompleteSurfaceIsExact(reg, t, left);
      var first := CompletePrefix(reg, t, left).value;
      CompleteSurfaceIsExact(reg, first, right);
      DropTwice(t.surface, Total(left), Total(right));
  }

  lemma {:induction false} DropTwice(text: seq<Grapheme>, m: nat, n: nat)
    ensures var rest := text[Min(m, |text|)..];
            rest[Min(n, |rest|)..] == text[Min(m + n, |text|)..]
  {
  }

  lemma {:induction false} CompleteOneSurface(reg: Registry, t: Text, n: nat)
    requires SilentRegistry(reg) && Valid(reg, t)
    ensures CompletePrefix(reg, t, Surface(n)).Some?
    ensures CompletePrefix(reg, t, Surface(n)).value.surface == t.surface[Min(n, |t.surface|)..]
    ensures Anchored(t) ==> Anchored(CompletePrefix(reg, t, Surface(n)).value)
  {
    hide Convert, FreezeWithin, Locate;
    ForceSplits(reg, t, Min(n, |t.surface|));
  }

  /** Completing keystrokes up to a clean cut never overflows and drops just their text. */
  lemma {:induction false} CompleteInputAtCut(reg: Registry, t: Text, n: nat)
    requires SilentRegistry(reg) && Valid(reg, t) && n <= |t.input| && CleanCut(reg, t.input, n)
    ensures CompletePrefix(reg, t, Input(n)).Some?
    ensures var shown := |Convert(reg, t.input[..n])|;
            shown <= |t.surface| && CompletePrefix(reg, t, Input(n)).value.surface == t.surface[shown..]
  {
    CleanCutFactors(reg, t.input, n);
  }

  /** Completing keystrokes takes exactly what they show if and only if the conversion splits
      at their end. */
  lemma {:induction false} CompleteInputExactly(reg: Registry, t: Text, n: nat)
    requires SilentRegistry(reg) && Valid(reg, t) && n <= |t.input|
    ensures var shown, completed := Convert(reg, t.input[..n]), CompletePrefix(reg, t, Input(n));
            completed.Some? && t.surface == shown + completed.value.surface
            <==> Convert(reg, t.input) == shown + Convert(reg, t.input[n..])
  {
    hide Convert;
  }

  // ----- when completing does not overflow -----

  /** The keystrokes that a completion leaves. */
  function Remaining(reg: Registry, input: seq<InputElement>, count: ComposingCount): seq<InputElement>
    decreases count
  {
    match count
    case Input(n) => input[Min(n, |input|)..]
    case Surface(n) =>
      var text := Convert(reg, input);
      var forced := ForceCursor(reg, Text(input, text, 0), Min(n, |text|));
      forced.text.input[forced.index..]
    case Composite(left, right) => Remaining(reg, Remaining(reg, input, left), right)
  }

  /** Wherever keystrokes are dropped, what is left shows no more than before. */
  predicate NeverLengthens(reg: Registry, input: seq<InputElement>, count: ComposingCount)
    decreases count
  {
    match count
    case Input(n) => |Convert(reg, input[Min(n, |input|)..])| <= |Convert(reg, input)|
    case Surface(_) => true
    case Composite(left, right) =>
      NeverLengthens(reg, input, left) && NeverLengthens(reg, Remaining(reg, input, left), right)
  }

  /** A completion overflows exactly where dropping keystrokes would make the text longer. */
  lemma {:induction false} CompletesExactly(reg: Registry, t: Text, count: ComposingCount)
    requires SilentRegistry(reg) && Valid(reg, t)
    ensures CompletePrefix(reg, t, count).Some? <==> NeverLengthens(reg, t.input, count)
    ensures CompletePrefix(reg, t, count).Some? ==>
              CompletePrefix(reg, t, count).value.input == Remaining(reg, t.input, count)
    decreases count
  {
    hide Convert, SilentRegistry, ForceCursor;
    match count
    case Input(_) =>
    case Surface(n) => ForceIgnoresCursor(reg, t, Min(n, |t.surface|));
    case Composite(left, right) =>
      CompletesExactly(reg, t, left);
      if CompletePrefix(reg, t, left).Some? {
        CompletesExactly(reg, CompletePrefix(reg, t, left).value, right);
      }
  }

  lemma {:induction false} ForceIgnoresCursor(reg: Registry, t: Text, target: nat)
    requires Valid(reg, t)
    ensures Valid(reg, Text(t.input, t.surface, 0))
    ensures var here, there := ForceCursor(reg, t, target), ForceCursor(reg, Text(t.input, t.surface, 0), target);
            here.index == there.index && here.text.input == there.text.input
  {
    hide Convert, Locate;
  }

  /** No completion of any text overflows if and only if the end of an input never shows more
      than the whole of it. */
  lemma {:induction false} NothingOverflows(reg: Registry)
    requires SilentRegistry(reg)
    ensures EndsShowLess(reg) <==> forall t: Text, n: nat :: Valid(reg, t) ==> CompletePrefix(reg, t, Input(n)).Some?
    ensures EndsShowLess(reg) <==>
            forall t: Text, count: ComposingCount :: Valid(reg, t) ==> CompletePrefix(reg, t, count).Some?
  {
    hide Convert, SilentRegistry, CompletePrefix;
    if EndsShowLess(reg) {
      forall t: Text, count: ComposingCount | Valid(reg, t)
        ensures CompletePrefix(reg, t, count).Some?
      {
        CompletesExactly(reg, t, count);
        ShorterEndsNeverLengthen(reg, t.input, count);
      }
    } else {
      var a: seq<InputElement>, b: seq<InputElement> :| |Convert(reg, b)| > |Convert(reg, a + b)|;
      var t := Text(a + b, Convert(reg, a + b), 0);
      CompletesExactly(reg, t, Input(|a|));
      assert (a + b)[|a|..] == b;
      assert Valid(reg, t) && CompletePrefix(reg, t, Input(|a|)).None?;
    }
  }

  ghost predicate EndsShowLess(reg: Registry) {
    forall a: seq<InputElement>, b: seq<InputElement> :: |Convert(reg, b)| <= |Convert(reg, a + b)|
  }

  lemma {:induction false} ShorterEndsNeverLengthen(reg: Registry, input: seq<InputElement>, count: ComposingCount)
    requires EndsShowLess(reg)
    ensures NeverLengthens(reg, input, count)
    decreases count
  {
    hide Convert, ForceCursor, Remaining;
    match count
    case Input(n) =>
      var k := Min(n, |input|);
      assert input[..k] + input[k..] == input;
    case Surface(_) =>
    case Composite(left, right) =>
      ShorterEndsNeverLengthen(reg, input, left);
      ShorterEndsNeverLengthen(reg, Remaining(reg, input, left), right);
  }

  /** `complete_prefix` where the subtraction wraps around: the huge difference moves the cursor
      to the start, and from there to the end. */
  function CompleteWrapping(reg: Registry, t: Text, count: ComposingCount): (r: Text)
    requires SilentRegistry(reg) && Valid(reg, t)
    ensures Valid(reg, r)
    decreases count
  {
    match count
    case Input(n) =>
      var input := t.input[Min(n, |t.input|)..];
      var surface := Convert(reg, input);
      Text(input, surface, if |surface| > |t.surface| then |surface| else Wrapped(Minus(t.cursor, |t.surface| - |surface|), |surface|))
    case Surface(n) =>
      CompleteOneSurface(reg, t, n);
      CompletePrefix(reg, t, Surface(n)).value
    case Composite(left, right) => CompleteWrapping(reg, CompleteWrapping(reg, t, left), right)
  }

  /** Wrap-around changes nothing where nothing overflows, and otherwise still leaves a text in
      step, with the keystrokes that stay. */
  lemma {:induction false} WrappingIsHarmless(reg: Registry, t: Text, count: ComposingCount)
    requires SilentRegistry(reg) && Valid(reg, t)
    ensures CompleteWrapping(reg, t, count).input == Remaining(reg, t.input, count)
    ensures CompletePrefix(reg, t, count).Some? ==> CompleteWrapping(reg, t, count) == CompletePrefix(reg, t, count).value
    decreases count
  {
    hide Convert, SilentRegistry, ForceCursor;
    match count
    case Input(_) =>
    case Surface(n) => ForceIgnoresCursor(reg, t, Min(n, |t.surface|));
    case Composite(left, right) =>
      WrappingIsHarmless(reg, t, left);
      WrappingIsHarmless(reg, CompleteWrapping(reg, t, left), right);
  }

  function PrefixToCursor(reg: Registry, t: Text): Text
    requires Valid(reg, t)
  {
    var forced := ForceCursor(reg, t, t.cursor);
    Text(forced.text.input[..forced.index], t.surface[..t.cursor], t.cursor)
  }

  /** The text before the cursor is a composition of its own, and what it leaves behind
      converts to the text after the cursor. */
  lemma {:induction false} PrefixToCursorIsValid(reg: Registry, t: Text)
    requires SilentRegistry(reg) && Valid(reg, t)
    ensures Valid(reg, PrefixToCursor(reg, t))
    ensures Convert(reg, InsertionSuffix(reg, t)) == t.surface[t.cursor..]
  {
    ForceSplits(reg, t, t.cursor);
  }

  // ----- runs of edits -----

  datatype Edit =
    | Type(elements: seq<InputElement>)
    | Backspace(count: nat)
    | Delete(count: nat)
    | Move(delta: int)
    | Complete(completed: ComposingCount)
    | Stop

  /** One edit; `None` where the program would overflow. */
  ghost function Edited(reg: Registry, t: Text, edit: Edit): Option<Text>
    requires SilentRegistry(reg) && Valid(reg, t)
  {
    match edit
    case Type(elements) => Some(Insert(reg, t, elements))
    case Backspace(count) => Some(DeleteBackward(reg, t, count))
    case Delete(count) => Some(DeleteForward(reg, t, count))
    case Move(delta) => Some(MoveCursor(t, delta))
    case Complete(count) => CompletePrefix(reg, t, count)
    case Stop => Some(EMPTY_TEXT)
  }

  /** What a user sees: a line of text with a cursor. */
  datatype Line = Line(text: seq<Grapheme>, cursor: nat)

  function Shown(t: Text): Line {
    Line(t.surface, t.cursor)
  }

  /** The cursor moves with the text that is taken in front of it; one that would reach the start
      jumps to the end. */
  predicate CursorFollows(before: Line, after: Line)
    requires |after.text| <= |before.text|
  {
    var taken := |before.text| - |after.text|;
    after.cursor == if before.cursor > taken then before.cursor - taken else |after.text|
  }

  /** How a plain line editor answers each edit; typing may rewrite the text before the cursor. */
  ghost predicate PlainStep(edit: Edit, before: Line, after: Line) {
    before.cursor <= |before.text| && after.cursor <= |after.text| &&
    match edit
    case Type(elements) => after.text[after.cursor..] == before.text[before.cursor..] && (elements == [] ==> after == before)
    case Backspace(count) =>
      var n := Min(count, before.cursor);
      after == Line(before.text[..before.cursor - n] + before.text[before.cursor..], before.cursor - n)
    case Delete(count) =>
      var n := Min(count, |before.text| - before.cursor);
      after == Line(before.text[..before.cursor] + before.text[before.cursor + n..], before.cursor)
    case Move(delta) =>
      && after.text == before.text
      && after.cursor == (if before.cursor + delta < 0 then 0
                          else if before.cursor + delta > |before.text| then |before.text|
                          else before.cursor + delta)
    case Complete(count) =>
      && (SurfaceOnly(count) ==> after.text == before.text[Min(Total(count), |before.text|)..])
      && (!count.Composite? ==> |after.text| <= |before.text| && CursorFollows(before, after))
    case Stop => after == Line([], 0)
  }

  lemma {:induction false} EditIsPlain(reg: Registry, t: Text, edit: Edit)
    requires SilentRegistry(reg) && Valid(reg, t) && (edit.Type? ==> Anchored(t))
    ensures Edited(reg, t, edit).Some? ==>
              && Valid(reg, Edited(reg, t, edit).value)
              && PlainStep(edit, Shown(t), Shown(Edited(reg, t, edit).value))
  {
    hide Convert, DeleteSome, DeleteBackward, DeleteForward, Insert, CompletePrefix, SilentRegistry;
    match edit
    case Type(elements) => TypeIsPlain(reg, t, elements);
    case Backspace(_) =>
    case Delete(count) => DeleteForwardIsExact(reg, t, count);
    case Move(_) =>
    case Complete(count) => CompleteIsPlain(reg, t, count);
    case Stop => EmptyTextIsValid(reg);
  }

  lemma {:induction false} EmptyTextIsValid(reg: Registry)
    ensures Valid(reg, EMPTY_TEXT)
  {
  }

  lemma {:induction false} TypeIsPlain(reg: Registry, t: Text, elements: seq<InputElement>)
    requires SilentRegistry(reg) && Valid(reg, t) && Anchored(t)
    ensures Valid(reg, Insert(reg, t, elements))
    ensures PlainStep(Type(elements), Shown(t), Shown(Insert(reg, t, elements)))
  {
    hide Convert;
    if elements != [] {
      InsertKeepsTheRight(reg, t, elements);
      InsertIsValid(reg, t, elements);
    }
  }

  lemma {:induction false} CompletedCursor(reg: Registry, t: Text, count: ComposingCount)
    requires SilentRegistry(reg) && Valid(reg, t) && !count.Composite?
    ensures CompletePrefix(reg, t, count).Some? ==>
              var after := CompletePrefix(reg, t, count).value;
              |after.surface| <= |t.surface| && CursorFollows(Shown(t), Shown(after))
  {
    hide Convert, ForceCursor, SilentRegistry;
  }

  lemma {:induction false} CompleteIsPlain(reg: Registry, t: Text, count: ComposingCount)
    requires SilentRegistry(reg) && Valid(reg, t)
    ensures CompletePrefix(reg, t, count).Some? ==>
              PlainStep(Complete(count), Shown(t), Shown(CompletePrefix(reg, t, count).value))
  {
    hide Convert, CompletePrefix;
    if SurfaceOnly(count) {
      CompleteSurfaceIsExact(reg, t, count);
    }
    if !count.Composite? {
      CompletedCursor(reg, t, count);
    }
  }

  /** A run: every edit succeeds, and typing starts on anchored text. */
  ghost predicate IsRun(reg: Registry, states: seq<Text>, edits: seq<Edit>)
    requires SilentRegistry(reg)
  {
    && |states| == |edits| + 1
    && forall i :: 0 <= i < |edits| ==>
         (Valid(reg, states[i]) ==>
            && (edits[i].Type? ==> Anchored(states[i]))
            && Edited(reg, states[i], edits[i]) == Some(states[i + 1]))
  }

  /** Over any run the shown text stays the conversion of the keystrokes, and each edit does
      to the line what a plain editor does, however the keystrokes were frozen and spliced. */
  lemma {:induction false} RunsStayInStep(reg: Registry, states: seq<Text>, edits: seq<Edit>)
    requires SilentRegistry(reg) && IsRun(reg, states, edits) && Valid(reg, states[0])
    ensures forall i :: 0 <= i < |states| ==> Valid(reg, states[i])
    ensures forall i :: 0 <= i < |edits| ==> PlainStep(edits[i], Shown(states[i]), Shown(states[i + 1]))
    decreases |edits|
  {
    hide Convert, Edited, PlainStep;
    if edits != [] {
      assert Edited(reg, states[0], edits[0]) == Some(states[0 + 1]);
      EditIsPlain(reg, states[0], edits[0]);
      var tail := states[1..];
      forall i | 0 <= i < |edits[1..]|
        ensures Valid(reg, tail[i]) ==>
                  && (edits[1..][i].Type? ==> Anchored(tail[i]))
                  && Edited(reg, tail[i], edits[1..][i]) == Some(tail[i + 1])
      {
        assert edits[1..][i] == edits[i + 1] && tail[i] == states[i + 1] && tail[i + 1] == states[i + 2];
      }
      RunsStayInStep(reg, tail, edits[1..]);
      forall i | 1 <= i < |states|
        ensures Valid(reg, states[i])
      {
        assert tail[i - 1] == states[i];
      }
      forall i | 1 <= i < |edits|
        ensures PlainStep(edits[i], Shown(states[i]), Shown(states[i + 1]))
      {
        assert edits[1..][i - 1] == edits[i] && tail[i - 1] == states[i] && tail[i] == states[i + 1];
      }
    }
  }
}
