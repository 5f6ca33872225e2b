/** Incremental conversion of keystrokes (`input/composing.rs`): runs of one input style
    are converted by that style's table, and never reach into another run. */
module Segments {
  import opened Wrappers
  import opened InputTables

  datatype InputTableId =
    | Empty
    | DefaultRomanToKana
    | DefaultAzik
    | DefaultKanaJis
    | DefaultKanaUs
    | Named(name: string)

  datatype InputStyle = Direct | RomanToKana | Mapped(id: InputTableId)

  const FROZEN := Mapped(Empty)

  datatype Registry = Registry(romanToKana: InputTable, azik: InputTable, kanaJis: InputTable,
                               kanaUs: InputTable, custom: map<string, InputTable>)
  {
    function Resolve(style: InputStyle): Option<InputTable> {
      match style
      case Direct => None
      case RomanToKana => Some(romanToKana)
      case Mapped(Empty) => Some(EMPTY_TABLE)
      case Mapped(DefaultRomanToKana) => Some(romanToKana)
      case Mapped(DefaultAzik) => Some(azik)
      case Mapped(DefaultKanaJis) => Some(kanaJis)
      case Mapped(DefaultKanaUs) => Some(kanaUs)
      case Mapped(Named(name)) => Some(if name in custom then custom[name] else EMPTY_TABLE)
    }
  }

  datatype InputElement = InputElement(piece: InputPiece, style: InputStyle)

  /** The separator that edits leave behind to stop recombination. */
  const SEPARATOR := InputElement(CompositionSeparator, FROZEN)

  datatype Segment = Segment(graphemes: seq<Grapheme>, style: InputStyle)

  datatype Stepped = Stepped(segments: seq<Segment>, deleted: nat)

  // ----- conversion -----

  function UpdateSurface(reg: Registry, surface: seq<Grapheme>, piece: InputPiece, style: InputStyle): (r: Applied)
    ensures r.deleted <= |surface| && |surface| - r.deleted <= |r.buffer|
    ensures r.buffer[..|surface| - r.deleted] == surface[..|surface| - r.deleted]
  {
    match reg.Resolve(style)
    case Some(table) => Apply(table, surface, piece)
    case None => Applied(surface + piece.Shown(), 0)
  }

  /** One keystroke (`update_segments`): the converted runs, and how much text it deleted. */
  function Step(reg: Registry, segments: seq<Segment>, element: InputElement): Stepped {
    if segments != [] && segments[|segments| - 1].style == element.style then
      var applied := UpdateSurface(reg, segments[|segments| - 1].graphemes, element.piece, element.style);
      Stepped(segments[..|segments| - 1] + [Segment(applied.buffer, element.style)], applied.deleted)
    else if segments == [] && element.piece.CompositionSeparator? then
      Stepped(segments, 0)
    else
      Stepped(segments + [Segment(UpdateSurface(reg, [], element.piece, element.style).buffer, element.style)], 0)
  }

  function Run(reg: Registry, segments: seq<Segment>, elements: seq<InputElement>): seq<Segment>
    decreases |elements|
  {
    if elements == [] then segments
    else Run(reg, Step(reg, segments, elements[0]).segments, elements[1..])
  }

  function Flat(segments: seq<Segment>): seq<Grapheme> {
    if segments == [] then []
    else Flat(segments[..|segments| - 1]) + segments[|segments| - 1].graphemes
  }

  function Convert(reg: Registry, elements: seq<InputElement>): seq<Grapheme> {
    Flat(Run(reg, [], elements))
  }

  lemma {:induction false} RunAppend(reg: Registry, segments: seq<Segment>, a: seq<InputElement>, b: seq<InputElement>)
    ensures Run(reg, segments, a + b) == Run(reg, Run(reg, segments, a), b)
    decreases |a|
  {
    hide Step;
    if a == [] {
      assert a + b == b;
    } else {
      assert (a + b)[0] == a[0] && (a + b)[1..] == a[1..] + b;
      RunAppend(reg, Step(reg, segments, a[0]).segments, a[1..], b);
    }
  }

  lemma {:induction false} RunOne(reg: Registry, segments: seq<Segment>, e: InputElement)
    ensures Run(reg, segments, [e]) == Step(reg, segments, e).segments
  {
    assert [e][1..] == [];
    assert Run(reg, Step(reg, segments, e).segments, []) == Step(reg, segments, e).segments;
  }

  lemma {:induction false} FlatLast(init: seq<Segment>, last: Segment)
    ensures Flat(init + [last]) == Flat(init) + last.graphemes
  {
    assert (init + [last])[..|init|] == init;
  }

  /** A keystroke deletes only from the end of the text, and only from the last run. */
  lemma {:induction false} StepKeepsFront(reg: Registry, segments: seq<Segment>, element: InputElement)
    ensures var step := Step(reg, segments, element);
            var before, after := Flat(segments), Flat(step.segments);
            && step.deleted <= |before| && |before| - step.deleted <= |after|
            && after[..|before| - step.deleted] == before[..|before| - step.deleted]
  {
    hide UpdateSurface;
    var step := Step(reg, segments, element);
    if segments != [] && segments[|segments| - 1].style == element.style {
      var init := segments[..|segments| - 1];
      FlatLast(init, step.segments[|segments| - 1]);
    } else if segments != [] || !element.piece.CompositionSeparator? {
      FlatLast(segments, step.segments[|segments|]);
    }
  }

  // ----- silence and locality of one step -----

  /** A lone separator is silent in every table of the registry. */
  ghost predicate SilentRegistry(reg: Registry) {
    forall style :: UpdateSurface(reg, [], CompositionSeparator, style).buffer == []
  }

  lemma {:induction false} SilentTablesMakeSilentRegistry(reg: Registry)
    ensures SilentRegistry(reg) <==>
            && Silent(reg.romanToKana) && Silent(reg.azik) && Silent(reg.kanaJis) && Silent(reg.kanaUs)
            && forall name :: name in reg.custom ==> Silent(reg.custom[name])
  {
    EmptyTableAppends([], CompositionSeparator);
    hide Apply;
    if SilentRegistry(reg) {
      assert UpdateSurface(reg, [], CompositionSeparator, Mapped(DefaultRomanToKana)).buffer == [];
      assert UpdateSurface(reg, [], CompositionSeparator, Mapped(DefaultAzik)).buffer == [];
      assert UpdateSurface(reg, [], CompositionSeparator, Mapped(DefaultKanaJis)).buffer == [];
      assert UpdateSurface(reg, [], CompositionSeparator, Mapped(DefaultKanaUs)).buffer == [];
      forall name | name in reg.custom
        ensures Silent(reg.custom[name])
      {
        assert UpdateSurface(reg, [], CompositionSeparator, Mapped(Named(name))).buffer == [];
      }
    }
  }

  lemma {:induction false} UpdateSurfaceIsLocal(reg: Registry, l: seq<Grapheme>, r: seq<Grapheme>, piece: InputPiece, style: InputStyle)
    requires UpdateSurface(reg, l + r, piece, style).deleted <= |r|
    ensures UpdateSurface(reg, l + r, piece, style) ==
            Applied(l + UpdateSurface(reg, r, piece, style).buffer, UpdateSurface(reg, r, piece, style).deleted)
  {
    hide Apply;
    match reg.Resolve(style)
    case Some(table) => ApplyIsLocal(table, l, r, piece);
    case None =>
      assert (l + r) + piece.Shown() == l + (r + piece.Shown());
  }

  /** `suffix` is what conversion started afresh has made of the text after `prefix`,
      while `full` is what the uninterrupted conversion has made of everything. */
  ghost predicate Continues(full: seq<Segment>, suffix: seq<Segment>, prefix: seq<Grapheme>) {
    && Flat(full) == prefix + Flat(suffix)
    && (suffix != [] ==>
          && full != []
          && full[|full| - 1].style == suffix[|suffix| - 1].style
          && var f, s := full[|full| - 1].graphemes, suffix[|suffix| - 1].graphemes;
             && |s| <= |f| && f[|f| - |s|..] == s
             && (|suffix| > 1 ==> f == s))
  }

  lemma {:induction false} StepSameStyle(reg: Registry, segments: seq<Segment>, e: InputElement)
    requires segments != [] && segments[|segments| - 1].style == e.style
    ensures var init, last := segments[..|segments| - 1], segments[|segments| - 1].graphemes;
            var a := UpdateSurface(reg, last, e.piece, e.style);
            && Step(reg, segments, e) == Stepped(init + [Segment(a.buffer, e.style)], a.deleted)
            && Flat(Step(reg, segments, e).segments) == Flat(init) + a.buffer
            && Flat(segments) == Flat(init) + last
  {
    hide UpdateSurface;
    var init, last := segments[..|segments| - 1], segments[|segments| - 1].graphemes;
    FlatLast(init, Segment(UpdateSurface(reg, last, e.piece, e.style).buffer, e.style));
  }

  lemma {:induction false} StepNewStyle(reg: Registry, segments: seq<Segment>, e: InputElement)
    requires segments == [] || segments[|segments| - 1].style != e.style
    requires segments != [] || !e.piece.CompositionSeparator?
    ensures var made := UpdateSurface(reg, [], e.piece, e.style).buffer;
            && Step(reg, segments, e) == Stepped(segments + [Segment(made, e.style)], 0)
            && Flat(Step(reg, segments, e).segments) == Flat(segments) + made
  {
    hide UpdateSurface;
    FlatLast(segments, Segment(UpdateSurface(reg, [], e.piece, e.style).buffer, e.style));
  }

  lemma {:induction false} ContinuesFromParts(fi: seq<Segment>, si: seq<Segment>, l: seq<Grapheme>, r: seq<Grapheme>,
                           style: InputStyle, prefix: seq<Grapheme>)
    requires Flat(fi) + l == prefix + Flat(si)
    requires si != [] ==> l == []
    ensures Continues(fi + [Segment(l + r, style)], si + [Segment(r, style)], prefix)
  {
    FlatLast(fi, Segment(l + r, style));
    FlatLast(si, Segment(r, style));
    Reassociate(Flat(fi), l, r, prefix, Flat(si));
    assert (l + r)[|l|..] == r;
    if si != [] {
      assert [] + r == r;
    }
  }

  lemma {:induction false} Reassociate(a: seq<Grapheme>, l: seq<Grapheme>, r: seq<Grapheme>, prefix: seq<Grapheme>, b: seq<Grapheme>)
    requires a + l == prefix + b
    ensures a + (l + r) == prefix + (b + r)
  {
    assert a + (l + r) == (a + l) + r;
    assert prefix + (b + r) == (prefix + b) + r;
  }

  lemma {:induction false} ContinuesIntoParts(full: seq<Segment>, suffix: seq<Segment>, prefix: seq<Grapheme>)
    returns (l: seq<Grapheme>, r: seq<Grapheme>)
    requires Continues(full, suffix, prefix) && suffix != []
    ensures r == suffix[|suffix| - 1].graphemes && full[|full| - 1].graphemes == l + r
    ensures Flat(full[..|full| - 1]) + l == prefix + Flat(suffix[..|suffix| - 1])
    ensures suffix[..|suffix| - 1] != [] ==> l == []
    ensures suffix[..|suffix| - 1] == [] ==> Flat(suffix) == r
  {
    var f := full[|full| - 1].graphemes;
    r := suffix[|suffix| - 1].graphemes;
    l := f[..|f| - |r|];
    assert f == l + r;
    var a, b := Flat(full[..|full| - 1]), Flat(suffix[..|suffix| - 1]);
    assert a + (l + r) == prefix + (b + r);
    CancelRight(a, l, prefix, b, r);
    if |suffix| == 1 {
      assert suffix[..0] == [];
      assert [] + r == r;
    }
  }

  lemma {:induction false} CancelRight(a: seq<Grapheme>, l: seq<Grapheme>, p: seq<Grapheme>, b: seq<Grapheme>, r: seq<Grapheme>)
    requires a + (l + r) == p + (b + r)
    ensures a + l == p + b
  {
    assert a + (l + r) == (a + l) + r && p + (b + r) == (p + b) + r;
    assert |a + l| == |p + b|;
    assert a + l == ((a + l) + r)[..|a + l|] && p + b == ((p + b) + r)[..|p + b|];
  }

  lemma {:induction false} ContinuesStepInRun(reg: Registry, full: seq<Segment>, suffix: seq<Segment>, prefix: seq<Grapheme>, e: InputElement)
    requires Continues(full, suffix, prefix)
    requires suffix != [] && full[|full| - 1].style == e.style
    requires |prefix| + Step(reg, full, e).deleted <= |Flat(full)|
    ensures Continues(Step(reg, full, e).segments, Step(reg, suffix, e).segments, prefix)
  {
    hide UpdateSurface, Step;
    StepSameStyle(reg, full, e);
    StepSameStyle(reg, suffix, e);
    var l, r := ContinuesIntoParts(full, suffix, prefix);
    UpdateSurfaceIsLocal(reg, l, r, e.piece, e.style);
    ContinuesFromParts(full[..|full| - 1], suffix[..|suffix| - 1], l,
                       UpdateSurface(reg, r, e.piece, e.style).buffer, e.style, prefix);
  }

  lemma {:induction false} ContinuesFirstStep(reg: Registry, full: seq<Segment>, prefix: seq<Grapheme>, e: InputElement)
    requires SilentRegistry(reg)
    requires Flat(full) == prefix && Step(reg, full, e).deleted == 0
    ensures Continues(Step(reg, full, e).segments, Step(reg, [], e).segments, prefix)
  {
    hide UpdateSurface;
    var made := UpdateSurface(reg, [], e.piece, e.style).buffer;
    assert prefix + [] == prefix;
    if full != [] && full[|full| - 1].style == e.style {
      StepSameStyle(reg, full, e);
      var init, f := full[..|full| - 1], full[|full| - 1].graphemes;
      assert f + [] == f;
      UpdateSurfaceIsLocal(reg, f, [], e.piece, e.style);
      if e.piece.CompositionSeparator? {
        assert f + made == f;
      } else {
        StepNewStyle(reg, [], e);
        ContinuesFromParts(init, [], f, made, e.style, prefix);
        assert [] + [Segment(made, e.style)] == [Segment(made, e.style)];
      }
    } else if full != [] || !e.piece.CompositionSeparator? {
      StepNewStyle(reg, full, e);
      if !e.piece.CompositionSeparator? {
        StepNewStyle(reg, [], e);
        ContinuesFromParts(full, [], [], made, e.style, prefix);
        assert [] + made == made;
      } else {
        assert prefix + made == prefix;
      }
    }
  }

  /** A step that deletes nothing of `prefix` keeps both conversions in agreement. */
  lemma {:induction false} ContinuesStep(reg: Registry, full: seq<Segment>, suffix: seq<Segment>, prefix: seq<Grapheme>, e: InputElement)
    requires SilentRegistry(reg)
    requires Continues(full, suffix, prefix)
    requires |prefix| + Step(reg, full, e).deleted <= |Flat(full)|
    ensures Continues(Step(reg, full, e).segments, Step(reg, suffix, e).segments, prefix)
  {
    hide UpdateSurface, Step;
    if suffix == [] {
      assert Flat(full) == prefix + [] == prefix;
      ContinuesFirstStep(reg, full, prefix, e);
    } else if full[|full| - 1].style == e.style {
      ContinuesStepInRun(reg, full, suffix, prefix, e);
    } else {
      StepNewStyle(reg, full, e);
      StepNewStyle(reg, suffix, e);
      var made := UpdateSurface(reg, [], e.piece, e.style).buffer;
      assert Flat(full) + [] == prefix + Flat(suffix);
      assert [] + made == made;
      ContinuesFromParts(full, suffix, [], made, e.style, prefix);
    }
  }

  // ----- clean cuts -----

  /** Converting `elements` from `segments` never deletes into the first `kept` graphemes. */
  ghost predicate Clean(reg: Registry, segments: seq<Segment>, elements: seq<InputElement>, kept: nat)
    decreases |elements|
  {
    elements == []
    || (kept + Step(reg, segments, elements[0]).deleted <= |Flat(segments)|
        && Clean(reg, Step(reg, segments, elements[0]).segments, elements[1..], kept))
  }

  /** Position `i` of the input: no later keystroke deletes text converted before it. */
  ghost predicate CleanCut(reg: Registry, input: seq<InputElement>, i: nat)
    requires i <= |input|
  {
    Clean(reg, Run(reg, [], input[..i]), input[i..], |Convert(reg, input[..i])|)
  }

  lemma {:induction false} CleanAppend(reg: Registry, segments: seq<Segment>, a: seq<InputElement>, b: seq<InputElement>, kept: nat)
    ensures Clean(reg, segments, a + b, kept) <==>
            Clean(reg, segments, a, kept) && Clean(reg, Run(reg, segments, a), b, kept)
    decreases |a|
  {
    hide Step;
    if a == [] {
      assert a + b == b;
    } else {
      assert (a + b)[0] == a[0] && (a + b)[1..] == a[1..] + b;
      CleanAppend(reg, Step(reg, segments, a[0]).segments, a[1..], b, kept);
    }
  }

  lemma {:induction false} CleanOne(reg: Registry, segments: seq<Segment>, e: InputElement, kept: nat)
    ensures Clean(reg, segments, [e], kept) <==> kept + Step(reg, segments, e).deleted <= |Flat(segments)|
  {
    assert [e][1..] == [];
    assert Clean(reg, Step(reg, segments, e).segments, [], kept);
  }

  lemma {:induction false} CleanKeepsText(reg: Registry, segments: seq<Segment>, elements: seq<InputElement>, kept: nat)
    requires kept <= |Flat(segments)| && Clean(reg, segments, elements, kept)
    ensures var after := Flat(Run(reg, segments, elements));
            kept <= |after| && after[..kept] == Flat(segments)[..kept]
    decreases |elements|
  {
    hide Step, Flat;
    if elements != [] {
      StepKeepsFront(reg, segments, elements[0]);
      var step := Step(reg, segments, elements[0]);
      CleanKeepsText(reg, step.segments, elements[1..], kept);
      PrefixOfPrefix(Flat(step.segments), Flat(segments), |Flat(segments)| - step.deleted, kept);
    }
  }

  lemma {:induction false} PrefixOfPrefix(a: seq<Grapheme>, b: seq<Grapheme>, n: nat, k: nat)
    requires k <= n <= |a| && n <= |b| && a[..n] == b[..n]
    ensures a[..k] == b[..k]
  {
    assert a[..k] == a[..n][..k];
    assert b[..k] == b[..n][..k];
  }

  lemma {:induction false} CleanWeaken(reg: Registry, segments: seq<Segment>, elements: seq<InputElement>, kept: nat, less: nat)
    requires less <= kept && Clean(reg, segments, elements, kept)
    ensures Clean(reg, segments, elements, less)
    decreases |elements|
  {
    hide Step, Flat;
    if elements != [] {
      CleanWeaken(reg, Step(reg, segments, elements[0]).segments, elements[1..], kept, less);
    }
  }

  lemma {:induction false} ContinuesRun(reg: Registry, full: seq<Segment>, suffix: seq<Segment>, prefix: seq<Grapheme>,
                                        elements: seq<InputElement>)
    requires SilentRegistry(reg)
    requires Continues(full, suffix, prefix) && Clean(reg, full, elements, |prefix|)
    ensures Continues(Run(reg, full, elements), Run(reg, suffix, elements), prefix)
    decreases |elements|
  {
    hide Step, Flat, Continues;
    if elements != [] {
      ContinuesStep(reg, full, suffix, prefix, elements[0]);
      ContinuesRun(reg, Step(reg, full, elements[0]).segments, Step(reg, suffix, elements[0]).segments,
                   prefix, elements[1..]);
    }
  }

  /** At a clean cut both halves of the input convert on their own. */
  lemma {:induction false} CleanCutFactors(reg: Registry, input: seq<InputElement>, i: nat)
    requires SilentRegistry(reg)
    requires i <= |input| && CleanCut(reg, input, i)
    ensures Convert(reg, input) == Convert(reg, input[..i]) + Convert(reg, input[i..])
  {
    hide Step, Clean, Run;
    var a, b := input[..i], input[i..];
    var left := Run(reg, [], a);
    RunAppend(reg, [], a, b);
    assert a + b == input;
    assert Flat(left) == Flat(left) + Flat([]);
    ContinuesRun(reg, left, [], Flat(left), b);
  }

  /** Silence is exactly what the factorization needs: without it some input with a clean
      cut converts to more than its two halves. */
  lemma {:induction false} FactorizationNeedsSilence(reg: Registry)
    ensures SilentRegistry(reg) <==>
            forall input: seq<InputElement>, i: nat :: i <= |input| && CleanCut(reg, input, i) ==>
              Convert(reg, input) == Convert(reg, input[..i]) + Convert(reg, input[i..])
  {
    hide Convert, UpdateSurface, Clean, Run;
    if SilentRegistry(reg) {
      forall input: seq<InputElement>, i: nat | i <= |input| && CleanCut(reg, input, i)
        ensures Convert(reg, input) == Convert(reg, input[..i]) + Convert(reg, input[i..])
      {
        CleanCutFactors(reg, input, i);
      }
    } else {
      var style :| UpdateSurface(reg, [], CompositionSeparator, style).buffer != [];
      var a := InputElement(Character(Grapheme("a")), Direct);
      var separator := InputElement(CompositionSeparator, style);
      LoudSeparatorBreaksFactorization(reg, a, separator);
      var input := [a, separator];
      assert 1 <= |input| && CleanCut(reg, input, 1);
    }
  }

  lemma {:induction false} LoudSeparatorBreaksFactorization(reg: Registry, a: InputElement, separator: InputElement)
    requires a.piece.Character? && a.style == Direct && separator.piece.CompositionSeparator?
    requires UpdateSurface(reg, [], CompositionSeparator, separator.style).buffer != []
    ensures CleanCut(reg, [a, separator], 1)
    ensures Convert(reg, [a, separator]) != Convert(reg, [a, separator][..1]) + Convert(reg, [a, separator][1..])
  {
    var input := [a, separator];
    assert separator.style != Direct;
    assert input[..1] == [a] && input[1..] == [separator] && input == [a] + [separator];
    RunOne(reg, [], a);
    RunOne(reg, [], separator);
    var left := Run(reg, [], [a]);
    RunAppend(reg, [], [a], [separator]);
    RunOne(reg, left, separator);
    StepNewStyle(reg, [], a);
    StepNewStyle(reg, left, separator);
    CleanOne(reg, left, separator, |Flat(left)|);
    assert Convert(reg, [separator]) == Flat([]) == [];
  }

  // ----- frozen text -----

  /** The text beyond `kept` shields everything before it from later keystrokes. */
  ghost predicate Sealed(segments: seq<Segment>, kept: nat) {
    && kept <= |Flat(segments)|
    && (segments == [] || segments[|segments| - 1].style == FROZEN
        || kept + |segments[|segments| - 1].graphemes| <= |Flat(segments)|)
  }

  lemma {:induction false} FrozenAppends(reg: Registry, surface: seq<Grapheme>, piece: InputPiece)
    ensures UpdateSurface(reg, surface, piece, FROZEN) == Applied(surface + piece.Shown(), 0)
  {
    EmptyTableAppends(surface, piece);
  }

  lemma {:induction false} SealedStep(reg: Registry, segments: seq<Segment>, e: InputElement, kept: nat)
    requires Sealed(segments, kept)
    ensures kept + Step(reg, segments, e).deleted <= |Flat(segments)|
    ensures Sealed(Step(reg, segments, e).segments, kept)
  {
    hide UpdateSurface;
    if segments != [] && segments[|segments| - 1].style == e.style {
      StepSameStyle(reg, segments, e);
      FrozenAppends(reg, segments[|segments| - 1].graphemes, e.piece);
    } else if segments != [] || !e.piece.CompositionSeparator? {
      StepNewStyle(reg, segments, e);
    }
  }

  lemma {:induction false} SealedIsClean(reg: Registry, segments: seq<Segment>, elements: seq<InputElement>, kept: nat)
    requires Sealed(segments, kept)
    ensures Clean(reg, segments, elements, kept)
    decreases |elements|
  {
    hide Step, Flat, Sealed;
    if elements != [] {
      SealedStep(reg, segments, elements[0], kept);
      SealedIsClean(reg, Step(reg, segments, elements[0]).segments, elements[1..], kept);
    }
  }

  /** A cut behind a frozen element, or behind nothing but dropped separators, is clean. */
  lemma {:induction false} CutBehindFrozen(reg: Registry, a: seq<InputElement>, b: seq<InputElement>)
    requires a != [] && a[|a| - 1].style == FROZEN
    ensures CleanCut(reg, a + b, |a|)
  {
    hide UpdateSurface, Clean;
    var init := a[..|a| - 1];
    var left := Run(reg, [], init);
    assert a == init + [a[|a| - 1]];
    RunAppend(reg, [], init, [a[|a| - 1]]);
    RunOne(reg, left, a[|a| - 1]);
    SealedIsClean(reg, Run(reg, [], a), b, |Convert(reg, a)|);
    assert (a + b)[..|a|] == a && (a + b)[|a|..] == b;
  }

  // ----- changes of style -----

  lemma {:induction false} LastStyle(reg: Registry, a: seq<InputElement>)
    requires a != [] && Run(reg, [], a) != []
    ensures var segments := Run(reg, [], a); segments[|segments| - 1].style == a[|a| - 1].style
  {
    hide UpdateSurface, Run;
    var init, last := a[..|a| - 1], a[|a| - 1];
    assert a == init + [last];
    RunAppend(reg, [], init, [last]);
    RunOne(reg, Run(reg, [], init), last);
  }

  /** A cut where the style changes is clean: no table reaches into the text of another style. */
  lemma {:induction false} StyleCut(reg: Registry, a: seq<InputElement>, b: seq<InputElement>)
    requires a == [] || b == [] || a[|a| - 1].style != b[0].style
    ensures CleanCut(reg, a + b, |a|)
  {
    hide UpdateSurface, Step, Run;
    var left := Run(reg, [], a);
    assert (a + b)[..|a|] == a && (a + b)[|a|..] == b;
    if a == [] {
      StartsEmpty(reg);
    }
    if left == [] {
      SealedIsClean(reg, left, b, 0);
    } else if b != [] {
      LastStyle(reg, a);
      StepNewStyle(reg, left, b[0]);
      SealedIsClean(reg, Step(reg, left, b[0]).segments, b[1..], |Flat(left)|);
    }
  }

  lemma {:induction false} StartsEmpty(reg: Registry)
    ensures Run(reg, [], []) == []
  {
  }

  function Frozen(text: seq<Grapheme>): (r: seq<InputElement>)
    ensures |r| == |text|
    ensures forall k :: 0 <= k < |r| ==> r[k] == InputElement(Character(text[k]), FROZEN)
  {
    seq(|text|, k requires 0 <= k < |text| => InputElement(Character(text[k]), FROZEN))
  }

  /** Frozen graphemes are appended as they are. */
  lemma {:induction false} FrozenRun(reg: Registry, segments: seq<Segment>, text: seq<Grapheme>)
    ensures Flat(Run(reg, segments, Frozen(text))) == Flat(segments) + text
    ensures Clean(reg, segments, Frozen(text), |Flat(segments)|)
    decreases |text|
  {
    hide Step, Flat;
    var elements := Frozen(text);
    if text == [] {
      assert Flat(segments) + [] == Flat(segments);
    } else {
      FrozenStep(reg, segments, text[0]);
      var step := Step(reg, segments, elements[0]);
      assert elements[1..] == Frozen(text[1..]);
      FrozenRun(reg, step.segments, text[1..]);
      CleanWeaken(reg, step.segments, elements[1..], |Flat(step.segments)|, |Flat(segments)|);
      AppendOne(Flat(segments), text);
    }
  }

  lemma {:induction false} AppendOne(a: seq<Grapheme>, text: seq<Grapheme>)
    requires text != []
    ensures (a + [text[0]]) + text[1..] == a + text
  {
  }

  lemma {:induction false} FrozenStep(reg: Registry, segments: seq<Segment>, g: Grapheme)
    ensures var step := Step(reg, segments, InputElement(Character(g), FROZEN));
            step.deleted == 0 && Flat(step.segments) == Flat(segments) + [g]
  {
    var e := InputElement(Character(g), FROZEN);
    if segments != [] && segments[|segments| - 1].style == FROZEN {
      StepSameStyle(reg, segments, e);
      var last := segments[|segments| - 1].graphemes;
      FrozenAppends(reg, last, e.piece);
      assert Flat(segments[..|segments| - 1]) + (last + [g]) == (Flat(segments[..|segments| - 1]) + last) + [g];
    } else {
      StepNewStyle(reg, segments, e);
      FrozenAppends(reg, [], e.piece);
      assert [] + [g] == [g];
    }
  }

  /** A frozen separator at the end of the input shows nothing. */
  lemma {:induction false} TrailingSeparatorIsSilent(reg: Registry, a: seq<InputElement>)
    ensures Convert(reg, a + [SEPARATOR]) == Convert(reg, a)
  {
    var left := Run(reg, [], a);
    RunAppend(reg, [], a, [SEPARATOR]);
    RunOne(reg, left, SEPARATOR);
    if left != [] && left[|left| - 1].style == FROZEN {
      StepSameStyle(reg, left, SEPARATOR);
      FrozenAppends(reg, left[|left| - 1].graphemes, CompositionSeparator);
    } else if left != [] {
      StepNewStyle(reg, left, SEPARATOR);
      FrozenAppends(reg, [], CompositionSeparator);
    }
  }
}
