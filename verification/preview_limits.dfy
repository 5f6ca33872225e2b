/** What Enter discards behind a preview or a live conversion, and sessions that lose text so. */
module PreviewLimits {
  import opened Wrappers
  import opened InputTables
  import opened Segments
  import opened Composing
  import opened Edits
  import opened SessionValues
  import opened Sessions

  // ----- exactly what is lost -----

  /** Enter commits a candidate and discards exactly what stays behind it, or commits the whole
      text. */
  method EnterDiscards(s: Session, env: Environment) returns (r: StateResponse, ghost taken: Option<Candidate>)
    requires s.Valid() && WellBehaved(s.registry, env) && Reliable(env)
    requires s.mode == InputMode.Composing || s.mode == Previewing
    modifies s
    ensures s.Valid() && s.mode == NoInput && s.composing == EMPTY_TEXT
    ensures match taken
            case None => r.commit == old(s.composing).surface && old(s.Behind()) == []
            case Some(c) =>
              && Completable(s.registry, old(s.composing), c) && r.commit == c.text
              && Rest(s.registry, old(s.composing), c) == old(s.Behind())
    ensures old(s.mode) == InputMode.Composing ==> taken == old(s.live)
  {
    hide GoodRegistry, InStep, WindowFits, PredictionFits, Completable, Rest, WellBehaved, Reliable;
    LiveCompletable(s.registry, s.composing, s.segment, s.Shown());
    taken := None;
    if s.mode == Previewing && s.preview.Some? {
      OneFits(s.registry, s.composing, s.segment, s.Shown(), s.preview.value);
      taken := Some(s.display[s.preview.value]);
    } else if s.mode == InputMode.Composing {
      taken := s.live;
    }
    var result := s.Confirm(env);
    r := result.value;
  }

  /** Up at the top of a list, Escape and Enter discard exactly what the list had one position
      before the preview's, or behind the best candidate: all of the text is kept if and only if
      that was nothing. */
  method RevealThenEnter(s: Session, env: Environment) returns (r: StateResponse, ghost taken: Candidate)
    requires s.Valid() && WellBehaved(s.registry, env) && Reliable(env)
    requires s.mode == Selecting && s.selected == 0 && s.additional < MAX_ADDITIONAL
    requires s.preview.Some? && !s.behaviour.liveConversion
    modifies s
    ensures s.Valid() && s.mode == NoInput && s.composing == EMPTY_TEXT
    ensures Completable(s.registry, old(s.composing), taken) && r.commit == taken.text
    ensures Rest(s.registry, old(s.composing), taken) == old(s.BehindOneDown())
  {
    hide GoodRegistry, InStep, WindowFits, PredictionFits, Completable, Rest, WellBehaved, Reliable, OneDown;
    var up := s.PressUp(env);
    OneFits(s.registry, s.composing, s.segment, s.Shown(), s.preview.value);
    taken := s.display[s.preview.value];
    var escaped := s.PressEscape();
    var confirmed := s.Confirm(env);
    r := confirmed.value;
  }

  /** Shift with an arrow, Escape and Enter discard exactly what the keystrokes show that the best
      conversion of the segment does not take, where that takes all of the segment. For surface
      counts that is nothing if and only if they count all of the text. */
  method ResizeThenEnter(s: Session, forward: bool, env: Environment)
    returns (r: StateResponse, ghost resized: Text, ghost taken: Option<Candidate>)
    requires s.Valid() && WellBehaved(s.registry, env) && Reliable(env)
    requires s.Active() && !s.behaviour.liveConversion
    modifies s
    ensures s.Valid() && s.mode == NoInput && s.composing == EMPTY_TEXT
    ensures resized == Text(old(s.composing).input, old(s.composing).surface,
                            NextEnd(|old(s.composing).surface|, old(s.SelectionEnd()), forward))
    ensures InStep(s.registry, resized) && BestOf(s.registry, resized, taken, env)
    ensures match taken
            case None => r.commit == resized.surface
            case Some(c) =>
              && Completable(s.registry, resized, c) && r.commit == c.text
              && Rest(s.registry, resized, c) == Convert(s.registry, Remaining(s.registry, resized.input, c.count))
              && (resized.cursor == |resized.surface| ==> Rest(s.registry, resized, c) == [])
              && (SurfaceOnly(c.count) ==>
                    && Total(c.count) >= resized.cursor
                    && (Rest(s.registry, resized, c) == [] <==> Total(c.count) >= |resized.surface|))
  {
    hide GoodRegistry, InStep, WindowFits, PredictionFits, Completable, Rest, WellBehaved, NextEnd, BestOf,
         Session.Offered, Convert, Remaining;
    var sized := s.Resize(forward, env);
    resized := s.composing;
    taken := None;
    if s.preview.Some? {
      OneFits(s.registry, s.composing, s.segment, s.Shown(), s.preview.value);
      taken := Some(s.display[s.preview.value]);
      RestIsConversion(s.registry, resized, taken.value);
    }
    PreviewedIsBest(s, env);
    var escaped := s.PressEscape();
    var confirmed := s.Confirm(env);
    r := confirmed.value;
  }

  /** The candidate previewed for a segment counts what the best conversion of the segment counts;
      there is one exactly if that takes all of the segment. */
  ghost predicate BestOf(reg: Registry, t: Text, taken: Option<Candidate>, env: Environment)
    requires InStep(reg, t)
  {
    var asked := TargetOf(reg, t, Some(t.cursor));
    var found := env.convert(t, asked);
    && found.Ok? && AllCompletable(reg, asked, found.value.main)
    && (taken.Some? <==> found.value.main != [] && TakesAll(reg, asked, found.value.main[0]))
    && (taken.Some? ==> taken.value.count == found.value.main[0].count)
  }

  lemma {:induction false} PreviewedIsBest(s: Session, env: Environment)
    requires s.Core() && s.segment == Some(s.composing.cursor) && s.Offered(env)
    ensures s.preview.Some? ==> s.preview.value < |s.display|
    ensures BestOf(s.registry, s.composing, if s.preview.Some? then Some(s.display[s.preview.value]) else None, env)
  {
    hide GoodRegistry, InStep, Completable, Rest, TargetOf;
  }

  // ----- sessions that lose text -----

  /** Nothing is combined. */
  const PLAIN := Registry(EMPTY_TABLE, EMPTY_TABLE, EMPTY_TABLE, EMPTY_TABLE, map[])

  lemma {:induction false} PlainIsGood()
    ensures GoodRegistry(PLAIN)
  {
    hide Apply, SilentRegistry, Shows;
    EmptyTableAppends([], CompositionSeparator);
    SilentTablesMakeSilentRegistry(PLAIN);
    WritingTablesShow(PLAIN);
  }

  /** A converter that always finds the same candidates. */
  function Finding(main: seq<Candidate>, clauses: seq<Candidate>): Environment {
    Environment((_, _) => Ok(Conversion(main, clauses, None)), _ => false, false, false, false, false, false,
                _ => Ok([]), text => Ok(text), (_, _) => None, (_, _) => [[], [], [], [], []])
  }

  lemma {:induction false} FindingIsGood(main: seq<Candidate>, clauses: seq<Candidate>)
    requires forall c :: c in main + clauses ==> SurfaceOnly(c.count)
    ensures WellBehaved(PLAIN, Finding(main, clauses)) && Reliable(Finding(main, clauses))
  {
    hide GoodRegistry, InStep, Completable, SurfaceOnly;
    PlainIsGood();
    forall t: Text, c: Candidate | InStep(PLAIN, t) && c in main + clauses
      ensures Completable(PLAIN, t, c)
    {
      TakesAllExactly(PLAIN, t, c);
    }
  }

  /** A new session in which two characters have been typed. */
  method TypeTwo(behaviour: Behaviour, a: Grapheme, b: Grapheme, env: Environment) returns (s: Session)
    requires WellBehaved(PLAIN, env) && Reliable(env)
    ensures fresh(s) && s.Valid() && s.mode == InputMode.Composing
    ensures s.registry == PLAIN && s.behaviour == behaviour && s.style == Direct
    ensures s.composing.surface == [a, b] && s.composing.cursor == 2 && s.language == Japanese
    ensures s.segment.None? && !s.lastWasBackspace && s.Offered(env) && s.OfferedLive(env)
  {
    hide GoodRegistry, InStep, WindowFits, PredictionFits, WellBehaved, Reliable, TypeInto, Session.Offered, Session.OfferedLive;
    PlainIsGood();
    s := new Session(PLAIN, behaviour, Direct, 1);
    var event := KeyEvent(TypeKey, [a, b], [], [], false, true, true, None, None, "");
    assert Keystrokes(Japanese, Direct, event) == Characters([a, b], Direct);
    EmptyTextInStep(PLAIN);
    CharactersShow([a, b], Direct);
    DirectTextAppends(PLAIN, EMPTY_TEXT, [a, b]);
    assert [] + [a, b] == [a, b];
    var typed := s.TypeKeyEvent(event, env);
    assert s.composing.surface[s.composing.cursor..] == EMPTY_TEXT.surface[EMPTY_TEXT.cursor..] == [];
  }

  /** Two characters, shift with the left arrow, Escape and Enter: the second one is gone. */
  method ResizingLosesText(a: Grapheme, b: Grapheme)
    returns (s: Session, r: StateResponse, ghost before: Text, ghost taken: Candidate)
    ensures InStep(PLAIN, before) && before.surface == [a, b]
    ensures Completable(PLAIN, before, taken) && r.commit == taken.text && Rest(PLAIN, before, taken) == [b]
    ensures s.composing == EMPTY_TEXT
  {
    hide GoodRegistry, InStep, WindowFits, PredictionFits, Completable, Rest, WellBehaved, Reliable;
    var c := Candidate([a], Surface(1), [a], false);
    var env := Finding([c], []);
    FindingIsGood([c], []);
    s := TypeTwo(Behaviour(false, false, false), a, b, env);
    ghost var found;
    r, before, found := ResizeThenEnter(s, false, env);
    TakesAllExactly(PLAIN, TargetOf(PLAIN, before, Some(before.cursor)), c);
    taken := found.value;
    TakesAllExactly(PLAIN, before, taken);
  }

  /** Two characters, Down, Up, Escape and Enter: the second one is gone. */
  method RevealingLosesText(a: Grapheme, b: Grapheme)
    returns (s: Session, r: StateResponse, ghost before: Text, ghost taken: Candidate)
    ensures InStep(PLAIN, before) && before.surface == [a, b]
    ensures Completable(PLAIN, before, taken) && r.commit == taken.text && Rest(PLAIN, before, taken) == [b]
    ensures s.composing == EMPTY_TEXT
  {
    hide GoodRegistry, InStep, WindowFits, PredictionFits, Completable, Rest, WellBehaved, Reliable, TypeInto, Offers,
         Session.LiveOf, Session.OfferedLive, Session.ListedCandidates;
    var clause := Candidate([a], Surface(1), [a], false);
    var whole := Candidate([a, b], Surface(2), [a, b], false);
    var env := Finding([whole], [clause]);
    FindingIsGood([whole], [clause]);
    s := TypeTwo(Behaviour(false, false, false), a, b, env);
    SeparatorShowsNothing(PLAIN, s.composing);
    var down := s.PressDown(env);
    before := s.composing;
    PartialFirst(before, whole, clause, s.display, s.preview);
    OneFits(PLAIN, before, s.segment, s.Shown(), 0);
    r, taken := RevealThenEnter(s, env);
  }

  /** A partial conversion is listed before the preview. */
  lemma {:induction false} PartialFirst(t: Text, whole: Candidate, clause: Candidate, display: seq<Candidate>, preview: Option<nat>)
    requires InStep(PLAIN, t) && |t.surface| == 2 && whole.count == Surface(2) && clause.count == Surface(1) && whole.text != clause.text
    requires Offers(PLAIN, t, false, Conversion([whole], [clause], None), display, preview)
    ensures display == [clause, whole] && preview == Some(1)
    ensures Completable(PLAIN, t, clause) && Rest(PLAIN, t, clause) == t.surface[1..]
  {
    hide GoodRegistry, InStep, Completable, Rest;
    TakesAllExactly(PLAIN, t, whole);
    TakesAllExactly(PLAIN, t, clause);
    assert [clause] + [whole] == [clause, whole];
    assert [clause, whole][..1] == [clause] && [clause][..0] == [];
    assert Merged([clause]) == [clause];
    assert Merged([clause, whole]) == [clause, whole];
  }

  /** A separator typed without a table shows nothing. */
  lemma {:induction false} SeparatorShowsNothing(reg: Registry, t: Text)
    requires InStep(reg, t) && t.cursor == |t.surface| > 0
    ensures var r := TypeInto(reg, t, [InputElement(CompositionSeparator, Direct)]);
            r.surface == t.surface && r.cursor == |r.surface|
  {
    hide Step, Flat, Run, SilentRegistry, Shows, Insert;
    var e := InputElement(CompositionSeparator, Direct);
    var front := InsertionPrefix(reg, t);
    InsertKeepsTheRight(reg, t, [e]);
    RunAppend(reg, [], front, [e]);
    DirectSeparatorStep(reg, Run(reg, [], front), e);
    var r := Insert(reg, t, [e]);
    assert t.surface[..t.cursor] == t.surface && t.surface[t.cursor..] == [];
    assert r.surface == r.surface[..r.cursor] + r.surface[r.cursor..];
  }

  lemma {:induction false} DirectSeparatorStep(reg: Registry, segments: seq<Segment>, e: InputElement)
    requires e == InputElement(CompositionSeparator, Direct)
    ensures Flat(Run(reg, segments, [e])) == Flat(segments)
  {
    RunOne(reg, segments, e);
    if segments != [] && segments[|segments| - 1].style == Direct {
      StepSameStyle(reg, segments, e);
      assert segments[|segments| - 1].graphemes + [] == segments[|segments| - 1].graphemes;
    } else if segments != [] {
      StepNewStyle(reg, segments, e);
      assert Flat(segments) + [] == Flat(segments);
    }
  }

  /** Two characters and Enter, with a live conversion of the first one: the second one is gone. */
  method LiveConversionLosesText(a: Grapheme, b: Grapheme)
    returns (s: Session, r: StateResponse, ghost before: Text, ghost taken: Candidate)
    ensures InStep(PLAIN, before) && before.surface == [a, b]
    ensures Completable(PLAIN, before, taken) && r.commit == taken.text && Rest(PLAIN, before, taken) == [b]
    ensures s.composing == EMPTY_TEXT
  {
    hide GoodRegistry, InStep, WindowFits, PredictionFits, Completable, Rest, WellBehaved, Reliable;
    var c := Candidate([a], Surface(1), [a], false);
    var env := Finding([c], []);
    FindingIsGood([c], []);
    s := TypeTwo(Behaviour(true, false, false), a, b, env);
    before, taken := s.composing, c;
    TakesAllExactly(PLAIN, before, c);
    ghost var found;
    r, found := EnterDiscards(s, env);
  }
}
