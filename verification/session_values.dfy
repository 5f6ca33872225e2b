/** The composition as a daemon session sees it (`daemon/engine.rs` over `session.rs`): typing,
    erasing, taking a candidate, and when typing always shows something. */
module SessionValues {
  import opened Wrappers
  import opened Numbers
  import opened InputTables
  import opened Segments
  import opened Composing
  import opened Edits

  // ----- typing shows something -----

  predicate HasPiece(elements: seq<InputElement>) {
    exists e :: e in elements && !e.piece.CompositionSeparator?
  }

  /** Keystrokes that are not all separators show something. */
  ghost predicate Shows(reg: Registry) {
    forall elements: seq<InputElement> :: HasPiece(elements) ==> Convert(reg, elements) != []
  }

  /** No keystroke takes away all the text there is without leaving any of its own, whatever
      that text is. */
  ghost predicate Leaving(reg: Registry) {
    forall surface: seq<Grapheme>, piece: InputPiece, style: InputStyle ::
      surface != [] || !piece.CompositionSeparator? ==> UpdateSurface(reg, surface, piece, style).buffer != []
  }

  /** A rule writes at least one character, unless it only swallows a lone separator. */
  predicate WritesSomething(m: Mapping) {
    m.key == [Piece(CompositionSeparator)] || exists i :: 0 <= i < |m.value| && m.value[i].Glyph?
  }

  predicate AllWrite(table: InputTable) {
    forall i :: 0 <= i < |table.mappings| ==> WritesSomething(table.mappings[i])
  }

  lemma {:induction false} ExpandKeepsGlyphs(value: seq<ValueElement>, wildcard: Option<InputPiece>, i: nat)
    requires i < |value| && value[i].Glyph?
    ensures Expand(value, wildcard) != []
  {
    if i > 0 {
      ExpandKeepsGlyphs(value[1..], wildcard, i - 1);
    }
  }

  lemma {:induction false} LoneSeparator(table: InputTable, key: seq<KeyElement>, surface: seq<Grapheme>, piece: InputPiece)
    requires key == [Piece(CompositionSeparator)] && Matches(table, key, surface, piece)
    ensures piece.CompositionSeparator?
  {
    assert ElementMatches(KeyAt(key, 0), Current(surface, piece, 0));
  }

  lemma {:induction false} ApplyLeaves(table: InputTable, surface: seq<Grapheme>, piece: InputPiece)
    requires AllWrite(table) && (surface != [] || !piece.CompositionSeparator?)
    ensures Apply(table, surface, piece).buffer != []
  {
    hide Outranks, Matches, BestAmong, Wildcard, WildcardCount, Expand;
    var best := Best(table, surface, piece);
    if best.Some? {
      var m := table.mappings[best.value.mappingIndex];
      assert WritesSomething(m);
      if m.key == [Piece(CompositionSeparator)] {
        LoneSeparator(table, m.key, surface, piece);
      } else {
        var i :| 0 <= i < |m.value| && m.value[i].Glyph?;
        ExpandKeepsGlyphs(m.value, best.value.resolvedWildcard, i);
      }
    }
  }

  lemma {:induction false} WritingTablesLeave(reg: Registry)
    requires AllWrite(reg.romanToKana) && AllWrite(reg.azik) && AllWrite(reg.kanaJis) && AllWrite(reg.kanaUs)
    requires forall name :: name in reg.custom ==> AllWrite(reg.custom[name])
    ensures Leaving(reg)
  {
    hide Apply;
    forall surface: seq<Grapheme>, piece: InputPiece, style: InputStyle | surface != [] || !piece.CompositionSeparator?
      ensures UpdateSurface(reg, surface, piece, style).buffer != []
    {
      match reg.Resolve(style)
      case None =>
      case Some(table) => ApplyLeaves(table, surface, piece);
    }
  }

  lemma {:induction false} StepShows(reg: Registry, segments: seq<Segment>, e: InputElement)
    requires Leaving(reg) && (Flat(segments) != [] || !e.piece.CompositionSeparator?)
    ensures Flat(Step(reg, segments, e).segments) != []
  {
    hide UpdateSurface;
    var step := Step(reg, segments, e);
    if segments != [] && segments[|segments| - 1].style == e.style {
      var init, last := segments[..|segments| - 1], segments[|segments| - 1];
      FlatLast(init, step.segments[|segments| - 1]);
      assert segments == init + [last];
      FlatLast(init, last);
      if last.graphemes != [] || !e.piece.CompositionSeparator? {
        assert UpdateSurface(reg, last.graphemes, e.piece, e.style).buffer != [];
      }
    } else if segments != [] || !e.piece.CompositionSeparator? {
      FlatLast(segments, step.segments[|segments|]);
      if !e.piece.CompositionSeparator? {
        assert UpdateSurface(reg, [], e.piece, e.style).buffer != [];
      }
    }
  }

  lemma {:induction false} RunShows(reg: Registry, segments: seq<Segment>, elements: seq<InputElement>)
    requires Leaving(reg) && (Flat(segments) != [] || HasPiece(elements))
    ensures Flat(Run(reg, segments, elements)) != []
    decreases |elements|
  {
    hide Step, Leaving;
    if elements != [] {
      var e := elements[0];
      var next := Step(reg, segments, e).segments;
      if Flat(segments) != [] || !e.piece.CompositionSeparator? {
        StepShows(reg, segments, e);
      } else {
        var other :| other in elements && !other.piece.CompositionSeparator?;
        assert other in elements[1..];
      }
      RunShows(reg, next, elements[1..]);
    }
  }

  /** A check on the rules: tables whose rules all write something never swallow what is typed. */
  lemma {:induction false} WritingTablesShow(reg: Registry)
    requires AllWrite(reg.romanToKana) && AllWrite(reg.azik) && AllWrite(reg.kanaJis) && AllWrite(reg.kanaUs)
    requires forall name :: name in reg.custom ==> AllWrite(reg.custom[name])
    ensures Shows(reg)
  {
    hide Leaving, Run, AllWrite;
    WritingTablesLeave(reg);
    forall elements: seq<InputElement> | HasPiece(elements)
      ensures Convert(reg, elements) != []
    {
      RunShows(reg, [], elements);
    }
  }

  /** Separators alone show nothing. */
  lemma {:induction false} SeparatorsAlone(reg: Registry, elements: seq<InputElement>)
    requires !HasPiece(elements)
    ensures Run(reg, [], elements) == [] && Convert(reg, elements) == []
  {
    if elements != [] {
      assert elements[0] in elements;
      assert forall e :: e in elements[1..] ==> e in elements;
      SeparatorsAlone(reg, elements[1..]);
    }
  }

  /** Typing into a text that is in step shows something, unless nothing but separators is typed
      into nothing. */
  lemma {:induction false} InsertShows(reg: Registry, t: Text, elements: seq<InputElement>)
    requires SilentRegistry(reg) && Shows(reg) && Valid(reg, t) && elements != []
    requires t.surface != [] || HasPiece(elements)
    ensures Insert(reg, t, elements).surface != []
  {
    hide Convert, Run, Insert, InsertionPrefix, SilentRegistry, HasPiece;
    InsertKeepsTheRight(reg, t, elements);
    var front := InsertionPrefix(reg, t);
    if t.surface[t.cursor..] == [] {
      assert t.surface[..t.cursor] == t.surface;
      if !HasPiece(front) {
        SeparatorsAlone(reg, front);
      }
      StillHasPiece(front, elements);
      assert Convert(reg, front + elements) != [];
    }
  }

  /** Typing shows something for every text and all keystrokes exactly if the registry shows all
      keystrokes that are not separators. */
  lemma {:induction false} TypingShowsExactly(reg: Registry)
    requires SilentRegistry(reg)
    ensures Shows(reg) <==>
            forall t: Text, elements: seq<InputElement> ::
              Valid(reg, t) && Anchored(t) && elements != [] && CanType(t, elements) ==> Insert(reg, t, elements).surface != []
  {
    hide Convert, Run, Insert, SilentRegistry, HasPiece, Shows;
    if Shows(reg) {
      forall t: Text, elements: seq<InputElement> | Valid(reg, t) && Anchored(t) && elements != [] && CanType(t, elements)
        ensures Insert(reg, t, elements).surface != []
      {
        InsertShows(reg, t, elements);
      }
    } else {
      var elements := HiddenKeystrokes(reg);
      FirstInsertion(reg, elements);
      assert CanType(EMPTY_TEXT, elements);
    }
  }

  lemma {:induction false} HiddenKeystrokes(reg: Registry) returns (elements: seq<InputElement>)
    requires !Shows(reg)
    ensures elements != [] && HasPiece(elements) && Convert(reg, elements) == []
  {
    hide Convert;
    elements :| HasPiece(elements) && Convert(reg, elements) == [];
  }

  /** The first keystrokes show their own conversion. */
  lemma {:induction false} FirstInsertion(reg: Registry, elements: seq<InputElement>)
    requires elements != []
    ensures Valid(reg, EMPTY_TEXT) && Insert(reg, EMPTY_TEXT, elements) == Text(elements, Convert(reg, elements), |Convert(reg, elements)|)
  {
    EmptyTextIsValid(reg);
    hide Convert;
    assert InsertionPrefix(reg, EMPTY_TEXT) == [] && InsertionSuffix(reg, EMPTY_TEXT) == [];
    assert [] + elements == elements && elements + [] == elements;
    assert EMPTY_TEXT.surface[0..] == [];
  }

  lemma {:induction false} StillHasPiece(a: seq<InputElement>, b: seq<InputElement>)
    ensures HasPiece(a) || HasPiece(b) ==> HasPiece(a + b)
  {
    if HasPiece(a) {
      var e :| e in a && !e.piece.CompositionSeparator?;
      assert e in a + b;
    } else if HasPiece(b) {
      var e :| e in b && !e.piece.CompositionSeparator?;
      assert e in a + b;
    }
  }

  /** A rule that only repeats a wildcard can swallow what is typed: there the daemon keeps a
      composition that shows nothing. */
  lemma {:induction false} WildcardRulesCanSwallow(g: Grapheme)
    ensures var table := InputTable([Mapping([Piece(Character(g))], [AnyValue])], 1);
            var reg := Registry(table, EMPTY_TABLE, EMPTY_TABLE, EMPTY_TABLE, map[]);
            var t := Insert(reg, EMPTY_TEXT, [InputElement(Character(g), RomanToKana)]);
            !Shows(reg) && t.input != [] && t.surface == []
  {
    hide Convert, Insert;
    var table := InputTable([Mapping([Piece(Character(g))], [AnyValue])], 1);
    var reg := Registry(table, EMPTY_TABLE, EMPTY_TABLE, EMPTY_TABLE, map[]);
    var e := InputElement(Character(g), RomanToKana);
    SwallowedKeystroke(table, reg, e, g);
    FirstInsertion(reg, [e]);
    assert e in [e] && HasPiece([e]);
  }

  lemma {:induction false} SwallowedKeystroke(table: InputTable, reg: Registry, e: InputElement, g: Grapheme)
    requires table == InputTable([Mapping([Piece(Character(g))], [AnyValue])], 1) && reg.romanToKana == table
    requires e == InputElement(Character(g), RomanToKana)
    ensures Convert(reg, [e]) == []
  {
    hide Apply;
    SwallowedPiece(table, g);
    RunOne(reg, [], e);
    FlatLast([], Segment([], RomanToKana));
    assert [] + [Segment([], RomanToKana)] == [Segment([], RomanToKana)];
  }

  lemma {:induction false} SwallowedPiece(table: InputTable, g: Grapheme)
    requires table == InputTable([Mapping([Piece(Character(g))], [AnyValue])], 1)
    ensures Apply(table, [], Character(g)).buffer == []
  {
    var key := table.mappings[0].key;
    assert KeyAt(key, 0) == Piece(Character(g));
    assert ElementMatches(KeyAt(key, 0), Current([], Character(g), 0));
    assert Matches(table, key, [], Character(g));
    BestOutranks(table, 1, [], Character(g), 0);
    assert Wildcard(key, [], Character(g), 0) == Wildcard(key, [], Character(g), 1) == None;
    assert [AnyValue][1..] == [];
    assert Expand([AnyValue], None) == [];
  }

  // ----- compositions in step -----

  /** Separators alone are silent, and everything else shows. */
  ghost predicate GoodRegistry(reg: Registry) {
    SilentRegistry(reg) && Shows(reg)
  }

  /** The composition a session may hold. */
  ghost predicate InStep(reg: Registry, t: Text): (r: bool)
    ensures r ==> GoodRegistry(reg) && t.cursor <= |t.surface| && (t.surface == [] ==> t.input == [])
  {
    GoodRegistry(reg) && Valid(reg, t) && Anchored(t)
  }

  lemma {:induction false} EmptyTextInStep(reg: Registry)
    requires GoodRegistry(reg)
    ensures InStep(reg, EMPTY_TEXT)
  {
    EmptyTextIsValid(reg);
  }

  lemma {:induction false} PrefixInStep(reg: Registry, t: Text)
    requires InStep(reg, t)
    ensures InStep(reg, PrefixToCursor(reg, t)) && PrefixToCursor(reg, t).surface == t.surface[..t.cursor]
  {
    hide Convert, Shows, SilentRegistry;
    PrefixToCursorIsValid(reg, t);
  }

  /** Something is typed that shows, or into text that shows already. */
  predicate CanType(t: Text, elements: seq<InputElement>) {
    elements == [] || t.surface != [] || HasPiece(elements)
  }

  function TypeInto(reg: Registry, t: Text, elements: seq<InputElement>): (r: Text)
    requires InStep(reg, t) && CanType(t, elements)
    ensures InStep(reg, r) && r.cursor <= |r.surface|
    ensures elements != [] ==> r.surface != []
    ensures r.surface[r.cursor..] == t.surface[t.cursor..]
  {
    if elements == [] then t
    else
      InsertIsValid(reg, t, elements);
      InsertKeepsTheRight(reg, t, elements);
      InsertShows(reg, t, elements);
      Insert(reg, t, elements)
  }

  function Erase(reg: Registry, t: Text, count: nat): (r: Text)
    requires InStep(reg, t)
    ensures InStep(reg, r) && r.cursor == t.cursor - Min(count, t.cursor)
    ensures r.surface == t.surface[..t.cursor - Min(count, t.cursor)] + t.surface[t.cursor..]
  {
    DeleteBackward(reg, t, count)
  }

  function GoTo(t: Text, delta: int): (r: Text)
    requires t.cursor <= |t.surface|
    ensures r.surface == t.surface && r.input == t.input && r.cursor <= |r.surface|
    ensures 0 <= t.cursor + delta <= |t.surface| ==> r.cursor == t.cursor + delta
  {
    MoveCursor(t, delta)
  }

  lemma {:induction false} GoToStaysInStep(reg: Registry, t: Text, delta: int)
    requires InStep(reg, t)
    ensures InStep(reg, GoTo(t, delta))
  {
    hide Convert;
  }

  // ----- text typed as it is -----

  /** Text typed without a table. */
  function Characters(text: seq<Grapheme>, style: InputStyle): (r: seq<InputElement>)
    ensures |r| == |text| && forall i :: 0 <= i < |r| ==> r[i] == InputElement(Character(text[i]), style)
  {
    seq(|text|, i requires 0 <= i < |text| => InputElement(Character(text[i]), style))
  }

  lemma {:induction false} CharactersShow(text: seq<Grapheme>, style: InputStyle)
    requires text != []
    ensures Characters(text, style) != [] && HasPiece(Characters(text, style))
  {
    assert Characters(text, style)[0] in Characters(text, style);
  }

  lemma {:induction false} DirectStep(reg: Registry, segments: seq<Segment>, g: Grapheme)
    ensures Flat(Step(reg, segments, InputElement(Character(g), Direct)).segments) == Flat(segments) + [g]
  {
    var e := InputElement(Character(g), Direct);
    if segments != [] && segments[|segments| - 1].style == Direct {
      StepSameStyle(reg, segments, e);
      var last := segments[|segments| - 1].graphemes;
      assert Flat(segments[..|segments| - 1]) + (last + [g]) == (Flat(segments[..|segments| - 1]) + last) + [g];
    } else {
      StepNewStyle(reg, segments, e);
      assert [] + [g] == [g];
    }
  }

  lemma {:induction false} DirectRun(reg: Registry, segments: seq<Segment>, text: seq<Grapheme>)
    ensures Flat(Run(reg, segments, Characters(text, Direct))) == Flat(segments) + text
    decreases |text|
  {
    hide Step, Flat;
    if text == [] {
      assert Flat(segments) + [] == Flat(segments);
    } else {
      DirectStep(reg, segments, text[0]);
      assert Characters(text, Direct)[1..] == Characters(text[1..], Direct);
      DirectRun(reg, Step(reg, segments, Characters(text, Direct)[0]).segments, text[1..]);
      assert (Flat(segments) + [text[0]]) + text[1..] == Flat(segments) + text;
    }
  }

  /** Text typed as it is at the end of a composition is shown behind everything shown before. */
  lemma {:induction false} DirectTextAppends(reg: Registry, t: Text, text: seq<Grapheme>)
    requires InStep(reg, t) && t.cursor == |t.surface| && text != []
    requires CanType(t, Characters(text, Direct))
    ensures TypeInto(reg, t, Characters(text, Direct)).surface == t.surface + text
  {
    hide Step, Flat, Run, SilentRegistry, Shows, Insert;
    var elements := Characters(text, Direct);
    var front := InsertionPrefix(reg, t);
    InsertKeepsTheRight(reg, t, elements);
    RunAppend(reg, [], front, elements);
    DirectRun(reg, Run(reg, [], front), text);
    var r := Insert(reg, t, elements);
    assert t.surface[..t.cursor] == t.surface && t.surface[t.cursor..] == [];
    assert r.surface == r.surface[..r.cursor] + r.surface[r.cursor..];
  }

  // ----- candidates -----

  /** A conversion candidate, as far as the session looks at it. */
  datatype Candidate = Candidate(text: seq<Grapheme>, count: ComposingCount, reading: seq<Grapheme>, learningTarget: bool)

  /** Taking the candidate does not overflow. */
  predicate Completable(reg: Registry, t: Text, c: Candidate)
    requires InStep(reg, t)
  {
    CompletePrefix(reg, t, c.count).Some?
  }

  /** A candidate can be taken exactly if dropping its keystrokes never makes the text longer; if
      no end of an input shows more than the whole, every candidate can. */
  lemma {:induction false} CompletableExactly(reg: Registry, t: Text, c: Candidate)
    requires InStep(reg, t)
    ensures Completable(reg, t, c) <==> NeverLengthens(reg, t.input, c.count)
    ensures EndsShowLess(reg) ==> Completable(reg, t, c)
  {
    hide Convert, SilentRegistry, Shows, CompletePrefix, NeverLengthens;
    CompletesExactly(reg, t, c.count);
    if EndsShowLess(reg) {
      ShorterEndsNeverLengthen(reg, t.input, c.count);
    }
  }

  /** What stays of the composition when the candidate is taken; nothing shown is nothing at all. */
  function Taken(reg: Registry, t: Text, c: Candidate): (r: Text)
    requires InStep(reg, t) && Completable(reg, t, c)
    ensures InStep(reg, r) && r.surface == Rest(reg, t, c)
  {
    EmptyTextIsValid(reg);
    if Completed(reg, t, c).surface == [] then EMPTY_TEXT else Completed(reg, t, c)
  }

  function Completed(reg: Registry, t: Text, c: Candidate): Text
    requires InStep(reg, t) && Completable(reg, t, c)
  {
    CompletePrefix(reg, t, c.count).value
  }

  /** The remainder shown behind a candidate. */
  function Rest(reg: Registry, t: Text, c: Candidate): seq<Grapheme>
    requires InStep(reg, t) && Completable(reg, t, c)
  {
    CompletePrefix(reg, t, c.count).value.surface
  }

  /** A candidate leaves what the keystrokes it does not take show on their own. */
  lemma {:induction false} RestIsConversion(reg: Registry, t: Text, c: Candidate)
    requires InStep(reg, t) && Completable(reg, t, c)
    ensures Rest(reg, t, c) == Convert(reg, Remaining(reg, t.input, c.count))
  {
    hide Convert, SilentRegistry, Shows, NeverLengthens, Remaining, CompletePrefix;
    CompletesExactly(reg, t, c.count);
  }

  ghost predicate AllCompletable(reg: Registry, t: Text, cs: seq<Candidate>)
    requires InStep(reg, t)
  {
    forall i :: 0 <= i < |cs| ==> Completable(reg, t, cs[i])
  }

  function RestOfEach(reg: Registry, t: Text, cs: seq<Candidate>): (r: seq<seq<Grapheme>>)
    requires InStep(reg, t) && AllCompletable(reg, t, cs)
    ensures |r| == |cs| && forall i :: 0 <= i < |r| ==> r[i] == Rest(reg, t, cs[i])
  {
    seq(|cs|, i requires 0 <= i < |cs| => Rest(reg, t, cs[i]))
  }

  lemma {:induction false} AllInputIsCompletable(reg: Registry, t: Text, c: Candidate)
    requires InStep(reg, t) && c.count == Input(|t.input|)
    ensures Completable(reg, t, c) && Rest(reg, t, c) == []
  {
    assert t.input[Min(|t.input|, |t.input|)..] == [];
    assert Convert(reg, []) == [];
  }

  // ----- what a candidate takes -----

  /** The text a conversion is asked for: all of it, or the part before a resized segment's end. */
  function TargetOf(reg: Registry, t: Text, segment: Option<nat>): (r: Text)
    requires InStep(reg, t)
    ensures InStep(reg, r)
    ensures segment.None? || t.cursor == |t.surface| ==> r == t
    ensures segment.Some? ==> r.surface == t.surface[..t.cursor]
  {
    PrefixInStep(reg, t);
    assert t.surface[..|t.surface|] == t.surface;
    if segment.Some? && t.cursor != |t.surface| then PrefixToCursor(reg, t) else t
  }

  /** Nothing stays behind the candidate. */
  predicate TakesAll(reg: Registry, t: Text, c: Candidate)
    requires InStep(reg, t)
  {
    Completable(reg, t, c) && Rest(reg, t, c) == []
  }

  /** A candidate that counts shown characters takes all of a text exactly if it counts as many. */
  lemma {:induction false} TakesAllExactly(reg: Registry, t: Text, c: Candidate)
    requires InStep(reg, t) && SurfaceOnly(c.count)
    ensures Completable(reg, t, c) && Rest(reg, t, c) == t.surface[Min(Total(c.count), |t.surface|)..]
    ensures TakesAll(reg, t, c) <==> Total(c.count) >= |t.surface|
  {
    hide Convert, SilentRegistry, Shows, CompletePrefix;
    CompleteSurfaceIsExact(reg, t, c.count);
  }

  predicate IsListed(cs: seq<Candidate>, c: Candidate) {
    exists i :: 0 <= i < |cs| && cs[i].text == c.text && cs[i].count == c.count
  }

  /** A live conversion that is listed below the forms takes everything exactly if there is a
      preview. */
  ghost predicate LiveFits(reg: Registry, t: Text, c: Candidate, previewed: bool, below: seq<Candidate>)
    requires InStep(reg, t)
  {
    && Completable(reg, t, c)
    && (previewed ==> TakesAll(reg, t, c))
    && (!previewed && IsListed(below, c) ==> !TakesAll(reg, t, c))
  }

  /** The keystrokes as plain text, for the latin forms. */
  function RawInput(input: seq<InputElement>): seq<Grapheme> {
    if input == [] then []
    else
      RawInput(input[..|input| - 1])
      + match input[|input| - 1].piece
        case Character(value) => [value]
        case Key(_, typed, _) => [typed]
        case CompositionSeparator => []
  }

  /** The part of the keystrokes that a candidate takes. */
  function ConsumedInput(reg: Registry, t: Text, c: Candidate): seq<InputElement>
    requires InStep(reg, t) && Completable(reg, t, c)
  {
    var left := |Completed(reg, t, c).input|;
    t.input[..if left <= |t.input| then |t.input| - left else 0]
  }

  const FORM_COUNT: nat := 5

  /** The latin and kana forms of a candidate's part, or of everything. */
  function Additional(reg: Registry, t: Text, selected: Option<Candidate>, env: Environment): (r: seq<Candidate>)
    requires WellBehaved(reg, env) && InStep(reg, t) && (selected.Some? ==> Completable(reg, t, selected.value))
    ensures |r| == FORM_COUNT && AllCompletable(reg, t, r)
    ensures forall i :: 0 <= i < |r| ==> r[i].count == match selected case Some(c) => c.count case None => Input(|t.input|)
  {
    var reading := match selected case Some(c) => c.reading case None => t.surface;
    var raw := RawInput(match selected case Some(c) => ConsumedInput(reg, t, c) case None => t.input);
    var count := match selected case Some(c) => c.count case None => Input(|t.input|);
    var texts := env.forms(reading, raw);
    var r := seq(FORM_COUNT, i requires 0 <= i < FORM_COUNT => Candidate(texts[i], count, reading, false));
    AdditionalCompletable(reg, t, selected, r);
    r
  }

  lemma {:induction false} AdditionalCompletable(reg: Registry, t: Text, selected: Option<Candidate>, cs: seq<Candidate>)
    requires InStep(reg, t) && (selected.Some? ==> Completable(reg, t, selected.value))
    requires forall i :: 0 <= i < |cs| ==> cs[i].count == match selected case Some(c) => c.count case None => Input(|t.input|)
    ensures AllCompletable(reg, t, cs)
  {
    hide Convert, SilentRegistry, Shows, CompletePrefix;
    forall i | 0 <= i < |cs|
      ensures Completable(reg, t, cs[i])
    {
      if selected.None? {
        AllInputIsCompletable(reg, t, cs[i]);
      }
    }
  }

  // ----- what a conversion returns -----

  datatype ErrorCode = InvalidPayload | OutOfOrderRequest | UnknownSession | Internal

  /** A prediction of the rest of the input: completing a candidate's reading, or replacing the
      end of the text. */
  datatype Prediction = Prediction(display: seq<Grapheme>, append: seq<Grapheme>, deleteCount: nat, candidate: Option<Candidate>)

  datatype Conversion = Conversion(main: seq<Candidate>, firstClauses: seq<Candidate>, prediction: Option<Prediction>)

  datatype TypoCandidate = TypoCandidate(converted: seq<Grapheme>)

  /** The parts of the daemon that are not modelled, during one request: `convert` answers for
      the text to convert, which may be the part of the whole text before the cursor. */
  datatype Environment = Environment(
    convert: (Text, Text) -> Result<Conversion, ErrorCode>,
    evaluated: Candidate -> bool,
    refreshFails: bool,
    learnFails: bool,
    forgetFails: bool,
    resetFails: bool,
    commitFails: bool,
    typo: Text -> Result<seq<TypoCandidate>, ErrorCode>,
    reread: seq<Grapheme> -> Result<seq<Grapheme>, ErrorCode>,
    accept: (Text, Candidate) -> Option<(nat, seq<Grapheme>)>,
    forms: (seq<Grapheme>, seq<Grapheme>) -> seq<seq<Grapheme>>)

  /** Conversions return candidates that can be taken from the text they were asked for, and from
      the whole text; a reading has five desktop forms. */
  ghost predicate WellBehaved(reg: Registry, env: Environment) {
    && GoodRegistry(reg)
    && (forall whole, asked :: InStep(reg, whole) && InStep(reg, asked) && env.convert(whole, asked).Ok? ==>
          var found := env.convert(whole, asked).value;
          && AllCompletable(reg, whole, found.main) && AllCompletable(reg, whole, found.firstClauses)
          && AllCompletable(reg, asked, found.main) && AllCompletable(reg, asked, found.firstClauses)
          && (found.prediction.Some? ==> found.prediction.value.candidate.Some?))
    && (forall reading, raw :: |env.forms(reading, raw)| == 5)
  }

  /** Nothing fails. */
  ghost predicate Reliable(env: Environment) {
    && !env.refreshFails && !env.learnFails
    && forall whole, asked :: env.convert(whole, asked).Ok?
  }

  /** Nothing that a session asks for fails. */
  ghost predicate Dependable(env: Environment) {
    && Reliable(env) && !env.forgetFails && !env.resetFails
    && (forall t :: env.typo(t).Ok?) && (forall reading :: env.reread(reading).Ok?)
  }

  lemma {:induction false} DependableIsReliable(env: Environment)
    ensures Dependable(env) ==> Reliable(env)
  {
  }

  // ----- merging the candidate lists -----

  predicate HasText(cs: seq<Candidate>, text: seq<Grapheme>) {
    exists i :: 0 <= i < |cs| && cs[i].text == text
  }

  /** First clauses, then whole conversions, without repeating a text. */
  function Merged(cs: seq<Candidate>): seq<Candidate> {
    if cs == [] then []
    else
      var before := Merged(cs[..|cs| - 1]);
      if HasText(before, cs[|cs| - 1].text) then before else before + [cs[|cs| - 1]]
  }

  lemma {:induction false} MergedMembers(cs: seq<Candidate>)
    ensures forall c :: c in Merged(cs) ==> c in cs
    ensures forall i, j :: 0 <= i < j < |Merged(cs)| ==> Merged(cs)[i].text != Merged(cs)[j].text
  {
    hide HasText;
    if cs != [] {
      MergedMembers(cs[..|cs| - 1]);
      NoSuchText(Merged(cs[..|cs| - 1]), cs[|cs| - 1].text);
    }
  }

  lemma {:induction false} NoSuchText(cs: seq<Candidate>, text: seq<Grapheme>)
    ensures !HasText(cs, text) ==> forall i :: 0 <= i < |cs| ==> cs[i].text != text
  {
  }

  lemma {:induction false} SomethingMerged(cs: seq<Candidate>)
    ensures cs != [] ==> Merged(cs) != []
  {
    if cs != [] {
      SomethingMerged(cs[..|cs| - 1]);
    }
  }

  /** `desktop_candidates`: partial conversions are offered unless one of them takes everything. */
  function DesktopCandidates(reg: Registry, t: Text, found: Conversion): seq<Candidate>
    requires InStep(reg, t) && AllCompletable(reg, t, found.firstClauses)
  {
    if exists i :: 0 <= i < |found.firstClauses| && Rest(reg, t, found.firstClauses[i]) == [] then found.main
    else Merged(found.firstClauses + found.main)
  }

  lemma {:induction false} DesktopCompletable(reg: Registry, t: Text, whole: Text, found: Conversion)
    requires InStep(reg, t) && InStep(reg, whole)
    requires AllCompletable(reg, t, found.firstClauses)
    requires AllCompletable(reg, whole, found.main) && AllCompletable(reg, whole, found.firstClauses)
    ensures AllCompletable(reg, whole, DesktopCandidates(reg, t, found))
    ensures found.main != [] ==> DesktopCandidates(reg, t, found) != []
  {
    hide Completable, Rest, InStep, GoodRegistry, Merged;
    var both := found.firstClauses + found.main;
    SomethingMerged(both);
    MergedMembers(both);
    var merged := Merged(both);
    forall i | 0 <= i < |merged|
      ensures Completable(reg, whole, merged[i])
    {
      assert merged[i] in merged;
      var j :| 0 <= j < |both| && both[j] == merged[i];
    }
  }

  // ----- replacing the end of the text -----

  function SharedCount(a: seq<Grapheme>, b: seq<Grapheme>): (n: nat)
    ensures n <= |a| && n <= |b| && a[..n] == b[..n]
    ensures n < |a| && n < |b| ==> a[n] != b[n]
  {
    if a == [] || b == [] || a[0] != b[0] then 0
    else
      var n := SharedCount(a[1..], b[1..]);
      assert a[..n + 1] == [a[0]] + a[1..][..n] && b[..n + 1] == [b[0]] + b[1..][..n];
      n + 1
  }

  function SuffixEdit(current: seq<Grapheme>, target: seq<Grapheme>, display: seq<Grapheme>): (r: Option<Prediction>)
    ensures r.None? <==> current == target
    ensures r.Some? ==>
              && r.value.candidate.None? && r.value.deleteCount <= |current|
              && current[..|current| - r.value.deleteCount] + r.value.append == target
  {
    var shared := SharedCount(current, target);
    var deleteCount := |current| - shared;
    var append := target[shared..];
    assert target == target[..shared] + append && current == current[..shared] + current[shared..];
    if deleteCount > 0 || append != [] then Some(Prediction(display, append, deleteCount, None)) else None
  }
}
