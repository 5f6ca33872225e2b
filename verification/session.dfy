/** The state of one daemon session and every action on it (`daemon/engine.rs`). */
module Sessions {
  import opened Wrappers
  import opened Numbers
  import opened InputTables
  import opened Segments
  import opened Composing
  import opened Edits
  import opened SessionValues

  datatype InputMode = NoInput | Composing | Previewing | Selecting | UnicodeInput

  datatype Language = Japanese | English

  datatype UserAction =
    | TypeKey
    | Backspace
    | Enter
    | Space
    | Escape
    | Tab
    | Up
    | Down
    | Left
    | Right
    | Represent(index: nat)
    | ForgetSelected
    | Consume
    | StartUnicode
    | Eisu
    | Kana
    | Unspecified

  /** A normalized key event. `direct` is the text an option key commits directly, `number` the
      digit typed, `controlFree` whether text, input and intention hold no control characters,
      `inputControlFree` whether the input alone does. */
  datatype KeyEvent = KeyEvent(
    action: UserAction,
    text: seq<Grapheme>,
    input: seq<Grapheme>,
    intention: seq<Grapheme>,
    shift: bool,
    controlFree: bool,
    inputControlFree: bool,
    direct: Option<seq<Grapheme>>,
    number: Option<nat>,
    hexDigits: seq<char>)

  datatype PageDirection = PreviousPage | NextPage | UnknownPage

  /** What the client is told. */
  datatype StateResponse = StateResponse(
    consumed: bool,
    preedit: seq<Grapheme>,
    candidates: seq<Candidate>,
    selected: int,
    commit: seq<Grapheme>,
    reset: bool,
    mode: InputMode)

  /** The fixed behaviour of the daemon. */
  datatype Behaviour = Behaviour(liveConversion: bool, typeHalfSpace: bool, typoCorrection: bool)

  const FULL_WIDTH_SPACE := [Grapheme("\U{3000}")]
  const HALF_WIDTH_SPACE := [Grapheme(" ")]
  const MAX_ADDITIONAL: nat := 5

  // ----- what a key inserts -----

  function Concatenated(text: seq<Grapheme>): string {
    if text == [] then "" else Concatenated(text[..|text| - 1]) + text[|text| - 1].text
  }

  /** The keystrokes an event stands for. */
  function Keystrokes(language: Language, style: InputStyle, event: KeyEvent): seq<InputElement> {
    var input := if event.input == [] then event.text else event.input;
    if language == English then Characters(input, Direct)
    else if style.Mapped? && (event.input != [] || event.intention != []) then
      var intention := if event.intention == [] then None else Some(Grapheme(Concatenated(event.intention)));
      [InputElement(Key(intention, Grapheme(Concatenated(input)), if event.shift then {Shift} else {}), style)]
    else Characters(event.text, style)
  }

  lemma {:induction false} KeystrokesShow(language: Language, style: InputStyle, event: KeyEvent)
    requires event.text != []
    ensures Keystrokes(language, style, event) != [] && HasPiece(Keystrokes(language, style, event))
  {
    var elements := Keystrokes(language, style, event);
    assert elements[0] in elements && !elements[0].piece.CompositionSeparator?;
  }

  // ----- code points -----

  function HexDigit(c: char): nat {
    if '0' <= c <= '9' then (c - '0') as nat
    else if 'a' <= c <= 'f' then (c - 'a') as nat + 10
    else 0
  }

  function HexValue(digits: seq<char>): nat {
    if digits == [] then 0 else 16 * HexValue(digits[..|digits| - 1]) + HexDigit(digits[|digits| - 1])
  }

  /** The character of a code point, if the digits name one. */
  function CodePoint(digits: seq<char>): seq<Grapheme> {
    var value := HexValue(digits);
    if digits == [] || 0xD800 <= value < 0xE000 || value > 0x10FFFF then [] else [Grapheme([value as char])]
  }

  // ----- the candidates a window lists -----

  function Indices(from: nat, end: nat): seq<nat>
    decreases end - from
  {
    if from >= end then [] else [from] + Indices(from + 1, end)
  }

  /** All positions, the preview's first. */
  function PreviewOrder(preview: Option<nat>, count: nat): seq<nat> {
    match preview
    case None => Indices(0, count)
    case Some(p) => [p] + Indices(0, p) + Indices(p + 1, count)
  }

  lemma {:induction false} IndicesHold(from: nat, end: nat)
    ensures from <= end ==> |Indices(from, end)| == end - from
    ensures forall i: nat :: i in Indices(from, end) <==> from <= i < end
    decreases end - from
  {
    if from < end {
      IndicesHold(from + 1, end);
    }
  }

  /** The preview window lists every candidate exactly once. */
  lemma {:induction false} PreviewOrderListsAll(preview: Option<nat>, count: nat)
    requires preview.Some? ==> preview.value < count
    ensures |PreviewOrder(preview, count)| == count
    ensures forall i: nat :: i in PreviewOrder(preview, count) <==> i < count
    ensures preview.Some? ==> PreviewOrder(preview, count)[0] == preview.value
  {
    hide Indices;
    match preview
    case None => IndicesHold(0, count);
    case Some(p) =>
      IndicesHold(0, p);
      IndicesHold(p + 1, count);
  }

  // ----- what a window lists -----

  datatype Window = Window(
    display: seq<Candidate>,
    remainders: seq<seq<Grapheme>>,
    preview: Option<nat>,
    additional: nat,
    live: Option<Candidate>)

  const NO_WINDOW := Window([], [], None, 0, None)

  /** Every remainder is what stays of the current composition. The preview, wherever the forms
      have moved it, takes all of the text that was converted. */
  ghost predicate WindowFits(reg: Registry, t: Text, segment: Option<nat>, w: Window): (r: bool)
    requires InStep(reg, t)
    ensures r ==>
              && |w.remainders| == |w.display| && w.additional <= MAX_ADDITIONAL && w.additional <= |w.display|
              && (w.preview.Some? ==> w.preview.value + w.additional < |w.display|)
              && (w.live.Some? ==> w.display != [])
  {
    && AllCompletable(reg, t, w.display)
    && w.remainders == RestOfEach(reg, t, w.display)
    && w.additional <= MAX_ADDITIONAL && w.additional <= |w.display|
    && (w.preview.Some? ==>
          && w.preview.value + w.additional < |w.display|
          && TakesAll(reg, TargetOf(reg, t, segment), w.display[w.preview.value + w.additional]))
    && (w.live.Some? ==>
          w.display != [] && LiveFits(reg, t, w.live.value, w.preview.Some?, w.display[w.additional..]))
  }

  lemma {:induction false} NoWindowFits(reg: Registry, t: Text, segment: Option<nat>)
    requires InStep(reg, t)
    ensures WindowFits(reg, t, segment, NO_WINDOW)
  {
    hide GoodRegistry, InStep;
  }

  lemma {:induction false} WithoutLive(reg: Registry, t: Text, segment: Option<nat>, w: Window)
    requires InStep(reg, t) && WindowFits(reg, t, segment, w)
    ensures WindowFits(reg, t, segment, w.(live := None))
  {
    hide GoodRegistry, InStep, AllCompletable, RestOfEach, TargetOf, TakesAll, LiveFits;
  }

  lemma {:induction false} WithLive(reg: Registry, t: Text, segment: Option<nat>, w: Window, c: Candidate)
    requires InStep(reg, t) && WindowFits(reg, t, segment, w) && w.display != []
    requires LiveFits(reg, t, c, w.preview.Some?, w.display[w.additional..])
    ensures WindowFits(reg, t, segment, w.(live := Some(c)))
  {
    hide GoodRegistry, InStep, AllCompletable, RestOfEach, TargetOf, TakesAll, LiveFits;
  }

  /** A listed candidate can be taken and leaves its remainder. */
  lemma {:induction false} OneFits(reg: Registry, t: Text, segment: Option<nat>, w: Window, i: nat)
    requires InStep(reg, t) && WindowFits(reg, t, segment, w) && i < |w.display|
    ensures Completable(reg, t, w.display[i]) && w.remainders[i] == Rest(reg, t, w.display[i])
  {
    hide GoodRegistry, InStep, Completable, Rest, TakesAll, LiveFits;
  }

  lemma {:induction false} LiveCompletable(reg: Registry, t: Text, segment: Option<nat>, w: Window)
    requires InStep(reg, t) && WindowFits(reg, t, segment, w)
    ensures w.live.Some? ==> Completable(reg, t, w.live.value)
  {
    hide GoodRegistry, InStep, Completable, Rest, TakesAll;
  }

  /** What the preview and the live conversion take of the text. */
  lemma {:induction false} WindowTakes(reg: Registry, t: Text, segment: Option<nat>, w: Window)
    requires InStep(reg, t) && WindowFits(reg, t, segment, w)
    ensures w.preview.Some? && w.additional == 0 ==>
              TakesAll(reg, TargetOf(reg, t, segment), w.display[w.preview.value])
    ensures w.preview.Some? && w.additional == 0 && (segment.None? || t.cursor == |t.surface|) ==>
              w.remainders[w.preview.value] == []
    ensures w.live.Some? ==> Completable(reg, t, w.live.value)
    ensures w.live.Some? && IsListed(w.display[w.additional..], w.live.value) ==>
              (Rest(reg, t, w.live.value) == [] <==> w.preview.Some?)
  {
    hide GoodRegistry, InStep, Completable, Rest;
  }

  /** A prediction of another ending is the remembered correction of the text shown. */
  ghost predicate PredictionFits(prediction: Option<Prediction>, correction: Option<(seq<Grapheme>, seq<Grapheme>)>,
                                 shown: seq<Grapheme>): (r: bool)
    ensures prediction.None? || prediction.value.candidate.Some? ==> r
    ensures r && prediction.Some? && prediction.value.candidate.None? ==> correction.Some?
  {
    prediction.Some? && prediction.value.candidate.None? ==>
      && correction.Some?
      && prediction == SuffixEdit(shown, correction.value.1, correction.value.0)
  }

  // ----- what keys mean -----

  datatype Moment = Moment(composing: Text, mode: InputMode, language: Language, selected: nat, display: seq<Candidate>, additional: nat,
                           prediction: Option<Prediction>, correction: Option<(seq<Grapheme>, seq<Grapheme>)>)

  predicate IsActive(mode: InputMode) {
    mode == InputMode.Composing || mode == Previewing || mode == Selecting
  }

  /** Down opens the selection or goes one further; up goes one back, or shows a form more. */
  predicate DownUpMean(event: KeyEvent, before: Moment, commit: seq<Grapheme>, after: Moment) {
    && (event.action == Down || event.action == Up ==> commit == [])
    && (event.action == Down && (before.mode == InputMode.Composing || before.mode == Previewing) ==> after.mode == Selecting && after.selected == 0)
    && (event.action == Down && before.mode == Selecting ==>
          && after.mode == Selecting && after.composing == before.composing && after.display == before.display
          && (before.selected + 1 < |before.display| ==> after.selected == before.selected + 1))
    && (event.action == Up && before.mode == Selecting ==>
          && after.mode == Selecting && after.composing == before.composing
          && (before.selected > 0 ==> after.selected + 1 == before.selected && after.display == before.display)
          && (before.selected == 0 && before.additional < 5 ==>
                |after.display| == |before.display| + 1 && after.additional == before.additional + 1))
  }

  /** The space key types a space, opens the preview or the selection, or goes through it. */
  predicate SpaceMeans(behaviour: Behaviour, event: KeyEvent, before: Moment, commit: seq<Grapheme>, after: Moment) {
    event.action == Space ==>
      match before.mode
      case NoInput =>
        commit == if before.language == Japanese && event.shift == behaviour.typeHalfSpace then FULL_WIDTH_SPACE else HALF_WIDTH_SPACE
      case Composing => commit == [] && after.mode == if behaviour.liveConversion then Selecting else Previewing
      case Previewing => commit == [] && after.mode == Selecting && after.selected == 0 && after.composing == before.composing
      case Selecting =>
        && commit == [] && after.mode == Selecting && after.composing == before.composing && after.display == before.display
        && (event.shift && before.display != [] && before.selected > 0 ==> after.selected + 1 == before.selected)
        && (!event.shift && before.selected + 1 < |before.display| ==> after.selected == before.selected + 1)
      case UnicodeInput => true
  }

  /** Text is typed into the composition, the tabulator takes a correction, and what is only
      swallowed changes nothing. */
  ghost predicate TypingMeans(reg: Registry, style: InputStyle, event: KeyEvent, before: Moment, reply: StateResponse, after: Moment) {
    && (event.action == TypeKey && before.mode == InputMode.Composing && event.text != [] && event.controlFree ==>
          && after.mode == InputMode.Composing && reply.commit == [] && InStep(reg, before.composing)
          && CanType(before.composing, Keystrokes(before.language, style, event))
          && after.composing == TypeInto(reg, before.composing, Keystrokes(before.language, style, event)))
    && (event.action == TypeKey && !(event.text != [] && event.controlFree) ==> !reply.consumed && after == before)
    && (event.action == Tab && before.mode == InputMode.Composing && before.prediction.Some? && before.prediction.value.candidate.None? ==>
          reply.commit == [] && before.correction.Some? && after.composing.surface == before.correction.value.1)
    && (event.action == Consume ==> (reply.consumed <==> before.mode != NoInput) && reply.commit == [] && after == before)
    && ((event.action == Left || event.action == Right) && !event.shift && before.mode != Selecting ==>
          (reply.consumed <==> before.mode != NoInput) && reply.commit == [] && after == before)
  }

  /** Keys with nothing to work on are left to others. */
  predicate IdleMeans(event: KeyEvent, before: Moment, reply: StateResponse, after: Moment) {
    before.mode == NoInput && (event.action == UserAction.Backspace || event.action == Enter || event.action == Tab || event.action.Represent?) ==>
      !reply.consumed && reply.commit == [] && after == before
  }

  lemma {:induction false} OtherKeys(behaviour: Behaviour, event: KeyEvent)
    requires event.action != Down && event.action != Up && event.action != Space
    ensures forall before, commit, after :: DownUpMean(event, before, commit, after) && SpaceMeans(behaviour, event, before, commit, after)
  {
  }

  predicate Types(action: UserAction) {
    action == TypeKey || action == Tab || action == Consume || action == Left || action == Right
  }

  lemma {:induction false} NoTyping(reg: Registry, style: InputStyle, event: KeyEvent)
    requires !Types(event.action)
    ensures forall before, reply, after :: TypingMeans(reg, style, event, before, reply, after)
  {
    hide InStep, CanType, TypeInto, Keystrokes;
  }

  predicate ChangesMode(event: KeyEvent, mode: InputMode) {
    mode == UnicodeInput || event.action == StartUnicode || event.action == Eisu || event.action == Kana
  }

  /** The keys that are refused: in a selection, a digit without a candidate, and a key that takes,
      forgets or commits the selected candidate where there is none. */
  predicate Refused(event: KeyEvent, now: Moment) {
    && now.mode == Selecting
    && (|| (event.action == TypeKey && event.number.Some? && event.number.value > 0
            && PageStart(now.selected) + event.number.value > |now.display|)
        || ((event.action == Enter || event.action == Eisu || event.action == StartUnicode || event.action == ForgetSelected
             || (event.action == Right && !event.shift))
            && now.selected >= |now.display|))
  }

  /** No earlier rule answers the key. */
  predicate ReachesAction(event: KeyEvent, before: Moment) {
    && before.mode != UnicodeInput && event.action != StartUnicode && event.action != Eisu && event.action != Kana
    && !(event.action == Space && before.mode == InputMode.Composing && before.language == English)
    && !(event.action == TypeKey && before.mode == NoInput && before.language == Japanese && event.direct.Some?)
    && !(event.action == TypeKey && before.mode == NoInput && before.language == English && DirectInput(event) != [] && event.inputControlFree)
    && !(event.action == TypeKey && before.mode == Selecting && event.number.Some?)
  }

  /** Keys with direct text and keys that change the mode do not reach the actions. */
  lemma {:induction false} EarlyKeys(event: KeyEvent, now: Moment)
    ensures event.action == TypeKey && now.mode == NoInput && now.language == Japanese && event.direct.Some? ==>
              !ReachesAction(event, now) && !Refused(event, now)
    ensures ChangesMode(event, now.mode) ==> !ReachesAction(event, now)
    ensures ChangesMode(event, now.mode) && IsActive(now.mode) && Takes(event, now.mode) ==> event.action == Eisu && now.mode == Selecting
  {
  }

  class Session {
    const registry: Registry
    const behaviour: Behaviour
    const style: InputStyle
    var composing: Text
    var mode: InputMode
    var language: Language
    var lastRequestId: nat
    var selected: nat
    var display: seq<Candidate>
    var remainders: seq<seq<Grapheme>>
    var annotations: seq<bool>
    var preview: Option<nat>
    var additional: nat
    var segment: Option<nat>
    var lastWasBackspace: bool
    var prediction: Option<Prediction>
    var correction: Option<(seq<Grapheme>, seq<Grapheme>)>
    var live: Option<Candidate>
    var typoCandidates: seq<TypoCandidate>
    var unicodeDigits: seq<char>

    // ----- invariants -----

    /** The composition is in step. */
    ghost predicate Core()
      reads this`composing
    {
      InStep(registry, composing)
    }

    /** The lists that are shown. */
    ghost function Shown(): Window
      reads this`display, this`remainders, this`preview, this`additional, this`live
    {
      Window(display, remainders, preview, additional, live)
    }

    /** The candidate lists fit the composition and each other. */
    ghost predicate Listed()
      reads this`composing, this`segment, this`display, this`remainders, this`annotations, this`preview, this`additional, this`live
      requires Core()
    {
      |annotations| == |display| && WindowFits(registry, composing, segment, Shown())
    }

    /** A remembered correction belongs to the end of the whole text. */
    ghost predicate Corrects()
      reads this
    {
      correction.Some? ==> correction.value.1 != [] && composing.cursor == |composing.surface| && segment.None?
    }

    /** A prediction fits the text shown. */
    ghost predicate Foreseen()
      reads this
    {
      PredictionFits(prediction, correction, composing.surface)
    }

    predicate Active()
      reads this
    {
      mode == InputMode.Composing || mode == Previewing || mode == Selecting
    }

    ghost predicate Valid()
      reads this
    {
      && Core() && Listed() && Corrects() && Foreseen()
      && (Active() <==> composing.surface != [])
      && (mode == Selecting && display != [] ==> selected < |display|)
      && (!Active() ==> display == [] && live.None?)
    }

    // ----- what is shown -----

    function Preedit(): seq<Grapheme>
      reads this
    {
      match mode
      case NoInput => []
      case UnicodeInput => [Grapheme("U"), Grapheme("+")] + seq(|unicodeDigits|, i requires 0 <= i < |unicodeDigits| reads this => Grapheme([unicodeDigits[i]]))
      case Composing => if live.Some? then live.value.text else composing.surface
      case Previewing =>
        if preview.Some? && preview.value < |display| then display[preview.value].text else composing.surface
      case Selecting =>
        if selected < |display| then
          display[selected].text + if selected < |remainders| then remainders[selected] else []
        else composing.surface
    }

    /** `current_marked_text`: what committing right now commits. */
    function MarkedText(): seq<Grapheme>
      reads this
    {
      if mode == Previewing then
        if preview.Some? && preview.value < |display| then display[preview.value].text else composing.surface
      else if mode == Selecting && selected < |display| then
        display[selected].text + if selected < |remainders| then remainders[selected] else []
      else if live.Some? then live.value.text
      else composing.surface
    }

    function ListedCandidates(): seq<Candidate>
      reads this
    {
      var order := if mode == InputMode.Composing && language == Japanese && !behaviour.liveConversion
                   then PreviewOrder(preview, |display|) else Indices(0, |display|);
      Pick(display, order)
    }

    function State(consumed: bool, commit: seq<Grapheme>, reset: bool): (r: StateResponse)
      reads this
      ensures r.consumed == consumed && r.commit == commit && r.reset == reset && r.mode == mode && r.preedit == Preedit()
      ensures mode == Selecting ==> r.selected == selected
      ensures mode != Selecting ==> r.selected == -1
    {
      StateResponse(consumed, Preedit(), ListedCandidates(), if mode == Selecting then selected else -1, commit, reset, mode)
    }

    /** What a key sees of the session, and leaves of it. */
    function Now(): Moment
      reads this`composing, this`mode, this`language, this`selected, this`display, this`additional, this`prediction, this`correction
    {
      Moment(composing, mode, language, selected, display, additional, prediction, correction)
    }

    // ----- starting over -----

    constructor (registry: Registry, behaviour: Behaviour, style: InputStyle, requestId: nat)
      requires GoodRegistry(registry)
      ensures Valid() && mode == NoInput && lastRequestId == requestId && this.registry == registry && this.behaviour == behaviour
      ensures this.style == style && language == Japanese && composing == EMPTY_TEXT && additional == 0
    {
      this.registry := registry;
      this.behaviour := behaviour;
      this.style := style;
      composing := EMPTY_TEXT;
      mode := NoInput;
      language := Japanese;
      lastRequestId := requestId;
      selected := 0;
      display := [];
      remainders := [];
      annotations := [];
      preview := None;
      additional := 0;
      segment := None;
      lastWasBackspace := false;
      prediction := None;
      correction := None;
      live := None;
      typoCandidates := [];
      unicodeDigits := [];
      EmptyTextIsValid(registry);
    }

    method ClearPresentation()
      modifies this`selected, this`display, this`remainders, this`annotations, this`preview, this`additional, this`prediction, this`live
      ensures selected == 0 && display == [] && remainders == [] && annotations == [] && preview == None && additional == 0
      ensures prediction == None && live == None
    {
      selected := 0;
      display := [];
      remainders := [];
      annotations := [];
      preview := None;
      additional := 0;
      prediction := None;
      live := None;
    }

    /** From any state, whatever a failed request left behind. */
    method Reset()
      requires GoodRegistry(registry)
      modifies this
      ensures Valid() && mode == NoInput && composing == EMPTY_TEXT
      ensures selected == 0 && display == [] && live == None && !lastWasBackspace
      ensures lastRequestId == old(lastRequestId) && language == old(language) && typoCandidates == []
    {
      hide GoodRegistry, InStep, WindowFits, PredictionFits, Preedit, State;
      composing := EMPTY_TEXT;
      mode := NoInput;
      segment := None;
      lastWasBackspace := false;
      correction := None;
      ClearPresentation();
      typoCandidates := [];
      unicodeDigits := [];
      EmptyTextInStep(registry);
      NoWindowFits(registry, composing, segment);
    }

    /** The number of the request being served. */
    method Accept(requestId: nat)
      requires Valid()
      modifies this`lastRequestId
      ensures Valid() && lastRequestId == requestId && Preedit() == old(Preedit())
    {
      hide GoodRegistry, InStep, WindowFits, PredictionFits;
      lastRequestId := requestId;
    }

    /** The live conversion is no longer shown. */
    method StopShowingLive()
      requires Valid()
      modifies this`live
      ensures Valid() && live == None
    {
      hide GoodRegistry, InStep, WindowFits, PredictionFits;
      WithoutLive(registry, composing, segment, Shown());
      live := None;
    }

    /** Corrections to choose from. */
    method KeepTypoCandidates(candidates: seq<TypoCandidate>)
      requires Valid()
      modifies this`typoCandidates
      ensures Valid() && typoCandidates == candidates
      ensures Preedit() == old(Preedit())
    {
      hide GoodRegistry, InStep, WindowFits, PredictionFits;
      typoCandidates := candidates;
    }

    // ----- asking for candidates -----

    /** The lists are those of a conversion made now. */
    ghost predicate Offered(env: Environment)
      reads this`composing, this`segment, this`display, this`preview
      requires Core()
    {
      var asked := TargetOf(registry, composing, segment);
      var found := env.convert(composing, asked);
      found.Ok? && Offers(registry, asked, segment.Some?, found.value, display, preview)
    }

    /** The live conversion is that of a conversion made now. */
    ghost predicate OfferedLive(env: Environment)
      reads this
      requires Core()
    {
      var asked := TargetOf(registry, composing, segment);
      var found := env.convert(composing, asked);
      found.Ok? && live == LiveOf(asked, found.value.main)
    }

    /** `request_candidates`. A conversion that fails leaves the lists to be reset by the caller. */
    method RequestCandidates(env: Environment) returns (failure: Option<ErrorCode>)
      requires Core() && WellBehaved(registry, env) && (lastWasBackspace ==> Corrects())
      modifies this`correction, this`display, this`remainders, this`annotations, this`preview, this`additional
      modifies this`prediction, this`selected, this`live
      ensures Core()
      ensures failure.Some? <==> env.refreshFails || env.convert(composing, TargetOf(registry, composing, segment)).Err?
      ensures failure.None? ==>
                && Listed() && additional == 0 && Corrects() && Foreseen()
                && Offered(env) && OfferedLive(env)
      ensures correction == old(correction) || correction == None
      ensures failure.None? ==> selected == old(selected) || (mode == InputMode.Composing && selected < |display|)
      ensures failure.None? && live.Some? ==> mode == InputMode.Composing
      ensures Reliable(env) ==> failure.None?
    {
      hide GoodRegistry, InStep, WindowFits, PredictionFits, Offers, TargetOf, WellBehaved, AllCompletable;
      if !lastWasBackspace {
        correction := None;
      }
      var asked := TargetOf(registry, composing, segment);
      if env.refreshFails {
        return Some(Internal);
      }
      var answer := env.convert(composing, asked);
      if answer.Err? {
        return Some(answer.error);
      }
      FoundCompletable(registry, env, composing, asked);
      ShowFound(answer.value, asked, env);
      failure := None;
    }

    /** The live conversion of a text that has just been typed. */
    function LiveOf(asked: Text, main: seq<Candidate>): (r: Option<Candidate>)
      reads this
      ensures r.Some? ==> mode == InputMode.Composing && segment.None? && main != [] && r.value == main[0]
    {
      if behaviour.liveConversion && mode == InputMode.Composing && language == Japanese && segment.None?
         && asked.cursor == |asked.surface| && !lastWasBackspace && |asked.surface| > 1 && main != []
      then Some(main[0]) else None
    }

    /** The conversion's candidates, with what stays of the text asked for, or of the whole text if
        only a segment was converted. */
    method ShowFound(found: Conversion, asked: Text, env: Environment)
      requires Core() && Corrects() && asked == TargetOf(registry, composing, segment)
      requires AllCompletable(registry, composing, found.main) && AllCompletable(registry, composing, found.firstClauses)
      requires AllCompletable(registry, asked, found.main) && AllCompletable(registry, asked, found.firstClauses)
      requires found.prediction.Some? ==> found.prediction.value.candidate.Some?
      modifies this`display, this`remainders, this`annotations, this`preview, this`additional
      modifies this`prediction, this`selected, this`live
      ensures Core() && Listed() && additional == 0 && Corrects() && Foreseen()
      ensures Offers(registry, asked, segment.Some?, found, display, preview) && live == LiveOf(asked, found.main)
      ensures prediction == found.prediction || (prediction.Some? && prediction.value.candidate.None?)
      ensures selected == old(selected) || (mode == InputMode.Composing && selected < |display|)
      ensures live.Some? ==> mode == InputMode.Composing
    {
      hide GoodRegistry, InStep, WindowFits, PredictionFits, Offers, TargetOf, LiveOf;
      ShowLists(found, asked, env);
      Foresee(found, asked);
    }

    method ShowLists(found: Conversion, asked: Text, env: Environment)
      requires Core() && asked == TargetOf(registry, composing, segment)
      requires AllCompletable(registry, composing, found.main) && AllCompletable(registry, composing, found.firstClauses)
      requires AllCompletable(registry, asked, found.main) && AllCompletable(registry, asked, found.firstClauses)
      modifies this`display, this`remainders, this`annotations, this`preview, this`additional, this`live
      ensures Core() && Listed() && additional == 0 && live.None?
      ensures Offers(registry, asked, segment.Some?, found, display, preview)
    {
      hide GoodRegistry, InStep, Completable, Rest, AllCompletable, RestOfEach, DesktopCandidates, PreviewOf, TakesAll, TargetOf;
      DesktopCompletable(registry, asked, composing, found);
      DesktopCompletable(registry, asked, asked, found);
      var newDisplay := if segment.Some? then found.main else DesktopCandidates(registry, asked, found);
      var newRemainders := RestOfEach(registry, asked, newDisplay);
      if segment.Some? {
        newRemainders := RestOfEach(registry, composing, newDisplay);
      }
      PreviewTakesAll(registry, asked, found.main, newDisplay);
      preview := PreviewOf(registry, asked, found.main, newDisplay);
      annotations := seq(|newDisplay|, i requires 0 <= i < |newDisplay| => env.evaluated(newDisplay[i]));
      additional := 0;
      display, remainders, live := newDisplay, newRemainders, None;
    }

    /** The prediction, the live conversion and its position in the list. */
    method Foresee(found: Conversion, asked: Text)
      requires Core() && Listed() && Corrects() && live.None? && additional == 0
      requires asked == TargetOf(registry, composing, segment) && AllCompletable(registry, composing, found.main)
      requires Offers(registry, asked, segment.Some?, found, display, preview)
      requires found.prediction.Some? ==> found.prediction.value.candidate.Some?
      modifies this`prediction, this`selected, this`live
      ensures Core() && Listed() && Corrects() && Foreseen()
      ensures selected == old(selected) || (mode == InputMode.Composing && selected < |display|)
      ensures live == LiveOf(asked, found.main)
      ensures prediction == found.prediction || (prediction.Some? && prediction.value.candidate.None?)
    {
      hide GoodRegistry, InStep, WindowFits, SuffixEdit, LivePosition, NewPrediction, LiveFits, TargetOf, Offers;
      prediction := NewPrediction(asked.surface, found.prediction);
      var best := LiveOf(asked, found.main);
      if best.Some? {
        BestFits(registry, asked, found, display, preview);
        assert display[0..] == display;
        WithLive(registry, composing, segment, Shown(), best.value);
      }
      live := best;
      selected := LivePosition(display, live, selected);
    }

    /** A remembered correction comes before the conversion's own prediction. */
    function NewPrediction(shown: seq<Grapheme>, found: Option<Prediction>): (r: Option<Prediction>)
      reads this
      requires found.Some? ==> found.value.candidate.Some?
      ensures r.Some? && r.value.candidate.None? ==>
                correction.Some? && r == SuffixEdit(shown, correction.value.1, correction.value.0)
      ensures r == found || (r.Some? && r.value.candidate.None?)
    {
      if correction.Some? && SuffixEdit(shown, correction.value.1, correction.value.0).Some? then
        SuffixEdit(shown, correction.value.1, correction.value.0)
      else found
    }

    // ----- taking a candidate -----

    /** Completes the candidate's part of the composition and hands it to the learning memory. */
    method TakeCandidate(c: Candidate, env: Environment) returns (commit: Result<seq<Grapheme>, ErrorCode>)
      requires Core() && Completable(registry, composing, c)
      modifies this`composing
      ensures commit.Ok? ==> commit.value == c.text && composing == Taken(registry, old(composing), c)
      ensures commit.Ok? <==> !(c.learningTarget && env.learnFails)
      ensures commit.Err? ==> commit == Err(Internal)
      ensures Reliable(env) ==> commit.Ok?
    {
      hide GoodRegistry, InStep, WindowFits, PredictionFits;
      composing := Completed(registry, composing, c);
      if c.learningTarget && env.learnFails {
        return Err(Internal);
      }
      if |composing.surface| == 0 {
        composing := EMPTY_TEXT;
      }
      commit := Ok(c.text);
    }

    /** Commits the candidate and goes on with what remains. */
    method CommitCandidate(c: Candidate, remainderMode: InputMode, env: Environment) returns (r: Result<StateResponse, ErrorCode>)
      requires Valid() && WellBehaved(registry, env) && Completable(registry, composing, c)
      requires remainderMode == Previewing || remainderMode == Selecting
      modifies this
      ensures lastRequestId == old(lastRequestId)
      ensures typoCandidates == [] || typoCandidates == old(typoCandidates)
      ensures r.Ok? ==>
                && Valid() && composing == Taken(registry, old(composing), c)
                && mode == (if composing.surface == [] then NoInput else remainderMode)
                && r.value == State(true, c.text, composing.surface == [])
      ensures Reliable(env) ==> r.Ok?
    {
      hide GoodRegistry, InStep, WindowFits, PredictionFits, WellBehaved, Taken, Completable, State, Reliable;
      var commit := TakeCandidate(c, env);
      if commit.Err? {
        return Err(commit.error);
      }
      ClearPresentation();
      lastWasBackspace := false;
      correction := None;
      NoWindowFits(registry, composing, segment);
      var failure := GoOn(remainderMode, env);
      if failure.Some? {
        return Err(failure.value);
      }
      r := Ok(State(true, commit.value, |composing.surface| == 0));
    }

    /** Candidates for what remains, if anything does. */
    method GoOn(remainderMode: InputMode, env: Environment) returns (failure: Option<ErrorCode>)
      requires Core() && Listed() && WellBehaved(registry, env)
      requires selected == 0 && display == [] && live.None? && prediction.None? && correction.None?
      requires remainderMode == Previewing || remainderMode == Selecting
      modifies this
      ensures lastRequestId == old(lastRequestId) && typoCandidates == old(typoCandidates) && composing == old(composing)
      ensures failure.None? ==> Valid() && mode == (if composing.surface == [] then NoInput else remainderMode)
      ensures Reliable(env) ==> failure.None?
    {
      hide GoodRegistry, InStep, WindowFits, PredictionFits, WellBehaved, Offered, OfferedLive, Reliable;
      mode := NoInput;
      if |composing.surface| > 0 {
        segment := None;
        NoWindowFits(registry, composing, segment);
        mode := remainderMode;
        failure := RequestCandidates(env);
        return;
      }
      failure := None;
    }

    /** Choosing position `index` commits that text and leaves exactly the remainder shown for it. */
    method SelectCandidate(index: nat, remainderMode: InputMode, env: Environment) returns (r: Result<StateResponse, ErrorCode>)
      requires Valid() && WellBehaved(registry, env)
      requires remainderMode == Previewing || remainderMode == Selecting
      modifies this
      ensures lastRequestId == old(lastRequestId)
      ensures typoCandidates == [] || typoCandidates == old(typoCandidates)
      ensures index >= old(|display|) ==> r == Err(InvalidPayload)
      ensures r.Ok? ==>
                && index < old(|display|) && Valid()
                && r.value.commit == old(display)[index].text && composing.surface == old(remainders)[index]
                && mode == (if composing.surface == [] then NoInput else remainderMode)
                && r.value == State(true, r.value.commit, composing.surface == [])
      ensures r.Ok? && old(mode) == Selecting && index == old(selected) ==> r.value.commit + composing.surface == old(Preedit())
      ensures Reliable(env) && index < old(|display|) ==> r.Ok?
    {
      hide GoodRegistry, InStep, WindowFits, PredictionFits;
      typoCandidates := [];
      if index >= |display| {
        return Err(InvalidPayload);
      }
      OneFits(registry, composing, segment, Shown(), index);
      r := CommitCandidate(display[index], remainderMode, env);
    }

    // ----- typing -----

    /** Inserts the keystrokes and asks for candidates. */
    method Type(elements: seq<InputElement>, env: Environment) returns (failure: Option<ErrorCode>)
      requires Core() && WellBehaved(registry, env) && elements != [] && CanType(composing, elements)
      requires selected == 0 && display == [] && live.None? && !lastWasBackspace
      modifies this
      ensures lastRequestId == old(lastRequestId) && language == old(language) && !lastWasBackspace
      ensures typoCandidates == [] || typoCandidates == old(typoCandidates)
      ensures failure.None? ==>
                && Valid() && mode == InputMode.Composing && composing == TypeInto(registry, old(composing), elements)
                && segment == old(segment) && Offered(env) && OfferedLive(env)
      ensures Reliable(env) ==> failure.None?
    {
      hide GoodRegistry, InStep, WindowFits, PredictionFits, TypeInto, Offered, OfferedLive, WellBehaved, Keystrokes, Reliable;
      composing := TypeInto(registry, composing, elements);
      mode := InputMode.Composing;
      failure := RequestCandidates(env);
    }

    /** A character key. In a preview or a selection it first commits exactly what is shown. */
    method TypeKeyEvent(event: KeyEvent, env: Environment) returns (r: Result<StateResponse, ErrorCode>)
      requires Valid() && WellBehaved(registry, env) && event.text != [] && mode != UnicodeInput
      modifies this
      ensures lastRequestId == old(lastRequestId)
      ensures typoCandidates == [] || typoCandidates == old(typoCandidates)
      ensures r.Ok? ==>
                && Valid() && mode == InputMode.Composing
                && r.value.commit == (if old(mode) == Previewing || old(mode) == Selecting then old(Preedit()) else [])
                && CanType(if r.value.commit != [] then EMPTY_TEXT else old(composing), Keystrokes(old(language), style, event))
                && InStep(registry, if r.value.commit != [] then EMPTY_TEXT else old(composing))
                && composing == TypeInto(registry, if r.value.commit != [] then EMPTY_TEXT else old(composing), Keystrokes(old(language), style, event))
                && r.value == State(true, r.value.commit, false)
                && segment.None? && !lastWasBackspace && language == old(language) && Offered(env) && OfferedLive(env)
      ensures Reliable(env) ==> r.Ok?
    {
      hide GoodRegistry, InStep, WindowFits, PredictionFits, TypeInto, Offered, OfferedLive, WellBehaved, Keystrokes, Reliable;
      var commit := if mode == Previewing || mode == Selecting then MarkedText() else [];
      EmptyTextInStep(registry);
      KeystrokesShow(language, style, event);
      if |commit| > 0 {
        Reset();
      } else {
        ClearPresentation();
      }
      segment := None;
      lastWasBackspace := false;
      var failure := Type(Keystrokes(language, style, event), env);
      if failure.Some? {
        return Err(failure.value);
      }
      r := Ok(State(true, commit, false));
    }

    /** A zero in a selection commits what is shown and is typed into a new composition. */
    method TypeZero(event: KeyEvent, env: Environment) returns (r: Result<StateResponse, ErrorCode>)
      requires Valid() && WellBehaved(registry, env) && event.text != [] && mode == Selecting
      modifies this
      ensures lastRequestId == old(lastRequestId)
      ensures typoCandidates == [] || typoCandidates == old(typoCandidates)
      ensures r.Ok? ==>
                && Valid() && mode == InputMode.Composing && r.value == State(true, old(Preedit()), false)
                && CanType(EMPTY_TEXT, Keystrokes(old(language), style, event)) && InStep(registry, EMPTY_TEXT)
                && composing == TypeInto(registry, EMPTY_TEXT, Keystrokes(old(language), style, event))
      ensures Reliable(env) ==> r.Ok?
    {
      hide GoodRegistry, InStep, WindowFits, PredictionFits, TypeInto, Offered, OfferedLive, WellBehaved, Keystrokes, Reliable;
      var commit := MarkedText();
      EmptyTextInStep(registry);
      KeystrokesShow(language, style, event);
      Reset();
      var failure := Type(Keystrokes(language, style, event), env);
      if failure.Some? {
        return Err(failure.value);
      }
      r := Ok(State(true, commit, false));
    }

    /** A space typed between latin words. */
    method TypeLatinSpace() returns (r: Result<StateResponse, ErrorCode>)
      requires Valid() && mode == InputMode.Composing
      modifies this
      ensures lastRequestId == old(lastRequestId)
      ensures typoCandidates == [] || typoCandidates == old(typoCandidates)
      ensures Valid() && mode == InputMode.Composing && display == []
      ensures composing == TypeInto(registry, old(composing), Characters(HALF_WIDTH_SPACE, Direct))
      ensures r == Ok(State(true, [], false))
    {
      hide GoodRegistry, InStep, WindowFits, PredictionFits, TypeInto;
      composing := TypeInto(registry, composing, Characters(HALF_WIDTH_SPACE, Direct));
      segment := None;
      lastWasBackspace := false;
      correction := None;
      ClearPresentation();
      NoWindowFits(registry, composing, segment);
      r := Ok(State(true, [], false));
    }

    // ----- erasing -----

    /** Erases the last character, wherever the cursor is, and shows the raw reading. */
    method EraseLast(env: Environment) returns (r: Result<StateResponse, ErrorCode>)
      requires Valid() && WellBehaved(registry, env) && Active()
      modifies this
      ensures lastRequestId == old(lastRequestId)
      ensures typoCandidates == [] || typoCandidates == old(typoCandidates)
      ensures r.Ok? ==>
                && Valid() && composing.surface == old(composing.surface)[..old(|composing.surface|) - 1]
                && mode == (if composing.surface == [] then NoInput else InputMode.Composing) && live.None?
                && r.value == State(true, [], composing.surface == [])
      ensures Dependable(env) ==> r.Ok?
    {
      hide GoodRegistry, InStep, WindowFits, PredictionFits, Offered, OfferedLive, WellBehaved, Dependable, State,
           Valid, Listed, Foreseen;
      var previous := EraseAtEnd();
      if |composing.surface| == 0 {
        Reset();
        return Ok(State(true, [], true));
      }
      mode := InputMode.Composing;
      ClearPresentation();
      var failure := ShowErased(previous, env);
      if failure.Some? {
        return Err(failure.value);
      }
      r := Ok(State(true, [], false));
    }

    /** Erases the last character; without a correction yet, the text before is kept to correct it. */
    method EraseAtEnd() returns (previous: Option<Text>)
      requires Valid() && Active()
      modifies this`composing, this`segment, this`lastWasBackspace
      ensures Core() && Corrects() && composing.cursor == |composing.surface| && segment.None? && lastWasBackspace
      ensures composing.surface == old(composing.surface)[..old(|composing.surface|) - 1]
      ensures previous == if behaviour.typoCorrection && correction.None?
                          then Some(old(composing).(cursor := old(|composing.surface|))) else None
    {
      hide GoodRegistry, InStep, WindowFits, PredictionFits;
      GoToTarget(|composing.surface|);
      previous := if behaviour.typoCorrection && correction.None? then Some(composing) else None;
      EraseOne();
      segment := None;
      lastWasBackspace := true;
    }

    method EraseOne()
      requires Core() && composing.cursor == |composing.surface| > 0
      modifies this`composing
      ensures Core() && composing.cursor == |composing.surface|
      ensures composing.surface == old(composing.surface)[..old(|composing.surface|) - 1]
    {
      hide GoodRegistry, InStep, WindowFits, PredictionFits, Erase;
      ghost var shown := composing.surface;
      assert shown[|shown|..] == [] && shown[..|shown| - 1] + [] == shown[..|shown| - 1];
      composing := Erase(registry, composing, 1);
    }

    /** Candidates after a deletion, and a correction that fits what is left. */
    method ShowErased(previous: Option<Text>, env: Environment) returns (failure: Option<ErrorCode>)
      requires Core() && WellBehaved(registry, env) && mode == InputMode.Composing && composing.surface != []
      requires Corrects() && composing.cursor == |composing.surface| && segment.None?
      requires previous.Some? ==> correction.None?
      modifies this`correction, this`display, this`remainders, this`annotations, this`preview, this`additional
      modifies this`prediction, this`selected, this`live
      ensures failure.None? ==> Valid() && live.None?
      ensures Dependable(env) ==> failure.None?
    {
      hide GoodRegistry, InStep, WindowFits, SuffixEdit, Offered, OfferedLive, WellBehaved, Dependable, Reliable;
      DependableIsReliable(env);
      failure := RequestCandidates(env);
      if failure.Some? {
        return;
      }
      WithoutLive(registry, composing, segment, Shown());
      live := None;
      if previous.Some? {
        failure := RememberCorrection(previous.value, env);
        if failure.Some? {
          return;
        }
      }
      if correction.Some? {
        var edit := SuffixEdit(composing.surface, correction.value.1, correction.value.0);
        if edit.Some? {
          prediction := edit;
        } else {
          correction := None;
        }
      }
    }

    /** Remembers a likely correction of the text before the deletion, if it reads differently. */
    method RememberCorrection(previous: Text, env: Environment) returns (failure: Option<ErrorCode>)
      requires Corrects() && composing.cursor == |composing.surface| && segment.None?
      modifies this`correction
      ensures Corrects()
      ensures correction == old(correction) || (correction.Some? && IsCorrection(previous, correction.value, env))
      ensures Dependable(env) ==> failure.None?
    {
      var answer := env.typo(previous);
      if answer.Err? {
        return Some(answer.error);
      }
      var i := 0;
      while i < |answer.value| && |answer.value[i].converted| == 0
        invariant 0 <= i <= |answer.value|
        invariant forall j :: 0 <= j < i ==> answer.value[j].converted == []
      {
        i := i + 1;
      }
      if i == |answer.value| {
        return None;
      }
      var reading := answer.value[i].converted;
      var shown := env.reread(reading);
      if shown.Err? {
        return Some(shown.error);
      }
      var before := env.reread(previous.surface);
      if before.Err? {
        return Some(before.error);
      }
      if shown.value != before.value {
        correction := Some((shown.value, reading));
      }
      failure := None;
    }

    /** The first suggestion that is not empty, if it is shown differently. */
    ghost predicate IsCorrection(previous: Text, correction: (seq<Grapheme>, seq<Grapheme>), env: Environment) {
      && env.typo(previous).Ok?
      && (exists i :: 0 <= i < |env.typo(previous).value| && env.typo(previous).value[i].converted == correction.1
            && forall j :: 0 <= j < i ==> env.typo(previous).value[j].converted == [])
      && correction.1 != []
      && env.reread(correction.1) == Ok(correction.0)
      && env.reread(previous.surface).Ok? && env.reread(previous.surface).value != correction.0
    }

    // ----- leaving a mode -----

    method PressEscape() returns (r: Result<StateResponse, ErrorCode>)
      requires Valid() && mode != UnicodeInput
      modifies this
      ensures lastRequestId == old(lastRequestId)
      ensures typoCandidates == [] || typoCandidates == old(typoCandidates)
      ensures Valid() && r.Ok?
      ensures composing == if old(mode) == InputMode.Composing then EMPTY_TEXT else old(composing)
      ensures old(mode) != InputMode.Composing ==>
                && display == old(display) && remainders == old(remainders) && additional == old(additional)
                && preview == old(preview) && live == old(live) && segment == old(segment)
      ensures mode == (match old(mode)
                       case NoInput => NoInput
                       case Composing => NoInput
                       case Previewing => InputMode.Composing
                       case Selecting => (if behaviour.liveConversion then InputMode.Composing else Previewing)
                       case UnicodeInput => UnicodeInput)
      ensures r == Ok(State(old(mode) != NoInput, [], old(mode) == InputMode.Composing))
    {
      hide GoodRegistry, InStep, WindowFits, PredictionFits;
      match mode {
        case NoInput => r := Ok(State(false, [], false));
        case Composing =>
          Reset();
          r := Ok(State(true, [], true));
        case Previewing =>
          mode := InputMode.Composing;
          r := Ok(State(true, [], false));
        case Selecting =>
          mode := if behaviour.liveConversion then InputMode.Composing else Previewing;
          r := Ok(State(true, [], false));
        case UnicodeInput => assert false;
      }
    }

    /** The candidate that is learned with a committed text: the live conversion, or else the
        first one listed that takes everything. */
    function Marked(marked: seq<Grapheme>): Option<Candidate>
      reads this
    {
      if live.Some? && live.value.text == marked then live else MarkedFrom(display, remainders, marked, 0)
    }

    /** Hands the candidate whose text is being committed to the learning memory. */
    method LearnMarked(marked: seq<Grapheme>, env: Environment) returns (failure: Option<ErrorCode>)
      requires Valid()
      modifies this`composing
      ensures old(Marked(marked)).Some? ==> Completable(registry, old(composing), old(Marked(marked)).value)
      ensures failure == match old(Marked(marked))
                         case Some(c) => if c.learningTarget && env.learnFails then Some(Internal) else None
                         case None => None
      ensures failure.None? ==>
                composing == match old(Marked(marked)) case Some(c) => Taken(registry, old(composing), c) case None => old(composing)
      ensures Reliable(env) ==> failure.None?
    {
      hide GoodRegistry, InStep, WindowFits, PredictionFits, Completable, Taken;
      LiveCompletable(registry, composing, segment, Shown());
      if live.Some? && live.value.text == marked {
        var commit := TakeCandidate(live.value, env);
        return if commit.Err? then Some(commit.error) else None;
      }
      for i := 0 to |display|
        invariant Valid() && composing == old(composing)
        invariant MarkedFrom(display, remainders, marked, 0) == MarkedFrom(display, remainders, marked, i)
      {
        if |remainders[i]| == 0 && display[i].text == marked {
          OneFits(registry, composing, segment, Shown(), i);
          var commit := TakeCandidate(display[i], env);
          return if commit.Err? then Some(commit.error) else None;
        }
      }
      failure := None;
    }

    // ----- what Enter loses -----

    /** What stays behind the preview. */
    function BehindPreview(): seq<Grapheme>
      reads this
    {
      AtPreview(remainders, preview)
    }

    /** The text behind what Enter commits, which it discards. */
    ghost function Behind(): seq<Grapheme>
      reads this
      requires Valid()
    {
      match mode
      case Previewing => BehindPreview()
      case Composing =>
        LiveCompletable(registry, composing, segment, Shown());
        if live.Some? then Rest(registry, composing, live.value) else []
      case _ => []
    }

    /** When Enter loses nothing: in a preview, if the forms have not moved the list and no segment
        ends before the text, or if the candidate at the preview's position counts everything; with
        a live conversion, if there is a preview too, or if it counts everything. */
    lemma {:induction false} EnterKeepsAll()
      requires Valid()
      ensures mode == Previewing && preview.Some? && additional == 0 && (segment.None? || composing.cursor == |composing.surface|) ==>
                Behind() == []
      ensures mode == Previewing && preview.Some? && SurfaceOnly(display[preview.value].count) ==>
                (Behind() == [] <==> Total(display[preview.value].count) >= |composing.surface|)
      ensures mode == InputMode.Composing && live.Some? && IsListed(display[additional..], live.value) ==>
                (Behind() == [] <==> preview.Some?)
      ensures mode == InputMode.Composing && live.Some? && SurfaceOnly(live.value.count) ==>
                (Behind() == [] <==> Total(live.value.count) >= |composing.surface|)
      ensures mode != Previewing && live.None? ==> Behind() == []
    {
      hide GoodRegistry, InStep, WindowFits, PredictionFits, Completable, Rest, TakesAll;
      if preview.Some? {
        OneFits(registry, composing, segment, Shown(), preview.value);
        if SurfaceOnly(display[preview.value].count) {
          TakesAllExactly(registry, composing, display[preview.value]);
        }
      }
      WindowTakes(registry, composing, segment, Shown());
      if live.Some? && SurfaceOnly(live.value.count) {
        TakesAllExactly(registry, composing, live.value);
      }
    }

    /** What Enter discards, whatever the candidate counts: what the keystrokes show that it does
        not take. */
    lemma {:induction false} EnterDiscardsKeystrokes()
      requires Valid()
      ensures mode == Previewing && preview.Some? ==>
                Behind() == Convert(registry, Remaining(registry, composing.input, display[preview.value].count))
      ensures mode == InputMode.Composing && live.Some? ==>
                Behind() == Convert(registry, Remaining(registry, composing.input, live.value.count))
    {
      hide GoodRegistry, InStep, WindowFits, PredictionFits, Completable, Rest, Convert, Remaining;
      if preview.Some? {
        OneFits(registry, composing, segment, Shown(), preview.value);
        RestIsConversion(registry, composing, display[preview.value]);
      }
      if live.Some? {
        LiveCompletable(registry, composing, segment, Shown());
        RestIsConversion(registry, composing, live.value);
      }
    }

    /** Enter commits exactly what is shown. */
    method Confirm(env: Environment) returns (r: Result<StateResponse, ErrorCode>)
      requires Valid() && WellBehaved(registry, env) && Active()
      modifies this
      ensures lastRequestId == old(lastRequestId)
      ensures typoCandidates == [] || typoCandidates == old(typoCandidates)
      ensures r.Ok? ==> Valid() && r.value == State(true, r.value.commit, composing.surface == [])
      ensures r.Ok? ==> r.value.commit + composing.surface == old(Preedit())
      ensures r.Ok? && old(mode) != Selecting ==> mode == NoInput && composing == EMPTY_TEXT
      ensures old(mode) != Selecting && Reliable(env) ==> r.Ok?
      ensures old(mode) == Selecting && old(selected) < old(|display|) && Reliable(env) ==> r.Ok?
      ensures old(mode) == Selecting && old(selected) >= old(|display|) ==> r == Err(InvalidPayload)
    {
      hide GoodRegistry, InStep, WindowFits, PredictionFits, Reliable;
      if mode == Selecting {
        r := SelectCandidate(selected, Previewing, env);
        return;
      }
      var commit := MarkedText();
      var failure := LearnMarked(commit, env);
      if failure.Some? {
        return Err(failure.value);
      }
      Reset();
      r := Ok(State(true, commit, true));
    }

    // ----- choosing -----

    /** Marks the end of the keystrokes, unless it is marked already. */
    method Separate()
      requires Core() && composing.surface != []
      modifies this`composing
      ensures Core() && composing.surface != []
      ensures composing == if Separated(old(composing)) then old(composing)
                           else TypeInto(registry, old(composing), [InputElement(CompositionSeparator, style)])
    {
      hide GoodRegistry, InStep, WindowFits, PredictionFits, TypeInto;
      if Separated(composing) {
        return;
      }
      composing := TypeInto(registry, composing, [InputElement(CompositionSeparator, style)]);
    }

    /** Candidates for everything typed so far, to choose from or to preview. */
    method Offer(newMode: InputMode, env: Environment) returns (failure: Option<ErrorCode>)
      requires Core() && WellBehaved(registry, env) && composing.surface != [] && (lastWasBackspace ==> Corrects())
      requires newMode == Previewing || newMode == Selecting
      modifies this
      ensures lastRequestId == old(lastRequestId) && composing == old(composing)
      ensures typoCandidates == [] || typoCandidates == old(typoCandidates)
      ensures failure.None? ==>
                && Valid() && mode == newMode
                && selected == (if newMode == Selecting then 0 else if preview.Some? then preview.value else 0)
      ensures Reliable(env) ==> failure.None?
    {
      hide GoodRegistry, InStep, WindowFits, PredictionFits, Offered, OfferedLive, WellBehaved, Reliable;
      mode := newMode;
      failure := RequestCandidates(env);
      selected := if newMode == Selecting then 0 else if preview.Some? then preview.value else 0;
    }

    method PressSpace(event: KeyEvent, env: Environment) returns (r: Result<StateResponse, ErrorCode>)
      requires Valid() && WellBehaved(registry, env) && mode != UnicodeInput
      modifies this
      ensures lastRequestId == old(lastRequestId)
      ensures typoCandidates == [] || typoCandidates == old(typoCandidates)
      ensures r.Ok? ==> Valid()
      ensures old(mode) == NoInput ==>
                r == Ok(State(true, if old(language) == Japanese && event.shift == behaviour.typeHalfSpace then FULL_WIDTH_SPACE else HALF_WIDTH_SPACE, false))
      ensures old(mode) != NoInput && r.Ok? ==> r.value == State(true, [], false)
      ensures r.Ok? && old(mode) == InputMode.Composing ==> mode == if behaviour.liveConversion then Selecting else Previewing
      ensures r.Ok? && old(mode) == Previewing ==> mode == Selecting && selected == 0 && composing == old(composing)
      ensures old(mode) == Selecting ==>
                && mode == Selecting && composing == old(composing) && display == old(display) && remainders == old(remainders)
                && (display != [] ==> selected == (if event.shift then Less(old(selected)) else Clamped(old(selected) + 1, |display|)))
      ensures Reliable(env) ==> r.Ok?
    {
      hide GoodRegistry, InStep, WindowFits, PredictionFits, Offered, OfferedLive, WellBehaved, Reliable;
      match mode {
        case NoInput =>
          var commit := if language == Japanese && event.shift == behaviour.typeHalfSpace then FULL_WIDTH_SPACE else HALF_WIDTH_SPACE;
          r := Ok(State(true, commit, false));
        case Composing =>
          Separate();
          lastWasBackspace := false;
          var failure := Offer(if behaviour.liveConversion then Selecting else Previewing, env);
          r := if failure.Some? then Err(failure.value) else Ok(State(true, [], false));
        case Previewing =>
          var failure := Offer(Selecting, env);
          r := if failure.Some? then Err(failure.value) else Ok(State(true, [], false));
        case Selecting =>
          if |display| > 0 {
            selected := if event.shift then Less(selected) else Clamped(selected + 1, |display|);
          }
          r := Ok(State(true, [], false));
        case UnicodeInput => assert false;
      }
    }

    /** Candidates for everything typed so far. They are asked for before the mode changes, so a
        live conversion may be kept. */
    method OpenSelection(env: Environment) returns (failure: Option<ErrorCode>)
      requires Valid() && WellBehaved(registry, env) && (mode == InputMode.Composing || mode == Previewing)
      modifies this
      ensures lastRequestId == old(lastRequestId)
      ensures typoCandidates == [] || typoCandidates == old(typoCandidates)
      ensures failure.None? ==> Valid() && mode == Selecting && selected == 0
      ensures failure.None? ==>
                && composing == (if Separated(old(composing)) then old(composing)
                                 else TypeInto(registry, old(composing), [InputElement(CompositionSeparator, style)]))
                && segment == old(segment) && additional == 0 && Offered(env)
      ensures Reliable(env) ==> failure.None?
    {
      hide GoodRegistry, InStep, WindowFits, PredictionFits, TypeInto, Offers, TargetOf, WellBehaved, Reliable;
      Separate();
      lastWasBackspace := false;
      failure := RequestCandidates(env);
      mode := Selecting;
      selected := 0;
    }

    method PressDown(env: Environment) returns (r: Result<StateResponse, ErrorCode>)
      requires Valid() && WellBehaved(registry, env) && mode != UnicodeInput
      modifies this
      ensures lastRequestId == old(lastRequestId)
      ensures typoCandidates == [] || typoCandidates == old(typoCandidates)
      ensures r.Ok? ==> Valid() && r.value == State(old(mode) != NoInput, [], false)
      ensures r.Ok? && (old(mode) == InputMode.Composing || old(mode) == Previewing) ==>
                && mode == Selecting && selected == 0
                && composing == (if Separated(old(composing)) then old(composing)
                                 else TypeInto(registry, old(composing), [InputElement(CompositionSeparator, style)]))
                && segment == old(segment) && additional == 0 && Offered(env)
      ensures old(mode) == Selecting ==>
                && mode == Selecting && composing == old(composing) && display == old(display) && remainders == old(remainders)
                && (display != [] ==> selected == Clamped(old(selected) + 1, |display|))
      ensures Reliable(env) ==> r.Ok?
    {
      hide GoodRegistry, InStep, WindowFits, PredictionFits, TypeInto, Offered, WellBehaved, Reliable;
      if mode == InputMode.Composing || mode == Previewing {
        var failure := OpenSelection(env);
        return if failure.Some? then Err(failure.value) else Ok(State(true, [], false));
      }
      if mode == Selecting && |display| > 0 {
        selected := Clamped(selected + 1, |display|);
      }
      r := Ok(State(mode != NoInput, [], false));
    }

    /** The latin and kana forms of a listed candidate's part, or of everything. */
    function FormsAt(index: Option<nat>, env: Environment): (r: seq<Candidate>)
      reads this`composing, this`segment, this`display, this`remainders, this`annotations, this`preview, this`additional, this`live
      requires Core() && Listed() && WellBehaved(registry, env) && (index.Some? ==> index.value < |display|)
      ensures |r| == FORM_COUNT && AllCompletable(registry, composing, r)
      ensures forall i :: 0 <= i < |r| ==>
                r[i].count == match index case Some(k) => display[k].count case None => Input(|composing.input|)
    {
      Additional(registry, composing, match index case Some(k) => Some(display[k]) case None => None, env)
    }

    /** The position of the selected candidate, if there is one. */
    function Chosen(): Option<nat>
      reads this`mode, this`selected, this`display
    {
      if mode == Selecting && selected < |display| then Some(selected) else None
    }

    /** The position of the best candidate below the forms shown, if there is one. */
    function BelowForms(): Option<nat>
      reads this
    {
      if additional < |display| then Some(additional) else None
    }

    /** What will stay behind the preview when one more form is shown. */
    function BehindOneDown(): seq<Grapheme>
      reads this
    {
      OneDown(remainders, preview, additional)
    }

    /** One more latin or kana form above the candidates. */
    method Reveal(env: Environment)
      requires Valid() && WellBehaved(registry, env) && mode == Selecting && additional < MAX_ADDITIONAL
      modifies this`display, this`remainders, this`annotations, this`additional, this`selected
      ensures Valid() && selected == 0 && additional == old(additional) + 1
      ensures |display| == old(|display|) + 1
      ensures display[additional..] == old(display)[old(additional)..]
      ensures remainders[additional..] == old(remainders)[old(additional)..]
      ensures display[..additional] == old(FormsAt(BelowForms(), env))[FORM_COUNT - additional..]
      ensures preview.Some? ==> BehindPreview() == old(BehindOneDown())
    {
      hide GoodRegistry, InStep, WindowFits, PredictionFits, WellBehaved, AllCompletable, RestOfEach, Additional,
           AtPreview, OneDown, FormsAt, Rest, Completable;
      var forms := FormsAt(BelowForms(), env);
      RevealFits(registry, composing, segment, Shown(), forms);
      RevealedRemainders(registry, composing, segment, Shown(), forms);
      var shown := if additional + 1 <= |forms| then additional + 1 else |forms|;
      var base := display[additional..];
      var baseAnnotations := annotations[additional..];
      display := forms[|forms| - shown..] + base;
      annotations := seq(shown, _ => false) + baseAnnotations;
      remainders := RestOfEach(registry, composing, display);
      additional := shown;
      selected := 0;
    }

    method PressUp(env: Environment) returns (r: Result<StateResponse, ErrorCode>)
      requires Valid() && WellBehaved(registry, env)
      modifies this
      ensures lastRequestId == old(lastRequestId) && mode == old(mode) && composing == old(composing)
      ensures typoCandidates == [] || typoCandidates == old(typoCandidates)
      ensures Valid() && r == Ok(State(mode != NoInput, [], false))
      ensures mode == Selecting && old(selected) > 0 ==> selected == old(selected) - 1 && display == old(display)
      ensures mode == Selecting && old(selected) == 0 && old(additional) < MAX_ADDITIONAL ==>
                && |display| == old(|display|) + 1 && additional == old(additional) + 1
                && display[additional..] == old(display)[old(additional)..]
                && (preview.Some? ==> BehindPreview() == old(BehindOneDown()))
      ensures preview == old(preview) && segment == old(segment) && live == old(live)
    {
      hide GoodRegistry, InStep, WindowFits, PredictionFits;
      if mode == Selecting {
        if selected == 0 && additional < MAX_ADDITIONAL {
          Reveal(env);
        } else {
          selected := Less(selected);
        }
      }
      r := Ok(State(mode != NoInput, [], false));
    }

    // ----- resizing a segment -----

    /** Shift with an arrow key moves the end of the segment to be converted: the cursor goes one
        character further, or back to the first character. What is shown stays. */
    method Resize(forward: bool, env: Environment) returns (r: Result<StateResponse, ErrorCode>)
      requires Valid() && WellBehaved(registry, env) && Active()
      modifies this
      ensures lastRequestId == old(lastRequestId)
      ensures typoCandidates == [] || typoCandidates == old(typoCandidates)
      ensures composing.surface == old(composing.surface) && composing.input == old(composing.input)
      ensures r.Ok? ==>
                && Valid() && mode == Selecting && live.None? && r.value == State(true, [], false)
                && 1 <= composing.cursor <= |composing.surface| && segment == Some(composing.cursor)
                && selected == 0
                && composing.cursor == NextEnd(|composing.surface|, old(SelectionEnd()), forward)
                && (forward && old(SelectionEnd()) < |composing.surface| ==> composing.cursor == old(SelectionEnd()) + 1)
                && (forward && old(SelectionEnd()) == |composing.surface| ==> composing.cursor == 1)
                && (!forward && old(SelectionEnd()) > 1 ==> composing.cursor == old(SelectionEnd()) - 1)
                && (!forward && old(SelectionEnd()) <= 1 ==> composing.cursor == 1)
                && additional == 0 && PreviewOfSegment() && Offered(env)
      ensures Reliable(env) ==> r.Ok?
    {
      hide GoodRegistry, InStep, WindowFits, PredictionFits, Offered, OfferedLive, WellBehaved, PreviewOfSegment, NextEnd, State;
      GoToSelection();
      var target := NextEnd(|composing.surface|, composing.cursor, forward);
      NextEndMoves(|composing.surface|, composing.cursor, forward);
      GoToTarget(target);
      segment := Some(target);
      lastWasBackspace := false;
      mode := Selecting;
      ClearPresentation();
      var failure := ShowSegment(env);
      if failure.Some? {
        return Err(failure.value);
      }
      SegmentPreview();
      r := Ok(State(true, [], false));
    }

    /** The conversions of a resized segment. */
    method ShowSegment(env: Environment) returns (failure: Option<ErrorCode>)
      requires Core() && WellBehaved(registry, env) && composing.surface != [] && mode == Selecting && selected == 0 && !lastWasBackspace
      modifies this`correction, this`display, this`remainders, this`annotations, this`preview, this`additional
      modifies this`prediction, this`selected, this`live
      ensures failure.None? ==> Valid() && live.None? && selected == 0 && additional == 0 && Offered(env)
      ensures Reliable(env) ==> failure.None?
    {
      hide GoodRegistry, InStep, WindowFits, PredictionFits, Offered, OfferedLive, WellBehaved, Reliable;
      failure := RequestCandidates(env);
      if failure.Some? {
        return;
      }
      WithoutLive(registry, composing, segment, Shown());
      live := None;
    }

    /** Behind the preview of a resized segment nothing stays if the segment is the whole text; of a
        candidate that counts no more than the segment, exactly then. */
    ghost predicate PreviewOfSegment()
      reads this
      requires Core()
    {
      preview.Some? ==>
        && preview.value < |display|
        && (composing.cursor == |composing.surface| ==> BehindPreview() == [])
        && (SurfaceOnly(display[preview.value].count) ==>
              && Total(display[preview.value].count) >= composing.cursor
              && (BehindPreview() == [] <==> Total(display[preview.value].count) >= |composing.surface|)
              && (Total(display[preview.value].count) <= composing.cursor ==>
                    (BehindPreview() == [] <==> composing.cursor == |composing.surface|)))
    }

    lemma {:induction false} SegmentPreview()
      requires Core() && Listed() && segment.Some? && additional == 0
      ensures PreviewOfSegment()
    {
      hide GoodRegistry, InStep, WindowFits, Completable, Rest, TargetOf;
      WindowTakes(registry, composing, segment, Shown());
      if preview.Some? {
        var c := display[preview.value];
        OneFits(registry, composing, segment, Shown(), preview.value);
        if SurfaceOnly(c.count) {
          TakesAllExactly(registry, composing, c);
          TakesAllExactly(registry, TargetOf(registry, composing, segment), c);
        }
      }
    }

    /** The cursor to the end of the selected candidate's part. */
    method GoToSelection()
      requires Core() && Listed()
      modifies this`composing
      ensures Core() && composing == Text(old(composing.input), old(composing.surface), old(SelectionEnd()))
    {
      hide GoodRegistry, InStep, WindowFits, PredictionFits, GoTo, Rest;
      if mode == Selecting && selected < |display| {
        OneFits(registry, composing, segment, Shown(), selected);
        var rest := Rest(registry, composing, display[selected]);
        var prefix := if |rest| <= |composing.surface| then |composing.surface| - |rest| else 0;
        GoToStaysInStep(registry, composing, prefix - composing.cursor);
        composing := GoTo(composing, prefix - composing.cursor);
      }
    }

    /** Where the selected candidate's part ends, or else the cursor. */
    function SelectionEnd(): nat
      reads this
    {
      if mode == Selecting && selected < |display| && selected < |remainders| then
        if |remainders[selected]| <= |composing.surface| then |composing.surface| - |remainders[selected]| else 0
      else composing.cursor
    }

    method GoToTarget(target: nat)
      requires Core() && target <= |composing.surface|
      modifies this`composing
      ensures Core() && composing == Text(old(composing.input), old(composing.surface), target)
    {
      hide GoodRegistry, InStep, WindowFits, PredictionFits, GoTo;
      GoToStaysInStep(registry, composing, target - composing.cursor);
      composing := GoTo(composing, target - composing.cursor);
    }

    // ----- predictions -----

    /** Completes the reading of a predicted word without committing it. */
    method AcceptCandidate(c: Candidate, env: Environment) returns (accepted: bool)
      requires Core() && composing.surface != []
      modifies this`composing
      ensures Core() && composing.surface != []
      ensures !accepted ==> composing == old(composing)
      ensures accepted <==>
                && old(composing.cursor) == |old(composing.surface)|
                && env.accept(old(composing), c).Some? && env.accept(old(composing), c).value.1 != []
      ensures accepted ==>
                var (dropped, remaining) := env.accept(old(composing), c).value;
                composing.surface == Front(old(composing.surface), dropped) + remaining
    {
      hide GoodRegistry, InStep, WindowFits, PredictionFits, TypeInto, Erase;
      if composing.cursor != |composing.surface| {
        return false;
      }
      match env.accept(composing, c) {
        case None => accepted := false;
        case Some((dropped, remaining)) =>
          if |remaining| == 0 {
            return false;
          }
          CharactersShow(remaining, Direct);
          ReplacedEnd(registry, composing, dropped, remaining);
          composing := TypeInto(registry, Erase(registry, composing, dropped), Characters(remaining, Direct));
          accepted := true;
      }
    }

    /** Deletes the end of the text and types another one. */
    method ReplaceEnd(deleteCount: nat, append: seq<Grapheme>)
      requires Core() && composing.cursor == |composing.surface|
      requires append != [] || deleteCount < |composing.surface|
      modifies this`composing, this`lastWasBackspace
      ensures Core() && composing.surface != []
      ensures composing.surface == Front(old(composing.surface), deleteCount) + append
      ensures append != [] ==> lastWasBackspace == old(lastWasBackspace)
    {
      hide GoodRegistry, InStep, WindowFits, PredictionFits, TypeInto, Erase;
      if deleteCount > 0 {
        composing := Erase(registry, composing, deleteCount);
      }
      if |append| == 0 {
        lastWasBackspace := true;
      } else {
        CharactersShow(append, Direct);
        DirectTextAppends(registry, composing, append);
        composing := TypeInto(registry, composing, Characters(append, Direct));
      }
    }

    method PressTab(env: Environment) returns (r: Result<StateResponse, ErrorCode>)
      requires Valid() && WellBehaved(registry, env) && Active()
      modifies this
      ensures lastRequestId == old(lastRequestId)
      ensures typoCandidates == [] || typoCandidates == old(typoCandidates)
      ensures r.Ok? ==> Valid() && mode == old(mode) && r.value == State(true, [], false)
      ensures old(mode) != InputMode.Composing || old(prediction).None? ==> composing == old(composing)
      ensures r.Ok? && old(mode) == InputMode.Composing && old(prediction).Some? && old(prediction).value.candidate.None? ==>
                old(correction).Some? && composing.surface == old(correction).value.1
      ensures Reliable(env) ==> r.Ok?
    {
      hide GoodRegistry, InStep, WindowFits, SuffixEdit, Offered, OfferedLive, WellBehaved, Reliable;
      if mode == InputMode.Composing && prediction.Some? {
        lastWasBackspace := false;
        if prediction.value.candidate.Some? {
          var accepted := AcceptCandidate(prediction.value.candidate.value, env);
          if !accepted {
            return Ok(State(true, [], false));
          }
        } else {
          CorrectionApplies(composing.surface, correction.value.1, correction.value.0);
          correction := None;
          ReplaceEnd(prediction.value.deleteCount, prediction.value.append);
        }
        var failure := RequestCandidates(env);
        if failure.Some? {
          return Err(failure.value);
        }
      }
      r := Ok(State(true, [], false));
    }

    // ----- other keys -----

    /** Commits the selected part, or everything, in a latin or kana form. */
    method Represent(index: nat, env: Environment) returns (r: Result<StateResponse, ErrorCode>)
      requires Valid() && WellBehaved(registry, env) && Active() && index < FORM_COUNT
      modifies this
      ensures lastRequestId == old(lastRequestId)
      ensures typoCandidates == [] || typoCandidates == old(typoCandidates)
      ensures r.Ok? ==>
                && Valid() && r.value == State(true, r.value.commit, composing.surface == [])
                && r.value.commit == old(FormsAt(Chosen(), env))[index].text
      ensures r.Ok? && old(mode) == Selecting && old(selected) < old(|display|) ==> composing.surface == old(remainders)[old(selected)]
      ensures r.Ok? && old(mode) != Selecting ==> composing.surface == []
      ensures Reliable(env) ==> r.Ok?
    {
      hide GoodRegistry, InStep, WindowFits, PredictionFits, WellBehaved, Taken, Rest, CompletePrefix, ListedCandidates;
      var forms := FormsAt(Chosen(), env);
      if Chosen().None? {
        AllInputIsCompletable(registry, composing, forms[index]);
      } else {
        OneFits(registry, composing, segment, Shown(), selected);
        SameCountSameRest(registry, composing, forms[index], display[selected]);
      }
      r := CommitCandidate(forms[index], Selecting, env);
    }

    method ForgetCandidate(index: nat, env: Environment) returns (r: Result<StateResponse, ErrorCode>)
      requires Valid() && WellBehaved(registry, env)
      modifies this
      ensures lastRequestId == old(lastRequestId)
      ensures typoCandidates == [] || typoCandidates == old(typoCandidates)
      ensures index >= old(|display|) ==> r == Err(InvalidPayload)
      ensures r.Ok? ==> Valid() && mode == old(mode) && composing == old(composing) && r.value == State(true, [], false)
      ensures Dependable(env) && index < old(|display|) ==> r.Ok?
    {
      hide GoodRegistry, InStep, WindowFits, PredictionFits, WellBehaved, Offered, OfferedLive;
      typoCandidates := [];
      if index >= |display| {
        return Err(InvalidPayload);
      }
      if env.forgetFails {
        return Err(Internal);
      }
      selected := 0;
      live := None;
      var failure := RequestCandidates(env);
      if failure.Some? {
        return Err(failure.value);
      }
      r := Ok(State(true, [], false));
    }

    method ResetLearning(env: Environment) returns (r: Result<StateResponse, ErrorCode>)
      requires Valid() && WellBehaved(registry, env)
      modifies this
      ensures lastRequestId == old(lastRequestId)
      ensures typoCandidates == [] || typoCandidates == old(typoCandidates)
      ensures r.Ok? ==> Valid() && mode == old(mode) && composing == old(composing) && r.value == State(true, [], false)
      ensures Dependable(env) ==> r.Ok?
    {
      hide GoodRegistry, InStep, WindowFits, PredictionFits, WellBehaved, Offered, OfferedLive;
      typoCandidates := [];
      if env.resetFails {
        return Err(Internal);
      }
      selected := 0;
      live := None;
      if |composing.surface| > 0 {
        var failure := RequestCandidates(env);
        if failure.Some? {
          return Err(failure.value);
        }
      }
      r := Ok(State(true, [], false));
    }

    /** Turning the page stays within the list; a page without size or direction is refused. */
    method PageCandidates(pageSize: nat, direction: PageDirection) returns (ok: bool)
      requires Valid()
      modifies this`selected
      ensures Valid()
      ensures ok <==> pageSize > 0 && (display == [] || direction != UnknownPage)
      ensures ok && display != [] ==>
                selected == match direction
                            case PreviousPage => (if old(selected) >= pageSize then old(selected) - pageSize else 0)
                            case NextPage => Clamped(old(selected) + pageSize, |display|)
                            case UnknownPage => old(selected)
      ensures !ok || display == [] ==> selected == old(selected)
    {
      if pageSize == 0 {
        return false;
      }
      if |display| == 0 {
        return true;
      }
      match direction {
        case PreviousPage => selected := if selected >= pageSize then selected - pageSize else 0;
        case NextPage => selected := Clamped(selected + pageSize, |display|);
        case UnknownPage => return false;
      }
      ok := true;
    }

    /** Commits exactly what is shown, whatever the mode. */
    method CommitComposition() returns (r: StateResponse)
      requires Valid()
      modifies this
      ensures Valid() && mode == NoInput && lastRequestId == old(lastRequestId)
      ensures old(mode) != UnicodeInput ==> r.commit == old(Preedit())
      ensures old(mode) == UnicodeInput ==> r.commit == []
      ensures r.consumed <==> r.commit != []
      ensures r.reset <==> r.consumed
    {
      hide GoodRegistry, InStep, WindowFits, PredictionFits;
      var commit := MarkedText();
      Reset();
      r := State(|commit| > 0, commit, |commit| > 0);
    }

    method SelectTypoCorrection(index: nat) returns (r: Result<StateResponse, ErrorCode>)
      requires Valid()
      modifies this
      ensures lastRequestId == old(lastRequestId)
      ensures typoCandidates == [] || typoCandidates == old(typoCandidates)
      ensures index < old(|typoCandidates|) ==> Valid() && mode == NoInput && r == Ok(State(true, old(typoCandidates)[index].converted, true))
      ensures index >= old(|typoCandidates|) ==> r == Err(InvalidPayload)
    {
      hide GoodRegistry, InStep, WindowFits, PredictionFits;
      if index >= |typoCandidates| {
        return Err(InvalidPayload);
      }
      var commit := typoCandidates[index].converted;
      Reset();
      r := Ok(State(true, commit, true));
    }

    // ----- code points -----

    /** Starting a code point commits what is shown first. */
    method EnterUnicode(env: Environment) returns (r: Result<StateResponse, ErrorCode>)
      requires Valid() && WellBehaved(registry, env) && mode != UnicodeInput
      modifies this
      ensures lastRequestId == old(lastRequestId)
      ensures typoCandidates == [] || typoCandidates == old(typoCandidates)
      ensures r.Ok? ==> Valid() && mode == UnicodeInput && unicodeDigits == [] && r.value == State(true, old(Preedit()), false)
      ensures Reliable(env) && (old(mode) == Selecting ==> old(selected) < old(|display|)) ==> r.Ok?
      ensures old(mode) == Selecting && old(selected) >= old(|display|) ==> r == Err(InvalidPayload)
    {
      hide GoodRegistry, InStep, WindowFits, PredictionFits, WellBehaved, Completable, Taken, Rest, ListedCandidates,
           Marked, Reliable;
      var commit := [];
      if mode == InputMode.Composing || mode == Previewing {
        commit := MarkedText();
        var failure := LearnMarked(commit, env);
        if failure.Some? {
          return Err(failure.value);
        }
        Reset();
      } else if mode == Selecting {
        if selected >= |display| {
          return Err(InvalidPayload);
        }
        OneFits(registry, composing, segment, Shown(), selected);
        var taken := TakeCandidate(display[selected], env);
        if taken.Err? {
          return Err(taken.error);
        }
        commit := taken.value + composing.surface;
        Reset();
      }
      mode := UnicodeInput;
      unicodeDigits := [];
      r := Ok(State(true, commit, false));
    }

    /** Typing a code point. */
    method TypeUnicode(event: KeyEvent) returns (r: Result<StateResponse, ErrorCode>)
      requires Valid() && mode == UnicodeInput
      modifies this
      ensures lastRequestId == old(lastRequestId)
      ensures typoCandidates == [] || typoCandidates == old(typoCandidates)
      ensures Valid() && r.Ok?
      ensures event.action == TypeKey ==> mode == UnicodeInput && unicodeDigits == old(unicodeDigits) + event.hexDigits
      ensures event.action == UserAction.Backspace && old(unicodeDigits) != [] ==> mode == UnicodeInput && unicodeDigits == old(unicodeDigits)[..old(|unicodeDigits|) - 1]
      ensures event.action == Enter || event.action == Space ==> mode == NoInput && r.value == State(true, CodePoint(old(unicodeDigits)), true)
      ensures event.action == UserAction.Escape || (event.action == UserAction.Backspace && old(unicodeDigits) == []) ==> mode == NoInput && r.value == State(true, [], true)
    {
      hide GoodRegistry, InStep, WindowFits, PredictionFits;
      match event.action {
        case TypeKey =>
          unicodeDigits := unicodeDigits + event.hexDigits;
          r := Ok(State(true, [], false));
        case Backspace =>
          if |unicodeDigits| == 0 {
            Reset();
            return Ok(State(true, [], true));
          }
          unicodeDigits := unicodeDigits[..|unicodeDigits| - 1];
          r := Ok(State(true, [], false));
        case Enter =>
          var commit := CodePoint(unicodeDigits);
          Reset();
          r := Ok(State(true, commit, true));
        case Space =>
          var commit := CodePoint(unicodeDigits);
          Reset();
          r := Ok(State(true, commit, true));
        case Escape =>
          Reset();
          r := Ok(State(true, [], true));
        case _ => r := Ok(State(true, [], false));
      }
    }

    // ----- one key -----

    /** What a key does, in the order in which the daemon looks at it. No key that commits loses
        any of the text shown, except that a form in latin or kana replaces the selected part. */
    method HandleKey(event: KeyEvent, env: Environment) returns (r: Result<StateResponse, ErrorCode>)
      requires Valid() && WellBehaved(registry, env)
      requires event.number.Some? ==> event.number.value < 10 && event.text != []
      requires event.action.Represent? ==> event.action.index < FORM_COUNT
      modifies this
      ensures lastRequestId == old(lastRequestId)
      ensures r.Ok? ==> Valid() && typoCandidates == []
      ensures r.Ok? && old(Active()) && Takes(event, old(mode)) ==> r.value.commit + composing.surface == old(Preedit())
      ensures r.Ok? && event.action == StartUnicode && old(mode) != UnicodeInput ==> mode == UnicodeInput && r.value.commit == old(Preedit())
      ensures r.Ok? && event.action == TypeKey && old(mode) == Selecting && event.number.Some? && event.number.value > 0 ==>
                var index := PageStart(old(selected)) + event.number.value - 1;
                && index < old(|display|)
                && r.value.commit == old(display)[index].text && composing.surface == old(remainders)[index]
      ensures r.Ok? && event.action == TypeKey && (old(mode) == Previewing || old(mode) == Selecting)
              && event.text != [] && event.controlFree && (old(mode) == Selecting ==> event.number.None? || event.number.value == 0) ==>
                mode == InputMode.Composing && r.value.commit == old(Preedit())
      ensures r.Ok? && event.action == UserAction.Backspace && old(Active()) ==>
                r.value.commit == [] && composing.surface == old(composing.surface)[..old(|composing.surface|) - 1]
      ensures r.Ok? && (event.action == Left || event.action == Right) && event.shift && old(Active()) ==>
                && composing.surface == old(composing.surface) && mode == Selecting && segment == Some(composing.cursor)
                && EndMoved(event.action == Right, old(SelectionEnd()), composing.cursor, |composing.surface|)
      ensures event.action == UserAction.Escape && old(Active()) ==>
                r.Ok? && r.value.commit == [] && composing == if old(mode) == InputMode.Composing then EMPTY_TEXT else old(composing)
      ensures old(mode) == UnicodeInput && (event.action == Enter || event.action == Space) ==>
                r == Ok(State(true, CodePoint(old(unicodeDigits)), true))
      ensures r.Ok? && ReachesAction(event, old(Now())) ==> DownUpMean(event, old(Now()), r.value.commit, Now())
      ensures r.Ok? && ReachesAction(event, old(Now())) ==> SpaceMeans(behaviour, event, old(Now()), r.value.commit, Now())
      ensures r.Ok? && ReachesAction(event, old(Now())) ==> TypingMeans(registry, style, event, old(Now()), r.value, Now())
      ensures r.Ok? && ReachesAction(event, old(Now())) ==> IdleMeans(event, old(Now()), r.value, Now())
      ensures r.Ok? && old(mode) != UnicodeInput && event.action.Represent? && old(Active()) ==>
                r.value.commit == old(FormsAt(Chosen(), env))[event.action.index].text
      ensures r.Ok? && old(mode) != UnicodeInput && event.action == ForgetSelected ==>
                r.value.commit == [] && composing == old(composing) && mode == old(mode)
      ensures event.action == TypeKey && old(mode) == NoInput && old(language) == Japanese && event.direct.Some? ==>
                r == Ok(State(true, event.direct.value, false)) && mode == NoInput
      ensures event.action == TypeKey && old(mode) == NoInput && old(language) == English && DirectInput(event) != [] && event.inputControlFree ==>
                r == Ok(State(true, DirectInput(event), false)) && mode == NoInput
      ensures r.Ok? && (event.action == Eisu || event.action == Kana) && old(mode) != UnicodeInput ==>
                && language == (if event.action == Eisu then English else Japanese)
                && (event.action == Kana || old(mode) != Selecting ==> composing == old(composing) && mode == old(mode) && r.value.commit == [])
      ensures event.action == Space && old(mode) == InputMode.Composing && old(language) == English ==>
                && r.Ok? && r.value.commit == [] && mode == InputMode.Composing && display == []
                && composing == TypeInto(registry, old(composing), Characters(HALF_WIDTH_SPACE, Direct))
      ensures Refused(event, old(Now())) ==> r == Err(InvalidPayload)
      ensures Dependable(env) && !Refused(event, old(Now())) ==> r.Ok?
    {
      hide GoodRegistry, InStep, WindowFits, PredictionFits, WellBehaved, TypeInto, Keystrokes, CodePoint, Valid,
           PageStart, Preedit, ListedCandidates, State, DownUpMean, SpaceMeans, TypingMeans, IdleMeans, FormsAt,
           Chosen, Additional, Dependable, Reliable, EndMoved, ReachesAction, Refused, Takes;
      EarlyKeys(event, Now());
      KeepTypoCandidates([]);
      if event.action == TypeKey && mode == NoInput && language == Japanese && event.direct.Some? {
        return Ok(State(true, event.direct.value, false));
      }
      if ChangesMode(event, mode) {
        r := HandleMode(event, env);
      } else {
        r := HandleCharacter(event, env);
      }
    }

    /** While a code point is typed every key is part of it; then come the keys that start one and
        those that switch the language. */
    method HandleMode(event: KeyEvent, env: Environment) returns (r: Result<StateResponse, ErrorCode>)
      requires Valid() && WellBehaved(registry, env) && ChangesMode(event, mode) && typoCandidates == []
      modifies this
      ensures lastRequestId == old(lastRequestId)
      ensures r.Ok? ==> Valid() && typoCandidates == []
      ensures r.Ok? && event.action == Eisu && old(mode) == Selecting ==> r.value.commit + composing.surface == old(Preedit())
      ensures r.Ok? && event.action == StartUnicode && old(mode) != UnicodeInput ==> mode == UnicodeInput && r.value.commit == old(Preedit())
      ensures old(mode) == UnicodeInput && (event.action == Enter || event.action == Space) ==>
                r == Ok(State(true, CodePoint(old(unicodeDigits)), true))
      ensures r.Ok? && (event.action == Eisu || event.action == Kana) && old(mode) != UnicodeInput ==>
                && language == (if event.action == Eisu then English else Japanese)
                && (event.action == Kana || old(mode) != Selecting ==> composing == old(composing) && mode == old(mode) && r.value.commit == [])
      ensures Refused(event, old(Now())) ==> r == Err(InvalidPayload)
      ensures Dependable(env) && !Refused(event, old(Now())) ==> r.Ok?
    {
      hide GoodRegistry, InStep, WindowFits, PredictionFits, WellBehaved, CodePoint, Valid, PageStart, Preedit,
           ListedCandidates, State, Dependable, Reliable;
      DependableIsReliable(env);
      if mode == UnicodeInput {
        r := TypeUnicode(event);
      } else if event.action == StartUnicode {
        r := EnterUnicode(env);
      } else {
        r := SwitchLanguage(event.action == Eisu, env);
      }
    }

    /** Latin spaces and letters and digits come before what the actions do. */
    method HandleCharacter(event: KeyEvent, env: Environment) returns (r: Result<StateResponse, ErrorCode>)
      requires Valid() && WellBehaved(registry, env) && mode != UnicodeInput
      requires event.action != StartUnicode && event.action != Eisu && event.action != Kana
      requires event.action == TypeKey && mode == NoInput && language == Japanese ==> event.direct.None?
      requires event.number.Some? ==> event.number.value < 10 && event.text != []
      requires event.action.Represent? ==> event.action.index < FORM_COUNT
      requires typoCandidates == []
      modifies this
      ensures lastRequestId == old(lastRequestId)
      ensures r.Ok? ==> Valid() && typoCandidates == []
      ensures r.Ok? && old(Active()) && Takes(event, old(mode)) ==> r.value.commit + composing.surface == old(Preedit())
      ensures r.Ok? && event.action == TypeKey && old(mode) == Selecting && event.number.Some? && event.number.value > 0 ==>
                var index := PageStart(old(selected)) + event.number.value - 1;
                && index < old(|display|)
                && r.value.commit == old(display)[index].text && composing.surface == old(remainders)[index]
      ensures r.Ok? && event.action == TypeKey && (old(mode) == Previewing || old(mode) == Selecting)
              && event.text != [] && event.controlFree && (old(mode) == Selecting ==> event.number.None? || event.number.value == 0) ==>
                mode == InputMode.Composing && r.value.commit == old(Preedit())
      ensures r.Ok? && event.action == UserAction.Backspace && old(Active()) ==>
                r.value.commit == [] && composing.surface == old(composing.surface)[..old(|composing.surface|) - 1]
      ensures r.Ok? && (event.action == Left || event.action == Right) && event.shift && old(Active()) ==>
                && composing.surface == old(composing.surface) && mode == Selecting && segment == Some(composing.cursor)
                && EndMoved(event.action == Right, old(SelectionEnd()), composing.cursor, |composing.surface|)
      ensures event.action == UserAction.Escape && old(Active()) ==>
                r.Ok? && r.value.commit == [] && composing == if old(mode) == InputMode.Composing then EMPTY_TEXT else old(composing)
      ensures r.Ok? && ReachesAction(event, old(Now())) ==> DownUpMean(event, old(Now()), r.value.commit, Now())
      ensures r.Ok? && ReachesAction(event, old(Now())) ==> SpaceMeans(behaviour, event, old(Now()), r.value.commit, Now())
      ensures r.Ok? && ReachesAction(event, old(Now())) ==> TypingMeans(registry, style, event, old(Now()), r.value, Now())
      ensures r.Ok? && ReachesAction(event, old(Now())) ==> IdleMeans(event, old(Now()), r.value, Now())
      ensures r.Ok? && event.action.Represent? && old(Active()) ==> r.value.commit == old(FormsAt(Chosen(), env))[event.action.index].text
      ensures r.Ok? && event.action == ForgetSelected ==> r.value.commit == [] && composing == old(composing) && mode == old(mode)
      ensures event.action == TypeKey && old(mode) == NoInput && old(language) == English && DirectInput(event) != [] && event.inputControlFree ==>
                r == Ok(State(true, DirectInput(event), false)) && mode == NoInput
      ensures event.action == Space && old(mode) == InputMode.Composing && old(language) == English ==>
                && r.Ok? && r.value.commit == [] && mode == InputMode.Composing && display == []
                && composing == TypeInto(registry, old(composing), Characters(HALF_WIDTH_SPACE, Direct))
      ensures Refused(event, old(Now())) ==> r == Err(InvalidPayload)
      ensures Dependable(env) && !Refused(event, old(Now())) ==> r.Ok?
    {
      hide GoodRegistry, InStep, WindowFits, PredictionFits, WellBehaved, TypeInto, Keystrokes, Valid, PageStart,
           Preedit, ListedCandidates, State, DownUpMean, SpaceMeans, TypingMeans, IdleMeans, FormsAt, Chosen,
           Additional, Dependable, Reliable, EndMoved, SelectionEnd;
      if event.action == Space && mode == InputMode.Composing && language == English {
        r := TypeLatinSpace();
      } else if event.action == TypeKey && mode == NoInput && language == English && DirectInput(event) != [] && event.inputControlFree {
        r := Ok(State(true, DirectInput(event), false));
      } else if event.action == TypeKey && mode == Selecting && event.number.Some? {
        r := HandleDigit(event, env);
      } else {
        r := HandleAction(event, env);
      }
    }

    /** A digit in a selection: a zero is typed, the others choose from the page. */
    method HandleDigit(event: KeyEvent, env: Environment) returns (r: Result<StateResponse, ErrorCode>)
      requires Valid() && WellBehaved(registry, env) && mode == Selecting
      requires event.action == TypeKey && event.number.Some? && event.number.value < 10 && event.text != []
      modifies this
      ensures lastRequestId == old(lastRequestId)
      ensures typoCandidates == [] || typoCandidates == old(typoCandidates)
      ensures r.Ok? ==> Valid()
      ensures r.Ok? && event.number.value > 0 ==>
                var index := PageStart(old(selected)) + event.number.value - 1;
                && index < old(|display|)
                && r.value.commit == old(display)[index].text && composing.surface == old(remainders)[index]
      ensures r.Ok? && event.number.value == 0 ==> mode == InputMode.Composing && r.value.commit == old(Preedit())
      ensures Refused(event, old(Now())) ==> r == Err(InvalidPayload)
      ensures Dependable(env) && !Refused(event, old(Now())) ==> r.Ok?
    {
      hide GoodRegistry, InStep, WindowFits, PredictionFits, WellBehaved, TypeInto, Keystrokes, Valid, PageStart,
           Preedit, ListedCandidates, State, Dependable, Reliable;
      DependableIsReliable(env);
      if event.number.value == 0 {
        r := TypeZero(event, env);
      } else {
        r := SelectCandidate(PageStart(selected) + event.number.value - 1, Previewing, env);
      }
    }

    /** The latin key, or the kana key. The latin key also takes what is being selected. */
    method SwitchLanguage(latin: bool, env: Environment) returns (r: Result<StateResponse, ErrorCode>)
      requires Valid() && WellBehaved(registry, env) && mode != UnicodeInput
      modifies this
      ensures lastRequestId == old(lastRequestId)
      ensures typoCandidates == [] || typoCandidates == old(typoCandidates)
      ensures r.Ok? ==> Valid() && language == (if latin then English else Japanese)
      ensures r.Ok? && latin && old(mode) == Selecting ==> r.value.commit + composing.surface == old(Preedit())
      ensures r.Ok? && !(latin && old(mode) == Selecting) ==> composing == old(composing) && mode == old(mode) && r.value == State(true, [], false)
      ensures Reliable(env) && (latin && old(mode) == Selecting ==> old(selected) < old(|display|)) ==> r.Ok?
      ensures latin && old(mode) == Selecting && old(selected) >= old(|display|) ==> r == Err(InvalidPayload)
    {
      hide GoodRegistry, InStep, WindowFits, PredictionFits, Reliable;
      if latin && mode == Selecting {
        r := SelectCandidate(selected, Previewing, env);
        if r.Ok? {
          language := English;
        }
        return;
      }
      language := if latin then English else Japanese;
      r := Ok(State(true, [], false));
    }

    method HandleAction(event: KeyEvent, env: Environment) returns (r: Result<StateResponse, ErrorCode>)
      requires Valid() && WellBehaved(registry, env) && mode != UnicodeInput
      requires event.action.Represent? ==> event.action.index < FORM_COUNT
      requires typoCandidates == []
      modifies this
      ensures lastRequestId == old(lastRequestId)
      ensures r.Ok? ==> Valid() && typoCandidates == []
      ensures r.Ok? && old(Active()) && Takes(event, old(mode)) && event.action != Eisu ==> r.value.commit + composing.surface == old(Preedit())
      ensures r.Ok? && event.action == TypeKey && (old(mode) == Previewing || old(mode) == Selecting) && event.text != [] && event.controlFree ==>
                mode == InputMode.Composing && r.value.commit == old(Preedit())
      ensures r.Ok? && event.action == UserAction.Backspace && old(Active()) ==>
                r.value.commit == [] && composing.surface == old(composing.surface)[..old(|composing.surface|) - 1]
      ensures r.Ok? && (event.action == Left || event.action == Right) && event.shift && old(Active()) ==>
                && composing.surface == old(composing.surface) && mode == Selecting && segment == Some(composing.cursor)
                && EndMoved(event.action == Right, old(SelectionEnd()), composing.cursor, |composing.surface|)
      ensures event.action == UserAction.Escape && old(Active()) ==>
                r.Ok? && r.value.commit == [] && composing == if old(mode) == InputMode.Composing then EMPTY_TEXT else old(composing)
      ensures r.Ok? ==> DownUpMean(event, old(Now()), r.value.commit, Now())
      ensures r.Ok? ==> SpaceMeans(behaviour, event, old(Now()), r.value.commit, Now())
      ensures r.Ok? ==> TypingMeans(registry, style, event, old(Now()), r.value, Now())
      ensures r.Ok? ==> IdleMeans(event, old(Now()), r.value, Now())
      ensures r.Ok? && event.action.Represent? && old(Active()) ==> r.value.commit == old(FormsAt(Chosen(), env))[event.action.index].text
      ensures r.Ok? && event.action == ForgetSelected ==> r.value.commit == [] && composing == old(composing) && mode == old(mode)
      ensures event.action != TypeKey && event.action != Eisu && event.action != StartUnicode && Refused(event, old(Now())) ==> r == Err(InvalidPayload)
      ensures Dependable(env) && (event.action == TypeKey || !Refused(event, old(Now()))) ==> r.Ok?
    {
      hide GoodRegistry, InStep, WindowFits, PredictionFits, WellBehaved, TypeInto, Keystrokes, Valid, Preedit,
           ListedCandidates, State, DownUpMean, SpaceMeans, TypingMeans, FormsAt, Chosen, Additional, Dependable,
           Reliable;
      DependableIsReliable(env);
      if event.action != Down && event.action != Up && event.action != Space {
        OtherKeys(behaviour, event);
      }
      if !Types(event.action) {
        NoTyping(registry, style, event);
      }
      match event.action {
        case Backspace => r := HandleEnd(event, env);
        case Escape => r := HandleEnd(event, env);
        case Enter => r := HandleEnd(event, env);
        case Space => r := HandleMove(event, env);
        case Down => r := HandleMove(event, env);
        case Up => r := HandleMove(event, env);
        case Left => r := HandleTyping(event, env);
        case Right => r := HandleTyping(event, env);
        case Tab => r := HandleTyping(event, env);
        case Represent(_) => r := HandleList(event, env);
        case ForgetSelected => r := HandleList(event, env);
        case Consume => r := HandleTyping(event, env);
        case TypeKey => r := HandleTyping(event, env);
        case _ => r := Ok(State(false, [], false));
      }
    }

    /** The keys that erase, go back and confirm. */
    method HandleEnd(event: KeyEvent, env: Environment) returns (r: Result<StateResponse, ErrorCode>)
      requires Valid() && WellBehaved(registry, env) && mode != UnicodeInput
      requires event.action == UserAction.Backspace || event.action == UserAction.Escape || event.action == Enter
      modifies this
      ensures lastRequestId == old(lastRequestId)
      ensures typoCandidates == [] || typoCandidates == old(typoCandidates)
      ensures r.Ok? ==> Valid()
      ensures r.Ok? && event.action == Enter && old(Active()) ==> r.value.commit + composing.surface == old(Preedit())
      ensures r.Ok? && event.action == UserAction.Backspace && old(Active()) ==>
                r.value.commit == [] && composing.surface == old(composing.surface)[..old(|composing.surface|) - 1]
      ensures event.action == UserAction.Escape && old(Active()) ==>
                r.Ok? && r.value.commit == [] && composing == if old(mode) == InputMode.Composing then EMPTY_TEXT else old(composing)
      ensures r.Ok? ==> IdleMeans(event, old(Now()), r.value, Now())
      ensures Refused(event, old(Now())) ==> r == Err(InvalidPayload)
      ensures Dependable(env) && !Refused(event, old(Now())) ==> r.Ok?
    {
      hide GoodRegistry, InStep, WindowFits, PredictionFits, WellBehaved, Valid, Preedit, ListedCandidates, State,
           Dependable, Reliable;
      DependableIsReliable(env);
      if event.action == UserAction.Escape {
        r := PressEscape();
      } else if !Active() {
        r := Ok(State(false, [], false));
      } else if event.action == Enter {
        r := Confirm(env);
      } else {
        r := EraseLast(env);
      }
    }

    /** The keys that commit a form and forget what was learned. */
    method HandleList(event: KeyEvent, env: Environment) returns (r: Result<StateResponse, ErrorCode>)
      requires Valid() && WellBehaved(registry, env) && mode != UnicodeInput
      requires event.action == ForgetSelected || (event.action.Represent? && event.action.index < FORM_COUNT)
      modifies this
      ensures lastRequestId == old(lastRequestId)
      ensures typoCandidates == [] || typoCandidates == old(typoCandidates)
      ensures r.Ok? ==> Valid()
      ensures r.Ok? && event.action.Represent? && old(Active()) ==> r.value.commit == old(FormsAt(Chosen(), env))[event.action.index].text
      ensures r.Ok? && event.action == ForgetSelected ==> r.value.commit == [] && composing == old(composing) && mode == old(mode)
      ensures r.Ok? ==> IdleMeans(event, old(Now()), r.value, Now())
      ensures Refused(event, old(Now())) ==> r == Err(InvalidPayload)
      ensures Dependable(env) && !Refused(event, old(Now())) ==> r.Ok?
    {
      hide GoodRegistry, InStep, WindowFits, PredictionFits, WellBehaved, Valid, Preedit, ListedCandidates, State,
           Dependable, Reliable, FormsAt, Chosen, Additional;
      DependableIsReliable(env);
      if event.action == ForgetSelected {
        if mode == Selecting { r := ForgetCandidate(selected, env); } else { r := Ok(State(false, [], false)); }
      } else {
        if Active() { r := Represent(event.action.index, env); } else { r := Ok(State(false, [], false)); }
      }
    }

    /** The keys that go through candidates. */
    method HandleMove(event: KeyEvent, env: Environment) returns (r: Result<StateResponse, ErrorCode>)
      requires Valid() && WellBehaved(registry, env) && mode != UnicodeInput
      requires event.action == Space || event.action == Down || event.action == Up
      modifies this
      ensures lastRequestId == old(lastRequestId)
      ensures typoCandidates == [] || typoCandidates == old(typoCandidates)
      ensures r.Ok? ==> Valid()
      ensures r.Ok? ==> DownUpMean(event, old(Now()), r.value.commit, Now())
      ensures r.Ok? ==> SpaceMeans(behaviour, event, old(Now()), r.value.commit, Now())
      ensures Reliable(env) ==> r.Ok?
    {
      hide GoodRegistry, InStep, WindowFits, PredictionFits, WellBehaved, Valid, Preedit, ListedCandidates, State,
           TypeInto, Offered, BehindOneDown, BehindPreview;
      if event.action == Space {
        r := PressSpace(event, env);
      } else if event.action == Down {
        r := PressDown(env);
      } else {
        r := PressUp(env);
      }
    }

    /** Text, the arrow keys, the tabulator, and keys that are only swallowed. */
    method HandleTyping(event: KeyEvent, env: Environment) returns (r: Result<StateResponse, ErrorCode>)
      requires Valid() && WellBehaved(registry, env) && mode != UnicodeInput && Types(event.action)
      modifies this
      ensures lastRequestId == old(lastRequestId)
      ensures typoCandidates == [] || typoCandidates == old(typoCandidates)
      ensures r.Ok? ==> Valid() && TypingMeans(registry, style, event, old(Now()), r.value, Now())
      ensures r.Ok? && event.action == Right && !event.shift && old(mode) == Selecting ==> r.value.commit + composing.surface == old(Preedit())
      ensures r.Ok? && event.action == TypeKey && (old(mode) == Previewing || old(mode) == Selecting) && event.text != [] && event.controlFree ==>
                mode == InputMode.Composing && r.value.commit == old(Preedit())
      ensures r.Ok? && (event.action == Left || event.action == Right) && event.shift && old(Active()) ==>
                && composing.surface == old(composing.surface) && mode == Selecting && segment == Some(composing.cursor)
                && EndMoved(event.action == Right, old(SelectionEnd()), composing.cursor, |composing.surface|)
      ensures event.action == Tab && !old(Active()) ==> r.Ok? && !r.value.consumed && r.value.commit == [] && Now() == old(Now())
      ensures event.action != TypeKey && Refused(event, old(Now())) ==> r == Err(InvalidPayload)
      ensures Dependable(env) && (event.action == TypeKey || !Refused(event, old(Now()))) ==> r.Ok?
    {
      hide GoodRegistry, InStep, WindowFits, PredictionFits, WellBehaved, TypeInto, Keystrokes, Valid, Preedit,
           ListedCandidates, State, CanType, EndMoved, SelectionEnd, Offered, OfferedLive;
      if event.action == Left || event.action == Right {
        r := PressArrow(event.action == Right, event.shift, env);
      } else if event.action == Tab {
        if Active() { r := PressTab(env); } else { r := Ok(State(false, [], false)); }
      } else if event.action == TypeKey && |event.text| > 0 && event.controlFree {
        r := TypeKeyEvent(event, env);
      } else {
        r := Ok(State(event.action == Consume && mode != NoInput, [], false));
      }
    }

    /** An arrow resizes the segment with shift, takes the selection to the right, and is swallowed
        otherwise. */
    method PressArrow(right: bool, shift: bool, env: Environment) returns (r: Result<StateResponse, ErrorCode>)
      requires Valid() && WellBehaved(registry, env) && mode != UnicodeInput
      modifies this
      ensures lastRequestId == old(lastRequestId)
      ensures typoCandidates == [] || typoCandidates == old(typoCandidates)
      ensures r.Ok? ==> Valid()
      ensures r.Ok? && shift && old(mode) != NoInput ==>
                && composing.surface == old(composing.surface) && mode == Selecting && segment == Some(composing.cursor)
                && EndMoved(right, old(SelectionEnd()), composing.cursor, |composing.surface|)
      ensures r.Ok? && !shift && right && old(mode) == Selecting ==>
                && r.value.commit + composing.surface == old(Preedit())
                && mode == (if composing.surface == [] then NoInput else Selecting)
      ensures !shift && !(right && old(mode) == Selecting) ==>
                Now() == old(Now()) && r == Ok(State(mode != NoInput, [], false))
      ensures Reliable(env) && (!shift && right && old(mode) == Selecting ==> old(selected) < old(|display|)) ==> r.Ok?
      ensures !shift && right && old(mode) == Selecting && old(selected) >= old(|display|) ==> r == Err(InvalidPayload)
    {
      hide GoodRegistry, InStep, WindowFits, PredictionFits;
      if shift && mode != NoInput {
        r := Resize(right, env);
      } else if right && mode == Selecting {
        r := SelectCandidate(selected, Selecting, env);
      } else {
        r := Ok(State(mode != NoInput, [], false));
      }
    }
  }

  function Pick(display: seq<Candidate>, order: seq<nat>): seq<Candidate> {
    if order == [] then []
    else
      var last := order[|order| - 1];
      Pick(display, order[..|order| - 1]) + if last < |display| then [display[last]] else []
  }

  lemma {:induction false} FoundCompletable(reg: Registry, env: Environment, whole: Text, asked: Text)
    requires WellBehaved(reg, env) && InStep(reg, whole) && InStep(reg, asked) && env.convert(whole, asked).Ok?
    ensures var found := env.convert(whole, asked).value;
            && AllCompletable(reg, whole, found.main) && AllCompletable(reg, whole, found.firstClauses)
            && AllCompletable(reg, asked, found.main) && AllCompletable(reg, asked, found.firstClauses)
            && (found.prediction.Some? ==> found.prediction.value.candidate.Some?)
  {
    hide GoodRegistry, InStep, AllCompletable;
  }

  /** The keystrokes end with a separator. */
  predicate Separated(t: Text) {
    t.input != [] && t.input[|t.input| - 1].piece.CompositionSeparator?
  }

  /** The keys that commit what is shown, or the selected part of it. */
  predicate Takes(event: KeyEvent, mode: InputMode) {
    || event.action == Enter
    || (mode == Selecting && ((event.action == Right && !event.shift) || event.action == Eisu))
  }

  /** The input of a latin key. */
  function DirectInput(event: KeyEvent): seq<Grapheme> {
    if event.input == [] then event.text else event.input
  }

  /** One character further, from the end round to the first; or one back, not before the first. */
  function NextEnd(total: nat, current: nat, forward: bool): (r: nat)
    requires current <= total && total > 0
    ensures 1 <= r <= total
  {
    if forward then (if current >= total then 1 else current + 1) else (if current > 1 then current - 1 else 1)
  }

  /** The end of a segment moved by one: forward from the end it starts over behind the first
      character, and it never moves before that. */
  predicate EndMoved(forward: bool, before: nat, now: nat, total: nat) {
    && (forward && before < total ==> now == before + 1)
    && (forward && before == total ==> now == 1)
    && (!forward && before > 1 ==> now == before - 1)
    && (!forward && before <= 1 ==> now == 1)
  }

  lemma {:induction false} NextEndMoves(total: nat, current: nat, forward: bool)
    requires current <= total && total > 0
    ensures EndMoved(forward, current, NextEnd(total, current, forward), total)
  {
  }

  /** The first position of the page of nine that a position is on. */
  function PageStart(selected: nat): (r: nat)
    ensures r % 9 == 0 && r <= selected < r + 9
  {
    selected / 9 * 9
  }

  /** The text without its last `count` graphemes. */
  function Front(text: seq<Grapheme>, count: nat): (r: seq<Grapheme>)
    ensures r <= text && (count <= |text| ==> |r| + count == |text|) && (count > |text| ==> r == [])
  {
    text[..|text| - Min(count, |text|)]
  }

  lemma {:induction false} ReplacedEnd(reg: Registry, t: Text, dropped: nat, text: seq<Grapheme>)
    requires InStep(reg, t) && t.cursor == |t.surface| && text != []
    requires CanType(Erase(reg, t, dropped), Characters(text, Direct))
    ensures TypeInto(reg, Erase(reg, t, dropped), Characters(text, Direct)).surface == Front(t.surface, dropped) + text
  {
    hide GoodRegistry, InStep, TypeInto, CanType, Erase;
    assert Erase(reg, t, dropped).surface == Front(t.surface, dropped) + t.surface[t.cursor..];
    assert t.surface[t.cursor..] == [];
    DirectTextAppends(reg, Erase(reg, t, dropped), text);
  }

  /** Carrying out the edit gives the target, and something is left to show. */
  lemma {:induction false} CorrectionApplies(current: seq<Grapheme>, target: seq<Grapheme>, display: seq<Grapheme>)
    requires target != [] && SuffixEdit(current, target, display).Some?
    ensures var edit := SuffixEdit(current, target, display).value;
            && Front(current, edit.deleteCount) + edit.append == target
            && (edit.append != [] || edit.deleteCount < |current|)
  {
    hide SuffixEdit;
  }

  function Less(n: nat): (r: nat)
    ensures r <= n && (n > 0 ==> r + 1 == n)
  {
    if n == 0 then 0 else n - 1
  }

  function Clamped(n: nat, count: nat): (r: nat)
    requires count > 0
    ensures r < count && r <= n && (r < n ==> r + 1 == count)
  {
    if n < count then n else count - 1
  }

  lemma {:induction false} StillCompletable(reg: Registry, t: Text, a: seq<Candidate>, i: nat, b: seq<Candidate>, j: nat)
    requires InStep(reg, t) && AllCompletable(reg, t, a) && AllCompletable(reg, t, b)
    requires i <= |a| && j <= |b|
    ensures AllCompletable(reg, t, a[i..] + b[j..])
    ensures RestOfEach(reg, t, a[i..] + b[j..])[|a| - i..] == RestOfEach(reg, t, b)[j..]
    ensures (a[i..] + b[j..])[|a| - i..] == b[j..]
  {
    hide GoodRegistry, InStep, Completable, Rest;
  }

  /** The remainder at the preview's position. */
  function AtPreview(remainders: seq<seq<Grapheme>>, preview: Option<nat>): seq<Grapheme> {
    if preview.Some? && preview.value < |remainders| then remainders[preview.value] else []
  }

  /** The remainder that comes to the preview's position when one more form is shown. The list
      moves down, and the position does not: there the form takes what the best candidate below
      the forms takes, or the candidate that was listed one position before. */
  function OneDown(remainders: seq<seq<Grapheme>>, preview: Option<nat>, additional: nat): seq<Grapheme> {
    match preview
    case None => []
    case Some(p) =>
      if p <= additional then (if additional < |remainders| then remainders[additional] else [])
      else if p <= |remainders| then remainders[p - 1] else []
  }

  /** The list with one more of the forms. */
  function Revealed(w: Window, forms: seq<Candidate>): seq<Candidate>
    requires w.additional < FORM_COUNT == |forms| && w.additional <= |w.display|
  {
    forms[FORM_COUNT - (w.additional + 1)..] + w.display[w.additional..]
  }

  /** The window with one more of the forms. */
  lemma {:induction false} RevealFits(reg: Registry, t: Text, segment: Option<nat>, w: Window, forms: seq<Candidate>)
    requires InStep(reg, t) && WindowFits(reg, t, segment, w) && w.additional < MAX_ADDITIONAL
    requires |forms| == FORM_COUNT && AllCompletable(reg, t, forms)
    ensures var list := Revealed(w, forms);
            && AllCompletable(reg, t, list)
            && WindowFits(reg, t, segment, Window(list, RestOfEach(reg, t, list), w.preview, w.additional + 1, w.live))
            && list[w.additional + 1..] == w.display[w.additional..]
            && list[..w.additional + 1] == forms[FORM_COUNT - (w.additional + 1)..]
  {
    hide GoodRegistry, InStep, WindowFits, RestOfEach, AllCompletable;
    AllFit(reg, t, segment, w);
    StillCompletable(reg, t, forms, FORM_COUNT - (w.additional + 1), w.display, w.additional);
    MovedDown(reg, t, segment, w, Revealed(w, forms));
  }

  /** The remainders of that window. */
  lemma {:induction false} RevealedRemainders(reg: Registry, t: Text, segment: Option<nat>, w: Window, forms: seq<Candidate>)
    requires InStep(reg, t) && WindowFits(reg, t, segment, w) && w.additional < MAX_ADDITIONAL
    requires |forms| == FORM_COUNT && AllCompletable(reg, t, forms)
    requires forall k :: 0 <= k < |forms| ==>
               forms[k].count == if w.additional < |w.display| then w.display[w.additional].count else Input(|t.input|)
    ensures AllCompletable(reg, t, Revealed(w, forms))
    ensures RestOfEach(reg, t, Revealed(w, forms))[w.additional + 1..] == w.remainders[w.additional..]
    ensures AtPreview(RestOfEach(reg, t, Revealed(w, forms)), w.preview) == OneDown(w.remainders, w.preview, w.additional)
  {
    hide GoodRegistry, InStep, WindowFits, RestOfEach, AllCompletable, AtPreview, OneDown, Completable, Rest;
    AllFit(reg, t, segment, w);
    FormsRemainders(reg, t, forms, FORM_COUNT - (w.additional + 1), w.display, w.additional);
    MovedRemainders(RestOfEach(reg, t, Revealed(w, forms)), w.remainders, w.preview, w.additional);
  }

  lemma {:induction false} MovedRemainders(after: seq<seq<Grapheme>>, before: seq<seq<Grapheme>>, preview: Option<nat>, additional: nat)
    requires additional <= |before| && |after| == |before| + 1 && (preview.Some? ==> preview.value + additional < |before|)
    requires forall k :: 0 <= k <= additional ==> after[k] == if additional < |before| then before[additional] else []
    requires forall k :: additional < k < |after| ==> after[k] == before[k - 1]
    ensures after[additional + 1..] == before[additional..]
    ensures AtPreview(after, preview) == OneDown(before, preview, additional)
  {
  }

  lemma {:induction false} AllFit(reg: Registry, t: Text, segment: Option<nat>, w: Window)
    requires InStep(reg, t) && WindowFits(reg, t, segment, w)
    ensures AllCompletable(reg, t, w.display) && w.remainders == RestOfEach(reg, t, w.display)
  {
    hide GoodRegistry, InStep, AllCompletable, RestOfEach, TakesAll, LiveFits;
  }

  /** A list moved down by one more form keeps its preview candidate and what the live one shares. */
  lemma {:induction false} MovedDown(reg: Registry, t: Text, segment: Option<nat>, w: Window, list: seq<Candidate>)
    requires InStep(reg, t) && WindowFits(reg, t, segment, w) && w.additional < MAX_ADDITIONAL
    requires AllCompletable(reg, t, list) && w.additional + 1 <= |list| && list[w.additional + 1..] == w.display[w.additional..]
    ensures WindowFits(reg, t, segment, Window(list, RestOfEach(reg, t, list), w.preview, w.additional + 1, w.live))
  {
    hide GoodRegistry, InStep, AllCompletable, RestOfEach, TakesAll, LiveFits, TargetOf;
    var base := w.display[w.additional..];
    if w.preview.Some? {
      assert base[w.preview.value] == w.display[w.preview.value + w.additional];
      assert list[w.additional + 1..][w.preview.value] == list[w.preview.value + (w.additional + 1)];
    }
    if w.live.Some? {
      assert |list| > 0;
    }
  }

  /** Forms leave what the first candidate below them leaves, and those below keep theirs. */
  lemma {:induction false} FormsRemainders(reg: Registry, t: Text, forms: seq<Candidate>, i: nat, display: seq<Candidate>, j: nat)
    requires InStep(reg, t) && AllCompletable(reg, t, forms) && AllCompletable(reg, t, display) && i <= |forms| && j <= |display|
    requires forall k :: 0 <= k < |forms| ==> forms[k].count == if j < |display| then display[j].count else Input(|t.input|)
    ensures AllCompletable(reg, t, forms[i..] + display[j..])
    ensures var remainders := RestOfEach(reg, t, forms[i..] + display[j..]);
            && (forall k :: 0 <= k < |forms| - i ==> remainders[k] == if j < |display| then RestOfEach(reg, t, display)[j] else [])
            && (forall k :: |forms| - i <= k < |remainders| ==> remainders[k] == RestOfEach(reg, t, display)[k - (|forms| - i) + j])
  {
    hide GoodRegistry, InStep, Completable, Rest;
    StillCompletable(reg, t, forms, i, display, j);
    forall k | 0 <= k < |forms|
      ensures Rest(reg, t, forms[k]) == if j < |display| then Rest(reg, t, display[j]) else []
    {
      if j < |display| {
        SameCountSameRest(reg, t, forms[k], display[j]);
      } else {
        AllInputIsCompletable(reg, t, forms[k]);
      }
    }
    var list := forms[i..] + display[j..];
    assert forall k :: 0 <= k < |forms| - i ==> list[k] == forms[i + k];
    assert forall k :: |forms| - i <= k < |list| ==> list[k] == display[k - (|forms| - i) + j];
  }

  /** The first candidate from a position on that takes everything and has the given text. */
  function MarkedFrom(display: seq<Candidate>, remainders: seq<seq<Grapheme>>, marked: seq<Grapheme>, from: nat): Option<Candidate>
    decreases |display| - from
  {
    if from >= |display| then None
    else if from < |remainders| && remainders[from] == [] && display[from].text == marked then Some(display[from])
    else MarkedFrom(display, remainders, marked, from + 1)
  }

  lemma {:induction false} SameCountSameRest(reg: Registry, t: Text, a: Candidate, b: Candidate)
    requires InStep(reg, t) && a.count == b.count && Completable(reg, t, b)
    ensures Completable(reg, t, a) && Rest(reg, t, a) == Rest(reg, t, b)
  {
    hide GoodRegistry, InStep, CompletePrefix;
    assert Completable(reg, t, a);
  }

  /** The first candidate with the same text and the same count. */
  function PositionFrom(display: seq<Candidate>, c: Candidate, from: nat): (r: Option<nat>)
    requires from <= |display|
    ensures r.Some? ==> from <= r.value < |display| && display[r.value].text == c.text && display[r.value].count == c.count
    ensures r.Some? ==> forall i :: from <= i < r.value ==> display[i].text != c.text || display[i].count != c.count
    ensures r.None? ==> forall i :: from <= i < |display| ==> display[i].text != c.text || display[i].count != c.count
    decreases |display| - from
  {
    if from == |display| then None
    else if display[from].text == c.text && display[from].count == c.count then Some(from)
    else PositionFrom(display, c, from + 1)
  }

  /** The best conversion is the preview if it takes everything. */
  function PreviewOf(reg: Registry, asked: Text, main: seq<Candidate>, display: seq<Candidate>): (r: Option<nat>)
    requires InStep(reg, asked) && AllCompletable(reg, asked, main)
    ensures r.Some? ==>
              && r.value < |display| && main != [] && display[r.value].count == main[0].count
              && Rest(reg, asked, main[0]) == []
  {
    if main != [] && Rest(reg, asked, main[0]) == [] then PositionOf(display, main[0]) else None
  }

  /** The list shown for a conversion, and its preview. */
  ghost predicate Offers(reg: Registry, asked: Text, segmented: bool, found: Conversion, display: seq<Candidate>, preview: Option<nat>)
    requires InStep(reg, asked)
  {
    && AllCompletable(reg, asked, found.main) && AllCompletable(reg, asked, found.firstClauses)
    && display == (if segmented then found.main else DesktopCandidates(reg, asked, found))
    && (found.main != [] ==> display != [])
    && preview == PreviewOf(reg, asked, found.main, display)
  }

  /** The best conversion agrees with the preview. */
  lemma {:induction false} BestFits(reg: Registry, asked: Text, found: Conversion, display: seq<Candidate>, preview: Option<nat>)
    requires InStep(reg, asked) && found.main != [] && Offers(reg, asked, false, found, display, preview)
    ensures display != [] && LiveFits(reg, asked, found.main[0], preview.Some?, display)
  {
    hide GoodRegistry, InStep, Completable, Rest, DesktopCandidates;
  }

  /** With the remainders of the text it was asked for, nothing stays behind the preview. */
  lemma {:induction false} PreviewTakesAll(reg: Registry, asked: Text, main: seq<Candidate>, display: seq<Candidate>)
    requires InStep(reg, asked) && AllCompletable(reg, asked, main) && AllCompletable(reg, asked, display)
    ensures var p := PreviewOf(reg, asked, main, display);
            p.Some? ==> TakesAll(reg, asked, display[p.value])
  {
    hide GoodRegistry, InStep, Completable, Rest;
    var p := PreviewOf(reg, asked, main, display);
    if p.Some? {
      SameCountSameRest(reg, asked, display[p.value], main[0]);
    }
  }

  function LivePosition(display: seq<Candidate>, live: Option<Candidate>, selected: nat): (r: nat)
    ensures r == selected || (live.Some? && r < |display|)
  {
    if live.None? then selected
    else
      match PositionOf(display, live.value)
      case None => selected
      case Some(index) => index
  }

  function PositionOf(display: seq<Candidate>, c: Candidate): (r: Option<nat>)
    ensures r.Some? ==> r.value < |display| && display[r.value].text == c.text && display[r.value].count == c.count
    ensures r.None? ==> !IsListed(display, c)
  {
    PositionFrom(display, c, 0)
  }
}
