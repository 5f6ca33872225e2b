/** What a session's keystrokes, code points, lists and candidates say, in plain terms
    (`daemon/engine.rs`, `session.rs`). */
module SessionMeanings {
  import opened Wrappers
  import opened Numbers
  import opened InputTables
  import opened Segments
  import opened Composing
  import opened Edits
  import opened SessionValues
  import opened Sessions

  // ----- keystrokes -----

  /** What a latin key types is shown as it is. */
  lemma {:induction false} LatinKeysShow(reg: Registry, style: InputStyle, event: KeyEvent)
    ensures Convert(reg, Keystrokes(English, style, event)) == if event.input != [] then event.input else event.text
  {
    hide Step, Run;
    DirectRun(reg, [], if event.input != [] then event.input else event.text);
    assert [] + event.input == event.input && [] + event.text == event.text;
  }

  /** A key typed through a table is one keystroke: it displays what is intended, or else its input,
      and carries the shift key exactly if that is pressed. */
  lemma {:induction false} MappedKeys(style: InputStyle, event: KeyEvent)
    requires style.Mapped? && (event.input != [] || event.intention != [])
    ensures var r := Keystrokes(Japanese, style, event);
            && |r| == 1 && r[0].style == style && r[0].piece.Key?
            && r[0].piece.input == Grapheme(Concatenated(if event.input != [] then event.input else event.text))
            && r[0].piece.Displayed() == Some(Grapheme(Concatenated(if event.intention != [] then event.intention else event.input)))
            && (Shift in r[0].piece.modifiers <==> event.shift)
  {
  }

  /** Other text is typed character by character. */
  lemma {:induction false} PlainKeys(style: InputStyle, event: KeyEvent, i: nat)
    requires !style.Mapped? || (event.input == [] && event.intention == [])
    ensures |Keystrokes(Japanese, style, event)| == |event.text|
    ensures i < |event.text| ==> Keystrokes(Japanese, style, event)[i] == InputElement(Character(event.text[i]), style)
  {
  }

  lemma {:induction false} ConcatenatedMeans(text: seq<Grapheme>, g: Grapheme)
    ensures Concatenated([]) == "" && Concatenated(text + [g]) == Concatenated(text) + g.text
  {
    assert (text + [g])[..|text|] == text;
  }

  // ----- code points -----

  function Digit(d: nat): char
    requires d < 16
  {
    if d < 10 then '0' + d as char else 'a' + (d - 10) as char
  }

  lemma {:induction false} DigitBack(d: nat)
    requires d < 16
    ensures HexDigit(Digit(d)) == d
  {
  }

  /** A number in hexadecimal digits. */
  function HexDigits(value: nat): (r: seq<char>)
    ensures r != []
  {
    (if value < 16 then [] else HexDigits(value / 16)) + [Digit(value % 16)]
  }

  lemma {:induction false} HexRoundTrip(value: nat)
    ensures HexValue(HexDigits(value)) == value
  {
    hide HexDigit, Digit;
    var digits := HexDigits(value);
    DigitBack(value % 16);
    if value < 16 {
      assert digits[..|digits| - 1] == [];
    } else {
      HexRoundTrip(value / 16);
      assert digits[..|digits| - 1] == HexDigits(value / 16);
    }
  }

  /** The digits of a code point give its character; those of half a surrogate pair, or of a larger
      number, give nothing. */
  lemma {:induction false} CodePointMeans(value: nat)
    ensures CodePoint([]) == []
    ensures value < 0xD800 || 0xE000 <= value < 0x110000 ==> CodePoint(HexDigits(value)) == [Grapheme([value as char])]
    ensures 0xD800 <= value < 0xE000 || value >= 0x110000 ==> CodePoint(HexDigits(value)) == []
  {
    hide HexDigits, HexValue;
    HexRoundTrip(value);
  }

  // ----- the list shown -----

  lemma {:induction false} IndicesAt(from: nat, end: nat, i: nat)
    requires from + i < end
    ensures |Indices(from, end)| == end - from && Indices(from, end)[i] == from + i
    decreases end - from
  {
    if i > 0 {
      IndicesAt(from + 1, end, i - 1);
    } else if from + 1 < end {
      IndicesAt(from + 1, end, 0);
    }
  }

  lemma {:induction false} PickAt(display: seq<Candidate>, order: seq<nat>)
    requires forall i :: 0 <= i < |order| ==> order[i] < |display|
    ensures |Pick(display, order)| == |order|
    ensures forall i :: 0 <= i < |order| ==> Pick(display, order)[i] == display[order[i]]
  {
    if order != [] {
      PickAt(display, order[..|order| - 1]);
    }
  }

  /** The window shows all candidates in order; while typing without live conversion, the preview
      stands before them and the others close up. */
  lemma {:induction false} ListedMeans(s: Session)
    requires s.preview.Some? ==> s.preview.value < |s.display|
    ensures |s.ListedCandidates()| == |s.display|
    ensures var previews := s.mode == InputMode.Composing && s.language == Japanese && !s.behaviour.liveConversion && s.preview.Some?;
            forall i :: 0 <= i < |s.display| ==>
              s.ListedCandidates()[i] == s.display[if !previews || i > s.preview.value then i else if i == 0 then s.preview.value else i - 1]
  {
    hide Indices, Pick;
    var n := |s.display|;
    var previews := s.mode == InputMode.Composing && s.language == Japanese && !s.behaviour.liveConversion && s.preview.Some?;
    if previews {
      var p := s.preview.value;
      PreviewOrderListsAll(s.preview, n);
      IndicesHold(0, p);
      IndicesHold(p + 1, n);
      var order := PreviewOrder(s.preview, n);
      forall i | 0 <= i < n
        ensures order[i] == if i > p then i else if i == 0 then p else i - 1
      {
        if 0 < i <= p {
          IndicesAt(0, p, i - 1);
        } else if i > p {
          IndicesAt(p + 1, n, i - (p + 1));
        }
      }
      PickAt(s.display, order);
    } else {
      IndicesHold(0, n);
      forall i | 0 <= i < n
        ensures Indices(0, n)[i] == i
      {
        IndicesAt(0, n, i);
      }
      PickAt(s.display, Indices(0, n));
    }
  }

  /** What is shown when nothing is composed: nothing, or the digits of a code point behind its mark. */
  lemma {:induction false} PreeditMeans(s: Session)
    ensures s.mode == NoInput ==> s.Preedit() == []
    ensures s.mode == UnicodeInput ==>
              && |s.Preedit()| == |s.unicodeDigits| + 2 && s.Preedit()[0] == Grapheme("U") && s.Preedit()[1] == Grapheme("+")
              && forall i :: 0 <= i < |s.unicodeDigits| ==> s.Preedit()[i + 2] == Grapheme([s.unicodeDigits[i]])
  {
  }

  // ----- candidates -----

  /** The candidate learned with a text: the live conversion of that text, or the first one listed
      with it that leaves nothing, or none. */
  lemma {:induction false} MarkedMeans(s: Session, marked: seq<Grapheme>)
    requires |s.remainders| == |s.display|
    ensures s.live.Some? && s.live.value.text == marked ==> s.Marked(marked) == s.live
    ensures !(s.live.Some? && s.live.value.text == marked) ==>
              match s.Marked(marked)
              case Some(c) => exists i :: 0 <= i < |s.display| && c == s.display[i] && c.text == marked && s.remainders[i] == []
                                && forall j :: 0 <= j < i ==> s.display[j].text != marked || s.remainders[j] != []
              case None => forall j :: 0 <= j < |s.display| ==> s.display[j].text != marked || s.remainders[j] != []
  {
    MarkedFromMeans(s.display, s.remainders, marked, 0);
  }

  lemma {:induction false} MarkedFromMeans(display: seq<Candidate>, remainders: seq<seq<Grapheme>>, marked: seq<Grapheme>, from: nat)
    requires |remainders| == |display| && from <= |display|
    ensures match MarkedFrom(display, remainders, marked, from)
            case Some(c) => exists i :: from <= i < |display| && c == display[i] && c.text == marked && remainders[i] == []
                              && forall j :: from <= j < i ==> display[j].text != marked || remainders[j] != []
            case None => forall j :: from <= j < |display| ==> display[j].text != marked || remainders[j] != []
    decreases |display| - from
  {
    if from < |display| && !(remainders[from] == [] && display[from].text == marked) {
      MarkedFromMeans(display, remainders, marked, from + 1);
    }
  }

  /** A live conversion is shown exactly while Japanese is typed at the end of a text of more than one
      character, unless a segment is resized or something was just erased. */
  lemma {:induction false} LiveMeans(s: Session, asked: Text, main: seq<Candidate>)
    requires main != []
    ensures s.LiveOf(asked, main) == Some(main[0]) || s.LiveOf(asked, main) == None
    ensures s.LiveOf(asked, main).Some? <==>
            !(!s.behaviour.liveConversion || s.mode != InputMode.Composing || s.language == English || s.segment.Some?
              || asked.cursor != |asked.surface| || s.lastWasBackspace || |asked.surface| <= 1)
  {
  }

  /** The selected part ends where its remainder begins; without a selection, at the cursor. */
  lemma {:induction false} SelectionEndMeans(s: Session)
    requires s.Valid()
    ensures s.mode == Selecting && s.selected < |s.display| && SurfaceOnly(s.display[s.selected].count) ==>
              s.SelectionEnd() <= |s.composing.surface| && s.remainders[s.selected] == s.composing.surface[s.SelectionEnd()..]
    ensures s.mode != Selecting || s.display == [] ==> s.SelectionEnd() == s.composing.cursor
  {
    hide GoodRegistry, InStep, WindowFits, PredictionFits, Completable, Rest, TakesAll;
    if s.mode == Selecting && s.selected < |s.display| && SurfaceOnly(s.display[s.selected].count) {
      OneFits(s.registry, s.composing, s.segment, s.Shown(), s.selected);
      TakesAllExactly(s.registry, s.composing, s.display[s.selected]);
    }
  }

  // ----- the forms -----

  /** The latin and kana forms: of the selected candidate's reading and of the keys it takes, or of
      all that is shown and all keys. */
  lemma {:induction false} FormsMean(reg: Registry, t: Text, c: Candidate, env: Environment, i: nat)
    requires WellBehaved(reg, env) && InStep(reg, t) && Completable(reg, t, c) && i < FORM_COUNT
    ensures Additional(reg, t, Some(c), env)[i].text == env.forms(c.reading, RawInput(ConsumedInput(reg, t, c)))[i]
    ensures Additional(reg, t, None, env)[i].text == env.forms(t.surface, RawInput(t.input))[i]
  {
    hide RawInput, ConsumedInput, Completable;
  }

  /** The keys of a keystroke: what was typed, not what it was meant as; a separator has none. */
  lemma {:induction false} RawInputMeans(input: seq<InputElement>, e: InputElement)
    ensures RawInput([]) == []
    ensures RawInput(input + [e]) == match e.piece
                                     case Character(value) => RawInput(input) + [value]
                                     case Key(_, typed, _) => RawInput(input) + [typed]
                                     case CompositionSeparator => RawInput(input)
  {
    assert (input + [e])[..|input|] == input;
    assert RawInput(input) + [] == RawInput(input);
  }

  /** A candidate that counts keystrokes takes the first ones. */
  lemma {:induction false} ConsumedMeans(reg: Registry, t: Text, c: Candidate, n: nat)
    requires InStep(reg, t) && Completable(reg, t, c) && c.count == Input(n) && n <= |t.input|
    ensures ConsumedInput(reg, t, c) == t.input[..n]
  {
  }

  // ----- the candidate lists -----

  /** The first candidate with its text. */
  predicate IsFirst(cs: seq<Candidate>, j: nat)
    requires j < |cs|
  {
    forall k :: 0 <= k < j ==> cs[k].text != cs[j].text
  }

  /** Places in a list, in order. */
  ghost predicate Ascend(places: seq<nat>, n: nat) {
    && (forall i :: 0 <= i < |places| ==> places[i] < n)
    && (forall i, j :: 0 <= i < j < |places| ==> places[i] < places[j])
  }

  ghost predicate Occurs(cs: seq<Candidate>, text: seq<Grapheme>) {
    exists k :: 0 <= k < |cs| && cs[k].text == text
  }

  /** Merging lists, in order, exactly the first candidate with each text. */
  lemma {:induction false} MergedMeans(cs: seq<Candidate>) returns (places: seq<nat>)
    ensures Ascend(places, |cs|) && |places| == |Merged(cs)| && forall i :: 0 <= i < |places| ==> Merged(cs)[i] == cs[places[i]]
    ensures forall j: nat :: j < |cs| ==> (j in places <==> IsFirst(cs, j))
  {
    hide IsFirst, HasText, Ascend;
    places := [];
    NoPlaces();
    if cs != [] {
      var n: nat := |cs| - 1;
      var init := cs[..n];
      var before := MergedMeans(init);
      MorePlaces(before, n);
      SeenBefore(init, before, cs[n].text);
      FirstInFront(cs);
      if HasText(Merged(init), cs[n].text) {
        places := before;
        NotPlaced(before, n);
      } else {
        places := before + [n];
      }
    }
  }

  lemma {:induction false} NoPlaces()
    ensures Ascend([], 0)
  {
  }

  lemma {:induction false} MorePlaces(places: seq<nat>, n: nat)
    requires Ascend(places, n)
    ensures Ascend(places, n + 1) && Ascend(places + [n], n + 1) && forall i :: 0 <= i < |places| ==> places[i] < n
  {
  }

  lemma {:induction false} NotPlaced(places: seq<nat>, n: nat)
    requires Ascend(places, n)
    ensures n !in places
  {
  }

  lemma {:induction false} FirstInFront(cs: seq<Candidate>)
    requires cs != []
    ensures forall j: nat :: j < |cs| - 1 ==> (IsFirst(cs[..|cs| - 1], j) <==> IsFirst(cs, j))
    ensures IsFirst(cs, |cs| - 1) <==> !Occurs(cs[..|cs| - 1], cs[|cs| - 1].text)
  {
    var init := cs[..|cs| - 1];
    assert forall k :: 0 <= k < |init| ==> init[k] == cs[k];
  }

  lemma {:induction false} SeenBefore(cs: seq<Candidate>, places: seq<nat>, text: seq<Grapheme>)
    requires Ascend(places, |cs|) && |places| == |Merged(cs)| && forall i :: 0 <= i < |places| ==> Merged(cs)[i] == cs[places[i]]
    requires forall j: nat :: j < |cs| ==> (j in places <==> IsFirst(cs, j))
    ensures HasText(Merged(cs), text) <==> Occurs(cs, text)
  {
    if k :| 0 <= k < |cs| && cs[k].text == text {
      var first := FirstWith(cs, text, k);
      assert first in places;
      var i :| 0 <= i < |places| && places[i] == first;
      assert Merged(cs)[i].text == text;
    }
    if HasText(Merged(cs), text) {
      var i :| 0 <= i < |Merged(cs)| && Merged(cs)[i].text == text;
      assert cs[places[i]].text == text;
    }
  }

  lemma {:induction false} FirstWith(cs: seq<Candidate>, text: seq<Grapheme>, k: nat) returns (j: nat)
    requires k < |cs| && cs[k].text == text
    ensures j <= k && cs[j].text == text && IsFirst(cs, j)
  {
    if other: nat :| other < k && cs[other].text == text {
      j := FirstWith(cs, text, other);
    } else {
      j := k;
    }
  }

  /** Partial conversions are listed first, but not at all if one of them takes everything. */
  lemma {:induction false} DesktopMeans(reg: Registry, t: Text, found: Conversion)
    requires InStep(reg, t) && AllCompletable(reg, t, found.firstClauses)
    ensures (exists c :: c in found.firstClauses && TakesAll(reg, t, c)) ==> DesktopCandidates(reg, t, found) == found.main
    ensures (forall c :: c in found.firstClauses ==> !TakesAll(reg, t, c)) ==>
              DesktopCandidates(reg, t, found) == Merged(found.firstClauses + found.main)
  {
    hide InStep, GoodRegistry, Completable, Rest, Merged;
    if c :| c in found.firstClauses && TakesAll(reg, t, c) {
      var i :| 0 <= i < |found.firstClauses| && found.firstClauses[i] == c;
      assert Rest(reg, t, found.firstClauses[i]) == [];
    } else {
      assert forall i :: 0 <= i < |found.firstClauses| ==> found.firstClauses[i] in found.firstClauses;
    }
  }
}
