/** What typing in one style shows: the style's table, applied keystroke by keystroke
    (`input/composing.rs`). */
module ConversionMeanings {
  import opened Wrappers
  import opened InputTables
  import opened Segments

  /** Which table a style types through. */
  lemma {:induction false} StylesMean(reg: Registry, name: string)
    ensures reg.Resolve(Direct) == None
    ensures reg.Resolve(RomanToKana) == Some(reg.romanToKana) && reg.Resolve(Mapped(DefaultRomanToKana)) == Some(reg.romanToKana)
    ensures reg.Resolve(Mapped(DefaultAzik)) == Some(reg.azik)
    ensures reg.Resolve(Mapped(DefaultKanaJis)) == Some(reg.kanaJis) && reg.Resolve(Mapped(DefaultKanaUs)) == Some(reg.kanaUs)
    ensures name in reg.custom ==> reg.Resolve(Mapped(Named(name))) == Some(reg.custom[name])
    ensures forall buffer, piece :: UpdateSurface(reg, buffer, piece, Mapped(Empty)) == Applied(buffer + piece.Shown(), 0)
    ensures name !in reg.custom ==>
              forall buffer, piece :: UpdateSurface(reg, buffer, piece, Mapped(Named(name))) == Applied(buffer + piece.Shown(), 0)
  {
    hide Apply;
    forall buffer, piece
      ensures Apply(EMPTY_TABLE, buffer, piece) == Applied(buffer + piece.Shown(), 0)
    {
      EmptyTableAppends(buffer, piece);
    }
  }

  /** A table applied to a text, one piece after the other. */
  function TypedThrough(table: InputTable, buffer: seq<Grapheme>, pieces: seq<InputPiece>): seq<Grapheme>
    decreases |pieces|
  {
    if pieces == [] then buffer else TypedThrough(table, Apply(table, buffer, pieces[0]).buffer, pieces[1..])
  }

  /** Separators in front of everything else are not even passed to a table. */
  function WithoutLeading(pieces: seq<InputPiece>): seq<InputPiece> {
    if pieces != [] && pieces[0].CompositionSeparator? then WithoutLeading(pieces[1..]) else pieces
  }

  function InStyle(pieces: seq<InputPiece>, style: InputStyle): (r: seq<InputElement>)
    ensures |r| == |pieces| && forall i :: 0 <= i < |r| ==> r[i] == InputElement(pieces[i], style)
  {
    seq(|pieces|, i requires 0 <= i < |pieces| => InputElement(pieces[i], style))
  }

  lemma {:induction false} GoesOnInStyle(reg: Registry, table: InputTable, style: InputStyle, init: seq<Segment>, buffer: seq<Grapheme>, pieces: seq<InputPiece>)
    requires reg.Resolve(style) == Some(table)
    ensures Run(reg, init + [Segment(buffer, style)], InStyle(pieces, style)) == init + [Segment(TypedThrough(table, buffer, pieces), style)]
    decreases |pieces|
  {
    hide Apply;
    if pieces != [] {
      var segments, e := init + [Segment(buffer, style)], InStyle(pieces, style)[0];
      StepSameStyle(reg, segments, e);
      assert segments[..|segments| - 1] == init;
      assert InStyle(pieces, style)[1..] == InStyle(pieces[1..], style);
      GoesOnInStyle(reg, table, style, init, Apply(table, buffer, pieces[0]).buffer, pieces[1..]);
    }
  }

  /** Typing in one style shows what its table makes of the keystrokes, one after the other. */
  lemma {:induction false} StyleConverts(reg: Registry, table: InputTable, style: InputStyle, pieces: seq<InputPiece>)
    requires reg.Resolve(style) == Some(table)
    ensures Convert(reg, InStyle(pieces, style)) == TypedThrough(table, [], WithoutLeading(pieces))
    decreases |pieces|
  {
    hide Apply;
    var input := InStyle(pieces, style);
    if pieces == [] {
      assert input == [];
    } else {
      assert input[1..] == InStyle(pieces[1..], style);
      if pieces[0].CompositionSeparator? {
        StyleConverts(reg, table, style, pieces[1..]);
      } else {
        StepNewStyle(reg, [], input[0]);
        var first := Apply(table, [], pieces[0]).buffer;
        GoesOnInStyle(reg, table, style, [], first, pieces[1..]);
        assert [] + [Segment(first, style)] == [Segment(first, style)];
        var all := TypedThrough(table, first, pieces[1..]);
        FlatLast([], Segment(all, style));
        assert [] + [Segment(all, style)] == [Segment(all, style)] && [] + all == all;
      }
    }
  }

  /** What a keystroke typed directly shows. */
  function ShownDirectly(piece: InputPiece): (r: seq<Grapheme>)
    ensures |r| <= 1 && (r == [] <==> piece.CompositionSeparator?)
  {
    match piece
    case Character(g) => [g]
    case Key(intention, input, _) => [if intention.Some? then intention.value else input]
    case CompositionSeparator => []
  }

  lemma {:induction false} DirectUpdates(reg: Registry, buffer: seq<Grapheme>, piece: InputPiece)
    ensures UpdateSurface(reg, buffer, piece, Direct) == Applied(buffer + ShownDirectly(piece), 0)
  {
    hide Apply;
    match piece {
      case Character(_) => {}
      case Key(_, _, _) => {}
      case CompositionSeparator => assert buffer + [] == buffer;
    }
  }

  lemma {:induction false} StepDirect(reg: Registry, segments: seq<Segment>, piece: InputPiece)
    ensures Flat(Step(reg, segments, InputElement(piece, Direct)).segments) == Flat(segments) + ShownDirectly(piece)
  {
    hide UpdateSurface, Flat;
    var e, shown := InputElement(piece, Direct), ShownDirectly(piece);
    if segments != [] && segments[|segments| - 1].style == Direct {
      StepSameStyle(reg, segments, e);
      var init, last := Flat(segments[..|segments| - 1]), segments[|segments| - 1].graphemes;
      DirectUpdates(reg, last, piece);
      assert init + (last + shown) == (init + last) + shown;
    } else if segments != [] || !piece.CompositionSeparator? {
      StepNewStyle(reg, segments, e);
      DirectUpdates(reg, [], piece);
      assert [] + shown == shown;
    } else {
      assert Flat(segments) + [] == Flat(segments);
    }
  }

  /** Text typed directly is shown as it is, after anything. */
  lemma {:induction false} DirectConverts(reg: Registry, before: seq<InputElement>, piece: InputPiece)
    ensures Convert(reg, before + [InputElement(piece, Direct)]) == Convert(reg, before) + ShownDirectly(piece)
  {
    hide Step, Run, Flat;
    RunAppend(reg, [], before, [InputElement(piece, Direct)]);
    RunOne(reg, Run(reg, [], before), InputElement(piece, Direct));
    StepDirect(reg, Run(reg, [], before), piece);
  }

  /** Where the style changes, both sides are converted on their own. */
  lemma {:induction false} ConvertsStyleByStyle(reg: Registry, a: seq<InputElement>, b: seq<InputElement>)
    requires SilentRegistry(reg) && (a == [] || b == [] || a[|a| - 1].style != b[0].style)
    ensures Convert(reg, a + b) == Convert(reg, a) + Convert(reg, b)
  {
    hide Convert, SilentRegistry;
    StyleCut(reg, a, b);
    CleanCutFactors(reg, a + b, |a|);
    assert (a + b)[..|a|] == a && (a + b)[|a|..] == b;
  }
}
