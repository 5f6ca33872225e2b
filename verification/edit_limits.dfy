/** Where the guards of `Edits` are needed: inputs on which an unguarded edit goes wrong. */
module EditLimits {
  import opened Wrappers
  import opened InputTables
  import opened Segments
  import opened Composing
  import opened Edits

  function Letter(name: string): InputPiece {
    Character(Grapheme(name))
  }

  function Typed(name: string): InputElement {
    InputElement(Letter(name), RomanToKana)
  }

  function WithRoman(table: InputTable): Registry {
    Registry(table, EMPTY_TABLE, EMPTY_TABLE, EMPTY_TABLE, map[])
  }

  lemma {:induction false} OnlySilentTables(table: InputTable)
    requires Silent(table)
    ensures SilentRegistry(WithRoman(table))
  {
    EmptyTableAppends([], CompositionSeparator);
    SilentTablesMakeSilentRegistry(WithRoman(table));
  }

  /** The roman style alone, from the start of the text. */
  function Fold(table: InputTable, buffer: seq<Grapheme>, pieces: seq<InputPiece>): seq<Grapheme>
    decreases |pieces|
  {
    if pieces == [] then buffer else Fold(table, Apply(table, buffer, pieces[0]).buffer, pieces[1..])
  }

  function AllTyped(pieces: seq<InputPiece>): seq<InputElement> {
    seq(|pieces|, k requires 0 <= k < |pieces| => InputElement(pieces[k], RomanToKana))
  }

  lemma {:induction false} RunOneStyle(table: InputTable, buffer: seq<Grapheme>, pieces: seq<InputPiece>)
    ensures Run(WithRoman(table), [Segment(buffer, RomanToKana)], AllTyped(pieces))
            == [Segment(Fold(table, buffer, pieces), RomanToKana)]
    decreases |pieces|
  {
    hide Apply;
    if pieces != [] {
      var reg, e := WithRoman(table), AllTyped(pieces)[0];
      StepSameStyle(reg, [Segment(buffer, RomanToKana)], e);
      assert AllTyped(pieces)[1..] == AllTyped(pieces[1..]);
      var next := Segment(Apply(table, buffer, pieces[0]).buffer, RomanToKana);
      assert [Segment(buffer, RomanToKana)][..0] + [next] == [next];
      RunOneStyle(table, next.graphemes, pieces[1..]);
    }
  }

  lemma {:induction false} ConvertOneStyle(table: InputTable, pieces: seq<InputPiece>)
    requires pieces != [] && !pieces[0].CompositionSeparator?
    ensures Convert(WithRoman(table), AllTyped(pieces)) == Fold(table, [], pieces)
  {
    hide Apply;
    var reg, e := WithRoman(table), AllTyped(pieces)[0];
    StepNewStyle(reg, [], e);
    assert AllTyped(pieces)[1..] == AllTyped(pieces[1..]);
    var first := Segment(Apply(table, [], pieces[0]).buffer, RomanToKana);
    assert [] + [first] == [first];
    RunOneStyle(table, first.graphemes, pieces[1..]);
    var last := Segment(Fold(table, [], pieces), RomanToKana);
    assert [last] == [] + [last];
    FlatLast([], last);
  }

  lemma {:induction false} NothingMatches(table: InputTable, buffer: seq<Grapheme>, added: InputPiece)
    requires forall i :: 0 <= i < |table.mappings| ==> !Matches(table, table.mappings[i].key, buffer, added)
    ensures Apply(table, buffer, added) == Applied(buffer + added.Shown(), 0)
  {
  }

  /** `n` followed by a separator resolves to one kana; a lone separator shows nothing. */
  const N_TABLE := InputTable([
      Mapping([Piece(CompositionSeparator)], []),
      Mapping([Piece(Character(Grapheme("n"))), Piece(CompositionSeparator)], [Glyph(Grapheme("N"))])
    ], 2)

  lemma {:induction false} NTableSilent()
    ensures Apply(N_TABLE, [], CompositionSeparator).buffer == []
  {
    var key := N_TABLE.mappings[0].key;
    assert KeyAt(key, 0) == Piece(CompositionSeparator);
    assert Matches(N_TABLE, key, [], CompositionSeparator);
    BestOutranks(N_TABLE, 2, [], CompositionSeparator, 0);
    assert !Matches(N_TABLE, N_TABLE.mappings[1].key, [], CompositionSeparator);
  }

  lemma {:induction false} NTableLetter()
    ensures Apply(N_TABLE, [], Letter("n")).buffer == [Grapheme("n")]
  {
    var n := Letter("n");
    var key := N_TABLE.mappings[0].key;
    assert !ElementMatches(KeyAt(key, 0), Current([], n, 0));
    NothingMatches(N_TABLE, [], n);
  }

  lemma {:induction false} NTableResolves()
    ensures Apply(N_TABLE, [Grapheme("n")], CompositionSeparator).buffer == [Grapheme("N")]
  {
    var buffer := [Grapheme("n")];
    var key := N_TABLE.mappings[1].key;
    assert KeyAt(key, 0) == Piece(CompositionSeparator) && KeyAt(key, 1) == Piece(Letter("n"));
    assert Current(buffer, CompositionSeparator, 1) == Letter("n");
    assert Matches(N_TABLE, key, buffer, CompositionSeparator);
    BestOutranks(N_TABLE, 2, buffer, CompositionSeparator, 1);
    assert Expand([Glyph(Grapheme("N"))], None) == [Grapheme("N")];
  }

  const LONE_SEPARATOR := InputElement(CompositionSeparator, RomanToKana)

  const VANISHED_TEXT := Text([LONE_SEPARATOR], [], 0)

  /** A separator typed into an empty buffer is kept, but shows nothing. */
  lemma {:induction false} SeparatorVanishes()
    ensures SilentRegistry(WithRoman(N_TABLE)) && Valid(WithRoman(N_TABLE), EMPTY_TEXT)
    ensures Insert(WithRoman(N_TABLE), EMPTY_TEXT, [LONE_SEPARATOR]) == VANISHED_TEXT
    ensures Valid(WithRoman(N_TABLE), VANISHED_TEXT) && !Anchored(VANISHED_TEXT)
  {
    var reg := WithRoman(N_TABLE);
    NTableSilent();
    OnlySilentTables(N_TABLE);
    RunOne(reg, [], LONE_SEPARATOR);
    assert Convert(reg, [LONE_SEPARATOR]) == [];
    assert ForceCursor(reg, EMPTY_TEXT, 0) == Forced(EMPTY_TEXT, 0);
    assert InsertionPrefix(reg, EMPTY_TEXT) == [] && InsertionSuffix(reg, EMPTY_TEXT) == [];
    assert [] + [LONE_SEPARATOR] == [LONE_SEPARATOR] && [LONE_SEPARATOR] + [] == [LONE_SEPARATOR];
    assert EMPTY_TEXT.surface[0..] == [];
  }

  /** A letter typed next leaves text that is not the conversion of the keystrokes: the
      leftover separator lands behind the letter. */
  lemma {:induction false} InsertIntoVanishedText()
    requires SilentRegistry(WithRoman(N_TABLE)) && Valid(WithRoman(N_TABLE), VANISHED_TEXT)
    ensures !Valid(WithRoman(N_TABLE), Insert(WithRoman(N_TABLE), VANISHED_TEXT, [Typed("n")]))
  {
    InsertIsValid(WithRoman(N_TABLE), VANISHED_TEXT, [Typed("n")]);
    NResolvesBeforeSeparator();
    assert [Typed("n")] + [LONE_SEPARATOR] == [Typed("n"), LONE_SEPARATOR];
  }

  lemma {:induction false} NResolvesBeforeSeparator()
    ensures var reg := WithRoman(N_TABLE);
            Convert(reg, [Typed("n"), InputElement(CompositionSeparator, RomanToKana)]) != Convert(reg, [Typed("n")])
  {
    hide Apply;
    NTableLetter();
    NTableResolves();
    var n := Letter("n");
    ConvertOneStyle(N_TABLE, [n]);
    ConvertOneStyle(N_TABLE, [n, CompositionSeparator]);
    assert AllTyped([n]) == [Typed("n")];
    assert AllTyped([n, CompositionSeparator]) == [Typed("n"), InputElement(CompositionSeparator, RomanToKana)];
    assert [n][1..] == [] && [n, CompositionSeparator][1..] == [CompositionSeparator];
    assert [CompositionSeparator][1..] == [];
    assert Fold(N_TABLE, [], [n]) == Fold(N_TABLE, [Grapheme("n")], []) == [Grapheme("n")];
    assert Fold(N_TABLE, [Grapheme("n")], [CompositionSeparator]) == Fold(N_TABLE, [Grapheme("N")], []);
  }

  /** Three letters become one grapheme. */
  const ABC_TABLE := InputTable([
      Mapping([Piece(Character(Grapheme("a"))), Piece(Character(Grapheme("b"))), Piece(Character(Grapheme("c")))],
              [Glyph(Grapheme("X"))])
    ], 3)

  lemma {:induction false} AbcAppends(buffer: seq<Grapheme>, added: InputPiece)
    requires |buffer| < 2 || added != Letter("c")
    requires added.Character?
    ensures Apply(ABC_TABLE, buffer, added).buffer == buffer + [added.value]
  {
    var key := ABC_TABLE.mappings[0].key;
    if |buffer| >= 2 {
      assert !ElementMatches(KeyAt(key, 0), Current(buffer, added, 0));
    }
    NothingMatches(ABC_TABLE, buffer, added);
  }

  lemma {:induction false} AbcResolves()
    ensures Apply(ABC_TABLE, [Grapheme("a"), Grapheme("b")], Letter("c")).buffer == [Grapheme("X")]
  {
    var buffer, c := [Grapheme("a"), Grapheme("b")], Letter("c");
    var key := ABC_TABLE.mappings[0].key;
    assert Current(buffer, c, 1) == Letter("b") && Current(buffer, c, 2) == Letter("a");
    assert KeyAt(key, 0) == Piece(c) && KeyAt(key, 1) == Piece(Letter("b")) && KeyAt(key, 2) == Piece(Letter("a"));
    assert Matches(ABC_TABLE, key, buffer, c);
    BestOutranks(ABC_TABLE, 1, buffer, c, 0);
    assert Expand([Glyph(Grapheme("X"))], None) == [Grapheme("X")];
  }

  lemma {:induction false} AbcConverts()
    ensures Convert(WithRoman(ABC_TABLE), [Typed("a"), Typed("b"), Typed("c")]) == [Grapheme("X")]
  {
    hide Apply;
    var a, b, c := Letter("a"), Letter("b"), Letter("c");
    var ga, gb := Grapheme("a"), Grapheme("b");
    ConvertOneStyle(ABC_TABLE, [a, b, c]);
    assert AllTyped([a, b, c]) == [Typed("a"), Typed("b"), Typed("c")];
    AbcAppends([], a);
    AbcAppends([ga], b);
    AbcResolves();
    assert [] + [ga] == [ga] && [ga] + [gb] == [ga, gb];
    assert [a, b, c][1..] == [b, c] && [b, c][1..] == [c] && [c][1..] == [];
    assert Fold(ABC_TABLE, [ga, gb], [c]) == Fold(ABC_TABLE, [Grapheme("X")], []);
    assert Fold(ABC_TABLE, [ga], [b, c]) == Fold(ABC_TABLE, [ga, gb], [c]);
  }

  lemma {:induction false} BcConverts()
    ensures Convert(WithRoman(ABC_TABLE), [Typed("b"), Typed("c")]) == [Grapheme("b"), Grapheme("c")]
  {
    hide Apply;
    var b, c := Letter("b"), Letter("c");
    var gb, gc := Grapheme("b"), Grapheme("c");
    ConvertOneStyle(ABC_TABLE, [b, c]);
    assert AllTyped([b, c]) == [Typed("b"), Typed("c")];
    AbcAppends([], b);
    AbcAppends([gb], c);
    assert [] + [gb] == [gb] && [gb] + [gc] == [gb, gc];
    assert [b, c][1..] == [c] && [c][1..] == [];
    assert Fold(ABC_TABLE, [gb], [c]) == Fold(ABC_TABLE, [gb, gc], []);
  }

  /** Dropping one of three keystrokes that show one grapheme lengthens the text, and the
      program's subtraction of lengths overflows. */
  lemma {:induction false} DroppingKeystrokesCanOverflow()
    ensures var reg := WithRoman(ABC_TABLE);
            var t := Text([Typed("a"), Typed("b"), Typed("c")], [Grapheme("X")], 1);
            SilentRegistry(reg) && Valid(reg, t) && CompletePrefix(reg, t, Input(1)).None?
  {
    var reg := WithRoman(ABC_TABLE);
    var key := ABC_TABLE.mappings[0].key;
    NothingMatches(ABC_TABLE, [], CompositionSeparator);
    OnlySilentTables(ABC_TABLE);
    AbcConverts();
    BcConverts();
    assert [Typed("a"), Typed("b"), Typed("c")][1..] == [Typed("b"), Typed("c")];
  }
}
