/** Custom input tables as text (`input/custom.rs`). Text is a sequence of graphemes. */
module CustomTables {
  import opened Wrappers
  import opened InputTables

  type Line = seq<Grapheme>

  const TAB := Grapheme("\t")
  const NEWLINE := Grapheme("\n")
  const RETURN := Grapheme("\r")
  const LEFT := Grapheme("{")
  const RIGHT := Grapheme("}")

  /** A name spelled in single letters. */
  function Spell(name: string): (r: Line)
    ensures |r| == |name| && forall i :: 0 <= i < |r| ==> r[i] == Grapheme([name[i]])
  {
    seq(|name|, i requires 0 <= i < |name| => Grapheme([name[i]]))
  }

  datatype Token = Separator | AnyCharacter | LeftBracket | RightBracket | ShiftZero | ShiftUnderscore

  function NameOf(token: Token): string {
    match token
    case Separator => "composition-separator"
    case AnyCharacter => "any character"
    case LeftBracket => "lbracket"
    case RightBracket => "rbracket"
    case ShiftZero => "shift 0"
    case ShiftUnderscore => "shift _"
  }

  function ShiftedKey(name: string): InputPiece {
    Key(Some(Grapheme(name)), Grapheme(name), {Shift})
  }

  function KeyElementOf(token: Token): KeyElement {
    match token
    case Separator => Piece(CompositionSeparator)
    case AnyCharacter => AnyKey
    case LeftBracket => Piece(Character(LEFT))
    case RightBracket => Piece(Character(RIGHT))
    case ShiftZero => Piece(ShiftedKey("0"))
    case ShiftUnderscore => Piece(ShiftedKey("_"))
  }

  /** The tokens a value knows. */
  function ValueElementOf(token: Token): Option<ValueElement> {
    match token
    case AnyCharacter => Some(AnyValue)
    case LeftBracket => Some(Glyph(LEFT))
    case RightBracket => Some(Glyph(RIGHT))
    case _ => None
  }

  function TokenNamed(name: Line): Option<Token> {
    if name == Spell(NameOf(Separator)) then Some(Separator)
    else if name == Spell(NameOf(AnyCharacter)) then Some(AnyCharacter)
    else if name == Spell(NameOf(LeftBracket)) then Some(LeftBracket)
    else if name == Spell(NameOf(RightBracket)) then Some(RightBracket)
    else if name == Spell(NameOf(ShiftZero)) then Some(ShiftZero)
    else if name == Spell(NameOf(ShiftUnderscore)) then Some(ShiftUnderscore)
    else None
  }

  lemma {:induction false} NamesDiffer(a: Token, b: Token)
    ensures Spell(NameOf(a)) == Spell(NameOf(b)) <==> a == b
  {
    if a != b {
      assert Spell(NameOf(a))[0] != Spell(NameOf(b))[0] || |NameOf(a)| != |NameOf(b)| || Spell(NameOf(a))[6] != Spell(NameOf(b))[6];
    }
  }

  lemma {:induction false} TokenIsNamed(token: Token)
    ensures TokenNamed(Spell(NameOf(token))) == Some(token)
  {
    hide NameOf, Spell;
    NamesDiffer(token, Separator);
    NamesDiffer(token, AnyCharacter);
    NamesDiffer(token, LeftBracket);
    NamesDiffer(token, RightBracket);
    NamesDiffer(token, ShiftZero);
    NamesDiffer(token, ShiftUnderscore);
  }

  lemma {:induction false} NamesInRange(token: Token)
    ensures forall c :: c in NameOf(token) ==> ' ' <= c <= 'z'
  {
    match token
    case Separator => assert forall c :: c in "composition-separator" ==> ' ' <= c <= 'z';
    case AnyCharacter => assert forall c :: c in "any character" ==> ' ' <= c <= 'z';
    case LeftBracket =>
    case RightBracket =>
    case ShiftZero =>
    case ShiftUnderscore =>
  }

  lemma {:induction false} NamesAreClosed(token: Token)
    ensures RIGHT !in Spell(NameOf(token)) && TAB !in Spell(NameOf(token)) && NEWLINE !in Spell(NameOf(token)) && RETURN !in Spell(NameOf(token))
  {
    hide NameOf;
    NamesInRange(token);
    var name := Spell(NameOf(token));
    forall i | 0 <= i < |name|
      ensures name[i] != RIGHT && name[i] != TAB && name[i] != NEWLINE && name[i] != RETURN
    {
      var c := NameOf(token)[i];
      assert c in NameOf(token);
      assert [c][0] == c && "}"[0] == '}' && "\t"[0] == '\t' && "\n"[0] == '\n' && "\r"[0] == '\r';
    }
  }

  // ----- writing -----

  function Braced(token: Token): Line {
    [LEFT] + Spell(NameOf(token)) + [RIGHT]
  }

  function EncodeCharacter(g: Grapheme): Line {
    if g == LEFT then Braced(LeftBracket) else if g == RIGHT then Braced(RightBracket) else [g]
  }

  datatype ExportError = ExportError(element: KeyElement)

  function EncodeKey(e: KeyElement): Result<Line, ExportError> {
    match e
    case AnyKey => Ok(Braced(AnyCharacter))
    case Piece(Character(value)) => Ok(EncodeCharacter(value))
    case Piece(CompositionSeparator) => Ok(Braced(Separator))
    case Piece(piece) =>
      if piece == ShiftedKey("0") then Ok(Braced(ShiftZero))
      else if piece == ShiftedKey("_") then Ok(Braced(ShiftUnderscore))
      else Err(ExportError(e))
  }

  function EncodeValue(e: ValueElement): Line {
    match e
    case Glyph(value) => EncodeCharacter(value)
    case AnyValue => Braced(AnyCharacter)
  }

  function EncodeKeys(key: seq<KeyElement>): Result<Line, ExportError> {
    if key == [] then Ok([])
    else
      match EncodeKey(key[0])
      case Err(error) => Err(error)
      case Ok(first) =>
        match EncodeKeys(key[1..])
        case Err(error) => Err(error)
        case Ok(rest) => Ok(first + rest)
  }

  function EncodeValues(value: seq<ValueElement>): Line {
    if value == [] then [] else EncodeValue(value[0]) + EncodeValues(value[1..])
  }

  function LineOf(m: Mapping): Result<Line, ExportError> {
    match EncodeKeys(m.key)
    case Err(error) => Err(error)
    case Ok(key) => Ok(key + [TAB] + EncodeValues(m.value))
  }

  function LinesOf(mappings: seq<Mapping>): Result<seq<Line>, ExportError> {
    if mappings == [] then Ok([])
    else
      match LineOf(mappings[0])
      case Err(error) => Err(error)
      case Ok(first) =>
        match LinesOf(mappings[1..])
        case Err(error) => Err(error)
        case Ok(rest) => Ok([first] + rest)
  }

  function JoinLines(lines: seq<Line>): Line {
    if lines == [] then []
    else if |lines| == 1 then lines[0]
    else lines[0] + [NEWLINE] + JoinLines(lines[1..])
  }

  function ToCustomTsv(t: InputTable): Result<Line, ExportError> {
    match LinesOf(t.mappings)
    case Err(error) => Err(error)
    case Ok(lines) => Ok(JoinLines(lines))
  }

  // ----- reading -----

  function IndexOf(text: Line, g: Grapheme): (r: Option<nat>)
    ensures r.Some? ==> r.value < |text| && text[r.value] == g && g !in text[..r.value]
    ensures r.None? ==> g !in text
  {
    if text == [] then None
    else if text[0] == g then Some(0)
    else
      match IndexOf(text[1..], g)
      case None => None
      case Some(i) => assert text[..i + 1] == [text[0]] + text[1..][..i]; Some(i + 1)
  }

  /** A known token at the start of the text, and what follows it. */
  function LeadingToken(text: Line): (r: Option<(Token, Line)>)
    ensures r.Some? ==> |r.value.1| < |text|
  {
    if text == [] || text[0] != LEFT then None
    else
      match IndexOf(text[1..], RIGHT)
      case None => None
      case Some(close) =>
        match TokenNamed(text[1..][..close])
        case None => None
        case Some(token) => Some((token, text[1..][close + 1..]))
  }

  function ParseKey(text: Line): seq<KeyElement>
    decreases |text|
  {
    if text == [] then []
    else
      match LeadingToken(text)
      case Some((token, rest)) => [KeyElementOf(token)] + ParseKey(rest)
      case None => [Piece(Character(text[0]))] + ParseKey(text[1..])
  }

  function ParseValue(text: Line): seq<ValueElement>
    decreases |text|
  {
    if text == [] then []
    else
      match LeadingToken(text)
      case Some((token, rest)) =>
        if ValueElementOf(token).Some? then [ValueElementOf(token).value] + ParseValue(rest)
        else [Glyph(text[0])] + ParseValue(text[1..])
      case None => [Glyph(text[0])] + ParseValue(text[1..])
  }

  method ParseKeyText(text: Line) returns (output: seq<KeyElement>)
    ensures output == ParseKey(text)
  {
    hide LeadingToken;
    output := [];
    var remaining := text;
    while |remaining| > 0
      invariant output + ParseKey(remaining) == ParseKey(text)
      decreases |remaining|
    {
      match LeadingToken(remaining) {
        case Some((token, rest)) =>
          OneMore(output, KeyElementOf(token), ParseKey(rest));
          output := output + [KeyElementOf(token)];
          remaining := rest;
        case None =>
          OneMore(output, Piece(Character(remaining[0])), ParseKey(remaining[1..]));
          output := output + [Piece(Character(remaining[0]))];
          remaining := remaining[1..];
      }
    }
  }

  lemma {:induction false} OneMore<T>(a: seq<T>, x: T, b: seq<T>)
    ensures a + ([x] + b) == (a + [x]) + b
  {
  }

  method ParseValueText(text: Line) returns (output: seq<ValueElement>)
    ensures output == ParseValue(text)
  {
    hide LeadingToken;
    output := [];
    var remaining := text;
    while |remaining| > 0
      invariant output + ParseValue(remaining) == ParseValue(text)
      decreases |remaining|
    {
      var leading := LeadingToken(remaining);
      if leading.Some? && ValueElementOf(leading.value.0).Some? {
        OneMore(output, ValueElementOf(leading.value.0).value, ParseValue(leading.value.1));
        output := output + [ValueElementOf(leading.value.0).value];
        remaining := leading.value.1;
      } else {
        OneMore(output, Glyph(remaining[0]), ParseValue(remaining[1..]));
        output := output + [Glyph(remaining[0])];
        remaining := remaining[1..];
      }
    }
    assert output + [] == output;
  }

  /** The pieces between separators; a text of length zero has one empty piece. */
  function Split(text: Line, g: Grapheme): (r: seq<Line>)
    ensures |r| > 0
    decreases |text|
  {
    match IndexOf(text, g)
    case None => [text]
    case Some(i) => [text[..i]] + Split(text[i + 1..], g)
  }

  function WithoutReturn(line: Line): Line {
    if line != [] && line[|line| - 1] == RETURN then line[..|line| - 1] else line
  }

  /** Lines end at a newline; the last one may go without. */
  function Lines(content: Line): seq<Line>
    decreases |content|
  {
    if content == [] then []
    else
      match IndexOf(content, NEWLINE)
      case None => [content]
      case Some(i) => [WithoutReturn(content[..i])] + Lines(content[i + 1..])
  }

  function NonEmpty(columns: seq<Line>): seq<Line> {
    if columns == [] then []
    else (if columns[0] == [] then [] else [columns[0]]) + NonEmpty(columns[1..])
  }

  predicate AllBlank(line: Line, blank: Grapheme -> bool) {
    forall i :: 0 <= i < |line| ==> blank(line[i])
  }

  /** What a line adds to the table; a blank line or one without two columns adds nothing. */
  function EntryOf(line: Line, blank: Grapheme -> bool): Option<Mapping> {
    if AllBlank(line, blank) then None
    else
      var columns := NonEmpty(Split(line, TAB));
      if |columns| < 2 then None else Some(Mapping(ParseKey(columns[0]), ParseValue(columns[1])))
  }

  function EntriesOf(lines: seq<Line>, blank: Grapheme -> bool): seq<Mapping> {
    if lines == [] then []
    else
      (match EntryOf(lines[0], blank) case Some(m) => [m] case None => []) + EntriesOf(lines[1..], blank)
  }

  function FromCustomTsv(content: Line, blank: Grapheme -> bool): InputTable {
    NewTable(EntriesOf(Lines(content), blank))
  }

  // ----- one element -----

  lemma {:induction false} IndexAfter(a: Line, g: Grapheme, rest: Line)
    requires g !in a
    ensures IndexOf(a + [g] + rest, g) == Some(|a|)
  {
    var text := a + [g] + rest;
    if a != [] {
      assert text[1..] == a[1..] + [g] + rest;
      assert forall x :: x in a[1..] ==> x in a;
      IndexAfter(a[1..], g, rest);
    }
  }

  lemma {:induction false} BracedLeads(token: Token, rest: Line)
    ensures LeadingToken(Braced(token) + rest) == Some((token, rest))
  {
    hide NameOf, Spell, TokenNamed, IndexOf;
    var name := Spell(NameOf(token));
    var text := Braced(token) + rest;
    assert text[1..] == name + [RIGHT] + rest;
    NamesAreClosed(token);
    IndexAfter(name, RIGHT, rest);
    assert text[1..][..|name|] == name && text[1..][|name| + 1..] == rest;
    TokenIsNamed(token);
  }

  lemma {:induction false} KeyElementRoundTrip(e: KeyElement, rest: Line)
    requires EncodeKey(e).Ok?
    ensures ParseKey(EncodeKey(e).value + rest) == [e] + ParseKey(rest)
  {
    hide LeadingToken, Braced;
    match e
    case AnyKey => ParseBracedKey(AnyCharacter, rest);
    case Piece(Character(value)) =>
      if value == LEFT {
        ParseBracedKey(LeftBracket, rest);
      } else if value == RIGHT {
        ParseBracedKey(RightBracket, rest);
      } else {
        PlainDoesNotLead(value, rest);
        assert ([value] + rest)[1..] == rest;
      }
    case Piece(CompositionSeparator) => ParseBracedKey(Separator, rest);
    case Piece(piece) =>
      if piece == ShiftedKey("0") {
        ParseBracedKey(ShiftZero, rest);
      } else {
        ParseBracedKey(ShiftUnderscore, rest);
      }
  }

  lemma {:induction false} PlainDoesNotLead(g: Grapheme, rest: Line)
    requires g != LEFT
    ensures LeadingToken([g] + rest) == None
  {
  }

  lemma {:induction false} ParseBracedKey(token: Token, rest: Line)
    ensures ParseKey(Braced(token) + rest) == [KeyElementOf(token)] + ParseKey(rest)
  {
    hide LeadingToken, NameOf, Spell;
    BracedLeads(token, rest);
  }

  lemma {:induction false} ValueElementRoundTrip(e: ValueElement, rest: Line)
    ensures ParseValue(EncodeValue(e) + rest) == [e] + ParseValue(rest)
  {
    hide LeadingToken, NameOf, Spell;
    match e
    case AnyValue => BracedLeads(AnyCharacter, rest);
    case Glyph(value) =>
      if value == LEFT {
        BracedLeads(LeftBracket, rest);
      } else if value == RIGHT {
        BracedLeads(RightBracket, rest);
      } else {
        PlainDoesNotLead(value, rest);
        assert ([value] + rest)[1..] == rest;
      }
  }

  lemma {:induction false} KeyRoundTrip(key: seq<KeyElement>)
    requires EncodeKeys(key).Ok?
    ensures ParseKey(EncodeKeys(key).value) == key
  {
    hide ParseKey, EncodeKey;
    if key == [] {
      NothingParsed();
    } else {
      KeyRoundTrip(key[1..]);
      KeyElementRoundTrip(key[0], EncodeKeys(key[1..]).value);
    }
  }

  lemma {:induction false} ValueRoundTrip(value: seq<ValueElement>)
    ensures ParseValue(EncodeValues(value)) == value
  {
    hide ParseValue, EncodeValue;
    if value == [] {
      NothingParsed();
    } else {
      ValueRoundTrip(value[1..]);
      ValueElementRoundTrip(value[0], EncodeValues(value[1..]));
    }
  }

  lemma {:induction false} NothingParsed()
    ensures ParseKey([]) == [] && ParseValue([]) == []
  {
  }

  // ----- lines -----

  /** No symbol that ends a column or a line. */
  predicate Inline(text: Line) {
    TAB !in text && NEWLINE !in text && RETURN !in text
  }

  predicate PlainKey(key: seq<KeyElement>) {
    forall i :: 0 <= i < |key| ==> key[i].Piece? && key[i].piece.Character? ==> Inline([key[i].piece.value])
  }

  predicate PlainValue(value: seq<ValueElement>) {
    forall i :: 0 <= i < |value| ==> value[i].Glyph? ==> Inline([value[i].value])
  }

  lemma {:induction false} BracedInline(token: Token)
    ensures Inline(Braced(token)) && Braced(token) != []
  {
    hide NameOf, Spell;
    NamesAreClosed(token);
  }

  lemma {:induction false} EncodedCharacterInline(g: Grapheme)
    requires Inline([g])
    ensures Inline(EncodeCharacter(g)) && EncodeCharacter(g) != []
  {
    hide Braced;
    BracedInline(LeftBracket);
    BracedInline(RightBracket);
  }

  lemma {:induction false} InlineAppend(a: Line, b: Line)
    ensures Inline(a) && Inline(b) ==> Inline(a + b)
  {
  }

  lemma {:induction false} EncodedKeysInline(key: seq<KeyElement>)
    requires PlainKey(key) && EncodeKeys(key).Ok?
    ensures Inline(EncodeKeys(key).value) && (key != [] ==> EncodeKeys(key).value != [])
  {
    hide Braced, EncodeCharacter, Inline;
    if key == [] {
      assert Inline([]) by { NothingInline(); }
    } else {
      match key[0] {
        case AnyKey => BracedInline(AnyCharacter);
        case Piece(Character(value)) =>
          assert Inline([key[0].piece.value]);
          EncodedCharacterInline(value);
        case Piece(CompositionSeparator) => BracedInline(Separator);
        case Piece(_) =>
          BracedInline(ShiftZero);
          BracedInline(ShiftUnderscore);
      }
      EncodedKeysInline(key[1..]);
      InlineAppend(EncodeKey(key[0]).value, EncodeKeys(key[1..]).value);
    }
  }

  lemma {:induction false} NothingInline()
    ensures Inline([])
  {
  }

  lemma {:induction false} EncodedValuesInline(value: seq<ValueElement>)
    requires PlainValue(value)
    ensures Inline(EncodeValues(value)) && (value != [] ==> EncodeValues(value) != [])
  {
    hide Braced, EncodeCharacter, Inline;
    if value == [] {
      NothingInline();
    } else {
      match value[0] {
        case AnyValue => BracedInline(AnyCharacter);
        case Glyph(g) =>
          assert Inline([value[0].value]);
          EncodedCharacterInline(g);
      }
      EncodedValuesInline(value[1..]);
      InlineAppend(EncodeValue(value[0]), EncodeValues(value[1..]));
    }
  }

  lemma {:induction false} IndexNone(text: Line, g: Grapheme)
    requires g !in text
    ensures IndexOf(text, g) == None
  {
  }

  lemma {:induction false} SplitOnce(a: Line, b: Line)
    requires TAB !in a && TAB !in b && a != [] && b != []
    ensures NonEmpty(Split(a + [TAB] + b, TAB)) == [a, b]
  {
    hide IndexOf;
    IndexAfter(a, TAB, b);
    var line := a + [TAB] + b;
    assert line[..|a|] == a && line[|a| + 1..] == b;
    IndexNone(b, TAB);
    assert Split(line, TAB) == [a] + [b];
    TwoColumns(a, b);
  }

  lemma {:induction false} TwoColumns(a: Line, b: Line)
    requires a != [] && b != []
    ensures NonEmpty([a] + [b]) == [a, b]
  {
    var columns := [a] + [b];
    assert columns[1..] == [b] && [b][1..] == [];
    assert NonEmpty([b]) == [b];
  }

  /** A mapping that survives being written: key and value are not empty, hold no tab or line end,
      and do not make a blank line. */
  predicate Writable(m: Mapping, blank: Grapheme -> bool) {
    && m.key != [] && m.value != [] && PlainKey(m.key) && PlainValue(m.value)
    && (LineOf(m).Ok? ==> !AllBlank(LineOf(m).value, blank))
  }

  lemma {:induction false} LineRoundTrip(m: Mapping, blank: Grapheme -> bool)
    requires Writable(m, blank) && LineOf(m).Ok?
    ensures EntryOf(LineOf(m).value, blank) == Some(m)
    ensures NEWLINE !in LineOf(m).value && LineOf(m).value != []
    ensures WithoutReturn(LineOf(m).value) == LineOf(m).value
  {
    hide EncodeKeys, EncodeValues, ParseKey, ParseValue, Split, NonEmpty, PlainKey, PlainValue;
    var key, value := EncodeKeys(m.key).value, EncodeValues(m.value);
    EncodedKeysInline(m.key);
    EncodedValuesInline(m.value);
    SplitOnce(key, value);
    KeyRoundTrip(m.key);
    ValueRoundTrip(m.value);
    var line := LineOf(m).value;
    assert line[|line| - 1] == value[|value| - 1];
  }

  lemma {:induction false} LinesOfJoined(lines: seq<Line>)
    requires forall i :: 0 <= i < |lines| ==> NEWLINE !in lines[i] && lines[i] != [] && WithoutReturn(lines[i]) == lines[i]
    ensures Lines(JoinLines(lines)) == lines
  {
    hide IndexOf, WithoutReturn;
    if lines == [] {
    } else if |lines| == 1 {
      IndexNone(lines[0], NEWLINE);
    } else {
      LinesOfJoined(lines[1..]);
      var rest := JoinLines(lines[1..]);
      var content := lines[0] + [NEWLINE] + rest;
      IndexAfter(lines[0], NEWLINE, rest);
      assert content[..|lines[0]|] == lines[0] && content[|lines[0]| + 1..] == rest;
    }
  }

  ghost predicate AllWritable(mappings: seq<Mapping>, blank: Grapheme -> bool) {
    forall i :: 0 <= i < |mappings| ==> Writable(mappings[i], blank)
  }

  lemma {:induction false} LinesRoundTrip(mappings: seq<Mapping>, blank: Grapheme -> bool)
    requires AllWritable(mappings, blank) && LinesOf(mappings).Ok?
    ensures var lines := LinesOf(mappings).value;
            && (forall i :: 0 <= i < |lines| ==> NEWLINE !in lines[i] && lines[i] != [] && WithoutReturn(lines[i]) == lines[i])
            && EntriesOf(lines, blank) == mappings
  {
    hide LineOf, EntryOf, Writable, WithoutReturn;
    if mappings != [] {
      LinesRoundTrip(mappings[1..], blank);
      LineRoundTrip(mappings[0], blank);
    }
  }

  /** The custom table round trip: whenever a table of writable mappings can be exported, reading
      the text back gives the same table, mappings in the same order. */
  lemma {:induction false} TableRoundTrip(t: InputTable, blank: Grapheme -> bool)
    requires DistinctKeys(t.mappings) && t.maxKeyCount == LongestKey(t.mappings) && AllWritable(t.mappings, blank)
    requires ToCustomTsv(t).Ok?
    ensures FromCustomTsv(ToCustomTsv(t).value, blank) == t
  {
    hide LinesOf, EntriesOf, Lines, JoinLines, LongestKey, Collected;
    LinesRoundTrip(t.mappings, blank);
    LinesOfJoined(LinesOf(t.mappings).value);
    DistinctEntriesAreKept(t.mappings);
  }

  /** Export succeeds exactly if every key element has a notation: of the physical keys, only
      shift-0 and shift-underscore do. */
  predicate HasNotation(e: KeyElement) {
    e.Piece? && e.piece.Key? ==> e.piece == ShiftedKey("0") || e.piece == ShiftedKey("_")
  }

  lemma {:induction false} ExportSucceeds(t: InputTable)
    ensures ToCustomTsv(t).Ok? <==> forall i, j :: 0 <= i < |t.mappings| && 0 <= j < |t.mappings[i].key| ==> HasNotation(t.mappings[i].key[j])
  {
    LinesSucceed(t.mappings);
  }

  lemma {:induction false} LinesSucceed(mappings: seq<Mapping>)
    ensures LinesOf(mappings).Ok? <==> forall i, j :: 0 <= i < |mappings| && 0 <= j < |mappings[i].key| ==> HasNotation(mappings[i].key[j])
  {
    hide HasNotation, EncodeKeys;
    if mappings != [] {
      LinesSucceed(mappings[1..]);
      KeysSucceed(mappings[0].key);
      assert forall i :: 0 < i < |mappings| ==> mappings[i] == mappings[1..][i - 1];
    }
  }

  lemma {:induction false} KeysSucceed(key: seq<KeyElement>)
    ensures EncodeKeys(key).Ok? <==> forall j :: 0 <= j < |key| ==> HasNotation(key[j])
  {
    hide EncodeCharacter, Braced;
    if key != [] {
      KeysSucceed(key[1..]);
      assert forall j :: 0 < j < |key| ==> key[j] == key[1..][j - 1];
    }
  }
}
