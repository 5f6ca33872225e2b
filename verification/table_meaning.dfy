/** What a keystroke writes, said of the rules and of the text in plain reading order: which rule
    wins, and what stands at the place of each element of its value (`input/table.rs`). */
module TableMeanings {
  import opened Wrappers
  import opened InputTables

  // ----- reading -----

  /** The last `n` things read, the pressed piece last. */
  function LastRead(buffer: seq<Grapheme>, added: InputPiece, n: nat): (r: seq<InputPiece>)
    requires 0 < n <= |buffer| + 1
    ensures |r| == n
  {
    seq(n - 1, i requires 0 <= i < n - 1 => Character(buffer[|buffer| - (n - 1) + i])) + [added]
  }

  /** What is seen of a piece; of a key, its intention comes before its input. */
  predicate Displays(p: InputPiece, g: Grapheme) {
    match p
    case Character(value) => value == g
    case CompositionSeparator => false
    case Key(intention, input, _) => intention == Some(g) || (intention == None && input == g)
  }

  /** A rule's element accepts a piece; all its wildcards stand for one and the same. */
  predicate Accepts(element: KeyElement, read: InputPiece, wildcard: InputPiece) {
    match element
    case AnyKey => read == wildcard
    case Piece(Character(g)) => Displays(read, g)
    case Piece(CompositionSeparator) => read == CompositionSeparator
    case Piece(Key(_, input, modifiers)) => read.Key? && Displays(read, input) && read.modifiers == modifiers
  }

  ghost predicate AcceptsAll(key: seq<KeyElement>, read: seq<InputPiece>, wildcard: InputPiece)
    requires |key| == |read|
  {
    forall i :: 0 <= i < |key| ==> Accepts(key[i], read[i], wildcard)
  }

  /** A rule can be used. */
  ghost predicate Usable(table: InputTable, i: nat, buffer: seq<Grapheme>, added: InputPiece)
    requires i < |table.mappings|
  {
    var key := table.mappings[i].key;
    0 < |key| <= table.maxKeyCount && |key| <= |buffer| + 1
    && exists wildcard :: AcceptsAll(key, LastRead(buffer, added, |key|), wildcard)
  }

  lemma {:induction false} DisplayedIsSeen(p: InputPiece, g: Grapheme)
    ensures Displays(p, g) <==> p.Displayed() == Some(g)
    ensures Displays(p, g) ==> p.Shown() == [g]
    ensures p.Shown() == [] <==> p == CompositionSeparator
  {
  }

  lemma {:induction false} AcceptedPieces(expected: InputPiece, read: InputPiece, wildcard: InputPiece)
    ensures PieceMatches(expected, read) <==> Accepts(Piece(expected), read, wildcard)
  {
  }

  lemma {:induction false} ReadFromTheEnd(buffer: seq<Grapheme>, added: InputPiece, n: nat, d: nat)
    requires d < n <= |buffer| + 1
    ensures LastRead(buffer, added, n)[n - 1 - d] == Current(buffer, added, d)
  {
  }

  /** Matching backwards, as the program does, finds the rules that can be used. */
  lemma {:induction false} MatchingIsReading(table: InputTable, i: nat, buffer: seq<Grapheme>, added: InputPiece)
    requires i < |table.mappings|
    ensures Matches(table, table.mappings[i].key, buffer, added) <==> Usable(table, i, buffer, added)
  {
    hide PieceMatches, Accepts, LastRead;
    var key := table.mappings[i].key;
    if 0 < |key| <= table.maxKeyCount && |key| <= |buffer| + 1 {
      var read := LastRead(buffer, added, |key|);
      if Matches(table, key, buffer, added) {
        var wildcard := OneWildcard(table, key, buffer, added);
        forall k | 0 <= k < |key|
          ensures Accepts(key[k], read[k], wildcard)
        {
          ReadFromTheEnd(buffer, added, |key|, |key| - 1 - k);
          ElementAccepts(KeyAt(key, |key| - 1 - k), Current(buffer, added, |key| - 1 - k), wildcard);
        }
        assert AcceptsAll(key, read, wildcard);
      }
      if wildcard :| AcceptsAll(key, read, wildcard) {
        forall d | 0 <= d < |key|
          ensures ElementMatches(KeyAt(key, d), Current(buffer, added, d))
          ensures KeyAt(key, d).AnyKey? ==> Current(buffer, added, d) == wildcard
        {
          ReadFromTheEnd(buffer, added, |key|, d);
          assert Accepts(key[|key| - 1 - d], read[|key| - 1 - d], wildcard);
          ElementAccepts(KeyAt(key, d), Current(buffer, added, d), wildcard);
        }
      }
    }
  }

  lemma {:induction false} ElementAccepts(element: KeyElement, read: InputPiece, wildcard: InputPiece)
    ensures Accepts(element, read, wildcard) <==> ElementMatches(element, read) && (element.AnyKey? ==> read == wildcard)
  {
    if element.Piece? {
      AcceptedPieces(element.piece, read, wildcard);
    }
  }

  lemma {:induction false} OneWildcard(table: InputTable, key: seq<KeyElement>, buffer: seq<Grapheme>, added: InputPiece)
    returns (wildcard: InputPiece)
    requires Matches(table, key, buffer, added)
    ensures forall d :: 0 <= d < |key| && KeyAt(key, d).AnyKey? ==> Current(buffer, added, d) == wildcard
  {
    if d :| 0 <= d < |key| && KeyAt(key, d).AnyKey? {
      wildcard := Current(buffer, added, d);
    } else {
      wildcard := added;
    }
  }

  // ----- the winning rule -----

  function Wildcards(key: seq<KeyElement>): nat {
    |set i: nat | i < |key| && key[i] == AnyKey|
  }

  /** The rule ends with a physical key. */
  predicate EndsWithKey(key: seq<KeyElement>) {
    key != [] && key[|key| - 1].Piece? && key[|key| - 1].piece.Key?
  }

  /** A longer rule comes first, then one with fewer wildcards, then one for a physical key, then
      the earlier one. */
  predicate ComesBefore(a: seq<KeyElement>, i: nat, b: seq<KeyElement>, j: nat) {
    if |a| != |b| then |a| > |b|
    else if Wildcards(a) != Wildcards(b) then Wildcards(a) < Wildcards(b)
    else if EndsWithKey(a) != EndsWithKey(b) then EndsWithKey(a)
    else i < j
  }

  /** The rule that is used. */
  ghost predicate Wins(table: InputTable, i: nat, buffer: seq<Grapheme>, added: InputPiece) {
    && i < |table.mappings| && Usable(table, i, buffer, added)
    && forall j: nat :: j < |table.mappings| && j != i && Usable(table, j, buffer, added) ==>
         ComesBefore(table.mappings[i].key, i, table.mappings[j].key, j)
  }

  lemma {:induction false} WildcardsCounted(key: seq<KeyElement>, depth: nat)
    requires depth <= |key|
    ensures WildcardCount(key, depth) == |set i: nat | |key| - depth <= i < |key| && key[i] == AnyKey|
  {
    if depth > 0 {
      WildcardsCounted(key, depth - 1);
      OneMoreWildcard(key, |key| - depth);
    }
  }

  lemma {:induction false} OneMoreWildcard(key: seq<KeyElement>, n: nat)
    requires n < |key|
    ensures |set i: nat | n <= i < |key| && key[i] == AnyKey|
            == |set i: nat | n + 1 <= i < |key| && key[i] == AnyKey| + if key[n] == AnyKey then 1 else 0
  {
    var rest := set i: nat | n + 1 <= i < |key| && key[i] == AnyKey;
    assert (set i: nat | n <= i < |key| && key[i] == AnyKey) == if key[n] == AnyKey then rest + {n} else rest;
  }

  lemma {:induction false} RankedByKeys(table: InputTable, i: nat, j: nat, buffer: seq<Grapheme>, added: InputPiece)
    requires i < |table.mappings| && j < |table.mappings|
    requires Matches(table, table.mappings[i].key, buffer, added) && Matches(table, table.mappings[j].key, buffer, added)
    ensures Outranks(MatchOf(table, i, buffer, added), MatchOf(table, j, buffer, added))
            <==> ComesBefore(table.mappings[i].key, i, table.mappings[j].key, j)
  {
    hide Matches, Wildcard;
    var a, b := table.mappings[i].key, table.mappings[j].key;
    CountedWhole(a);
    CountedWhole(b);
  }

  lemma {:induction false} CountedWhole(key: seq<KeyElement>)
    ensures WildcardCount(key, |key|) == Wildcards(key)
  {
    WildcardsCounted(key, |key|);
    assert (set i: nat | |key| - |key| <= i < |key| && key[i] == AnyKey) == set i: nat | i < |key| && key[i] == AnyKey;
  }

  /** The program uses the winning rule, and no rule exactly if none can be used. */
  lemma {:induction false} BestIsWinner(table: InputTable, buffer: seq<Grapheme>, added: InputPiece)
    ensures Best(table, buffer, added).None? <==> forall i: nat :: i < |table.mappings| ==> !Usable(table, i, buffer, added)
    ensures Best(table, buffer, added).Some? ==> Wins(table, Best(table, buffer, added).value.mappingIndex, buffer, added)
  {
    hide Matches, Usable, ComesBefore, Outranks, BestAmong;
    var n := |table.mappings|;
    var best := Best(table, buffer, added);
    forall i: nat | i < n
      ensures Matches(table, table.mappings[i].key, buffer, added) <==> Usable(table, i, buffer, added)
      ensures Usable(table, i, buffer, added) ==>
                best.Some? && (best.value.mappingIndex == i
                               || ComesBefore(table.mappings[best.value.mappingIndex].key, best.value.mappingIndex, table.mappings[i].key, i))
    {
      MatchingIsReading(table, i, buffer, added);
      if Usable(table, i, buffer, added) {
        BestOutranks(table, n, buffer, added, i);
        RankedByKeys(table, best.value.mappingIndex, i, buffer, added);
      }
    }
  }

  lemma {:induction false} OneWinner(table: InputTable, i: nat, j: nat, buffer: seq<Grapheme>, added: InputPiece)
    requires Wins(table, i, buffer, added) && Wins(table, j, buffer, added)
    ensures i == j
  {
    hide Usable;
  }

  // ----- what is written -----

  /** A wildcard of the rule stands for a piece that displays the grapheme. */
  ghost predicate WildcardShows(key: seq<KeyElement>, buffer: seq<Grapheme>, added: InputPiece, g: Grapheme)
    requires 0 < |key| <= |buffer| + 1
  {
    exists i :: 0 <= i < |key| && key[i] == AnyKey && Displays(LastRead(buffer, added, |key|)[i], g)
  }

  /** How many glyphs stand in the first part of a value. */
  function GlyphsBefore(value: seq<ValueElement>, n: nat): nat
    requires n <= |value|
  {
    if n == 0 then 0 else GlyphsBefore(value, n - 1) + if value[n - 1].Glyph? then 1 else 0
  }

  /** The glyphs of a value and nothing else. */
  ghost predicate OnlyGlyphs(written: seq<Grapheme>, value: seq<ValueElement>) {
    && |written| == GlyphsBefore(value, |value|)
    && forall k :: 0 <= k < |value| && value[k].Glyph? ==>
         GlyphsBefore(value, k) < |written| && written[GlyphsBefore(value, k)] == value[k].value
  }

  /** Every element of the value, a wildcard as this grapheme. */
  function Filled(value: seq<ValueElement>, g: Grapheme): (r: seq<Grapheme>)
    ensures |r| == |value|
  {
    seq(|value|, k requires 0 <= k < |value| => if value[k].Glyph? then value[k].value else g)
  }

  lemma {:induction false} ExpandFills(value: seq<ValueElement>, wildcard: InputPiece, g: Grapheme)
    requires Displays(wildcard, g)
    ensures Expand(value, Some(wildcard)) == Filled(value, g)
  {
    if value != [] {
      DisplayedIsSeen(wildcard, g);
      ExpandFills(value[1..], wildcard, g);
      assert Filled(value, g) == [if value[0].Glyph? then value[0].value else g] + Filled(value[1..], g);
    }
  }

  lemma {:induction false} ExpandKeepsGlyphs(value: seq<ValueElement>, wildcard: Option<InputPiece>)
    requires wildcard.Some? ==> wildcard.value == CompositionSeparator
    ensures OnlyGlyphs(Expand(value, wildcard), value)
    decreases |value|
  {
    if value != [] {
      var init, last := value[..|value| - 1], value[|value| - 1];
      ExpandKeepsGlyphs(init, wildcard);
      ExpandAppend(init, [last], wildcard);
      assert value == init + [last] && [last][1..] == [];
      SameGlyphsBefore(value, |init|);
      var written := Expand(value, wildcard);
      forall k | 0 <= k < |value| && value[k].Glyph?
        ensures GlyphsBefore(value, k) < |written| && written[GlyphsBefore(value, k)] == value[k].value
      {
        SameGlyphsBefore(value, k);
      }
    }
  }

  lemma {:induction false} SameGlyphsBefore(value: seq<ValueElement>, n: nat)
    requires n < |value|
    ensures GlyphsBefore(value, n) == GlyphsBefore(value[..|value| - 1], n)
  {
    if n > 0 {
      SameGlyphsBefore(value, n - 1);
    }
  }

  lemma {:induction false} WildcardIsRead(table: InputTable, key: seq<KeyElement>, buffer: seq<Grapheme>, added: InputPiece)
    requires Matches(table, key, buffer, added)
    ensures var w := Wildcard(key, buffer, added, 0);
            && (w.Some? <==> exists i :: 0 <= i < |key| && key[i] == AnyKey)
            && forall i :: 0 <= i < |key| && key[i] == AnyKey ==> w == Some(LastRead(buffer, added, |key|)[i])
  {
    hide LastRead, ElementMatches;
    if forall d :: 0 <= d < |key| ==> !KeyAt(key, d).AnyKey? {
      WildcardSkips(key, buffer, added, |key|);
      forall i | 0 <= i < |key|
        ensures key[i] != AnyKey
      {
        assert key[i] == KeyAt(key, |key| - 1 - i);
      }
    } else {
      var n := FirstWildcard(key, 0);
      WildcardSkips(key, buffer, added, n);
      assert key[|key| - 1 - n] == AnyKey;
      forall i | 0 <= i < |key| && key[i] == AnyKey
        ensures LastRead(buffer, added, |key|)[i] == Current(buffer, added, n)
      {
        ReadFromTheEnd(buffer, added, |key|, |key| - 1 - i);
        assert KeyAt(key, |key| - 1 - i).AnyKey?;
      }
    }
  }

  lemma {:induction false} FirstWildcard(key: seq<KeyElement>, from: nat) returns (n: nat)
    requires exists d :: from <= d < |key| && KeyAt(key, d).AnyKey?
    ensures from <= n < |key| && KeyAt(key, n).AnyKey? && forall d :: from <= d < n ==> !KeyAt(key, d).AnyKey?
    decreases |key| - from
  {
    if KeyAt(key, from).AnyKey? {
      n := from;
    } else {
      n := FirstWildcard(key, from + 1);
    }
  }

  /** What a keystroke leaves. Without a rule to use, it is shown behind the text. The winning
      rule takes away the text it has read, and in its place stand, in order, its value's glyphs
      and, for each wildcard, what the piece read at the wildcard displays. */
  lemma {:induction false} ApplicationMeans(table: InputTable, buffer: seq<Grapheme>, added: InputPiece, i: nat)
    requires Wins(table, i, buffer, added)
    ensures var m, r := table.mappings[i], Apply(table, buffer, added);
            var kept: nat := |buffer| + 1 - |m.key|;
            && r.deleted == |m.key| - 1 && kept <= |r.buffer| && r.buffer[..kept] == buffer[..kept]
            && (forall g :: WildcardShows(m.key, buffer, added, g) ==> r.buffer[kept..] == Filled(m.value, g))
            && ((forall g :: !WildcardShows(m.key, buffer, added, g)) ==> OnlyGlyphs(r.buffer[kept..], m.value))
  {
    hide Usable, Expand, LastRead, OnlyGlyphs, Matches, BestAmong, Displays;
    BestIsWinner(table, buffer, added);
    MatchingIsReading(table, i, buffer, added);
    OneWinner(table, i, Best(table, buffer, added).value.mappingIndex, buffer, added);
    var m := table.mappings[i];
    NotTooLong(table, m.key, buffer, added);
    WildcardIsRead(table, m.key, buffer, added);
    var w := Wildcard(m.key, buffer, added, 0);
    var read := LastRead(buffer, added, |m.key|);
    forall g | WildcardShows(m.key, buffer, added, g)
      ensures Expand(m.value, w) == Filled(m.value, g)
    {
      ExpandFills(m.value, w.value, g);
    }
    if forall g :: !WildcardShows(m.key, buffer, added, g) {
      if w.Some? {
        var k :| 0 <= k < |m.key| && m.key[k] == AnyKey;
        if w.value != CompositionSeparator {
          var g := ShownWildcard(m.key, buffer, added, k);
        }
      }
      ExpandKeepsGlyphs(m.value, w);
    }
    assert Apply(table, buffer, added).buffer == buffer[..|buffer| + 1 - |m.key|] + Expand(m.value, w);
  }

  lemma {:induction false} NotTooLong(table: InputTable, key: seq<KeyElement>, buffer: seq<Grapheme>, added: InputPiece)
    requires Matches(table, key, buffer, added)
    ensures 0 < |key| <= |buffer| + 1
  {
    hide ElementMatches;
  }

  lemma {:induction false} ShownWildcard(key: seq<KeyElement>, buffer: seq<Grapheme>, added: InputPiece, k: nat) returns (g: Grapheme)
    requires k < |key| <= |buffer| + 1 && key[k] == AnyKey && LastRead(buffer, added, |key|)[k] != CompositionSeparator
    ensures WildcardShows(key, buffer, added, g)
  {
    hide LastRead;
    g := Seen(LastRead(buffer, added, |key|)[k]);
  }

  lemma {:induction false} Seen(p: InputPiece) returns (g: Grapheme)
    requires p != CompositionSeparator
    ensures Displays(p, g)
  {
    g := match p case Character(value) => value case Key(intention, input, _) => if intention.Some? then intention.value else input;
  }

  lemma {:induction false} NothingApplies(table: InputTable, buffer: seq<Grapheme>, added: InputPiece)
    requires forall i: nat :: i < |table.mappings| ==> !Usable(table, i, buffer, added)
    ensures Apply(table, buffer, added).deleted == 0
    ensures added == CompositionSeparator ==> Apply(table, buffer, added).buffer == buffer
    ensures forall g :: Displays(added, g) ==> Apply(table, buffer, added).buffer == buffer + [g]
  {
    hide Usable;
    BestIsWinner(table, buffer, added);
    assert buffer + [] == buffer;
    forall g | Displays(added, g)
      ensures added.Shown() == [g]
    {
      DisplayedIsSeen(added, g);
    }
  }

  // ----- rules of the roman table -----

  /** A rule that completes a syllable before any other key: the syllable is shown, and behind it
      the key that was pressed. */
  lemma {:induction false} AnyKeyCompletes(table: InputTable, i: nat, before: seq<Grapheme>, n: Grapheme, syllable: Grapheme, added: InputPiece)
    requires i < |table.mappings| && table.mappings[i] == Mapping([Piece(Character(n)), AnyKey], [Glyph(syllable), AnyValue])
    requires Wins(table, i, before + [n], added)
    ensures Apply(table, before + [n], added).buffer ==
            before + [syllable] + match added
                                  case Character(g) => [g]
                                  case Key(intention, input, _) => [if intention.Some? then intention.value else input]
                                  case CompositionSeparator => []
  {
    hide Wins, Apply, ComesBefore;
    var m, buffer := table.mappings[i], before + [n];
    ApplicationMeans(table, buffer, added, i);
    var r := Apply(table, buffer, added).buffer;
    assert LastRead(buffer, added, 2)[1] == added && m.key[1] == AnyKey;
    assert buffer[..|buffer| - 1] == before;
    assert r == before + r[|before|..];
    if added == CompositionSeparator {
      assert forall g :: !WildcardShows(m.key, buffer, added, g);
      assert GlyphsBefore(m.value, 0) == 0 && GlyphsBefore(m.value, 1) == 1 && GlyphsBefore(m.value, 2) == 1;
    } else {
      var g := Seen(added);
      assert WildcardShows(m.key, buffer, added, g);
    }
  }

  /** A rule of plain characters can be used exactly where the text ends with them. */
  lemma {:induction false} CharactersUsable(table: InputTable, i: nat, buffer: seq<Grapheme>, g: Grapheme, chars: seq<Grapheme>)
    requires i < |table.mappings| && |table.mappings[i].key| == |chars|
    requires forall k :: 0 <= k < |chars| ==> table.mappings[i].key[k] == Piece(Character(chars[k]))
    ensures Usable(table, i, buffer, Character(g)) <==>
            0 < |chars| <= table.maxKeyCount && |chars| <= |buffer| + 1 && (buffer + [g])[|buffer| + 1 - |chars|..] == chars
  {
    var key := table.mappings[i].key;
    if 0 < |chars| <= table.maxKeyCount && |chars| <= |buffer| + 1 {
      var read, last := LastRead(buffer, Character(g), |key|), (buffer + [g])[|buffer| + 1 - |chars|..];
      assert forall k :: 0 <= k < |key| ==> read[k] == Character(last[k]);
      if last == chars {
        assert AcceptsAll(key, read, CompositionSeparator);
      }
      if wildcard :| AcceptsAll(key, read, wildcard) {
        forall k | 0 <= k < |key|
          ensures last[k] == chars[k]
        {
          assert Accepts(key[k], read[k], wildcard);
        }
      }
    }
  }

  lemma {:induction false} BeforeAnyKey(table: InputTable, i: nat, buffer: seq<Grapheme>, added: InputPiece, n: Grapheme)
    requires i < |table.mappings| && table.mappings[i].key == [Piece(Character(n)), AnyKey] && table.maxKeyCount >= 2
    ensures Usable(table, i, buffer, added) <==> buffer != [] && buffer[|buffer| - 1] == n
  {
    var key := table.mappings[i].key;
    if buffer != [] {
      var read := LastRead(buffer, added, 2);
      assert read[0] == Character(buffer[|buffer| - 1]) && read[1] == added;
      if buffer[|buffer| - 1] == n {
        assert AcceptsAll(key, read, added);
      }
      if wildcard :| AcceptsAll(key, read, wildcard) {
        assert Accepts(key[0], read[0], wildcard);
      }
    }
  }

  /** Two rules of the roman table. */
  function Romaji(n: Grapheme, k: Grapheme, a: Grapheme, nn: Grapheme, ka: Grapheme): InputTable {
    InputTable([Mapping([Piece(Character(n)), AnyKey], [Glyph(nn), AnyValue]),
                Mapping([Piece(Character(k)), Piece(Character(a))], [Glyph(ka)])], 2)
  }

  /** Typing n, k, a: n is shown, then the completed n and k, then the completed n and ka. */
  lemma {:induction false} RomajiTyped(n: Grapheme, k: Grapheme, a: Grapheme, nn: Grapheme, ka: Grapheme)
    requires n != k && n != nn && n != a && k != nn
    ensures var table := Romaji(n, k, a, nn, ka);
            && Apply(table, [], Character(n)).buffer == [n]
            && Apply(table, [n], Character(k)).buffer == [nn, k]
            && Apply(table, [nn, k], Character(a)).buffer == [nn, ka]
  {
    hide Apply, Usable;
    var table := Romaji(n, k, a, nn, ka);
    BeforeAnyKey(table, 0, [], Character(n), n);
    CharactersUsable(table, 1, [], n, [k, a]);
    NothingApplies(table, [], Character(n));
    assert Displays(Character(n), n);
    BeforeAnyKey(table, 0, [n], Character(k), n);
    CharactersUsable(table, 1, [n], k, [k, a]);
    assert ([n] + [k])[0..][0] == n;
    assert [] + [n] == [n];
    AnyKeyCompletes(table, 0, [], n, nn, Character(k));
    BeforeAnyKey(table, 0, [nn, k], Character(a), n);
    CharactersUsable(table, 1, [nn, k], a, [k, a]);
    assert ([nn, k] + [a])[1..] == [k, a];
    ApplicationMeans(table, [nn, k], Character(a), 1);
  }

  /** A winning rule without wildcards in its value writes its glyphs. */
  lemma {:induction false} GlyphsWritten(table: InputTable, buffer: seq<Grapheme>, added: InputPiece, i: nat, glyphs: seq<Grapheme>)
    requires Wins(table, i, buffer, added) && |table.mappings[i].value| == |glyphs|
    requires forall k :: 0 <= k < |glyphs| ==> table.mappings[i].value[k] == Glyph(glyphs[k])
    ensures Apply(table, buffer, added).buffer == buffer[..|buffer| + 1 - |table.mappings[i].key|] + glyphs
  {
    hide Apply, Usable, ComesBefore, WildcardShows, OnlyGlyphs, Filled;
    var m := table.mappings[i];
    ApplicationMeans(table, buffer, added, i);
    var kept: nat := |buffer| + 1 - |m.key|;
    var written := Apply(table, buffer, added).buffer[kept..];
    if g :| WildcardShows(m.key, buffer, added, g) {
      FilledWithGlyphs(m.value, g, glyphs);
    } else {
      GlyphsAlone(written, m.value, glyphs);
    }
    assert Apply(table, buffer, added).buffer == Apply(table, buffer, added).buffer[..kept] + written;
  }

  lemma {:induction false} FilledWithGlyphs(value: seq<ValueElement>, g: Grapheme, glyphs: seq<Grapheme>)
    requires |value| == |glyphs| && forall k :: 0 <= k < |glyphs| ==> value[k] == Glyph(glyphs[k])
    ensures Filled(value, g) == glyphs
  {
  }

  lemma {:induction false} GlyphsAlone(written: seq<Grapheme>, value: seq<ValueElement>, glyphs: seq<Grapheme>)
    requires |value| == |glyphs| && forall k :: 0 <= k < |glyphs| ==> value[k] == Glyph(glyphs[k])
    requires OnlyGlyphs(written, value)
    ensures written == glyphs
  {
    hide GlyphsBefore;
    AllGlyphsCount(value, |value|);
    forall k | 0 <= k < |glyphs|
      ensures written[k] == glyphs[k]
    {
      AllGlyphsCount(value, k);
    }
  }

  lemma {:induction false} AllGlyphsCount(value: seq<ValueElement>, n: nat)
    requires n <= |value| && forall k :: 0 <= k < |value| ==> value[k].Glyph?
    ensures GlyphsBefore(value, n) == n
  {
    if n > 0 {
      AllGlyphsCount(value, n - 1);
    }
  }

  lemma {:induction false} NoWildcards(key: seq<KeyElement>)
    requires forall k :: 0 <= k < |key| ==> key[k] != AnyKey
    ensures Wildcards(key) == 0
  {
    assert (set i: nat | i < |key| && key[i] == AnyKey) == {};
  }

  lemma {:induction false} OneWildcardCounted(key: seq<KeyElement>, k: nat)
    requires k < |key| && forall j :: 0 <= j < |key| ==> (key[j] == AnyKey <==> j == k)
    ensures Wildcards(key) == 1
  {
    assert (set i: nat | i < |key| && key[i] == AnyKey) == {k};
  }

  /** Rules for n and any key, for n, y, and for n, y, a. */
  function Nya(n: Grapheme, y: Grapheme, a: Grapheme, nn: Grapheme, ni: Grapheme, ya: Grapheme): InputTable {
    InputTable([Mapping([Piece(Character(n)), AnyKey], [Glyph(nn), AnyValue]),
                Mapping([Piece(Character(n)), Piece(Character(y))], [Glyph(n), Glyph(y)]),
                Mapping([Piece(Character(n)), Piece(Character(y)), Piece(Character(a))], [Glyph(ni), Glyph(ya)])], 3)
  }

  /** A rule without wildcards comes before one of the same length with a wildcard, as for n, y;
      and a longer rule comes before both, as for n, y, a. */
  lemma {:induction false} NyaTyped(n: Grapheme, y: Grapheme, a: Grapheme, nn: Grapheme, ni: Grapheme, ya: Grapheme)
    requires n != y && n != a && y != a
    ensures var table := Nya(n, y, a, nn, ni, ya);
            && Apply(table, [n], Character(y)).buffer == [n, y]
            && Apply(table, [n, y], Character(a)).buffer == [ni, ya]
  {
    hide Apply, Usable, Wildcards, Wins;
    var table := Nya(n, y, a, nn, ni, ya);
    NyWins(n, y, a, nn, ni, ya);
    GlyphsWritten(table, [n], Character(y), 1, [n, y]);
    assert [] + [n, y] == [n, y];
    NyaWins(n, y, a, nn, ni, ya);
    GlyphsWritten(table, [n, y], Character(a), 2, [ni, ya]);
    assert [] + [ni, ya] == [ni, ya];
  }

  lemma {:induction false} NyWins(n: Grapheme, y: Grapheme, a: Grapheme, nn: Grapheme, ni: Grapheme, ya: Grapheme)
    requires n != y && n != a && y != a
    ensures Wins(Nya(n, y, a, nn, ni, ya), 1, [n], Character(y))
  {
    hide Usable, Wildcards;
    var table := Nya(n, y, a, nn, ni, ya);
    OneWildcardCounted(table.mappings[0].key, 1);
    NoWildcards(table.mappings[1].key);
    CharactersUsable(table, 1, [n], y, [n, y]);
    CharactersUsable(table, 2, [n], y, [n, y, a]);
    assert ([n] + [y])[0..] == [n, y];
  }

  lemma {:induction false} NyaWins(n: Grapheme, y: Grapheme, a: Grapheme, nn: Grapheme, ni: Grapheme, ya: Grapheme)
    requires n != y && n != a && y != a
    ensures Wins(Nya(n, y, a, nn, ni, ya), 2, [n, y], Character(a))
  {
    hide Usable, Wildcards;
    var table := Nya(n, y, a, nn, ni, ya);
    CharactersUsable(table, 2, [n, y], a, [n, y, a]);
    assert ([n, y] + [a])[0..] == [n, y, a];
  }

  /** A rule for what is displayed, and one for the shifted key. */
  function Keyed(shown: Grapheme, character: Grapheme, key: Grapheme): InputTable {
    InputTable([Mapping([Piece(Character(shown))], [Glyph(character)]), Mapping([Piece(Key(Some(shown), shown, {Shift}))], [Glyph(key)])], 1)
  }

  /** A rule for a key with its modifiers comes before an earlier rule for what the key displays,
      and is not used without the modifiers. */
  lemma {:induction false} KeyBeforeCharacter(shown: Grapheme, character: Grapheme, key: Grapheme, added: InputPiece)
    requires added == Character(shown) || added == Key(Some(shown), shown, {}) || added == Key(Some(shown), shown, {Shift})
    ensures Apply(Keyed(shown, character, key), [], added).buffer == if added == Key(Some(shown), shown, {Shift}) then [key] else [character]
  {
    hide Apply, Usable, Wildcards;
    var table := Keyed(shown, character, key);
    NoWildcards(table.mappings[0].key);
    NoWildcards(table.mappings[1].key);
    OnePieceUsable(table, 0, added);
    OnePieceUsable(table, 1, added);
    if added == Key(Some(shown), shown, {Shift}) {
      GlyphsWritten(table, [], added, 1, [key]);
      assert [] + [key] == [key];
    } else {
      GlyphsWritten(table, [], added, 0, [character]);
      assert [] + [character] == [character];
    }
  }

  lemma {:induction false} OnePieceUsable(table: InputTable, i: nat, added: InputPiece)
    requires i < |table.mappings| && |table.mappings[i].key| == 1 && table.maxKeyCount == 1 && table.mappings[i].key[0].Piece?
    ensures Usable(table, i, [], added) <==> Accepts(table.mappings[i].key[0], added, added)
  {
    var key := table.mappings[i].key;
    var read := LastRead([], added, 1);
    assert read[0] == added;
    if Accepts(key[0], added, added) {
      assert AcceptsAll(key, read, added);
    }
    if wildcard :| AcceptsAll(key, read, wildcard) {
      assert Accepts(key[0], read[0], wildcard);
    }
  }
}
