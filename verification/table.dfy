/** Input tables (`input/table.rs`): keys are matched backwards against the pressed
    piece and the text converted so far; the longest, then most specific, rule wins. */
module InputTables {
  import opened Wrappers

  /** One extended grapheme cluster; only its identity matters. */
  datatype Grapheme = Grapheme(text: string)

  datatype InputModifier = Shift

  datatype InputPiece =
    | Character(value: Grapheme)
    | CompositionSeparator
    | Key(intention: Option<Grapheme>, input: Grapheme, modifiers: set<InputModifier>)
  {
    function Displayed(): Option<Grapheme> {
      match this
      case Character(value) => Some(value)
      case CompositionSeparator => None
      case Key(intention, input, _) => if intention.Some? then intention else Some(input)
    }

    function Shown(): seq<Grapheme> {
      if Displayed().Some? then [Displayed().value] else []
    }
  }

  datatype KeyElement = Piece(piece: InputPiece) | AnyKey

  datatype ValueElement = Glyph(value: Grapheme) | AnyValue

  datatype Mapping = Mapping(key: seq<KeyElement>, value: seq<ValueElement>)

  datatype InputTable = InputTable(mappings: seq<Mapping>, maxKeyCount: nat)

  const EMPTY_TABLE := InputTable([], 0)

  // ----- building a table -----

  predicate HasKey(mappings: seq<Mapping>, key: seq<KeyElement>) {
    exists i :: 0 <= i < |mappings| && mappings[i].key == key
  }

  /** One entry added to a list of mappings: an existing rule keeps its place. */
  function WithEntry(mappings: seq<Mapping>, entry: Mapping): (r: seq<Mapping>)
    ensures HasKey(mappings, entry.key) ==> |r| == |mappings|
    ensures !HasKey(mappings, entry.key) ==> r == mappings + [entry]
  {
    if mappings == [] then [entry]
    else if mappings[0].key == entry.key then [entry] + mappings[1..]
    else
      assert HasKey(mappings, entry.key) <==> HasKey(mappings[1..], entry.key) by {
        if HasKey(mappings, entry.key) {
          var i :| 0 <= i < |mappings| && mappings[i].key == entry.key;
          assert mappings[1..][i - 1].key == entry.key;
        }
      }
      [mappings[0]] + WithEntry(mappings[1..], entry)
  }

  function Collected(entries: seq<Mapping>): seq<Mapping> {
    if entries == [] then [] else WithEntry(Collected(entries[..|entries| - 1]), entries[|entries| - 1])
  }

  function LongestKey(mappings: seq<Mapping>): (n: nat)
    ensures forall i :: 0 <= i < |mappings| ==> |mappings[i].key| <= n
  {
    if mappings == [] then 0
    else
      var rest := LongestKey(mappings[1..]);
      assert forall i :: 1 <= i < |mappings| ==> mappings[i] == mappings[1..][i - 1];
      if rest < |mappings[0].key| then |mappings[0].key| else rest
  }

  function NewTable(entries: seq<Mapping>): InputTable {
    InputTable(Collected(entries), LongestKey(Collected(entries)))
  }

  ghost predicate DistinctKeys(mappings: seq<Mapping>) {
    forall i, j :: 0 <= i < j < |mappings| ==> mappings[i].key != mappings[j].key
  }

  /** Entries whose keys are all different are stored unchanged and in order. */
  lemma {:induction false} DistinctEntriesAreKept(entries: seq<Mapping>)
    requires DistinctKeys(entries)
    ensures Collected(entries) == entries
  {
    if entries != [] {
      var init := entries[..|entries| - 1];
      DistinctEntriesAreKept(init);
      assert entries == init + [entries[|entries| - 1]];
    }
  }

  /** What a lookup by key finds: the value of the last entry with that key. */
  ghost function ValueOf(mappings: seq<Mapping>, key: seq<KeyElement>): Option<seq<ValueElement>> {
    if mappings == [] then None
    else if mappings[|mappings| - 1].key == key then Some(mappings[|mappings| - 1].value)
    else ValueOf(mappings[..|mappings| - 1], key)
  }

  lemma {:induction false} ValueOfCons(m: Mapping, rest: seq<Mapping>, key: seq<KeyElement>)
    ensures ValueOf([m] + rest, key) ==
            if ValueOf(rest, key).Some? then ValueOf(rest, key)
            else if m.key == key then Some(m.value) else None
  {
    if rest == [] {
      assert [m] + rest == [m];
      assert [m][..0] == [];
    } else {
      var all := [m] + rest;
      assert all[..|all| - 1] == [m] + rest[..|rest| - 1];
      if rest[|rest| - 1].key != key {
        ValueOfCons(m, rest[..|rest| - 1], key);
      }
    }
  }

  lemma {:induction false} HasKeyIsValueOf(mappings: seq<Mapping>, key: seq<KeyElement>)
    ensures HasKey(mappings, key) <==> ValueOf(mappings, key).Some?
  {
    if mappings != [] {
      var init := mappings[..|mappings| - 1];
      HasKeyIsValueOf(init, key);
      assert forall i :: 0 <= i < |init| ==> init[i] == mappings[i];
      if HasKey(mappings, key) && mappings[|mappings| - 1].key != key {
        var i :| 0 <= i < |mappings| && mappings[i].key == key;
        assert init[i].key == key;
      }
    }
  }

  lemma {:induction false} WithEntryKeys(mappings: seq<Mapping>, entry: Mapping, key: seq<KeyElement>)
    ensures HasKey(WithEntry(mappings, entry), key) <==> HasKey(mappings, key) || entry.key == key
  {
    var r := WithEntry(mappings, entry);
    if mappings == [] {
      assert r[0].key == entry.key;
    } else {
      var rest := mappings[1..];
      HasKeyCons(mappings[0], rest, key);
      assert mappings == [mappings[0]] + rest;
      if mappings[0].key == entry.key {
        HasKeyCons(entry, rest, key);
      } else {
        WithEntryKeys(rest, entry, key);
        HasKeyCons(mappings[0], WithEntry(rest, entry), key);
      }
    }
  }

  lemma {:induction false} HasKeyCons(m: Mapping, rest: seq<Mapping>, key: seq<KeyElement>)
    ensures HasKey([m] + rest, key) <==> m.key == key || HasKey(rest, key)
  {
    var all := [m] + rest;
    assert all[0] == m;
    assert forall i :: 0 <= i < |rest| ==> rest[i] == all[i + 1];
    if HasKey(all, key) && m.key != key {
      var i :| 0 <= i < |all| && all[i].key == key;
      assert rest[i - 1].key == key;
    }
  }

  lemma {:induction false} DistinctCons(m: Mapping, rest: seq<Mapping>)
    ensures DistinctKeys([m] + rest) <==> DistinctKeys(rest) && !HasKey(rest, m.key)
  {
    var all := [m] + rest;
    assert forall i :: 0 <= i < |rest| ==> rest[i] == all[i + 1];
    if HasKey(rest, m.key) {
      var i :| 0 <= i < |rest| && rest[i].key == m.key;
      assert all[0].key == all[i + 1].key;
    }
  }

  lemma {:induction false} WithEntryOverrides(mappings: seq<Mapping>, entry: Mapping, key: seq<KeyElement>)
    requires DistinctKeys(mappings)
    ensures DistinctKeys(WithEntry(mappings, entry))
    ensures ValueOf(WithEntry(mappings, entry), key) ==
            if entry.key == key then Some(entry.value) else ValueOf(mappings, key)
  {
    var r := WithEntry(mappings, entry);
    if mappings == [] {
      assert r[..0] == [];
    } else {
      var m, rest := mappings[0], mappings[1..];
      assert mappings == [m] + rest;
      DistinctCons(m, rest);
      ValueOfCons(m, rest, key);
      HasKeyIsValueOf(rest, key);
      if m.key == entry.key {
        ValueOfCons(entry, rest, key);
        DistinctCons(entry, rest);
      } else {
        WithEntryOverrides(rest, entry, key);
        WithEntryKeys(rest, entry, m.key);
        DistinctCons(m, WithEntry(rest, entry));
        ValueOfCons(m, WithEntry(rest, entry), key);
      }
    }
  }

  /** A table answers each key with the value of the last entry that gave it. */
  lemma {:induction false} LaterEntriesReplace(entries: seq<Mapping>, key: seq<KeyElement>)
    ensures DistinctKeys(Collected(entries))
    ensures ValueOf(Collected(entries), key) == ValueOf(entries, key)
  {
    if entries != [] {
      var init := entries[..|entries| - 1];
      LaterEntriesReplace(init, key);
      WithEntryOverrides(Collected(init), entries[|entries| - 1], key);
    }
  }

  method New(entries: seq<Mapping>) returns (table: InputTable)
    ensures table == NewTable(entries)
  {
    var mappings: seq<Mapping> := [];
    for n := 0 to |entries|
      invariant mappings == Collected(entries[..n])
    {
      assert entries[..n + 1][..n] == entries[..n];
      mappings := WithEntry(mappings, entries[n]);
    }
    assert entries[..|entries|] == entries;
    table := InputTable(mappings, LongestKey(mappings));
  }

  // ----- matching one rule -----

  /** The piece `depth` steps back: the pressed piece first, then converted text. */
  function Current(buffer: seq<Grapheme>, added: InputPiece, depth: nat): InputPiece
    requires depth <= |buffer|
  {
    if depth == 0 then added else Character(buffer[|buffer| - depth])
  }

  predicate PieceMatches(expected: InputPiece, current: InputPiece) {
    match expected
    case Character(value) => current.Displayed() == Some(value)
    case CompositionSeparator => current.CompositionSeparator?
    case Key(_, input, modifiers) =>
      current.Key? && current.Displayed() == Some(input) && current.modifiers == modifiers
  }

  predicate ElementMatches(expected: KeyElement, current: InputPiece) {
    expected.AnyKey? || PieceMatches(expected.piece, current)
  }

  /** The key element compared at `depth`. */
  function KeyAt(key: seq<KeyElement>, depth: nat): KeyElement
    requires depth < |key|
  {
    key[|key| - 1 - depth]
  }

  /** A rule applies: every element matches and all wildcards see the same piece. */
  predicate Matches(table: InputTable, key: seq<KeyElement>, buffer: seq<Grapheme>, added: InputPiece) {
    && key != [] && |key| <= table.maxKeyCount && |key| - 1 <= |buffer|
    && (forall d :: 0 <= d < |key| ==> ElementMatches(KeyAt(key, d), Current(buffer, added, d)))
    && (forall d, e :: 0 <= d < |key| && 0 <= e < |key| && KeyAt(key, d).AnyKey? && KeyAt(key, e).AnyKey? ==>
          Current(buffer, added, d) == Current(buffer, added, e))
  }

  /** The piece a rule's wildcards stand for, looking at depths `from` and beyond. */
  function Wildcard(key: seq<KeyElement>, buffer: seq<Grapheme>, added: InputPiece, from: nat): Option<InputPiece>
    requires |key| - 1 <= |buffer|
    decreases |key| - from
  {
    if from >= |key| then None
    else if KeyAt(key, from).AnyKey? then Some(Current(buffer, added, from))
    else Wildcard(key, buffer, added, from + 1)
  }

  /** Wildcards among the key elements at depths below `depth`. */
  function WildcardCount(key: seq<KeyElement>, depth: nat): nat
    requires depth <= |key|
  {
    if depth == 0 then 0
    else WildcardCount(key, depth - 1) + if KeyAt(key, depth - 1).AnyKey? then 1 else 0
  }

  /** A matching rule matched a physical key exactly when its last element is one. */
  function ExactKeyCount(key: seq<KeyElement>): nat {
    if key != [] && KeyAt(key, 0).Piece? && KeyAt(key, 0).piece.Key? then 1 else 0
  }

  datatype Match = Match(mappingIndex: nat, depth: nat, wildcardCount: nat, exactKeyCount: nat,
                         resolvedWildcard: Option<InputPiece>)

  function MatchOf(table: InputTable, index: nat, buffer: seq<Grapheme>, added: InputPiece): Match
    requires index < |table.mappings| && Matches(table, table.mappings[index].key, buffer, added)
  {
    var key := table.mappings[index].key;
    Match(index, |key|, WildcardCount(key, |key|), ExactKeyCount(key), Wildcard(key, buffer, added, 0))
  }

  lemma {:induction false} WildcardSkips(key: seq<KeyElement>, buffer: seq<Grapheme>, added: InputPiece, n: nat)
    requires n <= |key| && |key| - 1 <= |buffer|
    requires forall d :: 0 <= d < n ==> !KeyAt(key, d).AnyKey?
    ensures Wildcard(key, buffer, added, 0) == Wildcard(key, buffer, added, n)
  {
    if n > 0 {
      WildcardSkips(key, buffer, added, n - 1);
    }
  }

  /** The counting loop of one rule against the end of the buffer. */
  method MatchMapping(table: InputTable, index: nat, buffer: seq<Grapheme>, added: InputPiece)
    returns (result: Option<Match>)
    requires index < |table.mappings|
    ensures result.Some? <==> Matches(table, table.mappings[index].key, buffer, added)
    ensures result.Some? ==> result.value == MatchOf(table, index, buffer, added)
  {
    var key := table.mappings[index].key;
    if |key| == 0 || |key| > table.maxKeyCount {
      return None;
    }
    var resolved: Option<InputPiece> := None;
    var wildcards := 0;
    var exact := 0;
    var depth := 0;
    while depth < |key|
      invariant 0 <= depth <= |key| && (depth == 0 || depth - 1 <= |buffer|)
      invariant forall d :: 0 <= d < depth ==> ElementMatches(KeyAt(key, d), Current(buffer, added, d))
      invariant forall d :: 0 <= d < depth && KeyAt(key, d).AnyKey? ==> resolved == Some(Current(buffer, added, d))
      invariant resolved.None? <==> forall d :: 0 <= d < depth ==> !KeyAt(key, d).AnyKey?
      invariant resolved.Some? && |key| - 1 <= |buffer| ==> resolved == Wildcard(key, buffer, added, 0)
      invariant wildcards == WildcardCount(key, depth)
      invariant exact == if depth == 0 then 0 else ExactKeyCount(key)
    {
      if depth > |buffer| {
        return None;
      }
      var current := Current(buffer, added, depth);
      var expected := KeyAt(key, depth);
      if expected.AnyKey? {
        if resolved.Some? {
          if resolved.value != current {
            ghost var d :| 0 <= d < depth && KeyAt(key, d).AnyKey?;
            assert Current(buffer, added, d) != Current(buffer, added, depth);
            return None;
          }
        } else {
          resolved := Some(current);
          if |key| - 1 <= |buffer| {
            WildcardSkips(key, buffer, added, depth);
          }
        }
        wildcards := wildcards + 1;
      } else {
        if !PieceMatches(expected.piece, current) {
          assert !ElementMatches(KeyAt(key, depth), Current(buffer, added, depth));
          return None;
        }
        if expected.piece.Key? {
          exact := exact + 1;
        }
      }
      depth := depth + 1;
    }
    if resolved.None? {
      WildcardSkips(key, buffer, added, |key|);
    }
    result := Some(Match(index, |key|, wildcards, exact, resolved));
  }

  // ----- choosing among the matching rules -----

  /** `compare_matches`: longer key, then fewer wildcards, then exact key, then earlier rule. */
  predicate Outranks(left: Match, right: Match) {
    left.depth > right.depth
    || (left.depth == right.depth
        && (left.wildcardCount < right.wildcardCount
            || (left.wildcardCount == right.wildcardCount
                && (left.exactKeyCount > right.exactKeyCount
                    || (left.exactKeyCount == right.exactKeyCount
                        && left.mappingIndex < right.mappingIndex)))))
  }

  /** The winning rule among the first `n`. */
  function BestAmong(table: InputTable, n: nat, buffer: seq<Grapheme>, added: InputPiece): (r: Option<Match>)
    requires n <= |table.mappings|
    ensures r.Some? ==>
              && r.value.mappingIndex < n
              && Matches(table, table.mappings[r.value.mappingIndex].key, buffer, added)
              && r.value == MatchOf(table, r.value.mappingIndex, buffer, added)
  {
    if n == 0 then None
    else
      var r := BestAmong(table, n - 1, buffer, added);
      if Matches(table, table.mappings[n - 1].key, buffer, added) then
        var m := MatchOf(table, n - 1, buffer, added);
        if r.None? || Outranks(m, r.value) then Some(m) else r
      else r
  }

  /** No matching rule is passed over: the winner outranks every other match. */
  lemma {:induction false} BestOutranks(table: InputTable, n: nat, buffer: seq<Grapheme>, added: InputPiece, i: nat)
    requires i < n <= |table.mappings| && Matches(table, table.mappings[i].key, buffer, added)
    ensures BestAmong(table, n, buffer, added).Some?
    ensures var best := BestAmong(table, n, buffer, added).value;
            best.mappingIndex == i || Outranks(best, MatchOf(table, i, buffer, added))
  {
    hide Matches;
    if i < n - 1 {
      BestOutranks(table, n - 1, buffer, added, i);
    }
  }

  function Best(table: InputTable, buffer: seq<Grapheme>, added: InputPiece): Option<Match> {
    BestAmong(table, |table.mappings|, buffer, added)
  }

  // ----- applying the winning rule -----

  function Expand(value: seq<ValueElement>, wildcard: Option<InputPiece>): seq<Grapheme> {
    if value == [] then []
    else
      (match value[0]
       case Glyph(g) => [g]
       case AnyValue => if wildcard.Some? then wildcard.value.Shown() else [])
      + Expand(value[1..], wildcard)
  }

  datatype Applied = Applied(buffer: seq<Grapheme>, deleted: nat)

  function Apply(table: InputTable, buffer: seq<Grapheme>, added: InputPiece): (r: Applied)
    ensures r.deleted <= |buffer| && |buffer| - r.deleted <= |r.buffer|
    ensures r.buffer[..|buffer| - r.deleted] == buffer[..|buffer| - r.deleted]
  {
    var best := Best(table, buffer, added);
    if best.Some? then
      var deleted := best.value.depth - 1;
      Applied(buffer[..|buffer| - deleted]
              + Expand(table.mappings[best.value.mappingIndex].value, best.value.resolvedWildcard),
              deleted)
    else
      Applied(buffer + added.Shown(), 0)
  }

  lemma {:induction false} ExpandAppend(a: seq<ValueElement>, b: seq<ValueElement>, wildcard: Option<InputPiece>)
    ensures Expand(a + b, wildcard) == Expand(a, wildcard) + Expand(b, wildcard)
  {
    if a == [] {
      assert a + b == b;
    } else {
      assert (a + b)[0] == a[0] && (a + b)[1..] == a[1..] + b;
      ExpandAppend(a[1..], b, wildcard);
    }
  }

  method FindBest(table: InputTable, buffer: seq<Grapheme>, added: InputPiece) returns (best: Option<Match>)
    ensures best == Best(table, buffer, added)
  {
    best := None;
    for n := 0 to |table.mappings|
      invariant best == BestAmong(table, n, buffer, added)
    {
      var candidate := MatchMapping(table, n, buffer, added);
      if candidate.Some? && (best.None? || Outranks(candidate.value, best.value)) {
        best := candidate;
      }
    }
  }

  /** Pushing a rule's value, one element at a time. */
  method PushValue(buffer: seq<Grapheme>, value: seq<ValueElement>, wildcard: Option<InputPiece>)
    returns (result: seq<Grapheme>)
    ensures result == buffer + Expand(value, wildcard)
  {
    result := buffer;
    for k := 0 to |value|
      invariant result == buffer + Expand(value[..k], wildcard)
    {
      assert value[..k + 1] == value[..k] + [value[k]];
      ExpandAppend(value[..k], [value[k]], wildcard);
      assert Expand([value[k]], wildcard) == match value[k] {
        case Glyph(g) => [g]
        case AnyValue => if wildcard.Some? then wildcard.value.Shown() else []
      };
      match value[k] {
        case Glyph(g) => result := result + [g];
        case AnyValue =>
          if wildcard.Some? {
            var shown := wildcard.value.Displayed();
            if shown.Some? {
              result := result + [shown.value];
            }
          }
      }
    }
    assert value[..|value|] == value;
  }

  /** The buffer edit itself: find the winner, truncate, then push the rule's value. */
  method ApplyInPlace(table: InputTable, buffer: seq<Grapheme>, added: InputPiece)
    returns (result: seq<Grapheme>, deleted: nat)
    ensures Applied(result, deleted) == Apply(table, buffer, added)
  {
    var best := FindBest(table, buffer, added);
    result := buffer;
    if best.Some? {
      deleted := best.value.depth - 1;
      result := result[..|result| - deleted];
      result := PushValue(result, table.mappings[best.value.mappingIndex].value, best.value.resolvedWildcard);
    } else {
      deleted := 0;
      if added.Displayed().Some? {
        result := result + [added.Displayed().value];
      }
    }
  }

  // ----- locality -----

  lemma {:induction false} MatchIsLocal(table: InputTable, key: seq<KeyElement>, l: seq<Grapheme>, r: seq<Grapheme>, added: InputPiece)
    requires |key| - 1 <= |r|
    ensures Matches(table, key, l + r, added) <==> Matches(table, key, r, added)
    ensures Wildcard(key, l + r, added, 0) == Wildcard(key, r, added, 0)
  {
    assert forall d :: 0 <= d < |key| ==> Current(l + r, added, d) == Current(r, added, d);
    WildcardIsLocal(key, l, r, added, 0);
  }

  lemma {:induction false} WildcardIsLocal(key: seq<KeyElement>, l: seq<Grapheme>, r: seq<Grapheme>, added: InputPiece, from: nat)
    requires |key| - 1 <= |r|
    ensures Wildcard(key, l + r, added, from) == Wildcard(key, r, added, from)
    decreases |key| - from
  {
    if from < |key| {
      WildcardIsLocal(key, l, r, added, from + 1);
    }
  }

  lemma {:induction false} MatchOfIsLocal(table: InputTable, i: nat, l: seq<Grapheme>, r: seq<Grapheme>, added: InputPiece)
    requires i < |table.mappings| && |table.mappings[i].key| - 1 <= |r|
    requires Matches(table, table.mappings[i].key, r, added)
    ensures Matches(table, table.mappings[i].key, l + r, added)
    ensures MatchOf(table, i, l + r, added) == MatchOf(table, i, r, added)
  {
    MatchIsLocal(table, table.mappings[i].key, l, r, added);
  }

  lemma {:induction false} BestIsLocal(table: InputTable, l: seq<Grapheme>, r: seq<Grapheme>, added: InputPiece)
    requires Best(table, l + r, added).Some? ==> Best(table, l + r, added).value.depth - 1 <= |r|
    ensures Best(table, l + r, added) == Best(table, r, added)
  {
    var whole := Best(table, l + r, added);
    var part := Best(table, r, added);
    var n := |table.mappings|;
    if part.Some? {
      MatchOfIsLocal(table, part.value.mappingIndex, l, r, added);
      BestOutranks(table, n, l + r, added, part.value.mappingIndex);
    }
    if whole.Some? {
      var i := whole.value.mappingIndex;
      MatchIsLocal(table, table.mappings[i].key, l, r, added);
      MatchOfIsLocal(table, i, l, r, added);
      BestOutranks(table, n, r, added, i);
    }
  }

  /** A rule that deletes nothing left of `r` rewrites `l + r` as it rewrites `r`. */
  lemma {:induction false} ApplyIsLocal(table: InputTable, l: seq<Grapheme>, r: seq<Grapheme>, added: InputPiece)
    requires Apply(table, l + r, added).deleted <= |r|
    ensures Apply(table, l + r, added) == Applied(l + Apply(table, r, added).buffer, Apply(table, r, added).deleted)
  {
    BestIsLocal(table, l, r, added);
    var best := Best(table, r, added);
    if best.Some? {
      var kept := |r| - (best.value.depth - 1);
      assert (l + r)[..|l| + kept] == l + r[..kept];
    } else {
      assert (l + r) + added.Shown() == l + (r + added.Shown());
    }
  }

  /** The empty table only ever appends what is displayed. */
  lemma {:induction false} EmptyTableAppends(buffer: seq<Grapheme>, added: InputPiece)
    ensures Apply(EMPTY_TABLE, buffer, added) == Applied(buffer + added.Shown(), 0)
  {
  }

  // ----- silence -----

  /** A lone separator leaves no text. */
  predicate Silent(table: InputTable) {
    Apply(table, [], CompositionSeparator).buffer == []
  }

  /** Every table built with a rule `separator -> nothing`, given after any other rule for
      that key, is silent; each built-in table ends its entries this way. */
  lemma {:induction false} BuiltInTablesAreSilent(before: seq<Mapping>, after: seq<Mapping>)
    requires forall i :: 0 <= i < |after| ==> after[i].key != [Piece(CompositionSeparator)]
    ensures Silent(NewTable(before + [Mapping([Piece(CompositionSeparator)], [])] + after))
  {
    var key := [Piece(CompositionSeparator)];
    var rule := Mapping(key, []);
    var entries := before + [rule] + after;
    var table := NewTable(entries);
    LastRuleValue(before, rule, after);
    LaterEntriesReplace(entries, key);
    HasKeyIsValueOf(table.mappings, key);
    var i :| 0 <= i < |table.mappings| && table.mappings[i].key == key;
    ValueAtIndex(table.mappings, i);
    assert KeyAt(key, 0) == Piece(CompositionSeparator);
    assert Matches(table, key, [], CompositionSeparator);
    BestOutranks(table, |table.mappings|, [], CompositionSeparator, i);
    SeparatorRuleIsBest(table, i);
  }

  lemma {:induction false} SeparatorRuleIsBest(table: InputTable, i: nat)
    requires i < |table.mappings| && table.mappings[i].key == [Piece(CompositionSeparator)]
    requires Matches(table, table.mappings[i].key, [], CompositionSeparator) && DistinctKeys(table.mappings)
    ensures Best(table, [], CompositionSeparator) == Some(MatchOf(table, i, [], CompositionSeparator))
  {
    BestOutranks(table, |table.mappings|, [], CompositionSeparator, i);
    var key := table.mappings[i].key;
    var best := Best(table, [], CompositionSeparator).value;
    var other := table.mappings[best.mappingIndex].key;
    assert |other| == 1;
    assert WildcardCount(key, 1) == WildcardCount(key, 0) + 0;
    assert WildcardCount(other, 1) == WildcardCount(other, 0) + if KeyAt(other, 0).AnyKey? then 1 else 0;
    assert ElementMatches(KeyAt(other, 0), Current([], CompositionSeparator, 0));
    if !KeyAt(other, 0).AnyKey? {
      assert other == [other[0]];
    }
  }

  lemma {:induction false} LastRuleValue(before: seq<Mapping>, rule: Mapping, after: seq<Mapping>)
    requires forall i :: 0 <= i < |after| ==> after[i].key != rule.key
    ensures ValueOf(before + [rule] + after, rule.key) == Some(rule.value)
  {
    var all := before + [rule] + after;
    if after != [] {
      assert all[..|all| - 1] == before + [rule] + after[..|after| - 1];
      LastRuleValue(before, rule, after[..|after| - 1]);
    }
  }

  lemma {:induction false} ValueAtIndex(mappings: seq<Mapping>, i: nat)
    requires i < |mappings| && DistinctKeys(mappings)
    ensures ValueOf(mappings, mappings[i].key) == Some(mappings[i].value)
  {
    if i < |mappings| - 1 {
      ValueAtIndex(mappings[..|mappings| - 1], i);
    }
  }
}
