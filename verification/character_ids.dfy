/** The character table of the dictionary (`CharacterIdMap` in `dictionary/louds.rs`). */
module CharacterIds {
  import opened Wrappers
  import opened Bytes
  import opened Tries

  /** How text falls into graphemes. */
  type Segmentation = Utf8 -> seq<Utf8>

  function Join(parts: seq<Utf8>): Utf8 {
    if parts == [] then [] else parts[0] + Join(parts[1..])
  }

  /** Putting the graphemes of a text together gives the text. */
  ghost predicate Segments(segment: Segmentation) {
    forall text :: Join(segment(text)) == text
  }

  datatype CharacterIdMap = CharacterIdMap(ids: map<Utf8, byte>)

  datatype TableError = NodeTableTooLarge(length: nat)

  /** Positions of the first `n` graphemes; a repeated grapheme keeps its last position. */
  function Positions(graphemes: seq<Utf8>, n: nat): map<Utf8, byte>
    requires n <= |graphemes| <= 256
  {
    if n == 0 then map[] else Positions(graphemes, n - 1)[graphemes[n - 1] := (n - 1) as byte]
  }

  function ParseTable(graphemes: seq<Utf8>): Result<CharacterIdMap, TableError> {
    if |graphemes| > 256 then Err(NodeTableTooLarge(|graphemes|))
    else Ok(CharacterIdMap(Positions(graphemes, |graphemes|)))
  }

  /** No two graphemes share an id. */
  ghost predicate Distinct(table: CharacterIdMap) {
    forall a, b :: a in table.ids && b in table.ids && table.ids[a] == table.ids[b] ==> a == b
  }

  lemma {:induction false} PositionsPoint(graphemes: seq<Utf8>, n: nat, g: Utf8)
    requires n <= |graphemes| <= 256 && g in Positions(graphemes, n)
    ensures Positions(graphemes, n)[g] as nat < n && graphemes[Positions(graphemes, n)[g]] == g
  {
    if n > 0 && g != graphemes[n - 1] {
      PositionsPoint(graphemes, n - 1, g);
    }
  }

  /** Every table that parses assigns distinct ids. */
  lemma {:induction false} ParsedTablesAreDistinct(graphemes: seq<Utf8>)
    requires ParseTable(graphemes).Ok?
    ensures Distinct(ParseTable(graphemes).value)
  {
    hide Positions;
    var ids := Positions(graphemes, |graphemes|);
    forall a, b | a in ids && b in ids && ids[a] == ids[b]
      ensures a == b
    {
      PositionsPoint(graphemes, |graphemes|, a);
      PositionsPoint(graphemes, |graphemes|, b);
    }
  }

  function EncodeGraphemes(table: CharacterIdMap, graphemes: seq<Utf8>): (r: Option<Key>)
    ensures r.Some? ==> |r.value| == |graphemes|
  {
    if graphemes == [] then Some([])
    else if graphemes[0] !in table.ids then None
    else
      match EncodeGraphemes(table, graphemes[1..])
      case None => None
      case Some(rest) => Some([table.ids[graphemes[0]]] + rest)
  }

  function Encode(table: CharacterIdMap, segment: Segmentation, text: Utf8): Option<Key> {
    EncodeGraphemes(table, segment(text))
  }

  lemma {:induction false} SameIdsSameGraphemes(table: CharacterIdMap, a: seq<Utf8>, b: seq<Utf8>)
    requires Distinct(table) && EncodeGraphemes(table, a).Some? && EncodeGraphemes(table, a) == EncodeGraphemes(table, b)
    ensures a == b
  {
    if a != [] && b != [] {
      var x, y := EncodeGraphemes(table, a).value, EncodeGraphemes(table, b).value;
      assert x[0] == table.ids[a[0]] && y[0] == table.ids[b[0]];
      assert x[1..] == EncodeGraphemes(table, a[1..]).value && y[1..] == EncodeGraphemes(table, b[1..]).value;
      SameIdsSameGraphemes(table, a[1..], b[1..]);
      assert a == [a[0]] + a[1..] && b == [b[0]] + b[1..];
    }
  }

  /** Different readings have different keys, and only the empty text has the empty key. */
  lemma {:induction false} EncodeIsInjective(table: CharacterIdMap, segment: Segmentation, a: Utf8, b: Utf8)
    requires Distinct(table) && Segments(segment)
    requires Encode(table, segment, a).Some? && Encode(table, segment, a) == Encode(table, segment, b)
    ensures a == b
    ensures a != [] ==> Encode(table, segment, a).value != []
  {
    SameIdsSameGraphemes(table, segment(a), segment(b));
    assert Join(segment(a)) == a && Join(segment(b)) == b;
  }
}
