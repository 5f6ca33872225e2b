/** The key a reading is looked up with (`lookup` in `learning.rs`). */
module LookupKeys {
  import opened Wrappers
  import opened Bytes
  import opened Tries
  import opened CharacterIds

  /** The ids of the graphemes before the first unknown one. */
  function Known(table: CharacterIdMap, graphemes: seq<Utf8>): (r: Key)
    ensures |r| <= |graphemes| && EncodeGraphemes(table, graphemes[..|r|]) == Some(r)
    ensures |r| < |graphemes| ==> graphemes[|r|] !in table.ids
    ensures EncodeGraphemes(table, graphemes).Some? <==> |r| == |graphemes|
  {
    if graphemes == [] || graphemes[0] !in table.ids then []
    else
      var rest := Known(table, graphemes[1..]);
      assert graphemes[..|rest| + 1][1..] == graphemes[1..][..|rest|];
      [table.ids[graphemes[0]]] + rest
  }

  /** A prefix lookup goes as far as the graphemes are known; the others give up. */
  function LookupKey(table: CharacterIdMap, graphemes: seq<Utf8>, kind: MatchKind): Option<Key> {
    var known := Known(table, graphemes);
    if |known| == |graphemes| || kind == Prefixes then Some(known) else None
  }

  method CollectIds(table: CharacterIdMap, graphemes: seq<Utf8>, kind: MatchKind) returns (r: Option<Key>)
    ensures r == LookupKey(table, graphemes, kind)
  {
    var ids: Key := [];
    assert graphemes[0..] == graphemes;
    for i := 0 to |graphemes|
      invariant ids + Known(table, graphemes[i..]) == Known(table, graphemes) && |ids| == i
    {
      if graphemes[i] !in table.ids {
        assert ids + [] == ids;
        return if kind == Prefixes then Some(ids) else None;
      }
      assert graphemes[i..][1..] == graphemes[i + 1..];
      ghost var rest := Known(table, graphemes[i + 1..]);
      assert ids + ([table.ids[graphemes[i]]] + rest) == (ids + [table.ids[graphemes[i]]]) + rest;
      ids := ids + [table.ids[graphemes[i]]];
    }
    assert ids + [] == ids;
    r := Some(ids);
  }

  /** How a reading answers another one, said without ids. */
  predicate ReadingAnswers(kind: MatchKind, reading: seq<Utf8>, wanted: seq<Utf8>) {
    match kind
    case Exact => reading == wanted
    case Prefixes => reading != [] && reading <= wanted
    case Completions => wanted <= reading
  }

  lemma {:induction false} EncodedPart(table: CharacterIdMap, graphemes: seq<Utf8>, n: nat)
    requires EncodeGraphemes(table, graphemes).Some? && n <= |graphemes|
    ensures EncodeGraphemes(table, graphemes[..n]) == Some(EncodeGraphemes(table, graphemes).value[..n])
  {
    if n > 0 {
      EncodedPart(table, graphemes[1..], n - 1);
      assert graphemes[..n][1..] == graphemes[1..][..n - 1] && graphemes[..n][0] == graphemes[0];
      var id, rest := [table.ids[graphemes[0]]], EncodeGraphemes(table, graphemes[1..]).value;
      assert (id + rest)[..n] == id + rest[..n - 1];
    } else {
      assert graphemes[..n] == [];
    }
  }

  lemma {:induction false} EncodedAt(table: CharacterIdMap, graphemes: seq<Utf8>, i: nat)
    requires EncodeGraphemes(table, graphemes).Some? && i < |graphemes|
    ensures graphemes[i] in table.ids
  {
    if i > 0 {
      EncodedAt(table, graphemes[1..], i - 1);
    }
  }

  /** Keys are prefixes of each other exactly if the readings are. */
  lemma {:induction false} PrefixKeys(table: CharacterIdMap, a: seq<Utf8>, b: seq<Utf8>)
    requires Distinct(table) && EncodeGraphemes(table, a).Some? && EncodeGraphemes(table, b).Some?
    ensures EncodeGraphemes(table, a).value <= EncodeGraphemes(table, b).value <==> a <= b
    ensures EncodeGraphemes(table, a) == EncodeGraphemes(table, b) <==> a == b
  {
    hide EncodeGraphemes;
    var x, y := EncodeGraphemes(table, a).value, EncodeGraphemes(table, b).value;
    if |a| <= |b| {
      EncodedPart(table, b, |a|);
      if x <= y {
        assert y[..|a|] == x;
        SameIdsSameGraphemes(table, a, b[..|a|]);
      }
      if a <= b {
        assert b[..|a|] == a;
      }
    }
    if x == y {
      SameIdsSameGraphemes(table, a, b);
    }
  }

  /** Looking up by ids finds exactly the stored readings that answer, although a lookup stops at
      a grapheme without an id: no stored reading has one. */
  lemma {:induction false} UnknownGraphemesHideNothing(table: CharacterIdMap, stored: seq<Utf8>, wanted: seq<Utf8>, kind: MatchKind)
    requires Distinct(table) && EncodeGraphemes(table, stored).Some?
    ensures ReadingAnswers(kind, stored, wanted) <==>
            LookupKey(table, wanted, kind).Some? && Answers(kind, EncodeGraphemes(table, stored), LookupKey(table, wanted, kind).value)
  {
    hide EncodeGraphemes;
    var known := Known(table, wanted);
    var front := wanted[..|known|];
    PrefixKeys(table, stored, front);
    PrefixKeys(table, front, stored);
    if |known| == |wanted| {
      assert front == wanted;
    } else if |stored| > |known| {
      EncodedAt(table, stored, |known|);
      assert stored[|known|] != wanted[|known|];
    } else if kind == Prefixes {
      assert stored <= wanted <==> stored <= front;
    }
  }
}
