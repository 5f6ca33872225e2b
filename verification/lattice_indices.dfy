/** The two index spaces of the lattice, keystrokes and shown text (`DualIndexMap` in
    `lattice.rs` and `input_to_surface_map` in `input/composing.rs`). */
module LatticeIndices {
  import opened Wrappers
  import opened Numbers
  import opened InputTables
  import opened Segments
  import opened Composing

  datatype DualIndex =
    | InputOnly(input: nat)
    | SurfaceOnly(surface: nat)
    | Both(input: nat, surface: nat)

  datatype DualIndexMap = DualIndexMap(inputToSurface: map<nat, nat>, surfaceToInput: map<nat, nat>, identity: bool)

  // ----- the map of a composing text -----

  predicate HasIdentityMapping(t: Text) {
    |t.input| == |t.surface| && forall e :: e in t.input ==> e.style == Direct && e.piece.Character?
  }

  /** The boundaries as a map from keystrokes to text. */
  function BoundaryMap(boundaries: seq<IndexPair>): map<nat, nat> {
    if boundaries == [] then map[]
    else BoundaryMap(boundaries[..|boundaries| - 1])[boundaries[|boundaries| - 1].input := boundaries[|boundaries| - 1].surface]
  }

  function IdentityMap(n: nat): (r: map<nat, nat>)
    ensures forall i: nat :: i in r <==> i <= n
    ensures forall i: nat :: i in r ==> r[i] == i
  {
    if n == 0 then map[0 := 0] else IdentityMap(n - 1)[n := n]
  }

  function InputToSurfaceMap(reg: Registry, t: Text): map<nat, nat> {
    if HasIdentityMapping(t) then IdentityMap(|t.input|) else BoundaryMap(Boundaries(reg, t.input))
  }

  /** A partial map between two index spaces that keeps their order and their ends. */
  ghost predicate Monotone(m: map<nat, nat>, inputCount: nat, surfaceCount: nat) {
    && (forall i :: i in m ==> i <= inputCount && m[i] <= surfaceCount)
    && (forall i, j :: i in m && j in m && i <= j ==> m[i] <= m[j])
    && 0 in m && m[0] == 0 && inputCount in m && m[inputCount] == surfaceCount
  }

  lemma {:induction false} BoundaryMapIs(b: seq<IndexPair>)
    requires Ascending(b)
    ensures forall i :: i in BoundaryMap(b) <==> exists k :: 0 <= k < |b| && b[k].input == i
    ensures forall k :: 0 <= k < |b| ==> b[k].input in BoundaryMap(b) && BoundaryMap(b)[b[k].input] == b[k].surface
  {
    if b != [] {
      var init, last := b[..|b| - 1], b[|b| - 1];
      BoundaryMapIs(init);
      forall i
        ensures i in BoundaryMap(b) <==> exists k :: 0 <= k < |b| && b[k].input == i
      {
        if i in BoundaryMap(init) {
          var k :| 0 <= k < |init| && init[k].input == i;
          assert b[k].input == i;
        }
        if k :| 0 <= k < |b| && b[k].input == i && k < |init| {
          assert init[k].input == i;
        }
      }
      forall k | 0 <= k < |b|
        ensures b[k].input in BoundaryMap(b) && BoundaryMap(b)[b[k].input] == b[k].surface
      {
        if k < |init| {
          assert init[k] == b[k];
        }
      }
    }
  }

  /** The map of every text that is in step with its keystrokes keeps order and ends. */
  lemma {:induction false} TextMapsAreMonotone(reg: Registry, t: Text)
    requires t.surface == Convert(reg, t.input)
    ensures Monotone(InputToSurfaceMap(reg, t), |t.input|, |t.surface|)
  {
    hide Boundaries, Convert, BoundaryMap, ListsCleanCuts, Monotone;
    var b := Boundaries(reg, t.input);
    BoundariesAreCleanCuts(reg, t.input);
    BoundaryMapIsMonotone(reg, t.input, b);
    IdentityIsMonotone(|t.input|);
  }

  lemma {:induction false} IdentityIsMonotone(n: nat)
    ensures Monotone(IdentityMap(n), n, n)
  {
    hide IdentityMap;
  }

  lemma {:induction false} BoundaryMapIsMonotone(reg: Registry, input: seq<InputElement>, b: seq<IndexPair>)
    requires ListsCleanCuts(reg, input, b)
    ensures Monotone(BoundaryMap(b), |input|, |Convert(reg, input)|)
  {
    hide Convert, BoundaryMap, IsBoundary;
    BoundaryMapIs(b);
    BoundariesInRange(reg, input, b);
    var m := BoundaryMap(b);
    forall i, j | i in m && j in m && i <= j
      ensures m[i] <= m[j]
    {
      var k :| 0 <= k < |b| && b[k].input == i;
      var l :| 0 <= l < |b| && b[l].input == j;
      assert k <= l;
    }
    assert b[0].input in m && b[|b| - 1].input in m;
  }

  lemma {:induction false} BoundariesInRange(reg: Registry, input: seq<InputElement>, b: seq<IndexPair>)
    requires ListsCleanCuts(reg, input, b)
    ensures forall k :: 0 <= k < |b| ==> b[k].input <= |input| && b[k].surface <= |Convert(reg, input)|
  {
    hide Convert, CleanCut;
    forall k | 0 <= k < |b|
      ensures b[k].input <= |input| && b[k].surface <= |Convert(reg, input)|
    {
      assert IsBoundary(reg, input, b[k]);
      assert k < |b| - 1 ==> b[k].surface <= b[|b| - 1].surface;
    }
  }

  // ----- building the two-way map -----

  /** `back` names, for every reached text position, one of its keystroke positions. */
  ghost predicate Inverts(back: map<nat, nat>, m: map<nat, nat>) {
    && (forall s :: s in back ==> back[s] in m && m[back[s]] == s)
    && (forall i :: i in m ==> m[i] in back)
  }

  /** `order` is the order in which the entries of the map are visited. */
  method NewMap(m: map<nat, nat>, inputCount: nat, surfaceCount: nat, order: seq<nat>) returns (result: DualIndexMap)
    requires forall i :: i in order <==> i in m
    ensures result.inputToSurface == m && Inverts(result.surfaceToInput, m)
    ensures result.identity <==> inputCount == surfaceCount && forall i :: 0 <= i <= inputCount ==> i in m && m[i] == i
  {
    var identity := inputCount == surfaceCount;
    for i := 0 to inputCount + 1
      invariant identity <==> inputCount == surfaceCount && forall k :: 0 <= k < i ==> k in m && m[k] == k
    {
      if i !in m || m[i] != i {
        identity := false;
      }
    }
    var back: map<nat, nat> := map[];
    for k := 0 to |order|
      invariant forall s :: s in back ==> back[s] in m && m[back[s]] == s
      invariant forall l :: 0 <= l < k ==> order[l] in m && m[order[l]] in back
    {
      var input := order[k];
      assert input in order;
      if m[input] !in back {
        back := back[m[input] := input];
      }
    }
    forall i | i in m
      ensures m[i] in back
    {
      var l :| 0 <= l < |order| && order[l] == i;
    }
    result := DualIndexMap(m, back, identity);
  }

  function DualOfSurface(m: DualIndexMap, surface: nat): DualIndex {
    if m.identity then Both(surface, surface)
    else if surface in m.surfaceToInput then Both(m.surfaceToInput[surface], surface)
    else SurfaceOnly(surface)
  }

  /** A two-way map of `inputCount` keystrokes and `surfaceCount` graphemes. */
  ghost predicate Relates(m: DualIndexMap, inputCount: nat, surfaceCount: nat) {
    && Monotone(m.inputToSurface, inputCount, surfaceCount) && Inverts(m.surfaceToInput, m.inputToSurface)
    && (m.identity <==> inputCount == surfaceCount && forall i :: 0 <= i <= inputCount ==> i in m.inputToSurface && m.inputToSurface[i] == i)
  }

  predicate HasSurface(d: DualIndex, surface: nat) {
    !d.InputOnly? && d.surface == surface
  }

  predicate HasInput(d: DualIndex, input: nat) {
    !d.SurfaceOnly? && d.input == input
  }

  /** A text position is the end in either space exactly if it is the end of the text. */
  lemma {:induction false} EndsTogether(m: DualIndexMap, inputCount: nat, surfaceCount: nat, surface: nat)
    requires Relates(m, inputCount, surfaceCount) && surface <= surfaceCount
    ensures HasSurface(DualOfSurface(m, surface), surface)
    ensures HasSurface(DualOfSurface(m, surface), surfaceCount) || HasInput(DualOfSurface(m, surface), inputCount)
            <==> surface == surfaceCount
    ensures surface < surfaceCount && !DualOfSurface(m, surface).SurfaceOnly? ==> DualOfSurface(m, surface).input < inputCount
  {
  }

  // ----- the order of all indices -----

  function SurfaceParts(indices: seq<DualIndex>): seq<nat> {
    if indices == [] then []
    else
      var last := indices[|indices| - 1];
      SurfaceParts(indices[..|indices| - 1]) + if last.InputOnly? then [] else [last.surface]
  }

  function InputParts(indices: seq<DualIndex>): seq<nat> {
    if indices == [] then []
    else
      var last := indices[|indices| - 1];
      InputParts(indices[..|indices| - 1]) + if last.SurfaceOnly? then [] else [last.input]
  }

  function UpTo(n: nat): (r: seq<nat>)
    ensures |r| == n && forall i :: 0 <= i < n ==> r[i] == i
  {
    seq(n, i requires 0 <= i < n => i)
  }

  lemma {:induction false} PartsSnoc(indices: seq<DualIndex>, d: DualIndex)
    ensures SurfaceParts(indices + [d]) == SurfaceParts(indices) + if d.InputOnly? then [] else [d.surface]
    ensures InputParts(indices + [d]) == InputParts(indices) + if d.SurfaceOnly? then [] else [d.input]
  {
    assert (indices + [d])[..|indices|] == indices;
  }

  /** Each paired index agrees with the map. */
  ghost predicate PairsAgree(m: map<nat, nat>, indices: seq<DualIndex>) {
    forall k :: 0 <= k < |indices| && indices[k].Both? ==> indices[k].input in m && m[indices[k].input] == indices[k].surface
  }

  /** The text indices below `pointer` and the keystroke indices below `input` have been met. */
  ghost predicate Emitted(m: map<nat, nat>, indices: seq<DualIndex>, input: nat, pointer: nat) {
    && SurfaceParts(indices) == UpTo(pointer) && InputParts(indices) == UpTo(input) && PairsAgree(m, indices)
  }

  lemma {:induction false} EmitSurface(m: map<nat, nat>, indices: seq<DualIndex>, input: nat, pointer: nat)
    requires Emitted(m, indices, input, pointer)
    ensures Emitted(m, indices + [SurfaceOnly(pointer)], input, pointer + 1)
  {
    PartsSnoc(indices, SurfaceOnly(pointer));
    assert UpTo(pointer + 1) == UpTo(pointer) + [pointer];
    assert InputParts(indices) + [] == InputParts(indices);
  }

  lemma {:induction false} EmitInput(m: map<nat, nat>, indices: seq<DualIndex>, input: nat, pointer: nat)
    requires Emitted(m, indices, input, pointer)
    ensures Emitted(m, indices + [InputOnly(input)], input + 1, pointer)
  {
    PartsSnoc(indices, InputOnly(input));
    assert UpTo(input + 1) == UpTo(input) + [input];
    assert SurfaceParts(indices) + [] == SurfaceParts(indices);
  }

  lemma {:induction false} EmitBoth(m: map<nat, nat>, indices: seq<DualIndex>, input: nat, pointer: nat)
    requires Emitted(m, indices, input, pointer) && input in m && m[input] == pointer
    ensures Emitted(m, indices + [Both(input, pointer)], input + 1, pointer + 1)
  {
    PartsSnoc(indices, Both(input, pointer));
    assert UpTo(input + 1) == UpTo(input) + [input];
    assert UpTo(pointer + 1) == UpTo(pointer) + [pointer];
  }

  /** `pointer` is behind the position of the last mapped keystroke before `input`. */
  ghost predicate Behind(m: map<nat, nat>, input: nat, pointer: nat) {
    if pointer == 0 then forall i: nat :: i < input ==> i !in m
    else exists i: nat :: i < input && i in m && m[i] + 1 == pointer
  }

  lemma {:induction false} BehindNext(m: map<nat, nat>, inputCount: nat, surfaceCount: nat, input: nat, pointer: nat)
    requires Monotone(m, inputCount, surfaceCount) && Behind(m, input, pointer)
    ensures pointer <= surfaceCount + 1
    ensures input in m ==> pointer <= m[input] + 1 && m[input] <= surfaceCount && Behind(m, input + 1, m[input] + 1)
    ensures input !in m ==> Behind(m, input + 1, pointer)
  {
  }

  /** The text indices before the next paired position. */
  method EmitUpTo(indices: seq<DualIndex>, pointer: nat, surface: nat, ghost m: map<nat, nat>, ghost input: nat, ghost emitted: nat)
    returns (more: seq<DualIndex>)
    requires Emitted(m, indices, input, emitted) && (pointer <= surface ==> emitted == pointer)
    ensures Emitted(m, more, input, if pointer <= surface then surface else emitted)
  {
    hide Emitted;
    more := indices;
    for value := Min(pointer, surface) to surface
      invariant Emitted(m, more, input, if pointer <= surface then value else emitted)
    {
      EmitSurface(m, more, input, value);
      more := more + [SurfaceOnly(value)];
    }
  }

  /** Every text index is emitted exactly once and in ascending order, and so is every keystroke
      index; an entry for both agrees with the map. */
  method Indices(m: DualIndexMap, inputCount: nat, surfaceCount: nat) returns (indices: seq<DualIndex>)
    requires Relates(m, inputCount, surfaceCount)
    ensures SurfaceParts(indices) == UpTo(surfaceCount)
    ensures InputParts(indices) == UpTo(inputCount)
    ensures PairsAgree(m.inputToSurface, indices)
  {
    hide Emitted, SurfaceParts, InputParts, Monotone, Inverts, PairsAgree, Behind;
    ghost var pairs := m.inputToSurface;
    indices := [];
    NothingEmitted(pairs);
    if m.identity {
      for index := 0 to Min(inputCount, surfaceCount)
        invariant Emitted(pairs, indices, index, index)
      {
        EmitBoth(pairs, indices, index, index);
        indices := indices + [Both(index, index)];
      }
      EmittedAll(pairs, indices, inputCount, surfaceCount);
      return;
    }
    var pointer: nat := 0;
    StartsBehind(pairs);
    for input := 0 to inputCount
      invariant Emitted(pairs, indices, input, Min(pointer, surfaceCount)) && Behind(pairs, input, pointer)
    {
      BehindNext(pairs, inputCount, surfaceCount, input, pointer);
      if input in m.inputToSurface {
        var surface := m.inputToSurface[input];
        indices := EmitUpTo(indices, pointer, surface, pairs, input, Min(pointer, surfaceCount));
        if pointer <= surface && surface < surfaceCount {
          EmitBoth(pairs, indices, input, surface);
          indices := indices + [Both(input, surface)];
        } else {
          EmitInput(pairs, indices, input, Min(surface + 1, surfaceCount));
          indices := indices + [InputOnly(input)];
        }
        pointer := surface + 1;
      } else {
        EmitInput(pairs, indices, input, Min(pointer, surfaceCount));
        indices := indices + [InputOnly(input)];
      }
    }
    indices := EmitUpTo(indices, pointer, surfaceCount, pairs, inputCount, Min(pointer, surfaceCount));
    EmittedAll(pairs, indices, inputCount, surfaceCount);
  }

  lemma {:induction false} StartsBehind(m: map<nat, nat>)
    ensures Behind(m, 0, 0)
  {
  }

  lemma {:induction false} NothingEmitted(m: map<nat, nat>)
    ensures Emitted(m, [], 0, 0)
  {
  }

  lemma {:induction false} EmittedAll(m: map<nat, nat>, indices: seq<DualIndex>, inputCount: nat, surfaceCount: nat)
    requires Emitted(m, indices, inputCount, surfaceCount)
    ensures SurfaceParts(indices) == UpTo(surfaceCount) && InputParts(indices) == UpTo(inputCount) && PairsAgree(m, indices)
  {
  }
}
