/** LOUDS bit strings (`dictionary/louds.rs` and the packing in `learning.rs`): a tree written
    as one bit per edge and one delimiter per node, and read back by delimiter positions. */
module LoudsTrees {
  import opened Wrappers
  import opened Numbers
  import opened Bytes

  datatype LoudsError =
    | InvalidWordLength(length: nat)
    | MissingZeroDelimiters(needed: nat, found: nat)
    | InvalidTopology(node: nat, zeroPosition: nat)

  datatype Range = Range(start: nat, end: nat)

  datatype Louds = Louds(nodeIds: seq<byte>, childRanges: seq<Range>)

  // ----- packing bits into 64-bit words -----

  function Padded(chunk: seq<bool>): seq<bool>
    requires |chunk| <= 64
  {
    chunk + Repeat(true, 64 - |chunk|)
  }

  function Pack(bits: seq<bool>): seq<byte> {
    if bits == [] then []
    else
      var n := Min(64, |bits|);
      LittleEndian(BitValue(Padded(bits[..n])), 8) + Pack(bits[n..])
  }

  function Unpack(bytes: seq<byte>): seq<bool>
    requires |bytes| % 8 == 0
  {
    if bytes == [] then []
    else WordBits(FromLittleEndian(bytes[..8]), 64) + Unpack(bytes[8..])
  }

  function PadLength(n: nat): nat {
    (64 - n % 64) % 64
  }

  lemma {:induction false} WordRoundTrip(chunk: seq<bool>)
    requires |chunk| <= 64
    ensures WordBits(FromLittleEndian(LittleEndian(BitValue(Padded(chunk)), 8)), 64) == Padded(chunk)
  {
    hide BitValue, WordBits, LittleEndian, FromLittleEndian, Pow2, Pow256;
    var bits := Padded(chunk);
    BitValueBound(bits);
    SixtyFourBits();
    LittleEndianRoundTrip(BitValue(bits), 8);
    WordBitsOfValue(bits);
  }

  lemma {:induction false} UnpackCons(word: seq<byte>, rest: seq<byte>)
    requires |word| == 8 && |rest| % 8 == 0
    ensures Unpack(word + rest) == WordBits(FromLittleEndian(word), 64) + Unpack(rest)
  {
    hide WordBits, FromLittleEndian;
    assert (word + rest)[..8] == word && (word + rest)[8..] == rest;
  }

  /** Unpacking gives back the bits, padded with ones to a whole word. */
  lemma {:induction false} UnpackPack(bits: seq<bool>)
    ensures |Pack(bits)| % 8 == 0
    ensures Unpack(Pack(bits)) == bits + Repeat(true, PadLength(|bits|))
  {
    hide BitValue, WordBits, LittleEndian, FromLittleEndian, Unpack;
    if bits == [] {
      NothingUnpacked();
    } else {
      var n := Min(64, |bits|);
      UnpackPack(bits[n..]);
      WordRoundTrip(bits[..n]);
      UnpackCons(LittleEndian(BitValue(Padded(bits[..n])), 8), Pack(bits[n..]));
      PaddingMoves(bits);
    }
  }

  lemma {:induction false} NothingUnpacked()
    ensures Unpack([]) == [] == [] + Repeat(true, PadLength(0))
  {
  }

  lemma {:induction false} PaddingMoves(bits: seq<bool>)
    requires bits != []
    ensures var n := Min(64, |bits|);
            Padded(bits[..n]) + (bits[n..] + Repeat(true, PadLength(|bits| - n))) == bits + Repeat(true, PadLength(|bits|))
  {
    if |bits| > 64 {
      assert PadLength(|bits|) == PadLength(|bits| - 64);
      assert Padded(bits[..64]) == bits[..64];
      assert bits[..64] + bits[64..] == bits;
    } else {
      assert PadLength(|bits| - |bits|) == 0;
      assert bits[..|bits|] == bits && bits[|bits|..] == [];
    }
  }

  /** Building one word by setting bits from the most significant down. */
  method EncodeWord(chunk: seq<bool>) returns (word: nat)
    requires |chunk| <= 64
    ensures word == BitValue(Padded(chunk))
  {
    hide BitValue, OrBit;
    word := 0;
    ZerosHaveNoValue(64);
    assert [] + Repeat(false, 64) == Repeat(false, 64);
    for index := 0 to |chunk|
      invariant word == BitValue(chunk[..index] + Repeat(false, 64 - index))
    {
      assert chunk[..index + 1] == chunk[..index] + [chunk[index]];
      if chunk[index] {
        OrNextBit(chunk[..index], 63 - index);
        word := OrBit(word, 63 - index);
      } else {
        assert chunk[..index] + Repeat(false, 64 - index) == chunk[..index + 1] + Repeat(false, 63 - index);
      }
    }
    assert chunk[..|chunk|] == chunk;
    assert chunk + Repeat(true, 0) == chunk;
    for index := |chunk| to 64
      invariant word == BitValue(chunk + Repeat(true, index - |chunk|) + Repeat(false, 64 - index))
    {
      var high := chunk + Repeat(true, index - |chunk|);
      OrNextBit(high, 63 - index);
      assert high + [true] == chunk + Repeat(true, index + 1 - |chunk|);
      word := OrBit(word, 63 - index);
    }
    assert Padded(chunk) + Repeat(false, 0) == Padded(chunk);
  }

  method EncodeLouds(bits: seq<bool>) returns (output: seq<byte>)
    ensures output == Pack(bits)
  {
    output := [];
    var rest := bits;
    while |rest| > 0
      invariant output + Pack(rest) == Pack(bits)
    {
      hide BitValue, LittleEndian;
      var n := Min(64, |rest|);
      var word := EncodeWord(rest[..n]);
      assert Pack(rest) == LittleEndian(word, 8) + Pack(rest[n..]);
      assert output + Pack(rest) == (output + LittleEndian(word, 8)) + Pack(rest[n..]);
      output := output + LittleEndian(word, 8);
      rest := rest[n..];
    }
    assert output + [] == output;
  }

  // ----- positions of the delimiters -----

  function Zeros(bits: seq<bool>): seq<nat> {
    if bits == [] then []
    else Zeros(bits[..|bits| - 1]) + if bits[|bits| - 1] then [] else [|bits| - 1]
  }

  lemma {:induction false} ZerosSnoc(bits: seq<bool>, b: bool)
    ensures Zeros(bits + [b]) == if b then Zeros(bits) else Zeros(bits) + [|bits|]
  {
    assert (bits + [b])[..|bits|] == bits;
    assert Zeros(bits) + [] == Zeros(bits);
  }

  lemma {:induction false} OnesHideNothing(bits: seq<bool>, n: nat)
    ensures Zeros(bits + Repeat(true, n)) == Zeros(bits)
  {
    hide Zeros;
    if n == 0 {
      assert bits + Repeat(true, 0) == bits;
    } else {
      assert bits + Repeat(true, n) == (bits + Repeat(true, n - 1)) + [true];
      ZerosSnoc(bits + Repeat(true, n - 1), true);
      OnesHideNothing(bits, n - 1);
    }
  }

  /** Later bits only add later positions. */
  lemma {:induction false} ZerosOfPrefix(bits: seq<bool>, n: nat)
    requires n <= |bits|
    ensures Zeros(bits[..n]) <= Zeros(bits)
  {
    if n < |bits| {
      var init := bits[..|bits| - 1];
      assert init[..n] == bits[..n];
      ZerosOfPrefix(init, n);
      assert bits == init + [bits[|bits| - 1]];
      ZerosSnoc(init, bits[|bits| - 1]);
    } else {
      assert bits[..n] == bits;
    }
  }

  // ----- parsing -----

  /** The children of one node, from the delimiters around it. */
  function RangeOf(zeros: seq<nat>, node: nat, nodeCount: nat): Result<Range, LoudsError>
    requires 0 < node < |zeros|
  {
    if zeros[node - 1] < node then Err(InvalidTopology(node, zeros[node - 1]))
    else if zeros[node] < node then Err(InvalidTopology(node, zeros[node]))
    else Ok(Range(Min(zeros[node - 1] - node + 2, nodeCount), Min(zeros[node] - node + 1, nodeCount)))
  }

  function Ranges(zeros: seq<nat>, node: nat, nodeCount: nat): Result<seq<Range>, LoudsError>
    requires node <= nodeCount <= |zeros|
  {
    if node == 0 then Ok([])
    else
      var before := Ranges(zeros, node - 1, nodeCount);
      if before.Err? then before
      else if node == 1 then Ok([Range(0, 0)])
      else
        var range := RangeOf(zeros, node - 1, nodeCount);
        if range.Err? then Err(range.error) else Ok(before.value + [range.value])
  }

  function Parse(bytes: seq<byte>, nodeIds: seq<byte>): Result<Louds, LoudsError> {
    if |bytes| % 8 != 0 then Err(InvalidWordLength(|bytes|))
    else
      var zeros := Zeros(Unpack(bytes));
      if |zeros| < |nodeIds| then Err(MissingZeroDelimiters(|nodeIds|, |zeros|))
      else
        var ranges := Ranges(zeros, |nodeIds|, |nodeIds|);
        if ranges.Err? then Err(ranges.error) else Ok(Louds(nodeIds, ranges.value))
  }

  lemma {:induction false} ZerosStep(all: seq<bool>, position: nat)
    requires position < |all|
    ensures Zeros(all[..position + 1]) == if all[position] then Zeros(all[..position]) else Zeros(all[..position]) + [position]
    ensures Zeros(all[..position + 1]) <= Zeros(all)
  {
    hide Zeros;
    assert all[..position + 1] == all[..position] + [all[position]];
    ZerosSnoc(all[..position], all[position]);
    ZerosOfPrefix(all, position + 1);
  }

  /** What a scan has found: all delimiters, or as many as it was asked for. */
  ghost predicate FoundZeros(zeros: seq<nat>, needed: nat, done: bool, bits: seq<bool>) {
    && zeros <= Zeros(bits)
    && (done ==> |zeros| == needed)
    && (!done ==> zeros == Zeros(bits) && (needed > 0 ==> |zeros| < needed))
  }

  /** Reading the delimiters of one word, until `needed` are known. */
  method ScanWord(word: nat, start: nat, needed: nat, found: seq<nat>, ghost before: seq<bool>)
    returns (zeros: seq<nat>, done: bool)
    requires start == |before| && FoundZeros(found, needed, false, before)
    ensures FoundZeros(zeros, needed, done, before + WordBits(word, 64))
  {
    hide BitSet, Zeros;
    zeros := found;
    done := false;
    ghost var all := before + WordBits(word, 64);
    assert all[..start] == before;
    var shift := 64;
    while shift > 0 && !done
      invariant 0 <= shift <= 64
      invariant !done ==> FoundZeros(zeros, needed, false, all[..start + 64 - shift])
      invariant done ==> zeros <= Zeros(all) && |zeros| == needed
      decreases shift, !done
    {
      shift := shift - 1;
      var position := start + 63 - shift;
      ZerosStep(all, position);
      assert all[position] == WordBits(word, 64)[63 - shift] == BitSet(word, shift);
      if !BitSet(word, shift) {
        zeros := zeros + [position];
        if |zeros| == needed {
          done := true;
        }
      }
    }
    assert all[..|all|] == all;
  }

  lemma {:induction false} UnpackAppend(a: seq<byte>, b: seq<byte>)
    requires |a| % 8 == 0 && |b| % 8 == 0
    ensures Unpack(a + b) == Unpack(a) + Unpack(b)
  {
    hide WordBits, FromLittleEndian;
    if a == [] {
      assert a + b == b;
    } else {
      assert (a + b)[..8] == a[..8] && (a + b)[8..] == a[8..] + b;
      UnpackAppend(a[8..], b);
    }
  }

  lemma {:induction false} UnpackStep(bytes: seq<byte>, position: nat)
    requires |bytes| % 8 == 0 && position % 8 == 0 && position + 8 <= |bytes|
    ensures Unpack(bytes[..position + 8])
            == Unpack(bytes[..position]) + WordBits(FromLittleEndian(bytes[position..position + 8]), 64)
    ensures Zeros(Unpack(bytes[..position + 8])) <= Zeros(Unpack(bytes))
  {
    hide WordBits, FromLittleEndian, Zeros;
    var before, chunk, rest := bytes[..position], bytes[position..position + 8], bytes[position + 8..];
    assert bytes[..position + 8] == before + chunk && bytes == (before + chunk) + rest;
    UnpackAppend(before, chunk);
    UnpackAppend(before + chunk, rest);
    assert chunk[..8] == chunk && chunk[8..] == [];
    var bits := Unpack(bytes[..position + 8]);
    assert Unpack(bytes)[..|bits|] == bits;
    ZerosOfPrefix(Unpack(bytes), |bits|);
  }

  /** The delimiter positions a parser looks at: the first `needed`, or all if there are fewer. */
  method FindZeros(bytes: seq<byte>, needed: nat) returns (zeros: seq<nat>)
    requires |bytes| % 8 == 0
    ensures zeros <= Zeros(Unpack(bytes))
    ensures |zeros| < needed ==> zeros == Zeros(Unpack(bytes))
  {
    hide Zeros, WordBits, FromLittleEndian;
    zeros := [];
    var position := 0;
    var done := false;
    NoZeros(bytes);
    while position < |bytes| && !done
      invariant position <= |bytes| && position % 8 == 0
      invariant !done ==> FoundZeros(zeros, needed, false, Unpack(bytes[..position]))
      invariant |Unpack(bytes[..position])| == 8 * position
      invariant done ==> zeros <= Zeros(Unpack(bytes)) && |zeros| == needed
      decreases |bytes| - position
    {
      UnpackStep(bytes, position);
      var word := FromLittleEndian(bytes[position..position + 8]);
      zeros, done := ScanWord(word, 8 * position, needed, zeros, Unpack(bytes[..position]));
      position := position + 8;
    }
    assert bytes[..|bytes|] == bytes;
  }

  lemma {:induction false} NoZeros(bytes: seq<byte>)
    ensures Unpack(bytes[..0]) == [] && Zeros([]) == []
  {
  }

  lemma {:induction false} RangesOfPrefix(zeros: seq<nat>, all: seq<nat>, node: nat, nodeCount: nat)
    requires node <= nodeCount <= |zeros| && zeros <= all
    ensures Ranges(zeros, node, nodeCount) == Ranges(all, node, nodeCount)
  {
    if node > 0 {
      RangesOfPrefix(zeros, all, node - 1, nodeCount);
    }
  }

  lemma {:induction false} RangesFail(zeros: seq<nat>, node: nat, later: nat, nodeCount: nat)
    requires node <= later <= nodeCount <= |zeros| && Ranges(zeros, node, nodeCount).Err?
    ensures Ranges(zeros, later, nodeCount) == Ranges(zeros, node, nodeCount)
  {
    if node < later {
      RangesFail(zeros, node, later - 1, nodeCount);
    }
  }

  method ParseLouds(bytes: seq<byte>, nodeIds: seq<byte>) returns (result: Result<Louds, LoudsError>)
    ensures result == Parse(bytes, nodeIds)
  {
    if |bytes| % 8 != 0 {
      return Err(InvalidWordLength(|bytes|));
    }
    var zeros := FindZeros(bytes, |nodeIds|);
    ghost var all := Zeros(Unpack(bytes));
    if |zeros| < |nodeIds| {
      return Err(MissingZeroDelimiters(|nodeIds|, |zeros|));
    }
    assert |nodeIds| <= |zeros| <= |all|;
    if |nodeIds| == 0 {
      return Ok(Louds(nodeIds, []));
    }
    hide Zeros, Unpack;
    var ranges := [Range(0, 0)];
    assert Ranges(zeros, 0, |nodeIds|) == Ok([]);
    for node := 1 to |nodeIds|
      invariant Ranges(zeros, node, |nodeIds|) == Ok(ranges)
    {
      var range := RangeOf(zeros, node, |nodeIds|);
      if range.Err? {
        RangesFail(zeros, node + 1, |nodeIds|, |nodeIds|);
        RangesOfPrefix(zeros, all, |nodeIds|, |nodeIds|);
        return Err(range.error);
      }
      ranges := ranges + [range.value];
    }
    RangesOfPrefix(zeros, all, |nodeIds|, |nodeIds|);
    result := Ok(Louds(nodeIds, ranges));
  }

  // ----- reading a parsed tree -----

  function ChildRange(louds: Louds, parent: nat): Range {
    if parent < |louds.childRanges| then louds.childRanges[parent] else Range(0, 0)
  }

  /** The first number in `from..to` whose node carries the id. */
  function FirstWithId(nodeIds: seq<byte>, from: nat, to: nat, id: byte): Option<nat>
    decreases to - from
  {
    if from >= to then None
    else if from < |nodeIds| && nodeIds[from] == id then Some(from)
    else FirstWithId(nodeIds, from + 1, to, id)
  }

  function SearchChild(louds: Louds, parent: nat, id: byte): Option<nat> {
    var range := ChildRange(louds, parent);
    FirstWithId(louds.nodeIds, range.start, range.end, id)
  }

  function SearchFrom(louds: Louds, node: nat, ids: seq<byte>): Option<nat>
    decreases |ids|
  {
    if ids == [] then Some(node)
    else
      var child := SearchChild(louds, node, ids[0]);
      if child.None? then None else SearchFrom(louds, child.value, ids[1..])
  }
}
