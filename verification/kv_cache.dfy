/** Reuse of decoded prefixes across two sequences (`llama/src/lib.rs`), against an abstract
    store of decoded tokens per sequence. */
module KvCaches {
  import opened Wrappers
  import opened Numbers

  const CONTEXT_TOKEN_LIMIT: nat := 512

  datatype LlamaError =
    | InputTooLong(count: nat)
    | InvalidLogitsRange(startIndex: nat, tokenCount: nat)
    | Decode(code: int)

  datatype LlamaSequence = Evaluation | InputPrediction

  function Index(sequence: LlamaSequence): (r: nat)
    ensures r < 2
  {
    if sequence == Evaluation then 0 else 1
  }

  /** What one sequence has decoded: a token for each position. */
  type Cells = map<nat, int>

  /** One row of logits, computed from the cells a position can see. */
  type Row = seq<real>
  type Model = Cells -> Row

  datatype BatchRow = BatchRow(token: int, position: nat, sequence: nat, logits: bool)

  /** How the library answers one call: whether a part of a sequence can be removed, the decode
      result, whether there is an output, and what a failed decode left behind. */
  datatype Device = Device(removes: bool, result: int, hasLogits: bool, leftover: Cells)

  function CellsOf(tokens: seq<int>): (r: Cells)
    ensures forall p: nat :: p in r <==> p < |tokens|
    ensures forall p: nat :: p < |tokens| ==> r[p] == tokens[p]
  {
    if tokens == [] then map[] else CellsOf(tokens[..|tokens| - 1])[|tokens| - 1 := tokens[|tokens| - 1]]
  }

  /** `llama_memory_seq_rm` with an open end. */
  function Removed(cells: Cells, from: nat): (r: Cells)
    ensures forall p :: p in r <==> p in cells && p < from
    ensures forall p :: p in r ==> r[p] == cells[p]
  {
    map p | p in cells && p < from :: cells[p]
  }

  /** The cells copied by `llama_memory_seq_cp` join those already there. */
  function Copied(target: Cells, source: Cells, to: nat): Cells {
    target + Removed(source, to)
  }

  /** The cells a position can attend to. */
  function Visible(cells: Cells, position: nat): Cells {
    Removed(cells, position + 1)
  }

  function Stored(cells: Cells, batch: seq<BatchRow>): Cells {
    if batch == [] then cells
    else Stored(cells, batch[..|batch| - 1])[batch[|batch| - 1].position := batch[|batch| - 1].token]
  }

  /** The rows a successful decode returns, in batch order. */
  function Outputs(model: Model, cells: Cells, batch: seq<BatchRow>): seq<Row> {
    if batch == [] then []
    else
      var last := batch[|batch| - 1];
      Outputs(model, cells, batch[..|batch| - 1]) + if last.logits then [model(Visible(cells, last.position))] else []
  }

  /** The slow form: every prefix that ends at `startIndex` or later, up to `n` tokens, evaluated
      from scratch. */
  function FromScratch(model: Model, tokens: seq<int>, startIndex: nat, n: nat): (rows: seq<Row>)
    requires n <= |tokens|
    ensures |rows| == Minus(n, startIndex)
    ensures forall k :: 0 <= k < |rows| ==> rows[k] == model(CellsOf(tokens[..startIndex + k + 1]))
  {
    if n <= startIndex then []
    else FromScratch(model, tokens, startIndex, n - 1) + [model(CellsOf(tokens[..n]))]
  }

  // ----- planning -----

  ghost predicate IsCommonPrefix(a: seq<int>, b: seq<int>, n: nat) {
    && n <= |a| && n <= |b| && a[..n] == b[..n]
    && (n < |a| && n < |b| ==> a[n] != b[n])
  }

  method CommonPrefixCount(left: seq<int>, right: seq<int>) returns (n: nat)
    ensures IsCommonPrefix(left, right, n)
  {
    n := 0;
    while n < |left| && n < |right| && left[n] == right[n]
      invariant n <= |left| && n <= |right| && left[..n] == right[..n]
    {
      assert left[..n + 1] == left[..n] + [left[n]] && right[..n + 1] == right[..n] + [right[n]];
      n := n + 1;
    }
  }

  datatype SequencePlan = SequencePlan(source: Option<nat>, cachedPrefixCount: nat)

  /** The batch that decodes the tokens behind the cached prefix. */
  function BatchFor(tokens: seq<int>, cached: nat, n: nat, startIndex: nat, sequence: nat): (r: seq<BatchRow>)
    requires cached <= n <= |tokens|
    ensures |r| == n - cached
    ensures forall i :: 0 <= i < |r| ==> r[i] == BatchRow(tokens[cached + i], cached + i, sequence, cached + i >= startIndex)
  {
    if n == cached then []
    else BatchFor(tokens, cached, n - 1, startIndex, sequence) + [BatchRow(tokens[n - 1], n - 1, sequence, n - 1 >= startIndex)]
  }

  lemma {:induction false} StoreOne(cells: Cells, batch: seq<BatchRow>, row: BatchRow)
    ensures Stored(cells, batch + [row]) == Stored(cells, batch)[row.position := row.token]
  {
    assert (batch + [row])[..|batch|] == batch;
  }

  lemma {:induction false} OutputOne(model: Model, cells: Cells, batch: seq<BatchRow>, row: BatchRow)
    ensures Outputs(model, cells, batch + [row])
            == Outputs(model, cells, batch) + if row.logits then [model(Visible(cells, row.position))] else []
  {
    assert (batch + [row])[..|batch|] == batch;
  }

  lemma {:induction false} CellsOfOne(tokens: seq<int>, n: nat)
    requires 0 < n <= |tokens|
    ensures CellsOf(tokens[..n]) == CellsOf(tokens[..n - 1])[n - 1 := tokens[n - 1]]
  {
    assert tokens[..n][..n - 1] == tokens[..n - 1];
  }

  lemma {:induction false} BatchStores(cells: Cells, tokens: seq<int>, cached: nat, n: nat, startIndex: nat, sequence: nat)
    requires cached <= n <= |tokens| && cells == CellsOf(tokens[..cached])
    ensures Stored(cells, BatchFor(tokens, cached, n, startIndex, sequence)) == CellsOf(tokens[..n])
  {
    hide CellsOf, Stored;
    if n > cached {
      BatchStores(cells, tokens, cached, n - 1, startIndex, sequence);
      StoreOne(cells, BatchFor(tokens, cached, n - 1, startIndex, sequence), BatchRow(tokens[n - 1], n - 1, sequence, n - 1 >= startIndex));
      CellsOfOne(tokens, n);
    } else {
      NothingStored(cells);
    }
  }

  lemma {:induction false} NothingStored(cells: Cells)
    ensures Stored(cells, []) == cells
  {
  }

  lemma {:induction false} VisiblePrefix(tokens: seq<int>, position: nat)
    requires position < |tokens|
    ensures Visible(CellsOf(tokens), position) == CellsOf(tokens[..position + 1])
  {
    hide CellsOf;
  }

  /** The requested rows are exactly those of the prefixes from the start index on. */
  lemma {:induction false} BatchOutputs(model: Model, tokens: seq<int>, cached: nat, n: nat, startIndex: nat, sequence: nat)
    requires cached <= startIndex <= |tokens| && cached <= n <= |tokens|
    ensures Outputs(model, CellsOf(tokens), BatchFor(tokens, cached, n, startIndex, sequence)) == FromScratch(model, tokens, startIndex, n)
  {
    hide CellsOf, Outputs, Visible;
    if n > cached {
      BatchOutputs(model, tokens, cached, n - 1, startIndex, sequence);
      OutputOne(model, CellsOf(tokens), BatchFor(tokens, cached, n - 1, startIndex, sequence),
                BatchRow(tokens[n - 1], n - 1, sequence, n - 1 >= startIndex));
      VisiblePrefix(tokens, n - 1);
    } else {
      NoOutputs(model, CellsOf(tokens));
    }
  }

  lemma {:induction false} NoOutputs(model: Model, cells: Cells)
    ensures Outputs(model, cells, []) == []
  {
  }

  /** Some sequence has decoded the first `n` tokens, and none has more of those before `startIndex`. */
  ghost predicate LongestHeld(held: seq<seq<int>>, tokens: seq<int>, startIndex: nat, n: nat)
    requires |held| == 2 && startIndex <= |tokens|
  {
    && n <= startIndex
    && (exists s :: 0 <= s < 2 && n <= |held[s]| && held[s][..n] == tokens[..n])
    && (forall s, m :: 0 <= s < 2 && 0 <= m <= startIndex && m <= |held[s]| && held[s][..m] == tokens[..m] ==> m <= n)
  }

  /** The batch holds the tokens behind the longest prefix that a sequence has decoded, each at
      its position and marked if its row is asked for. */
  ghost predicate DecodesTheRest(held: seq<seq<int>>, tokens: seq<int>, startIndex: nat, sequence: nat, batch: seq<BatchRow>)
    requires |held| == 2 && startIndex < |tokens|
  {
    && |batch| <= |tokens| && LongestHeld(held, tokens, startIndex, |tokens| - |batch|)
    && forall i :: 0 <= i < |batch| ==>
         var position := |tokens| - |batch| + i;
         batch[i] == BatchRow(tokens[position], position, sequence, position >= startIndex)
  }

  lemma {:induction false} BatchDecodes(held: seq<seq<int>>, tokens: seq<int>, startIndex: nat, sequence: nat, cached: nat)
    requires |held| == 2 && startIndex < |tokens| && LongestHeld(held, tokens, startIndex, cached)
    ensures DecodesTheRest(held, tokens, startIndex, sequence, BatchFor(tokens, cached, |tokens|, startIndex, sequence))
  {
    hide BatchFor;
  }

  class LlamaContext {
    const model: Model
    /** The library's memory, by sequence. */
    var cells: seq<Cells>
    var batch: seq<BatchRow>
    var sequenceTokens: seq<seq<int>>

    /** The library holds, for each sequence, what the context believes it holds. */
    ghost predicate Valid()
      reads this
    {
      && |cells| == 2 && |sequenceTokens| == 2
      && forall s :: 0 <= s < 2 ==> cells[s] == CellsOf(sequenceTokens[s])
    }

    constructor (model: Model)
      ensures Valid() && this.model == model && sequenceTokens == [[], []]
    {
      this.model := model;
      cells := [map[], map[]];
      batch := [];
      sequenceTokens := [[], []];
    }

    /** The longest prefix that can be reused without covering the first requested row. */
    method Plan(tokens: seq<int>, startIndex: nat, sequence: LlamaSequence) returns (plan: SequencePlan)
      requires Valid() && startIndex < |tokens|
      ensures plan.cachedPrefixCount <= startIndex
      ensures var s := if plan.source.Some? then plan.source.value else Index(sequence);
              && s < 2 && plan.cachedPrefixCount <= |sequenceTokens[s]|
              && sequenceTokens[s][..plan.cachedPrefixCount] == tokens[..plan.cachedPrefixCount]
      ensures plan.source.Some? ==> plan.source.value == 1 - Index(sequence) && plan.cachedPrefixCount > 0
      ensures LongestHeld(sequenceTokens, tokens, startIndex, plan.cachedPrefixCount)
    {
      hide LongestHeld, IsCommonPrefix;
      var current := Index(sequence);
      var currentPrefix := CommonPrefixCount(sequenceTokens[current], tokens);
      var other := 1 - current;
      var otherPrefix := CommonPrefixCount(sequenceTokens[other], tokens);
      LongestIsHeld(sequenceTokens, tokens, startIndex, current, currentPrefix, otherPrefix);
      if otherPrefix > currentPrefix {
        var copied := Min(otherPrefix, startIndex);
        if copied > 0 {
          return SequencePlan(Some(other), copied);
        }
      }
      plan := SequencePlan(None, Min(currentPrefix, startIndex));
    }

    /** After every call, successful or not, the memory of each sequence is what the context
        believes; a successful call returns the rows that evaluating every prefix from scratch
        would give; a batch is never empty and never larger than the context. */
    method Logits(tokens: seq<int>, startIndex: nat, sequence: LlamaSequence, device: Device)
      returns (result: Result<seq<Row>, LlamaError>)
      requires Valid()
      modifies this
      ensures Valid()
      ensures |tokens| > 512 ==> result == Err(InputTooLong(|tokens|))
      ensures |tokens| <= 512 && startIndex >= |tokens| ==> result == Err(InvalidLogitsRange(startIndex, |tokens|))
      ensures |tokens| > 512 || startIndex >= |tokens| ==>
                sequenceTokens == old(sequenceTokens) && cells == old(cells) && batch == old(batch)
      ensures result.Ok? ==>
                && startIndex < |tokens| && result.value == FromScratch(model, tokens, startIndex, |tokens|)
                && sequenceTokens == old(sequenceTokens)[Index(sequence) := tokens]
                && 1 <= |batch| <= 512
      ensures result.Err? && result.error.Decode? ==>
                && result.error.code != 0
                && sequenceTokens == old(sequenceTokens)[Index(sequence) := []]
                && (device.removes ==> 1 <= |batch| <= 512)
      ensures startIndex < |tokens| <= 512 && device.removes ==>
                DecodesTheRest(old(sequenceTokens), tokens, startIndex, if sequence == Evaluation then 0 else 1, batch)
      ensures startIndex < |tokens| <= 512 ==>
                if !device.removes then result == Err(Decode(-1))
                else if device.result != 0 then result == Err(Decode(device.result))
                else if !device.hasLogits then result == Err(Decode(-2))
                else result.Ok?
    {
      hide CellsOf, BatchFor, Stored, Outputs, FromScratch, DecodesTheRest, LongestHeld;
      if |tokens| > CONTEXT_TOKEN_LIMIT {
        return Err(InputTooLong(|tokens|));
      }
      if startIndex >= |tokens| {
        return Err(InvalidLogitsRange(startIndex, |tokens|));
      }
      var rows: seq<Row> := [];
      var plan := Plan(tokens, startIndex, sequence);
      var id := Index(sequence);
      var cached := plan.cachedPrefixCount;
      var own := cells[id];
      if plan.source.Some? {
        own := Removed(own, 0);
        own := Copied(own, cells[plan.source.value], cached);
      }
      ReusedCells(cells, sequenceTokens, tokens, id, plan);
      var code := 0;
      if !device.removes {
        code := -1;
      } else {
        own := Removed(own, cached);
        batch := FillBatch(tokens, cached, startIndex, id);
        BatchDecodes(sequenceTokens, tokens, startIndex, id, cached);
        if device.result != 0 {
          own := device.leftover;
          code := device.result;
        } else {
          BatchStores(own, tokens, cached, |tokens|, startIndex, id);
          BatchOutputs(model, tokens, cached, |tokens|, startIndex, id);
          assert tokens[..|tokens|] == tokens;
          own := Stored(own, batch);
          if !device.hasLogits {
            code := -2;
          } else {
            rows := Outputs(model, own, batch);
          }
        }
      }
      if code != 0 {
        own := Removed(own, 0);
        NoCells(own);
        cells := cells[id := own];
        sequenceTokens := sequenceTokens[id := []];
        return Err(Decode(code));
      }
      cells := cells[id := own];
      sequenceTokens := sequenceTokens[id := tokens];
      result := Ok(rows);
    }
  }

  method FillBatch(tokens: seq<int>, cached: nat, startIndex: nat, sequence: nat) returns (batch: seq<BatchRow>)
    requires cached <= |tokens|
    ensures batch == BatchFor(tokens, cached, |tokens|, startIndex, sequence)
  {
    batch := [];
    for index := cached to |tokens|
      invariant batch == BatchFor(tokens, cached, index, startIndex, sequence)
    {
      batch := batch + [BatchRow(tokens[index], index, sequence, index >= startIndex)];
    }
  }

  lemma {:induction false} NoCells(cells: Cells)
    requires forall p :: p !in cells
    ensures cells == CellsOf([])
  {
  }

  /** Cutting the sequence, or copying the other one's prefix, leaves the common prefix decoded. */
  lemma {:induction false} ReusedCells(cells: seq<Cells>, held: seq<seq<int>>, tokens: seq<int>, id: nat, plan: SequencePlan)
    requires |cells| == |held| == 2 && id < 2 && forall s :: 0 <= s < 2 ==> cells[s] == CellsOf(held[s])
    requires plan.cachedPrefixCount <= |tokens|
    requires var s := if plan.source.Some? then plan.source.value else id;
             && s < 2 && plan.cachedPrefixCount <= |held[s]|
             && held[s][..plan.cachedPrefixCount] == tokens[..plan.cachedPrefixCount]
    ensures plan.source.Some? ==>
              Removed(Copied(Removed(cells[id], 0), cells[plan.source.value], plan.cachedPrefixCount), plan.cachedPrefixCount)
              == CellsOf(tokens[..plan.cachedPrefixCount])
    ensures plan.source.None? ==> Removed(cells[id], plan.cachedPrefixCount) == CellsOf(tokens[..plan.cachedPrefixCount])
  {
    hide CellsOf;
    var n := plan.cachedPrefixCount;
    PrefixKept(held[if plan.source.Some? then plan.source.value else id], tokens, n);
    if plan.source.Some? {
      var copied := Removed(cells[plan.source.value], n);
      assert Removed(Copied(Removed(cells[id], 0), cells[plan.source.value], n), n) == copied;
    }
  }

  lemma {:induction false} CommonIsLongest(a: seq<int>, b: seq<int>, n: nat)
    requires IsCommonPrefix(a, b, n)
    ensures forall m :: 0 <= m <= |a| && m <= |b| && a[..m] == b[..m] ==> m <= n
  {
    forall m | n < m <= |a| && m <= |b|
      ensures a[..m] != b[..m]
    {
      assert a[..m][n] != b[..m][n];
    }
  }

  lemma {:induction false} LongestIsHeld(held: seq<seq<int>>, tokens: seq<int>, startIndex: nat, current: nat, own: nat, other: nat)
    requires |held| == 2 && current < 2 && startIndex < |tokens|
    requires IsCommonPrefix(held[current], tokens, own) && IsCommonPrefix(held[1 - current], tokens, other)
    ensures Min(own, startIndex) <= |held[current]| && held[current][..Min(own, startIndex)] == tokens[..Min(own, startIndex)]
    ensures Min(other, startIndex) <= |held[1 - current]| && held[1 - current][..Min(other, startIndex)] == tokens[..Min(other, startIndex)]
    ensures LongestHeld(held, tokens, startIndex, Min(if other > own then other else own, startIndex))
  {
    CommonIsLongest(held[current], tokens, own);
    CommonIsLongest(held[1 - current], tokens, other);
    CommonShortens(held[current], tokens, own, Min(own, startIndex));
    CommonShortens(held[1 - current], tokens, other, Min(other, startIndex));
  }

  lemma {:induction false} CommonShortens(a: seq<int>, b: seq<int>, n: nat, m: nat)
    requires IsCommonPrefix(a, b, n) && m <= n
    ensures a[..m] == b[..m]
  {
    assert a[..m] == a[..n][..m] && b[..m] == b[..n][..m];
  }

  /** Cutting a store behind a common prefix leaves the store of that prefix. */
  lemma {:induction false} PrefixKept(held: seq<int>, tokens: seq<int>, n: nat)
    requires n <= |held| && n <= |tokens| && held[..n] == tokens[..n]
    ensures Removed(CellsOf(held), n) == CellsOf(tokens[..n])
  {
    hide CellsOf;
    forall p: nat | p < n
      ensures held[p] == tokens[p]
    {
      assert held[..n][p] == tokens[..n][p];
    }
  }
}
