/** What a rating means: which token stops it, and what it then asks for (`evaluate_candidate_tokens`
    in `zenz.rs`). */
module RatingMeanings {
  import opened Wrappers
  import opened Numbers
  import opened Bytes
  import opened Evaluations

  // ----- what is said of one token -----

  /** The first of the largest numbers. */
  ghost predicate IsBest(row: seq<real>, m: nat) {
    m < |row| && forall i :: 0 <= i < |row| ==> row[i] <= row[m] && (i < m ==> row[i] < row[m])
  }

  /** Rows fit the tokens they rate. */
  ghost predicate Complete(model: LanguageModel, rows: Rows) {
    model.vocabularySize > 0 && rows.addressed <= |rows.tokens|
    && |rows.logits| == (|rows.tokens| - rows.addressed) * model.vocabularySize
  }

  /** The row a token is rated by. */
  function RatedRow(model: LanguageModel, rows: Rows, i: nat): (r: seq<real>)
    requires Complete(model, rows) && rows.addressed <= i < |rows.tokens|
    ensures |r| == model.vocabularySize
  {
    RowFits(model.vocabularySize, i - rows.addressed, |rows.tokens| - rows.addressed);
    PersonalizedLength(model, RowAt(model, rows, i), rows.tokens[..i], rows.mode);
    Personalized(model, RowAt(model, rows, i), rows.tokens[..i], rows.mode)
  }

  /** Personal probabilities count, and there are any. */
  ghost predicate IsPersonal(mode: Option<Personalization>, prefix: seq<int>, size: nat, base: seq<real>, personal: seq<real>) {
    && mode.Some? && mode.value.alpha > 0.0 && prefix != []
    && mode.value.base(prefix, size) == Some(base) && mode.value.personal(prefix, size) == Some(personal)
    && |base| == |personal| == size
  }

  /** Every number of a token's row: the model's own, moved by how much more likely the personal
      model finds the token than the base model, if there are both. */
  lemma {:induction false} RatedRowMeans(model: LanguageModel, rows: Rows, i: nat, t: nat)
    requires Complete(model, rows) && rows.addressed <= i < |rows.tokens| && t < model.vocabularySize
    ensures var at := (i - rows.addressed) * model.vocabularySize + t;
            && 0 <= at < |rows.logits|
            && (forall base, personal :: IsPersonal(rows.mode, rows.tokens[..i], model.vocabularySize, base, personal) ==>
                  RatedRow(model, rows, i)[t]
                  == rows.logits[at] + rows.mode.value.alpha * (model.ln(personal[t] + 0.0000001) - model.ln(base[t] + 0.0000001)))
            && ((forall base, personal :: !IsPersonal(rows.mode, rows.tokens[..i], model.vocabularySize, base, personal)) ==>
                  RatedRow(model, rows, i)[t] == rows.logits[at])
  {
    RowFits(model.vocabularySize, i - rows.addressed, |rows.tokens| - rows.addressed);
    var raw, prefix, mode := RowAt(model, rows, i), rows.tokens[..i], rows.mode;
    if mode.Some? && mode.value.alpha > 0.0 && prefix != [] && mode.value.base(prefix, |raw|).Some? && mode.value.personal(prefix, |raw|).Some? {
      var base, personal := mode.value.base(prefix, |raw|).value, mode.value.personal(prefix, |raw|).value;
      if |base| == |raw| && |personal| == |raw| {
        assert IsPersonal(mode, prefix, model.vocabularySize, base, personal);
      }
    }
  }

  /** The row behind a token is what the model predicts after the prompt and all tokens before it,
      if the model's rows are predictions. */
  lemma {:induction false} RowsArePredictions(model: LanguageModel, predict: seq<int> -> seq<real>, prompt: seq<int>, rows: Rows, i: nat)
    requires Complete(model, rows) && rows.addressed <= i < |rows.tokens| && prompt != []
    requires forall s :: |predict(s)| == model.vocabularySize
    requires rows.logits == Predictions(predict, prompt + rows.tokens[..|rows.tokens| - 1], |prompt| - 1 + rows.addressed)
    ensures RowAt(model, rows, i) == predict(prompt + rows.tokens[..i])
  {
    var all := prompt + rows.tokens[..|rows.tokens| - 1];
    PredictedRow(predict, all, |prompt| - 1 + rows.addressed, i - rows.addressed, model.vocabularySize);
    assert all[..|prompt| + i] == prompt + rows.tokens[..i];
  }

  /** One row for each token from a position on, what follows it. */
  function Predictions(predict: seq<int> -> seq<real>, tokens: seq<int>, from: nat): seq<real>
    decreases |tokens| - from
  {
    if from >= |tokens| then [] else predict(tokens[..from + 1]) + Predictions(predict, tokens, from + 1)
  }

  lemma {:induction false} PredictedRow(predict: seq<int> -> seq<real>, tokens: seq<int>, from: nat, k: nat, size: nat)
    requires from + k < |tokens| && forall s :: |predict(s)| == size
    ensures |Predictions(predict, tokens, from)| == (|tokens| - from) * size
    ensures k * size <= (k + 1) * size <= |Predictions(predict, tokens, from)|
    ensures Predictions(predict, tokens, from)[k * size..(k + 1) * size] == predict(tokens[..from + k + 1])
    decreases |tokens| - from
  {
    var rest := Predictions(predict, tokens, from + 1);
    RowFits(size, k, |tokens| - from);
    assert (|tokens| - from) * size == size + (|tokens| - (from + 1)) * size;
    PredictionsLength(predict, tokens, from + 1, size);
    if k > 0 {
      PredictedRow(predict, tokens, from + 1, k - 1, size);
      assert k * size == size + (k - 1) * size;
      var first := predict(tokens[..from + 1]);
      assert (first + rest)[k * size..(k + 1) * size] == rest[(k - 1) * size..k * size];
    } else {
      assert (predict(tokens[..from + 1]) + rest)[0..size] == predict(tokens[..from + 1]);
    }
  }

  lemma {:induction false} PredictionsLength(predict: seq<int> -> seq<real>, tokens: seq<int>, from: nat, size: nat)
    requires from <= |tokens| && forall s :: |predict(s)| == size
    ensures |Predictions(predict, tokens, from)| == (|tokens| - from) * size
    decreases |tokens| - from
  {
    if from < |tokens| {
      PredictionsLength(predict, tokens, from + 1, size);
      assert (|tokens| - from) * size == size + (|tokens| - (from + 1)) * size;
    }
  }

  /** The bytes that tokens stand for, one after the other. */
  ghost predicate Spells(model: LanguageModel, tokens: seq<int>, bytes: seq<byte>) {
    if tokens == [] then bytes == []
    else
      var piece := model.piece(tokens[0]);
      piece.Ok? && piece.value <= bytes && Spells(model, tokens[1..], bytes[|piece.value|..])
  }

  /** Learning saves a token from a better one. */
  ghost predicate IsSaved(rows: Rows, row: seq<real>, i: nat, t: nat, m: nat)
    requires t < |row| && m < |row|
  {
    i < |rows.priorities| && rows.priorities[i] != 0.0 && row[t] + rows.priorities[i] > row[m]
  }

  ghost predicate IsToken(model: LanguageModel, t: int) {
    0 <= t < model.vocabularySize
  }

  /** The token is the best one, or its priority saves it from a better one that is not the end. */
  ghost predicate IsAccepted(model: LanguageModel, rows: Rows, i: nat)
    requires Complete(model, rows) && rows.addressed <= i < |rows.tokens|
  {
    var t, row := rows.tokens[i], RatedRow(model, rows, i);
    IsToken(model, t)
    && exists m: nat :: IsBest(row, m) && (m == t || (m != model.eosToken && IsSaved(rows, row, i, t, m)))
  }

  /** The three best tokens of a row. */
  function TopThree(row: seq<real>): (r: seq<nat>)
    ensures forall k :: 0 <= k < |r| ==> r[k] < |row|
  {
    Truncated(Ranked(row, |row|), 3)
  }

  /** The pieces needed behind an accepted token can be read. */
  ghost predicate IsReadable(model: LanguageModel, rows: Rows, i: nat)
    requires Complete(model, rows) && rows.addressed <= i < |rows.tokens|
  {
    var row := RatedRow(model, rows, i);
    && IsToken(model, rows.tokens[i]) && model.piece(rows.tokens[i]).Ok?
    && (rows.rich && IsBest(row, rows.tokens[i]) ==> forall t :: t in TopThree(row) && t != rows.tokens[i] ==> model.piece(t).Ok?)
  }

  ghost predicate GoesOn(model: LanguageModel, rows: Rows, i: nat)
    requires Complete(model, rows) && rows.addressed <= i < |rows.tokens|
  {
    IsAccepted(model, rows, i) && IsReadable(model, rows, i)
  }

  ghost predicate AllGoOn(model: LanguageModel, rows: Rows, from: nat, end: nat)
    requires Complete(model, rows) && rows.addressed <= from <= end <= |rows.tokens|
  {
    forall i :: from <= i < end ==> GoesOn(model, rows, i)
  }

  /** The token is beaten by another one that is not the end, and not saved. */
  ghost predicate AsksFor(model: LanguageModel, rows: Rows, i: nat, bytes: seq<byte>)
    requires Complete(model, rows) && rows.addressed <= i < |rows.tokens|
  {
    var t, row := rows.tokens[i], RatedRow(model, rows, i);
    IsToken(model, t)
    && exists m: nat, earlier: seq<byte> ::
         && IsBest(row, m) && m != t && m != model.eosToken && !IsSaved(rows, row, i, t, m)
         && Spells(model, rows.tokens[..i], earlier) && model.piece(m).Ok? && bytes == earlier + model.piece(m).value
  }

  /** The best token is the end, and the candidate goes on with another one. */
  ghost predicate EndsBefore(model: LanguageModel, rules: TextRules, rows: Rows, i: nat, text: Utf8)
    requires Complete(model, rows) && rows.addressed <= i < |rows.tokens|
  {
    var t, row := rows.tokens[i], RatedRow(model, rows, i);
    IsToken(model, t)
    && exists m: nat, earlier: seq<byte> ::
         && IsBest(row, m) && m != t && m == model.eosToken
         && Spells(model, rows.tokens[..i], earlier) && text == if rules.isUtf8(earlier) then earlier else []
  }

  // ----- one row -----

  lemma {:induction false} OneBest(row: seq<real>, a: nat, b: nat)
    requires IsBest(row, a) && IsBest(row, b)
    ensures a == b
  {
    assert row[a] == row[b];
  }

  lemma {:induction false} OneSpelling(model: LanguageModel, tokens: seq<int>, a: seq<byte>, b: seq<byte>)
    requires Spells(model, tokens, a) && Spells(model, tokens, b)
    ensures a == b
  {
    if tokens != [] {
      var n := |model.piece(tokens[0]).value|;
      OneSpelling(model, tokens[1..], a[n..], b[n..]);
      assert a == a[..n] + a[n..] && b == b[..n] + b[n..];
    }
  }

  lemma {:induction false} SpellsOneMore(model: LanguageModel, tokens: seq<int>, bytes: seq<byte>, last: int)
    requires Spells(model, tokens, bytes) && model.piece(last).Ok?
    ensures Spells(model, tokens + [last], bytes + model.piece(last).value)
  {
    var piece := model.piece(last).value;
    if tokens == [] {
      assert [] + [last] == [last] && [] + piece == piece;
      assert piece[|piece|..] == [] && [last][1..] == [];
    } else {
      var n := |model.piece(tokens[0]).value|;
      SpellsOneMore(model, tokens[1..], bytes[n..], last);
      assert (tokens + [last])[1..] == tokens[1..] + [last];
      assert (bytes + piece)[n..] == bytes[n..] + piece;
    }
  }

  lemma {:induction false} PiecesSpell(model: LanguageModel, tokens: seq<int>)
    ensures Pieces(model, tokens).Ok? ==> Spells(model, tokens, Pieces(model, tokens).value)
  {
    if tokens != [] {
      var init := tokens[..|tokens| - 1];
      PiecesSpell(model, init);
      assert tokens == init + [tokens[|tokens| - 1]];
      if Pieces(model, tokens).Ok? {
        SpellsOneMore(model, init, Pieces(model, init).value, tokens[|tokens| - 1]);
      }
    }
  }

  lemma {:induction false} AlternativesReadable(model: LanguageModel, row: seq<real>, maximum: nat, prefix: seq<byte>, tokens: seq<nat>)
    requires maximum < |row| && forall i :: 0 <= i < |tokens| ==> tokens[i] < |row|
    ensures AlternativesFor(model, row, maximum, prefix, tokens).Ok? <==> forall t :: t in tokens && t != maximum ==> model.piece(t).Ok?
  {
    if tokens != [] {
      var init := tokens[..|tokens| - 1];
      AlternativesReadable(model, row, maximum, prefix, init);
      assert tokens == init + [tokens[|tokens| - 1]];
    }
  }

  lemma {:induction false} BestIsFound(row: seq<real>)
    requires |row| > 0
    ensures IsBest(row, StrictArgmax(row, |row|))
    ensures forall m: nat :: IsBest(row, m) ==> m == StrictArgmax(row, |row|)
  {
    forall m: nat | IsBest(row, m)
      ensures m == StrictArgmax(row, |row|)
    {
      OneBest(row, m, StrictArgmax(row, |row|));
    }
  }

  lemma {:induction false} AcceptedExactly(model: LanguageModel, rows: Rows, i: nat)
    requires Complete(model, rows) && rows.addressed <= i < |rows.tokens|
    ensures var t, row := rows.tokens[i], RatedRow(model, rows, i);
            var m := StrictArgmax(row, |row|);
            IsAccepted(model, rows, i) <==> IsToken(model, t) && (m == t || (m != model.eosToken && IsSaved(rows, row, i, t, m)))
  {
    hide RatedRow, IsBest, IsSaved, StrictArgmax;
    BestIsFound(RatedRow(model, rows, i));
  }

  lemma {:induction false} AsksExactly(model: LanguageModel, rows: Rows, i: nat, earlier: seq<byte>, bytes: seq<byte>)
    requires Complete(model, rows) && rows.addressed <= i < |rows.tokens| && Spells(model, rows.tokens[..i], earlier)
    ensures var t, row := rows.tokens[i], RatedRow(model, rows, i);
            var m := StrictArgmax(row, |row|);
            AsksFor(model, rows, i, bytes) <==>
              && IsToken(model, t) && m != t && m != model.eosToken && !IsSaved(rows, row, i, t, m)
              && model.piece(m).Ok? && bytes == earlier + model.piece(m).value
  {
    hide RatedRow, IsBest, IsSaved, StrictArgmax, Spells;
    BestIsFound(RatedRow(model, rows, i));
    forall other | Spells(model, rows.tokens[..i], other)
      ensures other == earlier
    {
      OneSpelling(model, rows.tokens[..i], other, earlier);
    }
  }

  lemma {:induction false} EndsExactly(model: LanguageModel, rules: TextRules, rows: Rows, i: nat, earlier: seq<byte>, text: Utf8)
    requires Complete(model, rows) && rows.addressed <= i < |rows.tokens| && Spells(model, rows.tokens[..i], earlier)
    ensures var t, row := rows.tokens[i], RatedRow(model, rows, i);
            var m := StrictArgmax(row, |row|);
            EndsBefore(model, rules, rows, i, text) <==>
              IsToken(model, t) && m != t && m == model.eosToken && text == if rules.isUtf8(earlier) then earlier else []
  {
    hide RatedRow, IsBest, StrictArgmax, Spells;
    BestIsFound(RatedRow(model, rows, i));
    forall other | Spells(model, rows.tokens[..i], other)
      ensures other == earlier
    {
      OneSpelling(model, rows.tokens[..i], other, earlier);
    }
  }

  /** Behind an accepted token the loop goes on, and exactly there. */
  lemma {:induction false} RowGoesOn(model: LanguageModel, rules: TextRules, rows: Rows, i: nat, p: Progress)
    requires Complete(model, rows) && rows.addressed <= i < |rows.tokens|
    ensures EvaluateRow(model, rules, rows, i, p).Go? <==> GoesOn(model, rows, i)
    ensures match EvaluateRow(model, rules, rows, i, p)
            case Go(next) =>
              var row := RatedRow(model, rows, i);
              && model.piece(rows.tokens[i]).Ok? && next.prefix == p.prefix + model.piece(rows.tokens[i]).value
              && next.score == p.score + row[StrictArgmax(row, |row|)]
            case Stop(result) => !(result.Ok? && result.value.Pass?)
  {
    hide RowAt, Personalized, Ranked, AlternativesFor, Truncated, IsAccepted, IsBest;
    var row := RatedRow(model, rows, i);
    AcceptedExactly(model, rows, i);
    BestIsFound(row);
    AlternativesReadable(model, row, StrictArgmax(row, |row|), p.prefix, TopThree(row));
  }

  /** Where it stops, it asks for what beats the token, or ends, or fails. */
  lemma {:induction false} RowStops(model: LanguageModel, rules: TextRules, rows: Rows, i: nat, p: Progress, bytes: seq<byte>, text: Utf8)
    requires Complete(model, rows) && rows.addressed <= i < |rows.tokens| && Spells(model, rows.tokens[..i], p.prefix)
    ensures EvaluateRow(model, rules, rows, i, p) == Stop(Ok(FixRequired(bytes))) <==> AsksFor(model, rows, i, bytes)
    ensures EvaluateRow(model, rules, rows, i, p) == Stop(Ok(WholeResult(text))) <==> EndsBefore(model, rules, rows, i, text)
  {
    hide RowAt, Personalized, Ranked, AlternativesFor, Truncated, AsksFor, EndsBefore, Spells;
    AsksExactly(model, rows, i, p.prefix, bytes);
    EndsExactly(model, rules, rows, i, p.prefix, text);
  }

  // ----- whole runs -----

  function RatingOf(model: LanguageModel, rules: TextRules, rows: Rows, prefix: seq<byte>): Result<Evaluation, InferenceError>
    requires Complete(model, rows)
  {
    EvaluateFrom(model, rules, rows, rows.addressed, Progress(prefix, 0.0, []))
  }

  /** The sum of the largest numbers of the rows from a position on. */
  function BestScores(model: LanguageModel, rows: Rows, from: nat): real
    requires Complete(model, rows) && rows.addressed <= from <= |rows.tokens|
    decreases |rows.tokens| - from
  {
    if from == |rows.tokens| then 0.0
    else RatedRow(model, rows, from)[StrictArgmax(RatedRow(model, rows, from), model.vocabularySize)] + BestScores(model, rows, from + 1)
  }

  lemma {:induction false} StartsGoOn(model: LanguageModel, rows: Rows, from: nat)
    requires Complete(model, rows) && rows.addressed <= from < |rows.tokens|
    ensures forall k :: from < k <= |rows.tokens| ==>
              (AllGoOn(model, rows, from, k) <==> GoesOn(model, rows, from) && AllGoOn(model, rows, from + 1, k))
  {
    hide GoesOn;
  }

  /** From any token on. */
  lemma {:induction false} RunMeans(model: LanguageModel, rules: TextRules, rows: Rows, from: nat, p: Progress, bytes: seq<byte>, text: Utf8)
    requires Complete(model, rows) && rows.addressed <= from <= |rows.tokens| && Spells(model, rows.tokens[..from], p.prefix)
    ensures var result := EvaluateFrom(model, rules, rows, from, p);
            && (result == Ok(FixRequired(bytes)) <==>
                  exists k :: from <= k < |rows.tokens| && AllGoOn(model, rows, from, k) && AsksFor(model, rows, k, bytes))
            && (result == Ok(WholeResult(text)) <==>
                  exists k :: from <= k < |rows.tokens| && AllGoOn(model, rows, from, k) && EndsBefore(model, rules, rows, k, text))
            && (result.Ok? && result.value.Pass? <==> AllGoOn(model, rows, from, |rows.tokens|))
            && (result.Ok? && result.value.Pass? ==> result.value.score == p.score + BestScores(model, rows, from))
    decreases |rows.tokens| - from
  {
    hide AllGoOn, GoesOn, AsksFor, EndsBefore, EvaluateRow, Spells, RatedRow, StrictArgmax;
    if from == |rows.tokens| {
      NothingLeft(model, rows);
    } else {
      StartsGoOn(model, rows, from);
      RowGoesOn(model, rules, rows, from, p);
      RowStops(model, rules, rows, from, p, bytes, text);
      NothingBefore(model, rows, from);
      match EvaluateRow(model, rules, rows, from, p) {
        case Go(next) =>
          SpellsOneMore(model, rows.tokens[..from], p.prefix, rows.tokens[from]);
          assert rows.tokens[..from + 1] == rows.tokens[..from] + [rows.tokens[from]];
          RunMeans(model, rules, rows, from + 1, next, bytes, text);
        case Stop(_) =>
          assert !GoesOn(model, rows, from);
      }
    }
  }

  lemma {:induction false} NothingLeft(model: LanguageModel, rows: Rows)
    requires Complete(model, rows)
    ensures AllGoOn(model, rows, |rows.tokens|, |rows.tokens|)
  {
  }

  lemma {:induction false} NothingBefore(model: LanguageModel, rows: Rows, from: nat)
    requires Complete(model, rows) && rows.addressed <= from < |rows.tokens|
    ensures AllGoOn(model, rows, from, from)
  {
  }

  /** A rating asks for another text exactly if a token is beaten and not saved, all before it being
      accepted: for the text before that token and the piece of the best token there. */
  lemma {:induction false} FixRequiredExactly(model: LanguageModel, rules: TextRules, rows: Rows, prefix: seq<byte>, bytes: seq<byte>)
    requires Complete(model, rows) && Spells(model, rows.tokens[..rows.addressed], prefix)
    ensures RatingOf(model, rules, rows, prefix) == Ok(FixRequired(bytes)) <==>
            exists k :: rows.addressed <= k < |rows.tokens| && AllGoOn(model, rows, rows.addressed, k) && AsksFor(model, rows, k, bytes)
  {
    hide AllGoOn, AsksFor, Spells, EvaluateFrom;
    RunMeans(model, rules, rows, rows.addressed, Progress(prefix, 0.0, []), bytes, []);
  }

  /** A rating takes the text before a token for the whole result exactly if the model would end
      there, all tokens before being accepted. */
  lemma {:induction false} WholeResultExactly(model: LanguageModel, rules: TextRules, rows: Rows, prefix: seq<byte>, text: Utf8)
    requires Complete(model, rows) && Spells(model, rows.tokens[..rows.addressed], prefix)
    ensures RatingOf(model, rules, rows, prefix) == Ok(WholeResult(text)) <==>
            exists k :: rows.addressed <= k < |rows.tokens| && AllGoOn(model, rows, rows.addressed, k) && EndsBefore(model, rules, rows, k, text)
  {
    hide AllGoOn, EndsBefore, Spells, EvaluateFrom;
    RunMeans(model, rules, rows, rows.addressed, Progress(prefix, 0.0, []), [], text);
  }

  /** A candidate passes exactly if every token is accepted, with the sum of the best numbers. */
  lemma {:induction false} PassExactly(model: LanguageModel, rules: TextRules, rows: Rows, prefix: seq<byte>)
    requires Complete(model, rows) && Spells(model, rows.tokens[..rows.addressed], prefix)
    ensures var result := RatingOf(model, rules, rows, prefix);
            && (result.Ok? && result.value.Pass? <==> AllGoOn(model, rows, rows.addressed, |rows.tokens|))
            && (result.Ok? && result.value.Pass? ==> result.value.score == BestScores(model, rows, rows.addressed))
  {
    hide AllGoOn, BestScores, Spells, EvaluateFrom;
    RunMeans(model, rules, rows, rows.addressed, Progress(prefix, 0.0, []), [], []);
  }

  /** Where a rating fails, some token is no token, or a piece that is needed cannot be read. */
  lemma {:induction false} FailsOnlyUnreadable(model: LanguageModel, rules: TextRules, rows: Rows, prefix: seq<byte>)
    requires Complete(model, rows) && Spells(model, rows.tokens[..rows.addressed], prefix)
    requires forall i :: 0 <= i < |rows.tokens| ==> IsToken(model, rows.tokens[i])
    requires forall t :: 0 <= t < model.vocabularySize ==> model.piece(t).Ok?
    ensures RatingOf(model, rules, rows, prefix).Ok?
  {
    RunIsReadable(model, rules, rows, rows.addressed, Progress(prefix, 0.0, []));
  }

  lemma {:induction false} RunIsReadable(model: LanguageModel, rules: TextRules, rows: Rows, from: nat, p: Progress)
    requires Complete(model, rows) && rows.addressed <= from <= |rows.tokens|
    requires forall i :: 0 <= i < |rows.tokens| ==> IsToken(model, rows.tokens[i])
    requires forall t :: 0 <= t < model.vocabularySize ==> model.piece(t).Ok?
    ensures EvaluateFrom(model, rules, rows, from, p).Ok?
    decreases |rows.tokens| - from
  {
    hide RowAt, Personalized, Ranked, AlternativesFor, Truncated;
    if from < |rows.tokens| {
      var row := RatedRow(model, rows, from);
      AlternativesReadable(model, row, StrictArgmax(row, |row|), p.prefix, TopThree(row));
      match EvaluateRow(model, rules, rows, from, p)
      case Go(next) => RunIsReadable(model, rules, rows, from + 1, next);
      case Stop(_) =>
    }
  }

  // ----- learned words -----

  /** How many tokens the first words have. */
  function TokensBefore(model: LanguageModel, rules: TextRules, entries: seq<WordEntry>, n: nat): nat
    requires n <= |entries|
  {
    if n == 0 then 0
    else
      TokensBefore(model, rules, entries, n - 1)
      + match model.tokenize(rules.normalize(entries[n - 1].word), false) case Ok(tokens) => |tokens| case Err(_) => 0
  }

  /** The tokens of a learned word have the logarithm of its priority, those of other words none. */
  lemma {:induction false} WordPriorityMeans(model: LanguageModel, rules: TextRules, entries: seq<WordEntry>, n: nat, w: nat, j: nat)
    requires w < n <= |entries| && WordPriorities(model, rules, entries, n).Ok?
    ensures |WordPriorities(model, rules, entries, n).value| == TokensBefore(model, rules, entries, n)
    ensures model.tokenize(rules.normalize(entries[w].word), false).Ok?
    ensures j < |model.tokenize(rules.normalize(entries[w].word), false).value| ==>
              var at := TokensBefore(model, rules, entries, w) + j;
              && at < |WordPriorities(model, rules, entries, n).value|
              && WordPriorities(model, rules, entries, n).value[at]
                 == if entries[w].learned then model.ln(LearningPriority(rules, entries[w].ruby) as real) else 0.0
  {
    hide LearningPriority;
    PrioritiesFit(model, rules, entries, n - 1);
    if w < n - 1 {
      WordPriorityMeans(model, rules, entries, n - 1, w, j);
    }
  }

  lemma {:induction false} PrioritiesFit(model: LanguageModel, rules: TextRules, entries: seq<WordEntry>, n: nat)
    requires n <= |entries| && WordPriorities(model, rules, entries, n).Ok?
    ensures |WordPriorities(model, rules, entries, n).value| == TokensBefore(model, rules, entries, n)
  {
    hide LearningPriority;
    if n > 0 {
      PrioritiesFit(model, rules, entries, n - 1);
    }
  }

  /** Without a learned word there are no priorities. */
  lemma {:induction false} NoPriorities(model: LanguageModel, rules: TextRules, entries: seq<WordEntry>)
    ensures (forall e :: e in entries ==> !e.learned) ==> LearnedPriorities(model, rules, entries) == Ok([])
    ensures (exists e :: e in entries && e.learned) ==> LearnedPriorities(model, rules, entries) == WordPriorities(model, rules, entries, |entries|)
  {
    hide WordPriorities;
    if e :| e in entries && e.learned {
      var i :| 0 <= i < |entries| && entries[i] == e;
    }
  }

  /** Longer readings have a higher priority, from three to thirty. */
  lemma {:induction false} PriorityNumbers(rules: TextRules, ruby: Utf8)
    ensures var n, priority := |rules.graphemes(ruby)|, LearningPriority(rules, ruby);
            && (n == 1 ==> priority == 3) && (n == 4 ==> priority == 6) && (n == 5 ==> priority == 10)
            && (n == 15 ==> priority == 30) && (n == 0 || n > 15 ==> priority == 30)
            && (n > 0 ==> 3 <= priority <= 30)
    ensures forall other :: 0 < |rules.graphemes(ruby)| <= |rules.graphemes(other)| ==> LearningPriority(rules, ruby) <= LearningPriority(rules, other)
  {
  }

  // ----- alternatives -----

  /** A token comes before another one: a larger number, or the same and an earlier place. */
  predicate RanksBefore(row: seq<real>, a: nat, b: nat)
    requires a < |row| && b < |row|
  {
    row[a] > row[b] || (row[a] == row[b] && a < b)
  }

  /** Every token once, by rank. */
  lemma {:induction false} RankedMeans(row: seq<real>, n: nat)
    requires n <= |row|
    ensures |Ranked(row, n)| == n && forall t: nat :: t in Ranked(row, n) <==> t < n
    ensures forall i, j :: 0 <= i < j < n ==> RanksBefore(row, Ranked(row, n)[i], Ranked(row, n)[j])
  {
    if n > 0 {
      RankedMeans(row, n - 1);
      InsertedRanked(row, Ranked(row, n - 1), n - 1);
    }
  }

  lemma {:induction false} InsertedRanked(row: seq<real>, ranked: seq<nat>, token: nat)
    requires token < |row| && forall i :: 0 <= i < |ranked| ==> ranked[i] < token
    requires forall i, j :: 0 <= i < j < |ranked| ==> RanksBefore(row, ranked[i], ranked[j])
    ensures |InsertRanked(row, ranked, token)| == |ranked| + 1
    ensures forall t :: t in InsertRanked(row, ranked, token) <==> t in ranked || t == token
    ensures forall i, j :: 0 <= i < j <= |ranked| ==>
              RanksBefore(row, InsertRanked(row, ranked, token)[i], InsertRanked(row, ranked, token)[j])
    decreases |ranked|
  {
    if ranked == [] || row[ranked[|ranked| - 1]] >= row[token] {
    } else {
      var init, last := ranked[..|ranked| - 1], ranked[|ranked| - 1];
      InsertedRanked(row, init, token);
      var inner := InsertRanked(row, init, token);
      assert ranked == init + [last];
      forall i | 0 <= i < |inner|
        ensures RanksBefore(row, inner[i], last)
      {
        assert inner[i] in inner;
        if inner[i] != token {
          var k :| 0 <= k < |init| && init[k] == inner[i];
          assert RanksBefore(row, ranked[k], ranked[|ranked| - 1]);
        }
      }
    }
  }

  lemma {:induction false} BestRanksFirst(row: seq<real>)
    requires |row| > 0
    ensures Ranked(row, |row|)[0] == StrictArgmax(row, |row|)
  {
    RankedMeans(row, |row|);
    var ranked, m := Ranked(row, |row|), StrictArgmax(row, |row|);
    assert m in ranked;
    var k :| 0 <= k < |ranked| && ranked[k] == m;
  }

  lemma {:induction false} AlternativesListed(model: LanguageModel, row: seq<real>, maximum: nat, prefix: seq<byte>, tokens: seq<nat>)
    requires maximum < |row| && forall i :: 0 <= i < |tokens| ==> tokens[i] < |row| && tokens[i] != maximum
    requires AlternativesFor(model, row, maximum, prefix, tokens).Ok?
    ensures var r := AlternativesFor(model, row, maximum, prefix, tokens).value;
            && |r| == |tokens|
            && forall i :: 0 <= i < |r| ==>
                 model.piece(tokens[i]).Ok?
                 && r[i] == Alternative(model.exp(row[tokens[i]] - row[maximum]), prefix + model.piece(tokens[i]).value)
  {
    if tokens != [] {
      AlternativesListed(model, row, maximum, prefix, tokens[..|tokens| - 1]);
    }
  }

  lemma {:induction false} MaximumSkipped(model: LanguageModel, row: seq<real>, maximum: nat, prefix: seq<byte>, tokens: seq<nat>)
    requires maximum < |row| && forall i :: 0 <= i < |tokens| ==> tokens[i] < |row|
    requires tokens != [] && tokens[0] == maximum
    ensures AlternativesFor(model, row, maximum, prefix, tokens) == AlternativesFor(model, row, maximum, prefix, tokens[1..])
  {
    if |tokens| > 1 {
      MaximumSkipped(model, row, maximum, prefix, tokens[..|tokens| - 1]);
      assert tokens[..|tokens| - 1][1..] == tokens[1..][..|tokens[1..]| - 1];
    } else {
      assert tokens[..0] == [];
    }
  }

  /** What the runners-up of a row would continue with: the second and third by rank, each with how
      likely it is, measured by the best, and with the text before it. */
  lemma {:induction false} RunnersUp(model: LanguageModel, row: seq<real>, prefix: seq<byte>)
    requires |row| > 0 && AlternativesFor(model, row, StrictArgmax(row, |row|), prefix, TopThree(row)).Ok?
    ensures |Ranked(row, |row|)| == |row|
    ensures var r := AlternativesFor(model, row, StrictArgmax(row, |row|), prefix, TopThree(row)).value;
            var ranked := Ranked(row, |row|);
            && |r| == Min(3, |row|) - 1
            && forall i :: 0 <= i < |r| ==>
                 && IsBest(row, ranked[0]) && model.piece(ranked[i + 1]).Ok?
                 && r[i] == Alternative(model.exp(row[ranked[i + 1]] - row[ranked[0]]), prefix + model.piece(ranked[i + 1]).value)
  {
    hide Ranked, AlternativesFor, StrictArgmax;
    RankedMeans(row, |row|);
    BestRanksFirst(row);
    var m, top := StrictArgmax(row, |row|), TopThree(row);
    MaximumSkipped(model, row, m, prefix, top);
    forall i | 1 <= i < |top|
      ensures top[i] != m
    {
      assert RanksBefore(row, Ranked(row, |row|)[0], Ranked(row, |row|)[i]);
    }
    AlternativesListed(model, row, m, prefix, top[1..]);
    BestIsFound(row);
  }

  /** The alternatives met from a token on, if all tokens are accepted. */
  function AlternativesFrom(model: LanguageModel, rows: Rows, from: nat, prefix: seq<byte>): seq<Alternative>
    requires Complete(model, rows) && rows.addressed <= from <= |rows.tokens|
    decreases |rows.tokens| - from
  {
    if from == |rows.tokens| || model.piece(rows.tokens[from]).Err? then []
    else
      var row := RatedRow(model, rows, from);
      var m := StrictArgmax(row, |row|);
      var here := AlternativesFor(model, row, m, prefix, TopThree(row));
      (if rows.rich && rows.tokens[from] == m && here.Ok? then here.value else [])
      + AlternativesFrom(model, rows, from + 1, prefix + model.piece(rows.tokens[from]).value)
  }

  lemma {:induction false} CollectsAlternatives(model: LanguageModel, rules: TextRules, rows: Rows, from: nat, p: Progress)
    requires Complete(model, rows) && rows.addressed <= from <= |rows.tokens|
    requires EvaluateFrom(model, rules, rows, from, p).Ok? && EvaluateFrom(model, rules, rows, from, p).value.Pass?
    ensures EvaluateFrom(model, rules, rows, from, p).value.alternatives
            == Truncated(SortByRatio(p.alternatives + AlternativesFrom(model, rows, from, p.prefix)), 5)
    decreases |rows.tokens| - from
  {
    hide RowAt, Personalized, Ranked, AlternativesFor, Truncated, StrictArgmax, SortByRatio;
    if from == |rows.tokens| {
      assert p.alternatives + [] == p.alternatives;
    } else {
      RowGoesOn(model, rules, rows, from, p);
      match EvaluateRow(model, rules, rows, from, p)
      case Go(next) =>
        CollectsAlternatives(model, rules, rows, from + 1, next);
        var rest := AlternativesFrom(model, rows, from + 1, next.prefix);
        assert next.alternatives + rest == p.alternatives + AlternativesFrom(model, rows, from, p.prefix);
      case Stop(_) =>
    }
  }

  /** The alternatives with one ratio, in order. */
  function WithRatio(alternatives: seq<Alternative>, ratio: real): seq<Alternative> {
    if alternatives == [] then []
    else
      var last := alternatives[|alternatives| - 1];
      WithRatio(alternatives[..|alternatives| - 1], ratio) + if last.probabilityRatio == ratio then [last] else []
  }

  ghost predicate LikeliestFirst(alternatives: seq<Alternative>) {
    forall i, j :: 0 <= i < j < |alternatives| ==> alternatives[i].probabilityRatio >= alternatives[j].probabilityRatio
  }

  lemma {:induction false} InsertedLikeliestFirst(alternatives: seq<Alternative>, a: Alternative)
    requires LikeliestFirst(alternatives)
    ensures LikeliestFirst(InsertByRatio(alternatives, a))
    ensures forall x :: x in InsertByRatio(alternatives, a) ==> x in alternatives || x == a
  {
    if alternatives != [] && alternatives[|alternatives| - 1].probabilityRatio < a.probabilityRatio {
      var init, last := alternatives[..|alternatives| - 1], alternatives[|alternatives| - 1];
      InsertedLikeliestFirst(init, a);
      var inner := InsertByRatio(init, a);
      forall i | 0 <= i < |inner|
        ensures inner[i].probabilityRatio >= last.probabilityRatio
      {
        assert inner[i] in inner;
      }
    }
  }

  lemma {:induction false} InsertedKeepsAll(alternatives: seq<Alternative>, a: Alternative)
    ensures multiset(InsertByRatio(alternatives, a)) == multiset(alternatives) + multiset{a}
  {
    if alternatives != [] && alternatives[|alternatives| - 1].probabilityRatio < a.probabilityRatio {
      InsertedKeepsAll(alternatives[..|alternatives| - 1], a);
      assert alternatives == alternatives[..|alternatives| - 1] + [alternatives[|alternatives| - 1]];
    }
  }

  lemma {:induction false} WithRatioSnoc(alternatives: seq<Alternative>, a: Alternative, ratio: real)
    ensures WithRatio(alternatives + [a], ratio) == WithRatio(alternatives, ratio) + if a.probabilityRatio == ratio then [a] else []
  {
    assert (alternatives + [a])[..|alternatives|] == alternatives;
  }

  lemma {:induction false} InsertedKeepsOrder(alternatives: seq<Alternative>, a: Alternative, ratio: real)
    ensures WithRatio(InsertByRatio(alternatives, a), ratio) == WithRatio(alternatives, ratio) + if a.probabilityRatio == ratio then [a] else []
  {
    hide WithRatio;
    if alternatives == [] || alternatives[|alternatives| - 1].probabilityRatio >= a.probabilityRatio {
      WithRatioSnoc(alternatives, a, ratio);
    } else {
      var init, last := alternatives[..|alternatives| - 1], alternatives[|alternatives| - 1];
      InsertedKeepsOrder(init, a, ratio);
      WithRatioSnoc(InsertByRatio(init, a), last, ratio);
      WithRatioSnoc(init, last, ratio);
      assert alternatives == init + [last];
    }
  }

  /** Sorting keeps all alternatives, the likeliest first, and equal ones in order. */
  lemma {:induction false} SortedByRatio(alternatives: seq<Alternative>, ratio: real)
    ensures LikeliestFirst(SortByRatio(alternatives)) && multiset(SortByRatio(alternatives)) == multiset(alternatives)
    ensures WithRatio(SortByRatio(alternatives), ratio) == WithRatio(alternatives, ratio)
  {
    hide InsertByRatio;
    if alternatives != [] {
      var init, last := alternatives[..|alternatives| - 1], alternatives[|alternatives| - 1];
      SortedByRatio(init, ratio);
      InsertedLikeliestFirst(SortByRatio(init), last);
      InsertedKeepsAll(SortByRatio(init), last);
      InsertedKeepsOrder(SortByRatio(init), last, ratio);
      assert alternatives == init + [last];
    }
  }

  /** A candidate that passes comes with the five likeliest of the alternatives met, or all of them. */
  lemma {:induction false} PassAlternatives(model: LanguageModel, rules: TextRules, rows: Rows, prefix: seq<byte>)
    requires Complete(model, rows) && RatingOf(model, rules, rows, prefix).Ok? && RatingOf(model, rules, rows, prefix).value.Pass?
    ensures var all, chosen := AlternativesFrom(model, rows, rows.addressed, prefix), RatingOf(model, rules, rows, prefix).value.alternatives;
            exists rest ::
              && multiset(chosen) + multiset(rest) == multiset(all) && LikeliestFirst(chosen + rest)
              && |chosen| == Min(5, |all|)
  {
    hide EvaluateFrom, SortByRatio, AlternativesFrom;
    var all := AlternativesFrom(model, rows, rows.addressed, prefix);
    CollectsAlternatives(model, rules, rows, rows.addressed, Progress(prefix, 0.0, []));
    assert [] + all == all;
    SortedByRatio(all, 0.0);
    var sorted := SortByRatio(all);
    var n := Min(5, |sorted|);
    assert sorted == sorted[..n] + sorted[n..];
    assert |sorted| == |multiset(sorted)| == |multiset(all)| == |all|;
  }

  // ----- the whole evaluation -----

  /** With a model that predicts, a candidate is rated token by token behind the prompt, from the
      first token on that is not addressed yet: each by what the model predicts after the prompt
      and all tokens before it. */
  lemma {:induction false} EvaluationRates(model: LanguageModel, rules: TextRules, candidate: Candidate, rich: bool, mode: Option<Personalization>,
                                           prompt: seq<int>, text: Utf8, addressed: nat, predict: seq<int> -> seq<real>,
                                           tokens: seq<int>, priorities: seq<real>, prefix: seq<byte>)
    requires model.vocabularySize > 0 && forall s :: |predict(s)| == model.vocabularySize
    requires forall s, from: nat :: from < |s| ==> model.logits(s, from) == Ok(Predictions(predict, s, from))
    requires model.tokenize(rules.normalize(text), false) == Ok(tokens) && LearnedPriorities(model, rules, candidate.entries) == Ok(priorities)
    requires addressed < |tokens| && prompt != [] && Pieces(model, tokens[..addressed]) == Ok(prefix)
    ensures exists logits ::
              var rows := Rows(tokens, logits, addressed, priorities, rich, mode);
              && Complete(model, rows) && Spells(model, tokens[..addressed], prefix)
              && EvaluateTokens(model, rules, candidate, rich, mode, prompt, text, addressed) == RatingOf(model, rules, rows, prefix)
              && forall i :: addressed <= i < |tokens| ==> RowAt(model, rows, i) == predict(prompt + tokens[..i])
  {
    hide EvaluateFrom, LearnedPriorities, Pieces, Predictions, Spells, RowAt;
    var asked := prompt + tokens[..|tokens| - 1];
    var logits := Predictions(predict, asked, |prompt| - 1 + addressed);
    PredictionsLength(predict, asked, |prompt| - 1 + addressed, model.vocabularySize);
    PiecesSpell(model, tokens[..addressed]);
    var rows := Rows(tokens, logits, addressed, priorities, rich, mode);
    forall i | addressed <= i < |tokens|
      ensures RowAt(model, rows, i) == predict(prompt + tokens[..i])
    {
      RowsArePredictions(model, predict, prompt, rows, i);
    }
  }

  /** Where everything is addressed already, or there is nothing, the candidate passes unrated. */
  lemma {:induction false} NothingToRate(model: LanguageModel, rules: TextRules, candidate: Candidate, rich: bool, mode: Option<Personalization>,
                                         prompt: seq<int>, text: Utf8, addressed: nat, tokens: seq<int>)
    requires model.tokenize(rules.normalize(text), false) == Ok(tokens) && LearnedPriorities(model, rules, candidate.entries).Ok?
    requires addressed >= |tokens| && Pieces(model, tokens).Ok? && prompt != []
    ensures EvaluateTokens(model, rules, candidate, rich, mode, prompt, text, addressed) == Ok(Pass(0.0, []))
  {
    hide LearnedPriorities, Pieces;
    assert tokens[..|tokens|] == tokens;
  }
}
