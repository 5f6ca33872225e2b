/** Rating one candidate with the language model (`evaluate_candidate_tokens` in `zenz.rs`).
    The model answers deterministically; scores are exact numbers. */
module Evaluations {
  import opened Wrappers
  import opened Numbers
  import opened Bytes

  datatype InferenceError = Message(text: string) | ContextCapacity(tokens: nat, capacity: nat)

  /** `logits` returns one row of `vocabularySize` numbers per token from the start index on. */
  datatype LanguageModel = LanguageModel(
    vocabularySize: nat,
    eosToken: int,
    tokenize: (Utf8, bool) -> Result<seq<int>, InferenceError>,
    piece: int -> Result<seq<byte>, InferenceError>,
    logits: (seq<int>, nat) -> Result<seq<real>, InferenceError>,
    exp: real -> real,
    ln: real -> real)

  datatype WordEntry = WordEntry(word: Utf8, ruby: Utf8, leftId: nat, rightId: nat, value: real, learned: bool, userDictionary: bool)

  datatype Candidate = Candidate(text: Utf8, entries: seq<WordEntry>)

  /** Two n-gram models; `probabilities` of a prefix may be missing. */
  datatype Personalization = Personalization(
    base: (seq<int>, nat) -> Option<seq<real>>,
    personal: (seq<int>, nat) -> Option<seq<real>>,
    alpha: real)

  datatype Alternative = Alternative(probabilityRatio: real, bytes: seq<byte>)

  datatype Evaluation =
    | Pass(score: real, alternatives: seq<Alternative>)
    | FixRequired(bytes: seq<byte>)
    | WholeResult(text: Utf8)

  /** How text is prepared for the model, and how it falls into graphemes. */
  datatype TextRules = TextRules(normalize: Utf8 -> Utf8, graphemes: Utf8 -> seq<Utf8>, isUtf8: seq<byte> -> bool)

  function TokenizeForModel(model: LanguageModel, rules: TextRules, text: Utf8, addSpecial: bool): Result<seq<int>, InferenceError> {
    model.tokenize(rules.normalize(text), addSpecial)
  }

  // ----- learned words -----

  function LearningPriority(rules: TextRules, ruby: Utf8): nat {
    var count := |rules.graphemes(ruby)|;
    if 1 <= count <= 4 then count + 2
    else if 5 <= count <= 15 then count * 2
    else 30
  }

  function Repeated(x: real, n: nat): seq<real> {
    seq(n, _ => x)
  }

  /** One priority per token of each word; `n` words have been read. */
  function WordPriorities(model: LanguageModel, rules: TextRules, entries: seq<WordEntry>, n: nat): Result<seq<real>, InferenceError>
    requires n <= |entries|
  {
    if n == 0 then Ok([])
    else
      match WordPriorities(model, rules, entries, n - 1)
      case Err(error) => Err(error)
      case Ok(before) =>
        match TokenizeForModel(model, rules, entries[n - 1].word, false)
        case Err(error) => Err(error)
        case Ok(tokens) =>
          var priority := if entries[n - 1].learned then model.ln(LearningPriority(rules, entries[n - 1].ruby) as real) else 0.0;
          Ok(before + Repeated(priority, |tokens|))
  }

  predicate AnyLearned(entries: seq<WordEntry>) {
    exists i :: 0 <= i < |entries| && entries[i].learned
  }

  function LearnedPriorities(model: LanguageModel, rules: TextRules, entries: seq<WordEntry>): Result<seq<real>, InferenceError> {
    if !AnyLearned(entries) then Ok([]) else WordPriorities(model, rules, entries, |entries|)
  }

  function PriorityAt(priorities: seq<real>, index: nat): real {
    if index < |priorities| then priorities[index] else 0.0
  }

  // ----- one row -----

  function Personalized(model: LanguageModel, row: seq<real>, prefix: seq<int>, mode: Option<Personalization>): seq<real> {
    if mode.None? || mode.value.alpha <= 0.0 || prefix == [] then row
    else
      match (mode.value.base(prefix, |row|), mode.value.personal(prefix, |row|))
      case (Some(base), Some(personal)) =>
        if |base| != |row| || |personal| != |row| then row
        else seq(|row|, i requires 0 <= i < |row| =>
               row[i] + mode.value.alpha * (model.ln(personal[i] + 0.0000001) - model.ln(base[i] + 0.0000001)))
      case _ => row
  }

  lemma {:induction false} PersonalizedLength(model: LanguageModel, row: seq<real>, prefix: seq<int>, mode: Option<Personalization>)
    ensures |Personalized(model, row, prefix, mode)| == |row|
  {
  }

  /** The first position of the largest number among the first `n`. */
  function StrictArgmax(logits: seq<real>, n: nat): (r: nat)
    requires 0 < n <= |logits|
    ensures r < n && forall i :: 0 <= i < n ==> logits[i] <= logits[r] && (i < r ==> logits[i] < logits[r])
  {
    if n == 1 then 0
    else
      var before := StrictArgmax(logits, n - 1);
      if logits[n - 1] > logits[before] then n - 1 else before
  }

  /** Token numbers in descending order of their logits, equal ones in ascending order. */
  function Ranked(logits: seq<real>, n: nat): (r: seq<nat>)
    requires n <= |logits|
    ensures forall i :: 0 <= i < |r| ==> r[i] < n
  {
    if n == 0 then [] else InsertRanked(logits, Ranked(logits, n - 1), n - 1)
  }

  function InsertRanked(logits: seq<real>, ranked: seq<nat>, token: nat): (r: seq<nat>)
    requires token < |logits| && forall i :: 0 <= i < |ranked| ==> ranked[i] < token
    ensures forall i :: 0 <= i < |r| ==> r[i] < token + 1
    decreases |ranked|
  {
    if ranked == [] || logits[ranked[|ranked| - 1]] >= logits[token] then ranked + [token]
    else
      var init := ranked[..|ranked| - 1];
      InsertRanked(logits, init, token) + [ranked[|ranked| - 1]]
  }

  /** The alternatives a rich request asks for at one position. */
  function AlternativesFor(model: LanguageModel, row: seq<real>, maximum: nat, prefix: seq<byte>, tokens: seq<nat>)
    : Result<seq<Alternative>, InferenceError>
    requires maximum < |row| && forall i :: 0 <= i < |tokens| ==> tokens[i] < |row|
  {
    if tokens == [] then Ok([])
    else
      var last := tokens[|tokens| - 1];
      match AlternativesFor(model, row, maximum, prefix, tokens[..|tokens| - 1])
      case Err(error) => Err(error)
      case Ok(before) =>
        if last == maximum then Ok(before)
        else
          match model.piece(last)
          case Err(error) => Err(error)
          case Ok(piece) => Ok(before + [Alternative(model.exp(row[last] - row[maximum]), prefix + piece)])
  }

  function InsertByRatio(alternatives: seq<Alternative>, a: Alternative): seq<Alternative> {
    if alternatives == [] || alternatives[|alternatives| - 1].probabilityRatio >= a.probabilityRatio then alternatives + [a]
    else InsertByRatio(alternatives[..|alternatives| - 1], a) + [alternatives[|alternatives| - 1]]
  }

  function SortByRatio(alternatives: seq<Alternative>): seq<Alternative> {
    if alternatives == [] then []
    else InsertByRatio(SortByRatio(alternatives[..|alternatives| - 1]), alternatives[|alternatives| - 1])
  }

  function Truncated<T>(s: seq<T>, n: nat): seq<T> {
    if |s| <= n then s else s[..n]
  }

  // ----- all rows -----

  /** What stays fixed while the rows are read. */
  datatype Rows = Rows(tokens: seq<int>, logits: seq<real>, addressed: nat, priorities: seq<real>, rich: bool, mode: Option<Personalization>)

  function RowAt(model: LanguageModel, rows: Rows, index: nat): seq<real>
    requires rows.addressed <= index < |rows.tokens|
    requires |rows.logits| == (|rows.tokens| - rows.addressed) * model.vocabularySize
  {
    RowFits(model.vocabularySize, index - rows.addressed, |rows.tokens| - rows.addressed);
    rows.logits[(index - rows.addressed) * model.vocabularySize..(index - rows.addressed + 1) * model.vocabularySize]
  }

  lemma {:induction false} RowFits(width: nat, k: nat, n: nat)
    requires k < n
    ensures 0 <= k * width <= (k + 1) * width <= n * width && (k + 1) * width - k * width == width
  {
    assert (k + 1) * width == k * width + width;
    assert (k + 1) * width <= n * width;
  }

  /** The state of the loop: the bytes read so far, their score and the alternatives met. */
  datatype Progress = Progress(prefix: seq<byte>, score: real, alternatives: seq<Alternative>)

  datatype Step = Go(progress: Progress) | Stop(result: Result<Evaluation, InferenceError>)

  function EvaluateRow(model: LanguageModel, rules: TextRules, rows: Rows, index: nat, p: Progress): Step
    requires model.vocabularySize > 0 && rows.addressed <= index < |rows.tokens|
    requires |rows.logits| == (|rows.tokens| - rows.addressed) * model.vocabularySize
  {
    RowFits(model.vocabularySize, index - rows.addressed, |rows.tokens| - rows.addressed);
    var raw := RowAt(model, rows, index);
    PersonalizedLength(model, raw, rows.tokens[..index], rows.mode);
    var row := Personalized(model, raw, rows.tokens[..index], rows.mode);
    var maximum := StrictArgmax(row, |row|);
    var token := rows.tokens[index];
    if token < 0 || token >= model.vocabularySize then Stop(Err(Message("invalid candidate token")))
    else
      var priority := PriorityAt(rows.priorities, index);
      if maximum != token && maximum == model.eosToken then Stop(Ok(WholeResult(if rules.isUtf8(p.prefix) then p.prefix else [])))
      else if maximum != token && (priority == 0.0 || row[token] + priority <= row[maximum]) then
        match model.piece(maximum)
        case Err(error) => Stop(Err(error))
        case Ok(piece) => Stop(Ok(FixRequired(p.prefix + piece)))
      else
        var more := if rows.rich && maximum == token
                    then AlternativesFor(model, row, maximum, p.prefix, Truncated(Ranked(row, |row|), 3)) else Ok([]);
        match more
        case Err(error) => Stop(Err(error))
        case Ok(alternatives) =>
          match model.piece(token)
          case Err(error) => Stop(Err(error))
          case Ok(piece) => Go(Progress(p.prefix + piece, p.score + row[maximum], p.alternatives + alternatives))
  }

  function EvaluateFrom(model: LanguageModel, rules: TextRules, rows: Rows, index: nat, p: Progress): Result<Evaluation, InferenceError>
    requires model.vocabularySize > 0 && rows.addressed <= index <= |rows.tokens|
    requires |rows.logits| == (|rows.tokens| - rows.addressed) * model.vocabularySize
    decreases |rows.tokens| - index
  {
    if index == |rows.tokens| then Ok(Pass(p.score, Truncated(SortByRatio(p.alternatives), 5)))
    else
      match EvaluateRow(model, rules, rows, index, p)
      case Stop(result) => result
      case Go(next) => EvaluateFrom(model, rules, rows, index + 1, next)
  }

  function Pieces(model: LanguageModel, tokens: seq<int>): Result<seq<byte>, InferenceError> {
    if tokens == [] then Ok([])
    else
      match Pieces(model, tokens[..|tokens| - 1])
      case Err(error) => Err(error)
      case Ok(before) =>
        match model.piece(tokens[|tokens| - 1])
        case Err(error) => Err(error)
        case Ok(piece) => Ok(before + piece)
  }

  function EvaluateTokens(model: LanguageModel, rules: TextRules, candidate: Candidate, rich: bool, mode: Option<Personalization>,
                          promptTokens: seq<int>, candidateText: Utf8, addressedCount: nat): Result<Evaluation, InferenceError> {
    match TokenizeForModel(model, rules, candidateText, false)
    case Err(error) => Err(error)
    case Ok(tokens) =>
      match LearnedPriorities(model, rules, candidate.entries)
      case Err(error) => Err(error)
      case Ok(priorities) =>
        var addressed := Min(addressedCount, |tokens|);
        match Pieces(model, tokens[..addressed])
        case Err(error) => Err(error)
        case Ok(prefix) =>
          if tokens == [] then Ok(Pass(0.0, []))
          else if promptTokens == [] then Err(Message("candidate evaluation prompt produced no tokens"))
          else if addressed == |tokens| then Ok(Pass(0.0, []))
          else
            match model.logits(promptTokens + tokens[..|tokens| - 1], |promptTokens| - 1 + addressed)
            case Err(error) => Err(error)
            case Ok(logits) =>
              if |logits| != (|tokens| - addressed) * model.vocabularySize || model.vocabularySize == 0 then
                Err(Message("model returned a wrong number of logits"))
              else
                EvaluateFrom(model, rules, Rows(tokens, logits, addressed, priorities, rich, mode), addressed, Progress(prefix, 0.0, []))
  }

  /** The loop over the candidate's tokens. */
  method EvaluateRows(model: LanguageModel, rules: TextRules, rows: Rows, prefix: seq<byte>) returns (result: Result<Evaluation, InferenceError>)
    requires model.vocabularySize > 0 && rows.addressed <= |rows.tokens|
    requires |rows.logits| == (|rows.tokens| - rows.addressed) * model.vocabularySize
    ensures result == EvaluateFrom(model, rules, rows, rows.addressed, Progress(prefix, 0.0, []))
  {
    hide EvaluateRow;
    var progress := Progress(prefix, 0.0, []);
    ghost var start := progress;
    for index := rows.addressed to |rows.tokens|
      invariant EvaluateFrom(model, rules, rows, index, progress) == EvaluateFrom(model, rules, rows, rows.addressed, start)
    {
      match EvaluateRow(model, rules, rows, index, progress) {
        case Stop(stopped) => return stopped;
        case Go(next) => progress := next;
      }
    }
    result := Ok(Pass(progress.score, Truncated(SortByRatio(progress.alternatives), 5)));
  }

  // ----- what a rating depends on -----

  datatype Segment = Segment(word: Utf8, ruby: Utf8, learned: bool)

  function SegmentsOf(entries: seq<WordEntry>): (r: seq<Segment>)
    ensures |r| == |entries|
    ensures forall i :: 0 <= i < |r| ==> r[i] == Segment(entries[i].word, entries[i].ruby, entries[i].learned)
  {
    seq(|entries|, i requires 0 <= i < |entries| => Segment(entries[i].word, entries[i].ruby, entries[i].learned))
  }

  lemma {:induction false} SegmentAt(a: seq<WordEntry>, b: seq<WordEntry>, i: nat)
    requires SegmentsOf(a) == SegmentsOf(b) && i < |a|
    ensures |a| == |b| && a[i].word == b[i].word && a[i].ruby == b[i].ruby && a[i].learned == b[i].learned
  {
    assert |SegmentsOf(a)| == |SegmentsOf(b)|;
    assert SegmentsOf(a)[i] == SegmentsOf(b)[i];
  }

  lemma {:induction false} SameWordPriorities(model: LanguageModel, rules: TextRules, a: seq<WordEntry>, b: seq<WordEntry>, n: nat)
    requires SegmentsOf(a) == SegmentsOf(b) && n <= |a| == |b|
    ensures WordPriorities(model, rules, a, n) == WordPriorities(model, rules, b, n)
  {
    hide SegmentsOf, LearningPriority, Repeated, TokenizeForModel;
    if n > 0 {
      SameWordPriorities(model, rules, a, b, n - 1);
      SegmentAt(a, b, n - 1);
    }
  }

  /** Of the dictionary entries, a rating sees only words, readings and whether they are learned. */
  lemma {:induction false} RatingSeesSegments(model: LanguageModel, rules: TextRules, a: Candidate, b: Candidate, rich: bool,
                                              mode: Option<Personalization>, promptTokens: seq<int>, candidateText: Utf8, addressed: nat)
    requires SegmentsOf(a.entries) == SegmentsOf(b.entries)
    ensures EvaluateTokens(model, rules, a, rich, mode, promptTokens, candidateText, addressed)
            == EvaluateTokens(model, rules, b, rich, mode, promptTokens, candidateText, addressed)
  {
    hide SegmentsOf, EvaluateFrom, Pieces, WordPriorities, TokenizeForModel;
    SameLength(a.entries, b.entries);
    forall i | 0 <= i < |a.entries|
      ensures a.entries[i].learned == b.entries[i].learned
    {
      SegmentAt(a.entries, b.entries, i);
    }
    assert AnyLearned(a.entries) == AnyLearned(b.entries);
    SameWordPriorities(model, rules, a.entries, b.entries, |a.entries|);
  }

  lemma {:induction false} SameLength(a: seq<WordEntry>, b: seq<WordEntry>)
    requires SegmentsOf(a) == SegmentsOf(b)
    ensures |a| == |b|
  {
    assert |SegmentsOf(a)| == |SegmentsOf(b)|;
  }
}
