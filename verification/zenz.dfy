/** The candidate evaluator with its two caches (`ZenzEvaluator` in `zenz.rs`). */
module ZenzEvaluators {
  import opened Wrappers
  import opened Bytes
  import opened LruCaches
  import opened Evaluations

  datatype FixedPrefix = FixedPrefix(byteCount: nat, rubyCount: nat)

  datatype PrefixConstraint = PrefixConstraint(bytes: seq<byte>, hasEos: bool, ignoreMemoryAndUserDictionary: bool, fixedPrefix: Option<FixedPrefix>)

  /** A version configuration, as far as its left context goes. */
  datatype Version = Version(leftContext: Utf8, settings: int)

  datatype Request = Request(input: Utf8, cursor: Option<nat>, candidate: Candidate, rich: bool,
                             constraint: PrefixConstraint, personalization: Option<Personalization>, version: Version)

  /** How prompts are built: pure functions of the request. */
  datatype Prompts = Prompts(
    evaluation: (Utf8, Option<nat>, Utf8, Version) -> Utf8,
    candidateText: (Utf8, Utf8, Option<nat>, Version) -> Utf8,
    hiragana: Utf8 -> Utf8,
    open: Utf8,
    close: Utf8)

  datatype Setting = Setting(model: LanguageModel, rules: TextRules, prompts: Prompts)

  // ----- the parts of one evaluation -----

  function UserDictionaryPrompt(prompts: Prompts, entries: seq<WordEntry>): Utf8 {
    if entries == [] then []
    else
      var last := entries[|entries| - 1];
      UserDictionaryPrompt(prompts, entries[..|entries| - 1])
      + if last.userDictionary then last.word + prompts.open + prompts.hiragana(last.ruby) + prompts.close else []
  }

  function PromptOf(s: Setting, r: Request): Utf8 {
    s.prompts.evaluation(r.input, r.cursor, UserDictionaryPrompt(s.prompts, r.candidate.entries), r.version)
  }

  function CandidateTextOf(s: Setting, r: Request): Utf8 {
    s.prompts.candidateText(r.candidate.text, r.input, r.cursor, r.version)
  }

  function NormalizedPrompt(s: Setting, r: Request): Utf8 {
    s.rules.normalize(PromptOf(s, r))
  }

  /** The prefix of the candidate that the constraint has already addressed, in whole graphemes. */
  function AddressedPrefix(graphemes: seq<Utf8>, constraint: seq<byte>, prefix: Utf8): Utf8
    decreases |graphemes|
  {
    if graphemes == [] || !(prefix + graphemes[0] <= constraint) then prefix
    else AddressedPrefix(graphemes[1..], constraint, prefix + graphemes[0])
  }

  method FindAddressedPrefix(graphemes: seq<Utf8>, constraint: seq<byte>) returns (prefix: Utf8)
    ensures prefix == AddressedPrefix(graphemes, constraint, [])
  {
    prefix := [];
    assert graphemes[0..] == graphemes;
    for i := 0 to |graphemes|
      invariant AddressedPrefix(graphemes[i..], constraint, prefix) == AddressedPrefix(graphemes, constraint, [])
    {
      assert graphemes[i..][0] == graphemes[i] && graphemes[i..][1..] == graphemes[i + 1..];
      var next := prefix + graphemes[i];
      if !(next <= constraint) {
        return;
      }
      prefix := next;
    }
  }

  function AddressedCount(s: Setting, r: Request, reuses: bool): Result<nat, InferenceError> {
    if !reuses then Ok(0)
    else
      var prefix := AddressedPrefix(s.rules.graphemes(r.candidate.text), r.constraint.bytes, []);
      if prefix == [] then Ok(0)
      else
        match TokenizeForModel(s.model, s.rules, prefix, false)
        case Err(error) => Err(error)
        case Ok(tokens) => Ok(|tokens|)
  }

  /** The evaluation without caches; what is left of history is whether the prompt was the
      previous one. */
  function Uncached(s: Setting, r: Request, reuses: bool): Result<Evaluation, InferenceError> {
    match TokenizeForModel(s.model, s.rules, PromptOf(s, r), true)
    case Err(error) => Err(error)
    case Ok(promptTokens) =>
      match AddressedCount(s, r, reuses)
      case Err(error) => Err(error)
      case Ok(addressed) =>
        EvaluateTokens(s.model, s.rules, r.candidate, r.rich, r.personalization, promptTokens, CandidateTextOf(s, r), addressed)
  }

  datatype CacheKey = CacheKey(prompt: Utf8, candidateText: Utf8, originalText: Utf8, constraint: PrefixConstraint,
                               rich: bool, reuses: bool, segments: seq<Segment>)

  function KeyOf(s: Setting, r: Request, reuses: bool): CacheKey {
    CacheKey(PromptOf(s, r), CandidateTextOf(s, r), r.candidate.text, r.constraint, r.rich, reuses, SegmentsOf(r.candidate.entries))
  }

  /** Two evaluations with the same cache key have the same result. */
  lemma {:induction false} KeyDeterminesResult(s: Setting, a: Request, b: Request, reusesA: bool, reusesB: bool)
    requires a.personalization.None? && b.personalization.None?
    requires KeyOf(s, a, reusesA) == KeyOf(s, b, reusesB)
    ensures Uncached(s, a, reusesA) == Uncached(s, b, reusesB)
  {
    hide EvaluateTokens, TokenizeForModel, PromptOf, CandidateTextOf, AddressedPrefix, SegmentsOf;
    match TokenizeForModel(s.model, s.rules, PromptOf(s, a), true)
    case Err(_) =>
    case Ok(promptTokens) =>
      match AddressedCount(s, a, reusesA)
      case Err(_) =>
      case Ok(addressed) =>
        RatingSeesSegments(s.model, s.rules, a.candidate, b.candidate, a.rich, None, promptTokens, CandidateTextOf(s, a), addressed);
  }

  // ----- the reference: no caches -----

  datatype Answer = Answer(result: Result<Evaluation, InferenceError>, previous: Utf8)

  function Reuses(s: Setting, r: Request, previous: Utf8): bool {
    previous == NormalizedPrompt(s, r) && !r.rich
  }

  function ReferenceAsIs(s: Setting, r: Request, previous: Utf8): Answer {
    Answer(Uncached(s, r, Reuses(s, r, previous)), NormalizedPrompt(s, r))
  }

  /** Whether the fixed prefix applies to the request. */
  predicate FixedApplies(s: Setting, r: Request) {
    && r.constraint.fixedPrefix.Some?
    && (var fixed := r.constraint.fixedPrefix.value;
        && fixed.byteCount != 0 && fixed.byteCount <= |r.candidate.text| && fixed.byteCount <= |r.constraint.bytes|
        && r.constraint.bytes[..fixed.byteCount] <= r.candidate.text
        && |s.rules.graphemes(r.input)| >= fixed.rubyCount
        && (r.cursor.Some? ==> r.cursor.value >= fixed.rubyCount))
  }

  function Join(parts: seq<Utf8>): Utf8 {
    if parts == [] then [] else Join(parts[..|parts| - 1]) + parts[|parts| - 1]
  }

  /** The entries behind those that the fixed bytes cover. */
  function DroppingFixed(entries: seq<WordEntry>, covered: nat, byteCount: nat): seq<WordEntry>
    decreases |entries|
  {
    if entries == [] || covered + |entries[0].word| > byteCount then entries
    else DroppingFixed(entries[1..], covered + |entries[0].word|, byteCount)
  }

  function Remaining(s: Setting, r: Request): Request
    requires FixedApplies(s, r)
  {
    var fixed := r.constraint.fixedPrefix.value;
    var fixedBytes := r.constraint.bytes[..fixed.byteCount];
    Request(Join(s.rules.graphemes(r.input)[fixed.rubyCount..]),
            match r.cursor case Some(position) => Some(position - fixed.rubyCount) case None => None,
            Candidate(r.candidate.text[fixed.byteCount..], DroppingFixed(r.candidate.entries, 0, fixed.byteCount)),
            r.rich,
            r.constraint.(bytes := r.constraint.bytes[fixed.byteCount..], fixedPrefix := None),
            r.personalization,
            r.version.(leftContext := r.version.leftContext + fixedBytes))
  }

  function Prepended(fixed: seq<byte>, evaluation: Evaluation): Evaluation {
    match evaluation
    case Pass(score, alternatives) =>
      Pass(score, seq(|alternatives|, i requires 0 <= i < |alternatives| =>
        Alternative(alternatives[i].probabilityRatio, fixed + alternatives[i].bytes)))
    case FixRequired(bytes) => FixRequired(fixed + bytes)
    case WholeResult(text) => WholeResult(fixed + text)
  }

  function Reference(s: Setting, r: Request, previous: Utf8): Answer {
    if !FixedApplies(s, r) then ReferenceAsIs(s, r, previous)
    else
      var fixedBytes := r.constraint.bytes[..r.constraint.fixedPrefix.value.byteCount];
      if !s.rules.isUtf8(fixedBytes) then Answer(Err(Message("fixed prefix is not UTF-8")), previous)
      else
        var answer := ReferenceAsIs(s, Remaining(s, r), previous);
        match answer.result
        case Err(_) => answer
        case Ok(evaluation) => answer.(result := Ok(Prepended(fixedBytes, evaluation)))
  }

  /** A sequence of evaluations without caches. */
  function ReferenceRun(s: Setting, requests: seq<Request>, previous: Utf8): (seq<Result<Evaluation, InferenceError>>, Utf8) {
    if requests == [] then ([], previous)
    else
      var (results, before) := ReferenceRun(s, requests[..|requests| - 1], previous);
      var answer := Reference(s, requests[|requests| - 1], before);
      (results + [answer.result], answer.previous)
  }

  // ----- the evaluator -----

  /** Everything cached is what would be computed. */
  ghost predicate Truthful(s: Setting, evaluations: map<CacheKey, Evaluation>, promptTokens: map<Utf8, seq<int>>) {
    && (forall k :: k in evaluations ==> Computed(s, k, evaluations[k]))
    && (forall p :: p in promptTokens ==> TokenizeForModel(s.model, s.rules, p, true) == Ok(promptTokens[p]))
  }

  ghost predicate Computed(s: Setting, k: CacheKey, evaluation: Evaluation) {
    exists r: Request, reuses: bool ::
      r.personalization.None? && KeyOf(s, r, reuses) == k && Uncached(s, r, reuses) == Ok(evaluation)
  }

  lemma {:induction false} ComputedForAll(s: Setting, k: CacheKey, evaluation: Evaluation, r: Request, reuses: bool)
    requires Computed(s, k, evaluation) && r.personalization.None? && KeyOf(s, r, reuses) == k
    ensures Uncached(s, r, reuses) == Ok(evaluation)
  {
    hide KeyOf, Uncached;
    var other: Request, otherReuses: bool :| other.personalization.None? && KeyOf(s, other, otherReuses) == k && Uncached(s, other, otherReuses) == Ok(evaluation);
    KeyDeterminesResult(s, r, other, reuses, otherReuses);
  }

  lemma {:induction false} CachedIsComputed(s: Setting, evaluations: map<CacheKey, Evaluation>, tokens: map<Utf8, seq<int>>, k: CacheKey)
    requires Truthful(s, evaluations, tokens) && k in evaluations
    ensures Computed(s, k, evaluations[k])
  {
    hide Computed;
  }

  lemma {:induction false} EvaluationStored(s: Setting, before: map<CacheKey, Evaluation>, after: map<CacheKey, Evaluation>,
                                            tokens: map<Utf8, seq<int>>, key: CacheKey)
    requires Truthful(s, before, tokens) && key in after && Computed(s, key, after[key])
    requires forall k :: k in after && k != key ==> k in before && after[k] == before[k]
    ensures Truthful(s, after, tokens)
  {
    hide Computed;
  }

  lemma {:induction false} TokensStored(s: Setting, evaluations: map<CacheKey, Evaluation>, before: map<Utf8, seq<int>>,
                                        after: map<Utf8, seq<int>>, prompt: Utf8)
    requires Truthful(s, evaluations, before) && prompt in after
    requires TokenizeForModel(s.model, s.rules, prompt, true) == Ok(after[prompt])
    requires forall p :: p in after && p != prompt ==> p in before && after[p] == before[p]
    ensures Truthful(s, evaluations, after)
  {
    hide Computed, TokenizeForModel;
  }

  lemma {:induction false} CachedTokens(s: Setting, evaluations: map<CacheKey, Evaluation>, tokens: map<Utf8, seq<int>>, p: Utf8)
    requires Truthful(s, evaluations, tokens) && p in tokens
    ensures TokenizeForModel(s.model, s.rules, p, true) == Ok(tokens[p])
  {
    hide Computed, TokenizeForModel;
  }

  class ZenzEvaluator {
    const setting: Setting
    const evaluations: LruCache<CacheKey, Evaluation>
    const promptTokens: LruCache<Utf8, seq<int>>
    var previousPrompt: Utf8

    ghost predicate Valid()
      reads this, evaluations, promptTokens
    {
      && evaluations.Valid() && promptTokens.Valid()
      && evaluations.capacity == 256 && promptTokens.capacity == 128
      && Truthful(setting, evaluations.Contents(), promptTokens.Contents())
    }

    constructor (setting: Setting)
      ensures Valid() && fresh(evaluations) && fresh(promptTokens)
      ensures this.setting == setting && previousPrompt == []
    {
      this.setting := setting;
      evaluations := new LruCache(256);
      promptTokens := new LruCache(128);
      previousPrompt := [];
    }

    method TokenizePrompt(prompt: Utf8) returns (result: Result<seq<int>, InferenceError>)
      requires Valid()
      modifies promptTokens
      ensures Valid() && result == TokenizeForModel(setting.model, setting.rules, prompt, true)
    {
      hide Truthful, TokenizeForModel, Stamped, Stamp;
      ghost var before := promptTokens.Contents();
      var cached := promptTokens.Get(prompt);
      if cached.Some? {
        CachedTokens(setting, evaluations.Contents(), before, prompt);
        return Ok(cached.value);
      }
      result := TokenizeForModel(setting.model, setting.rules, prompt, true);
      if result.Ok? {
        promptTokens.Insert(prompt, result.value);
        TokensStored(setting, evaluations.Contents(), before, promptTokens.Contents(), prompt);
      }
    }

    method CountAddressed(r: Request, reuses: bool) returns (result: Result<nat, InferenceError>)
      ensures result == AddressedCount(setting, r, reuses)
    {
      hide TokenizeForModel, AddressedPrefix;
      if !reuses {
        return Ok(0);
      }
      var prefix := FindAddressedPrefix(setting.rules.graphemes(r.candidate.text), r.constraint.bytes);
      if |prefix| == 0 {
        return Ok(0);
      }
      var tokens := TokenizeForModel(setting.model, setting.rules, prefix, false);
      match tokens {
        case Err(error) => result := Err(error);
        case Ok(value) => result := Ok(|value|);
      }
    }

    method Compute(r: Request, prompt: Utf8, reuses: bool) returns (result: Result<Evaluation, InferenceError>)
      requires Valid() && prompt == PromptOf(setting, r)
      modifies promptTokens
      ensures Valid() && result == Uncached(setting, r, reuses)
    {
      hide Truthful, TokenizeForModel, EvaluateTokens, AddressedCount, PromptOf, CandidateTextOf;
      var tokens := TokenizePrompt(prompt);
      if tokens.Err? {
        return Err(tokens.error);
      }
      var addressed := CountAddressed(r, reuses);
      if addressed.Err? {
        return Err(addressed.error);
      }
      result := EvaluateTokens(setting.model, setting.rules, r.candidate, r.rich, r.personalization,
                               tokens.value, CandidateTextOf(setting, r), addressed.value);
    }

    method EvaluateAsIs(r: Request) returns (result: Result<Evaluation, InferenceError>)
      requires Valid()
      modifies this, evaluations, promptTokens
      ensures Valid()
      ensures Answer(result, previousPrompt) == ReferenceAsIs(setting, r, old(previousPrompt))
    {
      hide Truthful, Computed, Uncached, PromptOf, KeyOf, Stamped, Stamp, SameRound, OnlyOldestGone;
      var prompt := PromptOf(setting, r);
      var normalized := setting.rules.normalize(prompt);
      var reuses := previousPrompt == normalized && !r.rich;
      previousPrompt := normalized;
      var key := KeyOf(setting, r, reuses);
      if r.personalization.None? {
        ghost var before := evaluations.Contents();
        var cached := evaluations.Get(key);
        if cached.Some? {
          CachedIsComputed(setting, before, promptTokens.Contents(), key);
          ComputedForAll(setting, key, cached.value, r, reuses);
          return Ok(cached.value);
        }
      }
      result := Compute(r, prompt, reuses);
      if result.Ok? && r.personalization.None? {
        NowComputed(setting, r, reuses);
        ghost var before := evaluations.Contents();
        evaluations.Insert(key, result.value);
        EvaluationStored(setting, before, evaluations.Contents(), promptTokens.Contents(), key);
      }
    }

    /** The caches change no result: every call answers what an evaluator without caches answers,
        from the same previous prompt. */
    method Evaluate(r: Request) returns (result: Result<Evaluation, InferenceError>)
      requires Valid()
      modifies this, evaluations, promptTokens
      ensures Valid()
      ensures Answer(result, previousPrompt) == Reference(setting, r, old(previousPrompt))
    {
      hide Truthful, ReferenceAsIs, Remaining, Prepended;
      if !FixedApplies(setting, r) {
        result := EvaluateAsIs(r);
        return;
      }
      var fixedBytes := r.constraint.bytes[..r.constraint.fixedPrefix.value.byteCount];
      if !setting.rules.isUtf8(fixedBytes) {
        return Err(Message("fixed prefix is not UTF-8"));
      }
      result := EvaluateAsIs(Remaining(setting, r));
      match result {
        case Err(_) =>
        case Ok(evaluation) => result := Ok(Prepended(fixedBytes, evaluation));
      }
    }

    /** Any sequence of calls returns what it returns with both caches removed. */
    method EvaluateAll(requests: seq<Request>) returns (results: seq<Result<Evaluation, InferenceError>>)
      requires Valid()
      modifies this, evaluations, promptTokens
      ensures Valid()
      ensures (results, previousPrompt) == ReferenceRun(setting, requests, old(previousPrompt))
    {
      hide Reference, Truthful;
      results := [];
      for i := 0 to |requests|
        invariant Valid() && (results, previousPrompt) == ReferenceRun(setting, requests[..i], old(previousPrompt))
      {
        assert requests[..i + 1][..i] == requests[..i];
        var result := Evaluate(requests[i]);
        results := results + [result];
      }
      assert requests[..|requests|] == requests;
    }
  }

  lemma {:induction false} NowComputed(s: Setting, r: Request, reuses: bool)
    requires r.personalization.None? && Uncached(s, r, reuses).Ok?
    ensures Computed(s, KeyOf(s, r, reuses), Uncached(s, r, reuses).value)
  {
    hide KeyOf, Uncached;
  }
}
