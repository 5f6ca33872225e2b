/** The interpolated n-gram distribution (`ngram.rs`). Probabilities are exact numbers. */
module NGrams {
  import opened Wrappers
  import opened Bytes

  /** What the tries say about one context: a count per token, their sum, and how many tokens have
      been seen there. */
  datatype Level = Level(values: seq<nat>, total: nat, distinct: nat)

  /** The model's context, and the ever shorter contexts behind it. */
  datatype Context = Context(main: Level, lower: seq<Level>, discount: real)

  // ----- exact arithmetic -----

  function Times(a: real, b: real): real {
    a * b
  }

  function Over(a: real, b: real): real
    requires b != 0.0
  {
    a / b
  }

  lemma {:induction false} Distribute(a: real, b: real, c: real)
    ensures Times(a + b, c) == Times(a, c) + Times(b, c) && Times(c, a + b) == Times(c, a) + Times(c, b)
  {
  }

  lemma {:induction false} AddFractions(a: real, b: real, c: real)
    requires c != 0.0
    ensures Over(a, c) + Over(b, c) == Over(a + b, c)
  {
  }

  lemma {:induction false} WholeFraction(a: real, c: real)
    requires c != 0.0
    ensures Over(a, c) == 1.0 <==> a == c
  {
    if a / c == 1.0 {
      assert a == (a / c) * c;
    }
  }

  lemma {:induction false} TakesBack(a: real, c: real)
    requires c != 0.0
    ensures Times(c, Over(a, c)) == a
  {
  }

  lemma {:induction false} Trivial(a: real, c: real)
    ensures Times(a, c) == Times(c, a) && Times(0.0, a) == 0.0 && Times(1.0, a) == a && Times(a, 1.0) == a && Times(a, 0.0) == 0.0
    ensures c != 0.0 ==> Over(0.0, c) == 0.0
  {
  }

  lemma {:induction false} NotNegative(a: real, b: real)
    requires a >= 0.0 && b >= 0.0
    ensures Times(a, b) >= 0.0
    ensures b > 0.0 ==> Over(a, b) >= 0.0
  {
  }

  // ----- counts -----

  function Sum(values: seq<nat>): nat {
    if values == [] then 0 else Sum(values[..|values| - 1]) + values[|values| - 1]
  }

  function Seen(values: seq<nat>): nat {
    if values == [] then 0 else Seen(values[..|values| - 1]) + if values[|values| - 1] > 0 then 1 else 0
  }

  /** The counts of a level as the training tool writes them. */
  ghost predicate Consistent(level: Level, discount: real) {
    && level.total == Sum(level.values) && level.distinct == Seen(level.values)
    && forall i :: 0 <= i < |level.values| && level.values[i] > 0 ==> level.values[i] as real >= discount
  }

  function Discounted(value: nat, discount: real): real {
    if value as real - discount > 0.0 then value as real - discount else 0.0
  }

  function DiscountedSum(values: seq<nat>, discount: real): real {
    if values == [] then 0.0
    else DiscountedSum(values[..|values| - 1], discount) + Discounted(values[|values| - 1], discount)
  }

  /** Discounting takes the discount from every token that was seen. */
  lemma {:induction false} DiscountTakesPerSeen(values: seq<nat>, discount: real)
    requires discount >= 0.0 && forall i :: 0 <= i < |values| && values[i] > 0 ==> values[i] as real >= discount
    ensures DiscountedSum(values, discount) == Sum(values) as real - Times(discount, Seen(values) as real)
  {
    hide Times;
    Trivial(discount, 0.0);
    if values != [] {
      var init := values[..|values| - 1];
      DiscountTakesPerSeen(init, discount);
      Trivial(discount, 1.0);
      Distribute(Seen(init) as real, 1.0, discount);
    }
  }

  // ----- one level -----

  function Alpha(level: Level, discount: real, token: nat): real
    requires token < |level.values|
  {
    if level.total == 0 then 0.0 else Over(Discounted(level.values[token], discount), level.total as real)
  }

  /** The weight a level leaves to the next one. */
  function Gamma(level: Level, discount: real): real {
    if level.total == 0 then 1.0 else Over(Times(discount, level.distinct as real), level.total as real)
  }

  function AlphaSum(level: Level, discount: real, n: nat): real
    requires n <= |level.values|
  {
    if n == 0 then 0.0 else AlphaSum(level, discount, n - 1) + Alpha(level, discount, n - 1)
  }

  lemma {:induction false} AlphaSumIs(level: Level, discount: real, n: nat)
    requires n <= |level.values| && level.total > 0
    ensures AlphaSum(level, discount, n) == Over(DiscountedSum(level.values[..n], discount), level.total as real)
  {
    if n > 0 {
      AlphaSumIs(level, discount, n - 1);
      assert level.values[..n][..n - 1] == level.values[..n - 1];
      AddFractions(DiscountedSum(level.values[..n - 1], discount), Discounted(level.values[n - 1], discount), level.total as real);
    }
  }

  lemma {:induction false} NoAlphas(level: Level, discount: real, n: nat)
    requires n <= |level.values| && level.total == 0
    ensures AlphaSum(level, discount, n) == 0.0
  {
    if n > 0 {
      NoAlphas(level, discount, n - 1);
    }
  }

  /** A level spends all its weight: on its own tokens and on the next level. */
  ghost predicate Balanced(level: Level, discount: real) {
    AlphaSum(level, discount, |level.values|) + Gamma(level, discount) == 1.0
  }

  /** A level is balanced exactly if what the discount takes is what it passes on. */
  lemma {:induction false} BalancedMeans(level: Level, discount: real)
    requires level.total > 0
    ensures Balanced(level, discount) <==>
            DiscountedSum(level.values, discount) + Times(discount, level.distinct as real) == level.total as real
  {
    var n := |level.values|;
    AlphaSumIs(level, discount, n);
    assert level.values[..n] == level.values;
    AddFractions(DiscountedSum(level.values, discount), Times(discount, level.distinct as real), level.total as real);
    WholeFraction(DiscountedSum(level.values, discount) + Times(discount, level.distinct as real), level.total as real);
  }

  lemma {:induction false} ConsistentIsBalanced(level: Level, discount: real)
    requires discount >= 0.0 && Consistent(level, discount)
    ensures Balanced(level, discount)
  {
    if level.total == 0 {
      NoAlphas(level, discount, |level.values|);
    } else {
      DiscountTakesPerSeen(level.values, discount);
      BalancedMeans(level, discount);
    }
  }

  // ----- interpolation -----

  ghost predicate SameVocabulary(c: Context, size: nat) {
    size > 0 && |c.main.values| == size && forall i :: 0 <= i < |c.lower| ==> |c.lower[i].values| == size
  }

  /** What the levels from `i` on give a token, with the weight left to them. */
  function LowerFrom(c: Context, size: nat, i: nat, token: nat, coefficient: real): real
    requires SameVocabulary(c, size) && i <= |c.lower| && token < size
    decreases |c.lower| - i
  {
    if i == |c.lower| then Over(coefficient, size as real)
    else
      Times(Alpha(c.lower[i], c.discount, token), coefficient)
      + LowerFrom(c, size, i + 1, token, Times(coefficient, Gamma(c.lower[i], c.discount)))
  }

  function Probability(c: Context, size: nat, token: nat): real
    requires SameVocabulary(c, size) && token < size
  {
    Alpha(c.main, c.discount, token) + Times(Gamma(c.main, c.discount), LowerFrom(c, size, 0, token, 1.0))
  }

  method BulkPredict(c: Context, size: nat) returns (probabilities: seq<real>)
    requires SameVocabulary(c, size)
    ensures |probabilities| == size && forall token :: 0 <= token < size ==> probabilities[token] == Probability(c, size, token)
  {
    hide Times, Over, Alpha, Gamma;
    var mainGamma := Gamma(c.main, c.discount);
    probabilities := [];
    for token := 0 to size
      invariant |probabilities| == token
      invariant forall t :: 0 <= t < token ==> probabilities[t] == Probability(c, size, t)
    {
      var alpha := Alpha(c.main, c.discount, token);
      var lowerProbability := 0.0;
      var coefficient := 1.0;
      for i := 0 to |c.lower|
        invariant lowerProbability + LowerFrom(c, size, i, token, coefficient) == LowerFrom(c, size, 0, token, 1.0)
      {
        lowerProbability := lowerProbability + Times(Alpha(c.lower[i], c.discount, token), coefficient);
        coefficient := Times(coefficient, Gamma(c.lower[i], c.discount));
      }
      lowerProbability := lowerProbability + Over(coefficient, size as real);
      probabilities := probabilities + [alpha + Times(mainGamma, lowerProbability)];
    }
  }

  // ----- the distribution -----

  function LowerSum(c: Context, size: nat, i: nat, coefficient: real, n: nat): real
    requires SameVocabulary(c, size) && i <= |c.lower| && n <= size
  {
    if n == 0 then 0.0 else LowerSum(c, size, i, coefficient, n - 1) + LowerFrom(c, size, i, n - 1, coefficient)
  }

  function ProbabilitySum(c: Context, size: nat, n: nat): real
    requires SameVocabulary(c, size) && n <= size
  {
    if n == 0 then 0.0 else ProbabilitySum(c, size, n - 1) + Probability(c, size, n - 1)
  }

  lemma {:induction false} LowerSumSplits(c: Context, size: nat, i: nat, coefficient: real, n: nat)
    requires SameVocabulary(c, size) && i < |c.lower| && n <= size
    ensures LowerSum(c, size, i, coefficient, n)
            == Times(AlphaSum(c.lower[i], c.discount, n), coefficient)
               + LowerSum(c, size, i + 1, Times(coefficient, Gamma(c.lower[i], c.discount)), n)
  {
    hide Times, Over, Alpha, Gamma;
    Trivial(coefficient, 1.0);
    if n > 0 {
      LowerSumSplits(c, size, i, coefficient, n - 1);
      Distribute(AlphaSum(c.lower[i], c.discount, n - 1), Alpha(c.lower[i], c.discount, n - 1), coefficient);
    }
  }

  lemma {:induction false} UniformSum(c: Context, size: nat, coefficient: real, n: nat)
    requires SameVocabulary(c, size) && n <= size
    ensures LowerSum(c, size, |c.lower|, coefficient, n) == Times(n as real, Over(coefficient, size as real))
  {
    Trivial(Over(coefficient, size as real), 1.0);
    if n > 0 {
      UniformSum(c, size, coefficient, n - 1);
      Distribute((n - 1) as real, 1.0, Over(coefficient, size as real));
    }
  }

  lemma {:induction false} LowerSumIsCoefficient(c: Context, size: nat, i: nat, coefficient: real)
    requires SameVocabulary(c, size) && i <= |c.lower|
    requires forall k :: 0 <= k < |c.lower| ==> Balanced(c.lower[k], c.discount)
    ensures LowerSum(c, size, i, coefficient, size) == coefficient
    decreases |c.lower| - i
  {
    hide Times, Over, Alpha, Gamma;
    if i == |c.lower| {
      UniformSum(c, size, coefficient, size);
      TakesBack(coefficient, size as real);
    } else {
      var gamma := Gamma(c.lower[i], c.discount);
      LowerSumSplits(c, size, i, coefficient, size);
      LowerSumIsCoefficient(c, size, i + 1, Times(coefficient, gamma));
      assert Balanced(c.lower[i], c.discount);
      Trivial(coefficient, gamma);
      Distribute(AlphaSum(c.lower[i], c.discount, size), gamma, coefficient);
    }
  }

  lemma {:induction false} ProbabilitySumSplits(c: Context, size: nat, n: nat)
    requires SameVocabulary(c, size) && n <= size
    ensures ProbabilitySum(c, size, n)
            == AlphaSum(c.main, c.discount, n) + Times(Gamma(c.main, c.discount), LowerSum(c, size, 0, 1.0, n))
  {
    hide Times, Over, Alpha, Gamma, LowerFrom;
    Trivial(Gamma(c.main, c.discount), 1.0);
    if n > 0 {
      ProbabilitySumSplits(c, size, n - 1);
      Distribute(LowerSum(c, size, 0, 1.0, n - 1), LowerFrom(c, size, 0, n - 1, 1.0), Gamma(c.main, c.discount));
    }
  }

  /** If every shorter context is balanced, the probabilities sum to one exactly if the main
      context is balanced. */
  lemma {:induction false} SumIsOneWhenBalanced(c: Context, size: nat)
    requires SameVocabulary(c, size)
    requires forall k :: 0 <= k < |c.lower| ==> Balanced(c.lower[k], c.discount)
    ensures ProbabilitySum(c, size, size) == 1.0 <==> Balanced(c.main, c.discount)
  {
    hide Times, Over, Alpha, Gamma, LowerFrom;
    ProbabilitySumSplits(c, size, size);
    LowerSumIsCoefficient(c, size, 0, 1.0);
    Trivial(Gamma(c.main, c.discount), 1.0);
  }

  lemma {:induction false} AlphaIsNotNegative(level: Level, discount: real, token: nat)
    requires token < |level.values|
    ensures Alpha(level, discount, token) >= 0.0
  {
    if level.total > 0 {
      NotNegative(Discounted(level.values[token], discount), level.total as real);
    }
  }

  lemma {:induction false} GammaIsNotNegative(level: Level, discount: real)
    requires discount >= 0.0
    ensures Gamma(level, discount) >= 0.0
  {
    if level.total > 0 {
      NotNegative(discount, level.distinct as real);
      NotNegative(Times(discount, level.distinct as real), level.total as real);
    }
  }

  lemma {:induction false} LowerIsNotNegative(c: Context, size: nat, i: nat, token: nat, coefficient: real)
    requires SameVocabulary(c, size) && i <= |c.lower| && token < size && coefficient >= 0.0 && c.discount >= 0.0
    ensures LowerFrom(c, size, i, token, coefficient) >= 0.0
    decreases |c.lower| - i
  {
    hide Times, Over, Alpha, Gamma;
    if i == |c.lower| {
      NotNegative(coefficient, size as real);
    } else {
      AlphaIsNotNegative(c.lower[i], c.discount, token);
      GammaIsNotNegative(c.lower[i], c.discount);
      NotNegative(Alpha(c.lower[i], c.discount, token), coefficient);
      NotNegative(coefficient, Gamma(c.lower[i], c.discount));
      LowerIsNotNegative(c, size, i + 1, token, Times(coefficient, Gamma(c.lower[i], c.discount)));
    }
  }

  /** For every history and order the interpolated probabilities are a distribution. */
  lemma {:induction false} IsADistribution(c: Context, size: nat, token: nat)
    requires SameVocabulary(c, size) && token < size && c.discount >= 0.0
    requires Consistent(c.main, c.discount) && forall k :: 0 <= k < |c.lower| ==> Consistent(c.lower[k], c.discount)
    ensures ProbabilitySum(c, size, size) == 1.0
    ensures Probability(c, size, token) >= 0.0
  {
    hide Times, Over, Alpha, Gamma, LowerFrom, Consistent, Balanced;
    ConsistentIsBalanced(c.main, c.discount);
    forall k | 0 <= k < |c.lower|
      ensures Balanced(c.lower[k], c.discount)
    {
      ConsistentIsBalanced(c.lower[k], c.discount);
    }
    SumIsOneWhenBalanced(c, size);
    AlphaIsNotNegative(c.main, c.discount, token);
    GammaIsNotNegative(c.main, c.discount);
    LowerIsNotNegative(c, size, 0, token, 1.0);
    NotNegative(Gamma(c.main, c.discount), LowerFrom(c, size, 0, token, 1.0));
  }

  // ----- trie keys -----

  const VOCABULARY_SIZE: nat := 6000
  const ENCODING_RADIX: nat := 126
  const KEY_VALUE_DELIMITER: byte := 128
  const PREDICTIVE_DELIMITER: byte := 129

  datatype NGramError = InvalidTrieEntry | CountOverflow

  function EncodeToken(token: nat): (r: seq<byte>)
    requires token < VOCABULARY_SIZE
    ensures |r| == 2
  {
    [(token / ENCODING_RADIX + 1) as byte, (token % ENCODING_RADIX + 1) as byte]
  }

  function EncodeKey(key: seq<nat>): Result<seq<byte>, NGramError> {
    if key == [] then Ok([])
    else
      match EncodeKey(key[..|key| - 1])
      case Err(error) => Err(error)
      case Ok(before) =>
        if key[|key| - 1] >= VOCABULARY_SIZE then Err(InvalidTrieEntry) else Ok(before + EncodeToken(key[|key| - 1]))
  }

  function DecodeToken(high: byte, low: byte): (r: Result<nat, NGramError>)
    ensures r.Ok? ==> r.value < VOCABULARY_SIZE
  {
    if high == 0 || low == 0 then Err(InvalidTrieEntry)
    else
      var token := (high as nat - 1) * ENCODING_RADIX + (low as nat - 1);
      if token < VOCABULARY_SIZE then Ok(token) else Err(InvalidTrieEntry)
  }

  method WriteKey(key: seq<nat>) returns (output: Result<seq<byte>, NGramError>)
    ensures output == EncodeKey(key)
  {
    hide EncodeToken;
    var bytes: seq<byte> := [];
    for i := 0 to |key|
      invariant EncodeKey(key[..i]) == Ok(bytes)
    {
      assert key[..i + 1][..i] == key[..i];
      if key[i] >= VOCABULARY_SIZE {
        KeyFails(key, i + 1);
        return Err(InvalidTrieEntry);
      }
      bytes := bytes + EncodeToken(key[i]);
    }
    assert key[..|key|] == key;
    output := Ok(bytes);
  }

  lemma {:induction false} KeyFails(key: seq<nat>, i: nat)
    requires i <= |key| && EncodeKey(key[..i]).Err?
    ensures EncodeKey(key) == Err(InvalidTrieEntry)
  {
    hide EncodeToken;
    if i < |key| {
      assert key[..|key| - 1][..i] == key[..i];
      KeyFails(key[..|key| - 1], i);
    } else {
      assert key[..i] == key;
      KeyFailure(key);
    }
  }

  lemma {:induction false} KeyFailure(key: seq<nat>)
    ensures EncodeKey(key).Err? ==> EncodeKey(key) == Err(InvalidTrieEntry)
  {
    hide EncodeToken;
    if key != [] {
      KeyFailure(key[..|key| - 1]);
    }
  }

  /** A token read back is the token written, and no byte of a key is a delimiter. */
  lemma {:induction false} TokenRoundTrip(token: nat)
    requires token < VOCABULARY_SIZE
    ensures DecodeToken(EncodeToken(token)[0], EncodeToken(token)[1]) == Ok(token)
    ensures forall i :: 0 <= i < 2 ==> 0 < EncodeToken(token)[i] < KEY_VALUE_DELIMITER < PREDICTIVE_DELIMITER
  {
    assert token == (token / ENCODING_RADIX) * ENCODING_RADIX + token % ENCODING_RADIX;
  }

  /** Different keys are written differently. */
  lemma {:induction false} KeysAreWrittenApart(a: seq<nat>, b: seq<nat>)
    requires EncodeKey(a).Ok? && EncodeKey(a) == EncodeKey(b)
    ensures a == b
  {
    hide EncodeToken, DecodeToken;
    KeyLength(a);
    KeyLength(b);
    if a != [] {
      var x, y := a[|a| - 1], b[|b| - 1];
      TokenRoundTrip(x);
      TokenRoundTrip(y);
      var before, other := EncodeKey(a[..|a| - 1]).value, EncodeKey(b[..|b| - 1]).value;
      KeyLength(a[..|a| - 1]);
      KeyLength(b[..|b| - 1]);
      SameEnds(before, EncodeToken(x), other, EncodeToken(y));
      KeysAreWrittenApart(a[..|a| - 1], b[..|b| - 1]);
      assert a == a[..|a| - 1] + [x] && b == b[..|b| - 1] + [y];
    }
  }

  lemma {:induction false} SameEnds(a: seq<byte>, x: seq<byte>, b: seq<byte>, y: seq<byte>)
    requires |a| == |b| && a + x == b + y
    ensures a == b && x == y
  {
    assert a == (a + x)[..|a|] && b == (b + y)[..|b|] && x == (a + x)[|a|..] && y == (b + y)[|b|..];
  }

  lemma {:induction false} KeyLength(key: seq<nat>)
    requires EncodeKey(key).Ok?
    ensures |EncodeKey(key).value| == 2 * |key|
    ensures key != [] ==> EncodeKey(key[..|key| - 1]).Ok? && key[|key| - 1] < VOCABULARY_SIZE
  {
    hide EncodeToken;
    if key != [] {
      KeyLength(key[..|key| - 1]);
    }
  }
}
