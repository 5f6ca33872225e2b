/** What an n-gram prediction depends on, and how it is put together (`ngram.rs`). */
module NGramMeanings {
  import opened Wrappers
  import opened Bytes
  import opened NGrams
  import opened NGramTries

  // ----- the context -----

  /** Histories that end alike have the same context, whatever came before. */
  lemma {:induction false} SameEndSameContext(a: seq<int>, b: seq<int>, size: nat, window: seq<nat>)
    requires size <= |a| && size <= |b| && a[|a| - size..] == b[|b| - size..]
    ensures IsContext(window, a, size) <==> IsContext(window, b, size)
    ensures IsContext(window, a, size) ==> forall i :: 0 <= i < size ==> window[i] == a[|a| - size..][i]
  {
    var x, y := a[|a| - size..], b[|b| - size..];
    forall i | 0 <= i < size
      ensures x[i] == a[|a| - (size - i)] && y[i] == b[|b| - (size - i)]
    {
    }
  }

  /** Before anything is read, the context is all start tokens. */
  lemma {:induction false} EmptyHistory(size: nat, window: seq<nat>)
    ensures IsContext(window, [], size) <==> |window| == size && forall i :: 0 <= i < size ==> window[i] == 2
  {
  }

  /** One more token: the first of the context goes, and the token comes at its end. */
  lemma {:induction false} OneMoreToken(history: seq<int>, token: nat, size: nat, window: seq<nat>)
    requires size > 0 && IsContext(window, history, size)
    ensures IsContext(window[1..] + [token], history + [token], size)
  {
  }

  // ----- the counts read -----

  /** The count of a token behind a context is the one written for the two, or nothing. */
  lemma {:induction false} CountMeans(grams: seq<Gram>, context: seq<nat>, token: nat)
    requires GoodGrams(grams)
    ensures forall g :: g in grams && g.context == context && g.token == token ==> CountOf(grams, context, token) == g.count
    ensures (forall g :: g in grams ==> g.context != context || g.token != token) ==> CountOf(grams, context, token) == 0
  {
    hide Writable;
    if grams != [] {
      var init, last := grams[..|grams| - 1], grams[|grams| - 1];
      CountMeans(init, context, token);
      assert grams == init + [last];
      if last.context == context && last.token == token {
        forall g | g in grams && g.context == context && g.token == token
          ensures g == last
        {
          var i :| 0 <= i < |grams| && grams[i] == g;
        }
      }
    }
  }

  /** A level that says exactly what was counted behind a context. */
  ghost predicate SaysCounts(level: Level, grams: seq<Gram>, context: seq<nat>) {
    && |level.values| == 6000
    && (forall t :: 0 <= t < 6000 ==> level.values[t] == CountOf(grams, context, t))
    && level.total == Sum(level.values) && level.distinct == Seen(level.values)
  }

  lemma {:induction false} LowerLevelsSay(m: Model, grams: seq<Gram>, numbers: seq<Number>, window: seq<nat>)
    requires Trained(grams, numbers, m.discount) && m.lower == Written(grams) && m.lowerNumbers == WrittenNumbers(numbers)
    requires AreTokens(window)
    ensures LevelsBelow(m, window).Ok? && |LevelsBelow(m, window).value| == if window == [] then 0 else |window| - 1
    ensures forall k :: 0 <= k < |window| - 1 ==> SaysCounts(LevelsBelow(m, window).value[k], grams, window[k + 1..])
  {
    hide Trained, LevelAt, Written, WrittenNumbers, CountOf, Sum, Seen;
    if |window| > 1 {
      TrainedLevelIsConsistent(grams, numbers, m.discount, window[1..]);
      LowerLevelsSay(m, grams, numbers, window[1..]);
      forall k | 0 <= k < |window| - 1
        ensures SaysCounts(LevelsBelow(m, window).value[k], grams, window[k + 1..])
      {
        if k > 0 {
          assert window[1..][k..] == window[k + 1..];
        }
      }
    }
  }

  /** The levels read behind a context: the counts behind the whole of it, and the continuation
      counts behind each of its shorter ends, one token shorter each time. */
  lemma {:induction false} LevelsSayCounts(m: Model, grams: seq<Gram>, numbers: seq<Number>, continuations: seq<Gram>,
                                           predecessors: seq<Number>, window: seq<nat>)
    requires Trained(grams, numbers, m.discount) && m.main == Written(grams) && m.mainNumbers == WrittenNumbers(numbers)
    requires Trained(continuations, predecessors, m.discount)
    requires m.lower == Written(continuations) && m.lowerNumbers == WrittenNumbers(predecessors)
    requires AreTokens(window) && window != []
    ensures ContextAt(m, window).Ok?
    ensures var c := ContextAt(m, window).value;
            && c.discount == m.discount && SaysCounts(c.main, grams, window) && |c.lower| == |window| - 1
            && forall k :: 0 <= k < |c.lower| ==> SaysCounts(c.lower[k], continuations, window[k + 1..])
  {
    hide Trained, LevelAt, Written, WrittenNumbers, CountOf, Sum, Seen, LevelsBelow;
    TrainedLevelIsConsistent(grams, numbers, m.discount, window);
    LowerLevelsSay(m, continuations, predecessors, window);
  }

  // ----- the interpolation -----

  /** A token's share at a level: its discounted count, out of all that was counted. */
  ghost predicate IsShare(share: real, level: Level, discount: real, token: nat)
    requires token < |level.values|
  {
    if level.total == 0 then share == 0.0
    else
      var count := level.values[token] as real;
      share * (level.total as real) == if count > discount then count - discount else 0.0
  }

  /** What a level passes on: a discount for each token seen, out of all that was counted. */
  ghost predicate IsRest(rest: real, level: Level, discount: real) {
    if level.total == 0 then rest == 1.0 else rest * (level.total as real) == discount * (level.distinct as real)
  }

  lemma {:induction false} SharesAndRests(level: Level, discount: real, token: nat)
    requires token < |level.values|
    ensures IsShare(Alpha(level, discount, token), level, discount, token) && IsRest(Gamma(level, discount), level, discount)
  {
    if level.total > 0 {
      TakesBack(Discounted(level.values[token], discount), level.total as real);
      TakesBack(Times(discount, level.distinct as real), level.total as real);
    }
  }

  /** The levels from `k` on: a token's share at the first, and of what that passes on, what the
      levels below give; in the end every token gets the same. */
  function Interpolated(levels: seq<Level>, discount: real, size: nat, k: nat, token: nat): real
    requires size > 0 && k <= |levels| && token < size && forall i :: 0 <= i < |levels| ==> |levels[i].values| == size
    decreases |levels| - k
  {
    if k == |levels| then 1.0 / size as real
    else Alpha(levels[k], discount, token) + Gamma(levels[k], discount) * Interpolated(levels, discount, size, k + 1, token)
  }

  lemma {:induction false} Associate(a: real, b: real, c: real)
    ensures Times(Times(a, b), c) == Times(a, Times(b, c))
  {
  }

  lemma {:induction false} Share(c: real, n: real)
    requires n != 0.0
    ensures Over(c, n) == Times(c, 1.0 / n)
  {
  }

  lemma {:induction false} LowerIsInterpolated(c: Context, size: nat, i: nat, token: nat, coefficient: real)
    requires SameVocabulary(c, size) && i <= |c.lower| && token < size
    ensures LowerFrom(c, size, i, token, coefficient) == Times(coefficient, Interpolated(c.lower, c.discount, size, i, token))
    decreases |c.lower| - i
  {
    hide Times, Over, Alpha, Gamma;
    if i == |c.lower| {
      Share(coefficient, size as real);
    } else {
      var alpha, gamma := Alpha(c.lower[i], c.discount, token), Gamma(c.lower[i], c.discount);
      var below := Interpolated(c.lower, c.discount, size, i + 1, token);
      LowerIsInterpolated(c, size, i + 1, token, Times(coefficient, gamma));
      Associate(coefficient, gamma, below);
      Product(gamma, below);
      Distribute(alpha, Times(gamma, below), coefficient);
      Trivial(alpha, coefficient);
      assert Interpolated(c.lower, c.discount, size, i, token) == alpha + Times(gamma, below);
      assert LowerFrom(c, size, i, token, coefficient)
             == Times(alpha, coefficient) + LowerFrom(c, size, i + 1, token, Times(coefficient, gamma));
    }
  }

  lemma {:induction false} Product(a: real, b: real)
    ensures Times(a, b) == a * b
  {
  }

  /** The probability of a token interpolates all levels, the longest context first. */
  lemma {:induction false} ProbabilityInterpolates(c: Context, size: nat, token: nat)
    requires SameVocabulary(c, size) && token < size
    ensures Probability(c, size, token)
            == Alpha(c.main, c.discount, token) + Gamma(c.main, c.discount) * Interpolated(c.lower, c.discount, size, 0, token)
  {
    hide Over, Alpha, Gamma, LowerFrom;
    LowerIsInterpolated(c, size, 0, token, 1.0);
  }

  // ----- the bytes of the tries -----

  /** A token in two bytes, a quotient and a remainder by 126, both from one on. */
  predicate HasToken(bytes: seq<byte>, at: nat, token: nat) {
    at + 2 <= |bytes| && bytes[at] as nat == token / 126 + 1 && bytes[at + 1] as nat == token % 126 + 1
  }

  /** A number in five digits by 126, the highest first, all from one on. */
  predicate HasNumber(bytes: seq<byte>, at: nat, value: nat) {
    && at + 5 <= |bytes|
    && (forall i :: at <= i < at + 5 ==> 1 <= bytes[i] <= 126)
    && value == ((((bytes[at] as int - 1) * 126 + bytes[at + 1] as int - 1) * 126 + bytes[at + 2] as int - 1) * 126
                 + bytes[at + 3] as int - 1) * 126 + bytes[at + 4] as int - 1
  }

  lemma {:induction false} KeyLayout(key: seq<nat>, k: nat)
    requires AreTokens(key) && k < |key|
    ensures |KeyBytes(key)| == 2 * |key| && HasToken(KeyBytes(key), 2 * k, key[k])
  {
    var init := key[..|key| - 1];
    TokensHaveKeys(key);
    TokensHaveKeys(init);
    KeyLength(init);
    assert KeyBytes(key) == KeyBytes(init) + EncodeToken(key[|key| - 1]);
    if k < |init| {
      KeyLayout(init, k);
    }
  }

  lemma {:induction false} KeyLength(key: seq<nat>)
    requires AreTokens(key)
    ensures |KeyBytes(key)| == 2 * |key|
  {
    TokensHaveKeys(key);
    if key != [] {
      TokensHaveKeys(key[..|key| - 1]);
      KeyLength(key[..|key| - 1]);
    }
  }

  lemma {:induction false} NumberMeans(value: nat)
    requires value <= 0xFFFF_FFFF
    ensures HasNumber(ValueBytes(value), 0, value)
  {
    var a, b, c := value / 126, value / 126 / 126, value / 126 / 126 / 126;
    var d := c / 126;
    assert d / 126 == 0;
    assert Digits(d, 1) == Digits(0, 0) + [(d % 126 + 1) as byte] == [(d + 1) as byte];
    assert Digits(c, 2) == Digits(d, 1) + [(c % 126 + 1) as byte];
    assert Digits(b, 3) == Digits(c, 2) + [(b % 126 + 1) as byte];
    assert Digits(a, 4) == Digits(b, 3) + [(a % 126 + 1) as byte];
    assert Digits(value, 5) == Digits(a, 4) + [(value % 126 + 1) as byte];
  }

  /** A counted gram in the trie: its context, 129, the token behind it, 128, the count. */
  lemma {:induction false} GramLayout(g: Gram, k: nat)
    requires Writable(g)
    ensures var e, n := Entry(g), 2 * |g.context|;
            && |e| == n + 9 && e[n] == 129 && HasToken(e, n + 1, g.token) && e[n + 3] == 128 && HasNumber(e, n + 4, g.count)
            && (k < |g.context| ==> HasToken(e, 2 * k, g.context[k]))
  {
    hide KeyBytes, ValueBytes;
    KeyLength(g.context);
    NumberMeans(g.count);
    if k < |g.context| {
      KeyLayout(g.context, k);
    }
  }
}
