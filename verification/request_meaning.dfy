/** What the evaluator makes of a request: how much is addressed already, and how a fixed prefix moves
    from the candidate to its context (`zenz.rs`). */
module RequestMeanings {
  import opened Wrappers
  import opened Bytes
  import opened Evaluations
  import opened ZenzEvaluators

  function Concatenated(parts: seq<Utf8>): Utf8 {
    if parts == [] then [] else parts[0] + Concatenated(parts[1..])
  }

  lemma {:induction false} ConcatenatedSnoc(parts: seq<Utf8>, last: Utf8)
    ensures Concatenated(parts + [last]) == Concatenated(parts) + last
  {
    if parts == [] {
      assert [] + [last] == [last] && [last][1..] == [] && last + [] == last;
    } else {
      assert (parts + [last])[1..] == parts[1..] + [last];
      ConcatenatedSnoc(parts[1..], last);
    }
  }

  lemma {:induction false} JoinIsConcatenated(parts: seq<Utf8>)
    ensures Join(parts) == Concatenated(parts)
  {
    if parts != [] {
      JoinIsConcatenated(parts[..|parts| - 1]);
      ConcatenatedSnoc(parts[..|parts| - 1], parts[|parts| - 1]);
      assert parts == parts[..|parts| - 1] + [parts[|parts| - 1]];
    }
  }

  lemma {:induction false} ConcatenatedAppend(a: seq<Utf8>, b: seq<Utf8>)
    ensures Concatenated(a + b) == Concatenated(a) + Concatenated(b)
  {
    if a == [] {
      assert a + b == b;
    } else {
      assert (a + b)[1..] == a[1..] + b;
      ConcatenatedAppend(a[1..], b);
    }
  }

  // ----- what is addressed -----

  lemma {:induction false} AddressedFrom(graphemes: seq<Utf8>, constraint: seq<byte>, prefix: Utf8) returns (k: nat)
    requires prefix <= constraint
    ensures k <= |graphemes| && AddressedPrefix(graphemes, constraint, prefix) == prefix + Concatenated(graphemes[..k])
    ensures prefix + Concatenated(graphemes[..k]) <= constraint
    ensures k < |graphemes| ==> !(prefix + Concatenated(graphemes[..k + 1]) <= constraint)
    decreases |graphemes|
  {
    k := 0;
    assert graphemes[..0] == [] && prefix + [] == prefix;
    if graphemes != [] {
      var next := prefix + graphemes[0];
      if next <= constraint {
        var n := AddressedFrom(graphemes[1..], constraint, next);
        k := n + 1;
        assert graphemes[..k][1..] == graphemes[1..][..n];
        assert next + Concatenated(graphemes[1..][..n]) == prefix + Concatenated(graphemes[..k]);
        if k < |graphemes| {
          assert graphemes[..k + 1][1..] == graphemes[1..][..n + 1];
          assert next + Concatenated(graphemes[1..][..n + 1]) == prefix + Concatenated(graphemes[..k + 1]);
        }
      } else {
        assert graphemes[..1][1..] == [] && graphemes[0] + [] == graphemes[0];
      }
    }
  }

  /** The addressed prefix is made of the candidate's first graphemes, as many as the constraint
      starts with. */
  lemma {:induction false} AddressedMeans(graphemes: seq<Utf8>, constraint: seq<byte>)
    ensures exists k :: 0 <= k <= |graphemes|
              && AddressedPrefix(graphemes, constraint, []) == Concatenated(graphemes[..k])
              && Concatenated(graphemes[..k]) <= constraint
              && (k < |graphemes| ==> !(Concatenated(graphemes[..k + 1]) <= constraint))
  {
    var k := AddressedFrom(graphemes, constraint, []);
    assert [] + Concatenated(graphemes[..k]) == Concatenated(graphemes[..k]);
    if k < |graphemes| {
      assert [] + Concatenated(graphemes[..k + 1]) == Concatenated(graphemes[..k + 1]);
    }
  }

  /** An evaluation asks the model about the tokens behind the addressed ones, if the prompt is that
      of the evaluation before and no alternatives are wanted, and about all of them otherwise. */
  lemma {:induction false} AsIsMeans(s: Setting, r: Request, previous: Utf8, promptTokens: seq<int>)
    requires s.model.tokenize(s.rules.normalize(PromptOf(s, r)), true) == Ok(promptTokens)
    ensures ReferenceAsIs(s, r, previous).previous == s.rules.normalize(PromptOf(s, r))
    ensures var addressed := AddressedPrefix(s.rules.graphemes(r.candidate.text), r.constraint.bytes, []);
            var all := EvaluateTokens(s.model, s.rules, r.candidate, r.rich, r.personalization, promptTokens, CandidateTextOf(s, r), 0);
            var result := ReferenceAsIs(s, r, previous).result;
            && (r.rich || previous != s.rules.normalize(PromptOf(s, r)) || addressed == [] ==> result == all)
            && (!r.rich && previous == s.rules.normalize(PromptOf(s, r)) && addressed != [] ==>
                  match s.model.tokenize(s.rules.normalize(addressed), false)
                  case Err(error) => result == Err(error)
                  case Ok(tokens) =>
                    result == EvaluateTokens(s.model, s.rules, r.candidate, r.rich, r.personalization, promptTokens, CandidateTextOf(s, r), |tokens|))
  {
    hide EvaluateTokens, PromptOf, CandidateTextOf, AddressedPrefix;
  }

  /** The prompt names each word of the user dictionary with its reading, in order. */
  lemma {:induction false} DictionaryPromptMeans(prompts: Prompts, entries: seq<WordEntry>, e: WordEntry)
    ensures UserDictionaryPrompt(prompts, []) == []
    ensures UserDictionaryPrompt(prompts, entries + [e])
            == if e.userDictionary then (((UserDictionaryPrompt(prompts, entries) + e.word) + prompts.open) + prompts.hiragana(e.ruby)) + prompts.close
               else UserDictionaryPrompt(prompts, entries)
  {
    var before := UserDictionaryPrompt(prompts, entries);
    assert (entries + [e])[..|entries|] == entries;
    assert before + [] == before;
    if e.userDictionary {
      assert before + (((e.word + prompts.open) + prompts.hiragana(e.ruby)) + prompts.close)
             == (((before + e.word) + prompts.open) + prompts.hiragana(e.ruby)) + prompts.close;
    }
  }

  // ----- a fixed prefix -----

  /** How many bytes the words of the first entries have. */
  function WordBytes(entries: seq<WordEntry>, n: nat): nat
    requires n <= |entries|
  {
    if n == 0 then 0 else WordBytes(entries, n - 1) + |entries[n - 1].word|
  }

  lemma {:induction false} WordBytesTail(entries: seq<WordEntry>, n: nat)
    requires 0 < n <= |entries|
    ensures WordBytes(entries, n) == |entries[0].word| + WordBytes(entries[1..], n - 1)
  {
    if n > 1 {
      WordBytesTail(entries, n - 1);
    }
  }

  /** The entries that are left are those behind the last one that lies in the fixed bytes. */
  lemma {:induction false} DroppingMeans(entries: seq<WordEntry>, covered: nat, byteCount: nat)
    requires covered <= byteCount
    ensures exists k :: 0 <= k <= |entries| && DroppingFixed(entries, covered, byteCount) == entries[k..]
              && covered + WordBytes(entries, k) <= byteCount
              && (k < |entries| ==> covered + WordBytes(entries, k + 1) > byteCount)
    decreases |entries|
  {
    if entries == [] || covered + |entries[0].word| > byteCount {
      assert entries[0..] == entries;
      assert WordBytes(entries, 0) == 0;
      assert entries != [] ==> WordBytes(entries, 0 + 1) == |entries[0].word|;
    } else {
      var next := covered + |entries[0].word|;
      DroppingMeans(entries[1..], next, byteCount);
      var n :| 0 <= n <= |entries[1..]| && DroppingFixed(entries[1..], next, byteCount) == entries[1..][n..]
        && next + WordBytes(entries[1..], n) <= byteCount
        && (n < |entries[1..]| ==> next + WordBytes(entries[1..], n + 1) > byteCount);
      var k := n + 1;
      WordBytesTail(entries, k);
      assert entries[1..][n..] == entries[k..];
      if k < |entries| {
        WordBytesTail(entries, k + 1);
      }
    }
  }

  /** When a fixed prefix applies: the candidate and the constraint both start with it, and so many
      graphemes have been typed, before the cursor if there is one. */
  lemma {:induction false} FixedAppliesExactly(s: Setting, r: Request)
    ensures FixedApplies(s, r) <==>
            exists fixed: seq<byte>, rubyCount: nat, text: Utf8, bytes: seq<byte> ::
              && r.constraint.fixedPrefix == Some(FixedPrefix(|fixed|, rubyCount)) && fixed != []
              && r.candidate.text == fixed + text && r.constraint.bytes == fixed + bytes
              && rubyCount <= |s.rules.graphemes(r.input)| && (r.cursor.None? || rubyCount <= r.cursor.value)
  {
    if FixedApplies(s, r) {
      var n := r.constraint.fixedPrefix.value.byteCount;
      var fixed := r.constraint.bytes[..n];
      assert r.constraint.bytes == fixed + r.constraint.bytes[n..];
      assert r.candidate.text == fixed + r.candidate.text[n..];
    }
    if fixed: seq<byte>, rubyCount: nat, text: Utf8, bytes: seq<byte> :|
      && r.constraint.fixedPrefix == Some(FixedPrefix(|fixed|, rubyCount)) && fixed != []
      && r.candidate.text == fixed + text && r.constraint.bytes == fixed + bytes
      && rubyCount <= |s.rules.graphemes(r.input)| && (r.cursor.None? || rubyCount <= r.cursor.value)
    {
      assert r.constraint.bytes[..|fixed|] == fixed;
    }
  }

  /** The request for what is left behind a fixed prefix: candidate, constraint, input and cursor
      without it, the left context with it at its end, and the entries behind it. */
  lemma {:induction false} RemainingMeans(s: Setting, r: Request)
    requires FixedApplies(s, r)
    ensures var fixed, rest := r.constraint.fixedPrefix.value, Remaining(s, r);
            var bytes := r.constraint.bytes[..fixed.byteCount];
            && bytes + rest.candidate.text == r.candidate.text && bytes + rest.constraint.bytes == r.constraint.bytes
            && rest.version.leftContext == r.version.leftContext + bytes && rest.version.settings == r.version.settings
            && Concatenated(s.rules.graphemes(r.input)[..fixed.rubyCount]) + rest.input == Concatenated(s.rules.graphemes(r.input))
            && (r.cursor.Some? <==> rest.cursor.Some?)
            && (r.cursor.Some? ==> rest.cursor.value + fixed.rubyCount == r.cursor.value)
            && rest.constraint.fixedPrefix == None && rest.constraint.hasEos == r.constraint.hasEos
            && rest.rich == r.rich && rest.personalization == r.personalization
            && exists k :: 0 <= k <= |r.candidate.entries| && rest.candidate.entries == r.candidate.entries[k..]
                 && WordBytes(r.candidate.entries, k) <= fixed.byteCount
                 && (k < |r.candidate.entries| ==> WordBytes(r.candidate.entries, k + 1) > fixed.byteCount)
  {
    hide DroppingFixed, WordBytes, Join, Concatenated;
    var fixed := r.constraint.fixedPrefix.value;
    var graphemes := s.rules.graphemes(r.input);
    DroppingMeans(r.candidate.entries, 0, fixed.byteCount);
    JoinIsConcatenated(graphemes[fixed.rubyCount..]);
    ConcatenatedAppend(graphemes[..fixed.rubyCount], graphemes[fixed.rubyCount..]);
    assert graphemes == graphemes[..fixed.rubyCount] + graphemes[fixed.rubyCount..];
  }

  /** The answer to the whole request is that to the rest, every text with the fixed prefix in front. */
  lemma {:induction false} FixedAnswer(s: Setting, r: Request, previous: Utf8)
    requires FixedApplies(s, r)
    ensures var fixed := r.constraint.bytes[..r.constraint.fixedPrefix.value.byteCount];
            var whole, rest := Reference(s, r, previous), ReferenceAsIs(s, Remaining(s, r), previous);
            && (!s.rules.isUtf8(fixed) ==> whole.result.Err? && whole.previous == previous)
            && (s.rules.isUtf8(fixed) ==>
                  && whole.previous == rest.previous
                  && match rest.result
                     case Err(error) => whole.result == Err(error)
                     case Ok(FixRequired(bytes)) => whole.result == Ok(FixRequired(fixed + bytes))
                     case Ok(WholeResult(text)) => whole.result == Ok(WholeResult(fixed + text))
                     case Ok(Pass(score, alternatives)) =>
                       && whole.result.Ok? && whole.result.value.Pass? && whole.result.value.score == score
                       && |whole.result.value.alternatives| == |alternatives|
                       && forall i :: 0 <= i < |alternatives| ==>
                            whole.result.value.alternatives[i] == Alternative(alternatives[i].probabilityRatio, fixed + alternatives[i].bytes))
  {
    hide Remaining, ReferenceAsIs, FixedApplies;
  }
}
