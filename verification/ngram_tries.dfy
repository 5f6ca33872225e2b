/** The counts in the model's tries (`ngram.rs`): reading them back from a search. */
module NGramTries {
  import opened Wrappers
  import opened Numbers
  import opened Bytes
  import opened NGrams

  const VALUE_LENGTH: nat := 5

  // ----- numbers -----

  /** The digits of a number, first to last, stopping where 32 bits do not suffice. */
  function DecodeDigits(bytes: seq<byte>): Result<nat, NGramError> {
    if bytes == [] then Ok(0)
    else
      match DecodeDigits(bytes[..|bytes| - 1])
      case Err(error) => Err(error)
      case Ok(before) =>
        var digit := bytes[|bytes| - 1] as nat;
        if digit == 0 then Err(InvalidTrieEntry)
        else if before * ENCODING_RADIX + (digit - 1) > U32_MAX then Err(CountOverflow)
        else Ok(before * ENCODING_RADIX + (digit - 1))
  }

  function DecodeValue(value: seq<byte>): Result<nat, NGramError> {
    if |value| < VALUE_LENGTH then Err(InvalidTrieEntry) else DecodeDigits(value[..VALUE_LENGTH])
  }

  lemma {:induction false} DigitsFail(bytes: seq<byte>, i: nat)
    requires i <= |bytes| && DecodeDigits(bytes[..i]).Err?
    ensures DecodeDigits(bytes) == DecodeDigits(bytes[..i])
    decreases |bytes|
  {
    if i < |bytes| {
      assert bytes[..|bytes| - 1][..i] == bytes[..i];
      DigitsFail(bytes[..|bytes| - 1], i);
    } else {
      assert bytes[..i] == bytes;
    }
  }

  method ReadValue(value: seq<byte>) returns (r: Result<nat, NGramError>)
    ensures r == DecodeValue(value)
  {
    if |value| < VALUE_LENGTH {
      return Err(InvalidTrieEntry);
    }
    var bytes := value[..VALUE_LENGTH];
    var decoded: nat := 0;
    for i := 0 to VALUE_LENGTH
      invariant DecodeDigits(bytes[..i]) == Ok(decoded)
    {
      assert bytes[..i + 1][..i] == bytes[..i];
      if bytes[i] == 0 {
        DigitsFail(bytes, i + 1);
        return Err(InvalidTrieEntry);
      }
      if decoded * ENCODING_RADIX + (bytes[i] as nat - 1) > U32_MAX {
        DigitsFail(bytes, i + 1);
        return Err(CountOverflow);
      }
      decoded := decoded * ENCODING_RADIX + (bytes[i] as nat - 1);
    }
    assert bytes[..VALUE_LENGTH] == bytes;
    r := Ok(decoded);
  }

  function Power(n: nat): nat {
    if n == 0 then 1 else ENCODING_RADIX * Power(n - 1)
  }

  /** A number in the fixed format: digits from one on. */
  function Digits(value: nat, n: nat): (r: seq<byte>)
    ensures |r| == n
  {
    if n == 0 then [] else Digits(value / ENCODING_RADIX, n - 1) + [(value % ENCODING_RADIX + 1) as byte]
  }

  lemma {:induction false} DigitsRoundTrip(value: nat, n: nat)
    requires value < Power(n) && value <= U32_MAX
    ensures DecodeDigits(Digits(value, n)) == Ok(value)
  {
    if n > 0 {
      assert Digits(value, n)[..n - 1] == Digits(value / ENCODING_RADIX, n - 1);
      DigitsRoundTrip(value / ENCODING_RADIX, n - 1);
    }
  }

  function ValueBytes(value: nat): (r: seq<byte>)
    ensures |r| == VALUE_LENGTH
  {
    Digits(value, VALUE_LENGTH)
  }

  /** Every 32-bit count is read back from its five digits, whatever follows them. */
  lemma {:induction false} ValueRoundTrip(value: nat, rest: seq<byte>)
    requires value <= U32_MAX
    ensures DecodeValue(ValueBytes(value) + rest) == Ok(value)
  {
    hide DecodeDigits, Digits;
    assert Power(1) == 126 && Power(2) == 126 * 126 && Power(3) == 126 * Power(2) && Power(4) == 126 * Power(3) && Power(5) == 126 * Power(4);
    DigitsRoundTrip(value, VALUE_LENGTH);
    assert (ValueBytes(value) + rest)[..VALUE_LENGTH] == ValueBytes(value);
  }

  // ----- searching -----

  /** A predictive search: the entries that start with the query, in the trie's order. */
  function Found(entries: seq<seq<byte>>, query: seq<byte>): seq<seq<byte>> {
    if entries == [] then []
    else
      Found(entries[..|entries| - 1], query)
      + if query <= entries[|entries| - 1] then [entries[|entries| - 1]] else []
  }

  lemma {:induction false} FoundStarts(entries: seq<seq<byte>>, query: seq<byte>)
    ensures forall i :: 0 <= i < |Found(entries, query)| ==> query <= Found(entries, query)[i]
  {
    if entries != [] {
      FoundStarts(entries[..|entries| - 1], query);
    }
  }

  /** `get_value`: the number behind the key, if there is one. */
  function ValueOf(entries: seq<seq<byte>>, key: seq<nat>): Result<Option<nat>, NGramError> {
    match EncodeKey(key)
    case Err(error) => Err(error)
    case Ok(bytes) =>
      var query := bytes + [KEY_VALUE_DELIMITER];
      FoundStarts(entries, query);
      if Found(entries, query) == [] then Ok(None)
      else
        match DecodeValue(Found(entries, query)[0][|query|..])
        case Err(error) => Err(error)
        case Ok(value) => Ok(Some(value))
  }

  method GetValue(entries: seq<seq<byte>>, key: seq<nat>) returns (r: Result<Option<nat>, NGramError>)
    ensures r == ValueOf(entries, key)
  {
    hide DecodeValue, EncodeKey, Found;
    var query := WriteKey(key);
    if query.Err? {
      return Err(query.error);
    }
    var bytes := query.value + [KEY_VALUE_DELIMITER];
    FoundStarts(entries, bytes);
    var values := Found(entries, bytes);
    if |values| == 0 {
      return Ok(None);
    }
    var value := ReadValue(values[0][|bytes|..]);
    r := match value case Err(error) => Err(error) case Ok(count) => Ok(Some(count));
  }

  datatype Counts = Counts(values: seq<nat>, total: nat)

  /** The counts from the entries found behind a query of the given length. */
  function Tally(found: seq<seq<byte>>, skip: nat): (r: Result<Counts, NGramError>)
    requires forall i :: 0 <= i < |found| ==> skip <= |found[i]|
    ensures r.Ok? ==> |r.value.values| == VOCABULARY_SIZE
  {
    if found == [] then Ok(Counts(seq(VOCABULARY_SIZE, _ => 0), 0))
    else
      match Tally(found[..|found| - 1], skip)
      case Err(error) => Err(error)
      case Ok(before) => Tallied(before, found[|found| - 1][skip..])
  }

  /** One entry more. Entries of another kind are skipped. */
  function Tallied(before: Counts, suffix: seq<byte>): (r: Result<Counts, NGramError>)
    requires |before.values| == VOCABULARY_SIZE
    ensures r.Ok? ==> |r.value.values| == VOCABULARY_SIZE
  {
    if |suffix| < 8 || suffix[2] != KEY_VALUE_DELIMITER then Ok(before)
    else
      match (DecodeToken(suffix[0], suffix[1]), DecodeValue(suffix[3..]))
      case (Err(error), _) => Err(error)
      case (Ok(_), Err(error)) => Err(error)
      case (Ok(token), Ok(value)) =>
        if before.total + value > U32_MAX then Err(CountOverflow)
        else Ok(Counts(before.values[token := value], before.total + value))
  }

  /** `bulk_values`. */
  function BulkOf(entries: seq<seq<byte>>, prefix: seq<nat>): (r: Result<Counts, NGramError>)
    ensures r.Ok? ==> |r.value.values| == VOCABULARY_SIZE
  {
    match EncodeKey(prefix)
    case Err(error) => Err(error)
    case Ok(bytes) =>
      var query := bytes + [PREDICTIVE_DELIMITER];
      FoundStarts(entries, query);
      Tally(Found(entries, query), |query|)
  }

  lemma {:induction false} TallyFails(found: seq<seq<byte>>, skip: nat, i: nat)
    requires forall k :: 0 <= k < |found| ==> skip <= |found[k]|
    requires i <= |found| && Tally(found[..i], skip).Err?
    ensures Tally(found, skip) == Tally(found[..i], skip)
    decreases |found|
  {
    hide Tallied;
    if i < |found| {
      assert found[..|found| - 1][..i] == found[..i];
      TallyFails(found[..|found| - 1], skip, i);
    } else {
      assert found[..i] == found;
    }
  }

  lemma {:induction false} NothingTallied(skip: nat)
    ensures Tally([], skip) == Ok(Counts(seq(VOCABULARY_SIZE, _ => 0), 0))
  {
  }

  lemma {:induction false} TallyStep(found: seq<seq<byte>>, skip: nat, i: nat)
    requires forall k :: 0 <= k < |found| ==> skip <= |found[k]|
    requires i < |found| && Tally(found[..i], skip).Ok?
    ensures Tally(found[..i + 1], skip) == Tallied(Tally(found[..i], skip).value, found[i][skip..])
  {
    hide Tallied;
    assert found[..i + 1][..i] == found[..i];
  }

  method BulkValues(entries: seq<seq<byte>>, prefix: seq<nat>) returns (r: Result<Counts, NGramError>)
    ensures r == BulkOf(entries, prefix)
  {
    hide DecodeToken, DecodeValue, EncodeKey, Found, Tally;
    var key := WriteKey(prefix);
    if key.Err? {
      return Err(key.error);
    }
    var query := key.value + [PREDICTIVE_DELIMITER];
    FoundStarts(entries, query);
    var found := Found(entries, query);
    var values := new nat[VOCABULARY_SIZE](_ => 0);
    var sum: nat := 0;
    assert values[..] == seq(VOCABULARY_SIZE, _ => 0);
    NothingTallied(|query|);
    for i := 0 to |found|
      invariant Tally(found[..i], |query|) == Ok(Counts(values[..], sum))
    {
      TallyStep(found, |query|, i);
      var suffix := found[i][|query|..];
      if |suffix| < 8 || suffix[2] != KEY_VALUE_DELIMITER {
        continue;
      }
      var token := DecodeToken(suffix[0], suffix[1]);
      if token.Err? {
        TallyFails(found, |query|, i + 1);
        return Err(token.error);
      }
      var value := ReadValue(suffix[3..]);
      if value.Err? {
        TallyFails(found, |query|, i + 1);
        return Err(value.error);
      }
      if sum + value.value > U32_MAX {
        TallyFails(found, |query|, i + 1);
        return Err(CountOverflow);
      }
      values[token.value] := value.value;
      sum := sum + value.value;
    }
    assert found[..|found|] == found;
    r := Ok(Counts(values[..], sum));
  }

  // ----- tries written from counts -----

  /** How often a token was seen behind a context. */
  datatype Gram = Gram(context: seq<nat>, token: nat, count: nat)

  predicate AreTokens(key: seq<nat>) {
    forall i :: 0 <= i < |key| ==> key[i] < VOCABULARY_SIZE
  }

  function KeyBytes(key: seq<nat>): seq<byte>
    requires AreTokens(key)
  {
    TokensHaveKeys(key);
    EncodeKey(key).value
  }

  lemma {:induction false} TokensHaveKeys(key: seq<nat>)
    requires AreTokens(key)
    ensures EncodeKey(key).Ok?
    ensures forall i :: 0 <= i < |EncodeKey(key).value| ==> EncodeKey(key).value[i] < KEY_VALUE_DELIMITER
  {
    hide EncodeToken, DecodeToken;
    if key != [] {
      TokensHaveKeys(key[..|key| - 1]);
      TokenRoundTrip(key[|key| - 1]);
    }
  }

  predicate Writable(g: Gram) {
    AreTokens(g.context) && g.token < VOCABULARY_SIZE && g.count <= U32_MAX
  }

  /** Every count is written once. */
  ghost predicate GoodGrams(grams: seq<Gram>) {
    && (forall i :: 0 <= i < |grams| ==> Writable(grams[i]))
    && (forall i, j :: 0 <= i < j < |grams| ==> grams[i].context != grams[j].context || grams[i].token != grams[j].token)
  }

  function Suffix(g: Gram): (r: seq<byte>)
    requires Writable(g)
    ensures |r| == 8
  {
    EncodeToken(g.token) + [KEY_VALUE_DELIMITER] + ValueBytes(g.count)
  }

  function Entry(g: Gram): seq<byte>
    requires Writable(g)
  {
    KeyBytes(g.context) + [PREDICTIVE_DELIMITER] + Suffix(g)
  }

  function Written(grams: seq<Gram>): (r: seq<seq<byte>>)
    requires GoodGrams(grams)
    ensures |r| == |grams| && forall i :: 0 <= i < |r| ==> r[i] == Entry(grams[i])
  {
    seq(|grams|, i requires 0 <= i < |grams| => Entry(grams[i]))
  }

  /** The counts behind a context, said without any trie. */
  function CountOf(grams: seq<Gram>, context: seq<nat>, token: nat): nat {
    if grams == [] then 0
    else
      var last := grams[|grams| - 1];
      if last.context == context && last.token == token then last.count
      else CountOf(grams[..|grams| - 1], context, token)
  }

  function CountsAfter(grams: seq<Gram>, context: seq<nat>): (r: seq<nat>)
    ensures |r| == VOCABULARY_SIZE && forall t :: 0 <= t < |r| ==> r[t] == CountOf(grams, context, t)
  {
    seq(VOCABULARY_SIZE, t requires 0 <= t < VOCABULARY_SIZE => CountOf(grams, context, t))
  }

  /** Behind a key and a delimiter come only the entries of that very key. */
  lemma {:induction false} KeysAreFoundApart(a: seq<byte>, b: seq<byte>, delimiter: byte, rest: seq<byte>)
    requires delimiter >= KEY_VALUE_DELIMITER
    requires forall i :: 0 <= i < |a| ==> a[i] < KEY_VALUE_DELIMITER
    requires forall i :: 0 <= i < |b| ==> b[i] < KEY_VALUE_DELIMITER
    ensures a + [delimiter] <= b + [delimiter] + rest <==> a == b
  {
    var query, entry := a + [delimiter], b + [delimiter] + rest;
    if query <= entry {
      assert entry[..|query|] == query;
      assert query[Min(|a|, |b|)] == entry[Min(|a|, |b|)];
      assert forall i :: 0 <= i < |a| ==> query[i] == a[i] && entry[i] == b[i];
    }
  }

  lemma {:induction false} EntryFound(g: Gram, context: seq<nat>)
    requires Writable(g) && AreTokens(context)
    ensures var query := KeyBytes(context) + [PREDICTIVE_DELIMITER];
            && (query <= Entry(g) <==> g.context == context)
            && (g.context == context ==> Entry(g)[|query|..] == Suffix(g))
  {
    hide EncodeKey, Suffix;
    TokensHaveKeys(context);
    TokensHaveKeys(g.context);
    KeysAreFoundApart(KeyBytes(context), KeyBytes(g.context), PREDICTIVE_DELIMITER, Suffix(g));
    if KeyBytes(context) == KeyBytes(g.context) {
      KeysAreWrittenApart(context, g.context);
    }
  }

  lemma {:induction false} SuffixIsTallied(before: Counts, g: Gram)
    requires Writable(g) && |before.values| == VOCABULARY_SIZE
    ensures Tallied(before, Suffix(g)) == if before.total + g.count > U32_MAX then Err(CountOverflow)
                                          else Ok(Counts(before.values[g.token := g.count], before.total + g.count))
  {
    hide DecodeToken, DecodeValue, EncodeToken, Digits;
    TokenRoundTrip(g.token);
    ValueRoundTrip(g.count, []);
    var suffix := Suffix(g);
    assert suffix[3..] == ValueBytes(g.count) + [];
    assert suffix[0] == EncodeToken(g.token)[0] && suffix[1] == EncodeToken(g.token)[1];
  }

  lemma {:induction false} SumOfZeros(n: nat)
    ensures Sum(seq(n, _ => 0)) == 0
  {
    if n > 0 {
      assert seq(n, _ => 0)[..n - 1] == seq(n - 1, _ => 0);
      SumOfZeros(n - 1);
    }
  }

  lemma {:induction false} SumWith(values: seq<nat>, i: nat, value: nat)
    requires i < |values| && values[i] == 0
    ensures Sum(values[i := value]) == Sum(values) + value
  {
    var init := values[..|values| - 1];
    if i < |init| {
      assert values[i := value][..|values| - 1] == init[i := value];
      SumWith(init, i, value);
    } else {
      assert values[i := value][..|values| - 1] == init;
    }
  }

  lemma {:induction false} NotCounted(grams: seq<Gram>, g: Gram)
    requires forall i :: 0 <= i < |grams| ==> grams[i].context != g.context || grams[i].token != g.token
    ensures CountOf(grams, g.context, g.token) == 0
  {
    if grams != [] {
      NotCounted(grams[..|grams| - 1], g);
    }
  }

  lemma {:induction false} CountsWith(grams: seq<Gram>, context: seq<nat>)
    requires grams != [] && GoodGrams(grams)
    ensures var init, last := grams[..|grams| - 1], grams[|grams| - 1];
            var before := CountsAfter(init, context);
            && CountsAfter(grams, context) == (if last.context == context then before[last.token := last.count] else before)
            && Sum(CountsAfter(grams, context)) == Sum(before) + (if last.context == context then last.count else 0)
  {
    hide Sum, AreTokens;
    var init, last := grams[..|grams| - 1], grams[|grams| - 1];
    if last.context == context {
      NotCounted(init, last);
      SumWith(CountsAfter(init, context), last.token, last.count);
    }
    var before := CountsAfter(init, context);
    assert CountsAfter(grams, context) == if last.context == context then before[last.token := last.count] else before;
  }

  /** What the entries found behind a context add up to. */
  function Added(counts: seq<nat>): Result<Counts, NGramError> {
    if Sum(counts) > U32_MAX then Err(CountOverflow) else Ok(Counts(counts, Sum(counts)))
  }

  lemma {:induction false} FoundGrows(grams: seq<Gram>, context: seq<nat>)
    requires grams != [] && GoodGrams(grams) && AreTokens(context)
    ensures var query := KeyBytes(context) + [PREDICTIVE_DELIMITER];
            var init, last := grams[..|grams| - 1], grams[|grams| - 1];
            Found(Written(grams), query) == Found(Written(init), query) + if last.context == context then [Entry(last)] else []
  {
    hide KeyBytes, AreTokens, Entry;
    EntryFound(grams[|grams| - 1], context);
    assert Written(grams)[..|grams| - 1] == Written(grams[..|grams| - 1]);
  }

  lemma {:induction false} TallyGrows(found: seq<seq<byte>>, g: Gram, query: seq<byte>)
    requires Writable(g) && query <= Entry(g) && Entry(g)[|query|..] == Suffix(g)
    requires forall i :: 0 <= i < |found| ==> |query| <= |found[i]|
    ensures Tally(found + [Entry(g)], |query|) == match Tally(found, |query|)
                                                  case Err(error) => Err(error)
                                                  case Ok(before) =>
                                                    if before.total + g.count > U32_MAX then Err(CountOverflow)
                                                    else Ok(Counts(before.values[g.token := g.count], before.total + g.count))
  {
    hide Tallied, Suffix, Entry;
    assert (found + [Entry(g)])[..|found|] == found;
    if Tally(found, |query|).Ok? {
      SuffixIsTallied(Tally(found, |query|).value, g);
    }
  }

  lemma {:induction false} TallyFindsCounts(grams: seq<Gram>, context: seq<nat>)
    requires GoodGrams(grams) && AreTokens(context)
    ensures var query := KeyBytes(context) + [PREDICTIVE_DELIMITER];
            var found := Found(Written(grams), query);
            && (forall i :: 0 <= i < |found| ==> |query| <= |found[i]|)
            && Tally(found, |query|) == Added(CountsAfter(grams, context))
  {
    hide KeyBytes, AreTokens, Tally, Sum, CountsAfter, Suffix, Entry, Found, Written;
    var query := KeyBytes(context) + [PREDICTIVE_DELIMITER];
    FoundStarts(Written(grams), query);
    if grams == [] {
      NothingCounted(context);
      NothingTallied(|query|);
      NothingFound(query);
    } else {
      var init, last := grams[..|grams| - 1], grams[|grams| - 1];
      TallyFindsCounts(init, context);
      FoundGrows(grams, context);
      EntryFound(last, context);
      CountsWith(grams, context);
      if last.context == context {
        TallyGrows(Found(Written(init), query), last, query);
      } else {
        assert Found(Written(init), query) + [] == Found(Written(init), query);
      }
    }
  }

  lemma {:induction false} NothingFound(query: seq<byte>)
    ensures Found(Written([]), query) == []
  {
  }

  /** Reading the counts behind a context gives back exactly the counts written for it, whatever
      else the trie holds and in whatever order; it fails exactly if they add up to more than 32
      bits hold. */
  lemma {:induction false} BulkFindsCounts(grams: seq<Gram>, context: seq<nat>)
    requires GoodGrams(grams) && AreTokens(context)
    ensures BulkOf(Written(grams), context) == Added(CountsAfter(grams, context))
  {
    hide EncodeKey, AreTokens, Tally, Sum, CountsAfter, Found, Written;
    TokensHaveKeys(context);
    TallyFindsCounts(grams, context);
  }

  lemma {:induction false} NothingCounted(context: seq<nat>)
    ensures CountsAfter([], context) == seq(VOCABULARY_SIZE, _ => 0) && Sum(CountsAfter([], context)) == 0
  {
    hide Sum;
    SumOfZeros(VOCABULARY_SIZE);
    assert CountsAfter([], context) == seq(VOCABULARY_SIZE, _ => 0);
  }

  // ----- numbers written behind keys -----

  datatype Number = Number(context: seq<nat>, value: nat)

  /** Every key has one number. */
  ghost predicate GoodNumbers(numbers: seq<Number>) {
    && (forall i :: 0 <= i < |numbers| ==> AreTokens(numbers[i].context) && numbers[i].value <= U32_MAX)
    && (forall i, j :: 0 <= i < j < |numbers| ==> numbers[i].context != numbers[j].context)
  }

  function NumberEntry(n: Number): seq<byte>
    requires AreTokens(n.context)
  {
    KeyBytes(n.context) + [KEY_VALUE_DELIMITER] + ValueBytes(n.value)
  }

  function WrittenNumbers(numbers: seq<Number>): (r: seq<seq<byte>>)
    requires GoodNumbers(numbers)
    ensures |r| == |numbers| && forall i :: 0 <= i < |r| ==> r[i] == NumberEntry(numbers[i])
  {
    seq(|numbers|, i requires 0 <= i < |numbers| => NumberEntry(numbers[i]))
  }

  /** The number of a key, said without any trie. */
  function NumberOf(numbers: seq<Number>, context: seq<nat>): Option<nat> {
    if numbers == [] then None
    else if numbers[|numbers| - 1].context == context then Some(numbers[|numbers| - 1].value)
    else NumberOf(numbers[..|numbers| - 1], context)
  }

  lemma {:induction false} NumberEntryFound(n: Number, context: seq<nat>)
    requires AreTokens(n.context) && AreTokens(context)
    ensures var query := KeyBytes(context) + [KEY_VALUE_DELIMITER];
            && (query <= NumberEntry(n) <==> n.context == context)
            && (n.context == context ==> NumberEntry(n)[|query|..] == ValueBytes(n.value))
  {
    hide EncodeKey, ValueBytes;
    TokensHaveKeys(context);
    TokensHaveKeys(n.context);
    KeysAreFoundApart(KeyBytes(context), KeyBytes(n.context), KEY_VALUE_DELIMITER, ValueBytes(n.value));
    if KeyBytes(context) == KeyBytes(n.context) {
      KeysAreWrittenApart(context, n.context);
    }
  }

  lemma {:induction false} OthersAreNotFound(numbers: seq<Number>, context: seq<nat>)
    requires GoodNumbers(numbers) && AreTokens(context)
    requires forall i :: 0 <= i < |numbers| ==> numbers[i].context != context
    ensures Found(WrittenNumbers(numbers), KeyBytes(context) + [KEY_VALUE_DELIMITER]) == []
    ensures NumberOf(numbers, context) == None
  {
    hide KeyBytes, AreTokens, NumberEntry;
    if numbers != [] {
      var init := numbers[..|numbers| - 1];
      OthersAreNotFound(init, context);
      NumberEntryFound(numbers[|numbers| - 1], context);
      assert WrittenNumbers(numbers)[..|numbers| - 1] == WrittenNumbers(init);
    }
  }

  lemma {:induction false} NumberFound(numbers: seq<Number>, context: seq<nat>)
    requires GoodNumbers(numbers) && AreTokens(context)
    ensures var found := Found(WrittenNumbers(numbers), KeyBytes(context) + [KEY_VALUE_DELIMITER]);
            match NumberOf(numbers, context)
            case None => found == []
            case Some(value) => value <= U32_MAX && found == [NumberEntry(Number(context, value))]
  {
    hide KeyBytes, AreTokens, NumberEntry;
    if numbers != [] {
      var init, last := numbers[..|numbers| - 1], numbers[|numbers| - 1];
      NumberEntryFound(last, context);
      assert WrittenNumbers(numbers)[..|numbers| - 1] == WrittenNumbers(init);
      if last.context == context {
        OthersAreNotFound(init, context);
        assert last == Number(context, last.value);
      } else {
        NumberFound(init, context);
      }
    }
  }

  /** Looking a key up gives back exactly the number written for it. */
  lemma {:induction false} ValueFindsNumber(numbers: seq<Number>, context: seq<nat>)
    requires GoodNumbers(numbers) && AreTokens(context)
    ensures ValueOf(WrittenNumbers(numbers), context) == Ok(NumberOf(numbers, context))
  {
    hide EncodeKey, AreTokens, Found, DecodeValue, ValueBytes, NumberOf;
    TokensHaveKeys(context);
    NumberFound(numbers, context);
    var number := NumberOf(numbers, context);
    if number.Some? {
      NumberEntryFound(Number(context, number.value), context);
      ValueRoundTrip(number.value, []);
      assert ValueBytes(number.value) + [] == ValueBytes(number.value);
    }
  }

  // ----- a trained model -----

  /** What the two tries of a level say about a context. */
  function LevelAt(counts: seq<seq<byte>>, numbers: seq<seq<byte>>, context: seq<nat>): Result<Level, NGramError> {
    match (ValueOf(numbers, context), BulkOf(counts, context))
    case (Err(error), _) => Err(error)
    case (Ok(_), Err(error)) => Err(error)
    case (Ok(distinct), Ok(tally)) =>
      Ok(Level(tally.values, tally.total, match distinct case Some(value) => value case None => 0))
  }

  /** The numbers say how many tokens were seen behind each context, no count is below the
      discount, and no sum is too large. */
  ghost predicate Trained(grams: seq<Gram>, numbers: seq<Number>, discount: real) {
    && GoodGrams(grams) && GoodNumbers(numbers)
    && (forall i :: 0 <= i < |grams| && grams[i].count > 0 ==> grams[i].count as real >= discount)
    && (forall context :: Sum(CountsAfter(grams, context)) <= U32_MAX)
    && (forall context :: AreTokens(context) ==>
          Seen(CountsAfter(grams, context)) == match NumberOf(numbers, context) case Some(value) => value case None => 0)
  }

  lemma {:induction false} CountsAreGrams(grams: seq<Gram>, context: seq<nat>, token: nat, discount: real)
    requires forall i :: 0 <= i < |grams| && grams[i].count > 0 ==> grams[i].count as real >= discount
    ensures CountOf(grams, context, token) > 0 ==> CountOf(grams, context, token) as real >= discount
  {
    if grams != [] {
      CountsAreGrams(grams[..|grams| - 1], context, token, discount);
    }
  }

  /** What a trained model's tries say about a context is exactly what was counted, and it fits
      together. */
  lemma {:induction false} TrainedLevelIsConsistent(grams: seq<Gram>, numbers: seq<Number>, discount: real, context: seq<nat>)
    requires Trained(grams, numbers, discount) && AreTokens(context)
    ensures var level := LevelAt(Written(grams), WrittenNumbers(numbers), context);
            level.Ok? && level.value.values == CountsAfter(grams, context) && Consistent(level.value, discount)
  {
    hide BulkOf, ValueOf, Written, WrittenNumbers, Sum, Seen, NumberOf, CountOf, AreTokens;
    BulkFindsCounts(grams, context);
    ValueFindsNumber(numbers, context);
    var counts := CountsAfter(grams, context);
    forall t | 0 <= t < |counts| && counts[t] > 0
      ensures counts[t] as real >= discount
    {
      CountsAreGrams(grams, context, t, discount);
    }
  }

  // ----- the model -----

  const START_TOKEN: nat := 2

  /** The last `size` tokens of the history, filled up with start tokens in front. */
  function Window(history: seq<nat>, size: nat): (r: seq<nat>)
    ensures |r| == size
  {
    if |history| >= size then history[|history| - size..]
    else seq(size - |history|, _ => START_TOKEN) + history
  }

  /** The context behind a history: its last tokens, and 2 where the history has not begun. */
  ghost predicate IsContext(window: seq<nat>, history: seq<int>, size: nat) {
    && |window| == size
    && forall i :: 0 <= i < size ==> window[i] == if size - i <= |history| then history[|history| - (size - i)] else 2
  }

  lemma {:induction false} WindowIsContext(window: seq<nat>, history: seq<int>, size: nat)
    requires InVocabulary(history)
    ensures IsContext(window, history, size) <==> window == Window(Naturals(history), size)
  {
  }

  lemma {:induction false} OneContext(history: seq<int>, size: nat)
    requires InVocabulary(history)
    ensures forall window: seq<nat> :: IsContext(window, history, size) ==> window == Window(Naturals(history), size)
  {
    hide IsContext, Window;
    forall window: seq<nat> | IsContext(window, history, size)
      ensures window == Window(Naturals(history), size)
    {
      WindowIsContext(window, history, size);
    }
  }

  /** The tries: counts of complete contexts, and continuation counts of shorter ones, each with the
      number of tokens seen. */
  datatype Model = Model(n: nat, discount: real, main: seq<seq<byte>>, mainNumbers: seq<seq<byte>>,
                         lower: seq<seq<byte>>, lowerNumbers: seq<seq<byte>>)

  /** The levels of all shorter contexts, longest first, or the first error. */
  function LevelsBelow(m: Model, context: seq<nat>): Result<seq<Level>, NGramError> {
    if |context| <= 1 then Ok([])
    else
      match LevelAt(m.lower, m.lowerNumbers, context[1..])
      case Err(error) => Err(error)
      case Ok(level) =>
        match LevelsBelow(m, context[1..])
        case Err(error) => Err(error)
        case Ok(levels) => Ok([level] + levels)
  }

  function ContextAt(m: Model, window: seq<nat>): Result<Context, NGramError> {
    match LevelAt(m.main, m.mainNumbers, window)
    case Err(error) => Err(error)
    case Ok(level) =>
      match LevelsBelow(m, window)
      case Err(error) => Err(error)
      case Ok(lower) => Ok(Context(level, lower, m.discount))
  }

  lemma {:induction false} LevelSizes(m: Model, window: seq<nat>)
    ensures ContextAt(m, window).Ok? ==> SameVocabulary(ContextAt(m, window).value, VOCABULARY_SIZE)
    ensures LevelsBelow(m, window).Ok? ==>
              forall i :: 0 <= i < |LevelsBelow(m, window).value| ==> |LevelsBelow(m, window).value[i].values| == VOCABULARY_SIZE
  {
    hide BulkOf, ValueOf;
    if |window| > 1 {
      LevelSizes(m, window[1..]);
    }
  }

  method ReadLevel(counts: seq<seq<byte>>, numbers: seq<seq<byte>>, context: seq<nat>) returns (r: Result<Level, NGramError>)
    ensures r == LevelAt(counts, numbers, context)
  {
    hide BulkOf, ValueOf;
    var distinct := GetValue(numbers, context);
    if distinct.Err? {
      return Err(distinct.error);
    }
    var tally := BulkValues(counts, context);
    if tally.Err? {
      return Err(tally.error);
    }
    r := Ok(Level(tally.value.values, tally.value.total, match distinct.value case Some(value) => value case None => 0));
  }

  method ReadContext(m: Model, window: seq<nat>) returns (r: Result<Context, NGramError>)
    requires window != []
    ensures r == ContextAt(m, window)
  {
    hide LevelAt;
    var main := ReadLevel(m.main, m.mainNumbers, window);
    if main.Err? {
      return Err(main.error);
    }
    ghost var below := LevelsBelow(m, window);
    var context, lower: seq<Level> := window, [];
    assert below.Ok? ==> [] + below.value == below.value;
    while |context| > 1
      invariant |context| >= 1
      invariant below == match LevelsBelow(m, context) case Err(error) => Err(error) case Ok(rest) => Ok(lower + rest)
      decreases |context|
    {
      ghost var rest := LevelsBelow(m, context[1..]);
      context := context[1..];
      var level := ReadLevel(m.lower, m.lowerNumbers, context);
      if level.Err? {
        return Err(level.error);
      }
      assert rest.Ok? ==> lower + ([level.value] + rest.value) == (lower + [level.value]) + rest.value;
      lower := lower + [level.value];
    }
    assert lower + [] == lower;
    r := Ok(Context(main.value, lower, m.discount));
  }

  predicate InVocabulary(history: seq<int>) {
    forall i :: 0 <= i < |history| ==> 0 <= history[i] < VOCABULARY_SIZE
  }

  /** The probabilities of all tokens behind a history, or an error for a history of other numbers
      or a trie that cannot be read. */
  method Probabilities(m: Model, history: seq<int>) returns (r: Result<seq<real>, NGramError>)
    requires m.n >= 2
    ensures !InVocabulary(history) ==> r == Err(InvalidTrieEntry)
    ensures InVocabulary(history) ==> forall window: seq<nat> :: IsContext(window, history, m.n - 1) ==>
              match ContextAt(m, window)
              case Err(error) => r == Err(error)
              case Ok(c) =>
                && SameVocabulary(c, VOCABULARY_SIZE) && r.Ok? && |r.value| == VOCABULARY_SIZE
                && forall token :: 0 <= token < VOCABULARY_SIZE ==> r.value[token] == Probability(c, VOCABULARY_SIZE, token)
  {
    hide ContextAt, Probability, IsContext, Window;
    if exists i :: 0 <= i < |history| && !(0 <= history[i] < VOCABULARY_SIZE) {
      return Err(InvalidTrieEntry);
    }
    var window := Window(Naturals(history), m.n - 1);
    LevelSizes(m, window);
    OneContext(history, m.n - 1);
    var c := ReadContext(m, window);
    if c.Err? {
      return Err(c.error);
    }
    var probabilities := BulkPredict(c.value, VOCABULARY_SIZE);
    r := Ok(probabilities);
  }

  function Naturals(history: seq<int>): (r: seq<nat>)
    requires InVocabulary(history)
    ensures AreTokens(r) && |r| == |history|
  {
    seq(|history|, i requires 0 <= i < |history| => history[i])
  }

  lemma {:induction false} LevelsBelowAreConsistent(m: Model, grams: seq<Gram>, numbers: seq<Number>, window: seq<nat>)
    requires Trained(grams, numbers, m.discount) && m.lower == Written(grams) && m.lowerNumbers == WrittenNumbers(numbers)
    requires AreTokens(window)
    ensures LevelsBelow(m, window).Ok?
    ensures forall k :: 0 <= k < |LevelsBelow(m, window).value| ==> Consistent(LevelsBelow(m, window).value[k], m.discount)
  {
    hide Trained, Consistent, LevelAt, Written, WrittenNumbers;
    if |window| > 1 {
      TrainedLevelIsConsistent(grams, numbers, m.discount, window[1..]);
      LevelsBelowAreConsistent(m, grams, numbers, window[1..]);
    }
  }

  /** A model written from counts predicts a distribution behind every history of tokens. */
  lemma {:induction false} TrainedModelPredicts(m: Model, grams: seq<Gram>, numbers: seq<Number>, continuations: seq<Gram>,
                                                predecessors: seq<Number>, history: seq<int>, window: seq<nat>, token: nat)
    requires m.n >= 2 && m.discount >= 0.0
    requires Trained(grams, numbers, m.discount) && m.main == Written(grams) && m.mainNumbers == WrittenNumbers(numbers)
    requires Trained(continuations, predecessors, m.discount)
    requires m.lower == Written(continuations) && m.lowerNumbers == WrittenNumbers(predecessors)
    requires InVocabulary(history) && IsContext(window, history, m.n - 1) && token < VOCABULARY_SIZE
    ensures var c := ContextAt(m, window);
            && c.Ok? && SameVocabulary(c.value, VOCABULARY_SIZE)
            && ProbabilitySum(c.value, VOCABULARY_SIZE, VOCABULARY_SIZE) == 1.0
            && Probability(c.value, VOCABULARY_SIZE, token) >= 0.0
  {
    hide Trained, Consistent, LevelAt, Written, WrittenNumbers, LevelsBelow, ProbabilitySum, Probability;
    WindowIsContext(window, history, m.n - 1);
    TrainedLevelIsConsistent(grams, numbers, m.discount, window);
    LevelsBelowAreConsistent(m, continuations, predecessors, window);
    LevelSizes(m, window);
    IsADistribution(ContextAt(m, window).value, VOCABULARY_SIZE, token);
  }
}
