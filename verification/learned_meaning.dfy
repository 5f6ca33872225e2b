/** What learning and committing make of one word's record, said by the word's identity
    (`learning.rs`). */
module LearnedMeanings {
  import opened Wrappers
  import opened Bytes
  import opened EntryBlocks
  import opened Decays
  import opened LearnedRecords
  import opened LearningMemories

  /** Two entries are the same exactly if reading, word and both ids agree. */
  lemma {:induction false} IdentityMeans(a: Entry, b: Entry)
    ensures EntryIdentity(a) == EntryIdentity(b) <==> a.ruby == b.ruby && a.word == b.word && a.leftId == b.leftId && a.rightId == b.rightId
    ensures SameEntry(a, b) <==> EntryIdentity(a) == EntryIdentity(b)
  {
  }

  predicate Stands(r: Record, id: Identity) {
    IdentityOf(r) == id
  }

  /** The record of a word, if it has one. */
  ghost function RecordOf(records: seq<Record>, id: Identity): (r: Option<Record>)
    ensures r.Some? ==> r.value in records && Stands(r.value, id)
    ensures r.None? <==> forall s :: s in records ==> !Stands(s, id)
  {
    if r :| r in records && Stands(r, id) then Some(r) else None
  }

  lemma {:induction false} OneRecord(records: seq<Record>, r: Record)
    requires NoDuplicates(records) && r in records
    ensures RecordOf(records, IdentityOf(r)) == Some(r)
  {
    hide Copies;
    var id := IdentityOf(r);
    var i :| 0 <= i < |records| && records[i] == r;
    var s := RecordOf(records, id).value;
    var j :| 0 <= j < |records| && records[j] == s;
    CopiesAt(records, i, id);
    assert Copies(records, id) <= 1;
    NoCopiesNoCount(records[..i], id);
    NoCopiesNoCount(records[i + 1..], id);
  }

  /** The later of two days. */
  ghost predicate IsLater(day: u16, a: u16, b: u16) {
    (day == a || day == b) && day >= a && day >= b
  }

  /** The sum, but no more than a byte holds. */
  ghost predicate IsSum(count: byte, a: nat, b: nat) {
    count as nat == a + b || (count == 255 && a + b > 255)
  }

  /** The record of a word after merging: the later days, the counts added, the newer entry. */
  ghost predicate Joins(saved: Option<Record>, incoming: Option<Record>, after: Option<Record>) {
    match (saved, incoming)
    case (None, _) => after == incoming
    case (Some(_), None) => after == saved
    case (Some(a), Some(b)) =>
      && after.Some? && after.value.entry == b.entry
      && IsLater(after.value.lastUsedDay, a.lastUsedDay, b.lastUsedDay)
      && IsLater(after.value.lastUpdatedDay, a.lastUpdatedDay, b.lastUpdatedDay)
      && IsSum(after.value.count, a.count as nat, b.count as nat)
  }

  lemma {:induction false} UpdatedRecord(records: seq<Record>, i: nat, r: Record, id: Identity)
    requires i < |records| && NoDuplicates(records) && IdentityOf(r) == IdentityOf(records[i])
    ensures NoDuplicates(records[i := r])
    ensures RecordOf(records[i := r], id) == if Stands(r, id) then Some(r) else RecordOf(records, id)
  {
    hide Copies;
    var after := records[i := r];
    forall other
      ensures Copies(after, other) <= 1
    {
      UpdateCounts(records, i, r, other);
      assert Copies(records, other) <= 1;
    }
    assert after[i] == r && r in after;
    OneRecord(after, r);
    if !Stands(r, id) {
      match RecordOf(after, id) {
        case Some(s) =>
          var j :| 0 <= j < |after| && after[j] == s;
          assert records[j] == s;
          OneRecord(records, s);
        case None =>
          forall s | s in records
            ensures !Stands(s, id)
          {
            var j :| 0 <= j < |records| && records[j] == s;
            assert j != i ==> after[j] == s && s in after;
          }
      }
    }
  }

  lemma {:induction false} AddedRecord(records: seq<Record>, r: Record, id: Identity)
    requires NoDuplicates(records) && RecordOf(records, IdentityOf(r)).None?
    ensures NoDuplicates(records + [r])
    ensures RecordOf(records + [r], id) == if Stands(r, id) then Some(r) else RecordOf(records, id)
  {
    hide Copies;
    var after := records + [r];
    NoCopies(records, IdentityOf(r));
    forall other
      ensures Copies(after, other) <= 1
    {
      CopiesSnoc(records, r, other);
      assert Copies(records, other) <= 1;
    }
    assert r in after;
    OneRecord(after, r);
    if !Stands(r, id) {
      match RecordOf(after, id)
      case Some(s) => OneRecord(records, s);
      case None => assert forall s :: s in records ==> s in after;
    }
  }

  lemma {:induction false} NoCopies(records: seq<Record>, id: Identity)
    requires forall s :: s in records ==> !Stands(s, id)
    ensures Copies(records, id) == 0
  {
    if records != [] {
      var init := records[..|records| - 1];
      assert forall s :: s in init ==> s in records;
      assert records[|records| - 1] in records;
      NoCopies(init, id);
    }
  }

  lemma {:induction false} FoundRecord(records: seq<Record>, id: Identity)
    requires NoDuplicates(records)
    ensures match FindFrom(records, id, 0)
            case Some(i) => i < |records| && RecordOf(records, id) == Some(records[i])
            case None => RecordOf(records, id).None?
  {
    FindMeans(records, id);
    match FindFrom(records, id, 0)
    case Some(i) => OneRecord(records, records[i]);
    case None => NoCopiesNoCount(records, id);
  }

  /** Merging one record: its word's record joins it, every other word's stays. */
  lemma {:induction false} MergeJoins(records: seq<Record>, incoming: Record, id: Identity)
    requires NoDuplicates(records)
    ensures NoDuplicates(MergeRecord(records, incoming))
    ensures Joins(RecordOf(records, id), if Stands(incoming, id) then Some(incoming) else None,
                  RecordOf(MergeRecord(records, incoming), id))
  {
    hide FindFrom, NoDuplicates, Copies, RecordOf;
    FoundRecord(records, IdentityOf(incoming));
    match FindFrom(records, IdentityOf(incoming), 0)
    case Some(i) => UpdatedRecord(records, i, Merged(records[i], incoming), id);
    case None => AddedRecord(records, incoming, id);
  }

  /** Merging a list joins the records of every word. */
  lemma {:induction false} MergeAllJoins(records: seq<Record>, incoming: seq<Record>, id: Identity)
    requires NoDuplicates(records) && NoDuplicates(incoming)
    ensures NoDuplicates(MergeAll(records, incoming))
    ensures Joins(RecordOf(records, id), RecordOf(incoming, id), RecordOf(MergeAll(records, incoming), id))
  {
    hide MergeRecord, Copies, RecordOf;
    if incoming != [] {
      var init, last := incoming[..|incoming| - 1], incoming[|incoming| - 1];
      InitRecords(incoming, id);
      MergeAllJoins(records, init, id);
      MergeJoins(MergeAll(records, init), last, id);
    }
  }

  lemma {:induction false} InitRecords(records: seq<Record>, id: Identity)
    requires records != [] && NoDuplicates(records)
    ensures var init, last := records[..|records| - 1], records[|records| - 1];
            && NoDuplicates(init)
            && RecordOf(records, id) == (if Stands(last, id) then Some(last) else RecordOf(init, id))
            && (Stands(last, id) ==> RecordOf(init, id).None?)
  {
    hide Copies;
    var init, last := records[..|records| - 1], records[|records| - 1];
    assert records == init + [last];
    forall other
      ensures Copies(init, other) <= 1
    {
      CopiesSnoc(init, last, other);
      assert Copies(records, other) <= 1;
    }
    if Stands(last, id) {
      CopiesSnoc(init, last, id);
      assert Copies(records, id) <= 1;
      NoCopiesNoCount(init, id);
      assert forall s :: s in init ==> exists i :: 0 <= i < |init| && init[i] == s;
      assert RecordOf(init, id).None?;
    }
    AddedBack(init, last, id);
  }

  lemma {:induction false} AddedBack(init: seq<Record>, last: Record, id: Identity)
    requires NoDuplicates(init) && NoDuplicates(init + [last])
    ensures RecordOf(init + [last], id) == if Stands(last, id) then Some(last) else RecordOf(init, id)
  {
    hide Copies;
    CopiesSnoc(init, last, IdentityOf(last));
    assert Copies(init + [last], IdentityOf(last)) <= 1;
    NoCopiesNoCount(init, IdentityOf(last));
    AddedRecord(init, last, id);
  }

  /** After a commit the record of every word that is kept is the saved one joined with the pending
      one: used last on the later day, with both counts, and the newer entry. */
  lemma {:induction false} CommitJoins(m: Memory, rules: Rules, id: Identity)
    requires Sound(m, rules) && NoDuplicates(m.persisted)
    ensures var after := RecordOf(Committed(m).persisted, id);
            after.Some? ==> Joins(RecordOf(m.persisted, id), RecordOf(m.temporary, id), after)
  {
    hide AllSettled, AllValid, MergeAll, Kept, RecordOf, Copies;
    MergeAllIsSound(m.persisted, m.temporary, rules, m.today);
    MergeAllJoins(m.persisted, m.temporary, id);
    var merged := MergeAll(m.persisted, m.temporary);
    KeptIsSound(merged, rules, m.today, m.maxCount);
    var after := RecordOf(Committed(m).persisted, id);
    RecordIsThere(Committed(m).persisted, id);
    if after.Some? {
      OneRecord(merged, after.value);
    }
  }

  lemma {:induction false} RecordIsThere(records: seq<Record>, id: Identity)
    ensures RecordOf(records, id).Some? ==> RecordOf(records, id).value in records && IdentityOf(RecordOf(records, id).value) == id
  {
  }

  // ----- learning -----

  /** The record of a word that is learned `times` times more on one day. */
  ghost predicate Learned(before: Option<Record>, times: nat, entry: Entry, today: u16, after: Option<Record>) {
    && after.Some? && after.value.entry == entry && after.value.lastUsedDay == today
    && after.value.lastUpdatedDay == (match before case Some(r) => r.lastUpdatedDay case None => today)
    && IsSum(after.value.count, match before case Some(r) => r.count as nat case None => 0, times)
  }

  /** Learning an entry: its record is used today, has the new entry and one more use. */
  lemma {:induction false} MemorizedMeans(records: seq<Record>, entry: Entry, today: u16, id: Identity)
    requires NoDuplicates(records)
    ensures NoDuplicates(MemorizedIn(records, entry, today))
    ensures var before, after := RecordOf(records, id), RecordOf(MemorizedIn(records, entry, today), id);
            if id == EntryIdentity(entry) then Learned(before, 1, entry, today, after) else after == before
  {
    hide FindFrom, NoDuplicates, Copies, RecordOf;
    FoundRecord(records, EntryIdentity(entry));
    FindMeans(records, EntryIdentity(entry));
    match FindFrom(records, EntryIdentity(entry), 0)
    case Some(i) => UpdatedRecord(records, i, Record(entry, today, records[i].lastUpdatedDay, SaturatingCount(records[i].count, 1)), id);
    case None => AddedRecord(records, Record(entry, today, today, 1), id);
  }

  /** How often a list of entries teaches a word. */
  function Times(rules: Rules, entries: seq<Entry>, id: Identity): nat {
    if entries == [] then 0
    else
      Times(rules, entries[..|entries| - 1], id)
      + if EntryIdentity(entries[|entries| - 1]) == id && ValidEntry(rules, entries[|entries| - 1]) then 1 else 0
  }

  /** The last entry that teaches it. */
  function LastTaught(rules: Rules, entries: seq<Entry>, id: Identity): Entry
    requires Times(rules, entries, id) > 0
  {
    var last := entries[|entries| - 1];
    if EntryIdentity(last) == id && ValidEntry(rules, last) then last else LastTaught(rules, entries[..|entries| - 1], id)
  }

  /** Learning a list of entries: every word in it that may be learned is used today, with as many
      more uses as it has entries, and the last of these entries; the others stay. */
  lemma {:induction false} LearnedAllMeans(m: Memory, rules: Rules, entries: seq<Entry>, id: Identity)
    requires NoDuplicates(m.temporary)
    ensures NoDuplicates(MemorizedAll(m, rules, entries).temporary) && MemorizedAll(m, rules, entries).today == m.today
    ensures var before, after := RecordOf(m.temporary, id), RecordOf(MemorizedAll(m, rules, entries).temporary, id);
            if Times(rules, entries, id) == 0 then after == before
            else Learned(before, Times(rules, entries, id), LastTaught(rules, entries, id), m.today, after)
  {
    hide MemorizedIn, ValidEntry, NoDuplicates, RecordOf, Copies;
    if entries != [] {
      var init, last := entries[..|entries| - 1], entries[|entries| - 1];
      LearnedAllMeans(m, rules, init, id);
      if ValidEntry(rules, last) {
        MemorizedMeans(MemorizedAll(m, rules, init).temporary, last, m.today, id);
      }
    }
  }

  /** Only a memory that learns changes its records, other than by age and by being reset. */
  lemma {:induction false} ModesMean(m: Memory, rules: Rules, action: Action)
    requires m.mode != InputAndOutput && !action.Reset?
    ensures Perform(m, rules, action) == Refreshed(m, action.today)
  {
  }

  /** A memory that learns does learn. */
  lemma {:induction false} LearningLearns(m: Memory, rules: Rules, entry: Entry)
    requires m.mode == InputAndOutput && NoDuplicates(m.temporary) && Learnable(rules, entry)
    ensures var after := Perform(m, rules, Learn(m.today, [entry]));
            && after.persisted == m.persisted
            && Learned(RecordOf(m.temporary, EntryIdentity(entry)), 1, entry, m.today, RecordOf(after.temporary, EntryIdentity(entry)))
  {
    hide MemorizedIn, NoDuplicates, RecordOf;
    assert [entry][..0] == [];
    assert MemorizedAll(m, rules, []) == m;
    MemorizedMeans(m.temporary, entry, m.today, EntryIdentity(entry));
  }

  /** A text without control characters, with a reading that can be written in the index. */
  predicate Learnable(rules: Rules, entry: Entry) {
    entry.ruby != [] && rules.encode(entry.ruby) != None && !rules.hasControl(entry.ruby) && !rules.hasControl(entry.word)
  }

  lemma {:induction false} NotLearned(m: Memory, rules: Rules, entry: Entry)
    requires !Learnable(rules, entry)
    ensures Perform(m, rules, Learn(m.today, [entry])) == m
  {
    assert [entry][..0] == [];
    assert MemorizedAll(m, rules, []) == m;
  }

  // ----- forgetting -----

  /** `places` are the positions, in order, of the records that are not dropped. */
  ghost predicate AreKept(records: seq<Record>, drop: Record -> bool, kept: seq<Record>, places: seq<nat>) {
    && |places| == |kept|
    && (forall j, k :: 0 <= j < k < |places| ==> places[j] < places[k])
    && (forall k :: 0 <= k < |places| ==> places[k] < |records| && kept[k] == records[places[k]] && !drop(kept[k]))
    && forall i :: 0 <= i < |records| && !drop(records[i]) ==> i in places
  }

  lemma {:induction false} WithoutKept(records: seq<Record>, drop: Record -> bool) returns (places: seq<nat>)
    ensures AreKept(records, drop, Without(records, drop), places)
  {
    hide AreKept;
    if records == [] {
      places := [];
      NothingKept(drop);
    } else {
      var init, last := records[..|records| - 1], records[|records| - 1];
      places := WithoutKept(init, drop);
      OneMoreKept(init, last, drop, Without(init, drop), places);
      assert records == init + [last];
      if drop(last) {
        assert Without(records, drop) == Without(init, drop);
      } else {
        places := places + [|init|];
      }
    }
  }

  lemma {:induction false} NothingKept(drop: Record -> bool)
    ensures AreKept([], drop, [], [])
  {
  }

  lemma {:induction false} OneMoreKept(init: seq<Record>, last: Record, drop: Record -> bool, kept: seq<Record>, places: seq<nat>)
    requires AreKept(init, drop, kept, places)
    ensures drop(last) ==> AreKept(init + [last], drop, kept, places)
    ensures !drop(last) ==> AreKept(init + [last], drop, kept + [last], places + [|init|])
  {
    var all := init + [last];
    forall i | 0 <= i < |init| && !drop(all[i])
      ensures i in places && i in places + [|init|]
    {
      assert init[i] == all[i];
    }
    assert (places + [|init|])[|places|] == |init|;
  }

  /** Forgetting drops what was learned since the start by reading and word, and what was saved by
      word, and keeps all the rest in order. Saved records change only if saving succeeds. */
  lemma {:induction false} ForgetMeans(m: Memory, rules: Rules, targets: set<(Utf8, Utf8)>, words: set<Utf8>, saved: bool)
    returns (places: seq<nat>, rest: seq<Record>, savedPlaces: seq<nat>)
    requires m.mode == InputAndOutput
    ensures var after := Perform(m, rules, Forget(m.today, targets, words, saved));
            && AreKept(m.temporary, (r: Record) => (r.entry.ruby, r.entry.word) in targets, after.temporary, places)
            && AreKept(m.persisted, (r: Record) => r.entry.word in words, rest, savedPlaces)
            && after.persisted == (if saved then Kept(rest, m.today, m.maxCount) else m.persisted)
  {
    hide Without, Kept, AreKept;
    places := WithoutKept(m.temporary, TargetIn(targets));
    rest := Without(m.persisted, WordIn(words));
    savedPlaces := WithoutKept(m.persisted, WordIn(words));
  }

  // ----- ageing -----

  /** Ageing in numbers: a record is dropped when it was last used 128 days ago or more; its count is
      halved once for each 32 days that are over, and without a count it is dropped too. */
  lemma {:induction false} AgedInNumbers(r: Record, today: u16)
    requires r.lastUsedDay <= today && r.lastUpdatedDay <= today
    ensures var age := today - r.lastUpdatedDay;
            var times := if age <= 32 then 0 else (age - 1) / 32;
            var count := r.count as nat / Pow2(times);
            Decayed(r, today)
            == if today - r.lastUsedDay >= 128 || count == 0 then None
               else Some(Record(r.entry, r.lastUsedDay, r.lastUpdatedDay + 32 * times, count as byte))
  {
    hide Halved;
    HalvedInNumbers(r, today);
  }

  lemma {:induction false} HalvedInNumbers(r: Record, today: u16)
    requires r.lastUpdatedDay <= today
    ensures var age := today - r.lastUpdatedDay;
            var times := if age <= 32 then 0 else (age - 1) / 32;
            && r.lastUpdatedDay + 32 * times <= today && r.count as nat / Pow2(times) < 256
            && Halved(r, today) == Record(r.entry, r.lastUsedDay, r.lastUpdatedDay + 32 * times, (r.count as nat / Pow2(times)) as byte)
    decreases today - r.lastUpdatedDay
  {
    var age := today - r.lastUpdatedDay;
    if age > 32 {
      HalvedInNumbers(r.(count := r.count / 2, lastUpdatedDay := SaturatingAdd16(r.lastUpdatedDay, HALF_LIFE)), today);
      var times := if age - 32 <= 32 then 0 else (age - 33) / 32;
      assert (age - 1) / 32 == times + 1;
      HalvedOnceMore(r.count as nat, times);
    } else {
      assert Pow2(0) == 1;
    }
  }

  lemma {:induction false} HalvedOnceMore(count: nat, times: nat)
    ensures count / Pow2(times + 1) == count / 2 / Pow2(times)
  {
    hide Pow2;
    TwiceAsMuch(times);
    DividesInSteps(count, Pow2(times));
  }

  lemma {:induction false} TwiceAsMuch(times: nat)
    ensures Pow2(times + 1) == 2 * Pow2(times)
  {
  }

  lemma {:induction false} DividesInSteps(n: nat, d: nat)
    requires d > 0
    ensures n / (2 * d) == n / 2 / d
  {
    var q, r := n / 2 / d, n / 2 % d;
    var low := n % 2 + 2 * r;
    assert n == 2 * (q * d + r) + n % 2;
    assert 2 * (q * d) == q * (2 * d);
    assert n == q * (2 * d) + low && 0 <= low < 2 * d;
    QuotientIs(n, 2 * d, q, low);
  }

  lemma {:induction false} QuotientIs(n: nat, d: nat, q: nat, low: nat)
    requires d > 0 && n == q * d + low && low < d
    ensures n / d == q
  {
    var k := n / d;
    assert k * d <= n < (k + 1) * d;
    TimesGrows(k + 1, q, d);
    TimesGrows(q + 1, k, d);
  }

  lemma {:induction false} TimesGrows(a: nat, b: nat, d: nat)
    ensures a <= b ==> a * d <= b * d
  {
  }
}
