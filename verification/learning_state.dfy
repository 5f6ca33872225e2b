/** The learning memory with its indexes and files, updated in place (`learning.rs`). */
module LearningStates {
  import opened Wrappers
  import opened Numbers
  import opened Bytes
  import opened Tries
  import opened CharacterIds
  import opened LookupKeys
  import opened MemoryIndexes
  import opened EntryBlocks
  import opened MemoryFiles
  import opened MemoryRoundTrip
  import opened Saving
  import opened Decays
  import opened LearnedRecords
  import opened LearningMemories

  function Pick(records: seq<Record>, positions: seq<nat>): seq<Record> {
    if positions == [] then []
    else
      var last := positions[|positions| - 1];
      Pick(records, positions[..|positions| - 1]) + if last < |records| then [records[last]] else []
  }

  lemma {:induction false} KeysSnoc(records: seq<Record>, r: Record, encode: Encoder)
    ensures Keys(records + [r], encode) == Keys(records, encode) + [encode(r.entry.ruby)]
  {
  }

  lemma {:induction false} KeysUpdate(records: seq<Record>, i: nat, r: Record, encode: Encoder)
    requires i < |records| && r.entry.ruby == records[i].entry.ruby
    ensures Keys(records[i := r], encode) == Keys(records, encode)
  {
  }

  /** The records whose readings answer, compared grapheme by grapheme: no index and no ids. */
  function ScanReadings(kind: MatchKind, records: seq<Record>, segment: Segmentation, n: nat, wanted: seq<Utf8>): seq<nat>
    requires n <= |records|
  {
    if n == 0 then []
    else
      ScanReadings(kind, records, segment, n - 1, wanted)
      + if ReadingAnswers(kind, segment(records[n - 1].entry.ruby), wanted) then [n - 1] else []
  }

  /** Scanning by ids is scanning by graphemes, and where there is no key nothing answers. */
  lemma {:induction false} ScanByGraphemes(kind: MatchKind, records: seq<Record>, table: CharacterIdMap, segment: Segmentation,
                                           n: nat, wanted: seq<Utf8>)
    requires Distinct(table) && n <= |records|
    requires forall i :: 0 <= i < |records| ==> Encode(table, segment, records[i].entry.ruby).Some?
    ensures match LookupKey(table, wanted, kind)
            case None => ScanReadings(kind, records, segment, n, wanted) == []
            case Some(ids) =>
              Scan(kind, Keys(records, TableEncoder(table, segment)), n, ids) == ScanReadings(kind, records, segment, n, wanted)
  {
    hide LookupKey, Answers, ReadingAnswers, Distinct, EncodeGraphemes;
    if n > 0 {
      ScanByGraphemes(kind, records, table, segment, n - 1, wanted);
      UnknownGraphemesHideNothing(table, segment(records[n - 1].entry.ruby), wanted, kind);
    }
  }

  /** The same for the valid records of a memory; nothing answers to an empty key exactly. */
  lemma {:induction false} AnswersByGraphemes(kind: MatchKind, records: seq<Record>, rules: Rules, table: CharacterIdMap,
                                              segment: Segmentation, wanted: seq<Utf8>)
    requires AllValid(rules, records) && rules.encode == TableEncoder(table, segment) && Distinct(table) && Segments(segment)
    ensures match LookupKey(table, wanted, kind)
            case None => ScanReadings(kind, records, segment, |records|, wanted) == []
            case Some(ids) =>
              && Scan(kind, Keys(records, rules.encode), |records|, ids) == ScanReadings(kind, records, segment, |records|, wanted)
              && (ids == [] && kind != Completions ==> ScanReadings(kind, records, segment, |records|, wanted) == [])
  {
    hide LookupKey, ScanReadings, Scan, EncodeGraphemes, Distinct, Segments;
    forall i | 0 <= i < |records|
      ensures Encode(table, segment, records[i].entry.ruby).Some?
      ensures Encode(table, segment, records[i].entry.ruby).value != []
    {
      assert ValidEntry(rules, records[i].entry);
      EncodeIsInjective(table, segment, records[i].entry.ruby, records[i].entry.ruby);
    }
    ScanByGraphemes(kind, records, table, segment, |records|, wanted);
    if kind != Completions {
      NothingWithoutIds(kind, Keys(records, rules.encode), |records|);
    }
  }

  lemma {:induction false} NothingWithoutIds(kind: MatchKind, keys: seq<Option<Key>>, n: nat)
    requires n <= |keys| && kind != Completions && forall i :: 0 <= i < |keys| ==> keys[i] != Some([])
    ensures Scan(kind, keys, n, []) == []
  {
    if n > 0 {
      NothingWithoutIds(kind, keys, n - 1);
    }
  }

  /** A record of an entry is among the exact answers for its reading. */
  lemma {:induction false} CopyIsAnswer(records: seq<Record>, encode: Encoder, e: Entry, ids: Key, i: nat)
    requires encode(e.ruby) == Some(ids) && i < |records| && IdentityOf(records[i]) == EntryIdentity(e)
    ensures i in Scan(Exact, Keys(records, encode), |records|, ids)
  {
    hide Scan, Count;
    ScanCounts(Exact, Keys(records, encode), |records|, ids, i);
    CountIn(Scan(Exact, Keys(records, encode), |records|, ids), i);
  }

  lemma {:induction false} AnswersInRange(keys: seq<Option<Key>>, kind: MatchKind, ids: Key, i: nat)
    requires i in Scan(kind, keys, |keys|, ids)
    ensures i < |keys|
  {
    hide Scan;
    ScanIsSorted(kind, keys, |keys|, ids);
  }

  /** Without duplicates there is one place where an entry can be. */
  lemma {:induction false} OnlyPlace(records: seq<Record>, i: nat, id: Identity)
    requires NoDuplicates(records) && i < |records| && IdentityOf(records[i]) == id
    ensures FindFrom(records, id, 0) == Some(i)
  {
    hide FindFrom;
    FindMeans(records, id);
    NoOtherPlace(records, i, id);
  }

  lemma {:induction false} NoOtherPlace(records: seq<Record>, i: nat, id: Identity)
    requires NoDuplicates(records) && i < |records| && IdentityOf(records[i]) == id
    ensures Copies(records, id) > 0
    ensures forall j :: 0 <= j < |records| && IdentityOf(records[j]) == id ==> j == i
  {
    CopiesAt(records, i, id);
    assert Copies(records, id) <= 1;
    NoCopiesNoCount(records[..i], id);
    NoCopiesNoCount(records[i + 1..], id);
    forall j | 0 <= j < |records| && j != i
      ensures IdentityOf(records[j]) != id
    {
      if j < i {
        assert records[..i][j] == records[j];
      } else {
        assert records[i + 1..][j - i - 1] == records[j];
      }
    }
  }

  lemma {:induction false} NotAmong(records: seq<Record>, encode: Encoder, e: Entry, ids: Key)
    requires encode(e.ruby) == Some(ids)
    requires var positions := Scan(Exact, Keys(records, encode), |records|, ids);
             forall k :: 0 <= k < |positions| ==> positions[k] < |records| && !SameEntry(records[positions[k]].entry, e)
    ensures FindFrom(records, EntryIdentity(e), 0) == None
  {
    hide Scan, FindFrom;
    FindMeans(records, EntryIdentity(e));
    match FindFrom(records, EntryIdentity(e), 0)
    case None =>
    case Some(i) => CopyIsAnswer(records, encode, e, ids, i);
  }

  class LearningState {
    const rules: Rules
    const mode: LearningMode
    const maxCount: nat
    const directory: MemoryDirectory
    var today: u16
    var persistedIndex: MemoryLouds
    var persisted: seq<Record>
    var temporaryIndex: MemoryTrie
    var temporary: seq<Record>

    ghost function Value(): Memory
      reads this
    {
      Memory(persisted, temporary, today, mode, maxCount)
    }

    /** Both indexes hold exactly their own record list. */
    ghost predicate Indexed()
      reads this, persistedIndex, temporaryIndex
    {
      persistedIndex.Indexes(Keys(persisted, rules.encode)) && temporaryIndex.Indexes(Keys(temporary, rules.encode))
    }

    ghost predicate Valid()
      reads this, persistedIndex, temporaryIndex
    {
      Sound(Value(), rules) && Indexed()
    }

    /** A memory opened on loaded records. */
    constructor (directory: MemoryDirectory, rules: Rules, mode: LearningMode, maxCount: nat, loaded: seq<Record>, today: u16)
      requires mode != Nothing || loaded == []
      ensures Valid() && fresh(persistedIndex) && fresh(temporaryIndex)
      ensures this.directory == directory && this.rules == rules
      ensures Value() == Memory(DecayAll(Without(loaded, Unlearnable(rules)), today), [], today, mode, maxCount)
    {
      hide ValidEntry, DecayAll, Without, Sound;
      this.rules := rules;
      this.mode := mode;
      this.maxCount := maxCount;
      this.directory := directory;
      this.today := today;
      var valid := Retain(loaded, Unlearnable(rules));
      var kept := Decay(valid, today);
      LoadedIsSound(loaded, rules, today, mode, maxCount);
      persisted := kept;
      persistedIndex := new MemoryLouds(Keys(kept, rules.encode));
      temporaryIndex := new MemoryTrie();
      temporary := [];
      new;
      assert Keys(temporary, rules.encode) == [];
    }

    /** A new persisted list with an index of its own. */
    method ReplacePersisted(records: seq<Record>)
      modifies this`persisted, this`persistedIndex
      ensures persisted == records && persistedIndex.Indexes(Keys(records, rules.encode)) && fresh(persistedIndex)
    {
      persistedIndex := new MemoryLouds(Keys(records, rules.encode));
      persisted := records;
    }

    /** A new temporary list with an index of its own. */
    method ReplaceTemporary(records: seq<Record>)
      modifies this`temporary, this`temporaryIndex
      ensures temporary == records && temporaryIndex.Indexes(Keys(records, rules.encode)) && fresh(temporaryIndex)
    {
      temporaryIndex := new MemoryTrie.FromReadings(Keys(records, rules.encode));
      temporary := records;
    }

    method RefreshDay(now: u16)
      requires Valid()
      modifies this
      ensures Valid() && Value() == Refreshed(old(Value()), now)
      ensures temporaryIndex == old(temporaryIndex) || fresh(temporaryIndex)
    {
      hide Sound, DecayAll, Build, Stores;
      RefreshedIsSound(Value(), rules, now);
      if today == now {
        return;
      }
      var aged := Decay(persisted, now);
      var agedTemporary := Decay(temporary, now);
      ReplacePersisted(aged);
      ReplaceTemporary(agedTemporary);
      today := now;
    }

    method Memorize(entry: Entry)
      requires Valid()
      modifies this, temporaryIndex
      ensures Valid() && Value() == Memorized(old(Value()), rules, entry)
      ensures temporaryIndex == old(temporaryIndex)
    {
      hide Sound, Scan, ValidEntry, FindFrom, Build;
      if !ValidEntry(rules, entry) {
        return;
      }
      ValidMeans(rules, entry);
      SoundMeans(Value(), rules);
      MemorizedIsSound(Value(), rules, entry);
      ghost var keys := Keys(temporary, rules.encode);
      var ids := rules.encode(entry.ruby).value;
      var positions := temporaryIndex.Lookup(ids, Exact, keys);
      var existing := FindAmong(positions, entry, ids);
      if existing.Some? {
        var record := temporary[existing.value];
        record := record.(count := SaturatingCount(record.count, 1));
        record := record.(lastUsedDay := today);
        record := record.(entry := entry);
        KeysUpdate(temporary, existing.value, record, rules.encode);
        temporary := temporary[existing.value := record];
      } else {
        KeysSnoc(temporary, Record(entry, today, today, 1), rules.encode);
        InsertExtendsBuild(keys, ids);
        temporaryIndex.Insert(ids, |temporary|);
        temporary := temporary + [Record(entry, today, today, 1)];
      }
    }

    /** The position of the entry among the exact answers. */
    method FindAmong(positions: seq<nat>, entry: Entry, ids: Key) returns (existing: Option<nat>)
      requires NoDuplicates(temporary) && rules.encode(entry.ruby) == Some(ids)
      requires positions == Scan(Exact, Keys(temporary, rules.encode), |temporary|, ids)
      ensures existing == FindFrom(temporary, EntryIdentity(entry), 0)
      ensures existing.Some? ==> existing.value < |temporary| && temporary[existing.value].entry.ruby == entry.ruby
    {
      hide Scan, FindFrom, NoDuplicates;
      for j := 0 to |positions|
        invariant forall k :: 0 <= k < j ==> positions[k] < |temporary| && !SameEntry(temporary[positions[k]].entry, entry)
      {
        var i := positions[j];
        assert i in positions;
        AnswersInRange(Keys(temporary, rules.encode), Exact, ids, i);
        if SameEntry(temporary[i].entry, entry) {
          OnlyPlace(temporary, i, EntryIdentity(entry));
          return Some(i);
        }
      }
      NotAmong(temporary, rules.encode, entry, ids);
      existing := None;
    }

    method Learn(now: u16, entries: seq<Entry>)
      requires Valid()
      modifies this, temporaryIndex
      ensures Valid() && Value() == Perform(old(Value()), rules, Action.Learn(now, entries))
      ensures temporaryIndex == old(temporaryIndex) || fresh(temporaryIndex)
    {
      hide Sound, Memorized, Refreshed, Build, Stores;
      RefreshKeepsMode(Value(), now);
      RefreshDay(now);
      if !UpdatesMemory(mode) {
        return;
      }
      ghost var start := Value();
      for i := 0 to |entries|
        invariant Valid() && Value() == MemorizedAll(start, rules, entries[..i])
        invariant temporaryIndex == old(temporaryIndex) || fresh(temporaryIndex)
      {
        assert entries[..i + 1][..i] == entries[..i];
        Memorize(entries[i]);
      }
      assert entries[..|entries|] == entries;
    }

    /** Ageing, ordering and cutting off a list of records, and publishing it. `works` says
        whether the file system lets the save through. */
    method SaveRecords(records: seq<Record>, works: bool) returns (ok: bool, kept: seq<Record>)
      requires PauseFile !in directory.files
      modifies directory
      ensures ok <==> works
      ensures kept == Kept(records, today, maxCount)
      ensures PauseFile !in directory.files
      ensures ok ==> Published(directory.files, Files(kept, rules.encode, rules.value))
      ensures !ok ==> directory.files == old(directory.files)
    {
      hide DecayAll, SortByUse, Files, SaveSteps, RunSteps;
      kept := Decay(records, today);
      kept := SortByUse(kept);
      kept := kept[..Min(|kept|, maxCount)];
      if !works {
        return false, kept;
      }
      var files := EncodeFiles(kept, rules.encode, rules.value);
      SavePublishes(files, directory.files);
      ok := directory.SaveFiles(files);
    }

    method Commit(now: u16, works: bool) returns (result: Result<bool, LoadError>)
      requires Valid() && PauseFile !in directory.files
      modifies this, directory
      ensures Valid() && Value() == Perform(old(Value()), rules, Action.Commit(now, works))
      ensures result == Ok(true) ==> Published(directory.files, Files(persisted, rules.encode, rules.value))
      ensures result != Ok(true) ==> directory.files == old(directory.files)
      ensures temporaryIndex == old(temporaryIndex) || fresh(temporaryIndex)
    {
      hide Sound, Refreshed, Published, Kept, Build, Stores, Files, Keys, MemorizedAll, MergeAll, ForgottenTemporary,
           ForgottenPersisted;
      RefreshKeepsMode(Value(), now);
      RefreshDay(now);
      if !UpdatesMemory(mode) || |temporary| == 0 {
        return Ok(false);
      }
      CommittedIsSound(Value(), rules);
      var merged := MergeLists(persisted, temporary);
      var ok, kept := SaveRecords(merged, works);
      if !ok {
        return Err(Io(LoudsFile));
      }
      ReplacePersisted(kept);
      ReplaceTemporary([]);
      result := Ok(true);
    }

    method Forget(now: u16, targets: set<(Utf8, Utf8)>, words: set<Utf8>, works: bool) returns (result: Result<(), LoadError>)
      requires Valid() && PauseFile !in directory.files
      modifies this, directory
      ensures Valid() && Value() == Perform(old(Value()), rules, Action.Forget(now, targets, words, works))
      ensures result.Ok? && mode == InputAndOutput ==> Published(directory.files, Files(persisted, rules.encode, rules.value))
      ensures temporaryIndex == old(temporaryIndex) || fresh(temporaryIndex)
    {
      hide Sound, Refreshed, Published, Kept, Without, Build, Stores, Files, Keys, MemorizedAll, Committed;
      RefreshKeepsMode(Value(), now);
      RefreshDay(now);
      if !UpdatesMemory(mode) {
        return Ok(());
      }
      ForgottenIsSound(Value(), rules, targets, words);
      ForgottenIsSound(ForgottenTemporary(Value(), targets), rules, targets, words);
      var untargeted := Retain(temporary, TargetIn(targets));
      ReplaceTemporary(untargeted);
      var left := Retain(persisted, WordIn(words));
      var ok, kept := SaveRecords(left, works);
      if !ok {
        return Err(Io(LoudsFile));
      }
      ReplacePersisted(kept);
      result := Ok(());
    }

    /** Everything is forgotten, whether or not the files can be removed afterwards. */
    method Reset(now: u16)
      requires Valid()
      modifies this
      ensures Valid() && Value() == Perform(old(Value()), rules, Action.Reset(now))
      ensures temporaryIndex == old(temporaryIndex) || fresh(temporaryIndex)
    {
      hide Sound, Refreshed, Build, Stores;
      RefreshDay(now);
      EmptyIsSound(Value(), rules);
      ReplacePersisted([]);
      ReplaceTemporary([]);
    }

    /** The records of both lists that answer. Exact and prefix lookups give what a scan of both
        lists gives; a prediction may leave out saved records with more than 700 nodes below. */
    method Lookup(now: u16, ids: Key, kind: MatchKind) returns (records: seq<Record>, ghost stored: seq<nat>)
      requires Valid()
      requires var keys := Keys(Refreshed(Value(), now).persisted, rules.encode); |Build(keys, |keys|)| <= USIZE_MAX
      modifies this
      ensures Valid() && Value() == Perform(old(Value()), rules, Look(now))
      ensures temporaryIndex == old(temporaryIndex) || fresh(temporaryIndex)
      ensures mode != Nothing ==>
                && records == Pick(persisted, stored) + Pick(temporary, Scan(kind, Keys(temporary, rules.encode), |temporary|, ids))
                && (kind != Completions ==>
                      stored == if ids == [] then [] else Scan(kind, Keys(persisted, rules.encode), |persisted|, ids))
                && (kind == Completions ==> BoundedPrediction(stored, Keys(persisted, rules.encode), ids, 700))
      ensures mode == Nothing ==> records == []
    {
      hide Sound, Refreshed, Scan, Build, Stores, Pick, BoundedPrediction;
      RefreshDay(now);
      if !UsesMemory(mode) {
        return [], [];
      }
      var fromSaved := persistedIndex.Lookup(ids, kind, Keys(persisted, rules.encode));
      var recent := temporaryIndex.Lookup(ids, kind, Keys(temporary, rules.encode));
      stored := fromSaved;
      records := Pick(persisted, fromSaved) + Pick(temporary, recent);
    }

    /** The records that answer a reading, of which at most `maximum` graphemes are looked at. Exact
        and prefix lookups answer what comparing readings grapheme by grapheme answers. */
    method LookUpReading(now: u16, reading: Utf8, kind: MatchKind, maximum: nat, table: CharacterIdMap, segment: Segmentation)
      returns (records: seq<Record>, ghost stored: seq<nat>)
      requires Valid() && rules.encode == TableEncoder(table, segment) && Distinct(table) && Segments(segment)
      requires var keys := Keys(Refreshed(Value(), now).persisted, rules.encode); |Build(keys, |keys|)| <= USIZE_MAX
      modifies this
      ensures Valid() && Value() == Perform(old(Value()), rules, Look(now))
      ensures temporaryIndex == old(temporaryIndex) || fresh(temporaryIndex)
      ensures mode == Nothing || reading == [] ==> records == []
      ensures mode != Nothing && reading != [] ==>
                var wanted := Taken(segment(reading), maximum);
                && records == Pick(persisted, stored) + Pick(temporary, ScanReadings(kind, temporary, segment, |temporary|, wanted))
                && (kind != Completions ==> stored == ScanReadings(kind, persisted, segment, |persisted|, wanted))
                && (kind == Completions ==>
                      match LookupKey(table, wanted, kind)
                      case None => stored == []
                      case Some(ids) => BoundedPrediction(stored, Keys(persisted, rules.encode), ids, 700))
    {
      hide AllValid, AllSettled, NoDuplicates, Refreshed, Scan, ScanReadings, Build, Stores, BoundedPrediction,
           Distinct, Segments, LookupKey;
      var wanted := Taken(segment(reading), maximum);
      var key := CollectIds(table, wanted, kind);
      if |reading| == 0 || key.None? {
        RefreshDay(now);
        records, stored := [], [];
      } else {
        records, stored := Lookup(now, key.value, kind);
      }
      AnswersByGraphemes(kind, persisted, rules, table, segment, wanted);
      AnswersByGraphemes(kind, temporary, rules, table, segment, wanted);
    }
  }

  /** The first graphemes. */
  function Taken(graphemes: seq<Utf8>, maximum: nat): seq<Utf8> {
    graphemes[..Min(maximum, |graphemes|)]
  }

  method MergeLists(records: seq<Record>, incoming: seq<Record>) returns (merged: seq<Record>)
    ensures merged == MergeAll(records, incoming)
  {
    hide MergeRecord;
    merged := records;
    for i := 0 to |incoming|
      invariant merged == MergeAll(records, incoming[..i])
    {
      assert incoming[..i + 1][..i] == incoming[..i];
      merged := MergeInto(merged, incoming[i]);
    }
    assert incoming[..|incoming|] == incoming;
  }

  method Retain(records: seq<Record>, drop: Record -> bool) returns (kept: seq<Record>)
    ensures kept == Without(records, drop)
  {
    kept := [];
    for i := 0 to |records|
      invariant kept == Without(records[..i], drop)
    {
      assert records[..i + 1][..i] == records[..i];
      if !drop(records[i]) {
        kept := kept + [records[i]];
      }
    }
    assert records[..|records|] == records;
  }

  function Unlearnable(rules: Rules): Record -> bool {
    (r: Record) => !ValidEntry(rules, r.entry)
  }

  lemma {:induction false} ValidMeans(rules: Rules, entry: Entry)
    requires ValidEntry(rules, entry)
    ensures rules.encode(entry.ruby).Some?
  {
  }

  lemma {:induction false} SoundMeans(m: Memory, rules: Rules)
    requires Sound(m, rules)
    ensures NoDuplicates(m.temporary)
  {
  }

  lemma {:induction false} LoadedIsSound(loaded: seq<Record>, rules: Rules, today: u16, mode: LearningMode, maxCount: nat)
    ensures Sound(Memory(DecayAll(Without(loaded, Unlearnable(rules)), today), [], today, mode, maxCount), rules)
  {
    hide DecayAll, Without;
    var valid := Without(loaded, Unlearnable(rules));
    forall i | 0 <= i < |valid|
      ensures ValidEntry(rules, valid[i].entry)
    {
      assert valid[i] in valid;
      WithoutHolds(loaded, Unlearnable(rules), valid[i]);
    }
    DecayAllKeeps(rules, valid, today);
    NothingKeptTwice(rules, today);
  }

  /** A tab is a control character. */
  ghost predicate RejectsTabs(rules: Rules) {
    forall text :: TAB in text ==> rules.hasControl(text)
  }

  /** What a successful save published is read back when the memory is opened again, as the same
      records if and only if no reading has more than 255. */
  lemma {:induction false} SavedRecordsAreReadBack(m: Memory, rules: Rules, directory: Directory)
    requires Sound(m, rules) && RejectsTabs(rules) && Separates(rules.encode)
    requires Fits(Files(m.persisted, rules.encode, rules.value))
    requires Published(directory, Files(m.persisted, rules.encode, rules.value))
    ensures Decoded(directory).Ok?
    ensures multiset(Decoded(directory).value) == multiset(LoadedAll(m.persisted, rules.value)) <==> FewPerReading(Keys(m.persisted, rules.encode))
  {
    hide Files, Decoded, FewPerReading, Fits, Separates;
    forall i | 0 <= i < |m.persisted|
      ensures TabFree(m.persisted[i].entry.word) && TabFree(m.persisted[i].entry.ruby)
      ensures m.persisted[i].entry.ruby != [] && rules.encode(m.persisted[i].entry.ruby).Some?
    {
      assert ValidEntry(rules, m.persisted[i].entry);
    }
    PublishedHolds(directory, Files(m.persisted, rules.encode, rules.value));
    RecordsRoundTrip(m.persisted, rules.encode, rules.value, directory);
  }
}
