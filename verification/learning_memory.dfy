/** The learning memory over whole runs (`LearningMemory` and `LearningState` in `learning.rs`). */
module LearningMemories {
  import opened Wrappers
  import opened Bytes
  import opened Tries
  import opened MemoryIndexes
  import opened EntryBlocks
  import opened MemoryFiles
  import opened MemoryRoundTrip
  import opened Saving
  import opened Decays
  import opened LearnedRecords

  datatype LearningMode = InputAndOutput | OnlyOutput | Nothing

  predicate UsesMemory(mode: LearningMode) {
    mode != Nothing
  }

  predicate UpdatesMemory(mode: LearningMode) {
    mode == InputAndOutput
  }

  /** Which texts can be learned, and how records are valued on disk. */
  datatype Rules = Rules(encode: Encoder, hasControl: Utf8 -> bool, value: ValueLaw)

  predicate ValidEntry(rules: Rules, e: Entry) {
    !rules.hasControl(e.word) && e.ruby != [] && !rules.hasControl(e.ruby) && rules.encode(e.ruby).Some?
  }

  ghost predicate AllValid(rules: Rules, records: seq<Record>) {
    forall i :: 0 <= i < |records| ==> ValidEntry(rules, records[i].entry)
  }

  datatype Memory = Memory(persisted: seq<Record>, temporary: seq<Record>, today: u16, mode: LearningMode, maxCount: nat)

  // ----- the operations on values -----

  function Refreshed(m: Memory, today: u16): Memory {
    if m.today == today then m
    else m.(persisted := DecayAll(m.persisted, today), temporary := DecayAll(m.temporary, today), today := today)
  }

  function MemorizedIn(records: seq<Record>, entry: Entry, today: u16): seq<Record> {
    match FindFrom(records, EntryIdentity(entry), 0)
    case Some(i) =>
      FindMeans(records, EntryIdentity(entry));
      records[i := Record(entry, today, records[i].lastUpdatedDay, SaturatingCount(records[i].count, 1))]
    case None => records + [Record(entry, today, today, 1)]
  }

  function Memorized(m: Memory, rules: Rules, entry: Entry): Memory {
    if ValidEntry(rules, entry) then m.(temporary := MemorizedIn(m.temporary, entry, m.today)) else m
  }

  function MemorizedAll(m: Memory, rules: Rules, entries: seq<Entry>): Memory {
    if entries == [] then m
    else Memorized(MemorizedAll(m, rules, entries[..|entries| - 1]), rules, entries[|entries| - 1])
  }

  /** The records that fail the test. */
  function Without(records: seq<Record>, drop: Record -> bool): seq<Record> {
    if records == [] then []
    else
      Without(records[..|records| - 1], drop)
      + if drop(records[|records| - 1]) then [] else [records[|records| - 1]]
  }

  function TargetIn(targets: set<(Utf8, Utf8)>): Record -> bool {
    (r: Record) => (r.entry.ruby, r.entry.word) in targets
  }

  function WordIn(words: set<Utf8>): Record -> bool {
    (r: Record) => r.entry.word in words
  }

  datatype Action =
    | Learn(today: u16, entries: seq<Entry>)
    | Commit(today: u16, saved: bool)
    | Forget(today: u16, targets: set<(Utf8, Utf8)>, words: set<Utf8>, saved: bool)
    | Reset(today: u16)
    | Look(today: u16)

  function Committed(m: Memory): Memory {
    m.(persisted := Kept(MergeAll(m.persisted, m.temporary), m.today, m.maxCount), temporary := [])
  }

  function ForgottenTemporary(m: Memory, targets: set<(Utf8, Utf8)>): Memory {
    m.(temporary := Without(m.temporary, TargetIn(targets)))
  }

  function ForgottenPersisted(m: Memory, words: set<Utf8>): Memory {
    m.(persisted := Kept(Without(m.persisted, WordIn(words)), m.today, m.maxCount))
  }

  /** One call. Every call first looks at the clock. A failed save leaves the persisted records. */
  function Perform(m: Memory, rules: Rules, action: Action): Memory {
    var now := Refreshed(m, action.today);
    match action
    case Learn(_, entries) => if UpdatesMemory(now.mode) then MemorizedAll(now, rules, entries) else now
    case Commit(_, saved) =>
      if UpdatesMemory(now.mode) && now.temporary != [] && saved then Committed(now) else now
    case Forget(_, targets, words, saved) =>
      if !UpdatesMemory(now.mode) then now
      else
        var forgotten := ForgottenTemporary(now, targets);
        if saved then ForgottenPersisted(forgotten, words) else forgotten
    case Reset(_) => now.(persisted := [], temporary := [])
    case Look(_) => now
  }

  function Run(m: Memory, rules: Rules, actions: seq<Action>): Memory {
    if actions == [] then m
    else Perform(Run(m, rules, actions[..|actions| - 1]), rules, actions[|actions| - 1])
  }

  // ----- invariants -----

  /** Every record is learnable and up to date, and no entry is remembered twice since startup. */
  ghost predicate Sound(m: Memory, rules: Rules) {
    && AllSettled(m.persisted, m.today) && AllSettled(m.temporary, m.today)
    && AllValid(rules, m.persisted) && AllValid(rules, m.temporary)
    && NoDuplicates(m.temporary)
  }

  lemma {:induction false} DecayAllKeeps(rules: Rules, records: seq<Record>, today: u16)
    requires AllValid(rules, records)
    ensures AllValid(rules, DecayAll(records, today)) && AllSettled(DecayAll(records, today), today)
    ensures NoDuplicates(records) ==> NoDuplicates(DecayAll(records, today))
  {
    hide Decayed, ValidEntry, Settled;
    DecayAllSettles(records, today);
    DecayAllValid(rules, records, today);
    forall id
      ensures Copies(DecayAll(records, today), id) <= Copies(records, id)
    {
      DecayCopies(records, today, id);
    }
  }

  lemma {:induction false} DecayAllValid(rules: Rules, records: seq<Record>, today: u16)
    requires AllValid(rules, records)
    ensures AllValid(rules, DecayAll(records, today))
  {
    hide Decayed, ValidEntry;
    if records != [] {
      DecayAllValid(rules, records[..|records| - 1], today);
      DecaySettles(records[|records| - 1], today);
    }
  }

  lemma {:induction false} RefreshedIsSound(m: Memory, rules: Rules, today: u16)
    requires Sound(m, rules)
    ensures Sound(Refreshed(m, today), rules) && Refreshed(m, today).today == today
    ensures NoDuplicates(m.persisted) ==> NoDuplicates(Refreshed(m, today).persisted)
  {
    hide DecayAll, NoDuplicates, AllSettled, AllValid;
    DecayAllKeeps(rules, m.persisted, today);
    DecayAllKeeps(rules, m.temporary, today);
  }

  lemma {:induction false} MemorizedCounts(records: seq<Record>, entry: Entry, today: u16, id: Identity)
    requires NoDuplicates(records)
    ensures NoDuplicates(MemorizedIn(records, entry, today))
    ensures CountOf(MemorizedIn(records, entry, today), id)
            == if EntryIdentity(entry) == id then Least255(CountOf(records, id) + 1) else CountOf(records, id)
  {
    var own := EntryIdentity(entry);
    FindMeans(records, own);
    match FindFrom(records, own, 0) {
      case Some(i) =>
        var r := Record(entry, today, records[i].lastUpdatedDay, SaturatingCount(records[i].count, 1));
        forall other
          ensures Copies(MemorizedIn(records, entry, today), other) <= 1
        {
          UpdateCounts(records, i, r, other);
        }
        UpdateCounts(records, i, r, id);
        OnlyCopy(records, i);
      case None =>
        NoCopiesNoCount(records, own);
        forall other
          ensures Copies(MemorizedIn(records, entry, today), other) <= 1
        {
          CopiesSnoc(records, Record(entry, today, today, 1), other);
        }
        CopiesSnoc(records, Record(entry, today, today, 1), id);
    }
  }

  lemma {:induction false} MemorizedIsSound(m: Memory, rules: Rules, entry: Entry)
    requires Sound(m, rules)
    ensures Sound(Memorized(m, rules, entry), rules)
  {
    hide FindFrom, NoDuplicates;
    if ValidEntry(rules, entry) {
      MemorizedCounts(m.temporary, entry, m.today, EntryIdentity(entry));
      FindMeans(m.temporary, EntryIdentity(entry));
    }
  }

  lemma {:induction false} MemorizedAllIsSound(m: Memory, rules: Rules, entries: seq<Entry>)
    requires Sound(m, rules)
    ensures Sound(MemorizedAll(m, rules, entries), rules)
    ensures MemorizedAll(m, rules, entries).persisted == m.persisted
    ensures MemorizedAll(m, rules, entries).(temporary := m.temporary) == m
  {
    hide Sound;
    if entries != [] {
      MemorizedAllIsSound(m, rules, entries[..|entries| - 1]);
      MemorizedIsSound(MemorizedAll(m, rules, entries[..|entries| - 1]), rules, entries[|entries| - 1]);
    }
  }

  lemma {:induction false} WithoutHolds(records: seq<Record>, drop: Record -> bool, r: Record)
    ensures r in Without(records, drop) <==> r in records && !drop(r)
  {
    if records != [] {
      WithoutHolds(records[..|records| - 1], drop, r);
      assert records == records[..|records| - 1] + [records[|records| - 1]];
    }
  }

  lemma {:induction false} WithoutCopies(records: seq<Record>, drop: Record -> bool, id: Identity)
    ensures Copies(Without(records, drop), id) <= Copies(records, id)
  {
    if records != [] {
      var init, last := records[..|records| - 1], records[|records| - 1];
      WithoutCopies(init, drop, id);
      if !drop(last) {
        CopiesSnoc(Without(init, drop), last, id);
      } else {
        assert Without(records, drop) == Without(init, drop);
      }
    }
  }

  lemma {:induction false} WithoutKeeps(records: seq<Record>, drop: Record -> bool, rules: Rules, today: u16)
    ensures AllSettled(records, today) ==> AllSettled(Without(records, drop), today)
    ensures AllValid(rules, records) ==> AllValid(rules, Without(records, drop))
    ensures forall r :: r in Without(records, drop) <==> r in records && !drop(r)
  {
    hide Settled, ValidEntry, Without;
    forall r
      ensures r in Without(records, drop) <==> r in records && !drop(r)
    {
      WithoutHolds(records, drop, r);
    }
    var left := Without(records, drop);
    assert forall i :: 0 <= i < |left| ==> left[i] in left;
  }

  lemma {:induction false} WithoutNoDuplicates(records: seq<Record>, drop: Record -> bool)
    requires NoDuplicates(records)
    ensures NoDuplicates(Without(records, drop))
  {
    forall id
      ensures Copies(Without(records, drop), id) <= 1
    {
      WithoutCopies(records, drop, id);
      assert Copies(records, id) <= 1;
    }
  }

  lemma {:induction false} MergeIsSound(records: seq<Record>, incoming: Record, rules: Rules, today: u16)
    requires AllSettled(records, today) && AllValid(rules, records) && Settled(incoming, today) && ValidEntry(rules, incoming.entry)
    ensures AllSettled(MergeRecord(records, incoming), today) && AllValid(rules, MergeRecord(records, incoming))
  {
    hide FindFrom;
    FindMeans(records, IdentityOf(incoming));
  }

  lemma {:induction false} MergeAllIsSound(records: seq<Record>, incoming: seq<Record>, rules: Rules, today: u16)
    requires AllSettled(records, today) && AllValid(rules, records) && AllSettled(incoming, today) && AllValid(rules, incoming)
    ensures AllSettled(MergeAll(records, incoming), today) && AllValid(rules, MergeAll(records, incoming))
  {
    hide Settled, ValidEntry;
    if incoming != [] {
      MergeAllIsSound(records, incoming[..|incoming| - 1], rules, today);
      MergeIsSound(MergeAll(records, incoming[..|incoming| - 1]), incoming[|incoming| - 1], rules, today);
    }
  }

  lemma {:induction false} KeptIsSound(records: seq<Record>, rules: Rules, today: u16, maxCount: nat)
    requires AllSettled(records, today) && AllValid(rules, records)
    ensures AllSettled(Kept(records, today, maxCount), today) && AllValid(rules, Kept(records, today, maxCount))
    ensures NoDuplicates(records) ==> NoDuplicates(Kept(records, today, maxCount))
    ensures forall r :: r in Kept(records, today, maxCount) ==> r in records
  {
    hide SortByUse, DecayAll, Settled, ValidEntry;
    DecayAllSettles(records, today);
    KeepsTheNewest(records, today, maxCount);
    var kept := Kept(records, today, maxCount);
    forall i | 0 <= i < |kept|
      ensures kept[i] in records
    {
      assert kept[i] in multiset(kept);
      assert kept[i] in multiset(records);
    }
    if NoDuplicates(records) {
      KeptCounts(records, today, maxCount, Identity([], [], 0, 0));
    }
  }

  lemma {:induction false} CommittedIsSound(m: Memory, rules: Rules)
    requires Sound(m, rules)
    ensures Sound(Committed(m), rules)
    ensures NoDuplicates(m.persisted) ==> NoDuplicates(Committed(m).persisted)
  {
    hide AllSettled, AllValid, MergeAll, Kept;
    MergeAllIsSound(m.persisted, m.temporary, rules, m.today);
    if NoDuplicates(m.persisted) {
      MergeAllAddsCounts(m.persisted, m.temporary, Identity([], [], 0, 0));
    }
    KeptIsSound(MergeAll(m.persisted, m.temporary), rules, m.today, m.maxCount);
    NothingKeptTwice(rules, m.today);
  }

  lemma {:induction false} NothingKeptTwice(rules: Rules, today: u16)
    ensures NoDuplicates([]) && AllSettled([], today) && AllValid(rules, [])
  {
  }

  lemma {:induction false} ForgottenIsSound(m: Memory, rules: Rules, targets: set<(Utf8, Utf8)>, words: set<Utf8>)
    requires Sound(m, rules)
    ensures Sound(ForgottenTemporary(m, targets), rules)
    ensures Sound(ForgottenPersisted(m, words), rules)
    ensures NoDuplicates(m.persisted) ==> NoDuplicates(ForgottenPersisted(m, words).persisted)
  {
    hide AllSettled, AllValid, NoDuplicates, Kept, Without;
    var drop := TargetIn(targets);
    assert ForgottenTemporary(m, targets).temporary == Without(m.temporary, drop);
    WithoutKeeps(m.temporary, drop, rules, m.today);
    WithoutNoDuplicates(m.temporary, drop);
    var forget := WordIn(words);
    assert ForgottenPersisted(m, words).persisted == Kept(Without(m.persisted, forget), m.today, m.maxCount);
    WithoutKeeps(m.persisted, forget, rules, m.today);
    KeptIsSound(Without(m.persisted, forget), rules, m.today, m.maxCount);
    if NoDuplicates(m.persisted) {
      WithoutNoDuplicates(m.persisted, forget);
    }
  }

  lemma {:induction false} PerformIsSound(m: Memory, rules: Rules, action: Action)
    requires Sound(m, rules)
    ensures Sound(Perform(m, rules, action), rules)
    ensures NoDuplicates(m.persisted) ==> NoDuplicates(Perform(m, rules, action).persisted)
  {
    hide Refreshed, MemorizedAll, Committed, ForgottenTemporary, ForgottenPersisted, NoDuplicates, Sound;
    RefreshedIsSound(m, rules, action.today);
    var now := Refreshed(m, action.today);
    match action {
      case Learn(_, entries) => MemorizedAllIsSound(now, rules, entries);
      case Commit(_, _) => CommittedIsSound(now, rules);
      case Forget(_, targets, words, _) =>
        ForgottenIsSound(now, rules, targets, words);
        ForgottenIsSound(ForgottenTemporary(now, targets), rules, targets, words);
        ForgottenKeepsPersisted(now, targets);
      case Reset(_) => EmptyIsSound(now, rules);
      case Look(_) =>
    }
  }

  lemma {:induction false} ForgottenKeepsPersisted(m: Memory, targets: set<(Utf8, Utf8)>)
    ensures ForgottenTemporary(m, targets).persisted == m.persisted
  {
  }

  lemma {:induction false} EmptyIsSound(m: Memory, rules: Rules)
    ensures Sound(m.(persisted := [], temporary := []), rules) && NoDuplicates([])
  {
  }

  /** Over every run of calls, failed saves and clock changes included, the memory stays sound
      and the persisted list gains no duplicates. */
  lemma {:induction false} RunsStaySound(m: Memory, rules: Rules, actions: seq<Action>)
    requires Sound(m, rules)
    ensures Sound(Run(m, rules, actions), rules)
    ensures NoDuplicates(m.persisted) ==> NoDuplicates(Run(m, rules, actions).persisted)
  {
    hide Perform, Sound, NoDuplicates;
    if actions != [] {
      RunsStaySound(m, rules, actions[..|actions| - 1]);
      PerformIsSound(Run(m, rules, actions[..|actions| - 1]), rules, actions[|actions| - 1]);
    }
  }

  /** A successful commit adds the temporary counts to the persisted ones, saturating at 255; what
      it loses was used no more recently than anything it keeps, and only if the memory is full. */
  lemma {:induction false} CommitAddsCounts(m: Memory, rules: Rules, id: Identity)
    requires Sound(m, rules) && NoDuplicates(m.persisted)
    ensures var after := Committed(m);
            && after.temporary == []
            && (Copies(after.persisted, id) > 0 ==>
                  CountOf(after.persisted, id) == Least255(CountOf(m.persisted, id) + CountOf(m.temporary, id)))
    ensures var merged := MergeAll(m.persisted, m.temporary);
            var dropped := Dropped(merged, m.today, m.maxCount);
            && multiset(Committed(m).persisted) + multiset(dropped) == multiset(merged)
            && (forall k, d :: k in Committed(m).persisted && d in dropped ==> d.lastUsedDay <= k.lastUsedDay)
            && (dropped != [] ==> |Committed(m).persisted| == m.maxCount)
  {
    hide AllSettled, AllValid, MergeAll, Kept, Dropped, DecayAll;
    MergeAllIsSound(m.persisted, m.temporary, rules, m.today);
    CountFits(m.persisted, id);
    MergeAllAddsCounts(m.persisted, m.temporary, id);
    var merged := MergeAll(m.persisted, m.temporary);
    KeptCounts(merged, m.today, m.maxCount, id);
    KeepsTheNewest(merged, m.today, m.maxCount);
    DecayAllSettles(merged, m.today);
  }

  /** What is forgotten is gone from both lists, as soon as the save succeeds. */
  lemma {:induction false} ForgetRemoves(m: Memory, rules: Rules, targets: set<(Utf8, Utf8)>, words: set<Utf8>, today: u16, saved: bool)
    requires Sound(m, rules) && UpdatesMemory(m.mode)
    ensures var after := Perform(m, rules, Forget(today, targets, words, saved));
            && (forall r :: r in after.temporary ==> (r.entry.ruby, r.entry.word) !in targets)
            && (saved ==> forall r :: r in after.persisted ==> r.entry.word !in words)
            && (!saved ==> after.persisted == Refreshed(m, today).persisted)
  {
    hide AllSettled, AllValid, NoDuplicates, Kept, Without, Refreshed;
    RefreshKeepsMode(m, today);
    RefreshedIsSound(m, rules, today);
    var now := Refreshed(m, today);
    var drop := TargetIn(targets);
    assert ForgottenTemporary(now, targets).temporary == Without(now.temporary, drop);
    WithoutKeeps(now.temporary, drop, rules, now.today);
    var forget := WordIn(words);
    assert ForgottenPersisted(now, words).persisted == Kept(Without(now.persisted, forget), now.today, now.maxCount);
    WithoutKeeps(now.persisted, forget, rules, now.today);
    KeptIsSound(Without(now.persisted, forget), rules, now.today, now.maxCount);
  }

  lemma {:induction false} RefreshKeepsMode(m: Memory, today: u16)
    ensures Refreshed(m, today).mode == m.mode
  {
  }
}
