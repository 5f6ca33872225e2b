/** Lists of learned records: merging, ordering by last use and cutting off (`learning.rs`). */
module LearnedRecords {
  import opened Wrappers
  import opened Numbers
  import opened Bytes
  import opened EntryBlocks
  import opened Decays

  /** What makes two entries the same (`same_entry`). */
  datatype Identity = Identity(ruby: Utf8, word: Utf8, leftId: u16, rightId: u16)

  function IdentityOf(r: Record): Identity {
    EntryIdentity(r.entry)
  }

  function EntryIdentity(e: Entry): Identity {
    Identity(e.ruby, e.word, e.leftId, e.rightId)
  }

  predicate SameEntry(a: Entry, b: Entry) {
    a.ruby == b.ruby && a.word == b.word && a.leftId == b.leftId && a.rightId == b.rightId
  }

  /** How many records stand for the entry. */
  function Copies(records: seq<Record>, id: Identity): nat {
    if records == [] then 0
    else Copies(records[..|records| - 1], id) + if IdentityOf(records[|records| - 1]) == id then 1 else 0
  }

  /** The counts of all records that stand for the entry. */
  function CountOf(records: seq<Record>, id: Identity): nat {
    if records == [] then 0
    else CountOf(records[..|records| - 1], id) + if IdentityOf(records[|records| - 1]) == id then records[|records| - 1].count as nat else 0
  }

  ghost predicate NoDuplicates(records: seq<Record>) {
    forall id :: Copies(records, id) <= 1
  }

  lemma {:induction false} CopiesSnoc(records: seq<Record>, r: Record, id: Identity)
    ensures Copies(records + [r], id) == Copies(records, id) + if IdentityOf(r) == id then 1 else 0
    ensures CountOf(records + [r], id) == CountOf(records, id) + if IdentityOf(r) == id then r.count as nat else 0
  {
    assert (records + [r])[..|records|] == records;
  }

  lemma {:induction false} CopiesAppend(a: seq<Record>, b: seq<Record>, id: Identity)
    ensures Copies(a + b, id) == Copies(a, id) + Copies(b, id)
    ensures CountOf(a + b, id) == CountOf(a, id) + CountOf(b, id)
  {
    if b == [] {
      assert a + b == a;
    } else {
      var init, last := b[..|b| - 1], b[|b| - 1];
      CopiesAppend(a, init, id);
      assert a + b == (a + init) + [last];
      CopiesSnoc(a + init, last, id);
    }
  }

  lemma {:induction false} NoCopiesNoCount(records: seq<Record>, id: Identity)
    requires Copies(records, id) == 0
    ensures CountOf(records, id) == 0
    ensures forall i :: 0 <= i < |records| ==> IdentityOf(records[i]) != id
  {
    if records != [] {
      NoCopiesNoCount(records[..|records| - 1], id);
    }
  }

  lemma {:induction false} CopiesAt(records: seq<Record>, i: nat, id: Identity)
    requires i < |records|
    ensures Copies(records, id) == Copies(records[..i], id) + (if IdentityOf(records[i]) == id then 1 else 0) + Copies(records[i + 1..], id)
    ensures CountOf(records, id)
            == CountOf(records[..i], id) + (if IdentityOf(records[i]) == id then records[i].count as nat else 0) + CountOf(records[i + 1..], id)
  {
    assert records == (records[..i] + [records[i]]) + records[i + 1..];
    CopiesAppend(records[..i] + [records[i]], records[i + 1..], id);
    CopiesSnoc(records[..i], records[i], id);
  }

  // ----- finding and updating -----

  function FindFrom(records: seq<Record>, id: Identity, from: nat): Option<nat>
    requires from <= |records|
    decreases |records| - from
  {
    if from == |records| then None
    else if IdentityOf(records[from]) == id then Some(from)
    else FindFrom(records, id, from + 1)
  }

  lemma {:induction false} FindFromMeans(records: seq<Record>, id: Identity, from: nat)
    requires from <= |records|
    ensures var i := FindFrom(records, id, from);
            && (i.Some? ==> from <= i.value < |records| && IdentityOf(records[i.value]) == id)
            && (i.None? ==> Copies(records[from..], id) == 0)
    decreases |records| - from
  {
    if from < |records| {
      FindFromMeans(records, id, from + 1);
      assert records[from..] == [records[from]] + records[from + 1..];
      CopiesAppend([records[from]], records[from + 1..], id);
      assert [] + [records[from]] == [records[from]];
      CopiesSnoc([], records[from], id);
    }
  }

  lemma {:induction false} FindMeans(records: seq<Record>, id: Identity)
    ensures var i := FindFrom(records, id, 0);
            && (i.Some? ==> i.value < |records| && IdentityOf(records[i.value]) == id)
            && (i.None? ==> Copies(records, id) == 0)
  {
    FindFromMeans(records, id, 0);
    assert records[0..] == records;
  }

  lemma {:induction false} UpdateCounts(records: seq<Record>, i: nat, r: Record, id: Identity)
    requires i < |records| && IdentityOf(r) == IdentityOf(records[i])
    ensures Copies(records[i := r], id) == Copies(records, id)
    ensures CountOf(records[i := r], id)
            == CountOf(records, id) + if IdentityOf(r) == id then r.count as nat - records[i].count as nat else 0
  {
    CopiesAt(records, i, id);
    CopiesAt(records[i := r], i, id);
    assert records[i := r][..i] == records[..i] && records[i := r][i + 1..] == records[i + 1..];
  }

  lemma {:induction false} OnlyCopy(records: seq<Record>, i: nat)
    requires i < |records| && NoDuplicates(records)
    ensures CountOf(records, IdentityOf(records[i])) == records[i].count as nat
  {
    var id := IdentityOf(records[i]);
    CopiesAt(records, i, id);
    assert Copies(records, id) <= 1;
    NoCopiesNoCount(records[..i], id);
    NoCopiesNoCount(records[i + 1..], id);
  }

  function SaturatingCount(a: byte, b: byte): byte {
    if a as nat + b as nat <= 255 then (a as nat + b as nat) as byte else 255
  }

  function Max16(a: u16, b: u16): u16 {
    if a >= b then a else b
  }

  function Merged(r: Record, incoming: Record): Record {
    Record(incoming.entry, Max16(r.lastUsedDay, incoming.lastUsedDay), Max16(r.lastUpdatedDay, incoming.lastUpdatedDay),
           SaturatingCount(r.count, incoming.count))
  }

  function MergeRecord(records: seq<Record>, incoming: Record): seq<Record> {
    match FindFrom(records, IdentityOf(incoming), 0)
    case Some(i) => FindMeans(records, IdentityOf(incoming)); records[i := Merged(records[i], incoming)]
    case None => records + [incoming]
  }

  method MergeInto(records: seq<Record>, incoming: Record) returns (result: seq<Record>)
    ensures result == MergeRecord(records, incoming)
  {
    var i := 0;
    while i < |records|
      invariant 0 <= i <= |records|
      invariant FindFrom(records, IdentityOf(incoming), 0) == FindFrom(records, IdentityOf(incoming), i)
    {
      if SameEntry(records[i].entry, incoming.entry) {
        var record := records[i];
        record := record.(count := SaturatingCount(record.count, incoming.count));
        record := record.(lastUsedDay := Max16(record.lastUsedDay, incoming.lastUsedDay));
        record := record.(lastUpdatedDay := Max16(record.lastUpdatedDay, incoming.lastUpdatedDay));
        record := record.(entry := incoming.entry);
        return records[i := record];
      }
      i := i + 1;
    }
    result := records + [incoming];
  }

  function Least255(n: nat): nat {
    if n <= 255 then n else 255
  }

  /** Merging adds the counts of one entry, saturating, and touches no other entry. */
  lemma {:induction false} MergeAddsCounts(records: seq<Record>, incoming: Record, id: Identity)
    requires NoDuplicates(records)
    ensures NoDuplicates(MergeRecord(records, incoming))
    ensures CountOf(MergeRecord(records, incoming), id)
            == if IdentityOf(incoming) == id then Least255(CountOf(records, id) + incoming.count as nat) else CountOf(records, id)
  {
    var own := IdentityOf(incoming);
    FindMeans(records, own);
    match FindFrom(records, own, 0) {
      case Some(i) =>
        forall other
          ensures Copies(MergeRecord(records, incoming), other) <= 1
        {
          UpdateCounts(records, i, Merged(records[i], incoming), other);
        }
        UpdateCounts(records, i, Merged(records[i], incoming), id);
        OnlyCopy(records, i);
      case None =>
        NoCopiesNoCount(records, own);
        forall other
          ensures Copies(MergeRecord(records, incoming), other) <= 1
        {
          CopiesSnoc(records, incoming, other);
        }
        CopiesSnoc(records, incoming, id);
    }
  }

  function MergeAll(records: seq<Record>, incoming: seq<Record>): seq<Record> {
    if incoming == [] then records
    else MergeRecord(MergeAll(records, incoming[..|incoming| - 1]), incoming[|incoming| - 1])
  }

  /** Merging a list without duplicates into another adds the counts of every entry, saturating. */
  lemma {:induction false} MergeAllAddsCounts(records: seq<Record>, incoming: seq<Record>, id: Identity)
    requires NoDuplicates(records) && NoDuplicates(incoming)
    ensures NoDuplicates(MergeAll(records, incoming))
    ensures CountOf(records, id) <= 255 ==>
              CountOf(MergeAll(records, incoming), id) == Least255(CountOf(records, id) + CountOf(incoming, id))
  {
    if incoming != [] {
      var init, last := incoming[..|incoming| - 1], incoming[|incoming| - 1];
      forall other
        ensures Copies(init, other) <= Copies(incoming, other)
      {
      }
      MergeAllAddsCounts(records, init, id);
      MergeAddsCounts(MergeAll(records, init), last, id);
    }
  }

  lemma {:induction false} CountFits(records: seq<Record>, id: Identity)
    requires NoDuplicates(records)
    ensures CountOf(records, id) <= 255
  {
    FindMeans(records, id);
    match FindFrom(records, id, 0)
    case Some(i) => OnlyCopy(records, i);
    case None => NoCopiesNoCount(records, id);
  }

  // ----- newest first -----

  /** A stable sort by descending day of last use. */
  function InsertByUse(records: seq<Record>, r: Record): seq<Record> {
    if records == [] || records[|records| - 1].lastUsedDay >= r.lastUsedDay then records + [r]
    else InsertByUse(records[..|records| - 1], r) + [records[|records| - 1]]
  }

  function SortByUse(records: seq<Record>): seq<Record> {
    if records == [] then [] else InsertByUse(SortByUse(records[..|records| - 1]), records[|records| - 1])
  }

  ghost predicate NewestFirst(records: seq<Record>) {
    forall i, j :: 0 <= i < j < |records| ==> records[i].lastUsedDay >= records[j].lastUsedDay
  }

  ghost predicate UsedSince(records: seq<Record>, day: u16) {
    forall i :: 0 <= i < |records| ==> records[i].lastUsedDay >= day
  }

  /** The records used on one day, in order. */
  function UsedOn(records: seq<Record>, day: u16): seq<Record> {
    if records == [] then []
    else UsedOn(records[..|records| - 1], day) + if records[|records| - 1].lastUsedDay == day then [records[|records| - 1]] else []
  }

  lemma {:induction false} UsedOnSnoc(records: seq<Record>, r: Record, day: u16)
    ensures UsedOn(records + [r], day) == UsedOn(records, day) + if r.lastUsedDay == day then [r] else []
  {
    assert (records + [r])[..|records|] == records;
  }

  lemma {:induction false} InsertedNewestFirst(records: seq<Record>, r: Record)
    requires NewestFirst(records)
    ensures NewestFirst(InsertByUse(records, r))
    ensures forall day :: UsedSince(records, day) && r.lastUsedDay >= day ==> UsedSince(InsertByUse(records, r), day)
  {
    if records != [] && records[|records| - 1].lastUsedDay < r.lastUsedDay {
      var init, last := records[..|records| - 1], records[|records| - 1];
      InsertedNewestFirst(init, r);
      assert UsedSince(init, last.lastUsedDay);
      assert UsedSince(InsertByUse(init, r), last.lastUsedDay);
      forall day | UsedSince(records, day) && r.lastUsedDay >= day
        ensures UsedSince(InsertByUse(records, r), day)
      {
        assert UsedSince(init, day);
        assert UsedSince(InsertByUse(init, r), day);
      }
    }
  }

  lemma {:induction false} InsertKeepsAll(records: seq<Record>, r: Record)
    ensures multiset(InsertByUse(records, r)) == multiset(records) + multiset{r}
  {
    if records != [] && records[|records| - 1].lastUsedDay < r.lastUsedDay {
      InsertKeepsAll(records[..|records| - 1], r);
      assert records == records[..|records| - 1] + [records[|records| - 1]];
    }
  }

  lemma {:induction false} InsertKeepsCounts(records: seq<Record>, r: Record, id: Identity)
    ensures Copies(InsertByUse(records, r), id) == Copies(records, id) + if IdentityOf(r) == id then 1 else 0
    ensures CountOf(InsertByUse(records, r), id) == CountOf(records, id) + if IdentityOf(r) == id then r.count as nat else 0
  {
    if records == [] || records[|records| - 1].lastUsedDay >= r.lastUsedDay {
      CopiesSnoc(records, r, id);
    } else {
      InsertKeepsCounts(records[..|records| - 1], r, id);
      CopiesSnoc(InsertByUse(records[..|records| - 1], r), records[|records| - 1], id);
    }
  }

  lemma {:induction false} InsertKeepsDays(records: seq<Record>, r: Record, day: u16)
    ensures UsedOn(InsertByUse(records, r), day) == UsedOn(records, day) + if r.lastUsedDay == day then [r] else []
  {
    if records == [] || records[|records| - 1].lastUsedDay >= r.lastUsedDay {
      UsedOnSnoc(records, r, day);
    } else {
      InsertKeepsDays(records[..|records| - 1], r, day);
      UsedOnSnoc(InsertByUse(records[..|records| - 1], r), records[|records| - 1], day);
    }
  }

  /** The sort orders the records, keeps all of them, and keeps the order within a day. */
  lemma {:induction false} SortIsStable(records: seq<Record>, id: Identity, day: u16)
    ensures NewestFirst(SortByUse(records)) && multiset(SortByUse(records)) == multiset(records)
    ensures Copies(SortByUse(records), id) == Copies(records, id) && CountOf(SortByUse(records), id) == CountOf(records, id)
    ensures UsedOn(SortByUse(records), day) == UsedOn(records, day)
  {
    hide InsertByUse;
    if records != [] {
      var init, last := records[..|records| - 1], records[|records| - 1];
      SortIsStable(init, id, day);
      InsertedNewestFirst(SortByUse(init), last);
      InsertKeepsAll(SortByUse(init), last);
      InsertKeepsCounts(SortByUse(init), last, id);
      InsertKeepsDays(SortByUse(init), last, day);
      assert records == init + [last];
    }
  }

  /** What a save keeps: aged, newest first, at most `maxCount`. */
  function Kept(records: seq<Record>, today: u16, maxCount: nat): seq<Record> {
    var sorted := SortByUse(DecayAll(records, today));
    sorted[..Min(|sorted|, maxCount)]
  }

  function Dropped(records: seq<Record>, today: u16, maxCount: nat): seq<Record> {
    var sorted := SortByUse(DecayAll(records, today));
    sorted[Min(|sorted|, maxCount)..]
  }

  /** Cutting off loses only records used no more recently than every kept one, and only if the
      memory is full. */
  lemma {:induction false} KeepsTheNewest(records: seq<Record>, today: u16, maxCount: nat)
    ensures multiset(Kept(records, today, maxCount)) + multiset(Dropped(records, today, maxCount)) == multiset(DecayAll(records, today))
    ensures forall k, d :: k in Kept(records, today, maxCount) && d in Dropped(records, today, maxCount) ==> d.lastUsedDay <= k.lastUsedDay
    ensures Dropped(records, today, maxCount) != [] ==> |Kept(records, today, maxCount)| == maxCount
    ensures |Kept(records, today, maxCount)| <= maxCount
  {
    hide SortByUse, DecayAll;
    var aged := DecayAll(records, today);
    var sorted := SortByUse(aged);
    SortIsStable(aged, Identity([], [], 0, 0), 0);
    var n := Min(|sorted|, maxCount);
    assert sorted == sorted[..n] + sorted[n..];
    forall k, d | k in sorted[..n] && d in sorted[n..]
      ensures d.lastUsedDay <= k.lastUsedDay
    {
      var i :| 0 <= i < n && sorted[i] == k;
      var j :| n <= j < |sorted| && sorted[j] == d;
    }
  }

  lemma {:induction false} PrefixCopies(records: seq<Record>, n: nat, id: Identity)
    requires n <= |records|
    ensures Copies(records[..n], id) <= Copies(records, id)
    ensures Copies(records, id) <= 1 ==> CountOf(records[..n], id) == CountOf(records, id) || Copies(records[..n], id) == 0
  {
    assert records == records[..n] + records[n..];
    CopiesAppend(records[..n], records[n..], id);
    if Copies(records[n..], id) == 0 {
      NoCopiesNoCount(records[n..], id);
    }
  }

  lemma {:induction false} DecayCopies(records: seq<Record>, today: u16, id: Identity)
    ensures Copies(DecayAll(records, today), id) <= Copies(records, id)
  {
    hide Decayed;
    if records != [] {
      var init, last := records[..|records| - 1], records[|records| - 1];
      DecayCopies(init, today, id);
      DecaySettles(last, today);
      match Decayed(last, today)
      case None => assert DecayAll(records, today) == DecayAll(init, today);
      case Some(next) => CopiesSnoc(DecayAll(init, today), next, id);
    }
  }

  /** What is kept of settled records: every entry with its count, or not at all. */
  lemma {:induction false} KeptCounts(records: seq<Record>, today: u16, maxCount: nat, id: Identity)
    requires NoDuplicates(records) && AllSettled(records, today)
    ensures NoDuplicates(Kept(records, today, maxCount)) && AllSettled(Kept(records, today, maxCount), today)
    ensures Copies(Kept(records, today, maxCount), id) > 0 ==> CountOf(Kept(records, today, maxCount), id) == CountOf(records, id)
  {
    hide SortByUse, DecayAll, Settled;
    DecayAllSettles(records, today);
    var sorted := SortByUse(records);
    var n := Min(|sorted|, maxCount);
    forall other
      ensures Copies(sorted[..n], other) <= 1
    {
      SortIsStable(records, other, 0);
      PrefixCopies(sorted, n, other);
      assert Copies(records, other) <= 1;
    }
    SortIsStable(records, id, 0);
    PrefixCopies(sorted, n, id);
    assert Copies(records, id) <= 1;
    forall i | 0 <= i < n
      ensures Settled(sorted[i], today)
    {
      assert sorted[i] in multiset(sorted);
      assert sorted[i] in multiset(records);
      assert sorted[i] in records;
    }
  }
}
