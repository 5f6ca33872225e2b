/** The ageing of learned records (`decay` in `learning.rs`). It is applied lazily, whenever the
    memory is looked at on a new day. */
module Decays {
  import opened Wrappers
  import opened Numbers
  import opened Bytes
  import opened EntryBlocks

  const USE_LIMIT: nat := 128
  const HALF_LIFE: nat := 32

  function SaturatingAdd16(a: u16, b: nat): u16 {
    if a + b <= U16_MAX then a + b else U16_MAX
  }

  /** A clock that went back resets the record. */
  function ClockChecked(r: Record, today: u16): Record {
    if today < r.lastUsedDay || today < r.lastUpdatedDay then
      r.(lastUsedDay := today, lastUpdatedDay := today, count := 1)
    else r
  }

  /** One halving per 32 days. */
  function Halved(r: Record, today: u16): Record
    requires r.lastUpdatedDay <= today
    decreases today - r.lastUpdatedDay
  {
    if Minus(today, r.lastUpdatedDay) > HALF_LIFE then
      Halved(r.(count := r.count / 2, lastUpdatedDay := SaturatingAdd16(r.lastUpdatedDay, HALF_LIFE)), today)
    else r
  }

  function Decayed(r: Record, today: u16): Option<Record> {
    var checked := ClockChecked(r, today);
    if Minus(today, checked.lastUsedDay) >= USE_LIMIT then None
    else
      var halved := Halved(checked, today);
      if halved.count > 0 then Some(halved) else None
  }

  function DecayAll(records: seq<Record>, today: u16): seq<Record> {
    if records == [] then []
    else
      DecayAll(records[..|records| - 1], today)
      + match Decayed(records[|records| - 1], today) case Some(r) => [r] case None => []
  }

  method DecayRecord(record: Record, today: u16) returns (result: Option<Record>)
    ensures result == Decayed(record, today)
  {
    var r := record;
    if today < r.lastUsedDay || today < r.lastUpdatedDay {
      r := r.(lastUsedDay := today);
      r := r.(lastUpdatedDay := today);
      r := r.(count := 1);
    }
    if Minus(today, r.lastUsedDay) >= USE_LIMIT {
      return None;
    }
    ghost var checked := r;
    while Minus(today, r.lastUpdatedDay) > HALF_LIFE
      invariant r.lastUpdatedDay <= today && Halved(r, today) == Halved(checked, today)
      decreases today - r.lastUpdatedDay
    {
      // The date never saturates here: it stays behind today.
      assert r.lastUpdatedDay + HALF_LIFE < today;
      r := r.(count := r.count / 2, lastUpdatedDay := SaturatingAdd16(r.lastUpdatedDay, HALF_LIFE));
    }
    result := if r.count > 0 then Some(r) else None;
  }

  method Decay(records: seq<Record>, today: u16) returns (kept: seq<Record>)
    ensures kept == DecayAll(records, today)
  {
    hide Decayed;
    kept := [];
    for i := 0 to |records|
      invariant kept == DecayAll(records[..i], today)
    {
      assert records[..i + 1][..i] == records[..i];
      var r := DecayRecord(records[i], today);
      match r {
        case Some(record) => kept := kept + [record];
        case None =>
      }
    }
    assert records[..|records|] == records;
  }

  // ----- settled records -----

  /** Nothing about the record is overdue. */
  predicate Settled(r: Record, today: u16) {
    && r.lastUsedDay <= today && r.lastUpdatedDay <= today && r.count > 0
    && today - r.lastUsedDay < USE_LIMIT && today - r.lastUpdatedDay <= HALF_LIFE
  }

  lemma {:induction false} HalvedIsRecent(r: Record, today: u16)
    requires r.lastUpdatedDay <= today
    ensures var h := Halved(r, today);
            && h.lastUpdatedDay <= today && today - h.lastUpdatedDay <= HALF_LIFE
            && h.entry == r.entry && h.lastUsedDay == r.lastUsedDay && h.count <= r.count
    decreases today - r.lastUpdatedDay
  {
    if Minus(today, r.lastUpdatedDay) > HALF_LIFE {
      HalvedIsRecent(r.(count := r.count / 2, lastUpdatedDay := SaturatingAdd16(r.lastUpdatedDay, HALF_LIFE)), today);
    }
  }

  /** A record that survives is settled and keeps its entry; a settled record stays as it is. */
  lemma {:induction false} DecaySettles(r: Record, today: u16)
    ensures Decayed(r, today).Some? ==> Settled(Decayed(r, today).value, today) && Decayed(r, today).value.entry == r.entry
    ensures Settled(r, today) <==> Decayed(r, today) == Some(r)
  {
    HalvedIsRecent(ClockChecked(r, today), today);
  }

  ghost predicate AllSettled(records: seq<Record>, today: u16) {
    forall i :: 0 <= i < |records| ==> Settled(records[i], today)
  }

  lemma {:induction false} DecayAllSettles(records: seq<Record>, today: u16)
    ensures AllSettled(DecayAll(records, today), today)
    ensures AllSettled(records, today) ==> DecayAll(records, today) == records
  {
    hide Decayed, Settled;
    if records != [] {
      var init, last := records[..|records| - 1], records[|records| - 1];
      DecayAllSettles(init, today);
      DecaySettles(last, today);
      assert records == init + [last];
    }
  }

  // ----- decay is a law of time -----

  lemma {:induction false} HalvingGoesOn(r: Record, first: u16, later: u16)
    requires r.lastUpdatedDay <= first <= later
    ensures Halved(r, first).lastUpdatedDay <= later
    ensures Halved(Halved(r, first), later) == Halved(r, later)
    decreases first - r.lastUpdatedDay
  {
    HalvedIsRecent(r, first);
    if Minus(first, r.lastUpdatedDay) > HALF_LIFE {
      HalvingGoesOn(r.(count := r.count / 2, lastUpdatedDay := SaturatingAdd16(r.lastUpdatedDay, HALF_LIFE)), first, later);
    }
  }

  lemma {:induction false} NothingStaysNothing(r: Record, today: u16)
    requires r.lastUpdatedDay <= today && r.count == 0
    ensures Halved(r, today).count == 0
  {
    HalvedIsRecent(r, today);
  }

  /** Ageing on the way does not matter: what is gone earlier would be gone later. */
  lemma {:induction false} DecayGoesOn(r: Record, first: u16, later: u16)
    requires r.lastUsedDay <= first && r.lastUpdatedDay <= first && first <= later
    ensures Decayed(r, later) == match Decayed(r, first) case Some(next) => Decayed(next, later) case None => None
  {
    hide Halved;
    HalvedIsRecent(r, first);
    HalvingGoesOn(r, first, later);
    if Halved(r, first).count == 0 {
      NothingStaysNothing(Halved(r, first), later);
    }
  }

  ghost predicate NotAfter(records: seq<Record>, day: u16) {
    forall i :: 0 <= i < |records| ==> records[i].lastUsedDay <= day && records[i].lastUpdatedDay <= day
  }

  /** Decaying on two days is decaying once, on the later one. */
  lemma {:induction false} DecayTwiceIsOnce(records: seq<Record>, first: u16, later: u16)
    requires NotAfter(records, first) && first <= later
    ensures DecayAll(DecayAll(records, first), later) == DecayAll(records, later)
  {
    hide Decayed;
    if records != [] {
      var init, last := records[..|records| - 1], records[|records| - 1];
      DecayTwiceIsOnce(init, first, later);
      DecayGoesOn(last, first, later);
      match Decayed(last, first)
      case None => assert DecayAll(records, first) == DecayAll(init, first);
      case Some(next) => assert DecayAll(records, first)[..|DecayAll(records, first)| - 1] == DecayAll(init, first);
    }
  }

  ghost predicate Ascending(days: seq<u16>) {
    forall i, j :: 0 <= i < j < |days| ==> days[i] <= days[j]
  }

  /** The records after being looked at on each of these days. */
  function DecayAlong(records: seq<Record>, days: seq<u16>): seq<Record> {
    if days == [] then records else DecayAll(DecayAlong(records, days[..|days| - 1]), days[|days| - 1])
  }

  /** The state on a day does not depend on when and how often the memory was looked at before. */
  lemma {:induction false} DecayIsALawOfTime(records: seq<Record>, days: seq<u16>)
    requires days != [] && Ascending(days) && NotAfter(records, days[0])
    ensures DecayAlong(records, days) == DecayAll(records, days[|days| - 1])
  {
    hide DecayAll;
    var init := days[..|days| - 1];
    if init != [] {
      DecayIsALawOfTime(records, init);
      DecayTwiceIsOnce(records, init[|init| - 1], days[|days| - 1]);
    }
  }

  // ----- when the clock goes back -----

  /** How often a count is halved at an age. */
  function Halvings(age: nat): nat {
    if age <= HALF_LIFE then 0 else (age - 1) / HALF_LIFE
  }

  lemma {:induction false} HalvedAway(r: Record, today: u16)
    requires r.lastUpdatedDay <= today
    ensures Halved(r, today).count == 0 <==> (r.count as nat) < Pow2(Halvings(today - r.lastUpdatedDay))
    decreases today - r.lastUpdatedDay
  {
    var age := today - r.lastUpdatedDay;
    if age > HALF_LIFE {
      HalvedAway(r.(count := r.count / 2, lastUpdatedDay := SaturatingAdd16(r.lastUpdatedDay, HALF_LIFE)), today);
      assert Halvings(age) == Halvings(age - HALF_LIFE) + 1;
    }
  }

  /** A record is dropped exactly if the clock did not go back and it was not used for too long
      or was halved once too often. */
  predicate Expired(r: Record, today: u16) {
    && r.lastUsedDay <= today && r.lastUpdatedDay <= today
    && (today - r.lastUsedDay >= USE_LIMIT || (r.count as nat) < Pow2(Halvings(today - r.lastUpdatedDay)))
  }

  lemma {:induction false} DroppedExactly(r: Record, today: u16)
    ensures Decayed(r, today).None? <==> Expired(r, today)
  {
    hide Halved, Halvings;
    HalvedAway(ClockChecked(r, today), today);
    NoHalvings();
  }

  lemma {:induction false} NoHalvings()
    ensures Halvings(0) == 0 && Pow2(0) == 1
  {
  }

  /** Ageing on the way matters unless the clock does not go back on the first day, nothing
      happens between the days, or the record is gone both ways: one that starts over with
      count one is halved away after 32 days. */
  predicate SkipsNothing(r: Record, first: u16, later: u16)
    requires first <= later
  {
    || (r.lastUsedDay <= first && r.lastUpdatedDay <= first)
    || first == later
    || (later - first > HALF_LIFE && Expired(r, later))
  }

  function DecayedTwice(r: Record, first: u16, later: u16): Option<Record> {
    match Decayed(r, first)
    case Some(next) => Decayed(next, later)
    case None => None
  }

  /** Ageing on two days is ageing on the later one if and only if nothing is skipped. */
  lemma {:induction false} DecayGoesOnExactly(r: Record, first: u16, later: u16)
    requires first <= later
    ensures DecayedTwice(r, first, later) == Decayed(r, later) <==> SkipsNothing(r, first, later)
  {
    hide Halved, Halvings, Decayed;
    DroppedExactly(r, later);
    if r.lastUsedDay <= first && r.lastUpdatedDay <= first {
      DecayGoesOn(r, first, later);
    } else {
      StartsOver(r, first);
      DecaySettles(Decayed(r, first).value, later);
      if first == later {
        DecaySettles(r, later);
      } else if later - first > HALF_LIFE {
        DroppedExactly(Decayed(r, first).value, later);
        HalvedOnce(later - first);
      } else {
        KeepsLaterDays(r, first, later);
      }
    }
  }

  /** With the clock set back a record forgets its count and its days. */
  lemma {:induction false} StartsOver(r: Record, today: u16)
    requires today < r.lastUsedDay || today < r.lastUpdatedDay
    ensures Decayed(r, today) == Some(Record(r.entry, today, today, 1))
  {
    HalvedIsRecent(ClockChecked(r, today), today);
  }

  lemma {:induction false} HalvedOnce(age: nat)
    requires age > HALF_LIFE
    ensures Pow2(Halvings(age)) > 1
  {
    assert Halvings(age) > 0;
  }

  /** A later day never gives a record the day it would start over on. */
  lemma {:induction false} KeepsLaterDays(r: Record, first: u16, later: u16)
    requires first < later && (first < r.lastUsedDay || first < r.lastUpdatedDay)
    ensures Decayed(r, later) != Some(Record(r.entry, first, first, 1))
  {
    UpdatesForward(ClockChecked(r, later), later);
    HalvedIsRecent(ClockChecked(r, later), later);
  }

  lemma {:induction false} UpdatesForward(r: Record, today: u16)
    requires r.lastUpdatedDay <= today
    ensures r.lastUpdatedDay <= Halved(r, today).lastUpdatedDay
    decreases today - r.lastUpdatedDay
  {
    if Minus(today, r.lastUpdatedDay) > HALF_LIFE {
      UpdatesForward(r.(count := r.count / 2, lastUpdatedDay := SaturatingAdd16(r.lastUpdatedDay, HALF_LIFE)), today);
    }
  }

  ghost predicate SkipNothing(records: seq<Record>, first: u16, later: u16)
    requires first <= later
  {
    forall i :: 0 <= i < |records| ==> SkipsNothing(records[i], first, later)
  }

  /** The same for a whole memory: the state is that of ageing once if and only if no record
      skips anything. */
  lemma {:induction false} DecayTwiceExactly(records: seq<Record>, first: u16, later: u16)
    requires first <= later
    ensures DecayAll(DecayAll(records, first), later) == DecayAll(records, later) <==> SkipNothing(records, first, later)
  {
    hide Decayed, DecayAll, SkipsNothing, DecayedTwice;
    if records == [] {
      NothingAges(first);
      NothingAges(later);
    } else {
      var init, last := records[..|records| - 1], records[|records| - 1];
      assert records == init + [last];
      DecayTwiceExactly(init, first, later);
      DecayGoesOnExactly(last, first, later);
      AgedLast(init, last, first, later);
      TwiceIsLonger(init, first, later);
      TwiceIsLonger([last], first, later);
      AgedLast([], last, first, later);
      assert [] + [last] == [last];
      NothingAges(first);
      NothingAges(later);
      var twice, once := DecayAll(DecayAll(init, first), later), DecayAll(init, later);
      SameParts(twice, AsList(DecayedTwice(last, first, later)), once, AsList(Decayed(last, later)));
    }
  }

  function AsList(r: Option<Record>): seq<Record> {
    match r case Some(record) => [record] case None => []
  }

  lemma {:induction false} NothingAges(day: u16)
    ensures DecayAll([], day) == []
  {
  }

  lemma {:induction false} DecayAllSnoc(init: seq<Record>, last: Record, day: u16)
    ensures DecayAll(init + [last], day) == DecayAll(init, day) + AsList(Decayed(last, day))
  {
    hide Decayed;
    assert (init + [last])[..|init|] == init;
  }

  lemma {:induction false} AgedLast(init: seq<Record>, last: Record, first: u16, later: u16)
    ensures DecayAll(init + [last], later) == DecayAll(init, later) + AsList(Decayed(last, later))
    ensures DecayAll(DecayAll(init + [last], first), later)
            == DecayAll(DecayAll(init, first), later) + AsList(DecayedTwice(last, first, later))
  {
    hide Decayed, DecayAll;
    DecayAllSnoc(init, last, first);
    DecayAllSnoc(init, last, later);
    match Decayed(last, first)
    case Some(next) => DecayAllSnoc(DecayAll(init, first), next, later);
    case None => assert DecayAll(init, first) + [] == DecayAll(init, first);
  }

  /** Up to 32 days later ageing twice keeps at least as many records, and after that at most. */
  lemma {:induction false} TwiceIsLonger(records: seq<Record>, first: u16, later: u16)
    requires first <= later
    ensures later - first <= HALF_LIFE ==> |DecayAll(DecayAll(records, first), later)| >= |DecayAll(records, later)|
    ensures later - first > HALF_LIFE ==> |DecayAll(DecayAll(records, first), later)| <= |DecayAll(records, later)|
  {
    hide Decayed, DecayAll;
    if records == [] {
      NothingAges(first);
      NothingAges(later);
    } else {
      var init, last := records[..|records| - 1], records[|records| - 1];
      assert records == init + [last];
      TwiceIsLonger(init, first, later);
      AgedLast(init, last, first, later);
      if last.lastUsedDay <= first && last.lastUpdatedDay <= first {
        DecayGoesOn(last, first, later);
      } else {
        StartsOver(last, first);
        DroppedExactly(Decayed(last, first).value, later);
        if later - first > HALF_LIFE {
          HalvedOnce(later - first);
        } else {
          NoHalvings();
        }
      }
    }
  }

  lemma {:induction false} SameParts(a: seq<Record>, x: seq<Record>, b: seq<Record>, y: seq<Record>)
    requires (|a| >= |b| && |x| >= |y|) || (|a| <= |b| && |x| <= |y|)
    ensures a + x == b + y <==> a == b && x == y
  {
    if a + x == b + y {
      assert |a| == |b| && (a + x)[..|a|] == a && (b + y)[..|b|] == b;
      assert (a + x)[|a|..] == x && (b + y)[|b|..] == y;
    }
  }

  /** With a clock that went back in between, it does: the record forgets its count. */
  lemma {:induction false} SettingBackForgets(r: Record, earlier: u16, today: u16)
    requires Settled(r, today) && earlier < r.lastUsedDay && earlier < r.lastUpdatedDay && r.count > 1
    ensures Decayed(r, earlier) == Some(Record(r.entry, earlier, earlier, 1))
    ensures Decayed(r, today) != match Decayed(r, earlier) case Some(next) => Decayed(next, today) case None => None
  {
    var reset := Record(r.entry, earlier, earlier, 1);
    HalvedIsRecent(reset, today);
    HalvedIsRecent(reset, earlier);
  }
}
