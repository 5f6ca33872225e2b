/** The bounded cache that drops what was used longest ago (`LruCache` in `zenz.rs`). */
module LruCaches {
  import opened Wrappers

  const WRAP: nat := 0x1_0000_0000_0000_0000

  datatype CacheEntry<V> = CacheEntry(value: V, accessIndex: nat)

  function Next(accessIndex: nat): nat {
    (accessIndex + 1) % WRAP
  }

  /** The counter after so many uses. */
  function Stamp(uses: nat): nat {
    uses % WRAP
  }

  lemma {:induction false} NextStamp(uses: nat)
    ensures Next(Stamp(uses)) == Stamp(uses + 1)
  {
  }

  /** `lastUse` says at which use each key was used last; the stamps are these numbers in 64 bits. */
  ghost predicate Stamped<K(!new), V>(entries: map<K, CacheEntry<V>>, lastUse: map<K, nat>, uses: nat) {
    && lastUse.Keys == entries.Keys
    && (forall k :: k in entries ==> lastUse[k] <= uses && entries[k].accessIndex == Stamp(lastUse[k]))
    && (forall a, b :: a in entries && b in entries && a != b ==> lastUse[a] != lastUse[b])
  }

  lemma {:induction false} UsedAgain<K(!new), V>(entries: map<K, CacheEntry<V>>, lastUse: map<K, nat>, uses: nat, key: K, value: V)
    requires Stamped(entries, lastUse, uses)
    ensures Stamped(entries[key := CacheEntry(value, Stamp(uses + 1))], lastUse[key := uses + 1], uses + 1)
  {
    hide Stamp;
  }

  /** The last uses of the keys that are kept, and of the one used now. */
  ghost function UsesWith<K(!new), V>(kept: map<K, CacheEntry<V>>, lastUse: map<K, nat>, key: K, uses: nat): (r: map<K, nat>)
    requires forall k :: k in kept ==> k in lastUse
    ensures key in r && r[key] == uses
    ensures forall k :: k in r && k != key ==> k in lastUse && r[k] == lastUse[k]
  {
    (map k | k in kept :: lastUse[k])[key := uses]
  }

  lemma {:induction false} InsertedStamps<K(!new), V>(entries: map<K, CacheEntry<V>>, lastUse: map<K, nat>, uses: nat,
                                                      kept: map<K, CacheEntry<V>>, key: K, value: V)
    requires Stamped(entries, lastUse, uses) && forall k :: k in kept ==> k in entries && kept[k] == entries[k]
    ensures forall k :: k in kept ==> k in lastUse
    ensures Stamped(kept[key := CacheEntry(value, Stamp(uses + 1))], UsesWith(kept, lastUse, key, uses + 1), uses + 1)
  {
    hide Stamp;
    var fewer := map k | k in kept :: lastUse[k];
    assert Stamped(kept, fewer, uses);
    UsedAgain(kept, fewer, uses, key, value);
  }

  /** In one turn of the counter, a key that is gone was used longest ago. */
  lemma {:induction false} GoneLongest<K(!new), V>(entries: map<K, CacheEntry<V>>, lastUse: map<K, nat>, uses: nat, after: map<K, CacheEntry<V>>)
    requires Stamped(entries, lastUse, uses) && SameRound(lastUse) && OnlyOldestGone(entries, after)
    ensures forall gone, k :: gone in entries && gone !in after && k in entries ==> lastUse[gone] <= lastUse[k]
  {
    forall gone, k | gone in entries && gone !in after && k in entries
      ensures lastUse[gone] <= lastUse[k]
    {
      assert lastUse[gone] / WRAP == lastUse[k] / WRAP;
    }
  }

  lemma {:induction false} NothingGone<K(!new), V>(entries: map<K, CacheEntry<V>>)
    ensures OnlyOldestGone(entries, entries)
  {
  }

  lemma {:induction false} OneKeyMore<K(!new), V>(before: map<K, CacheEntry<V>>, kept: map<K, CacheEntry<V>>, key: K, entry: CacheEntry<V>)
    ensures |kept[key := entry]| == |kept| + if key in kept then 0 else 1
    ensures OnlyOldestGone(before, kept) ==> OnlyOldestGone(before, kept[key := entry])
  {
    var after := kept[key := entry];
    assert after.Keys == kept.Keys + {key};
    assert key in kept ==> after.Keys == kept.Keys;
    assert |after| == |after.Keys| && |kept| == |kept.Keys|;
  }

  class LruCache<K(==, !new), V> {
    const capacity: nat
    var accessIndex: nat
    var entries: map<K, CacheEntry<V>>
    ghost var uses: nat
    ghost var lastUse: map<K, nat>

    ghost predicate Valid()
      reads this
    {
      capacity > 0 && |entries| <= capacity && accessIndex == Stamp(uses) && Stamped(entries, lastUse, uses)
    }

    /** What the cache answers, leaving out how recently it was asked. */
    ghost function Contents(): map<K, V>
      reads this
    {
      map k | k in entries :: entries[k].value
    }

    constructor (capacity: nat)
      ensures Valid() && Contents() == map[]
      ensures this.capacity == if capacity == 0 then 1 else capacity
    {
      this.capacity := if capacity == 0 then 1 else capacity;
      accessIndex := 0;
      entries := map[];
      uses, lastUse := 0, map[];
    }

    /** A hit gives the stored value and makes it the most recent; the contents stay. */
    method Get(key: K) returns (result: Option<V>)
      requires Valid()
      modifies this
      ensures Valid() && Contents() == old(Contents())
      ensures result == if key in old(Contents()) then Some(old(Contents())[key]) else None
      ensures result.Some? ==> accessIndex == Next(old(accessIndex)) && entries[key].accessIndex == accessIndex
      ensures entries.Keys == old(entries).Keys
      ensures forall k :: k in entries && (k != key || result.None?) ==> entries[k] == old(entries)[k]
      ensures if result.Some? then uses == old(uses) + 1 && lastUse == old(lastUse)[key := uses]
              else uses == old(uses) && lastUse == old(lastUse)
    {
      hide Stamped, Stamp, Next;
      if key !in entries {
        return None;
      }
      NextStamp(uses);
      UsedAgain(entries, lastUse, uses, key, entries[key].value);
      var entry := entries[key];
      accessIndex := Next(accessIndex);
      ghost var before := entries;
      entries := entries[key := CacheEntry(entry.value, accessIndex)];
      uses := uses + 1;
      lastUse := lastUse[key := uses];
      assert entries.Keys == before.Keys;
      result := Some(entry.value);
    }

    /** Some key that was used longest ago. */
    method Oldest() returns (oldest: K)
      requires |entries| > 0
      ensures oldest in entries
      ensures forall k :: k in entries ==> entries[oldest].accessIndex <= entries[k].accessIndex
    {
      var rest := entries.Keys;
      assert |rest| == |entries|;
      oldest :| oldest in rest;
      rest := rest - {oldest};
      while rest != {}
        invariant rest <= entries.Keys && oldest in entries
        invariant forall k :: k in entries && k !in rest ==> entries[oldest].accessIndex <= entries[k].accessIndex
        decreases |rest|
      {
        var k :| k in rest;
        rest := rest - {k};
        if entries[k].accessIndex < entries[oldest].accessIndex {
          oldest := k;
        }
      }
    }

    /** Room for one more key: if the cache is full, one that was used longest ago goes. */
    method MakeRoom()
      requires capacity > 0 && |entries| <= capacity
      modifies this`entries
      ensures |entries| < capacity
      ensures forall k :: k in entries ==> k in old(entries) && entries[k] == old(entries)[k]
      ensures |old(entries)| < capacity ==> entries == old(entries)
      ensures OnlyOldestGone(old(entries), entries)
    {
      if |entries| >= capacity {
        ghost var before := entries;
        var oldest := Oldest();
        entries := entries - {oldest};
        assert entries.Keys == before.Keys - {oldest};
        assert |entries| == |entries.Keys| == |before.Keys| - 1;
      }
    }

    /** The new value is stored. Nothing is dropped unless the cache is full of other keys, and
        then only one key that was used longest ago. */
    method Insert(key: K, value: V)
      requires Valid()
      modifies this
      ensures Valid()
      ensures key in Contents() && Contents()[key] == value
      ensures accessIndex == Next(old(accessIndex)) && entries[key].accessIndex == accessIndex
      ensures forall k :: k in entries && k != key ==> k in old(entries) && entries[k] == old(entries)[k]
      ensures key in old(entries) || |old(entries)| < capacity ==> forall k :: k in old(entries) ==> k in entries
      ensures OnlyOldestGone(old(entries), entries)
      ensures uses == old(uses) + 1 && lastUse[key] == uses
      ensures forall k :: k in lastUse && k != key ==> k in old(lastUse) && lastUse[k] == old(lastUse)[k]
      ensures SameRound(old(lastUse)) ==>
                forall gone, k :: gone in old(entries) && gone !in entries && k in old(entries) ==> old(lastUse)[gone] <= old(lastUse)[k]
    {
      hide Stamped, Stamp, Next, SameRound, UsesWith, OnlyOldestGone;
      NextStamp(uses);
      accessIndex := Next(accessIndex);
      ghost var before := entries;
      if key !in entries {
        MakeRoom();
      } else {
        NothingGone(entries);
      }
      ghost var kept := entries;
      InsertedStamps(before, lastUse, uses, kept, key, value);
      entries := entries[key := CacheEntry(value, accessIndex)];
      uses := uses + 1;
      lastUse := UsesWith(kept, lastUse, key, uses);
      OneKeyMore(before, kept, key, entries[key]);
      if SameRound(old(lastUse)) {
        GoneLongest(before, old(lastUse), old(uses), entries);
      }
    }
  }

  /** At most one key is gone, and no key had been unused for longer. */
  ghost predicate OnlyOldestGone<K(!new), V>(before: map<K, CacheEntry<V>>, after: map<K, CacheEntry<V>>) {
    && (forall a, b :: a in before && b in before && a !in after && b !in after ==> a == b)
    && (forall gone, k :: gone in before && gone !in after && k in before ==> before[gone].accessIndex <= before[k].accessIndex)
  }

  /** All last uses lie between two turns of the 64-bit counter. */
  ghost predicate SameRound<K(!new)>(lastUse: map<K, nat>) {
    forall a, b :: a in lastUse && b in lastUse ==> lastUse[a] / WRAP == lastUse[b] / WRAP
  }

  /** What is dropped was used longest ago exactly if the counter has not turned over between the
      last uses of two keys in the cache. */
  lemma {:induction false} DropsLongestUnused<K(!new)>(lastUse: map<K, nat>, gone: K)
    requires gone in lastUse && forall k :: k in lastUse ==> lastUse[gone] % WRAP <= lastUse[k] % WRAP
    requires forall a, b :: a in lastUse && b in lastUse && a != b ==> lastUse[a] != lastUse[b]
    requires forall a, b :: a in lastUse && b in lastUse ==> lastUse[a] < lastUse[b] + WRAP
    ensures (forall k :: k in lastUse ==> lastUse[gone] <= lastUse[k]) <==> SameRound(lastUse)
  {
    if forall k :: k in lastUse ==> lastUse[gone] <= lastUse[k] {
      forall k | k in lastUse
        ensures lastUse[k] / WRAP == lastUse[gone] / WRAP
      {
        SameResidueSide(lastUse[gone], lastUse[k]);
      }
    }
    if SameRound(lastUse) {
      forall k | k in lastUse
        ensures lastUse[gone] <= lastUse[k]
      {
        assert lastUse[k] / WRAP == lastUse[gone] / WRAP;
      }
    }
  }

  lemma {:induction false} SameResidueSide(a: nat, b: nat)
    requires a <= b < a + WRAP && a % WRAP <= b % WRAP
    ensures a / WRAP == b / WRAP
  {
  }
}
