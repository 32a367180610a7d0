/** The bounded, expiring table of discovered services. */
module Cache {
  import opened Wrappers
  import opened Text
  import opened Fields

  const CACHE_CAP := 64
  const CACHE_LOC := 256
  const CACHE_USN := 128

  datatype CacheEntry = CacheEntry(location: Bytes, usn: Bytes, expiresAt: Nanos)

  type Entries = map<Bytes, CacheEntry>

  // ---------- the table as a value ----------

  predicate Accepts(m: Entries, usn: Bytes, location: Bytes) {
    |usn| <= CACHE_USN && |location| <= CACHE_LOC && (usn in m || |m| < CACHE_CAP)
  }

  function InsertEntry(m: Entries, usn: Bytes, location: Bytes, maxAge: Nanos, now: Nanos): Entries {
    if Accepts(m, usn, location) then m[usn := CacheEntry(location, usn, now + maxAge)] else m
  }

  function RemoveEntry(m: Entries, usn: Bytes): Entries {
    m - {usn}
  }

  function DueKeys(m: Entries, now: Nanos): set<Bytes> {
    set k | k in m && m[k].expiresAt <= now
  }

  function ExpireEntries(m: Entries, now: Nanos): Entries {
    m - DueKeys(m, now)
  }

  ghost function NextExpiry(m: Entries): (r: Option<Nanos>)
    ensures r.None? <==> m == map[]
    ensures r.Some? ==> forall k <- m :: r.value <= m[k].expiresAt
    ensures r.Some? ==> exists k :: k in m && m[k].expiresAt == r.value
    decreases |m|
  {
    if m == map[] then None
    else
      var k :| k in m;
      var rest := m - {k};
      assert k !in rest.Keys && m.Keys == rest.Keys + {k};
      assert forall j <- rest :: m[j] == rest[j];
      var r := NextExpiry(rest);
      if r.None? || m[k].expiresAt <= r.value then Some(m[k].expiresAt) else r
  }

  // Every key, once.
  ghost predicate Enumerates(list: seq<Bytes>, keys: set<Bytes>) {
    && (forall k :: k in list <==> k in keys)
    && (forall i, j | 0 <= i < j < |list| :: list[i] != list[j])
  }

  lemma Enumerated(list: seq<Bytes>, keys: set<Bytes>, k: Bytes)
    requires Enumerates(list, keys) && k !in keys
    ensures Enumerates(list + [k], keys + {k})
  {
    forall x
      ensures x in list + [k] <==> x in keys + {k}
    {
    }
  }

  lemma StartCollecting(m: Entries, now: Nanos)
    ensures Enumerates([], DueKeys(m, now) - m.Keys)
  {
  }

  lemma Peel(m: Entries, now: Nanos, left: set<Bytes>, k: Bytes)
    requires left <= m.Keys && k in left
    ensures left - {k} + {k} == left
    ensures DueKeys(m, now) - (left - {k}) == DueKeys(m, now) - left + if m[k].expiresAt <= now then {k} else {}
  {
  }

  function First(list: seq<Bytes>, n: nat): set<Bytes>
    requires n <= |list|
  {
    set k | k in list[..n]
  }

  lemma FirstOfNone(m: Entries, list: seq<Bytes>)
    ensures m - First(list, 0) == m
  {
  }

  lemma FirstOfAll(list: seq<Bytes>, keys: set<Bytes>)
    requires Enumerates(list, keys)
    ensures First(list, |list|) == keys
  {
    assert list[..|list|] == list;
  }

  lemma OneMore(m: Entries, list: seq<Bytes>, n: nat)
    requires n < |list|
    ensures m - First(list, n) - {list[n]} == m - First(list, n + 1)
  {
    assert list[..n + 1] == list[..n] + [list[n]];
  }

  ghost predicate TableOk(m: Entries) {
    |m| <= CACHE_CAP && forall k <- m :: |k| <= CACHE_USN && |m[k].location| <= CACHE_LOC && m[k].usn == k
  }

  lemma InsertKeepsTable(m: Entries, usn: Bytes, location: Bytes, maxAge: Nanos, now: Nanos)
    requires TableOk(m)
    ensures TableOk(InsertEntry(m, usn, location, maxAge, now))
  {
    var r := InsertEntry(m, usn, location, maxAge, now);
    assert r.Keys == m.Keys || r.Keys == m.Keys + {usn};
  }

  lemma Fewer(m: Entries, gone: set<Bytes>)
    ensures |m - gone| <= |m|
  {
    var r := m - gone;
    assert m.Keys == r.Keys + (m.Keys * gone);
  }

  lemma RemoveKeepsTable(m: Entries, gone: set<Bytes>)
    requires TableOk(m)
    ensures TableOk(m - gone)
  {
    Fewer(m, gone);
  }

  // ---------- the table as an object ----------

  class ServiceCache {
    var entries: Entries

    ghost predicate Valid()
      reads this
    {
      TableOk(entries)
    }

    constructor ()
      ensures Valid() && entries == map[]
    {
      entries := map[];
    }

    /** Inserts or refreshes an entry; a table that is full takes no new key. */
    method Insert(usn: Bytes, location: Bytes, maxAge: Nanos, now: Nanos) returns (ok: bool)
      requires Valid()
      modifies this
      ensures Valid()
      ensures ok == Accepts(old(entries), usn, location)
      ensures entries == InsertEntry(old(entries), usn, location, maxAge, now)
    {
      InsertKeepsTable(entries, usn, location, maxAge, now);
      if |usn| > CACHE_USN {
        return false;
      }
      if |location| > CACHE_LOC {
        return false;
      }
      var expiresAt := now + maxAge;
      var entry := CacheEntry(location, usn, expiresAt);
      if usn !in entries && |entries| == CACHE_CAP {
        return false;
      }
      entries := entries[usn := entry];
      ok := true;
    }

    method Remove(usn: Bytes) returns (ok: bool)
      requires Valid()
      modifies this
      ensures Valid()
      ensures ok == (usn in old(entries))
      ensures entries == RemoveEntry(old(entries), usn)
    {
      RemoveKeepsTable(entries, {usn});
      assert usn !in entries ==> entries - {usn} == entries;
      if |usn| <= CACHE_USN {
        ok := usn in entries;
        entries := entries - {usn};
      } else {
        ok := false;
      }
    }

    method Get(usn: Bytes) returns (e: Option<CacheEntry>)
      requires Valid()
      ensures e == if usn in entries then Some(entries[usn]) else None
    {
      if |usn| <= CACHE_USN && usn in entries {
        e := Some(entries[usn]);
      } else {
        e := None;
      }
    }

    // The keys to remove, collected in a buffer with room for all of them.
    method CollectDue(now: Nanos) returns (toRemove: seq<Bytes>)
      requires Valid()
      ensures Enumerates(toRemove, DueKeys(entries, now))
    {
      hide DueKeys, Enumerates;
      var m := entries;
      toRemove := [];
      var left := m.Keys;
      StartCollecting(m, now);
      while left != {}
        invariant left <= m.Keys && |toRemove| + |left| <= |m|
        invariant Enumerates(toRemove, DueKeys(m, now) - left)
        decreases |left|
      {
        var k :| k in left;
        Peel(m, now, left, k);
        left := left - {k};
        if m[k].expiresAt <= now && |toRemove| < CACHE_CAP {
          Enumerated(toRemove, DueKeys(m, now) - (left + {k}), k);
          toRemove := toRemove + [k];
        }
      }
      assert DueKeys(m, now) - {} == DueKeys(m, now);
    }

    /** Removes every entry that is due and lists its key once, in the order in which the callback is called. */
    method Expire(now: Nanos) returns (expired: seq<Bytes>)
      requires Valid()
      modifies this
      ensures Valid()
      ensures entries == ExpireEntries(old(entries), now)
      ensures Enumerates(expired, DueKeys(old(entries), now))
    {
      hide DueKeys, TableOk, First;
      expired := CollectDue(now);
      RemoveKeepsTable(entries, DueKeys(entries, now));
      var i := 0;
      FirstOfNone(entries, expired);
      while i < |expired|
        invariant i <= |expired|
        invariant entries == old(entries) - First(expired, i)
      {
        OneMore(old(entries), expired, i);
        entries := entries - {expired[i]};
        i := i + 1;
      }
      assert First(expired, i) == DueKeys(old(entries), now) by {
        FirstOfAll(expired, DueKeys(old(entries), now));
      }
    }

    method NextExpiryTime() returns (r: Option<Nanos>)
      ensures r == NextExpiry(entries)
    {
      hide NextExpiry;
      var entries := entries;
      r := None;
      var left := entries.Keys;
      while left != {}
        invariant left <= entries.Keys
        invariant r.None? <==> left == entries.Keys
        invariant r.Some? ==> forall k <- entries.Keys - left :: r.value <= entries[k].expiresAt
        invariant r.Some? ==> exists k :: k in entries.Keys - left && entries[k].expiresAt == r.value
        decreases |left|
      {
        var k :| k in left;
        left := left - {k};
        if r.None? || entries[k].expiresAt < r.value {
          r := Some(entries[k].expiresAt);
        }
        assert k in entries.Keys - left;
      }
    }
  }
}
