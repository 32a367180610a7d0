/** Whole runs of a control point: expiry is never missed, and the table mirrors the announcements heard. */
module ControlPointRuns {
  import opened Wrappers
  import opened Text
  import opened Fields
  import opened Timers
  import opened Cache
  import opened ControlPointSpec
  import M = Messages
  import MessageRoundTrip

  datatype Input =
    | DoSearch(mx: nat, now: Nanos)
    | DoDatagram(now: Nanos, payload: Bytes)
    | DoTimeout(now: Nanos)

  ghost function Step(s: CpState, i: Input): CpState {
    match i
    case DoSearch(mx, now) => Search(s, mx, now)
    case DoDatagram(now, payload) => HandleDatagram(s, now, payload)
    case DoTimeout(now) => HandleTimeout(s, now)
  }

  ghost function Run(s: CpState, inputs: seq<Input>): CpState
    decreases |inputs|
  {
    var n := |inputs|;
    if n == 0 then s else Step(Run(s, inputs[..n - 1]), inputs[n - 1])
  }

  // ---------- no expiry is missed ----------

  // While anything is cached, the expiry timer is set, no later than the first entry to expire.
  ghost predicate Guarded(s: CpState) {
    s.cache != map[] ==>
      && Deadline(s.timers, CacheExpiry).Some?
      && forall k <- s.cache :: Deadline(s.timers, CacheExpiry).value <= s.cache[k].expiresAt
  }

  predicate ZeroAge(s: CpState, t: Tidings) {
    t.Announce? && Accepts(s.cache, t.key, t.location) && t.maxAge == 0
  }

  /**
   * Hearing a datagram keeps the cache guarded exactly when it does not file an entry that is already
   * stale, or the expiry timer is due anyway.
   */
  lemma HearKeepsGuardExactly(s: CpState, now: Nanos, t: Tidings)
    requires CpInv(s) && Guarded(s)
    ensures Guarded(Hear(s, now, t)) <==> !ZeroAge(s, t) || DueAt(s, CacheExpiry, now)
  {
    hide Deadline, NextExpiry, CpTimersOk, TableOk, SetTimer, Reschedule;
    match t
    case Announce(key, location, maxAge) =>
      var c := s.(cache := InsertEntry(s.cache, key, location, maxAge, now));
      InsertKeepsTable(s.cache, key, location, maxAge, now);
      RescheduleKeeps(c, now);
      if Accepts(s.cache, key, location) {
        assert c.cache[key].expiresAt == now + maxAge;
        assert forall k <- c.cache :: k != key ==> k in s.cache && c.cache[k] == s.cache[k];
      }
    case Depart(key) =>
      RemovedGuard(s, key);
    case Nothing =>
  }

  lemma RemovedGuard(s: CpState, key: Bytes)
    requires Guarded(s)
    ensures Guarded(s.(cache := RemoveEntry(s.cache, key)))
  {
    hide Deadline;
    assert s.cache == map[] ==> RemoveEntry(s.cache, key) == map[];
  }

  /** On a guarded cache a timeout, however late, removes exactly the entries that have expired. */
  lemma TimeoutExpires(s: CpState, now: Nanos)
    requires CpInv(s) && Guarded(s)
    ensures Guarded(HandleTimeout(s, now)) && CpInv(HandleTimeout(s, now))
    ensures HandleTimeout(s, now).cache == ExpireEntries(s.cache, now)
    ensures forall k <- HandleTimeout(s, now).cache :: HandleTimeout(s, now).cache[k].expiresAt > now
  {
    hide Deadline, NextExpiry, HandleTimeout, CpInv;
    TimeoutIs(s, now);
    if !DueAt(s, CacheExpiry, now) {
      assert ExpireEntries(s.cache, now) == s.cache;
    }
  }

  // Every announcement heard promises to be valid for some time.
  predicate Positive(i: Input) {
    i.DoDatagram? ==> match TidingsOf(i.payload) case Announce(_, _, maxAge) => maxAge > 0 case _ => true
  }

  lemma StepKeepsGuard(s: CpState, i: Input)
    requires CpInv(s) && Guarded(s) && Positive(i)
    ensures CpInv(Step(s, i)) && Guarded(Step(s, i))
  {
    hide Deadline, NextExpiry, Hear, ControlPointSpec.HandleTimeout, Search, TidingsOf, CpInv;
    match i
    case DoSearch(mx, now) => SearchKeeps(s, mx, now);
    case DoDatagram(now, payload) =>
      HearKeepsGuardExactly(s, now, TidingsOf(payload));
      HearKeeps(s, now, TidingsOf(payload));
    case DoTimeout(now) => TimeoutExpires(s, now);
  }

  lemma {:induction false} RunKeepsInv(inputs: seq<Input>)
    ensures CpInv(Run(NewCp(), inputs))
    decreases |inputs|
  {
    hide CpInv, NewCp, Hear, ControlPointSpec.HandleTimeout, Search, TidingsOf;
    NewIsGuarded();
    if inputs != [] {
      var s := Run(NewCp(), inputs[..|inputs| - 1]);
      RunKeepsInv(inputs[..|inputs| - 1]);
      match inputs[|inputs| - 1]
      case DoSearch(mx, now) => SearchKeeps(s, mx, now);
      case DoDatagram(now, payload) => HearKeeps(s, now, TidingsOf(payload));
      case DoTimeout(now) => TimeoutIs(s, now);
    }
  }

  lemma NewIsGuarded()
    ensures CpInv(NewCp()) && Guarded(NewCp())
  {
    assert SlotOf(NewCp().timers, SearchRetransmit) == CP_TIMERS;
  }

  lemma {:induction false} RunKeepsGuard(inputs: seq<Input>)
    requires forall i <- inputs :: Positive(i)
    ensures CpInv(Run(NewCp(), inputs)) && Guarded(Run(NewCp(), inputs))
    decreases |inputs|
  {
    hide Step, CpInv, Guarded, Positive, NewCp;
    NewIsGuarded();
    if inputs != [] {
      RunKeepsGuard(inputs[..|inputs| - 1]);
      StepKeepsGuard(Run(NewCp(), inputs[..|inputs| - 1]), inputs[|inputs| - 1]);
    }
  }

  /**
   * No expiry is missed. Through refreshes, byebyes, refused entries, searches and late wake-ups, a
   * non-empty cache always has its expiry timer at or before its first expiry, the table holds at most
   * 64 entries, and after any timeout nothing in it has expired.
   */
  lemma NoExpiryIsMissed(inputs: seq<Input>, now: Nanos)
    requires forall i <- inputs :: Positive(i)
    ensures Guarded(Run(NewCp(), inputs)) && |Run(NewCp(), inputs).cache| <= CACHE_CAP
    ensures var after := HandleTimeout(Run(NewCp(), inputs), now);
            forall k <- after.cache :: after.cache[k].expiresAt > now
  {
    hide Step, Guarded, Positive, NewCp, HandleTimeout, Deadline, CpTimersOk;
    RunKeepsGuard(inputs);
    TimeoutExpires(Run(NewCp(), inputs), now);
  }

  // A control point with no expiry timer keeps what it has cached until it hears something.
  lemma {:induction false} NothingExpires(s: CpState, inputs: seq<Input>)
    requires CpInv(s) && Deadline(s.timers, CacheExpiry).None? && forall i <- inputs :: !i.DoDatagram?
    ensures Run(s, inputs).cache == s.cache
    ensures CpInv(Run(s, inputs)) && Deadline(Run(s, inputs).timers, CacheExpiry).None?
    decreases |inputs|
  {
    hide CpInv, Deadline, NextExpiry, ControlPointSpec.HandleTimeout, Search;
    if inputs != [] {
      var before := Run(s, inputs[..|inputs| - 1]);
      NothingExpires(s, inputs[..|inputs| - 1]);
      match inputs[|inputs| - 1]
      case DoSearch(mx, now) => SearchKeeps(before, mx, now);
      case DoDatagram(_, _) =>
      case DoTimeout(now) => TimeoutIs(before, now);
    }
  }

  /**
   * With a zero max-age one is missed: filed while no expiry timer is set, such an announcement stays in
   * the cache, expired on arrival, through every wake-up and search until some datagram is heard.
   */
  lemma ZeroAgeLingers(s: CpState, now: Nanos, m: M.Notify, later: seq<Input>)
    requires CpInv(s) && Deadline(s.timers, CacheExpiry).None?
    requires M.WellFormedNotify(m) && m.nts != ByeBye && m.maxAge == Some(0) && |m.location.value| <= CACHE_LOC
    requires KeyOf(m.usn) in s.cache || |s.cache| < CACHE_CAP
    requires forall i <- later :: !i.DoDatagram?
    ensures var r := Run(HandleDatagram(s, now, M.NotifyText(m)), later);
            Has(r.cache, KeyOf(m.usn), CacheEntry(m.location.value, KeyOf(m.usn), now))
  {
    hide CpInv, Deadline, NextExpiry, KeyOf, M.NotifyText, M.ParseDatagram, M.UsnOk, M.TargetOk, M.LocationOk,
         M.CleanText, Run;
    MessageRoundTrip.NotifyParsesBack(m);
    KeyIsText(m.usn);
    var heard := s.(cache := InsertEntry(s.cache, KeyOf(m.usn), m.location.value, 0, now));
    HearKeeps(s, now, TidingsOf(M.NotifyText(m)));
    InsertedInv(s, now, m.location.value, KeyOf(m.usn));
    RescheduleKeeps(heard, now);
    assert heard.cache[KeyOf(m.usn)].expiresAt == now;
    NothingExpires(HandleDatagram(s, now, M.NotifyText(m)), later);
  }

  lemma InsertedInv(s: CpState, now: Nanos, location: Bytes, key: Bytes)
    requires CpInv(s)
    ensures CpInv(s.(cache := InsertEntry(s.cache, key, location, 0, now)))
  {
    hide CpTimersOk, TableOk, InsertEntry;
    InsertKeepsTable(s.cache, key, location, 0, now);
  }

  // ---------- the table and the log of announcements ----------

  // An announcement for `key` that the table accepts.
  ghost predicate Files(before: CpState, i: Input, key: Bytes) {
    i.DoDatagram? &&
    var t := TidingsOf(i.payload);
    t.Announce? && t.key == key && Accepts(before.cache, key, t.location)
  }

  ghost function Filed(i: Input): CacheEntry
    requires i.DoDatagram? && TidingsOf(i.payload).Announce?
  {
    var t := TidingsOf(i.payload);
    CacheEntry(t.location, t.key, i.now + t.maxAge)
  }

  // A byebye, or a wake-up at or after the expiry.
  ghost predicate Silences(i: Input, key: Bytes, e: CacheEntry) {
    match i
    case DoSearch(_, _) => false
    case DoDatagram(_, payload) => TidingsOf(payload) == Depart(key)
    case DoTimeout(now) => e.expiresAt <= now
  }

  // Entry `e` was filed for `key` by input `n` and has stood since.
  ghost predicate StandsSince(inputs: seq<Input>, key: Bytes, e: CacheEntry, n: nat) {
    && n < |inputs|
    && Files(Run(NewCp(), inputs[..n]), inputs[n], key) && e == Filed(inputs[n])
    && forall m: nat | n < m < |inputs| :: Stands(inputs, key, e, m)
  }

  ghost predicate Stands(inputs: seq<Input>, key: Bytes, e: CacheEntry, m: nat)
    requires m < |inputs|
  {
    !Silences(inputs[m], key, e) && !Files(Run(NewCp(), inputs[..m]), inputs[m], key)
  }

  ghost predicate Has(m: Entries, key: Bytes, e: CacheEntry) {
    key in m && m[key] == e
  }

  // One step files the entry, or leaves one that stands.
  lemma StepHas(s: CpState, i: Input, key: Bytes, e: CacheEntry)
    requires CpInv(s) && Guarded(s)
    ensures Has(Step(s, i).cache, key, e) <==>
      if Files(s, i, key) then e == Filed(i) else Has(s.cache, key, e) && !Silences(i, key, e)
  {
    hide Deadline, NextExpiry, ControlPointSpec.HandleTimeout, Search, TidingsOf, CpInv, Guarded;
    match i
    case DoSearch(mx, now) => SearchKeeps(s, mx, now);
    case DoDatagram(now, payload) =>
      match TidingsOf(payload) {
        case Announce(k, location, maxAge) =>
          var c := s.(cache := InsertEntry(s.cache, k, location, maxAge, now));
          assert Reschedule(c, now).cache == c.cache;
        case Depart(k) =>
        case Nothing =>
      }
    case DoTimeout(now) => TimeoutExpires(s, now);
  }

  /**
   * The table mirrors the log. A service is cached with a given location and expiry exactly when some
   * accepted announcement filed it so, at its receipt plus its max-age, and no later byebye, expiry or
   * accepted announcement for the same key came between.
   */
  lemma {:induction false} CacheMirrorsLog(inputs: seq<Input>, key: Bytes, e: CacheEntry)
    requires forall i <- inputs :: Positive(i)
    ensures Has(Run(NewCp(), inputs).cache, key, e) <==> exists n: nat :: StandsSince(inputs, key, e, n)
    decreases |inputs|
  {
    hide Step, CpInv, Guarded, Positive, NewCp, Silences, Files, Filed, StandsSince;
    if inputs == [] {
      assert Run(NewCp(), inputs).cache == map[] by { NewIsEmpty(); }
      assert forall n: nat :: !StandsSince(inputs, key, e, n) by { NothingStands(key, e); }
    } else {
      var last := |inputs| - 1;
      var prior := inputs[..last];
      RunKeepsGuard(prior);
      StepHas(Run(NewCp(), prior), inputs[last], key, e);
      CacheMirrorsLog(prior, key, e);
      forall n: nat | n < last
        ensures StandsSince(inputs, key, e, n) <==>
          StandsSince(prior, key, e, n) && Stands(inputs, key, e, last)
      {
        StandsExtends(inputs, key, e, n);
      }
      LastFiles(inputs, key, e);
      if Has(Run(NewCp(), prior).cache, key, e) && Stands(inputs, key, e, last) {
        var n: nat :| StandsSince(prior, key, e, n);
        StandsWithin(prior, key, e, n);
      }
      if n: nat :| StandsSince(inputs, key, e, n) {
        StandsWithin(inputs, key, e, n);
        assert n < last || n == last;
      }
    }
  }

  lemma NewIsEmpty()
    ensures NewCp().cache == map[]
  {
  }

  lemma NothingStands(key: Bytes, e: CacheEntry)
    ensures forall n: nat :: !StandsSince([], key, e, n)
  {
  }

  lemma StandsWithin(inputs: seq<Input>, key: Bytes, e: CacheEntry, n: nat)
    requires StandsSince(inputs, key, e, n)
    ensures n < |inputs|
  {
  }

  lemma LastFiles(inputs: seq<Input>, key: Bytes, e: CacheEntry)
    requires inputs != []
    ensures var last := |inputs| - 1;
            StandsSince(inputs, key, e, last) <==>
              Files(Run(NewCp(), inputs[..last]), inputs[last], key) && e == Filed(inputs[last])
  {
    hide Files, Filed, Run;
  }

  lemma StandsExtends(inputs: seq<Input>, key: Bytes, e: CacheEntry, n: nat)
    requires n < |inputs| - 1
    ensures var last := |inputs| - 1;
            StandsSince(inputs, key, e, n) <==> StandsSince(inputs[..last], key, e, n) && Stands(inputs, key, e, last)
  {
    hide Run, Files, Filed, Silences;
    var prior := inputs[..|inputs| - 1];
    forall m: nat | m < |prior|
      ensures Stands(prior, key, e, m) <==> Stands(inputs, key, e, m)
      ensures prior[..m] == inputs[..m]
    {
      assert prior[..m] == inputs[..m];
    }
  }
}
