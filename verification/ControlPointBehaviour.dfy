/** What a control point makes of each kind of datagram, field by field, and when its timers fire. */
module ControlPointBehaviour {
  import opened Wrappers
  import opened Text
  import opened Target
  import opened Fields
  import opened Timers
  import opened Cache
  import opened ControlPointSpec
  import M = Messages
  import MessageRoundTrip

  // The table after news of a service, with room for 64 of them and a location of 256 octets.
  function Filed(m: Entries, key: Bytes, location: Bytes, expiresAt: Nanos): Entries {
    if |location| <= 256 && (key in m || |m| < 64) then m[key := CacheEntry(location, key, expiresAt)] else m
  }

  // The expiry timer after news at `now`: set for the first entry to expire, unless that is past.
  ghost predicate Rearmed(s: CpState, r: CpState, now: Nanos) {
    && Deadline(r.timers, SearchRetransmit) == Deadline(s.timers, SearchRetransmit)
    && ((exists k :: k in r.cache && r.cache[k].expiresAt <= now) ==>
          Deadline(r.timers, CacheExpiry) == Deadline(s.timers, CacheExpiry))
    && (r.cache != map[] && (forall k <- r.cache :: r.cache[k].expiresAt > now) ==>
          && Deadline(r.timers, CacheExpiry).Some?
          && var at := Deadline(r.timers, CacheExpiry).value;
             && (forall k <- r.cache :: at <= r.cache[k].expiresAt)
             && exists k :: k in r.cache && r.cache[k].expiresAt == at)
  }

  lemma AnnounceIsFiled(s: CpState, now: Nanos, key: Bytes, location: Bytes, maxAge: Nanos)
    requires CpInv(s) && |key| <= 128
    ensures var r := Hear(s, now, Announce(key, location, maxAge));
            && r == s.(cache := Filed(s.cache, key, location, now + maxAge), timers := r.timers)
            && Rearmed(s, r, now)
  {
    hide Deadline, NextExpiry, CpTimersOk, TableOk, SetTimer, Reschedule;
    var c := s.(cache := InsertEntry(s.cache, key, location, maxAge, now));
    InsertKeepsTable(s.cache, key, location, maxAge, now);
    RescheduleKeeps(c, now);
  }

  /**
   * A well-formed response whose USN fits is filed under that USN, with its location, until its age has
   * passed; no other entry changes, and it is reported if its location fits.
   */
  lemma ResponseIsFiled(s: CpState, now: Nanos, r: M.Response)
    requires CpInv(s) && M.WellFormedResponse(r) && |UsnText(r.usn)| <= 128
    ensures var after := HandleDatagram(s, now, M.ResponseText(r));
            && after == s.(cache := Filed(s.cache, UsnText(r.usn), r.location, now + r.maxAge), timers := after.timers)
            && Rearmed(s, after, now)
    ensures EventOf(M.ResponseText(r)) ==
      if |r.location| <= 256 then Some(SearchHit(UsnText(r.usn), r.location, r.maxAge)) else None
  {
    hide M.ParseDatagram, M.ResponseText, M.WellFormedResponse, CpInv, KeyOf, UsnText, Hear, Filed, Rearmed;
    MessageRoundTrip.ResponseParsesBack(r);
    KeyIsText(r.usn);
    AnnounceIsFiled(s, now, UsnText(r.usn), r.location, r.maxAge);
  }

  /** So is an alive or update notification. */
  lemma NotifyIsFiled(s: CpState, now: Nanos, n: M.Notify)
    requires CpInv(s) && M.WellFormedNotify(n) && n.nts != ByeBye && |UsnText(n.usn)| <= 128
    ensures var after := HandleDatagram(s, now, M.NotifyText(n));
            && after == s.(cache := Filed(s.cache, UsnText(n.usn), n.location.value, now + n.maxAge.value),
                           timers := after.timers)
            && Rearmed(s, after, now)
    ensures EventOf(M.NotifyText(n)) ==
      if |n.location.value| <= 256 then Some(SearchHit(UsnText(n.usn), n.location.value, n.maxAge.value)) else None
  {
    hide M.ParseDatagram, M.NotifyText, M.UsnOk, M.TargetOk, M.CleanText, M.LocationOk, M.OptClean, CpInv, KeyOf,
         UsnText, Hear, Filed, Rearmed;
    MessageRoundTrip.NotifyParsesBack(n);
    KeyIsText(n.usn);
    AnnounceIsFiled(s, now, UsnText(n.usn), n.location.value, n.maxAge.value);
  }

  /** A byebye removes the entry under its USN and nothing else, and is reported. */
  lemma ByeByeIsRemoved(s: CpState, now: Nanos, n: M.Notify)
    requires M.WellFormedNotify(n) && n.nts == ByeBye && |UsnText(n.usn)| <= 128
    ensures HandleDatagram(s, now, M.NotifyText(n)) == s.(cache := s.cache - {UsnText(n.usn)})
    ensures EventOf(M.NotifyText(n)) == Some(Departed(UsnText(n.usn)))
  {
    hide M.ParseDatagram, M.NotifyText, M.UsnOk, M.TargetOk, M.CleanText, M.LocationOk, M.OptClean, KeyOf, UsnText;
    MessageRoundTrip.NotifyParsesBack(n);
    KeyIsText(n.usn);
  }

  /** Searches of others and everything unreadable are ignored. */
  lemma OthersAreIgnored(s: CpState, now: Nanos, payload: Bytes)
    requires M.ParseDatagram(payload).Ok? ==> M.ParseDatagram(payload).value.Search?
    ensures HandleDatagram(s, now, payload) == s && EventOf(payload) == None
  {
    hide M.ParseDatagram;
  }

  /** A search starts counting anew and waits half its time, kept within 1 to 5 s, and one second more. */
  lemma SearchTimes(s: CpState, mx: nat, now: Nanos)
    requires CpInv(s)
    ensures var r := Search(s, mx, now);
            var seconds := if mx < 1 then 1 else if mx > 5 then 5 else mx;
            && r == s.(retransmits := 0, activeMx := seconds, timers := r.timers)
            && Deadline(r.timers, SearchRetransmit) == Some(now + (seconds / 2 + 1) * 1_000_000_000)
            && Deadline(r.timers, CacheExpiry) == Deadline(s.timers, CacheExpiry)
  {
    hide SetTimer, Deadline, CpTimersOk, TableOk;
    SetKeepsCp(s.timers, Timer(now + (ClampMx(mx) / 2 + 1) * SECOND, SearchRetransmit));
  }

  // When the retransmission timer next fires.
  lemma FireTimes(s: CpState, now: Nanos, k: TimerKind)
    requires CpInv(s) && k in CP_KINDS
    ensures k == SearchRetransmit ==>
      Deadline(Fire(s, now, k).timers, SearchRetransmit) ==
        if s.retransmits == 0 then Some(now + s.activeMx * 1_000_000_000) else Deadline(s.timers, SearchRetransmit)
    ensures k == CacheExpiry ==>
      Deadline(Fire(s, now, k).timers, SearchRetransmit) == Deadline(s.timers, SearchRetransmit)
    ensures Fire(s, now, k).activeMx == s.activeMx
    ensures k == CacheExpiry ==> Fire(s, now, k).retransmits == s.retransmits
  {
    hide SetTimer, Deadline, NextExpiry, CpTimersOk, TableOk, ExpireEntries, Reschedule;
    if k == SearchRetransmit {
      SetKeepsCp(s.timers, Timer(now + s.activeMx * SECOND, SearchRetransmit));
    } else {
      var e := s.(cache := ExpireEntries(s.cache, now));
      ExpireKeeps(s.cache, now);
      RescheduleKeeps(e, now);
    }
  }

  /** The first retransmission arms the second, after the whole time of the search; the second is the last. */
  lemma RetransmitTimes(s: CpState, now: Nanos)
    requires CpInv(s)
    ensures var r := HandleTimeout(s, now);
            && r.activeMx == s.activeMx
            && Deadline(r.timers, SearchRetransmit) ==
                 if !DueAt(s, SearchRetransmit, now) then Deadline(s.timers, SearchRetransmit)
                 else if s.retransmits == 0 then Some(now + s.activeMx * 1_000_000_000)
                 else None
  {
    hide ClearDue, DueKinds, Deadline, CpTimersOk, TableOk, NextExpiry, Fire, ExpireEntries;
    DrainCp(s, now);
    var c, kinds := s.(timers := ClearDue(s.timers, now)), DueKinds(s.timers, now);
    if kinds == [] {
    } else if |kinds| == 1 {
      assert forall k :: k in kinds <==> k == kinds[0];
      FireTimes(c, now, kinds[0]);
      assert kinds[1..] == [];
      assert HandleTimeout(s, now) == FireAll(Fire(c, now, kinds[0]), now, []);
    } else {
      assert kinds[0] != kinds[1];
      AtMostTwo(kinds);
      assert forall k :: k in kinds <==> k == kinds[0] || k == kinds[1];
      FireKeeps(c, now, kinds[0]);
      FireTimes(c, now, kinds[0]);
      FireTimes(Fire(c, now, kinds[0]), now, kinds[1]);
      FireTwo(c, now, kinds);
    }
  }
}
