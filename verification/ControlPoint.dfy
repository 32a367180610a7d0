/** The control point state machine as an object; every method is proved to take the step of its specification. */
module ControlPoint {
  import opened Wrappers
  import opened Text
  import opened Target
  import opened Fields
  import opened Messages
  import opened Encode
  import opened Timers
  import opened Cache
  import opened ControlPointSpec
  import DeviceSpec
  import ParserImage
  import Wire

  // The queue of events keeps the oldest eight.
  function Kept(events: seq<CpEvent>): seq<CpEvent> {
    if |events| <= CP_EVENTS then events else events[..CP_EVENTS]
  }

  /** Of more than eight unread events the oldest eight stay. */
  lemma OldestAreKept(events: seq<CpEvent>, more: seq<CpEvent>)
    requires |events| == 8
    ensures Kept(events) == events && Kept(events + more) == events
  {
    Parts(events, more);
    assert events + [] == events;
  }

  function Expiries(keys: seq<Bytes>): seq<CpEvent> {
    seq(|keys|, i requires 0 <= i < |keys| => Expired(keys[i]))
  }

  function SearchMessage(target: Target, mx: nat, agent: Option<Bytes>): MSearch {
    MSearch(DeviceSpec.MULTICAST_HOST, target, mx, agent, None, None, None)
  }

  /** A search is heard as it was asked exactly for the waiting times of 1 to 5 s that listeners accept. */
  lemma SearchIsHeard(target: Target, mx: nat, agent: Option<Bytes>)
    requires TargetOk(target) && OptClean(agent)
    ensures var asked := MSearch("239.255.255.250:1900", target, mx, agent, None, None, None);
            ParseDatagram(MSearchText(SearchMessage(target, mx, agent))) == Ok(Message.Search(asked)) <==> 1 <= mx <= 5
  {
    hide ParseDatagram, MSearchText, TargetOk, CleanText;
    Wire.HostIsClean();
    ParserImage.RoundTripExactly(Message.Search(SearchMessage(target, mx, agent)));
  }

  class ControlPoint {
    const cache: ServiceCache
    const timers: TimerQueue
    var pending: seq<(DeviceSpec.Destination, nat)>
    const scratch: array<char>
    var events: seq<CpEvent>
    var retransmitCount: nat
    var activeMx: nat
    const userAgent: Option<Bytes>

    ghost predicate Valid()
      reads this, cache, timers.entries
    {
      && scratch.Length == CP_SCRATCH && |pending| <= CP_PENDING && |events| <= CP_EVENTS
      && (forall i | 0 <= i < |pending| :: pending[i].1 <= CP_SCRATCH)
      && CpInv(State())
    }

    ghost function State(): CpState
      reads this, cache, timers.entries
    {
      CpState(cache.entries, timers.entries[..], retransmitCount, activeMx)
    }

    // All pending searches share one buffer: each is a prefix of whatever was written last.
    ghost function Outbox(): seq<DeviceSpec.Packet>
      requires Valid()
      reads this, cache, timers.entries, scratch
    {
      seq(|pending|, i requires 0 <= i < |pending| reads this, cache, timers.entries, scratch requires Valid() =>
        DeviceSpec.Packet(pending[i].0, scratch[..pending[i].1]))
    }

    constructor (agent: Option<Bytes>)
      ensures Valid() && fresh(cache) && fresh(timers) && fresh(timers.entries) && fresh(scratch)
      ensures State() == NewCp() && pending == [] && events == []
      ensures userAgent == if agent.Some? && |agent.value| <= MAX_AGENT then agent else None
    {
      var c := new ServiceCache();
      var q := new TimerQueue(CP_TIMERS);
      cache := c;
      timers := q;
      pending := [];
      scratch := new char[CP_SCRATCH](_ => 0 as char);
      events := [];
      retransmitCount := 0;
      activeMx := 3;
      userAgent := if agent.Some? && |agent.value| <= MAX_AGENT then agent else None;
      new;
      assert timers.entries[..] == NewCp().timers;
      assert SlotOf(NewCp().timers, SearchRetransmit) == CP_TIMERS;
    }

    method EnqueueMSearch(target: Target, mx: nat)
      requires Valid() && mx < 256
      modifies this`pending, scratch
      ensures Valid() && State() == old(State())
      ensures var text := MSearchText(SearchMessage(target, mx, userAgent));
              if |text| <= CP_SCRATCH && |old(pending)| < CP_PENDING
              then pending == old(pending) + [(DeviceSpec.MulticastV4, |text|)] && scratch[..|text|] == text
              else pending == old(pending)
    {
      hide MSearchText, CpInv;
      var encoded := EncodeMSearch(SearchMessage(target, mx, userAgent), scratch);
      if encoded.Ok? && |pending| < CP_PENDING {
        pending := pending + [(DeviceSpec.MulticastV4, encoded.value)];
      }
    }

    /** Starts a search. With nothing left to transmit, exactly its M-SEARCH, if it fits, is queued. */
    method Search(target: Target, mx: nat, now: Nanos)
      requires Valid() && mx < 256
      modifies this`pending, this`retransmitCount, this`activeMx, scratch, timers.entries
      ensures Valid() && State() == ControlPointSpec.Search(old(State()), mx, now)
      ensures var text := MSearchText(SearchMessage(target, mx, userAgent));
              if |text| <= CP_SCRATCH && |old(pending)| < CP_PENDING
              then pending == old(pending) + [(DeviceSpec.MulticastV4, |text|)] && scratch[..|text|] == text
              else pending == old(pending)
      ensures var text := MSearchText(SearchMessage(target, mx, userAgent));
              old(pending) == [] ==>
                Outbox() == if |text| <= CP_SCRATCH then [DeviceSpec.Packet(DeviceSpec.MulticastV4, text)] else []
    {
      hide MSearchText, CpInv, SetTimer;
      SearchKeeps(State(), mx, now);
      EnqueueMSearch(target, mx);
      retransmitCount := 0;
      activeMx := ClampMx(mx);
      timers.Set(Timer(now + (activeMx / 2 + 1) * SECOND, SearchRetransmit));
    }

    method RescheduleCacheExpiry(now: Nanos)
      requires Valid()
      modifies timers.entries
      ensures Valid() && State() == Reschedule(old(State()), now)
    {
      hide NextExpiry, SetTimer, CpInv;
      RescheduleKeeps(State(), now);
      var next := cache.NextExpiryTime();
      if next.Some? && next.value > now {
        timers.Set(Timer(next.value, CacheExpiry));
      }
    }

    method PushEvent(e: CpEvent)
      requires |events| <= CP_EVENTS
      modifies this`events
      ensures events == Kept(old(events) + [e])
    {
      if |events| < CP_EVENTS {
        events := events + [e];
      }
    }

    // Files an announcement, reports it unless its location is too long, and re-arms the expiry timer.
    method Announced(usn: Bytes, location: Bytes, maxAge: Nanos, now: Nanos)
      requires Valid() && |usn| <= CACHE_USN
      modifies this`events, cache, timers.entries
      ensures Valid() && State() == Hear(old(State()), now, Announce(usn, location, maxAge))
      ensures events ==
        if |location| <= CACHE_LOC then Kept(old(events) + [SearchHit(usn, location, maxAge)]) else old(events)
    {
      hide NextExpiry, SetTimer, Reschedule, Deadline, InsertEntry, Accepts;
      InsertKeepsTable(cache.entries, usn, location, maxAge, now);
      var _ := cache.Insert(usn, location, maxAge, now);
      if |location| <= CACHE_LOC {
        PushEvent(SearchHit(usn, location, maxAge));
      }
      RescheduleCacheExpiry(now);
    }

    method Withdrawn(usn: Bytes, now: Nanos)
      requires Valid() && |usn| <= CACHE_USN
      modifies this`events, cache
      ensures Valid() && State() == Hear(old(State()), now, Depart(usn))
      ensures events == Kept(old(events) + [Departed(usn)])
    {
      hide CpTimersOk, TableOk, Deadline;
      RemoveKeeps(cache.entries, usn);
      var _ := cache.Remove(usn);
      PushEvent(Departed(usn));
    }

    method HandleDatagram(now: Nanos, payload: Bytes)
      requires Valid()
      modifies this`events, cache, timers.entries
      ensures Valid() && State() == ControlPointSpec.HandleDatagram(old(State()), now, payload)
      ensures events ==
        match EventOf(payload) case None => old(events) case Some(e) => Kept(old(events) + [e])
    {
      hide ParseDatagram, KeyOf, Kept, CpInv, Reschedule, InsertEntry, RemoveEntry;
      TidingsKey(payload);
      var msg := ParseDatagram(payload);
      if msg.Err? {
        return;
      }
      match msg.value
      case SearchResponse(r) =>
        var usn := UsnToString(r.usn);
        Announced(usn, r.location, r.maxAge, now);
      case Announcement(n) =>
        var usn := UsnToString(n.usn);
        match n.nts {
          case ByeBye =>
            Withdrawn(usn, now);
          case _ =>
            if n.location.Some? && n.maxAge.Some? {
              Announced(usn, n.location.value, n.maxAge.value, now);
            }
        }
      case _ =>
    }

    method PushExpiries(keys: seq<Bytes>)
      requires |events| <= CP_EVENTS
      modifies this`events
      ensures events == Kept(old(events) + Expiries(keys))
    {
      var i := 0;
      assert events + Expiries([]) == events && keys[..0] == [];
      while i < |keys|
        invariant i <= |keys|
        invariant events == Kept(old(events) + Expiries(keys[..i]))
      {
        assert old(events) + Expiries(keys[..i + 1]) == old(events) + Expiries(keys[..i]) + [Expired(keys[i])];
        PushEvent(Expired(keys[i]));
        i := i + 1;
      }
      assert keys[..i] == keys;
    }

    // The expiry timer: drops what is due, reports it in the order it was dropped, and re-arms.
    method ExpireCache(now: Nanos) returns (ghost expired: seq<Bytes>)
      requires Valid()
      modifies this`events, cache, timers.entries
      ensures Valid() && State() == Fire(old(State()), now, CacheExpiry)
      ensures Enumerates(expired, DueKeys(old(State()).cache, now))
      ensures events == Kept(old(events) + Expiries(expired))
    {
      hide NextExpiry, Reschedule, Deadline, DueKeys, Enumerates, CpTimersOk, TableOk, ExpireEntries;
      ExpireKeeps(cache.entries, now);
      var keys := cache.Expire(now);
      PushExpiries(keys);
      expired := keys;
      RescheduleCacheExpiry(now);
    }

    method RetransmitSearch(now: Nanos)
      requires Valid() && retransmitCount < MAX_RETRANSMITS && Deadline(State().timers, SearchRetransmit).None?
      modifies this`retransmitCount, timers.entries
      ensures Valid() && State() == Fire(old(State()), now, SearchRetransmit)
    {
      hide SetTimer, Deadline, CpInv;
      FireKeeps(State(), now, SearchRetransmit);
      retransmitCount := retransmitCount + 1;
      if retransmitCount < MAX_RETRANSMITS {
        timers.Set(Timer(now + activeMx * SECOND, SearchRetransmit));
      }
    }

    method FireTimer(now: Nanos, k: TimerKind) returns (ghost expired: seq<Bytes>)
      requires Valid() && k in CP_KINDS
      requires k == SearchRetransmit ==> retransmitCount < MAX_RETRANSMITS && Deadline(State().timers, k).None?
      modifies this`events, this`retransmitCount, cache, timers.entries
      ensures Valid() && State() == Fire(old(State()), now, k)
      ensures if k == CacheExpiry then Enumerates(expired, DueKeys(old(State()).cache, now)) else expired == []
      ensures events == Kept(old(events) + Expiries(expired))
    {
      hide CpInv, Deadline, Fire, Enumerates, DueKeys;
      if k == CacheExpiry {
        expired := ExpireCache(now);
      } else {
        RetransmitSearch(now);
        expired := [];
        NoExpiries(events);
      }
    }

    /** Fires every due timer, in slot order; the entries that expire are each reported once. */
    method HandleTimeout(now: Nanos) returns (ghost expired: seq<Bytes>)
      requires Valid()
      modifies this`events, this`retransmitCount, cache, timers.entries
      ensures Valid() && State() == ControlPointSpec.HandleTimeout(old(State()), now)
      ensures Enumerates(expired,
        if DueAt(old(State()), CacheExpiry, now) then DueKeys(old(State()).cache, now) else {})
      ensures events == Kept(old(events) + Expiries(expired))
    {
      hide Fire, FireAll, Deadline, DueKinds, ClearDue, CpInv, DueKeys, CpTimersOk, Expiries, Enumerates,
           NextExpiry, ExpireEntries;
      DrainCp(State(), now);
      var kinds := timers.DrainExpired(now);
      ghost var start := State();
      expired := [];
      NoExpiries(events);
      var i := 0;
      while i < |kinds|
        invariant i <= |kinds|
        invariant Valid()
        invariant FireAll(State(), now, kinds[i..]) == FireAll(start, now, kinds)
        invariant SearchRetransmit !in kinds[..i] ==> retransmitCount == start.retransmits
        invariant SearchRetransmit !in kinds[..i] ==>
          Deadline(State().timers, SearchRetransmit) == Deadline(start.timers, SearchRetransmit)
        invariant CacheExpiry !in kinds[..i] ==> cache.entries == start.cache && expired == []
        invariant CacheExpiry in kinds[..i] ==> Enumerates(expired, DueKeys(start.cache, now))
        invariant events == Kept(old(events) + Expiries(expired))
      {
        var k := kinds[i];
        assert kinds[..i + 1] == kinds[..i] + [k] && k !in kinds[..i];
        FireNext(State(), now, kinds, i);
        RetransmitAllowed(old(State()), start, k, now);
        FireKeeps(State(), now, k);
        NoExpiries(events);
        var gone := FireTimer(now, k);
        expired := if k == CacheExpiry then gone else expired;
        i := i + 1;
      }
      assert kinds[..i] == kinds;
      FiredAll(State(), now, kinds[i..]);
      NoneDue();
    }

    /** Copies the newest pending search into `buf`, as much of it as fits. */
    method PollTransmit(buf: array<char>) returns (r: Option<(DeviceSpec.Destination, nat)>)
      requires Valid() && buf != scratch
      modifies this`pending, buf
      ensures Valid() && State() == old(State())
      ensures old(pending) == [] ==> r == None && pending == []
      ensures old(pending) != [] ==>
        var packet := old(Outbox())[|old(pending)| - 1];
        && Outbox() == old(Outbox())[..|old(pending)| - 1]
        && r.Some? && r.value.0 == packet.dest && r.value.1 <= buf.Length
        && r.value.1 == (if |packet.payload| <= buf.Length then |packet.payload| else buf.Length)
        && buf[..r.value.1] == packet.payload[..r.value.1]
    {
      hide CpInv;
      ghost var was := pending;
      if pending == [] {
        return None;
      }
      var (dest, len) := pending[|pending| - 1];
      pending := pending[..|pending| - 1];
      var n := if len <= buf.Length then len else buf.Length;
      forall i | 0 <= i < n {
        buf[i] := scratch[i];
      }
      assert scratch[..] == old(scratch[..]);
      assert forall i | 0 <= i < |pending| :: pending[i] == was[i];
      assert State() == old(State());
      return Some((dest, n));
    }

    method PollEvent() returns (r: Option<CpEvent>)
      requires Valid()
      modifies this`events
      ensures Valid() && State() == old(State())
      ensures if old(events) == [] then r == None && events == []
              else r == Some(old(events)[0]) && events == old(events)[1..]
    {
      if events == [] {
        return None;
      }
      r := Some(events[0]);
      events := events[1..];
    }

    method PollTimeout() returns (r: Option<Nanos>)
      requires Valid()
      ensures r == NextTimeout(State().timers)
    {
      r := timers.NextDeadline();
    }
  }

  lemma NoExpiries(events: seq<CpEvent>)
    ensures events + Expiries([]) == events
  {
  }

  lemma NoneDue()
    ensures Enumerates([], {})
  {
  }

  lemma FireNext(s: CpState, now: Nanos, kinds: seq<TimerKind>, i: nat)
    requires i < |kinds|
    ensures FireAll(s, now, kinds[i..]) == FireAll(Fire(s, now, kinds[i]), now, kinds[i + 1..])
  {
    hide Fire;
    assert kinds[i..][1..] == kinds[i + 1..];
  }

  lemma FiredAll(s: CpState, now: Nanos, kinds: seq<TimerKind>)
    requires kinds == []
    ensures FireAll(s, now, kinds) == s
  {
  }

  // Only a pending retransmission is counted, so the counter never passes two.
  lemma RetransmitAllowed(s: CpState, c: CpState, k: TimerKind, now: Nanos)
    requires CpInv(s) && (k == SearchRetransmit ==> DueAt(s, k, now)) && c == s.(timers := c.timers)
    ensures k == SearchRetransmit ==> c.retransmits < MAX_RETRANSMITS
  {
    hide Deadline, CpTimersOk, TableOk;
  }

  lemma AppendSix(s: Bytes, a: Bytes, b: Bytes, c: Bytes, d: Bytes, e: Bytes, f: Bytes)
    ensures AppendAll(s, [a, b, c, d, e, f]) == Append(Append(Append(Append(Append(Append(s, a), b), c), d), e), f)
  {
    hide AppendAll, Append;
    assert [a, b, c, d, e, f] == [a] + ([b] + ([c] + ([d] + ([e] + ([f] + [])))));
    var s1 := Append(s, a);
    var s2 := Append(s1, b);
    var s3 := Append(s2, c);
    var s4 := Append(s3, d);
    AppendCons(s, a, [b] + ([c] + ([d] + ([e] + ([f] + [])))));
    AppendCons(s1, b, [c] + ([d] + ([e] + ([f] + []))));
    AppendCons(s2, c, [d] + ([e] + ([f] + [])));
    AppendCons(s3, d, [e] + ([f] + []));
    AppendCons(s4, e, [f] + []);
    AppendCons(Append(s4, e), f, []);
    AppendNone(Append(Append(s4, e), f));
  }

  // Renders a USN into a bounded string, piece by piece.
  method UsnToString(u: Usn) returns (s: Bytes)
    ensures s == KeyOf(u)
  {
    hide AppendAll, Append, Dec;
    s := Append("", "uuid:");
    s := Append(s, u.deviceUuid);
    ghost var tail := if u.embedded.None? then [] else ["::"] + TargetPieces(u.embedded.value);
    assert UsnPieces(u) == ["uuid:"] + ([u.deviceUuid] + tail);
    AppendCons("", "uuid:", [u.deviceUuid] + tail);
    AppendCons(Append("", "uuid:"), u.deviceUuid, tail);
    AppendNone(s);
    if u.embedded.None? {
      return;
    }
    AppendCons(s, "::", TargetPieces(u.embedded.value));
    s := Append(s, "::");
    ghost var s0 := s;
    match u.embedded.value
    case All =>
      AppendCons(s, "ssdp:all", []);
      s := Append(s, "ssdp:all");
      AppendNone(s);
      assert TargetPieces(All) == ["ssdp:all"] + [];
    case RootDevice =>
      AppendCons(s, "upnp:rootdevice", []);
      s := Append(s, "upnp:rootdevice");
      AppendNone(s);
      assert TargetPieces(RootDevice) == ["upnp:rootdevice"] + [];
    case Uuid(id) =>
      AppendCons(s, "uuid:", [id] + []);
      AppendCons(Append(s, "uuid:"), id, []);
      s := Append(s, "uuid:");
      s := Append(s, id);
      AppendNone(s);
      assert TargetPieces(Uuid(id)) == ["uuid:"] + ([id] + []);
    case DeviceType(domain, kind, version) =>
      s := Append(s, "urn:");
      s := Append(s, domain);
      s := Append(s, ":device:");
      s := Append(s, kind);
      s := Append(s, ":");
      var digits := U32ToStr(version);
      s := Append(s, digits);
      AppendSix(s0, "urn:", domain, ":device:", kind, ":", digits);
    case ServiceType(domain, kind, version) =>
      s := Append(s, "urn:");
      s := Append(s, domain);
      s := Append(s, ":service:");
      s := Append(s, kind);
      s := Append(s, ":");
      var digits := U32ToStr(version);
      s := Append(s, digits);
      AppendSix(s0, "urn:", domain, ":service:", kind, ":", digits);
  }
}
