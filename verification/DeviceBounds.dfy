/**
 * Byte counts: what the stored lengths and the decimal widths say about every datagram a device can
 * produce, and what follows for whole rounds of announcements and for shutdown.
 */
module DeviceBounds {
  import opened Wrappers
  import opened Text
  import opened Http
  import opened Target
  import opened Fields
  import opened Messages
  import opened Encode
  import opened Timers
  import opened DeviceSpec

  const DEVICE_KINDS: set<TimerKind> := {AliveRefresh, InitialAlive, SearchReply}

  // ---------- invariants of every reachable device ----------

  // What registering a target leaves behind: URNs keep clear of the four octets of their encoder.
  predicate Stored(nt: Bytes) {
    && 0 < |nt| <= MAX_URN_LEN && (nt[0] == 's' || nt[0] == 'u')
    && ("urn:" <= nt ==> |nt| <= MAX_URN_LEN - 4)
  }

  predicate ConfigBounded(cfg: Config) {
    && |cfg.uuid| <= MAX_UUID_LEN && |cfg.location| <= MAX_LOCATION_LEN
    && (cfg.server.Some? ==> |cfg.server.value| <= MAX_SERVER_LEN)
  }

  predicate TargetsBounded(targets: seq<AdvertEntry>) {
    |targets| <= MAX_TARGETS
    && forall i | 0 <= i < |targets| :: Stored(targets[i].nt) && targets[i].initialRemaining <= INITIAL_ALIVE_COUNT
  }

  ghost predicate TimersOk(timers: seq<Slot>) {
    |timers| == DEVICE_TIMERS && OnePerKind(timers) && KindsWithin(timers, DEVICE_KINDS)
  }

  ghost predicate DeviceInv(s: DeviceState) {
    && ConfigBounded(s.cfg) && TargetsBounded(s.targets) && TimersOk(s.timers)
    && |s.events| <= MAX_EVENTS && |s.outbox| <= MAX_PENDING && OutboxBytes(s.outbox) <= SCRATCH_LEN
  }

  // ---------- lengths of headers ----------

  function HeaderBytes(hs: seq<Header>): nat {
    if hs == [] then 0 else |hs[0].name| + |hs[0].value| + 4 + HeaderBytes(hs[1..])
  }

  lemma {:induction false} RenderedBytes(hs: seq<Header>)
    ensures |RenderHeaders(hs)| == HeaderBytes(hs)
  {
    if hs != [] {
      RenderedBytes(hs[1..]);
    }
  }

  lemma DatagramBytes(line: Bytes, hs: seq<Header>)
    ensures |Datagram(line, hs)| == |line| + 4 + HeaderBytes(hs)
  {
    hide RenderHeaders, HeaderBytes;
    RenderedBytes(hs);
  }

  lemma HeaderBytesCons(h: Header, rest: seq<Header>)
    ensures HeaderBytes([h] + rest) == |h.name| + |h.value| + 4 + HeaderBytes(rest)
  {
    assert ([h] + rest)[1..] == rest;
  }

  lemma FourBytes(a: Header, b: Header, c: Header, d: Header, rest: seq<Header>)
    ensures HeaderBytes([a, b, c, d] + rest) ==
      |a.name| + |a.value| + |b.name| + |b.value| + |c.name| + |c.value| + |d.name| + |d.value| + 16 + HeaderBytes(rest)
  {
    hide HeaderBytes;
    HeaderBytesCons(a, [b, c, d] + rest);
    HeaderBytesCons(b, [c, d] + rest);
    HeaderBytesCons(c, [d] + rest);
    HeaderBytesCons(d, rest);
    assert [a, b, c, d] + rest == [a] + ([b, c, d] + rest);
    assert [b, c, d] + rest == [b] + ([c, d] + rest);
    assert [c, d] + rest == [c] + ([d] + rest);
  }

  lemma OptBytes(f: Field, v: Option<Bytes>, rest: seq<Header>)
    ensures HeaderBytes(OptText(f, v) + rest) ==
      HeaderBytes(rest) + if v.None? then 0 else |WireName(f)| + |v.value| + 4
  {
    hide HeaderBytes, WireName;
    assert [] + rest == rest;
    if v.Some? {
      HeaderBytesCons(Line(f, v.value), rest);
    }
  }

  lemma OptU32Bytes(f: Field, v: Option<u32>, rest: seq<Header>)
    ensures HeaderBytes(OptU32(f, v) + rest) <= HeaderBytes(rest) + if v.None? then 0 else |WireName(f)| + 14
  {
    hide HeaderBytes, WireName, Dec, OptText;
    if v.Some? {
      DecWidth(v.value);
    }
    OptBytes(f, if v.None? then None else Some(Dec(v.value)), rest);
  }

  // ---------- re-parsing never lengthens a target ----------

  lemma TrimShrinks(s: Bytes)
    requires SpaceWidth(s) == 0
    ensures Trim(s) <= s
  {
  }

  lemma ReparsedBytes(nt: Bytes)
    requires Stored(nt)
    ensures |TargetText(ReparseTarget(nt))| <= MAX_URN_LEN
    ensures !ReparseTarget(nt).Uuid? ==> |TargetText(ReparseTarget(nt))| <= MAX_URN_LEN - 4
  {
    hide Trim, ParseUrn, EqIgnoreCase, Dec;
    TrimShrinks(nt);
    var v := Trim(nt);
    if "urn:" <= v {
      ParsedUrnBytes(v[4..]);
      ParsedUrnFamily(v[4..]);
    }
  }

  lemma ParsedUrnFamily(rest: Bytes)
    ensures ParseUrn(rest).Ok? ==> ParseUrn(rest).value.DeviceType? || ParseUrn(rest).value.ServiceType?
  {
    hide Find, ParseUint;
  }

  // NT and the USN qualifier together: a URN appears in both, a UUID only in the first.
  lemma TargetAndUsnBytes(uuid: Bytes, t: Target)
    requires |uuid| <= MAX_UUID_LEN && |TargetText(t)| <= MAX_URN_LEN
    requires !t.Uuid? ==> |TargetText(t)| <= MAX_URN_LEN - 4
    ensures |TargetText(t)| + |UsnText(MakeUsn(uuid, t))| <= 319
  {
    hide TargetText;
  }

  // ---------- no datagram outgrows its bound ----------

  lemma ByeByeBytes(cfg: Config, e: AdvertEntry)
    requires ConfigBounded(cfg) && Stored(e.nt)
    ensures |NotifyText(ByeByeFor(cfg, e))| <= 459
  {
    hide HeaderBytes, OptText, OptU32, UsnText, TargetText, ReparseTarget, MakeUsn, Datagram;
    var m := ByeByeFor(cfg, e);
    ReparsedBytes(e.nt);
    TargetAndUsnBytes(cfg.uuid, m.nt);
    DatagramBytes(NOTIFY_LINE, NotifyHeaders(m));
    TailBytes(None, m.bootid, m.configid);
    var tail := Tail(None, m.bootid, m.configid);
    OptBytes(CacheControl, None, tail);
    OptBytes(Location, None, OptAge(None) + tail);
    FourBytes(Line(Host, m.host), Line(Nt, TargetText(m.nt)), Line(Nts, SubTypeText(m.nts)),
      Line(UsnField, UsnText(m.usn)), OptText(Location, None) + (OptAge(None) + tail));
  }

  // SERVER, BOOTID and CONFIGID with no NEXTBOOTID and no SEARCHPORT, in a notification and in a reply.
  function Tail(server: Option<Bytes>, bootid: Option<u32>, configid: Option<u32>): seq<Header> {
    OptText(Server, server) + (OptU32(BootId, bootid) + (OptU32(ConfigId, configid)
      + (OptU32(NextBootId, None) + OptPort(SearchPort, None))))
  }

  function ReplyTail(server: Option<Bytes>, bootid: Option<u32>, configid: Option<u32>): seq<Header> {
    OptText(Server, server) + (OptU32(BootId, bootid) + (OptU32(ConfigId, configid) + OptPort(SearchPort, None)))
  }

  lemma TailBytes(server: Option<Bytes>, bootid: Option<u32>, configid: Option<u32>)
    ensures HeaderBytes(Tail(server, bootid, configid)) <= (if server.None? then 0 else |server.value| + 10) + 60
    ensures HeaderBytes(ReplyTail(server, bootid, configid)) <= (if server.None? then 0 else |server.value| + 10) + 60
  {
    hide OptU32;
    var none := OptU32(NextBootId, None) + OptPort(SearchPort, None);
    assert none == [] by { NoneBytes(); }
    assert OptPort(SearchPort, None) == [];
    OptBytes(Server, server, OptU32(BootId, bootid) + (OptU32(ConfigId, configid) + []));
    OptU32Bytes(BootId, bootid, OptU32(ConfigId, configid) + []);
    OptU32Bytes(ConfigId, configid, []);
  }

  lemma NoneBytes()
    ensures OptU32(NextBootId, None) == []
  {
  }

  lemma AliveLength(cfg: Config, e: AdvertEntry)
    ensures var m := AliveFor(cfg, e);
            |NotifyText(m)| <= 196 + |TargetText(m.nt)| + |UsnText(m.usn)| + |cfg.location|
                               + if cfg.server.None? then 0 else |cfg.server.value|
  {
    hide HeaderBytes, OptText, OptU32, UsnText, TargetText, ReparseTarget, MakeUsn, Datagram, MaxAgeText;
    var m := AliveFor(cfg, e);
    DatagramBytes(NOTIFY_LINE, NotifyHeaders(m));
    TailBytes(m.server, m.bootid, m.configid);
    MaxAgeBytes(e.maxAge);
    var tail := Tail(m.server, m.bootid, m.configid);
    OptBytes(CacheControl, Some(MaxAgeText(e.maxAge)), tail);
    OptBytes(Location, m.location, OptAge(m.maxAge) + tail);
    FourBytes(Line(Host, m.host), Line(Nt, TargetText(m.nt)), Line(Nts, SubTypeText(m.nts)),
      Line(UsnField, UsnText(m.usn)), OptText(Location, m.location) + (OptAge(m.maxAge) + tail));
  }

  lemma AliveBytes(cfg: Config, e: AdvertEntry)
    requires ConfigBounded(cfg) && Stored(e.nt)
    ensures |NotifyText(AliveFor(cfg, e))| <= 899
  {
    hide NotifyText, UsnText, TargetText, ReparseTarget, MakeUsn;
    AliveLength(cfg, e);
    ReparsedBytes(e.nt);
    TargetAndUsnBytes(cfg.uuid, ReparseTarget(e.nt));
  }

  lemma MaxAgeBytes(age: Nanos)
    ensures |MaxAgeText(age)| <= 18
  {
    hide Dec, WireSeconds;
    DecWidth(WireSeconds(age));
  }

  // Answering with the requested version instead of the advertised one makes nothing longer.
  lemma ResponseTargetBytes(search: Target, advertised: Target)
    ensures |TargetText(ResponseTarget(search, advertised))| <= |TargetText(advertised)|
  {
    hide Dec;
    match (search, advertised)
    case (DeviceType(_, _, v1), DeviceType(_, _, v2)) =>
      if v1 <= v2 {
        DecMonotone(v1, v2);
      }
    case (ServiceType(_, _, v1), ServiceType(_, _, v2)) =>
      if v1 <= v2 {
        DecMonotone(v1, v2);
      }
    case _ =>
  }

  lemma ReplyLength(cfg: Config, e: AdvertEntry, search: Target)
    ensures var m := ReplyFor(cfg, e, search);
            |ResponseText(m)| <= 149 + |TargetText(m.st)| + |UsnText(m.usn)| + |cfg.location|
                                 + if cfg.server.None? then 0 else |cfg.server.value|
  {
    hide HeaderBytes, OptText, OptU32, UsnText, TargetText, ReparseTarget, MakeUsn, Datagram, MaxAgeText,
         ResponseTarget;
    var m := ReplyFor(cfg, e, search);
    DatagramBytes(RESPONSE_LINE, ResponseHeaders(m));
    TailBytes(m.server, m.bootid, m.configid);
    MaxAgeBytes(e.maxAge);
    FourBytes(Line(CacheControl, MaxAgeText(m.maxAge)), Line(Location, m.location), Line(St, TargetText(m.st)),
      Line(UsnField, UsnText(m.usn)), ReplyTail(m.server, m.bootid, m.configid));
  }

  lemma ReplyBytes(cfg: Config, e: AdvertEntry, search: Target)
    requires ConfigBounded(cfg) && Stored(e.nt)
    ensures |ResponseText(ReplyFor(cfg, e, search))| <= 852
  {
    hide HeaderBytes, OptText, OptU32, UsnText, TargetText, ReparseTarget, MakeUsn, Datagram, MaxAgeText,
         ResponseTarget;
    var m := ReplyFor(cfg, e, search);
    ReparsedBytes(e.nt);
    ResponseTargetBytes(search, ReparseTarget(e.nt));
    ResponseTargetKind(search, ReparseTarget(e.nt));
    TargetAndUsnBytes(cfg.uuid, m.st);
    ReplyLength(cfg, e, search);
  }

  lemma ResponseTargetKind(search: Target, advertised: Target)
    ensures ResponseTarget(search, advertised).Uuid? <==> advertised.Uuid?
  {
  }

  // ---------- rounds ----------

  function Packets(ms: seq<Notify>): seq<Packet> {
    seq(|ms|, i requires 0 <= i < |ms| => Packet(MulticastV4, NotifyText(ms[i])))
  }

  function TextBytes(ms: seq<Notify>): nat {
    if ms == [] then 0 else |NotifyText(ms[0])| + TextBytes(ms[1..])
  }

  lemma EnqueueBytes(q: seq<Packet>, p: Packet)
    ensures OutboxBytes(q + [p]) == OutboxBytes(q) + |p.payload|
  {
    assert (q + [p])[..|q|] == q;
  }

  /** A round that fits is queued whole and in order, and reports nothing. */
  lemma {:induction false} SendAllThatFits(s: DeviceState, ms: seq<Notify>)
    requires forall i | 0 <= i < |ms| :: |NotifyText(ms[i])| <= STAGING_LEN
    requires OutboxBytes(s.outbox) + TextBytes(ms) <= SCRATCH_LEN && |s.outbox| + |ms| <= MAX_PENDING
    ensures SendAll(s, ms) == s.(outbox := s.outbox + Packets(ms))
    decreases |ms|
  {
    hide NotifyText, OutboxBytes;
    if ms == [] {
      assert s.outbox + Packets(ms) == s.outbox;
    } else {
      var p := Packet(MulticastV4, NotifyText(ms[0]));
      EnqueueBytes(s.outbox, p);
      SendAllThatFits(s.(outbox := s.outbox + [p]), ms[1..]);
      assert s.outbox + Packets(ms) == (s.outbox + [p]) + Packets(ms[1..]);
    }
  }

  lemma {:induction false} TextBytesBound(ms: seq<Notify>, each: nat)
    requires forall i | 0 <= i < |ms| :: |NotifyText(ms[i])| <= each
    ensures TextBytes(ms) <= |ms| * each
  {
    hide NotifyText;
    if ms != [] {
      TextBytesBound(ms[1..], each);
    }
  }

  /** Shutting down with an empty outbox queues one byebye for every registered target, and loses none. */
  lemma ShutdownIsComplete(s: DeviceState, now: Nanos)
    requires DeviceInv(s) && s.outbox == []
    ensures Shutdown(s, now).outbox == Packets(ByeByes(s.cfg, s.targets))
    ensures Shutdown(s, now).events == s.events
  {
    hide NotifyText, ByeByeFor, SetTimer, CancelTimer;
    var ms := ByeByes(s.cfg, s.targets);
    forall i | 0 <= i < |ms|
      ensures |NotifyText(ms[i])| <= 459
    {
      ByeByeBytes(s.cfg, s.targets[i]);
    }
    TextBytesBound(ms, 459);
    SendAllThatFits(s.(shuttingDown := true), ms);
    assert [] + Packets(ms) == Packets(ms);
  }

  // The notifications of a round that find no place.
  function Refused(q: seq<Packet>, ms: seq<Notify>): nat
    decreases |ms|
  {
    if ms == [] then 0
    else
      match Enqueue(q, Packet(MulticastV4, NotifyText(ms[0])))
      case Some(q') => Refused(q', ms[1..])
      case None => 1 + Refused(q, ms[1..])
  }

  function Min(a: int, b: int): int {
    if a <= b then a else b
  }

  // Behind the events of before there are only reports of a full arena.
  predicate Reported(before: seq<DeviceEvent>, after: seq<DeviceEvent>) {
    && |before| <= |after| && after[..|before|] == before
    && forall i | |before| <= i < |after| :: after[i] == EncodeFailed(BufferTooSmall)
  }

  lemma ReportedOn(a: seq<DeviceEvent>, b: seq<DeviceEvent>, c: seq<DeviceEvent>)
    requires Reported(a, b) && Reported(b, c)
    ensures Reported(a, c)
  {
    assert c[..|a|] == c[..|b|][..|a|];
    assert forall i | |a| <= i < |b| :: c[i] == c[..|b|][i];
  }

  lemma ReportedNow(s: DeviceState, m: Notify)
    ensures Reported(s.events, EnqueueNotify(s, m).events)
  {
    hide NotifyText, OutboxBytes;
  }

  lemma {:induction false} RoundAccounting(s: DeviceState, ms: seq<Notify>)
    requires forall i | 0 <= i < |ms| :: |NotifyText(ms[i])| <= STAGING_LEN
    requires |s.events| <= MAX_EVENTS
    ensures var r := SendAll(s, ms);
            && |r.outbox| == |s.outbox| + |ms| - Refused(s.outbox, ms)
            && |r.events| == Min(4, |s.events| + Refused(s.outbox, ms))
            && Reported(s.events, r.events)
    decreases |ms|
  {
    hide NotifyText, OutboxBytes, Reported;
    if ms == [] {
      assert Reported(s.events, s.events) by { NothingReported(s.events); }
    } else {
      var next := EnqueueNotify(s, ms[0]);
      RoundAccounting(next, ms[1..]);
      ReportedNow(s, ms[0]);
      ReportedOn(s.events, next.events, SendAll(s, ms).events);
    }
  }

  lemma NothingReported(events: seq<DeviceEvent>)
    ensures Reported(events, events)
  {
  }

  // While no more than four datagrams are queued there is room for another.
  lemma {:induction false} RefusedBound(q: seq<Packet>, ms: seq<Notify>, placed: nat)
    requires forall i | 0 <= i < |ms| :: |NotifyText(ms[i])| <= 899
    requires placed <= 4 && |q| <= placed && OutboxBytes(q) <= 899 * placed
    ensures Refused(q, ms) <= if |ms| + placed <= 4 then 0 else |ms| + placed - 4
    decreases |ms|
  {
    hide NotifyText, OutboxBytes;
    if ms != [] {
      var p := Packet(MulticastV4, NotifyText(ms[0]));
      EnqueueBytes(q, p);
      if placed < 4 {
        RefusedBound(q + [p], ms[1..], placed + 1);
      } else {
        RefusedAtMost(q, ms);
      }
    }
  }

  lemma {:induction false} RefusedAtMost(q: seq<Packet>, ms: seq<Notify>)
    ensures Refused(q, ms) <= |ms|
    decreases |ms|
  {
    hide NotifyText, Enqueue;
    if ms != [] {
      var e := Enqueue(q, Packet(MulticastV4, NotifyText(ms[0])));
      RefusedAtMost(if e.Some? then e.value else q, ms[1..]);
    }
  }

  /**
   * Starting from empty queues, every alive announcement of a round is accounted for: it is queued,
   * or there is an event saying that it was not.
   */
  lemma AliveAccounting(s: DeviceState)
    requires DeviceInv(s) && s.outbox == [] && s.events == []
    ensures var r := SendAll(s, Alives(s.cfg, s.targets));
            && |r.outbox| + |r.events| == |s.targets|
            && (forall i | 0 <= i < |r.events| :: r.events[i] == EncodeFailed(BufferTooSmall))
            && (|s.targets| <= 4 ==> r.outbox == Packets(Alives(s.cfg, s.targets)) && r.events == [])
  {
    hide NotifyText, AliveFor;
    var ms := Alives(s.cfg, s.targets);
    forall i | 0 <= i < |ms|
      ensures |NotifyText(ms[i])| <= 899
    {
      AliveBytes(s.cfg, s.targets[i]);
    }
    RoundAccounting(s, ms);
    RefusedBound([], ms, 0);
    if |ms| <= 4 {
      TextBytesBound(ms, 899);
      SendAllThatFits(s, ms);
      assert [] + Packets(ms) == Packets(ms);
    }
  }

  // ---------- who is heard in a round ----------

  // The targets whose announcements find a place behind `q`, in order.
  function Placed(cfg: Config, q: seq<Packet>, targets: seq<AdvertEntry>): seq<AdvertEntry>
    decreases |targets|
  {
    if targets == [] then []
    else
      match Enqueue(q, Packet(MulticastV4, NotifyText(AliveFor(cfg, targets[0]))))
      case Some(q') => [targets[0]] + Placed(cfg, q', targets[1..])
      case None => Placed(cfg, q, targets[1..])
  }

  lemma AlivesCons(cfg: Config, e: AdvertEntry, rest: seq<AdvertEntry>)
    ensures Alives(cfg, [e] + rest) == [AliveFor(cfg, e)] + Alives(cfg, rest)
    ensures Packets(Alives(cfg, [e] + rest)) ==
      [Packet(MulticastV4, NotifyText(AliveFor(cfg, e)))] + Packets(Alives(cfg, rest))
  {
    hide AliveFor, NotifyText;
  }

  /** A round queues the announcements of exactly those targets; the places and the refusals make up all of them. */
  lemma {:induction false} PlacedAreSent(s: DeviceState, targets: seq<AdvertEntry>)
    requires ConfigBounded(s.cfg) && forall i | 0 <= i < |targets| :: Stored(targets[i].nt)
    ensures SendAll(s, Alives(s.cfg, targets)).outbox ==
      s.outbox + Packets(Alives(s.cfg, Placed(s.cfg, s.outbox, targets)))
    ensures |Placed(s.cfg, s.outbox, targets)| + Refused(s.outbox, Alives(s.cfg, targets)) == |targets|
    decreases |targets|
  {
    hide NotifyText, OutboxBytes, AliveFor, ConfigBounded, Stored;
    var ms := Alives(s.cfg, targets);
    if targets == [] {
      assert s.outbox + Packets([]) == s.outbox;
    } else {
      var e, rest := targets[0], targets[1..];
      AliveBytes(s.cfg, e);
      assert ms[0] == AliveFor(s.cfg, e) && ms[1..] == Alives(s.cfg, rest);
      var next := EnqueueNotify(s, ms[0]);
      PlacedAreSent(next, rest);
      var p := Packet(MulticastV4, NotifyText(ms[0]));
      if Enqueue(s.outbox, p).Some? {
        OneMorePlaced(s.outbox, s.cfg, e, Placed(s.cfg, next.outbox, rest));
      }
    }
  }

  lemma OneMorePlaced(q: seq<Packet>, cfg: Config, e: AdvertEntry, placed: seq<AdvertEntry>)
    ensures var p := Packet(MulticastV4, NotifyText(AliveFor(cfg, e)));
            q + Packets(Alives(cfg, [e] + placed)) == q + [p] + Packets(Alives(cfg, placed))
  {
    hide AliveFor, NotifyText, Alives, Packets;
    var p, rest := Packet(MulticastV4, NotifyText(AliveFor(cfg, e))), Packets(Alives(cfg, placed));
    AlivesCons(cfg, e, placed);
    assert q + ([p] + rest) == q + [p] + rest;
  }

  lemma {:induction false} PlacedAmong(cfg: Config, q: seq<Packet>, targets: seq<AdvertEntry>)
    ensures |Placed(cfg, q, targets)| <= |targets|
    ensures forall e <- Placed(cfg, q, targets) :: e in targets
    decreases |targets|
  {
    hide NotifyText, OutboxBytes, AliveFor;
    if targets != [] {
      var p := Packet(MulticastV4, NotifyText(AliveFor(cfg, targets[0])));
      PlacedAmong(cfg, q, targets[1..]);
      PlacedAmong(cfg, q + [p], targets[1..]);
    }
  }

  /** Every target finds a place exactly when the announcements fit the arena and its queue together. */
  lemma {:induction false} AllPlaced(cfg: Config, q: seq<Packet>, targets: seq<AdvertEntry>)
    requires OutboxBytes(q) <= SCRATCH_LEN && |q| <= MAX_PENDING
    ensures Placed(cfg, q, targets) == targets <==>
      OutboxBytes(q) + TextBytes(Alives(cfg, targets)) <= 4096 && |q| + |targets| <= 16
    decreases |targets|
  {
    hide NotifyText, OutboxBytes, AliveFor;
    if targets != [] {
      var e, rest := targets[0], targets[1..];
      assert targets == [e] + rest;
      AlivesCons(cfg, e, rest);
      var p := Packet(MulticastV4, NotifyText(AliveFor(cfg, e)));
      TextBytesCons(AliveFor(cfg, e), Alives(cfg, rest));
      EnqueueBytes(q, p);
      if Enqueue(q, p).Some? {
        AllPlaced(cfg, q + [p], rest);
        Parts([e], Placed(cfg, q + [p], rest));
      } else {
        PlacedAmong(cfg, q, rest);
      }
    }
  }

  lemma TextBytesCons(m: Notify, rest: seq<Notify>)
    ensures TextBytes([m] + rest) == |NotifyText(m)| + TextBytes(rest)
  {
    hide NotifyText;
    Parts([m], rest);
    assert ([m] + rest)[1..] == rest;
  }

  /** From an empty queue at least four targets find a place, and all of them when there are no more. */
  lemma FourArePlaced(s: DeviceState)
    requires DeviceInv(s) && s.outbox == []
    ensures |Placed(s.cfg, [], s.targets)| >= Min(4, |s.targets|)
    ensures |s.targets| <= 4 ==>
      Placed(s.cfg, [], s.targets) == s.targets && TextBytes(Alives(s.cfg, s.targets)) <= SCRATCH_LEN
  {
    hide NotifyText, AliveFor;
    var ms := Alives(s.cfg, s.targets);
    forall i | 0 <= i < |ms|
      ensures |NotifyText(ms[i])| <= 899
    {
      AliveBytes(s.cfg, s.targets[i]);
    }
    RefusedBound([], ms, 0);
    PlacedAreSent(s, s.targets);
    TextBytesBound(ms, 899);
    AllPlaced(s.cfg, [], s.targets);
  }

  // ---------- answers to a search ----------

  function Matching(search: Target, entries: seq<AdvertEntry>): seq<AdvertEntry> {
    if entries == [] then []
    else
      var rest := Matching(search, entries[1..]);
      if TargetMatches(search, ReparseTarget(entries[0].nt)) then [entries[0]] + rest else rest
  }

  function Replies(cfg: Config, source: Address, search: Target, entries: seq<AdvertEntry>): seq<Packet> {
    seq(|entries|, i requires 0 <= i < |entries| =>
      Packet(Unicast(source), ResponseText(ReplyFor(cfg, entries[i], search))))
  }

  /** The answers queued are those for the first matching targets, in order, up to the first that finds no place. */
  lemma {:induction false} RepliesAreInOrder(q: seq<Packet>, cfg: Config, source: Address, search: Target,
                                             entries: seq<AdvertEntry>)
    returns (n: nat)
    requires ConfigBounded(cfg) && forall i | 0 <= i < |entries| :: Stored(entries[i].nt)
    ensures var all := Replies(cfg, source, search, Matching(search, entries));
            && n <= |all|
            && SendReplies(q, cfg, source, search, entries) == q + all[..n]
            && (n < |all| ==> Enqueue(q + all[..n], all[n]) == None)
    decreases |entries|
  {
    hide ResponseText, ReplyFor, ReparseTarget, TargetMatches, OutboxBytes, Stored, ConfigBounded;
    if entries == [] {
      n := 0;
      assert q + [] == q;
    } else {
      var all := Replies(cfg, source, search, Matching(search, entries));
      var rest := Replies(cfg, source, search, Matching(search, entries[1..]));
      if TargetMatches(search, ReparseTarget(entries[0].nt)) {
        var p := Packet(Unicast(source), ResponseText(ReplyFor(cfg, entries[0], search)));
        ReplyBytes(cfg, entries[0], search);
        assert all == [p] + rest;
        if Enqueue(q, p).None? {
          n := 0;
          assert q + all[..0] == q;
        } else {
          var m := RepliesAreInOrder(q + [p], cfg, source, search, entries[1..]);
          n := m + 1;
          assert all[..n] == [p] + rest[..m];
          assert q + all[..n] == q + [p] + rest[..m];
        }
      } else {
        assert all == rest;
        n := RepliesAreInOrder(q, cfg, source, search, entries[1..]);
      }
    }
  }

  lemma {:induction false} OutboxBound(q: seq<Packet>, each: nat)
    requires forall i | 0 <= i < |q| :: |q[i].payload| <= each
    ensures OutboxBytes(q) <= |q| * each
  {
    if q != [] {
      OutboxBound(q[..|q| - 1], each);
    }
  }

  lemma {:induction false} MatchingAre(search: Target, entries: seq<AdvertEntry>, e: AdvertEntry)
    requires e in Matching(search, entries)
    ensures e in entries
  {
    hide TargetMatches, ReparseTarget;
    if e != entries[0] {
      MatchingAre(search, entries[1..], e);
    }
  }

  /** A search that finds nothing pending and up to four matching targets gets an answer from every one of them. */
  lemma SearchIsAnswered(cfg: Config, source: Address, search: Target, entries: seq<AdvertEntry>)
    requires ConfigBounded(cfg) && forall i | 0 <= i < |entries| :: Stored(entries[i].nt)
    requires |Matching(search, entries)| <= 4
    ensures SendReplies([], cfg, source, search, entries) == Replies(cfg, source, search, Matching(search, entries))
  {
    hide SendReplies, ResponseText, ReplyFor, Stored, OutboxBytes, Matching, ConfigBounded;
    var found := Matching(search, entries);
    var all := Replies(cfg, source, search, found);
    var n := RepliesAreInOrder([], cfg, source, search, entries);
    forall i | 0 <= i < |all|
      ensures |all[i].payload| <= 852
    {
      MatchingAre(search, entries, found[i]);
      ReplyBytes(cfg, found[i], search);
    }
    assert [] + all[..n] == all[..n];
    OutboxBound(all[..n], 852);
    assert n == |all| ==> all[..n] == all;
  }

  // ---------- every call keeps the invariant ----------

  lemma {:induction false} SendAllKeeps(s: DeviceState, ms: seq<Notify>)
    requires DeviceInv(s)
    ensures DeviceInv(SendAll(s, ms))
    decreases |ms|
  {
    hide NotifyText, OutboxBytes, TimersOk, TargetsBounded;
    if ms != [] {
      EnqueueBytes(s.outbox, Packet(MulticastV4, NotifyText(ms[0])));
      SendAllKeeps(EnqueueNotify(s, ms[0]), ms[1..]);
    }
  }

  lemma {:induction false} SendRepliesKeeps(q: seq<Packet>, cfg: Config, source: Address, search: Target,
                                            entries: seq<AdvertEntry>)
    requires |q| <= MAX_PENDING && OutboxBytes(q) <= SCRATCH_LEN
    ensures var r := SendReplies(q, cfg, source, search, entries);
            |r| <= MAX_PENDING && OutboxBytes(r) <= SCRATCH_LEN && q <= r
    decreases |entries|
  {
    hide ResponseText, OutboxBytes, TargetMatches, ReplyFor, ReparseTarget;
    if entries != [] {
      var p := Packet(Unicast(source), ResponseText(ReplyFor(cfg, entries[0], search)));
      EnqueueBytes(q, p);
      var matched := TargetMatches(search, ReparseTarget(entries[0].nt));
      if matched && Enqueue(q, p).Some? {
        SendRepliesKeeps(q + [p], cfg, source, search, entries[1..]);
      }
      if !matched {
        SendRepliesKeeps(q, cfg, source, search, entries[1..]);
      }
    }
  }

  lemma SetKeeps(timers: seq<Slot>, t: Timer)
    requires TimersOk(timers) && t.kind in DEVICE_KINDS
    ensures TimersOk(SetTimer(timers, t))
    ensures forall k :: Deadline(SetTimer(timers, t), k) == if k == t.kind then Some(t.fireAt) else Deadline(timers, k)
  {
    hide SetTimer, Deadline, OnePerKind;
    forall k
      ensures Deadline(SetTimer(timers, t), k) == if k == t.kind then Some(t.fireAt) else Deadline(timers, k)
      ensures TimersOk(SetTimer(timers, t))
    {
      SetTimerMeans(timers, DEVICE_KINDS, t, k);
    }
    SetTimerMeans(timers, DEVICE_KINDS, t, t.kind);
  }

  lemma CancelKeeps(timers: seq<Slot>, k: TimerKind)
    requires TimersOk(timers)
    ensures TimersOk(CancelTimer(timers, k))
    ensures forall j :: Deadline(CancelTimer(timers, k), j) == if j == k then None else Deadline(timers, j)
  {
    hide CancelTimer, Deadline, OnePerKind;
    forall j
      ensures Deadline(CancelTimer(timers, k), j) == if j == k then None else Deadline(timers, j)
    {
      CancelTimerMeans(timers, DEVICE_KINDS, k, j);
    }
    CancelTimerMeans(timers, DEVICE_KINDS, k, k);
  }

  lemma CountDownKeeps(targets: seq<AdvertEntry>)
    requires TargetsBounded(targets)
    ensures TargetsBounded(CountDown(targets).0)
  {
    hide CountDown, Stored;
    CountDownNeverRises(targets);
  }

  lemma {:induction false} CountDownNeverRises(targets: seq<AdvertEntry>)
    ensures forall i | 0 <= i < |targets| :: CountDown(targets).0[i].initialRemaining <= targets[i].initialRemaining
  {
    if targets != [] {
      CountDownNeverRises(targets[1..]);
    }
  }

  lemma OnInitialAliveKeeps(s: DeviceState, now: Nanos)
    requires DeviceInv(s)
    ensures DeviceInv(OnInitialAlive(s, now))
  {
    hide SendAll, Alives, CountDown, NextRand, Below, SetTimer, RefreshInterval, TimersOk, TargetsBounded,
         OutboxBytes, ConfigBounded;
    SendAllKeeps(s, Alives(s.cfg, s.targets));
    CountDownKeeps(s.targets);
    var (targets, done) := CountDown(s.targets);
    SetKeeps(s.timers, Timer(now + RefreshInterval(targets), AliveRefresh));
    SetKeeps(s.timers, Timer(now + (100 + Below(NextRand(s.rng), 100)) * MILLISECOND, InitialAlive));
  }

  lemma OnAliveRefreshKeeps(s: DeviceState, now: Nanos)
    requires DeviceInv(s)
    ensures DeviceInv(OnAliveRefresh(s, now))
  {
    hide SendAll, Alives, ByeByes, SetTimer, RefreshInterval, TimersOk, TargetsBounded, OutboxBytes, ConfigBounded;
    SendAllKeeps(s, Alives(s.cfg, s.targets));
    SendAllKeeps(s, ByeByes(s.cfg, s.targets));
    SetKeeps(s.timers, Timer(now + RefreshInterval(s.targets), AliveRefresh));
  }

  lemma {:induction false} FireAllKeeps(s: DeviceState, now: Nanos, kinds: seq<TimerKind>)
    requires DeviceInv(s)
    ensures DeviceInv(FireAll(s, now, kinds))
    decreases |kinds|
  {
    hide DeviceInv, OnInitialAlive, OnAliveRefresh;
    if kinds != [] {
      OnInitialAliveKeeps(s, now);
      OnAliveRefreshKeeps(s, now);
      FireAllKeeps(Fire(s, now, kinds[0]), now, kinds[1..]);
    }
  }

  lemma DrainKeeps(timers: seq<Slot>, now: Nanos)
    requires TimersOk(timers)
    ensures TimersOk(ClearDue(timers, now))
  {
    hide ClearDue, DueKinds, Deadline, OnePerKind;
    DrainMeans(timers, DEVICE_KINDS, now, AliveRefresh);
  }

  lemma NewHolds(uuid: Bytes, location: Bytes, server: Option<Bytes>, bootid: u32, configid: u32, seed: bv32)
    ensures DeviceInv(New(uuid, location, server, bootid, configid, seed))
  {
  }

  lemma AddTargetKeeps(s: DeviceState, t: Target, maxAge: Nanos)
    requires DeviceInv(s)
    ensures DeviceInv(AddTarget(s, t, maxAge).0)
  {
    hide TimersOk, OutboxBytes, ConfigBounded, TargetString, Stored;
    RegisteredIsStored(t);
  }

  lemma RegisteredIsStored(t: Target)
    ensures TargetString(t).Some? ==> Stored(TargetString(t).value)
  {
    hide Dec;
    var text := TargetText(t);
    assert text[1] == 'u' ==> !("urn:" <= text);
  }

  lemma ShutdownKeeps(s: DeviceState, now: Nanos)
    requires DeviceInv(s)
    ensures DeviceInv(Shutdown(s, now))
  {
    hide SendAll, ByeByes, SetTimer, CancelTimer, TimersOk, TargetsBounded, OutboxBytes, ConfigBounded;
    SendAllKeeps(s.(shuttingDown := true), ByeByes(s.cfg, s.targets));
    var t := SetTimer(s.timers, Timer(now, SearchReply));
    SetKeeps(s.timers, Timer(now, SearchReply));
    CancelKeeps(t, AliveRefresh);
    CancelKeeps(CancelTimer(t, AliveRefresh), InitialAlive);
  }

  lemma HandleDatagramKeeps(s: DeviceState, now: Nanos, source: Address, payload: Bytes)
    requires DeviceInv(s)
    ensures DeviceInv(HandleDatagram(s, now, source, payload))
  {
    hide ParseDatagram, SendReplies, NextRand, Below, SetTimer, TimersOk, TargetsBounded, OutboxBytes, ConfigBounded;
    ParsedMx(payload);
    match ParseDatagram(payload)
    case Ok(Search(m)) =>
      SendRepliesKeeps(s.outbox, s.cfg, source, m.st, s.targets);
      SetKeeps(s.timers, Timer(now + Below(NextRand(s.rng), m.mx * 1000) * MILLISECOND, SearchReply));
    case _ =>
  }

  lemma HandleTimeoutKeeps(s: DeviceState, now: Nanos)
    requires DeviceInv(s)
    ensures DeviceInv(HandleTimeout(s, now))
  {
    hide FireAll, ClearDue, DueKinds, TimersOk, TargetsBounded, OutboxBytes, ConfigBounded;
    DrainKeeps(s.timers, now);
    FireAllKeeps(s.(timers := ClearDue(s.timers, now)), now, DueKinds(s.timers, now));
  }

  lemma PollKeeps(s: DeviceState, room: nat)
    requires DeviceInv(s)
    ensures DeviceInv(PollTransmit(s, room).0) && DeviceInv(PollEvent(s).0)
  {
    hide TimersOk, TargetsBounded, ConfigBounded;
  }
}
