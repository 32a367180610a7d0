/** A device and a control point talking to each other: what is advertised stays known until it is withdrawn. */
module Protocol {
  import opened Wrappers
  import opened Text
  import opened Target
  import opened Fields
  import opened Messages
  import opened Timers
  import opened Cache
  import opened DeviceSpec
  import opened DeviceBounds
  import opened Wire
  import DeviceRuns
  import ParserImage
  import CP = ControlPointSpec
  import CPR = ControlPointRuns

  datatype System = System(dev: DeviceState, cp: CP.CpState, now: Nanos)

  datatype Action =
    // the device's timer; its announcements arrive at once
    | DeviceWakes(now: Nanos)
    // any datagram; the replies reach this control point or not
    | DeviceHears(now: Nanos, source: Address, payload: Bytes, heard: bool)
    | EventTaken(now: Nanos)
    | PointWakes(now: Nanos)
    | PointSearches(now: Nanos, mx: nat)
    // a datagram from somebody else
    | PointHears(now: Nanos, payload: Bytes)

  // The device transmits until nothing is pending, through a buffer of `room` octets.
  ghost function Exchange(dev: DeviceState, cp: CP.CpState, now: Nanos, room: nat, heard: bool): (DeviceState,
                          CP.CpState)
    decreases |dev.outbox|
  {
    var (rest, packet) := PollTransmit(dev, room);
    if packet.None? then (dev, cp)
    else Exchange(rest, if heard then CP.HandleDatagram(cp, now, packet.value.payload) else cp, now, room, heard)
  }

  ghost function Step(s: System, a: Action, room: nat): System {
    match a
    case DeviceWakes(now) =>
      var (dev, cp) := Exchange(HandleTimeout(s.dev, now), s.cp, now, room, true);
      System(dev, cp, now)
    case DeviceHears(now, source, payload, heard) =>
      var (dev, cp) := Exchange(HandleDatagram(s.dev, now, source, payload), s.cp, now, room, heard);
      System(dev, cp, now)
    case EventTaken(now) => System(PollEvent(s.dev).0, s.cp, now)
    case PointWakes(now) => System(s.dev, CP.HandleTimeout(s.cp, now), now)
    case PointSearches(now, mx) => System(s.dev, CP.Search(s.cp, mx, now), now)
    case PointHears(now, payload) => System(s.dev, CP.HandleDatagram(s.cp, now, payload), now)
  }

  // ---------- keys and ages ----------

  function KeyFor(cfg: Config, e: AdvertEntry): Bytes {
    CP.KeyOf(MakeUsn(cfg.uuid, ReparseTarget(e.nt)))
  }

  function Keys(cfg: Config, targets: seq<AdvertEntry>): set<Bytes> {
    set i | 0 <= i < |targets| :: KeyFor(cfg, targets[i])
  }

  // The smallest max-age as a listener reads it.
  function Whole(targets: seq<AdvertEntry>): Nanos {
    OnWire(if targets == [] then DEFAULT_MAX_AGE else MinMaxAge(targets))
  }

  // The longest pause between two rounds.
  function Gap(targets: seq<AdvertEntry>): Nanos {
    var burst := 199 * MILLISECOND;
    if RefreshInterval(targets) <= burst then burst else RefreshInterval(targets)
  }

  predicate AgesOk(targets: seq<AdvertEntry>) {
    forall i | 0 <= i < |targets| :: SECOND <= targets[i].maxAge < 0x1_0000_0000 * SECOND
  }

  lemma OnWireMonotone(a: Nanos, b: Nanos)
    requires a <= b < 0x1_0000_0000 * SECOND
    ensures OnWire(a) <= OnWire(b) && OnWire(a) <= a < OnWire(a) + SECOND
  {
    assert a / SECOND <= b / SECOND < 0x1_0000_0000;
  }

  lemma AgesOnWire(targets: seq<AdvertEntry>)
    requires AgesOk(targets)
    ensures forall i | 0 <= i < |targets| :: Whole(targets) <= OnWire(targets[i].maxAge)
  {
    hide OnWire;
    forall i | 0 <= i < |targets|
      ensures Whole(targets) <= OnWire(targets[i].maxAge)
    {
      OnWireMonotone(MinMaxAge(targets), targets[i].maxAge);
    }
  }

  /** Ages of at least one second leave some slack: refreshing at half the smallest stays below its whole seconds. */
  lemma SlackIsPositive(targets: seq<AdvertEntry>)
    requires AgesOk(targets)
    ensures Gap(targets) < Whole(targets)
  {
    hide OnWire, MinMaxAge;
    var age := if targets == [] then DEFAULT_MAX_AGE else MinMaxAge(targets);
    OnWireMonotone(age, age);
    OnWireMonotone(SECOND, age);
    assert OnWire(SECOND) == SECOND by { OneSecond(); }
  }

  lemma OneSecond()
    ensures OnWire(SECOND) == SECOND
  {
  }

  // Only the counters of the initial burst change during a run.
  ghost predicate SameAds(a: seq<AdvertEntry>, b: seq<AdvertEntry>) {
    |a| == |b| && forall i | 0 <= i < |a| :: a[i].nt == b[i].nt && a[i].maxAge == b[i].maxAge
  }

  lemma {:induction false} SameMinimum(a: seq<AdvertEntry>, b: seq<AdvertEntry>)
    requires SameAds(a, b) && a != []
    ensures MinMaxAge(a) == MinMaxAge(b)
  {
    if |a| > 1 {
      SameMinimum(a[1..], b[1..]);
    }
  }

  lemma SameAdsSameWorld(cfg: Config, a: seq<AdvertEntry>, b: seq<AdvertEntry>)
    requires SameAds(a, b)
    ensures Keys(cfg, a) == Keys(cfg, b) && Gap(a) == Gap(b) && Whole(a) == Whole(b)
    ensures AgesOk(a) <==> AgesOk(b)
    ensures TargetsOk(a) <==> TargetsOk(b)
  {
    hide MinMaxAge, OnWire, CP.KeyOf, MakeUsn, ReparseTarget, CleanText;
    if a != [] {
      SameMinimum(a, b);
    }
    assert forall i | 0 <= i < |a| :: KeyFor(cfg, a[i]) == KeyFor(cfg, b[i]);
  }

  // ---------- what the device's datagrams tell ----------

  lemma AliveTells(cfg: Config, e: AdvertEntry)
    requires ConfigOk(cfg) && CleanText(e.nt)
    ensures CP.TidingsOf(NotifyText(AliveFor(cfg, e))) == CP.Announce(KeyFor(cfg, e), cfg.location, OnWire(e.maxAge))
    ensures CP.TidingsOf(NotifyText(ByeByeFor(cfg, e))) == CP.Depart(KeyFor(cfg, e))
  {
    hide ParseDatagram, UuidOk, LocationOk, OptClean, CleanText, CP.KeyOf, NotifyText, ReparseTarget, MakeUsn, OnWire;
    AliveOnWire(cfg, e);
    ByeByeOnWire(cfg, e);
  }

  lemma ReplyTells(cfg: Config, e: AdvertEntry, search: Target)
    requires ConfigOk(cfg) && CleanText(e.nt) && TargetOk(search)
    ensures var t := CP.TidingsOf(ResponseText(ReplyFor(cfg, e, search)));
            t.Announce? && t.location == cfg.location && t.maxAge == OnWire(e.maxAge)
  {
    hide ParseDatagram, ConfigOk, CleanText, CP.KeyOf, ResponseText, ReparseTarget, MakeUsn, OnWire, TargetOk,
         ResponseTarget;
    ReplyOnWire(cfg, e, search);
  }

  // News that neither withdraws one of `keys`, nor promises it less than `w`, nor puts it outside `places`.
  ghost predicate Harmless(t: CP.Tidings, keys: set<Bytes>, places: iset<Bytes>, w: Nanos) {
    match t
    case Announce(key, location, maxAge) => key in keys ==> maxAge >= w && location in places
    case Depart(key) => key !in keys
    case Nothing => true
  }

  // Every key is cached beyond `until`, at one of `places`.
  ghost predicate Held(m: Entries, keys: set<Bytes>, places: iset<Bytes>, until: Nanos) {
    forall k <- keys :: k in m && m[k].expiresAt > until && m[k].location in places
  }

  lemma HearHarmless(cp: CP.CpState, now: Nanos, t: CP.Tidings, keys: set<Bytes>, places: iset<Bytes>, w: Nanos,
                     until: Nanos)
    requires CP.CpInv(cp) && Held(cp.cache, keys, places, until) && Harmless(t, keys, places, w) && now + w > until
    ensures CP.CpInv(CP.Hear(cp, now, t)) && Held(CP.Hear(cp, now, t).cache, keys, places, until)
  {
    hide CP.CpInv, NextExpiry;
    CP.HearKeeps(cp, now, t);
    if t.Announce? {
      CP.RescheduleKeeps(cp.(cache := InsertEntry(cp.cache, t.key, t.location, t.maxAge, now)), now) by {
        InsertKeepsCp(cp, t.key, t.location, t.maxAge, now);
      }
    }
  }

  lemma InsertKeepsCp(cp: CP.CpState, key: Bytes, location: Bytes, maxAge: Nanos, now: Nanos)
    requires CP.CpInv(cp)
    ensures CP.CpInv(cp.(cache := InsertEntry(cp.cache, key, location, maxAge, now)))
  {
    hide CP.CpTimersOk, TableOk, InsertEntry;
    InsertKeepsTable(cp.cache, key, location, maxAge, now);
  }

  // A cut datagram says something else; these all arrive whole.
  ghost predicate Quiet(q: seq<Packet>, keys: set<Bytes>, places: iset<Bytes>, w: Nanos, room: nat) {
    forall p <- q :: |p.payload| <= room && Harmless(CP.TidingsOf(p.payload), keys, places, w)
  }

  lemma {:induction false} ExchangeHarmless(dev: DeviceState, cp: CP.CpState, now: Nanos, room: nat, heard: bool,
                                            keys: set<Bytes>, places: iset<Bytes>, w: Nanos, until: Nanos)
    requires CP.CpInv(cp) && Held(cp.cache, keys, places, until) && Quiet(dev.outbox, keys, places, w, room)
      && now + w > until
    ensures var (d, c) := Exchange(dev, cp, now, room, heard);
            d == dev.(outbox := []) && CP.CpInv(c) && Held(c.cache, keys, places, until)
    decreases |dev.outbox|
  {
    hide CP.CpInv, Held, CP.Hear, CP.TidingsOf, Harmless;
    if dev.outbox != [] {
      var n := |dev.outbox|;
      var p := dev.outbox[n - 1];
      HearHarmless(cp, now, CP.TidingsOf(p.payload), keys, places, w, until);
      var next := if heard then CP.HandleDatagram(cp, now, p.payload) else cp;
      ExchangeHarmless(dev.(outbox := dev.outbox[..n - 1]), next, now, room, heard, keys, places, w, until);
    }
  }

  // ---------- a round of announcements ----------

  // Every target is cached already, or there is room for all of them.
  predicate Room(m: Entries, cfg: Config, targets: seq<AdvertEntry>) {
    Keys(cfg, targets) <= m.Keys || |m| + |targets| <= CACHE_CAP
  }

  lemma AliveHeard(cp: CP.CpState, now: Nanos, cfg: Config, e: AdvertEntry, before: seq<AdvertEntry>,
                   keys: set<Bytes>, places: iset<Bytes>, until: Nanos)
    requires CP.CpInv(cp) && Held(cp.cache, keys, places, until) && now + OnWire(e.maxAge) > until
    requires Room(cp.cache, cfg, before + [e]) && |cfg.location| <= MAX_LOCATION_LEN && cfg.location in places
    ensures var c := CP.Hear(cp, now, CP.Announce(KeyFor(cfg, e), cfg.location, OnWire(e.maxAge)));
            CP.CpInv(c) && Held(c.cache, keys + {KeyFor(cfg, e)}, places, until) && Room(c.cache, cfg, before)
  {
    hide CP.CpInv, NextExpiry, CP.KeyOf, OnWire, MakeUsn, ReparseTarget, SetTimer, Room, CP.Reschedule;
    var key := KeyFor(cfg, e);
    var t := CP.Announce(key, cfg.location, OnWire(e.maxAge));
    CP.HearKeeps(cp, now, t);
    InsertKeepsCp(cp, key, cfg.location, OnWire(e.maxAge), now);
    CP.RescheduleKeeps(cp.(cache := InsertEntry(cp.cache, key, cfg.location, OnWire(e.maxAge), now)), now);
    CP.KeyIsText(MakeUsn(cfg.uuid, ReparseTarget(e.nt)));
    var entry := CacheEntry(cfg.location, key, now + OnWire(e.maxAge));
    RoomAfter(cp.cache, cfg, before, e, entry);
    assert CP.Hear(cp, now, t).cache == cp.cache[key := entry];
  }

  lemma RoomAfter(m: Entries, cfg: Config, before: seq<AdvertEntry>, e: AdvertEntry, entry: CacheEntry)
    requires Room(m, cfg, before + [e])
    ensures Room(m[KeyFor(cfg, e) := entry], cfg, before)
    ensures KeyFor(cfg, e) in m || |m| < CACHE_CAP
  {
    hide KeyFor, Keys;
    KeysOfOneMore(cfg, before, e);
    var r := m[KeyFor(cfg, e) := entry];
    assert r.Keys == m.Keys + {KeyFor(cfg, e)};
  }

  lemma KeysOfOneMore(cfg: Config, before: seq<AdvertEntry>, e: AdvertEntry)
    ensures Keys(cfg, before + [e]) == Keys(cfg, before) + {KeyFor(cfg, e)}
  {
    hide KeyFor;
    var all := before + [e];
    assert forall i | 0 <= i < |before| :: all[i] == before[i];
    assert all[|before|] == e;
  }

  /** Hearing a whole round, in the order it leaves the device, files every target for its full age. */
  lemma {:induction false} RoundHeard(dev: DeviceState, cp: CP.CpState, now: Nanos, room: nat,
                                      targets: seq<AdvertEntry>, keys: set<Bytes>, places: iset<Bytes>, until: Nanos)
    requires dev.outbox == Packets(Alives(dev.cfg, targets)) && room >= STAGING_LEN && dev.cfg.location in places
    requires CP.CpInv(cp) && ConfigOk(dev.cfg) && ConfigBounded(dev.cfg) && TargetsOk(targets)
    requires forall i | 0 <= i < |targets| :: Stored(targets[i].nt) && now + OnWire(targets[i].maxAge) > until
    requires Held(cp.cache, keys, places, until) && Room(cp.cache, dev.cfg, targets)
    ensures var (d, c) := Exchange(dev, cp, now, room, true);
            d == dev.(outbox := []) && CP.CpInv(c) && Held(c.cache, keys + Keys(dev.cfg, targets), places, until)
    decreases |targets|
  {
    hide CP.CpInv, Held, CP.Hear, CP.TidingsOf, NotifyText, AliveFor, ConfigOk, ConfigBounded, CleanText, OnWire,
         Room, KeyFor, Stored;
    var n := |targets|;
    if n == 0 {
      assert keys + Keys(dev.cfg, targets) == keys;
    } else {
      var e, before := targets[n - 1], targets[..n - 1];
      assert targets == before + [e];
      var p := Packet(MulticastV4, NotifyText(AliveFor(dev.cfg, e)));
      assert dev.outbox[n - 1] == p;
      AliveBytes(dev.cfg, e);
      AliveTells(dev.cfg, e);
      LocationBounded(dev.cfg);
      AliveHeard(cp, now, dev.cfg, e, before, keys, places, until);
      var rest := dev.(outbox := dev.outbox[..n - 1]);
      assert rest.outbox == Packets(Alives(dev.cfg, before));
      RoundHeard(rest, CP.HandleDatagram(cp, now, p.payload), now, room, before,
                 keys + {KeyFor(dev.cfg, e)}, places, until);
      KeysOfOneMore(dev.cfg, before, e);
      assert keys + {KeyFor(dev.cfg, e)} + Keys(dev.cfg, before) == keys + Keys(dev.cfg, targets);
    }
  }

  lemma LocationBounded(cfg: Config)
    requires ConfigBounded(cfg)
    ensures |cfg.location| <= MAX_LOCATION_LEN
  {
  }

  // ---------- the invariant ----------

  // When the next round is due.
  function NextRound(dev: DeviceState): Option<Nanos> {
    if DeviceRuns.InitialPending(dev) then Deadline(dev.timers, InitialAlive) else Deadline(dev.timers, AliveRefresh)
  }

  // The targets a round from an empty queue announces; those that find no place are reported and skipped.
  function Announced(dev: DeviceState): seq<AdvertEntry> {
    Placed(dev.cfg, [], dev.targets)
  }

  function AnnouncedKeys(dev: DeviceState): set<Bytes> {
    Keys(dev.cfg, Announced(dev))
  }

  lemma {:induction false} SamePlaced(cfg: Config, q: seq<Packet>, a: seq<AdvertEntry>, b: seq<AdvertEntry>)
    requires SameAds(a, b)
    ensures SameAds(Placed(cfg, q, a), Placed(cfg, q, b))
    decreases |a|
  {
    hide NotifyText, OutboxBytes, MakeUsn, ReparseTarget;
    if a != [] {
      var p := Packet(MulticastV4, NotifyText(AliveFor(cfg, a[0])));
      assert AliveFor(cfg, a[0]) == AliveFor(cfg, b[0]);
      SamePlaced(cfg, q, a[1..], b[1..]);
      SamePlaced(cfg, q + [p], a[1..], b[1..]);
    }
  }

  lemma SameAnnounced(a: DeviceState, b: DeviceState)
    requires a.cfg == b.cfg && SameAds(a.targets, b.targets)
    ensures SameAds(Announced(a), Announced(b)) && AnnouncedKeys(a) == AnnouncedKeys(b)
  {
    hide SameAds, Keys;
    SamePlaced(a.cfg, [], a.targets, b.targets);
    SameAdsSameWorld(a.cfg, Announced(a), Announced(b));
  }

  // A live device with nothing pending, woken no more than `late` after its deadlines.
  ghost predicate Serving(dev: DeviceState, late: Nanos) {
    && DeviceInv(dev) && ConfigOk(dev.cfg) && TargetsOk(dev.targets) && AgesOk(dev.targets)
    && dev.outbox == [] && !dev.shuttingDown
    && (DeviceRuns.InitialPending(dev) <==> !DeviceRuns.RefreshPending(dev))
    && Gap(dev.targets) + late < Whole(dev.targets)
  }

  lemma RoundPending(dev: DeviceState)
    requires DeviceRuns.InitialPending(dev) <==> !DeviceRuns.RefreshPending(dev)
    ensures NextRound(dev).Some?
  {
    hide Deadline;
  }

  ghost predicate Covered(s: System, places: iset<Bytes>, late: Nanos) {
    && Serving(s.dev, late) && CP.CpInv(s.cp) && s.dev.cfg.location in places
    && var due := NextRound(s.dev).value;
       s.now <= due + late && due <= s.now + Gap(s.dev.targets)
       && Held(s.cp.cache, AnnouncedKeys(s.dev), places, due + late)
  }

  // Time moves on, but not past a deadline by more than `late`; strangers do not speak for the device.
  ghost predicate Fair(s: System, a: Action, places: iset<Bytes>, late: Nanos) {
    && Serving(s.dev, late)
    && s.now <= a.now <= NextRound(s.dev).value + late
    && (a.PointHears? ==> Harmless(CP.TidingsOf(a.payload), AnnouncedKeys(s.dev), places, Whole(s.dev.targets)))
  }

  // ---------- the device's steps ----------

  ghost predicate RoundDue(dev: DeviceState, now: Nanos) {
    DeviceRuns.DueNow(dev, InitialAlive, now) || DeviceRuns.DueNow(dev, AliveRefresh, now)
  }

  lemma InvParts(dev: DeviceState)
    requires DeviceInv(dev)
    ensures TimersOk(dev.timers) && TargetsBounded(dev.targets) && ConfigBounded(dev.cfg)
    ensures forall i | 0 <= i < |dev.targets| :: Stored(dev.targets[i].nt)
  {
  }

  lemma CountDownSameAds(targets: seq<AdvertEntry>)
    ensures SameAds(CountDown(targets).0, targets)
  {
    hide CountDown;
  }

  lemma SameAdsSelf(targets: seq<AdvertEntry>)
    ensures SameAds(targets, targets)
  {
  }

  // A due round queues every announcement and names the next deadline.
  lemma RoundSends(dev: DeviceState, late: Nanos, now: Nanos)
    requires Serving(dev, late) && RoundDue(dev, now)
    ensures var r := HandleTimeout(dev, now);
            && r.outbox == Packets(Alives(dev.cfg, Announced(dev))) && r.cfg == dev.cfg && !r.shuttingDown
            && SameAds(r.targets, dev.targets)
            && (DeviceRuns.InitialPending(r) <==> !DeviceRuns.RefreshPending(r))
            && now <= NextRound(r).value <= now + Gap(dev.targets)
  {
    hide HandleTimeout, SendAll, Alives, CountDown, NextRand, Below, SetTimer, ClearDue, Deadline, DeviceInv,
         TimersOk, TextBytes,
         ConfigOk, TargetsOk, Whole, MinMaxAge, Announced, SameAds, Packets;
    InvParts(dev);
    DeviceRuns.TimeoutIs(dev, now);
    var c := DeviceRuns.Drained(dev, now);
    RoundQueues(dev, c);
    CountDownSameAds(dev.targets);
    SameAdsSelf(dev.targets);
    var (targets, done) := CountDown(dev.targets);
    SameAdsSameWorld(dev.cfg, targets, dev.targets);
    var interval := RefreshInterval(targets);
    SameInterval(targets, dev.targets);
    var fireAt := now + (100 + Below(NextRand(dev.rng), 100)) * MILLISECOND;
    SetKeeps(c.timers, Timer(now + RefreshInterval(dev.targets), AliveRefresh));
    SetKeeps(c.timers, Timer(fireAt, InitialAlive));
  }

  lemma SameInterval(a: seq<AdvertEntry>, b: seq<AdvertEntry>)
    requires SameAds(a, b)
    ensures RefreshInterval(a) == RefreshInterval(b)
  {
    hide MinMaxAge;
    if a != [] {
      SameMinimum(a, b);
    }
  }

  lemma RoundQueues(dev: DeviceState, c: DeviceState)
    requires DeviceInv(dev) && dev.outbox == [] && c == dev.(timers := c.timers)
    ensures SendAll(c, Alives(dev.cfg, dev.targets)).outbox == Packets(Alives(dev.cfg, Announced(dev)))
  {
    hide NotifyText, AliveFor, Placed, SendAll, TimersOk;
    PlacedAreSent(c, dev.targets);
    assert [] + Packets(Alives(dev.cfg, Announced(dev))) == Packets(Alives(dev.cfg, Announced(dev)));
  }

  lemma EmptiedInv(dev: DeviceState)
    requires DeviceInv(dev)
    ensures DeviceInv(dev.(outbox := []))
  {
    hide TimersOk, TargetsBounded;
  }

  lemma WakeKeeps(s: System, places: iset<Bytes>, late: Nanos, now: Nanos, room: nat)
    requires Serving(s.dev, late) && CP.CpInv(s.cp) && RoundDue(s.dev, now) && room >= STAGING_LEN
    requires Room(s.cp.cache, s.dev.cfg, Announced(s.dev)) && s.dev.cfg.location in places
    ensures Covered(Step(s, DeviceWakes(now), room), places, late)
    ensures var d := Step(s, DeviceWakes(now), room).dev; d.cfg == s.dev.cfg && SameAds(d.targets, s.dev.targets)
  {
    hide HandleTimeout, Exchange, Alives, Deadline, DeviceInv, TextBytes, CP.CpInv, ConfigOk, TargetsOk, Whole, Gap,
         Keys, Announced, Room, Held, RoundDue, DeviceRuns.InitialPending, DeviceRuns.RefreshPending, AgesOk, SameAds;
    var dev := s.dev;
    var woken := HandleTimeout(dev, now);
    RoundSends(dev, late, now);
    HandleTimeoutKeeps(dev, now);
    EmptiedInv(woken);
    InvParts(dev);
    var until := now + Gap(dev.targets) + late;
    assert Held(s.cp.cache, {}, places, until) by { HeldNothing(s.cp.cache, places, until); }
    AnnouncedOk(dev);
    RoundHeard(woken, s.cp, now, room, Announced(dev), {}, places, until);
    assert {} + AnnouncedKeys(dev) == AnnouncedKeys(dev);
    SameAdsSameWorld(dev.cfg, woken.targets, dev.targets);
    var r := Step(s, DeviceWakes(now), room);
    assert r.dev == woken.(outbox := []);
    SameDeadlines(woken);
    RoundPending(r.dev);
    SameAnnounced(r.dev, dev);
    HeldSooner(r.cp.cache, AnnouncedKeys(dev), places, until, NextRound(r.dev).value + late);
  }

  // What holds of every target holds of those announced.
  lemma AnnouncedOk(dev: DeviceState)
    requires TargetsOk(dev.targets) && AgesOk(dev.targets)
    requires forall i | 0 <= i < |dev.targets| :: Stored(dev.targets[i].nt)
    ensures var heard := Announced(dev);
            && TargetsOk(heard)
            && forall i | 0 <= i < |heard| :: Stored(heard[i].nt) && Whole(dev.targets) <= OnWire(heard[i].maxAge)
  {
    hide CleanText, Placed, Stored, OnWire, MinMaxAge;
    AgesOnWire(dev.targets);
    PlacedAmong(dev.cfg, [], dev.targets);
    var heard := Announced(dev);
    forall i | 0 <= i < |heard|
      ensures CleanText(heard[i].nt) && Stored(heard[i].nt) && Whole(dev.targets) <= OnWire(heard[i].maxAge)
    {
      assert heard[i] in dev.targets;
    }
  }

  lemma HeldNothing(m: Entries, places: iset<Bytes>, until: Nanos)
    ensures Held(m, {}, places, until)
  {
  }

  lemma HeldSooner(m: Entries, keys: set<Bytes>, places: iset<Bytes>, until: Nanos, sooner: Nanos)
    requires Held(m, keys, places, until) && sooner <= until
    ensures Held(m, keys, places, sooner)
  {
  }

  lemma SameDeadlines(dev: DeviceState)
    ensures NextRound(dev.(outbox := [])) == NextRound(dev)
    ensures DeviceRuns.InitialPending(dev.(outbox := [])) == DeviceRuns.InitialPending(dev)
    ensures DeviceRuns.RefreshPending(dev.(outbox := [])) == DeviceRuns.RefreshPending(dev)
  {
    hide Deadline;
  }

  lemma HeldRoom(m: Entries, cfg: Config, targets: seq<AdvertEntry>, places: iset<Bytes>, until: Nanos)
    requires Held(m, Keys(cfg, targets), places, until)
    ensures Room(m, cfg, targets)
  {
    hide KeyFor;
  }

  // A wake-up between rounds changes nothing that matters.
  lemma EarlyWake(dev: DeviceState, late: Nanos, now: Nanos)
    requires Serving(dev, late) && !RoundDue(dev, now)
    ensures var r := HandleTimeout(dev, now);
            r == dev.(timers := r.timers) && DeviceInv(r) && NextRound(r) == NextRound(dev)
            && (DeviceRuns.InitialPending(r) <==> !DeviceRuns.RefreshPending(r))
  {
    hide HandleTimeout, ClearDue, Deadline, DeviceInv, TimersOk, TextBytes, ConfigOk, TargetsOk, Whole, Gap, Alives,
         AgesOk;
    InvParts(dev);
    DeviceRuns.TimeoutIs(dev, now);
    HandleTimeoutKeeps(dev, now);
  }

  // ---------- answers to searches ----------

  lemma {:induction false} RepliesAreQuiet(q: seq<Packet>, cfg: Config, source: Address, search: Target,
                                           entries: seq<AdvertEntry>,
                                           keys: set<Bytes>, places: iset<Bytes>, w: Nanos, room: nat)
    requires cfg.location in places && ConfigOk(cfg) && TargetsOk(entries) && TargetOk(search) && room >= STAGING_LEN
    requires forall i | 0 <= i < |entries| :: w <= OnWire(entries[i].maxAge)
    requires Quiet(q, keys, places, w, room)
    ensures Quiet(SendReplies(q, cfg, source, search, entries), keys, places, w, room)
    decreases |entries|
  {
    hide ResponseText, CP.TidingsOf, ConfigOk, CleanText, TargetOk, OutboxBytes, TargetMatches, ReplyFor,
         ReparseTarget, OnWire;
    if entries != [] {
      ReplyTells(cfg, entries[0], search);
      var p := Packet(Unicast(source), ResponseText(ReplyFor(cfg, entries[0], search)));
      RepliesAreQuiet(q, cfg, source, search, entries[1..], keys, places, w, room);
      if |p.payload| <= STAGING_LEN {
        RepliesAreQuiet(q + [p], cfg, source, search, entries[1..], keys, places, w, room);
      }
    }
  }

  lemma SearchIsQuiet(dev: DeviceState, late: Nanos, now: Nanos, source: Address, payload: Bytes,
                      keys: set<Bytes>, places: iset<Bytes>, room: nat)
    requires dev.cfg.location in places && Serving(dev, late) && room >= STAGING_LEN
    ensures var r := HandleDatagram(dev, now, source, payload);
            && Quiet(r.outbox, keys, places, Whole(dev.targets), room) && DeviceInv(r)
            && r.cfg == dev.cfg && r.targets == dev.targets && !r.shuttingDown
            && NextRound(r) == NextRound(dev)
            && (DeviceRuns.InitialPending(r) <==> !DeviceRuns.RefreshPending(r))
  {
    hide ParseDatagram, SendReplies, ConfigOk, TargetsOk, NextRand, Below, SetTimer, CleanText, TargetOk, DeviceInv,
         TimersOk,
         WellFormedNotify, WellFormedResponse, Deadline, Whole, AgesOk, TextBytes, Alives, Gap, Quiet;
    InvParts(dev);
    HandleDatagramKeeps(dev, now, source, payload);
    ParserImage.ParsedIsWellFormed(payload);
    ParsedMx(payload);
    AgesOnWire(dev.targets);
    assert Quiet([], keys, places, Whole(dev.targets), room) by {
      NothingIsQuiet(keys, places, Whole(dev.targets), room);
    }
    match ParseDatagram(payload)
    case Ok(Search(m)) =>
      RepliesAreQuiet([], dev.cfg, source, m.st, dev.targets, keys, places, Whole(dev.targets), room);
      SetKeeps(dev.timers, Timer(now + Below(NextRand(dev.rng), m.mx * 1000) * MILLISECOND, SearchReply));
    case _ =>
  }

  lemma NothingIsQuiet(keys: set<Bytes>, places: iset<Bytes>, w: Nanos, room: nat)
    ensures Quiet([], keys, places, w, room)
  {
  }

  lemma HearsKeeps(s: System, places: iset<Bytes>, late: Nanos, a: Action, room: nat)
    requires Covered(s, places, late) && Fair(s, a, places, late) && a.DeviceHears? && room >= STAGING_LEN
    ensures Covered(Step(s, a, room), places, late)
    ensures var d := Step(s, a, room).dev; d.cfg == s.dev.cfg && SameAds(d.targets, s.dev.targets)
  {
    hide HandleDatagram, Exchange, Alives, DeviceInv, TextBytes, CP.CpInv, ConfigOk, TargetsOk, Whole, Gap, Keys,
         Held, Quiet, AgesOk, DeviceRuns.InitialPending, DeviceRuns.RefreshPending, NextRound, SameAds,
         Announced, AnnouncedKeys, Harmless;
    SameAdsSelf(s.dev.targets);
    var keys := AnnouncedKeys(s.dev);
    RoundPending(s.dev);
    var asked := HandleDatagram(s.dev, a.now, a.source, a.payload);
    SearchIsQuiet(s.dev, late, a.now, a.source, a.payload, keys, places, room);
    var until := NextRound(s.dev).value + late;
    ExchangeHarmless(asked, s.cp, a.now, room, a.heard, keys, places, Whole(s.dev.targets), until);
    EmptiedInv(asked);
    SameDeadlines(asked);
    SameAnnounced(Step(s, a, room).dev, s.dev);
  }

  // ---------- the control point's steps ----------

  lemma ExpiryKeepsHeld(cp: CP.CpState, now: Nanos, keys: set<Bytes>, places: iset<Bytes>, until: Nanos)
    requires CP.CpInv(cp) && Held(cp.cache, keys, places, until) && now <= until
    ensures CP.CpInv(CP.HandleTimeout(cp, now)) && Held(CP.HandleTimeout(cp, now).cache, keys, places, until)
  {
    hide CP.CpInv, CP.HandleTimeout, NextExpiry;
    CP.TimeoutIs(cp, now);
  }

  /** Every fair step of the two machines together keeps every advertised service cached past the next round. */
  lemma StepKeeps(s: System, a: Action, places: iset<Bytes>, late: Nanos, room: nat)
    requires Covered(s, places, late) && Fair(s, a, places, late) && room >= STAGING_LEN
    ensures Covered(Step(s, a, room), places, late)
    ensures var d := Step(s, a, room).dev; d.cfg == s.dev.cfg && SameAds(d.targets, s.dev.targets)
  {
    hide HandleTimeout, HandleDatagram, Exchange, Alives, DeviceInv, TextBytes, CP.CpInv, ConfigOk, TargetsOk, Whole,
         Gap, Keys, Held,
         AgesOk, DeviceRuns.InitialPending, DeviceRuns.RefreshPending, NextRound, CP.HandleTimeout, CP.Hear,
         CP.Search, RoundDue, Room,
         Harmless, CP.TidingsOf;
    RoundPending(s.dev);
    var keys, until := AnnouncedKeys(s.dev), NextRound(s.dev).value + late;
    match a
    case DeviceWakes(now) =>
      if RoundDue(s.dev, now) {
        HeldRoom(s.cp.cache, s.dev.cfg, Announced(s.dev), places, until);
        WakeKeeps(s, places, late, now, room);
      } else {
        EarlyWake(s.dev, late, now);
        NothingToExchange(HandleTimeout(s.dev, now), s.cp, now, room);
      }
    case DeviceHears(_, _, _, _) => HearsKeeps(s, places, late, a, room);
    case EventTaken(now) =>
      PollKeeps(s.dev, 0);
      PollSame(s.dev);
    case PointWakes(now) => ExpiryKeepsHeld(s.cp, now, keys, places, until);
    case PointSearches(now, mx) => CP.SearchKeeps(s.cp, mx, now);
    case PointHears(now, payload) =>
      HearHarmless(s.cp, now, CP.TidingsOf(payload), keys, places, Whole(s.dev.targets), until);
  }

  lemma NothingToExchange(dev: DeviceState, cp: CP.CpState, now: Nanos, room: nat)
    requires dev.outbox == []
    ensures Exchange(dev, cp, now, room, true) == (dev, cp)
  {
  }

  lemma PollSame(dev: DeviceState)
    ensures var r := PollEvent(dev).0;
            r == dev.(events := r.events) && NextRound(r) == NextRound(dev)
            && DeviceRuns.InitialPending(r) == DeviceRuns.InitialPending(dev)
            && DeviceRuns.RefreshPending(r) == DeviceRuns.RefreshPending(dev)
  {
    hide Deadline;
  }

  // ---------- whole runs ----------

  ghost function Run(s: System, actions: seq<Action>, room: nat): System
    decreases |actions|
  {
    if actions == [] then s else Run(Step(s, actions[0], room), actions[1..], room)
  }

  ghost predicate AllFair(s: System, actions: seq<Action>, places: iset<Bytes>, late: Nanos, room: nat)
    decreases |actions|
  {
    actions == [] ||
    (Fair(s, actions[0], places, late) && AllFair(Step(s, actions[0], room), actions[1..], places, late, room))
  }

  lemma {:induction false} RunKeeps(s: System, actions: seq<Action>, places: iset<Bytes>, late: Nanos, room: nat)
    requires Covered(s, places, late) && AllFair(s, actions, places, late, room) && room >= STAGING_LEN
    ensures Covered(Run(s, actions, room), places, late)
    ensures var d := Run(s, actions, room).dev; d.cfg == s.dev.cfg && SameAds(d.targets, s.dev.targets)
    decreases |actions|
  {
    hide Covered, Fair, Step;
    if actions != [] {
      StepKeeps(s, actions[0], places, late, room);
      RunKeeps(Step(s, actions[0], room), actions[1..], places, late, room);
    }
  }

  lemma CoveredMeans(s: System, places: iset<Bytes>, late: Nanos)
    requires Covered(s, places, late)
    ensures Held(s.cp.cache, AnnouncedKeys(s.dev), places, s.now)
  {
    hide DeviceInv, Keys, Gap, Whole, CP.CpInv;
  }

  /**
   * No announced service ever expires. Take any device that has been configured, registered and started,
   * and any control point with room for the targets it announces. From the device's first round on, however
   * its announcements, searches, foreign datagrams, early and late wake-ups interleave, every target that
   * finds a place in a round is in the control point's cache and has not expired, as long as nothing happens
   * more than `late` past a deadline and the longest gap between rounds plus `late` stays below the smallest
   * whole-second max-age. It is cached under the device's own location, when strangers announce no other.
   */
  lemma NoServiceExpires(
      s: DeviceState, uuid: Bytes, location: Bytes, server: Option<Bytes>, bootid: u32, configid: u32, seed: bv32,
      inputs: seq<DeviceRuns.Input>, heard: seq<CPR.Input>, first: Nanos, actions: seq<Action>,
      places: iset<Bytes>, late: Nanos, room: nat)
    requires s == New(uuid, location, server, bootid, configid, seed) && ConfigOk(s.cfg)
    requires DeviceRuns.Legal(DeviceRuns.Idle, inputs)
    requires DeviceRuns.PhaseAfter(DeviceRuns.Idle, inputs) == DeviceRuns.Live
    requires forall i <- inputs :: DeviceRuns.Tame(i) && !i.DoShutdown?
    requires var dev := DeviceRuns.Run(s, inputs);
             && dev.outbox == [] && AgesOk(dev.targets) && Gap(dev.targets) + late < Whole(dev.targets)
             && RoundDue(dev, first)
             && |CPR.Run(CP.NewCp(), heard).cache| + |Announced(dev)| <= CACHE_CAP && dev.cfg.location in places
    requires room >= STAGING_LEN
    requires var start := System(DeviceRuns.Run(s, inputs), CPR.Run(CP.NewCp(), heard), first);
             AllFair(Step(start, DeviceWakes(first), room), actions, places, late, room)
    ensures var dev, cp := DeviceRuns.Run(s, inputs), CPR.Run(CP.NewCp(), heard);
            var end := Run(System(dev, cp, first), [DeviceWakes(first)] + actions, room);
            forall e <- Announced(dev) ::
              var key := KeyFor(dev.cfg, e);
              && key in end.cp.cache && end.cp.cache[key].expiresAt > end.now
              && end.cp.cache[key].location in places
  {
    hide Covered, Fair, Step, DeviceRuns.Run, DeviceRuns.Legal, DeviceRuns.PhaseAfter, CPR.Run, Gap, Whole, Alives,
         TextBytes, AgesOk, RoundDue,
         KeyFor, DeviceRuns.PhaseInv, ConfigOk, New, AllFair, DeviceRuns.Rounds, CP.NewCp, CP.CpInv, DeviceRuns.Tame;
    var dev, cp := DeviceRuns.Run(s, inputs), CPR.Run(CP.NewCp(), heard);
    var start := System(dev, cp, first);
    Started(s, uuid, location, server, bootid, configid, seed, inputs);
    CPR.RunKeepsInv(heard);
    WakeKeeps(start, places, late, first, room);
    var awake := Step(start, DeviceWakes(first), room);
    RunKeeps(awake, actions, places, late, room);
    assert ([DeviceWakes(first)] + actions)[1..] == actions;
    var end := Run(awake, actions, room);
    CoveredMeans(end, places, late);
    SameAdsTransitive(dev.targets, awake.dev.targets, end.dev.targets);
    SameAnnounced(end.dev, dev);
    AnnouncedKey(dev);
  }

  lemma AnnouncedKey(dev: DeviceState)
    ensures forall e <- Announced(dev) :: KeyFor(dev.cfg, e) in AnnouncedKeys(dev)
  {
    hide KeyFor, Announced;
  }

  lemma SameAdsTransitive(a: seq<AdvertEntry>, b: seq<AdvertEntry>, c: seq<AdvertEntry>)
    requires SameAds(b, a) && SameAds(c, b)
    ensures SameAds(c, a)
  {
  }

  // A started device is live, printable and has exactly one announcement timer pending.
  lemma Started(s: DeviceState, uuid: Bytes, location: Bytes, server: Option<Bytes>, bootid: u32, configid: u32,
                seed: bv32, inputs: seq<DeviceRuns.Input>)
    requires s == New(uuid, location, server, bootid, configid, seed) && ConfigOk(s.cfg)
    requires DeviceRuns.Legal(DeviceRuns.Idle, inputs)
    requires DeviceRuns.PhaseAfter(DeviceRuns.Idle, inputs) == DeviceRuns.Live
    requires forall i <- inputs :: DeviceRuns.Tame(i) && !i.DoShutdown?
    ensures var dev := DeviceRuns.Run(s, inputs);
            && DeviceInv(dev) && ConfigOk(dev.cfg) && TargetsOk(dev.targets) && !dev.shuttingDown
            && (DeviceRuns.InitialPending(dev) <==> !DeviceRuns.RefreshPending(dev))
  {
    hide New, DeviceRuns.Run, DeviceRuns.Legal, DeviceRuns.PhaseAfter, DeviceRuns.PhaseInv, ConfigOk, DeviceInv,
         DeviceRuns.InitialPending,
         DeviceRuns.RefreshPending, DeviceRuns.Rounds, DeviceRuns.Tame, DeviceRuns.Sent, DeviceRuns.Says;
    DeviceRuns.LifeCycle(s, uuid, location, server, bootid, configid, seed, inputs);
    DeviceRuns.NewIsIdle(s, uuid, location, server, bootid, configid, seed);
    DeviceRuns.NewIsEmpty(s, uuid, location, server, bootid, configid, seed);
    DeviceRuns.RunSpeaks(DeviceRuns.Idle, s, inputs);
  }

  // ---------- farewell ----------

  lemma NoKeys(cfg: Config)
    ensures Keys(cfg, []) == {}
  {
  }

  lemma MinusTwice(m: Entries, a: set<Bytes>, b: set<Bytes>)
    ensures m - a - b == m - (b + a)
  {
  }

  lemma ExchangeNext(dev: DeviceState, cp: CP.CpState, now: Nanos, room: nat)
    requires dev.outbox != [] && |dev.outbox[|dev.outbox| - 1].payload| <= room
    ensures var n := |dev.outbox|;
            Exchange(dev, cp, now, room, true) ==
              Exchange(dev.(outbox := dev.outbox[..n - 1]),
                       CP.HandleDatagram(cp, now, dev.outbox[n - 1].payload), now, room, true)
  {
    hide CP.HandleDatagram;
  }

  lemma {:induction false} FarewellHeard(dev: DeviceState, cp: CP.CpState, now: Nanos, room: nat,
                                         targets: seq<AdvertEntry>)
    requires dev.outbox == Packets(ByeByes(dev.cfg, targets)) && room >= STAGING_LEN
    requires ConfigOk(dev.cfg) && ConfigBounded(dev.cfg) && TargetsOk(targets)
    requires forall i | 0 <= i < |targets| :: Stored(targets[i].nt)
    ensures var (d, c) := Exchange(dev, cp, now, room, true);
            d == dev.(outbox := []) && c == cp.(cache := cp.cache - Keys(dev.cfg, targets))
    decreases |targets|
  {
    hide CP.TidingsOf, NotifyText, ByeByeFor, ConfigOk, ConfigBounded, CleanText, KeyFor, Stored, Keys, Exchange;
    var n := |targets|;
    if n == 0 {
      assert cp.cache - {} == cp.cache;
      NothingToExchange(dev, cp, now, room);
      NoKeys(dev.cfg);
    } else {
      var e, before := targets[n - 1], targets[..n - 1];
      assert targets == before + [e];
      var p := Packet(MulticastV4, NotifyText(ByeByeFor(dev.cfg, e)));
      assert dev.outbox[n - 1] == p;
      ByeByeBytes(dev.cfg, e);
      AliveTells(dev.cfg, e);
      var rest := dev.(outbox := dev.outbox[..n - 1]);
      assert rest.outbox == Packets(ByeByes(dev.cfg, before));
      var next := CP.HandleDatagram(cp, now, p.payload);
      FarewellHeard(rest, next, now, room, before);
      ExchangeNext(dev, cp, now, room);
      KeysOfOneMore(dev.cfg, before, e);
      MinusTwice(cp.cache, {KeyFor(dev.cfg, e)}, Keys(dev.cfg, before));
    }
  }

  /**
   * Farewell is complete. A device that shuts down with nothing pending, heard to the end, disappears:
   * the control point forgets exactly that device's targets and nothing else.
   */
  lemma FarewellForgets(dev: DeviceState, cp: CP.CpState, now: Nanos, room: nat)
    requires DeviceInv(dev) && ConfigOk(dev.cfg) && TargetsOk(dev.targets) && dev.outbox == [] && room >= STAGING_LEN
    ensures var (d, c) := Exchange(Shutdown(dev, now), cp, now, room, true);
            d.outbox == [] && c == cp.(cache := cp.cache - Keys(dev.cfg, dev.targets))
  {
    hide Exchange, ConfigOk, ByeByes, Packets, Keys, SetTimer, CancelTimer, DeviceInv, TargetsOk, SendAll;
    ShutdownIsComplete(dev, now);
    InvParts(dev);
    var closing := Shutdown(dev, now);
    assert closing.cfg == dev.cfg;
    FarewellHeard(closing, cp, now, room, dev.targets);
  }
}
