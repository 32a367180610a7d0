/** The device that the media server itself announces meets the conditions under which its services never expire. */
module Deployment {
  import opened Wrappers
  import opened Text
  import opened Target
  import opened Fields
  import opened Messages
  import opened DeviceSpec
  import opened DeviceBounds
  import opened Timers
  import opened Wire
  import opened Protocol
  import DeviceRuns
  import DeviceBehaviour
  import CP = ControlPointSpec
  import CPR = ControlPointRuns

  const SERVER_NAME: Bytes := "rusty-castle/0.1 UPnP/1.1"

  function ServerTargets(uuid: Bytes): (ts: seq<Target>)
    ensures |ts| == 5
  {
    [RootDevice, Uuid(uuid), DeviceType("schemas-upnp-org", "MediaServer", 1),
     ServiceType("schemas-upnp-org", "ContentDirectory", 1), ServiceType("schemas-upnp-org", "ConnectionManager", 1)]
  }

  // The five targets as they are stored, each for half an hour.
  ghost predicate ServerDevice(dev: DeviceState) {
    && dev.cfg.server == Some(SERVER_NAME) && |dev.targets| == 5
    && forall i | 0 <= i < 5 ::
         && TargetString(ServerTargets(dev.cfg.uuid)[i]) == Some(dev.targets[i].nt)
         && dev.targets[i].maxAge == 1800 * SECOND
  }

  lemma ServerUrnOk(kind: Bytes, t: Target)
    requires kind == "MediaServer" || kind == "ContentDirectory" || kind == "ConnectionManager"
    requires t == DeviceType("schemas-upnp-org", kind, 1) || t == ServiceType("schemas-upnp-org", kind, 1)
    ensures WellFormedTarget(t) && |TargetText(t)| <= 69
  {
    assert Dec(1) == "1";
  }

  // Every target of the server is well formed and short.
  lemma ServerTargetOk(uuid: Bytes, i: nat)
    requires i < 5 && UuidOk(uuid) && |uuid| <= MAX_UUID_LEN
    ensures var t := ServerTargets(uuid)[i]; WellFormedTarget(t) && |TargetText(t)| <= 69
  {
    hide FindText, CleanText, WellFormedTarget, TargetText;
    match i
    case 2 => ServerUrnOk("MediaServer", ServerTargets(uuid)[i]);
    case 3 => ServerUrnOk("ContentDirectory", ServerTargets(uuid)[i]);
    case 4 => ServerUrnOk("ConnectionManager", ServerTargets(uuid)[i]);
    case _ => PlainTargetOk(uuid, ServerTargets(uuid)[i]);
  }

  lemma PlainTargetOk(uuid: Bytes, t: Target)
    requires UuidOk(uuid) && |uuid| <= MAX_UUID_LEN && (t == RootDevice || t == Uuid(uuid))
    ensures WellFormedTarget(t) && |TargetText(t)| <= 69
  {
    hide FindText, CleanText;
  }

  lemma ServerAliveBytes(dev: DeviceState, i: nat)
    requires ServerDevice(dev) && ConfigBounded(dev.cfg) && ConfigOk(dev.cfg) && i < 5
    ensures |NotifyText(AliveFor(dev.cfg, dev.targets[i]))| <= 819
  {
    hide NotifyText, TargetText, ParseTarget, WellFormedTarget, UuidOk, LocationOk, OptClean, ServerTargets;
    ServerTargetOk(dev.cfg.uuid, i);
    var t := ServerTargets(dev.cfg.uuid)[i];
    WellFormedTargetParsesBack(t);
    assert ReparseTarget(dev.targets[i].nt) == t;
    AliveLength(dev.cfg, dev.targets[i]);
    assert |UsnText(MakeUsn(dev.cfg.uuid, t))| <= 5 + |dev.cfg.uuid| + 2 + |TargetText(t)|;
    assert |SERVER_NAME| == 25;
  }

  /**
   * The media server's own device qualifies: all its five announcements always find a place, and with a
   * max-age of half an hour it may be woken almost fifteen minutes late, against the 200 milliseconds
   * for which its loop blocks.
   */
  lemma ServerDeviceQualifies(dev: DeviceState, late: Nanos)
    requires ServerDevice(dev) && ConfigBounded(dev.cfg) && ConfigOk(dev.cfg) && late < 900 * SECOND
    ensures AgesOk(dev.targets) && Announced(dev) == dev.targets
    ensures Gap(dev.targets) + late < Whole(dev.targets)
  {
    hide NotifyText, TargetString, UuidOk, LocationOk, OptClean, ServerTargets, AliveFor;
    var ms := Alives(dev.cfg, dev.targets);
    forall i | 0 <= i < |ms|
      ensures |NotifyText(ms[i])| <= 819
    {
      ServerAliveBytes(dev, i);
    }
    TextBytesBound(ms, 819);
    AllPlaced(dev.cfg, [], dev.targets);
    assert MinMaxAge(dev.targets) == 1800 * SECOND;
    assert OnWire(1800 * SECOND) == 1800 * SECOND;
  }

  // ---------- from construction on ----------

  // What the server does with its device before its loop: five registrations and a start.
  function Registrations(ts: seq<Target>): seq<DeviceRuns.Input> {
    seq(|ts|, i requires 0 <= i < |ts| => DeviceRuns.DoRegister(ts[i], 1800 * SECOND))
  }

  function ServerInputs(uuid: Bytes, start: Nanos): seq<DeviceRuns.Input> {
    Registrations(ServerTargets(uuid)) + [DeviceRuns.DoStart(start)]
  }

  function Entries(ts: seq<Target>): seq<AdvertEntry>
    requires forall i | 0 <= i < |ts| :: TargetString(ts[i]).Some?
  {
    seq(|ts|, i requires 0 <= i < |ts| => AdvertEntry(TargetString(ts[i]).value, 1800 * SECOND, INITIAL_ALIVE_COUNT))
  }

  // Registrations that fit all succeed, in order; a start then arms the first round.
  lemma {:induction false} RunRegistrations(s: DeviceState, ts: seq<Target>, start: Nanos)
    requires |s.targets| + |ts| <= MAX_TARGETS && forall i | 0 <= i < |ts| :: TargetString(ts[i]).Some?
    ensures DeviceRuns.Run(s, Registrations(ts) + [DeviceRuns.DoStart(start)]) ==
      Start(s.(targets := s.targets + Entries(ts)), start)
    ensures DeviceRuns.Legal(DeviceRuns.Idle, Registrations(ts) + [DeviceRuns.DoStart(start)])
    ensures DeviceRuns.PhaseAfter(DeviceRuns.Idle, Registrations(ts) + [DeviceRuns.DoStart(start)]) == DeviceRuns.Live
    decreases |ts|
  {
    hide TargetString, SetTimer;
    var inputs := Registrations(ts) + [DeviceRuns.DoStart(start)];
    if ts == [] {
      assert inputs == [DeviceRuns.DoStart(start)] && inputs[1..] == [];
      assert s.targets + Entries(ts) == s.targets;
    } else {
      var next := AddTarget(s, ts[0], 1800 * SECOND).0;
      assert inputs[0] == DeviceRuns.DoRegister(ts[0], 1800 * SECOND);
      assert inputs[1..] == Registrations(ts[1..]) + [DeviceRuns.DoStart(start)];
      RunRegistrations(next, ts[1..], start);
      assert next.targets + Entries(ts[1..]) == s.targets + Entries(ts);
    }
  }

  predicate Printable(text: Bytes) {
    forall i | 0 <= i < |text| :: ' ' < text[i] <= '~'
  }

  lemma PrintableSum(a: Bytes, b: Bytes)
    requires Printable(a) && Printable(b)
    ensures Printable(a + b)
  {
  }

  lemma PrintableIsClean(text: Bytes)
    requires text != "" && Printable(text)
    ensures CleanText(text)
  {
    hide ValidUtf8;
    AsciiIsUtf8(text);
  }

  // The pieces of the server's URNs.
  lemma PrefixIsPrintable()
    ensures Printable("urn:") && Printable(":") && Printable("1") && Printable("upnp:rootdevice")
  {
  }

  lemma DomainIsPrintable() ensures Printable("schemas-upnp-org") {}
  lemma FamiliesArePrintable() ensures Printable(":device:") && Printable(":service:") {}
  lemma MediaServerIsPrintable() ensures Printable("MediaServer") {}
  lemma ContentDirectoryIsPrintable() ensures Printable("ContentDirectory") {}
  lemma ConnectionManagerIsPrintable() ensures Printable("ConnectionManager") {}

  lemma UrnIsClean(family: Bytes, kind: Bytes)
    requires Printable(family) && Printable(kind)
    ensures CleanText(UrnText("schemas-upnp-org", family, kind, 1))
  {
    hide Printable;
    PrefixIsPrintable();
    DomainIsPrintable();
    assert Dec(1) == "1";
    PrintableSum("urn:", "schemas-upnp-org");
    PrintableSum("urn:" + "schemas-upnp-org", family);
    PrintableSum("urn:" + "schemas-upnp-org" + family, kind);
    PrintableSum("urn:" + "schemas-upnp-org" + family + kind, ":");
    PrintableSum("urn:" + "schemas-upnp-org" + family + kind + ":", "1");
    PrintableIsClean(UrnText("schemas-upnp-org", family, kind, 1));
  }

  lemma ServerTargetClean(uuid: Bytes, i: nat)
    requires i < 5 && UuidOk(uuid) && |uuid| <= MAX_UUID_LEN
    ensures TargetOk(ServerTargets(uuid)[i]) && TargetString(ServerTargets(uuid)[i]).Some?
  {
    hide CleanText, WellFormedTarget, FindText, UrnText, Printable;
    ServerTargetOk(uuid, i);
    FamiliesArePrintable();
    match i
    case 0 =>
      PrefixIsPrintable();
      PrintableIsClean("upnp:rootdevice");
    case 1 => RootText(uuid);
    case 2 => MediaServerIsPrintable(); UrnIsClean(":device:", "MediaServer");
    case 3 => ContentDirectoryIsPrintable(); UrnIsClean(":service:", "ContentDirectory");
    case _ => ConnectionManagerIsPrintable(); UrnIsClean(":service:", "ConnectionManager");
  }

  lemma RootText(uuid: Bytes)
    ensures TargetText(RootDevice) == "upnp:rootdevice" && TargetText(Uuid(uuid)) == "uuid:" + uuid
  {
  }

  // The device of the server when its loop begins.
  lemma ServerStarted(s: DeviceState, uuid: Bytes, location: Bytes, bootid: u32, seed: bv32, start: Nanos)
    requires s == New(uuid, location, Some(SERVER_NAME), bootid, 1, seed) && ConfigOk(s.cfg)
    ensures var inputs, dev := ServerInputs(uuid, start), DeviceRuns.Run(s, ServerInputs(uuid, start));
            && DeviceRuns.Legal(DeviceRuns.Idle, inputs)
            && DeviceRuns.PhaseAfter(DeviceRuns.Idle, inputs) == DeviceRuns.Live
            && (forall i <- inputs :: DeviceRuns.Tame(i) && !i.DoShutdown?)
            && ServerDevice(dev) && dev.cfg == s.cfg && dev.outbox == [] && DeviceRuns.DueNow(dev, InitialAlive, start)
  {
    hide TargetString, ServerTargets, SetTimer, Deadline, DeviceRuns.Run, DeviceRuns.Legal, DeviceRuns.PhaseAfter,
         FindText, CleanText,
         WellFormedTarget, TargetText, LocationOk, OptClean;
    var ts := ServerTargets(uuid);
    UuidFits(uuid, s.cfg);
    forall i | 0 <= i < |ts|
      ensures TargetString(ts[i]).Some? && TargetOk(ts[i])
    {
      ServerTargetClean(uuid, i);
    }
    RunRegistrations(s, ts, start);
    NewHolds(uuid, location, Some(SERVER_NAME), bootid, 1, seed);
    SetKeeps(s.timers, Timer(start, InitialAlive));
    assert s.targets + Entries(ts) == Entries(ts);
  }

  lemma UuidFits(uuid: Bytes, cfg: Config)
    requires cfg.uuid == (if |uuid| <= MAX_UUID_LEN then uuid else "") && UuidOk(cfg.uuid)
    ensures cfg.uuid == uuid && |uuid| <= MAX_UUID_LEN
  {
    hide CleanText, FindText;
  }

  /**
   * The server's five services never expire at any control point with five free places, from the first
   * wake-up of its loop on, as long as no wake-up is fifteen minutes late and nobody else speaks for it;
   * and they are cached under the server's own location.
   */
  lemma ServerServicesNeverExpire(
      s: DeviceState, uuid: Bytes, location: Bytes, bootid: u32, seed: bv32, start: Nanos, first: Nanos,
      heard: seq<CPR.Input>, actions: seq<Action>, places: iset<Bytes>, late: Nanos, room: nat)
    requires s == New(uuid, location, Some(SERVER_NAME), bootid, 1, seed) && ConfigOk(s.cfg)
    requires |CPR.Run(CP.NewCp(), heard).cache| <= 59 && late < 900 * SECOND && room >= STAGING_LEN && start <= first
    requires s.cfg.location in places
    requires var world := System(DeviceRuns.Run(s, ServerInputs(uuid, start)), CPR.Run(CP.NewCp(), heard), first);
             AllFair(Protocol.Step(world, DeviceWakes(first), room), actions, places, late, room)
    ensures var world := System(DeviceRuns.Run(s, ServerInputs(uuid, start)), CPR.Run(CP.NewCp(), heard), first);
            var end := Protocol.Run(world, [DeviceWakes(first)] + actions, room);
            forall i | 0 <= i < 5 ::
              var key := CP.KeyOf(MakeUsn(uuid, ServerTargets(uuid)[i]));
              && key in end.cp.cache && end.cp.cache[key].expiresAt > end.now
              && end.cp.cache[key].location in places
  {
    hide Protocol.Step, Protocol.Run, DeviceRuns.Run, DeviceRuns.Legal, DeviceRuns.PhaseAfter, CPR.Run, Gap, Whole,
         Announced, AgesOk,
         ConfigOk, New, AllFair, CP.NewCp, ServerInputs, ServerTargets, MakeUsn, CP.KeyOf, TargetString, Deadline,
         DeviceRuns.Tame;
    ServerStarted(s, uuid, location, bootid, seed, start);
    var inputs := ServerInputs(uuid, start);
    var dev := DeviceRuns.Run(s, inputs);
    NewBounded(s, uuid, location, bootid, seed);
    ServerDeviceQualifies(dev, late);
    NoServiceExpires(s, uuid, location, Some(SERVER_NAME), bootid, 1, seed, inputs, heard, first, actions,
                     places, late, room);
    forall i | 0 <= i < 5
      ensures dev.targets[i] in Announced(dev)
      ensures KeyFor(dev.cfg, dev.targets[i]) == CP.KeyOf(MakeUsn(uuid, ServerTargets(uuid)[i]))
    {
      ServerKey(dev, i);
    }
  }

  lemma NewBounded(s: DeviceState, uuid: Bytes, location: Bytes, bootid: u32, seed: bv32)
    requires s == New(uuid, location, Some(SERVER_NAME), bootid, 1, seed) && ConfigOk(s.cfg)
    ensures ConfigBounded(s.cfg) && s.cfg.uuid == uuid && |uuid| <= MAX_UUID_LEN
  {
    hide CleanText, FindText, LocationOk, OptClean;
    NewHolds(uuid, location, Some(SERVER_NAME), bootid, 1, seed);
    UuidFits(uuid, s.cfg);
  }

  lemma ServerKey(dev: DeviceState, i: nat)
    requires ServerDevice(dev) && i < 5 && ConfigOk(dev.cfg) && |dev.cfg.uuid| <= MAX_UUID_LEN
    ensures KeyFor(dev.cfg, dev.targets[i]) == CP.KeyOf(MakeUsn(dev.cfg.uuid, ServerTargets(dev.cfg.uuid)[i]))
  {
    hide ServerTargets, CP.KeyOf, MakeUsn, UuidOk, LocationOk, OptClean, ParseTarget, TargetText, WellFormedTarget;
    ServerTargetOk(dev.cfg.uuid, i);
    WellFormedTargetParsesBack(ServerTargets(dev.cfg.uuid)[i]);
  }

  // ---------- searches for the server ----------

  function ServerRegistrations(uuid: Bytes): seq<DeviceBehaviour.Registration> {
    seq(5, i requires 0 <= i < 5 => DeviceBehaviour.Registration(ServerTargets(uuid)[i], 1800 * SECOND))
  }

  lemma ServerReplyBytes(dev: DeviceState, i: nat, search: Target)
    requires ServerDevice(dev) && ConfigBounded(dev.cfg) && ConfigOk(dev.cfg) && i < 5
    requires DeviceBehaviour.Wants(search, ServerTargets(dev.cfg.uuid)[i])
    ensures |ResponseText(ReplyFor(dev.cfg, dev.targets[i], search))| <= 639
  {
    hide ResponseText, TargetText, ParseTarget, WellFormedTarget, UuidOk, LocationOk, OptClean, ServerTargets, UsnText,
         ResponseTarget, DeviceBehaviour.Wants;
    var t := ServerTargets(dev.cfg.uuid)[i];
    ServerTargetOk(dev.cfg.uuid, i);
    WellFormedTargetParsesBack(t);
    assert ReparseTarget(dev.targets[i].nt) == t;
    ReplyLength(dev.cfg, dev.targets[i], search);
    ResponseTargetBytes(search, t);
    UsnBytes(dev.cfg.uuid, ResponseTarget(search, t));
    assert |SERVER_NAME| == 25;
  }

  lemma UsnBytes(uuid: Bytes, t: Target)
    ensures |UsnText(MakeUsn(uuid, t))| <= 7 + |uuid| + |TargetText(t)|
  {
    hide TargetText;
  }

  lemma ServerLists(dev: DeviceState)
    requires ServerDevice(dev) && ConfigBounded(dev.cfg) && ConfigOk(dev.cfg)
    ensures DeviceBehaviour.Lists(dev, ServerRegistrations(dev.cfg.uuid))
    ensures DeviceBehaviour.Good(ServerRegistrations(dev.cfg.uuid))
  {
    hide TargetText, TargetOk, UuidOk, LocationOk, OptClean, ServerTargets;
    forall i | 0 <= i < 5
      ensures TargetOk(ServerTargets(dev.cfg.uuid)[i])
    {
      ServerTargetClean(dev.cfg.uuid, i);
    }
  }

  // Every answer the server has fits its arena.
  lemma ServerHasRoom(dev: DeviceState, source: Address, search: Target, at: seq<nat>, n: nat, sent: seq<Packet>)
    requires ServerDevice(dev) && ConfigBounded(dev.cfg) && ConfigOk(dev.cfg)
    requires DeviceBehaviour.Rising(at, 5) && n < |at| && |sent| == n
    requires forall i | 0 <= i < 5 :: i in at <==> DeviceBehaviour.Wants(search, ServerTargets(dev.cfg.uuid)[i])
    requires forall j | 0 <= j < n ::
               sent[j] == Packet(Unicast(source), ResponseText(ReplyFor(dev.cfg, dev.targets[at[j]], search)))
    ensures OutboxBytes(sent) + |ResponseText(ReplyFor(dev.cfg, dev.targets[at[n]], search))| <= 4096
  {
    hide ResponseText, ReplyFor, UuidOk, LocationOk, OptClean, ServerTargets, OutboxBytes, TargetString,
         DeviceBehaviour.Wants;
    forall j | 0 <= j < |at|
      ensures |ResponseText(ReplyFor(dev.cfg, dev.targets[at[j]], search))| <= 639
    {
      assert at[j] in at;
      ServerReplyBytes(dev, at[j], search);
    }
    OutboxBound(sent, 639);
    DeviceBehaviour.RisingIsShort(at, 5);
  }

  /**
   * The media server answers every search it hears with nothing left to send: exactly those of its five
   * targets that are wanted, all five for ssdp:all, each to the searcher and with everything it was set up with.
   */
  lemma ServerAnswers(s: DeviceState, uuid: Bytes, location: Bytes, bootid: u32, seed: bv32, start: Nanos,
                      now: Nanos, source: Address, m: MSearch) returns (idx: seq<nat>)
    requires s == New(uuid, location, Some(SERVER_NAME), bootid, 1, seed) && ConfigOk(s.cfg) && WellFormedMSearch(m)
    ensures var dev := DeviceRuns.Run(s, ServerInputs(uuid, start));
            var sent := HandleDatagram(dev, now, source, MSearchText(m)).outbox;
            && DeviceBehaviour.Rising(idx, 5) && |sent| == |idx|
            && (forall i | 0 <= i < 5 :: i in idx <==> DeviceBehaviour.Wants(m.st, ServerTargets(uuid)[i]))
            && forall j | 0 <= j < |idx| ::
                 && sent[j].dest == Unicast(source)
                 && var st := DeviceBehaviour.AnswersAs(m.st, ServerTargets(uuid)[idx[j]]);
                    ParseDatagram(sent[j].payload) == Ok(SearchResponse(Response(
                      st, DeviceBehaviour.UsnFor(uuid, st), location, 1800 * SECOND, Some(SERVER_NAME), Some(bootid),
                      Some(1), None)))
  {
    hide DeviceRuns.Run, ServerInputs, ServerTargets, HandleDatagram, MSearchText, ResponseText, ReplyFor,
         ParseDatagram, New,
         ConfigOk, DeviceRuns.Legal, DeviceRuns.PhaseAfter, DeviceInv, DeviceBehaviour.Wants, OutboxBytes, TargetString,
         DeviceBehaviour.AnswersAs, DeviceBehaviour.UsnFor, WellFormedMSearch, TargetText, DeviceRuns.Tame,
         DeviceRuns.DueNow, ConfigBounded;
    ServerStarted(s, uuid, location, bootid, seed, start);
    NewBounded(s, uuid, location, bootid, seed);
    DeviceBehaviour.ConfigKept(s.cfg, uuid, location, Some(SERVER_NAME), bootid, 1, seed);
    var dev, regs := DeviceRuns.Run(s, ServerInputs(uuid, start)), ServerRegistrations(uuid);
    DeviceRuns.LifeCycle(s, uuid, location, Some(SERVER_NAME), bootid, 1, seed, ServerInputs(uuid, start));
    ServerLists(dev);
    var at, n := DeviceBehaviour.AnswersQueued(dev, regs, now, source, m);
    var sent := HandleDatagram(dev, now, source, MSearchText(m)).outbox;
    if n < |at| {
      ServerHasRoom(dev, source, m.st, at, n, sent);
    }
    idx := at;
    DeviceBehaviour.SearchTarget(m);
    forall j | 0 <= j < |idx|
      ensures ParseDatagram(ResponseText(ReplyFor(dev.cfg, dev.targets[idx[j]], m.st)))
        == Ok(DeviceBehaviour.ReplyHeard(dev.cfg, regs[idx[j]], DeviceBehaviour.AnswersAs(m.st, regs[idx[j]].target)))
    {
      assert at[j] in at;
      DeviceBehaviour.ReplyIsHeard(dev.cfg, dev.targets[idx[j]], regs[idx[j]], m.st);
    }
    HalfHour();
  }

  lemma HalfHour()
    ensures DeviceBehaviour.Seconds(1800 * SECOND) == 1800 * SECOND && |SERVER_NAME| <= 128
  {
  }
}
