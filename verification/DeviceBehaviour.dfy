/** What a device does, in the terms of those around it: what it was told, and what they hear from it. */
module DeviceBehaviour {
  import opened Wrappers
  import opened Text
  import opened Target
  import opened Fields
  import opened Messages
  import opened Timers
  import opened DeviceSpec
  import opened DeviceBounds
  import opened Wire
  import DeviceRuns
  import MessageRoundTrip
  import ParserImage

  // ---------- what it was told ----------

  datatype Registration = Registration(target: Target, maxAge: Nanos)

  // What fits: eight targets, their text in 128 octets, that of a URN in 124.
  function Registered(inputs: seq<DeviceRuns.Input>): seq<Registration> {
    var n := |inputs|;
    if n == 0 then []
    else
      var before := Registered(inputs[..n - 1]);
      match inputs[n - 1]
      case DoRegister(t, maxAge) =>
        var room := if t.DeviceType? || t.ServiceType? then 124 else 128;
        if |before| < 8 && |TargetText(t)| <= room then before + [Registration(t, maxAge)] else before
      case _ => before
  }

  // The device lists these targets.
  ghost predicate Lists(s: DeviceState, regs: seq<Registration>) {
    && |s.targets| == |regs|
    && forall i | 0 <= i < |regs| ::
         s.targets[i].nt == TargetText(regs[i].target) && s.targets[i].maxAge == regs[i].maxAge
  }

  ghost predicate Good(regs: seq<Registration>) {
    forall i | 0 <= i < |regs| :: TargetOk(regs[i].target)
  }

  lemma {:induction false} RunSnoc(s: DeviceState, inputs: seq<DeviceRuns.Input>, i: DeviceRuns.Input)
    ensures DeviceRuns.Run(s, inputs + [i]) == DeviceRuns.Step(DeviceRuns.Run(s, inputs), i)
    decreases |inputs|
  {
    hide DeviceRuns.Step;
    if inputs == [] {
      assert (inputs + [i])[1..] == [];
      RunNothing(DeviceRuns.Step(s, i));
    } else {
      assert (inputs + [i])[0] == inputs[0] && (inputs + [i])[1..] == inputs[1..] + [i];
      RunSnoc(DeviceRuns.Step(s, inputs[0]), inputs[1..], i);
    }
  }

  lemma RunNothing(s: DeviceState)
    ensures DeviceRuns.Run(s, []) == s
  {
  }

  lemma SameListed(s: DeviceState, r: DeviceState, regs: seq<Registration>)
    requires Lists(s, regs) && |r.targets| == |s.targets|
    requires forall i | 0 <= i < |s.targets| ::
               r.targets[i].nt == s.targets[i].nt && r.targets[i].maxAge == s.targets[i].maxAge
    ensures Lists(r, regs)
  {
  }

  lemma {:induction false} FireKeepsList(s: DeviceState, now: Nanos, kinds: seq<TimerKind>, regs: seq<Registration>)
    requires Lists(s, regs)
    ensures Lists(FireAll(s, now, kinds), regs)
    decreases |kinds|
  {
    hide SendAll, Alives, ByeByes, SetTimer, RefreshInterval, NextRand, Below, CountDown, TargetText;
    if kinds != [] {
      var r := Fire(s, now, kinds[0]);
      SameListed(s, r, regs);
      FireKeepsList(r, now, kinds[1..], regs);
    }
  }

  lemma StepLists(s: DeviceState, i: DeviceRuns.Input, regs: seq<Registration>)
    requires Lists(s, regs) && !i.DoRegister?
    ensures Lists(DeviceRuns.Step(s, i), regs)
  {
    hide FireAll, SendAll, ByeByes, SetTimer, CancelTimer, ParseDatagram, SendReplies, NextRand, Below, ClearDue,
         DueKinds,
         TargetText;
    match i
    case DoTimeout(now) =>
      var c := s.(timers := ClearDue(s.timers, now));
      SameListed(s, c, regs);
      FireKeepsList(c, now, DueKinds(s.timers, now), regs);
    case _ => SameListed(s, DeviceRuns.Step(s, i), regs);
  }

  lemma RegisterLists(s: DeviceState, t: Target, maxAge: Nanos, regs: seq<Registration>)
    requires Lists(s, regs)
    ensures var room := if t.DeviceType? || t.ServiceType? then 124 else 128;
            Lists(AddTarget(s, t, maxAge).0,
                  if |regs| < 8 && |TargetText(t)| <= room then regs + [Registration(t, maxAge)] else regs)
  {
    hide TargetText;
  }

  /** A device lists exactly the targets registered with it that fit, in their order. */
  lemma {:induction false} RunLists(s: DeviceState, inputs: seq<DeviceRuns.Input>)
    requires s.targets == []
    ensures Lists(DeviceRuns.Run(s, inputs), Registered(inputs))
    decreases |inputs|
  {
    hide DeviceRuns.Run, DeviceRuns.Step, Lists, AddTarget, TargetText;
    if inputs == [] {
      RunNothing(s);
      NothingListed(s);
    } else {
      var n := |inputs| - 1;
      RunLists(s, inputs[..n]);
      assert inputs == inputs[..n] + [inputs[n]];
      RunSnoc(s, inputs[..n], inputs[n]);
      var dev := DeviceRuns.Run(s, inputs[..n]);
      match inputs[n]
      case DoRegister(t, maxAge) =>
        RegisterLists(dev, t, maxAge, Registered(inputs[..n]));
        StepRegisters(dev, t, maxAge);
      case _ => StepLists(dev, inputs[n], Registered(inputs[..n]));
    }
  }

  lemma StepRegisters(s: DeviceState, t: Target, maxAge: Nanos)
    ensures DeviceRuns.Step(s, DeviceRuns.DoRegister(t, maxAge)) == AddTarget(s, t, maxAge).0
  {
  }

  lemma NothingListed(s: DeviceState)
    requires s.targets == []
    ensures Lists(s, [])
  {
  }

  lemma {:induction false} RegisteredAreGood(inputs: seq<DeviceRuns.Input>)
    requires forall i <- inputs :: DeviceRuns.Tame(i)
    ensures Good(Registered(inputs))
  {
    hide TargetOk, TargetText;
    if inputs != [] {
      RegisteredAreGood(inputs[..|inputs| - 1]);
      assert inputs[|inputs| - 1] in inputs;
    }
  }

  // ---------- what they hear ----------

  // A device stands in its own USN alone; anything else stands behind it.
  function UsnFor(uuid: Bytes, t: Target): Usn {
    Usn(uuid, match t case All => None case Uuid(_) => None case _ => Some(t))
  }

  // Whole seconds, in 32 bits.
  function Seconds(age: Nanos): Nanos {
    age / 1_000_000_000 % 4_294_967_296 * 1_000_000_000
  }

  function AliveHeard(cfg: Config, r: Registration): Message {
    Announcement(Notify(
      "239.255.255.250:1900", r.target, Alive, UsnFor(cfg.uuid, r.target), Some(cfg.location), Some(Seconds(r.maxAge)),
      cfg.server, Some(cfg.bootid), Some(cfg.configid), None, None))
  }

  function ByeByeHeard(cfg: Config, r: Registration): Message {
    Announcement(Notify(
      "239.255.255.250:1900", r.target, ByeBye, UsnFor(cfg.uuid, r.target), None, None,
      None, Some(cfg.bootid), Some(cfg.configid), None, None))
  }

  function ReplyHeard(cfg: Config, r: Registration, st: Target): Message {
    SearchResponse(Response(
      st, UsnFor(cfg.uuid, st), cfg.location, Seconds(r.maxAge),
      cfg.server, Some(cfg.bootid), Some(cfg.configid), None))
  }

  lemma Reparsed(e: AdvertEntry, r: Registration)
    requires TargetOk(r.target) && e.nt == TargetText(r.target)
    ensures ReparseTarget(e.nt) == r.target && CleanText(e.nt)
  {
    hide ParseTarget, TargetText, CleanText;
    WellFormedTargetParsesBack(r.target);
  }

  lemma NotificationHeard(cfg: Config, e: AdvertEntry, r: Registration)
    requires ConfigOk(cfg) && TargetOk(r.target) && e.nt == TargetText(r.target) && e.maxAge == r.maxAge
    ensures ParseDatagram(NotifyText(AliveFor(cfg, e))) == Ok(AliveHeard(cfg, r))
    ensures ParseDatagram(NotifyText(ByeByeFor(cfg, e))) == Ok(ByeByeHeard(cfg, r))
  {
    hide ParseDatagram, NotifyText, UuidOk, LocationOk, OptClean, TargetOk, ReparseTarget, TargetText;
    Reparsed(e, r);
    AliveOnWire(cfg, e);
    ByeByeOnWire(cfg, e);
  }

  // ---------- announcement rounds ----------

  ghost predicate Rising(idx: seq<nat>, n: nat) {
    && (forall j | 0 <= j < |idx| :: idx[j] < n)
    && (forall i, j | 0 <= i < j < |idx| :: idx[i] < idx[j])
  }

  // Positions in a list, seen from a list with one more element in front that is chosen or not.
  function Behind(first: bool, idx: seq<nat>): seq<nat> {
    (if first then [0] else []) + seq(|idx|, j requires 0 <= j < |idx| => idx[j] + 1)
  }

  lemma BehindAt(first: bool, idx: seq<nat>)
    ensures var r, d := Behind(first, idx), if first then 1 else 0;
            && |r| == |idx| + d && (first ==> r[0] == 0)
            && forall j | 0 <= j < |idx| :: r[j + d] == idx[j] + 1
  {
  }

  lemma BehindRises(first: bool, idx: seq<nat>, n: nat)
    requires Rising(idx, n)
    ensures Rising(Behind(first, idx), n + 1)
  {
    hide Behind;
    BehindAt(first, idx);
    var r, d := Behind(first, idx), if first then 1 else 0;
    forall j | 0 <= j < |r|
      ensures j >= d ==> r[j] == idx[j - d] + 1
    {
      assert j >= d ==> r[(j - d) + d] == idx[j - d] + 1;
    }
  }

  lemma BehindHolds(first: bool, idx: seq<nat>, i: nat)
    ensures i in Behind(first, idx) <==> if i == 0 then first else i - 1 in idx
  {
    hide Behind;
    BehindAt(first, idx);
    var r, d := Behind(first, idx), if first then 1 else 0;
    if i > 0 && i - 1 in idx {
      var j :| 0 <= j < |idx| && idx[j] == i - 1;
      assert r[j + d] == i;
    }
    if i in r {
      var k :| 0 <= k < |r| && r[k] == i;
      assert k >= d ==> r[(k - d) + d] == idx[k - d] + 1;
    }
  }

  // What stands at those positions.
  lemma BehindPicks(first: bool, all: seq<AdvertEntry>, idx: seq<nat>, picked: seq<AdvertEntry>)
    requires all != [] && Rising(idx, |all| - 1) && |idx| == |picked|
    requires forall j | 0 <= j < |idx| :: all[1..][idx[j]] == picked[j]
    ensures var r, p := Behind(first, idx), (if first then [all[0]] else []) + picked;
            Rising(r, |all|) && |r| == |p| && forall j | 0 <= j < |r| :: all[r[j]] == p[j]
  {
    hide Behind;
    BehindAt(first, idx);
    BehindRises(first, idx, |all| - 1);
    var r, p, d := Behind(first, idx), (if first then [all[0]] else []) + picked, if first then 1 else 0;
    forall j | 0 <= j < |r|
      ensures all[r[j]] == p[j]
    {
      if j >= d {
        assert r[(j - d) + d] == idx[j - d] + 1;
        assert all[1..][idx[j - d]] == all[idx[j - d] + 1];
      }
    }
  }

  // Which targets find a place.
  lemma {:induction false} PlacedAt(cfg: Config, q: seq<Packet>, targets: seq<AdvertEntry>) returns (idx: seq<nat>)
    ensures Rising(idx, |targets|) && |idx| == |Placed(cfg, q, targets)|
    ensures forall j | 0 <= j < |idx| :: targets[idx[j]] == Placed(cfg, q, targets)[j]
    decreases |targets|
  {
    hide NotifyText, OutboxBytes, AliveFor, Behind;
    if targets == [] {
      idx := [];
    } else {
      var p := Packet(MulticastV4, NotifyText(AliveFor(cfg, targets[0])));
      var first := Enqueue(q, p).Some?;
      var behind := if first then q + [p] else q;
      var rest := PlacedAt(cfg, behind, targets[1..]);
      BehindPicks(first, targets, rest, Placed(cfg, behind, targets[1..]));
      assert [] + Placed(cfg, behind, targets[1..]) == Placed(cfg, behind, targets[1..]);
      idx := Behind(first, rest);
    }
  }

  // A round is due when one of its timers is.
  ghost predicate RoundDue(s: DeviceState, now: Nanos) {
    DeviceRuns.DueNow(s, InitialAlive, now) || DeviceRuns.DueNow(s, AliveRefresh, now)
  }

  lemma RoundOutbox(s: DeviceState, now: Nanos)
    requires DeviceRuns.PhaseInv(DeviceRuns.Live, s) && RoundDue(s, now) && s.outbox == []
    ensures HandleTimeout(s, now).outbox == Packets(Alives(s.cfg, Placed(s.cfg, [], s.targets)))
  {
    hide HandleTimeout, SendAll, Alives, CountDown, NextRand, Below, SetTimer, ClearDue, Deadline, RefreshInterval,
         Placed, Packets,
         TimersOk;
    DeviceRuns.TimeoutIs(s, now);
    var c := DeviceRuns.Drained(s, now);
    PlacedAreSent(c, s.targets);
    var sent := Packets(Alives(s.cfg, Placed(s.cfg, [], s.targets)));
    assert [] + sent == sent;
  }

  lemma RoundHeardOf(s: DeviceState, regs: seq<Registration>, now: Nanos) returns (idx: seq<nat>)
    requires DeviceRuns.PhaseInv(DeviceRuns.Live, s) && RoundDue(s, now) && s.outbox == []
    requires Lists(s, regs) && Good(regs) && ConfigOk(s.cfg)
    ensures var sent := HandleTimeout(s, now).outbox;
            && Rising(idx, |regs|) && |sent| == |idx| && |idx| >= Min(4, |regs|)
            && forall j | 0 <= j < |idx| ::
                 && sent[j].dest == MulticastV4
                 && ParseDatagram(sent[j].payload) == Ok(AliveHeard(s.cfg, regs[idx[j]]))
  {
    hide HandleTimeout, NotifyText, AliveFor, Placed, ConfigOk, TargetOk, ParseDatagram, AliveHeard, TimersOk, Deadline;
    RoundOutbox(s, now);
    idx := PlacedAt(s.cfg, [], s.targets);
    FourArePlaced(s);
    var placed := Placed(s.cfg, [], s.targets);
    forall j | 0 <= j < |idx|
      ensures ParseDatagram(NotifyText(AliveFor(s.cfg, placed[j]))) == Ok(AliveHeard(s.cfg, regs[idx[j]]))
    {
      NotificationHeard(s.cfg, s.targets[idx[j]], regs[idx[j]]);
    }
  }

  // What the constructor keeps of its arguments.
  lemma ConfigKept(cfg: Config, uuid: Bytes, location: Bytes, server: Option<Bytes>, bootid: u32, configid: u32,
                   seed: bv32)
    requires cfg == New(uuid, location, server, bootid, configid, seed).cfg && ConfigOk(cfg)
    ensures cfg.uuid == uuid && cfg.location == location && cfg.bootid == bootid && cfg.configid == configid
    ensures cfg.server == if server.Some? && |server.value| > 128 then None else server
  {
    hide CleanText, FindText;
  }

  /**
   * What an announcement round says. Take a device made, registered with and started in any way, and left
   * with nothing to send. When a round is due, it sends the targets registered with it, in their order, at
   * least four of them or all, each to everybody, and a listener reads in each exactly what the device was
   * given: its target, the USN made of it, and every field of the configuration.
   */
  lemma RoundSays(uuid: Bytes, location: Bytes, server: Option<Bytes>, bootid: u32, configid: u32, seed: bv32,
                  inputs: seq<DeviceRuns.Input>, now: Nanos) returns (idx: seq<nat>)
    requires ConfigOk(New(uuid, location, server, bootid, configid, seed).cfg)
    requires DeviceRuns.Legal(DeviceRuns.Idle, inputs)
    requires DeviceRuns.PhaseAfter(DeviceRuns.Idle, inputs) == DeviceRuns.Live
    requires forall i <- inputs :: DeviceRuns.Tame(i)
    requires var dev := DeviceRuns.Run(New(uuid, location, server, bootid, configid, seed), inputs);
             dev.outbox == [] && RoundDue(dev, now)
    ensures var dev := DeviceRuns.Run(New(uuid, location, server, bootid, configid, seed), inputs);
            var sent, regs := HandleTimeout(dev, now).outbox, Registered(inputs);
            && Rising(idx, |regs|) && |sent| == |idx| && |idx| >= Min(4, |regs|)
            && forall j | 0 <= j < |idx| ::
                 var t, age := regs[idx[j]].target, regs[idx[j]].maxAge;
                 && sent[j].dest == MulticastV4
                 && ParseDatagram(sent[j].payload) == Ok(Announcement(Notify(
                      "239.255.255.250:1900", t, Alive, UsnFor(uuid, t), Some(location), Some(Seconds(age)),
                      if server.Some? && |server.value| > 128 then None else server,
                      Some(bootid), Some(configid), None, None)))
  {
    hide New, DeviceRuns.Run, HandleTimeout, ConfigOk, ParseDatagram, DeviceRuns.Legal, DeviceRuns.PhaseAfter,
         DeviceRuns.PhaseInv, DeviceRuns.BurstInv, Lists, Good, Registered, RoundDue, DeviceRuns.Tame, UsnFor, Seconds;
    var s := New(uuid, location, server, bootid, configid, seed);
    DeviceRuns.NewIsEmpty(s, uuid, location, server, bootid, configid, seed);
    DeviceRuns.NewIsIdle(s, uuid, location, server, bootid, configid, seed);
    DeviceRuns.RunKeepsPhase(DeviceRuns.Idle, s, 0, inputs);
    DeviceRuns.RunKeepsConfig(s, inputs);
    RunLists(s, inputs);
    RegisteredAreGood(inputs);
    ConfigKept(s.cfg, uuid, location, server, bootid, configid, seed);
    idx := RoundHeardOf(DeviceRuns.Run(s, inputs), Registered(inputs), now);
  }

  /** And a shutdown with nothing left to send says a byebye for every target, in order. */
  lemma ShutdownSays(uuid: Bytes, location: Bytes, server: Option<Bytes>, bootid: u32, configid: u32, seed: bv32,
                     inputs: seq<DeviceRuns.Input>, now: Nanos)
    requires ConfigOk(New(uuid, location, server, bootid, configid, seed).cfg)
    requires DeviceRuns.Legal(DeviceRuns.Idle, inputs) && forall i <- inputs :: DeviceRuns.Tame(i)
    requires DeviceRuns.Run(New(uuid, location, server, bootid, configid, seed), inputs).outbox == []
    ensures var dev := DeviceRuns.Run(New(uuid, location, server, bootid, configid, seed), inputs);
            var sent, regs := Shutdown(dev, now).outbox, Registered(inputs);
            && |sent| == |regs|
            && forall j | 0 <= j < |regs| ::
                 && sent[j].dest == MulticastV4
                 && ParseDatagram(sent[j].payload) == Ok(Announcement(Notify(
                      "239.255.255.250:1900", regs[j].target, ByeBye, UsnFor(uuid, regs[j].target), None, None,
                      None, Some(bootid), Some(configid), None, None)))
  {
    hide New, DeviceRuns.Run, Shutdown, ConfigOk, ParseDatagram, DeviceRuns.Legal, NotifyText, ByeByeFor, TargetOk,
         DeviceRuns.PhaseInv, DeviceRuns.BurstInv, Registered, DeviceRuns.Tame, UsnFor, Seconds;
    var s := New(uuid, location, server, bootid, configid, seed);
    DeviceRuns.NewIsEmpty(s, uuid, location, server, bootid, configid, seed);
    DeviceRuns.LifeCycle(s, uuid, location, server, bootid, configid, seed, inputs);
    DeviceRuns.RunKeepsConfig(s, inputs);
    RunLists(s, inputs);
    RegisteredAreGood(inputs);
    ConfigKept(s.cfg, uuid, location, server, bootid, configid, seed);
    var dev, regs := DeviceRuns.Run(s, inputs), Registered(inputs);
    ShutdownIsComplete(dev, now);
    forall j | 0 <= j < |regs|
      ensures ParseDatagram(NotifyText(ByeByeFor(dev.cfg, dev.targets[j]))) == Ok(ByeByeHeard(dev.cfg, regs[j]))
    {
      NotificationHeard(dev.cfg, dev.targets[j], regs[j]);
    }
  }

  // ---------- when ----------

  /**
   * When the rounds come. A start arms the first round at once. After a round of the burst that is not its
   * last comes another, 100 to 200 milliseconds later; after any other, half the smallest age later, half of
   * half an hour if there is no target. Shutting down leaves no round pending and one timer at once.
   */
  lemma RoundTimes(s: DeviceState, regs: seq<Registration>, now: Nanos)
    requires DeviceRuns.PhaseInv(DeviceRuns.Live, s) && RoundDue(s, now) && Lists(s, regs)
    ensures var r := HandleTimeout(s, now);
            var initial, refresh := Deadline(r.timers, InitialAlive), Deadline(r.timers, AliveRefresh);
            && (initial.Some? ==> refresh.None? && now + 100_000_000 <= initial.value < now + 200_000_000)
            && (initial.None? ==> refresh.Some?)
            && (initial.None? && regs == [] ==> refresh.value == now + 900_000_000_000)
            && (initial.None? && regs != [] ==>
                  exists i | 0 <= i < |regs| ::
                    && refresh.value == now + regs[i].maxAge / 2
                    && forall j | 0 <= j < |regs| :: regs[i].maxAge <= regs[j].maxAge)
            && (DeviceRuns.DueNow(s, AliveRefresh, now) ==> initial.None?)
  {
    hide HandleTimeout, SendAll, Alives, CountDown, NextRand, Below, SetTimer, ClearDue, Deadline, TextBytes,
         TargetText,
         MinMaxAge, TargetsBounded, ConfigBounded, OutboxBytes;
    DeviceRuns.TimeoutIs(s, now);
    var c := DeviceRuns.Drained(s, now);
    var (targets, done) := CountDown(s.targets);
    var fireAt := now + (100 + Below(NextRand(s.rng), 100)) * MILLISECOND;
    SetKeeps(c.timers, Timer(now + RefreshInterval(targets), AliveRefresh));
    SetKeeps(c.timers, Timer(now + RefreshInterval(s.targets), AliveRefresh));
    SetKeeps(c.timers, Timer(fireAt, InitialAlive));
    SmallestAge(s.targets, regs);
    SmallestAge(targets, regs);
  }

  lemma SmallestAge(targets: seq<AdvertEntry>, regs: seq<Registration>)
    requires |targets| == |regs| && forall i | 0 <= i < |regs| :: targets[i].maxAge == regs[i].maxAge
    ensures if regs == [] then RefreshInterval(targets) == 900_000_000_000
            else exists i | 0 <= i < |regs| ::
                   && RefreshInterval(targets) == regs[i].maxAge / 2
                   && forall j | 0 <= j < |regs| :: regs[i].maxAge <= regs[j].maxAge
  {
    hide MinMaxAge;
    if regs != [] {
      var i :| 0 <= i < |targets| && MinMaxAge(targets) == targets[i].maxAge;
      assert RefreshInterval(targets) == regs[i].maxAge / 2;
    }
  }

  lemma StartAndStop(s: DeviceState, now: Nanos)
    requires TimersOk(s.timers)
    ensures Deadline(Start(s, now).timers, InitialAlive) == Some(now)
    ensures var r := Shutdown(s, now).timers;
            Deadline(r, InitialAlive).None? && Deadline(r, AliveRefresh).None? && Deadline(r, SearchReply) == Some(now)
  {
    hide SetTimer, CancelTimer, Deadline, SendAll, ByeByes, OnePerKind, KindsWithin;
    SetKeeps(s.timers, Timer(now, InitialAlive));
    var t := SetTimer(s.timers, Timer(now, SearchReply));
    SetKeeps(s.timers, Timer(now, SearchReply));
    CancelKeeps(t, AliveRefresh);
    CancelKeeps(CancelTimer(t, AliveRefresh), InitialAlive);
  }

  // ---------- answers to a search ----------

  // What a search asks of a target: anything, that very thing, or the same kind in at least that version.
  predicate Wants(search: Target, t: Target) {
    match search
    case All => true
    case RootDevice => t == RootDevice
    case Uuid(u) => t.Uuid? && Folded(t.uuid) == Folded(u)
    case DeviceType(domain, kind, version) =>
      t.DeviceType? && Folded(t.domain) == Folded(domain) && Folded(t.kind) == Folded(kind) && t.version >= version
    case ServiceType(domain, kind, version) =>
      t.ServiceType? && Folded(t.domain) == Folded(domain) && Folded(t.kind) == Folded(kind) && t.version >= version
  }

  // Asked for a version, a target answers as that version.
  function AnswersAs(search: Target, t: Target): Target {
    if search.DeviceType? || search.ServiceType? then search else t
  }

  lemma MatchesWants(search: Target, t: Target)
    ensures TargetMatches(search, t) <==> Wants(search, t)
  {
    hide Folded, EqIgnoreCase;
    match (search, t)
    case (Uuid(a), Uuid(b)) => FoldedAlike(a, b);
    case (DeviceType(d1, k1, _), DeviceType(d2, k2, _)) => FoldedAlike(d1, d2); FoldedAlike(k1, k2);
    case (ServiceType(d1, k1, _), ServiceType(d2, k2, _)) => FoldedAlike(d1, d2); FoldedAlike(k1, k2);
    case _ =>
  }

  lemma ReplyIsHeard(cfg: Config, e: AdvertEntry, r: Registration, search: Target)
    requires ConfigOk(cfg) && TargetOk(r.target) && e.nt == TargetText(r.target) && e.maxAge == r.maxAge
    requires TargetOk(search) && Wants(search, r.target)
    ensures ParseDatagram(ResponseText(ReplyFor(cfg, e, search))) == Ok(ReplyHeard(cfg, r, AnswersAs(search, r.target)))
  {
    hide ParseDatagram, ResponseText, ConfigOk, TargetOk, ReparseTarget, TargetText, TargetMatches, Wants;
    Reparsed(e, r);
    MatchesWants(search, r.target);
    ReplyOnWire(cfg, e, search);
  }

  // Which targets match.
  lemma {:induction false} MatchedAt(search: Target, entries: seq<AdvertEntry>) returns (idx: seq<nat>)
    ensures Rising(idx, |entries|) && |idx| == |Matching(search, entries)|
    ensures forall j | 0 <= j < |idx| :: entries[idx[j]] == Matching(search, entries)[j]
    ensures forall i | 0 <= i < |entries| :: i in idx <==> TargetMatches(search, ReparseTarget(entries[i].nt))
  {
    hide TargetMatches, ReparseTarget, Behind;
    if entries == [] {
      idx := [];
    } else {
      var rest := MatchedAt(search, entries[1..]);
      var first := TargetMatches(search, ReparseTarget(entries[0].nt));
      BehindPicks(first, entries, rest, Matching(search, entries[1..]));
      assert [] + Matching(search, entries[1..]) == Matching(search, entries[1..]);
      idx := Behind(first, rest);
      forall i | 0 <= i < |entries|
        ensures i in idx <==> TargetMatches(search, ReparseTarget(entries[i].nt))
      {
        BehindHolds(first, rest, i);
        assert i > 0 ==> entries[1..][i - 1] == entries[i];
      }
    }
  }

  lemma SearchReceived(s: DeviceState, now: Nanos, source: Address, m: MSearch)
    requires WellFormedMSearch(m)
    ensures ParseDatagram(MSearchText(m)) == Ok(Search(m))
    ensures HandleDatagram(s, now, source, MSearchText(m)) == OnSearch(s, now, source, m)
  {
    hide ParseDatagram, MSearchText, CleanText, TargetOk, OptClean, OnSearch;
    MessageRoundTrip.MSearchParsesBack(m);
  }

  lemma {:induction false} FewFit(q: seq<Packet>, n: nat)
    requires |q| == n < 4 && forall i | 0 <= i < n :: |q[i].payload| <= 852
    ensures forall p: Packet | |p.payload| <= 852 :: Enqueue(q, p).Some?
  {
    hide OutboxBytes;
    OutboxBound(q, 852);
  }

  /**
   * Who answers a search. A device with nothing to send, asked anything, answers from the targets that the
   * search wants, in their order, all of them or at least the first four; each answer goes to the one who
   * asked and is read as that target, or as the version asked for, with every field of the configuration.
   */
  lemma SearchSays(s: DeviceState, regs: seq<Registration>, now: Nanos, source: Address, m: MSearch)
    returns (idx: seq<nat>)
    requires DeviceInv(s) && ConfigOk(s.cfg) && s.outbox == [] && Lists(s, regs) && Good(regs) && WellFormedMSearch(m)
    ensures var sent := HandleDatagram(s, now, source, MSearchText(m)).outbox;
            && Rising(idx, |regs|) && |sent| == |idx|
            && (forall j | 0 <= j < |idx| :: Wants(m.st, regs[idx[j]].target))
            && (forall i | 0 <= i < |regs| && Wants(m.st, regs[i].target) && i !in idx ::
                  |idx| >= 4 && forall j | 0 <= j < |idx| :: idx[j] < i)
            && forall j | 0 <= j < |idx| ::
                 && sent[j].dest == Unicast(source)
                 && var st := AnswersAs(m.st, regs[idx[j]].target);
                    ParseDatagram(sent[j].payload) == Ok(SearchResponse(Response(
                      st, UsnFor(s.cfg.uuid, st), s.cfg.location, Seconds(regs[idx[j]].maxAge), s.cfg.server,
                      Some(s.cfg.bootid), Some(s.cfg.configid), None)))
  {
    hide HandleDatagram, MSearchText, ResponseText, ReplyFor, ParseDatagram, ConfigOk, TargetOk, Wants, Matching,
         TargetText, AnswersAs, Seconds, UsnFor, DeviceInv, WellFormedMSearch;
    var at, n := AnswersQueued(s, regs, now, source, m);
    SearchTarget(m);
    idx := at[..n];
    forall j | 0 <= j < n
      ensures Wants(m.st, regs[idx[j]].target)
      ensures ParseDatagram(ResponseText(ReplyFor(s.cfg, s.targets[at[j]], m.st)))
        == Ok(ReplyHeard(s.cfg, regs[idx[j]], AnswersAs(m.st, regs[idx[j]].target)))
    {
      assert at[j] in at;
      ReplyIsHeard(s.cfg, s.targets[at[j]], regs[at[j]], m.st);
    }
    Dropped(at, n, |regs|);
  }

  lemma SearchTarget(m: MSearch)
    requires WellFormedMSearch(m)
    ensures TargetOk(m.st)
  {
  }

  // The answers queued, by the positions of the targets that give them.
  lemma AnswersQueued(s: DeviceState, regs: seq<Registration>, now: Nanos, source: Address, m: MSearch)
    returns (at: seq<nat>, n: nat)
    requires DeviceInv(s) && s.outbox == [] && Lists(s, regs) && Good(regs) && WellFormedMSearch(m)
    ensures Rising(at, |regs|) && n <= |at| && (n < |at| ==> n >= 4)
    ensures forall i | 0 <= i < |regs| :: i in at <==> Wants(m.st, regs[i].target)
    ensures var sent := HandleDatagram(s, now, source, MSearchText(m)).outbox;
            && |sent| == n
            && forall j | 0 <= j < n ::
                 sent[j] == Packet(Unicast(source), ResponseText(ReplyFor(s.cfg, s.targets[at[j]], m.st)))
    ensures n < |at| ==>
      OutboxBytes(HandleDatagram(s, now, source, MSearchText(m)).outbox)
        + |ResponseText(ReplyFor(s.cfg, s.targets[at[n]], m.st))| > 4096
  {
    hide HandleDatagram, SendReplies, MSearchText, ResponseText, ReplyFor, Wants, Replies, Matching, DeviceInv,
         OutboxBytes, Stored, Lists, Good, Enqueue, WellFormedMSearch, ConfigBounded;
    SearchQueues(s, now, source, m);
    StoredTargets(s);
    at := AnswersAt(s, regs, m.st);
    n := RepliesAreInOrder([], s.cfg, source, m.st, s.targets);
    AnswersTaken(s, source, m.st, at, n, HandleDatagram(s, now, source, MSearchText(m)).outbox);
  }

  lemma SearchQueues(s: DeviceState, now: Nanos, source: Address, m: MSearch)
    requires WellFormedMSearch(m)
    ensures HandleDatagram(s, now, source, MSearchText(m)).outbox ==
      SendReplies(s.outbox, s.cfg, source, m.st, s.targets)
  {
    hide HandleDatagram, SendReplies, MSearchText, CleanText, OptClean, TargetOk, NextRand, Below, SetTimer, PushEvent;
    SearchReceived(s, now, source, m);
  }

  lemma StoredTargets(s: DeviceState)
    requires DeviceInv(s)
    ensures ConfigBounded(s.cfg) && forall i | 0 <= i < |s.targets| :: Stored(s.targets[i].nt)
  {
  }

  lemma AnswersAt(s: DeviceState, regs: seq<Registration>, search: Target) returns (at: seq<nat>)
    requires Lists(s, regs) && Good(regs)
    ensures Rising(at, |regs|) && |at| == |Matching(search, s.targets)| && |regs| == |s.targets|
    ensures forall j | 0 <= j < |at| :: s.targets[at[j]] == Matching(search, s.targets)[j]
    ensures forall i | 0 <= i < |regs| :: i in at <==> Wants(search, regs[i].target)
  {
    hide TargetOk, TargetMatches, Wants, Matching, ReparseTarget, TargetText;
    at := MatchedAt(search, s.targets);
    forall i | 0 <= i < |regs|
      ensures i in at <==> Wants(search, regs[i].target)
    {
      Reparsed(s.targets[i], regs[i]);
      MatchesWants(search, regs[i].target);
    }
  }

  lemma AnswersTaken(s: DeviceState, source: Address, search: Target, at: seq<nat>, n: nat, sent: seq<Packet>)
    requires DeviceInv(s) && |at| == |Matching(search, s.targets)| && Rising(at, |s.targets|)
    requires forall j | 0 <= j < |at| :: s.targets[at[j]] == Matching(search, s.targets)[j]
    requires var all := Replies(s.cfg, source, search, Matching(search, s.targets));
             n <= |all| && sent == [] + all[..n] && (n < |all| ==> Enqueue([] + all[..n], all[n]) == None)
    ensures n <= |at| && |sent| == n && (n < |at| ==> n >= 4)
    ensures forall j | 0 <= j < n ::
              sent[j] == Packet(Unicast(source), ResponseText(ReplyFor(s.cfg, s.targets[at[j]], search)))
    ensures n < |at| ==> OutboxBytes(sent) + |ResponseText(ReplyFor(s.cfg, s.targets[at[n]], search))| > 4096
  {
    hide ResponseText, ReplyFor, Matching, TimersOk, OutboxBytes, Stored;
    AnswersFit(s, source, search, Matching(search, s.targets), at, n);
    RisingIsShort(at, |s.targets|);
    var all := Replies(s.cfg, source, search, Matching(search, s.targets));
    assert [] + all[..n] == all[..n];
  }

  lemma {:induction false} RisingIsShort(at: seq<nat>, n: nat)
    requires Rising(at, n)
    ensures |at| <= n
    decreases |at|
  {
    if at != [] {
      var k := |at| - 1;
      RisingIsShort(at[..k], at[k]);
    }
  }

  lemma AnswersFit(s: DeviceState, source: Address, search: Target, found: seq<AdvertEntry>, at: seq<nat>, n: nat)
    requires DeviceInv(s) && |at| == |found| && Rising(at, |s.targets|)
    requires forall j | 0 <= j < |at| :: s.targets[at[j]] == found[j]
    requires var all := Replies(s.cfg, source, search, found);
             n <= |all| && (n < |all| ==> Enqueue([] + all[..n], all[n]) == None)
    ensures n < |found| ==> n >= 4
  {
    hide ResponseText, ReplyFor, Stored, OutboxBytes, TimersOk, Enqueue;
    var all := Replies(s.cfg, source, search, found);
    forall j | 0 <= j < |all|
      ensures |all[j].payload| <= 852
    {
      ReplyBytes(s.cfg, s.targets[at[j]], search);
    }
    assert [] + all[..n] == all[..n];
    if n < |all| && n < 4 {
      FewFit(all[..n], n);
    }
  }

  lemma AfterPrefix(at: seq<nat>, n: nat, i: nat) returns (k: nat)
    requires n <= |at| && i in at && i !in at[..n]
    ensures n <= k < |at| && at[k] == i
  {
    assert at == at[..n] + at[n..];
    assert i in at[n..];
    var j :| 0 <= j < |at[n..]| && at[n..][j] == i;
    k := n + j;
  }

  // What is left out of a rising list comes later than what is kept.
  lemma Dropped(at: seq<nat>, n: nat, size: nat)
    requires Rising(at, size) && n <= |at|
    ensures Rising(at[..n], size)
    ensures forall i | i in at && i !in at[..n] :: n < |at| && forall j | 0 <= j < n :: at[..n][j] < i
  {
    forall i | i in at && i !in at[..n]
      ensures n < |at| && forall j | 0 <= j < n :: at[..n][j] < i
    {
      var k := AfterPrefix(at, n, i);
    }
  }

  /**
   * A search is also reported, while there is room for the event, and wakes the device once more within the
   * time the searcher gives; nothing else about the device changes. Any other datagram changes nothing.
   */
  lemma SearchChanges(s: DeviceState, now: Nanos, source: Address, m: MSearch)
    requires DeviceInv(s) && WellFormedMSearch(m)
    ensures var r := HandleDatagram(s, now, source, MSearchText(m));
            && r == s.(outbox := r.outbox, events := r.events, timers := r.timers, rng := r.rng)
            && r.events == (if |s.events| < 4 then s.events + [DeviceEvent.SearchReceived(source)] else s.events)
            && (var at := Deadline(r.timers, SearchReply); at.Some? && now <= at.value < now + m.mx * 1_000_000_000)
            && forall k | k != SearchReply :: Deadline(r.timers, k) == Deadline(s.timers, k)
  {
    hide HandleDatagram, SendReplies, MSearchText, ParseDatagram, CleanText, OptClean, TargetOk, NextRand, Below,
         SetTimer,
         Deadline, TargetsBounded, OutboxBytes, ConfigBounded;
    SearchReceived(s, now, source, m);
    var fireAt := now + Below(NextRand(s.rng), m.mx * 1000) * MILLISECOND;
    SetKeeps(s.timers, Timer(fireAt, SearchReply));
  }

  lemma OthersAreIgnored(s: DeviceState, now: Nanos, source: Address, payload: Bytes)
    requires ParseDatagram(payload).Ok? ==> !ParseDatagram(payload).value.Search?
    ensures HandleDatagram(s, now, source, payload) == s
  {
    hide ParseDatagram;
  }

  /** Datagrams leave newest first, cut to the room there is; events oldest first. */
  lemma PollsTake(s: DeviceState, q: seq<Packet>, p: Packet, e: DeviceEvent, events: seq<DeviceEvent>, room: nat)
    ensures PollTransmit(s.(outbox := q + [p]), room) ==
      (s.(outbox := q), Some(Packet(p.dest, if |p.payload| <= room then p.payload else p.payload[..room])))
    ensures PollTransmit(s.(outbox := []), room) == (s.(outbox := []), None)
    ensures PollEvent(s.(events := [e] + events)) == (s.(events := events), Some(e))
    ensures PollEvent(s.(events := [])) == (s.(events := []), None)
  {
    Parts(q, [p]);
    Parts([e], events);
  }

  /** The jitter comes from xorshift32, which never reaches zero from elsewhere; its sequence from 1 is well known. */
  lemma XorShift(x: bv32)
    ensures NextRand(1) == 270_369 && NextRand(270_369) == 67_634_689 && NextRand(67_634_689) == 2_647_435_461
    ensures x != 0 ==> NextRand(x) != 0
  {
  }
}
