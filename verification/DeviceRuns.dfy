/** Properties of whole runs of a device: its life cycle, its initial burst and what it may say when. */
module DeviceRuns {
  import opened Wrappers
  import opened Text
  import opened Target
  import opened Fields
  import opened Messages
  import opened Timers
  import opened DeviceSpec
  import opened DeviceBounds
  import opened Wire
  import ParserImage

  datatype Input =
    | DoRegister(target: Target, maxAge: Nanos)
    | DoStart(now: Nanos)
    | DoShutdown(now: Nanos)
    | DoDatagram(now: Nanos, source: Address, payload: Bytes)
    | DoTimeout(now: Nanos)
    | DoTransmit(room: nat)
    | DoEvent

  function Step(s: DeviceState, i: Input): DeviceState {
    match i
    case DoRegister(t, maxAge) => AddTarget(s, t, maxAge).0
    case DoStart(now) => Start(s, now)
    case DoShutdown(now) => Shutdown(s, now)
    case DoDatagram(now, source, payload) => HandleDatagram(s, now, source, payload)
    case DoTimeout(now) => HandleTimeout(s, now)
    case DoTransmit(room) => PollTransmit(s, room).0
    case DoEvent => PollEvent(s).0
  }

  function Run(s: DeviceState, inputs: seq<Input>): DeviceState
    decreases |inputs|
  {
    if inputs == [] then s else Run(Step(s, inputs[0]), inputs[1..])
  }

  // ---------- the life cycle ----------

  datatype Phase = Idle | Live | Closed

  function NextPhase(p: Phase, i: Input): Phase {
    match i
    case DoStart(_) => Live
    case DoShutdown(_) => Closed
    case _ => p
  }

  function PhaseAfter(p: Phase, inputs: seq<Input>): Phase
    decreases |inputs|
  {
    if inputs == [] then p else PhaseAfter(NextPhase(p, inputs[0]), inputs[1..])
  }

  // There is one start, and none after shutdown.
  predicate Legal(p: Phase, inputs: seq<Input>)
    decreases |inputs|
  {
    inputs == [] || ((inputs[0].DoStart? ==> p == Idle) && Legal(NextPhase(p, inputs[0]), inputs[1..]))
  }

  predicate InitialPending(s: DeviceState) {
    Deadline(s.timers, InitialAlive).Some?
  }

  predicate RefreshPending(s: DeviceState) {
    Deadline(s.timers, AliveRefresh).Some?
  }

  // How many more rounds the counters allow the initial burst.
  function RoundsLeft(targets: seq<AdvertEntry>): nat {
    if targets == [] then 1 else RoundsLeft(targets[1..]) + Excess(targets[0])
  }

  function Excess(t: AdvertEntry): nat {
    if t.initialRemaining > 0 then t.initialRemaining - 1 else 0
  }

  ghost predicate PhaseInv(p: Phase, s: DeviceState) {
    && DeviceInv(s)
    && match p
       case Idle => !s.shuttingDown && !InitialPending(s) && !RefreshPending(s)
       case Live => !s.shuttingDown && (InitialPending(s) <==> !RefreshPending(s))
       case Closed => s.shuttingDown && !InitialPending(s) && !RefreshPending(s)
  }

  // How `rounds`, the number of initial rounds sent so far, and the counters add up.
  predicate BurstInv(p: Phase, s: DeviceState, rounds: nat) {
    var whole := 2 * |s.targets| + 1;
    match p
    case Idle => rounds == 0 && RoundsLeft(s.targets) == whole
    case Live =>
      && (InitialPending(s) ==> rounds + RoundsLeft(s.targets) == whole)
      && (RefreshPending(s) ==> rounds == whole)
    case Closed => true
  }

  // ---------- what a timeout does ----------

  predicate Quiet(k: TimerKind) {
    k != InitialAlive && k != AliveRefresh
  }

  lemma {:induction false} FireQuiet(s: DeviceState, now: Nanos, kinds: seq<TimerKind>)
    requires forall i | 0 <= i < |kinds| :: Quiet(kinds[i])
    ensures FireAll(s, now, kinds) == s
    decreases |kinds|
  {
    hide OnInitialAlive, OnAliveRefresh;
    if kinds != [] {
      FireQuiet(s, now, kinds[1..]);
    }
  }

  lemma {:induction false} FireOne(s: DeviceState, now: Nanos, kinds: seq<TimerKind>, i: nat)
    requires i < |kinds| && forall j | 0 <= j < |kinds| && j != i :: Quiet(kinds[j])
    ensures FireAll(s, now, kinds) == Fire(s, now, kinds[i])
    decreases |kinds|
  {
    hide OnInitialAlive, OnAliveRefresh;
    if i == 0 {
      FireQuiet(Fire(s, now, kinds[0]), now, kinds[1..]);
    } else {
      FireOne(s, now, kinds[1..], i - 1);
    }
  }

  predicate DueNow(s: DeviceState, k: TimerKind, now: Nanos) {
    Deadline(s.timers, k).Some? && Deadline(s.timers, k).value <= now
  }

  function Drained(s: DeviceState, now: Nanos): DeviceState {
    s.(timers := ClearDue(s.timers, now))
  }

  /** With at most one of the two announcement timers pending, a timeout is at most one round. */
  lemma TimeoutIs(s: DeviceState, now: Nanos)
    requires TimersOk(s.timers) && !(InitialPending(s) && RefreshPending(s))
    ensures HandleTimeout(s, now) ==
      if DueNow(s, InitialAlive, now) then OnInitialAlive(Drained(s, now), now)
      else if DueNow(s, AliveRefresh, now) then OnAliveRefresh(Drained(s, now), now)
      else Drained(s, now)
    ensures TimersOk(ClearDue(s.timers, now))
    ensures forall k ::
              Deadline(ClearDue(s.timers, now), k) == if DueNow(s, k, now) then None else Deadline(s.timers, k)
  {
    hide DueKinds, ClearDue, Deadline, OnInitialAlive, OnAliveRefresh, OnePerKind;
    var kinds := DueKinds(s.timers, now);
    forall k
      ensures k in kinds <==> DueNow(s, k, now)
      ensures Deadline(ClearDue(s.timers, now), k) == if DueNow(s, k, now) then None else Deadline(s.timers, k)
    {
      DrainMeans(s.timers, DEVICE_KINDS, now, k);
    }
    DrainMeans(s.timers, DEVICE_KINDS, now, InitialAlive);
    if loud :| !Quiet(loud) && loud in kinds {
      var i :| 0 <= i < |kinds| && kinds[i] == loud;
      FireOne(Drained(s, now), now, kinds, i);
    } else {
      FireQuiet(Drained(s, now), now, kinds);
    }
  }

  // ---------- the countdown ----------

  /** A round is the last of the burst exactly when one is left; any other round takes exactly one away. */
  lemma {:induction false} CountDownRounds(targets: seq<AdvertEntry>)
    ensures CountDown(targets).1 <==> RoundsLeft(targets) == 1
    ensures !CountDown(targets).1 ==> RoundsLeft(CountDown(targets).0) == RoundsLeft(targets) - 1
  {
    if targets != [] {
      CountDownRounds(targets[1..]);
      var t := Tick(targets[0]);
      assert ([t] + targets[1..])[1..] == targets[1..];
      assert ([t] + CountDown(targets[1..]).0)[1..] == CountDown(targets[1..]).0;
    }
  }

  lemma {:induction false} RegisterRounds(targets: seq<AdvertEntry>, e: AdvertEntry)
    ensures RoundsLeft(targets + [e]) == RoundsLeft(targets) + Excess(e)
  {
    if targets == [] {
      assert [e][1..] == [];
    } else {
      assert (targets + [e])[1..] == targets[1..] + [e];
      RegisterRounds(targets[1..], e);
    }
  }

  // ---------- the invariant over runs ----------

  function RoundsIn(s: DeviceState, i: Input): nat {
    if i.DoTimeout? && DueNow(s, InitialAlive, i.now) then 1 else 0
  }

  lemma TimeoutKeepsPhase(p: Phase, s: DeviceState, rounds: nat, now: Nanos)
    requires PhaseInv(p, s)
    ensures PhaseInv(p, HandleTimeout(s, now))
    ensures BurstInv(p, s, rounds) ==> BurstInv(p, HandleTimeout(s, now), rounds + RoundsIn(s, DoTimeout(now)))
  {
    hide HandleTimeout, SendAll, Alives, ByeByes, CountDown, NextRand, Below, SetTimer, RefreshInterval, Deadline,
         TimersOk, TargetsBounded, OutboxBytes, ConfigBounded, RoundsLeft, ClearDue;
    HandleTimeoutKeeps(s, now);
    TimeoutIs(s, now);
    var c := Drained(s, now);
    CountDownRounds(s.targets);
    var (targets, done) := CountDown(s.targets);
    SetKeeps(c.timers, Timer(now + RefreshInterval(targets), AliveRefresh));
    SetKeeps(c.timers, Timer(now + RefreshInterval(s.targets), AliveRefresh));
    SetKeeps(c.timers, Timer(now + (100 + Below(NextRand(s.rng), 100)) * MILLISECOND, InitialAlive));
  }

  // A target registered once the burst is over is announced by refreshes only.
  predicate TooLate(s: DeviceState, i: Input) {
    i.DoRegister? && RefreshPending(s)
  }

  lemma StepKeepsPhase(p: Phase, s: DeviceState, rounds: nat, i: Input)
    requires PhaseInv(p, s) && (i.DoStart? ==> p == Idle)
    ensures PhaseInv(NextPhase(p, i), Step(s, i))
    ensures BurstInv(p, s, rounds) && !TooLate(s, i) ==> BurstInv(NextPhase(p, i), Step(s, i), rounds + RoundsIn(s, i))
  {
    hide HandleTimeout, SendAll, Alives, ByeByes, SetTimer, CancelTimer, Deadline, ParseDatagram, SendReplies,
         TimersOk, TargetsBounded, OutboxBytes, ConfigBounded, RoundsLeft, NextRand, Below, Stored, TargetString;
    match i
    case DoRegister(t, maxAge) =>
      AddTargetKeeps(s, t, maxAge);
      if AddTarget(s, t, maxAge).1 {
        RegisterRounds(s.targets, AdvertEntry(TargetString(t).value, maxAge, INITIAL_ALIVE_COUNT));
      }
    case DoStart(now) =>
      SetKeeps(s.timers, Timer(now, InitialAlive));
    case DoShutdown(now) =>
      ShutdownKeeps(s, now);
      var t := SetTimer(s.timers, Timer(now, SearchReply));
      SetKeeps(s.timers, Timer(now, SearchReply));
      CancelKeeps(t, AliveRefresh);
      CancelKeeps(CancelTimer(t, AliveRefresh), InitialAlive);
    case DoDatagram(now, source, payload) =>
      HandleDatagramKeeps(s, now, source, payload);
      ParsedMx(payload);
      match ParseDatagram(payload) {
        case Ok(Search(m)) =>
          SetKeeps(s.timers, Timer(now + Below(NextRand(s.rng), m.mx * 1000) * MILLISECOND, SearchReply));
        case _ =>
      }
    case DoTimeout(now) =>
      TimeoutKeepsPhase(p, s, rounds, now);
    case DoTransmit(room) =>
      PollKeeps(s, room);
    case DoEvent =>
      PollKeeps(s, 0);
  }

  // The initial rounds sent in a run.
  function Rounds(s: DeviceState, inputs: seq<Input>): nat
    decreases |inputs|
  {
    if inputs == [] then 0 else RoundsIn(s, inputs[0]) + Rounds(Step(s, inputs[0]), inputs[1..])
  }

  // No target comes too late for the burst.
  predicate InTime(s: DeviceState, inputs: seq<Input>)
    decreases |inputs|
  {
    inputs == [] || (!TooLate(s, inputs[0]) && InTime(Step(s, inputs[0]), inputs[1..]))
  }

  lemma {:induction false} RunKeepsPhase(p: Phase, s: DeviceState, rounds: nat, inputs: seq<Input>)
    requires PhaseInv(p, s) && Legal(p, inputs)
    ensures PhaseInv(PhaseAfter(p, inputs), Run(s, inputs))
    ensures BurstInv(p, s, rounds) && InTime(s, inputs) ==>
      BurstInv(PhaseAfter(p, inputs), Run(s, inputs), rounds + Rounds(s, inputs))
    decreases |inputs|
  {
    hide PhaseInv, BurstInv, Step, RoundsIn, TooLate;
    if inputs != [] {
      StepKeepsPhase(p, s, rounds, inputs[0]);
      RunKeepsPhase(NextPhase(p, inputs[0]), Step(s, inputs[0]), rounds + RoundsIn(s, inputs[0]), inputs[1..]);
    }
  }

  lemma NewIsIdle(s: DeviceState, uuid: Bytes, location: Bytes, server: Option<Bytes>, bootid: u32, configid: u32,
                  seed: bv32)
    requires s == New(uuid, location, server, bootid, configid, seed)
    ensures PhaseInv(Idle, s) && BurstInv(Idle, s, 0)
  {
    NewHolds(uuid, location, server, bootid, configid, seed);
  }

  /**
   * Life cycle. In every run with one start: between start and shutdown exactly one of the two
   * announcement timers is pending; before and after, neither is.
   */
  lemma LifeCycle(s: DeviceState, uuid: Bytes, location: Bytes, server: Option<Bytes>, bootid: u32, configid: u32,
                  seed: bv32, inputs: seq<Input>)
    requires s == New(uuid, location, server, bootid, configid, seed) && Legal(Idle, inputs)
    ensures var r := Run(s, inputs);
            match PhaseAfter(Idle, inputs)
            case Live => !r.shuttingDown && (InitialPending(r) <==> !RefreshPending(r))
            case Idle => !r.shuttingDown && !InitialPending(r) && !RefreshPending(r)
            case Closed => r.shuttingDown && !InitialPending(r) && !RefreshPending(r)
    ensures DeviceInv(Run(s, inputs))
  {
    hide New, Run, PhaseAfter, Legal, InitialPending, RefreshPending, DeviceInv;
    NewIsIdle(s, uuid, location, server, bootid, configid, seed);
    RunKeepsPhase(Idle, s, 0, inputs);
  }

  /**
   * The burst. However searches, polls and early wake-ups interleave with it, the initial burst of a
   * device with n targets, registered before or during it, is over after exactly 2n + 1 rounds and never
   * before.
   */
  lemma BurstLength(s: DeviceState, uuid: Bytes, location: Bytes, server: Option<Bytes>, bootid: u32, configid: u32,
                    seed: bv32, inputs: seq<Input>)
    requires s == New(uuid, location, server, bootid, configid, seed) && Legal(Idle, inputs)
    requires PhaseAfter(Idle, inputs) == Live && InTime(s, inputs)
    ensures var n, r := |Run(s, inputs).targets|, Run(s, inputs);
            && (InitialPending(r) <==> Rounds(s, inputs) < 2 * n + 1)
            && (RefreshPending(r) <==> Rounds(s, inputs) == 2 * n + 1)
  {
    hide New, Run, PhaseAfter, Legal, InitialPending, RefreshPending, DeviceInv, Rounds, InTime;
    NewIsIdle(s, uuid, location, server, bootid, configid, seed);
    RunKeepsPhase(Idle, s, 0, inputs);
    RoundsLeftPositive(Run(s, inputs).targets);
  }

  lemma RoundsLeftPositive(targets: seq<AdvertEntry>)
    ensures RoundsLeft(targets) >= 1
  {
  }

  // ---------- after shutdown, whatever the configuration ----------

  // A reply of the device to a search, sent to one address, or a byebye of the device.
  ghost predicate Parting(cfg: Config, q: Packet) {
    || (exists e: AdvertEntry, st: Target, a: Address :: q == Packet(Unicast(a), ResponseText(ReplyFor(cfg, e, st))))
    || (exists e: AdvertEntry :: q == Packet(MulticastV4, NotifyText(ByeByeFor(cfg, e))))
  }

  // Nothing new but partings.
  ghost predicate OnlyPartings(cfg: Config, was: seq<Packet>, now: seq<Packet>) {
    forall q <- now :: q in was || Parting(cfg, q)
  }

  lemma {:induction false} RepliesArePartings(q: seq<Packet>, cfg: Config, source: Address, search: Target,
                                              entries: seq<AdvertEntry>)
    ensures OnlyPartings(cfg, q, SendReplies(q, cfg, source, search, entries))
    decreases |entries|
  {
    hide ResponseText, NotifyText, OutboxBytes, TargetMatches, ReplyFor, ReparseTarget, ByeByeFor;
    if entries != [] {
      var p := Packet(Unicast(source), ResponseText(ReplyFor(cfg, entries[0], search)));
      RepliesArePartings(q, cfg, source, search, entries[1..]);
      RepliesArePartings(q + [p], cfg, source, search, entries[1..]);
      assert Parting(cfg, p);
    }
  }

  lemma {:induction false} SendsOnly(s: DeviceState, ms: seq<Notify>)
    ensures forall q <- SendAll(s, ms).outbox ::
      q in s.outbox || exists i :: 0 <= i < |ms| && q == Packet(MulticastV4, NotifyText(ms[i]))
    decreases |ms|
  {
    hide NotifyText, OutboxBytes;
    if ms != [] {
      var next := EnqueueNotify(s, ms[0]);
      SendsOnly(next, ms[1..]);
      forall q <- SendAll(s, ms).outbox | q !in s.outbox
        ensures exists i :: 0 <= i < |ms| && q == Packet(MulticastV4, NotifyText(ms[i]))
      {
        if q in next.outbox {
          assert q == Packet(MulticastV4, NotifyText(ms[0]));
        } else {
          var j :| 0 <= j < |ms[1..]| && q == Packet(MulticastV4, NotifyText(ms[1..][j]));
          assert ms[1..][j] == ms[j + 1];
        }
      }
    }
  }

  lemma ByeByesArePartings(s: DeviceState)
    ensures OnlyPartings(s.cfg, s.outbox, SendAll(s, ByeByes(s.cfg, s.targets)).outbox)
  {
    hide NotifyText, ByeByeFor, SendAll;
    var ms := ByeByes(s.cfg, s.targets);
    SendsOnly(s, ms);
    forall q <- SendAll(s, ms).outbox | q !in s.outbox
      ensures Parting(s.cfg, q)
    {
      var i :| 0 <= i < |ms| && q == Packet(MulticastV4, NotifyText(ms[i]));
      assert ms[i] == ByeByeFor(s.cfg, s.targets[i]);
    }
  }

  // A closed device never starts a round again.
  lemma ClosedTimeout(s: DeviceState, now: Nanos)
    requires PhaseInv(Closed, s)
    ensures HandleTimeout(s, now) == Drained(s, now)
  {
    hide HandleTimeout, OnInitialAlive, OnAliveRefresh, ClearDue, Deadline, TargetsBounded, OutboxBytes, ConfigBounded;
    TimeoutIs(s, now);
  }

  lemma ClosedStep(s: DeviceState, i: Input)
    requires PhaseInv(Closed, s) && !i.DoStart?
    ensures PhaseInv(Closed, Step(s, i)) && Step(s, i).cfg == s.cfg
    ensures OnlyPartings(s.cfg, s.outbox, Step(s, i).outbox)
  {
    hide HandleTimeout, SendAll, ByeByes, SetTimer, CancelTimer, ParseDatagram, SendReplies, NextRand, Below,
         PhaseInv, BurstInv,
         TargetString, NotifyText, ByeByeFor, ClearDue;
    StepKeepsPhase(Closed, s, 0, i);
    match i
    case DoShutdown(now) => ByeByesArePartings(s.(shuttingDown := true));
    case DoDatagram(now, source, payload) =>
      ParsedMx(payload);
      match ParseDatagram(payload) {
        case Ok(Search(m)) => RepliesArePartings(s.outbox, s.cfg, source, m.st, s.targets);
        case _ =>
      }
    case DoTimeout(now) => ClosedTimeout(s, now);
    case _ =>
  }

  lemma {:induction false} ClosedRun(s: DeviceState, inputs: seq<Input>)
    requires PhaseInv(Closed, s) && Legal(Closed, inputs)
    ensures Run(s, inputs).cfg == s.cfg && OnlyPartings(s.cfg, s.outbox, Run(s, inputs).outbox)
    decreases |inputs|
  {
    hide PhaseInv, Step, Parting;
    if inputs != [] {
      ClosedStep(s, inputs[0]);
      ClosedRun(Step(s, inputs[0]), inputs[1..]);
    }
  }

  /**
   * Shutdown is final. In every legal run, whatever the configuration, the queue and the buffers, no
   * announcement is encoded again once the device has been shut down: everything in its outbox was
   * there before, or is a reply to a search, or a byebye.
   */
  lemma NothingEncodedAfterShutdown(s: DeviceState, uuid: Bytes, location: Bytes, server: Option<Bytes>, bootid: u32,
                                    configid: u32, seed: bv32, before: seq<Input>, now: Nanos, after: seq<Input>)
    requires s == New(uuid, location, server, bootid, configid, seed)
    requires Legal(Idle, before) && Legal(Closed, after)
    ensures OnlyPartings(s.cfg, Run(s, before).outbox, Run(Shutdown(Run(s, before), now), after).outbox)
  {
    hide New, PhaseInv, BurstInv, Run, Legal, Shutdown, Parting, InTime;
    NewIsIdle(s, uuid, location, server, bootid, configid, seed);
    RunKeepsPhase(Idle, s, 0, before);
    RunKeepsConfig(s, before);
    var quiet := Run(s, before);
    StepKeepsPhase(PhaseAfter(Idle, before), quiet, 0, DoShutdown(now));
    ShutdownParts(quiet, now);
    ClosedRun(Shutdown(quiet, now), after);
  }

  lemma ShutdownParts(s: DeviceState, now: Nanos)
    ensures Shutdown(s, now).cfg == s.cfg && OnlyPartings(s.cfg, s.outbox, Shutdown(s, now).outbox)
  {
    hide SendAll, ByeByes, SetTimer, CancelTimer, Parting;
    ByeByesArePartings(s.(shuttingDown := true));
  }

  lemma {:induction false} FireAllKeepsConfig(s: DeviceState, now: Nanos, kinds: seq<TimerKind>)
    ensures FireAll(s, now, kinds).cfg == s.cfg
    decreases |kinds|
  {
    hide SendAll, Alives, ByeByes, CountDown, NextRand, Below, SetTimer, RefreshInterval;
    if kinds != [] {
      FireAllKeepsConfig(Fire(s, now, kinds[0]), now, kinds[1..]);
    }
  }

  lemma {:induction false} RunKeepsConfig(s: DeviceState, inputs: seq<Input>)
    ensures Run(s, inputs).cfg == s.cfg
    decreases |inputs|
  {
    hide SendAll, ByeByes, SetTimer, CancelTimer, ParseDatagram, SendReplies, NextRand, Below, TargetString, FireAll,
         ClearDue, DueKinds;
    if inputs != [] {
      var i := inputs[0];
      if i.DoTimeout? {
        FireAllKeepsConfig(s.(timers := ClearDue(s.timers, i.now)), i.now, DueKinds(s.timers, i.now));
      }
      RunKeepsConfig(Step(s, i), inputs[1..]);
    }
  }

  // ---------- what the datagrams say ----------

  // What a listener makes of a datagram.
  datatype Utterance = Announces(nts: SubType) | Answers | Otherwise

  function Says(payload: Bytes): Utterance {
    match ParseDatagram(payload)
    case Ok(Announcement(n)) => Announces(n.nts)
    case Ok(SearchResponse(_)) => Answers
    case _ => Otherwise
  }

  ghost predicate Speaks(q: Packet, allowed: set<Utterance>) {
    |q.payload| <= STAGING_LEN && Says(q.payload) in allowed
  }

  ghost predicate AllSpeak(outbox: seq<Packet>, allowed: set<Utterance>) {
    forall q <- outbox :: Speaks(q, allowed)
  }

  // What a device may put on the wire in each phase.
  function Allowed(p: Phase): set<Utterance> {
    if p == Closed then {Answers, Announces(ByeBye)} else {Answers, Announces(Alive)}
  }

  ghost predicate Printable(s: DeviceState) {
    ConfigOk(s.cfg) && TargetsOk(s.targets)
  }

  lemma {:induction false} SendAllSpeaks(s: DeviceState, ms: seq<Notify>, allowed: set<Utterance>)
    requires AllSpeak(s.outbox, allowed)
    requires forall i | 0 <= i < |ms| :: Says(NotifyText(ms[i])) in allowed
    ensures AllSpeak(SendAll(s, ms).outbox, allowed)
    decreases |ms|
  {
    hide NotifyText, Says, OutboxBytes;
    if ms != [] {
      SendAllSpeaks(EnqueueNotify(s, ms[0]), ms[1..], allowed);
    }
  }

  lemma NotificationsSay(cfg: Config, e: AdvertEntry)
    requires ConfigOk(cfg) && CleanText(e.nt)
    ensures Says(NotifyText(AliveFor(cfg, e))) == Announces(Alive)
    ensures Says(NotifyText(ByeByeFor(cfg, e))) == Announces(ByeBye)
  {
    hide NotifyText, ParseDatagram, UuidOk, LocationOk, OptClean, CleanText, ReparseTarget, MakeUsn, OnWire;
    AliveOnWire(cfg, e);
    ByeByeOnWire(cfg, e);
  }

  lemma AlivesSpeak(cfg: Config, targets: seq<AdvertEntry>)
    requires ConfigOk(cfg) && TargetsOk(targets)
    ensures forall i | 0 <= i < |targets| :: Says(NotifyText(Alives(cfg, targets)[i])) == Announces(Alive)
    ensures forall i | 0 <= i < |targets| :: Says(NotifyText(ByeByes(cfg, targets)[i])) == Announces(ByeBye)
  {
    hide NotifyText, Says, ConfigOk, CleanText, AliveFor, ByeByeFor;
    forall i | 0 <= i < |targets|
      ensures Says(NotifyText(Alives(cfg, targets)[i])) == Announces(Alive)
      ensures Says(NotifyText(ByeByes(cfg, targets)[i])) == Announces(ByeBye)
    {
      NotificationsSay(cfg, targets[i]);
    }
  }

  lemma {:induction false} RepliesSpeak(q: seq<Packet>, cfg: Config, source: Address, search: Target,
                                        entries: seq<AdvertEntry>, allowed: set<Utterance>)
    requires ConfigOk(cfg) && TargetsOk(entries) && TargetOk(search) && Answers in allowed
    requires AllSpeak(q, allowed)
    ensures AllSpeak(SendReplies(q, cfg, source, search, entries), allowed)
    decreases |entries|
  {
    hide ResponseText, ParseDatagram, ConfigOk, CleanText, TargetOk, OutboxBytes, TargetMatches, ReplyFor,
         ReparseTarget;
    if entries != [] {
      ReplyOnWire(cfg, entries[0], search);
      var p := Packet(Unicast(source), ResponseText(ReplyFor(cfg, entries[0], search)));
      RepliesSpeak(q, cfg, source, search, entries[1..], allowed);
      if |p.payload| <= STAGING_LEN {
        assert Speaks(p, allowed);
        RepliesSpeak(q + [p], cfg, source, search, entries[1..], allowed);
      }
    }
  }

  predicate Tame(i: Input) {
    && (i.DoRegister? ==> TargetOk(i.target))
    && (i.DoTransmit? ==> i.room >= STAGING_LEN)
  }

  lemma CountDownKeepsText(targets: seq<AdvertEntry>)
    requires TargetsOk(targets)
    ensures TargetsOk(CountDown(targets).0)
  {
    hide CountDown, CleanText;
  }

  lemma TimeoutSpeaks(p: Phase, s: DeviceState, now: Nanos)
    requires PhaseInv(p, s) && Printable(s) && AllSpeak(s.outbox, Allowed(p))
    ensures Printable(HandleTimeout(s, now)) && AllSpeak(HandleTimeout(s, now).outbox, Allowed(p))
  {
    hide HandleTimeout, SendAll, Alives, ByeByes, CountDown, NextRand, Below, SetTimer, RefreshInterval, Deadline,
         DeviceInv, RoundsLeft, ClearDue, Says, AllSpeak, ConfigOk, TargetsOk;
    TimeoutIs(s, now) by {
      assert TimersOk(s.timers) by { InvTimers(s); }
    }
    AlivesSpeak(s.cfg, s.targets);
    CountDownKeepsText(s.targets);
    if p == Live {
      AlivesSpeak(s.cfg, s.targets);
      SendAllSpeaks(Drained(s, now), Alives(s.cfg, s.targets), Allowed(p)) by {
        assert |Alives(s.cfg, s.targets)| == |s.targets| by { AlivesLength(s); }
      }
    }
  }

  lemma InvTimers(s: DeviceState)
    requires DeviceInv(s)
    ensures TimersOk(s.timers)
  {
  }

  lemma AlivesLength(s: DeviceState)
    ensures |Alives(s.cfg, s.targets)| == |s.targets| == |ByeByes(s.cfg, s.targets)|
  {
  }

  lemma SearchSpeaks(p: Phase, s: DeviceState, now: Nanos, source: Address, payload: Bytes)
    requires Printable(s) && AllSpeak(s.outbox, Allowed(p))
    ensures Printable(HandleDatagram(s, now, source, payload))
      && AllSpeak(HandleDatagram(s, now, source, payload).outbox, Allowed(p))
  {
    hide ParseDatagram, SendReplies, AllSpeak, ConfigOk, TargetsOk, NextRand, Below, SetTimer, CleanText, TargetOk,
         WellFormedNotify, WellFormedResponse;
    ParserImage.ParsedIsWellFormed(payload);
    ParsedMx(payload);
    match ParseDatagram(payload)
    case Ok(Search(m)) => RepliesSpeak(s.outbox, s.cfg, source, m.st, s.targets, Allowed(p));
    case _ =>
  }

  lemma StepSpeaks(p: Phase, s: DeviceState, i: Input)
    requires PhaseInv(p, s) && Printable(s) && AllSpeak(s.outbox, Allowed(p)) && Tame(i)
    requires i.DoStart? ==> p == Idle
    requires i.DoShutdown? ==> p == Closed || s.outbox == []
    ensures Printable(Step(s, i)) && AllSpeak(Step(s, i).outbox, Allowed(NextPhase(p, i)))
  {
    hide HandleTimeout, HandleDatagram, Shutdown, SetTimer, PhaseInv, ConfigOk, CleanText, Says, AddTarget, TargetOk;
    match i
    case DoRegister(t, maxAge) => RegisterKeepsText(s, t, maxAge);
    case DoShutdown(now) => ShutdownSpeaks(s, now, Allowed(p));
    case DoDatagram(now, source, payload) => SearchSpeaks(p, s, now, source, payload);
    case DoTimeout(now) => TimeoutSpeaks(p, s, now);
    case _ =>
  }

  lemma RegisterKeepsText(s: DeviceState, t: Target, maxAge: Nanos)
    requires Printable(s) && TargetOk(t)
    ensures Printable(AddTarget(s, t, maxAge).0) && AddTarget(s, t, maxAge).0.outbox == s.outbox
  {
    hide TargetString, TargetOk, CleanText, ConfigOk;
    if TargetString(t).Some? {
      RegisteredReadsBack(t);
    }
  }

  lemma ShutdownSpeaks(s: DeviceState, now: Nanos, allowed: set<Utterance>)
    requires Printable(s) && (s.outbox == [] || (allowed == Allowed(Closed) && AllSpeak(s.outbox, allowed)))
    ensures Printable(Shutdown(s, now)) && AllSpeak(Shutdown(s, now).outbox, Allowed(Closed))
  {
    hide SendAll, ByeByes, SetTimer, CancelTimer, ConfigOk, CleanText, Says;
    AlivesSpeak(s.cfg, s.targets);
    AlivesLength(s);
    SendAllSpeaks(s.(shuttingDown := true), ByeByes(s.cfg, s.targets), Allowed(Closed));
  }

  // The datagrams a run hands out.
  function Sent(s: DeviceState, inputs: seq<Input>): seq<Packet>
    decreases |inputs|
  {
    if inputs == [] then []
    else
      var rest := Sent(Step(s, inputs[0]), inputs[1..]);
      if inputs[0].DoTransmit? && s.outbox != [] then [PollTransmit(s, inputs[0].room).1.value] + rest else rest
  }

  lemma {:induction false} RunSpeaks(p: Phase, s: DeviceState, inputs: seq<Input>)
    requires PhaseInv(p, s) && Printable(s) && AllSpeak(s.outbox, Allowed(p))
    requires Legal(p, inputs) && forall i <- inputs :: Tame(i) && (i.DoShutdown? ==> p == Closed)
    ensures AllSpeak(Sent(s, inputs), Allowed(p)) && Printable(Run(s, inputs))
    decreases |inputs|
  {
    hide PhaseInv, BurstInv, Step, RoundsIn, Printable, Speaks, Tame;
    if inputs != [] {
      var i := inputs[0];
      assert i in inputs;
      StepKeepsPhase(p, s, 0, i);
      StepSpeaks(p, s, i);
      assert Allowed(NextPhase(p, i)) == Allowed(p);
      RunSpeaks(NextPhase(p, i), Step(s, i), inputs[1..]);
      if i.DoTransmit? && s.outbox != [] {
        assert i.room >= STAGING_LEN by { TameRoom(i); }
        WholePacket(s, i.room, Allowed(p));
      }
    }
  }

  lemma TameRoom(i: Input)
    requires Tame(i) && i.DoTransmit?
    ensures i.room >= STAGING_LEN
  {
  }

  lemma WholePacket(s: DeviceState, room: nat, allowed: set<Utterance>)
    requires s.outbox != [] && AllSpeak(s.outbox, allowed) && room >= STAGING_LEN
    ensures Speaks(PollTransmit(s, room).1.value, allowed)
  {
    hide Says;
    assert s.outbox[|s.outbox| - 1] in s.outbox;
  }

  /**
   * On the wire farewell is final. When shutdown is called with nothing left to transmit, everything sent before
   * it is an alive announcement or a search reply, and everything sent after it is a byebye or a
   * search reply: on the wire no alive ever follows a byebye.
   */
  lemma NoAliveAfterByeBye(s: DeviceState, uuid: Bytes, location: Bytes, server: Option<Bytes>, bootid: u32,
                           configid: u32, seed: bv32, before: seq<Input>, now: Nanos, after: seq<Input>)
    requires s == New(uuid, location, server, bootid, configid, seed) && ConfigOk(s.cfg)
    requires Legal(Idle, before) && (forall i <- before :: Tame(i) && !i.DoShutdown?)
    requires Run(s, before).outbox == []
    requires Legal(Closed, after) && (forall i <- after :: Tame(i))
    ensures AllSpeak(Sent(s, before), {Answers, Announces(Alive)})
    ensures AllSpeak(Sent(Shutdown(Run(s, before), now), after), {Answers, Announces(ByeBye)})
  {
    hide New, PhaseInv, BurstInv, Run, Sent, Legal, ConfigOk, Shutdown, Tame, InTime;
    NewIsIdle(s, uuid, location, server, bootid, configid, seed);
    NewIsEmpty(s, uuid, location, server, bootid, configid, seed);
    RunKeepsPhase(Idle, s, 0, before);
    RunSpeaks(Idle, s, before);
    var p := PhaseAfter(Idle, before);
    var quiet := Run(s, before);
    StepKeepsPhase(p, quiet, 0, DoShutdown(now));
    TameShutdown(now);
    StepSpeaks(p, quiet, DoShutdown(now));
    RunSpeaks(Closed, Shutdown(quiet, now), after);
  }

  lemma TameShutdown(now: Nanos)
    ensures Tame(DoShutdown(now))
  {
  }

  lemma NewIsEmpty(s: DeviceState, uuid: Bytes, location: Bytes, server: Option<Bytes>, bootid: u32, configid: u32,
                   seed: bv32)
    requires s == New(uuid, location, server, bootid, configid, seed)
    ensures s.targets == [] && s.outbox == []
  {
  }
}
