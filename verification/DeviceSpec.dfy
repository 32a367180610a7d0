/** The device side of SSDP as a transition system: one function for every call of the state machine. */
module DeviceSpec {
  import opened Wrappers
  import opened Text
  import opened Target
  import opened Fields
  import opened Messages
  import opened Encode
  import opened Timers
  import ParserImage

  const MAX_TARGETS := 8
  const MAX_LOCATION_LEN := 256
  const MAX_UUID_LEN := 64
  const MAX_SERVER_LEN := 128
  const MAX_URN_LEN := 128
  const MAX_EVENTS := 4
  const MAX_PENDING := 16
  const SCRATCH_LEN := 4096
  const STAGING_LEN := 1024
  const DEVICE_TIMERS := 8
  const INITIAL_ALIVE_COUNT := 3
  const MULTICAST_HOST: Bytes := "239.255.255.250:1900"
  const DEFAULT_MAX_AGE: Nanos := 1800 * SECOND

  datatype Address = Address(ip: Bytes, port: u16)

  datatype Destination = MulticastV4 | MulticastV6LinkLocal | MulticastV6SiteLocal | Unicast(addr: Address)

  datatype Packet = Packet(dest: Destination, payload: Bytes)

  datatype AdvertEntry = AdvertEntry(nt: Bytes, maxAge: Nanos, initialRemaining: nat)

  datatype DeviceEvent = SearchReceived(source: Address) | EncodeFailed(error: EncodeError)

  datatype Config = Config(uuid: Bytes, location: Bytes, server: Option<Bytes>, bootid: u32, configid: u32)

  /** Everything a device remembers. The outbox is a stack of whole datagrams, newest last. */
  datatype DeviceState = DeviceState(
    cfg: Config, targets: seq<AdvertEntry>, timers: seq<Slot>, outbox: seq<Packet>,
    events: seq<DeviceEvent>, shuttingDown: bool, rng: bv32)

  // ---------- targets ----------

  // The text a target is stored under, if it fits. The encoder that produces a URN also needs
  // room for the four octets around it.
  function TargetString(t: Target): Option<Bytes> {
    var text := TargetText(t);
    var room := if t.DeviceType? || t.ServiceType? then MAX_URN_LEN - 4 else MAX_URN_LEN;
    if |text| <= room then Some(text) else None
  }

  function ReparseTarget(s: Bytes): Target {
    match ParseTarget(s) case Ok(t) => t case Err(_) => All
  }

  function MakeUsn(uuid: Bytes, nt: Target): Usn {
    Usn(uuid, if nt.Uuid? || nt.All? then None else Some(nt))
  }

  predicate TargetMatches(search: Target, advertised: Target) {
    match (search, advertised)
    case (All, _) => true
    case (RootDevice, RootDevice) => true
    case (Uuid(a), Uuid(b)) => EqIgnoreCase(a, b)
    case (DeviceType(d1, k1, v1), DeviceType(d2, k2, v2)) => EqIgnoreCase(d1, d2) && EqIgnoreCase(k1, k2) && v1 <= v2
    case (ServiceType(d1, k1, v1), ServiceType(d2, k2, v2)) => EqIgnoreCase(d1, d2) && EqIgnoreCase(k1, k2) && v1 <= v2
    case _ => false
  }

  function ResponseTarget(search: Target, advertised: Target): Target {
    if (search.DeviceType? || search.ServiceType?) && TargetMatches(search, advertised) then search else advertised
  }

  // ---------- messages ----------

  function AliveFor(cfg: Config, e: AdvertEntry): Notify {
    var nt := ReparseTarget(e.nt);
    Notify(MULTICAST_HOST, nt, Alive, MakeUsn(cfg.uuid, nt), Some(cfg.location), Some(e.maxAge), cfg.server,
           Some(cfg.bootid), Some(cfg.configid), None, None)
  }

  function ByeByeFor(cfg: Config, e: AdvertEntry): Notify {
    var nt := ReparseTarget(e.nt);
    Notify(MULTICAST_HOST, nt, ByeBye, MakeUsn(cfg.uuid, nt), None, None, None,
           Some(cfg.bootid), Some(cfg.configid), None, None)
  }

  function ReplyFor(cfg: Config, e: AdvertEntry, search: Target): Response {
    var st := ResponseTarget(search, ReparseTarget(e.nt));
    Response(st, MakeUsn(cfg.uuid, st), cfg.location, e.maxAge, cfg.server, Some(cfg.bootid), Some(cfg.configid), None)
  }

  function Alives(cfg: Config, targets: seq<AdvertEntry>): seq<Notify> {
    seq(|targets|, i requires 0 <= i < |targets| => AliveFor(cfg, targets[i]))
  }

  function ByeByes(cfg: Config, targets: seq<AdvertEntry>): seq<Notify> {
    seq(|targets|, i requires 0 <= i < |targets| => ByeByeFor(cfg, targets[i]))
  }

  // ---------- the outbox ----------

  function OutboxBytes(q: seq<Packet>): nat {
    if q == [] then 0 else OutboxBytes(q[..|q| - 1]) + |q[|q| - 1].payload|
  }

  // Adds a datagram, or refuses it when the octets or the places run out.
  function Enqueue(q: seq<Packet>, p: Packet): Option<seq<Packet>> {
    if OutboxBytes(q) + |p.payload| > SCRATCH_LEN || |q| >= MAX_PENDING then None else Some(q + [p])
  }

  function PushEvent(events: seq<DeviceEvent>, e: DeviceEvent): seq<DeviceEvent> {
    if |events| < MAX_EVENTS then events + [e] else events
  }

  function EnqueueNotify(s: DeviceState, m: Notify): DeviceState {
    if |NotifyText(m)| > STAGING_LEN then s
    else
      match Enqueue(s.outbox, Packet(MulticastV4, NotifyText(m)))
      case Some(q) => s.(outbox := q)
      case None => s.(events := PushEvent(s.events, EncodeFailed(BufferTooSmall)))
  }

  // A notification that does not fit is skipped; the rest still go out.
  function SendAll(s: DeviceState, ms: seq<Notify>): (r: DeviceState)
    ensures r == s.(outbox := r.outbox, events := r.events)
    decreases |ms|
  {
    if ms == [] then s else SendAll(EnqueueNotify(s, ms[0]), ms[1..])
  }

  // Replies stop at the first that does not fit.
  function SendReplies(q: seq<Packet>, cfg: Config, source: Address, search: Target,
                       entries: seq<AdvertEntry>): seq<Packet>
    decreases |entries|
  {
    if entries == [] then q
    else if !TargetMatches(search, ReparseTarget(entries[0].nt)) then SendReplies(q, cfg, source, search, entries[1..])
    else
      var text := ResponseText(ReplyFor(cfg, entries[0], search));
      if |text| > STAGING_LEN then q
      else
        match Enqueue(q, Packet(Unicast(source), text))
        case None => q
        case Some(q') => SendReplies(q', cfg, source, search, entries[1..])
  }

  // ---------- timers and counters ----------

  // xorshift32
  function NextRand(x: bv32): bv32 {
    var a := x ^ (x << 13);
    var b := a ^ (a >> 17);
    b ^ (b << 5)
  }

  function Below(x: bv32, n: nat): (r: nat)
    requires n > 0
    ensures r < n
  {
    Remainder(x as nat, n)
  }

  function Remainder(m: nat, n: nat): (r: nat)
    requires n > 0
    ensures r < n
  {
    m % n
  }

  function Tick(t: AdvertEntry): AdvertEntry {
    if t.initialRemaining > 0 then t.(initialRemaining := t.initialRemaining - 1) else t
  }

  // One round counts down the first counter that is not yet done, and every exhausted one before it.
  function CountDown(targets: seq<AdvertEntry>): (r: (seq<AdvertEntry>, bool))
    ensures |r.0| == |targets|
    ensures forall i | 0 <= i < |targets| :: r.0[i] == targets[i].(initialRemaining := r.0[i].initialRemaining)
  {
    if targets == [] then ([], true)
    else
      var t := Tick(targets[0]);
      if t.initialRemaining > 0 then ([t] + targets[1..], false)
      else
        var (rest, done) := CountDown(targets[1..]);
        ([t] + rest, done)
  }

  // The round in one sentence: everything before `i` runs out, `i` does not, the rest is not reached.
  lemma {:induction false} CountDownIs(was: seq<AdvertEntry>, ts: seq<AdvertEntry>, i: nat)
    requires i <= |was| == |ts|
    requires forall j | 0 <= j < i :: ts[j] == Tick(was[j]) && ts[j].initialRemaining == 0
    requires i < |was| ==> ts[i] == Tick(was[i]) && ts[i].initialRemaining > 0
    requires forall j | i < j < |was| :: ts[j] == was[j]
    ensures CountDown(was) == (ts, i == |was|)
  {
    if was != [] {
      assert ts == [ts[0]] + ts[1..];
      if i == 0 {
        assert ts[1..] == was[1..];
      } else {
        CountDownIs(was[1..], ts[1..], i - 1);
      }
    }
  }

  function MinMaxAge(targets: seq<AdvertEntry>): (r: Nanos)
    requires targets != []
    ensures forall i | 0 <= i < |targets| :: r <= targets[i].maxAge
    ensures exists i :: 0 <= i < |targets| && r == targets[i].maxAge
  {
    if |targets| == 1 then targets[0].maxAge
    else
      var rest := MinMaxAge(targets[1..]);
      assert forall i | 1 <= i < |targets| :: targets[i] == targets[1..][i - 1];
      assert forall i | 0 <= i < |targets| - 1 :: targets[1..][i] == targets[i + 1];
      if targets[0].maxAge < rest then targets[0].maxAge else rest
  }

  function RefreshInterval(targets: seq<AdvertEntry>): Nanos {
    (if targets == [] then DEFAULT_MAX_AGE else MinMaxAge(targets)) / 2
  }

  function ScheduleRefresh(s: DeviceState, now: Nanos): DeviceState {
    s.(timers := SetTimer(s.timers, Timer(now + RefreshInterval(s.targets), AliveRefresh)))
  }

  function OnInitialAlive(s: DeviceState, now: Nanos): DeviceState {
    var sent := SendAll(s, Alives(s.cfg, s.targets));
    var (targets, done) := CountDown(s.targets);
    if done then ScheduleRefresh(sent.(targets := targets), now)
    else
      var r := NextRand(s.rng);
      var fireAt := now + (100 + Below(r, 100)) * MILLISECOND;
      sent.(targets := targets, rng := r, timers := SetTimer(s.timers, Timer(fireAt, InitialAlive)))
  }

  function OnAliveRefresh(s: DeviceState, now: Nanos): DeviceState {
    if s.shuttingDown then SendAll(s, ByeByes(s.cfg, s.targets))
    else ScheduleRefresh(SendAll(s, Alives(s.cfg, s.targets)), now)
  }

  function Fire(s: DeviceState, now: Nanos, k: TimerKind): DeviceState {
    match k
    case InitialAlive => OnInitialAlive(s, now)
    case AliveRefresh => OnAliveRefresh(s, now)
    case _ => s
  }

  function FireAll(s: DeviceState, now: Nanos, kinds: seq<TimerKind>): DeviceState
    decreases |kinds|
  {
    if kinds == [] then s else FireAll(Fire(s, now, kinds[0]), now, kinds[1..])
  }

  // ---------- the calls ----------

  function New(uuid: Bytes, location: Bytes, server: Option<Bytes>, bootid: u32, configid: u32,
               seed: bv32): DeviceState {
    DeviceState(
      Config(if |uuid| <= MAX_UUID_LEN then uuid else "",
             if |location| <= MAX_LOCATION_LEN then location else "",
             if server.Some? && |server.value| <= MAX_SERVER_LEN then server else None,
             bootid, configid),
      [], seq(DEVICE_TIMERS, _ => None), [], [], false, seed)
  }

  // The new state, and whether the target was registered.
  function AddTarget(s: DeviceState, t: Target, maxAge: Nanos): (DeviceState, bool) {
    if |s.targets| >= MAX_TARGETS then (s, false)
    else
      match TargetString(t)
      case None => (s, false)
      case Some(nt) => (s.(targets := s.targets + [AdvertEntry(nt, maxAge, INITIAL_ALIVE_COUNT)]), true)
  }

  function Start(s: DeviceState, now: Nanos): DeviceState {
    s.(timers := SetTimer(s.timers, Timer(now, InitialAlive)))
  }

  function Shutdown(s: DeviceState, now: Nanos): DeviceState {
    var sent := SendAll(s.(shuttingDown := true), ByeByes(s.cfg, s.targets));
    var t1 := SetTimer(s.timers, Timer(now, SearchReply));
    sent.(timers := CancelTimer(CancelTimer(t1, AliveRefresh), InitialAlive))
  }

  lemma ParsedMx(payload: Bytes)
    ensures match ParseDatagram(payload) case Ok(Search(m)) => MX_MIN <= m.mx <= MX_MAX case _ => true
  {
    hide ParseDatagram, CleanText, TargetOk, OptClean, WellFormedNotify, WellFormedResponse;
    ParserImage.ParsedIsWellFormed(payload);
  }

  // The answer leaves at once; the jittered timer only wakes the caller.
  function OnSearch(s: DeviceState, now: Nanos, source: Address, m: MSearch): DeviceState
    requires m.mx > 0
  {
    var r := NextRand(s.rng);
    var fireAt := now + Below(r, m.mx * 1000) * MILLISECOND;
    s.(events := PushEvent(s.events, SearchReceived(source)), rng := r,
       timers := SetTimer(s.timers, Timer(fireAt, SearchReply)),
       outbox := SendReplies(s.outbox, s.cfg, source, m.st, s.targets))
  }

  function HandleDatagram(s: DeviceState, now: Nanos, source: Address, payload: Bytes): DeviceState {
    ParsedMx(payload);
    match ParseDatagram(payload)
    case Ok(Search(m)) => OnSearch(s, now, source, m)
    case _ => s
  }

  function HandleTimeout(s: DeviceState, now: Nanos): DeviceState {
    FireAll(s.(timers := ClearDue(s.timers, now)), now, DueKinds(s.timers, now))
  }

  // The newest datagram leaves first, cut to the caller's buffer.
  function PollTransmit(s: DeviceState, room: nat): (DeviceState, Option<Packet>) {
    var n := |s.outbox|;
    if n == 0 then (s, None)
    else
      var p := s.outbox[n - 1];
      (s.(outbox := s.outbox[..n - 1]),
       Some(p.(payload := if |p.payload| <= room then p.payload else p.payload[..room])))
  }

  function PollEvent(s: DeviceState): (DeviceState, Option<DeviceEvent>) {
    if s.events == [] then (s, None) else (s.(events := s.events[1..]), Some(s.events[0]))
  }
}
