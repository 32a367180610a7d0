/** The device state machine as an object; every method is proved to take the step of its specification. */
module Device {
  import opened Wrappers
  import opened Text
  import opened Target
  import opened Fields
  import opened Messages
  import opened Encode
  import opened Timers
  import opened DeviceSpec
  import ParserImage
  import Http

  // ---------- the arena: segments of one buffer ----------

  datatype Segment = Segment(dest: Destination, start: nat, len: nat)

  function End(p: seq<Segment>): nat {
    if p == [] then 0 else p[|p| - 1].start + p[|p| - 1].len
  }

  // Segments lie one after the other from the start of the buffer, without gaps.
  predicate Contiguous(p: seq<Segment>) {
    p == [] || (p[|p| - 1].start == End(p[..|p| - 1]) && Contiguous(p[..|p| - 1]))
  }

  // The datagrams the segments of `buf` spell.
  function Contents(p: seq<Segment>, buf: Bytes): (q: seq<Packet>)
    requires Contiguous(p) && End(p) <= |buf|
    ensures |q| == |p|
  {
    if p == [] then []
    else
      var last := p[|p| - 1];
      Contents(p[..|p| - 1], buf) + [Packet(last.dest, buf[last.start..last.start + last.len])]
  }

  lemma {:induction false} EndIsMaximum(p: seq<Segment>)
    requires Contiguous(p)
    ensures forall i | 0 <= i < |p| :: p[i].start + p[i].len <= End(p)
  {
    if p != [] {
      EndIsMaximum(p[..|p| - 1]);
    }
  }

  /** Pending datagrams occupy the arena from its start, in order, without gaps or overlaps. */
  lemma {:induction false} SegmentsAreDisjoint(p: seq<Segment>)
    requires Contiguous(p)
    ensures p != [] ==> p[0].start == 0
    ensures forall i | 0 <= i < |p| - 1 :: p[i].start + p[i].len == p[i + 1].start
    ensures forall i, j | 0 <= i < j < |p| :: p[i].start + p[i].len <= p[j].start
  {
    if p != [] {
      var before := p[..|p| - 1];
      SegmentsAreDisjoint(before);
      EndIsMaximum(before);
      assert forall i | 0 <= i < |before| :: before[i] == p[i];
    }
  }

  lemma {:induction false} ContentsBytes(p: seq<Segment>, buf: Bytes)
    requires Contiguous(p) && End(p) <= |buf|
    ensures OutboxBytes(Contents(p, buf)) == End(p)
  {
    if p != [] {
      ContentsBytes(p[..|p| - 1], buf);
      assert Contents(p, buf)[..|p| - 1] == Contents(p[..|p| - 1], buf);
    }
  }

  // Only the octets below the end matter.
  lemma {:induction false} ContentsFrame(p: seq<Segment>, a: Bytes, b: Bytes)
    requires Contiguous(p) && End(p) <= |a| && End(p) <= |b| && a[..End(p)] == b[..End(p)]
    ensures Contents(p, a) == Contents(p, b)
  {
    if p != [] {
      var last := p[|p| - 1];
      assert a[..last.start] == a[..End(p)][..last.start];
      assert b[..last.start] == b[..End(p)][..last.start];
      ContentsFrame(p[..|p| - 1], a, b);
      assert a[last.start..End(p)] == a[..End(p)][last.start..];
      assert b[last.start..End(p)] == b[..End(p)][last.start..];
    }
  }

  lemma ContentsPushed(p: seq<Segment>, dest: Destination, payload: Bytes, before: Bytes, after: Bytes)
    requires Contiguous(p) && End(p) <= |before| && End(p) + |payload| <= |after|
    requires before[..End(p)] == after[..End(p)]
    requires after[End(p)..End(p) + |payload|] == payload
    ensures var pushed := p + [Segment(dest, End(p), |payload|)];
            && Contiguous(pushed) && End(pushed) == End(p) + |payload|
            && Contents(pushed, after) == Contents(p, before) + [Packet(dest, payload)]
  {
    hide Contents, Contiguous, End;
    ContentsFrame(p, before, after);
    OneMoreSegment(p, Segment(dest, End(p), |payload|), after);
  }

  lemma OneMoreSegment(p: seq<Segment>, next: Segment, buf: Bytes)
    requires Contiguous(p) && End(p) <= |buf| && next.start == End(p) && next.start + next.len <= |buf|
    ensures Contiguous(p + [next]) && End(p + [next]) == next.start + next.len
    ensures Contents(p + [next], buf) == Contents(p, buf) + [Packet(next.dest, buf[next.start..next.start + next.len])]
  {
    hide Contents, Contiguous, End;
    var pushed := p + [next];
    Parts(p, [next]);
    assert pushed[|p|] == next;
    LastSegment(pushed, p, next, buf);
  }

  // The definitions, read at the last segment.
  lemma LastSegment(pushed: seq<Segment>, p: seq<Segment>, next: Segment, buf: Bytes)
    requires |pushed| == |p| + 1 && pushed[..|p|] == p && pushed[|p|] == next
    requires Contiguous(p) && End(p) <= |buf| && next.start == End(p) && next.start + next.len <= |buf|
    ensures Contiguous(pushed) && End(pushed) == next.start + next.len
    ensures Contents(pushed, buf) == Contents(p, buf) + [Packet(next.dest, buf[next.start..next.start + next.len])]
  {
  }

  // Dropping the last segment drops the last datagram.
  lemma PopSegment(p: seq<Segment>, buf: Bytes)
    requires p != [] && Contiguous(p) && End(p) <= |buf|
    ensures var last := p[|p| - 1];
            && Contiguous(p[..|p| - 1]) && End(p[..|p| - 1]) == last.start && last.start + last.len <= |buf|
            && Contents(p, buf) ==
              Contents(p[..|p| - 1], buf) + [Packet(last.dest, buf[last.start..last.start + last.len])]
  {
  }

  // The highest end of a segment.
  method FreeFrom(pending: seq<Segment>) returns (start: nat)
    requires Contiguous(pending)
    ensures start == End(pending)
  {
    hide Contiguous;
    start := 0;
    EndIsMaximum(pending);
    for i := 0 to |pending|
      invariant forall j | 0 <= j < i :: pending[j].start + pending[j].len <= start
      invariant start == 0 || exists j :: 0 <= j < i && start == pending[j].start + pending[j].len
    {
      if start < pending[i].start + pending[i].len {
        start := pending[i].start + pending[i].len;
      }
    }
  }

  method CopyIn(from: Bytes, to: array<char>, start: nat)
    requires start + |from| <= to.Length
    modifies to
    ensures to[..][..start] == old(to[..][..start]) && to[..][start..start + |from|] == from
    ensures to[start + |from|..] == old(to[start + |from|..])
  {
    forall i | 0 <= i < |from| {
      to[start + i] := from[i];
    }
  }

  lemma NothingPending(s: DeviceState, room: nat, buf: Bytes)
    ensures Contents([], buf) == []
    ensures s.outbox == [] ==> DeviceSpec.PollTransmit(s, room) == (s, None)
  {
  }

  lemma PoppedIs(s: DeviceState, rest: seq<Packet>, p: Packet, room: nat)
    requires s.outbox == rest + [p]
    ensures var n := if |p.payload| <= room then |p.payload| else room;
            DeviceSpec.PollTransmit(s, room) == (s.(outbox := rest), Some(Packet(p.dest, p.payload[..n])))
  {
    Parts(rest, [p]);
    assert p.payload[..|p.payload|] == p.payload;
  }

  method CopyOut(from: array<char>, start: nat, n: nat, to: array<char>)
    requires from != to && start + n <= from.Length && n <= to.Length
    modifies to
    ensures to[..n] == from[..][start..start + n] && to[n..] == old(to[n..])
  {
    forall i | 0 <= i < n {
      to[i] := from[start + i];
    }
  }

  // ---------- the object ----------

  class Device {
    var cfg: Config
    var targets: seq<AdvertEntry>
    var pending: seq<Segment>
    const scratch: array<char>
    const timers: TimerQueue
    var events: seq<DeviceEvent>
    var shuttingDown: bool
    var rng: bv32

    ghost predicate Valid()
      reads this
    {
      && scratch.Length == SCRATCH_LEN
      && timers.entries.Length == DEVICE_TIMERS
      && Contiguous(pending) && End(pending) <= SCRATCH_LEN && |pending| <= MAX_PENDING
      && |targets| <= MAX_TARGETS && |events| <= MAX_EVENTS
    }

    ghost function State(): DeviceState
      requires Valid()
      reads this, scratch, timers.entries
    {
      DeviceState(cfg, targets, timers.entries[..], Contents(pending, scratch[..]), events, shuttingDown, rng)
    }

    constructor (uuid: Bytes, location: Bytes, server: Option<Bytes>, bootid: u32, configid: u32, seed: bv32)
      ensures Valid() && fresh(scratch) && fresh(timers) && fresh(timers.entries)
      ensures State() == New(uuid, location, server, bootid, configid, seed)
    {
      cfg := Config(if |uuid| <= MAX_UUID_LEN then uuid else "",
                    if |location| <= MAX_LOCATION_LEN then location else "",
                    if server.Some? && |server.value| <= MAX_SERVER_LEN then server else None,
                    bootid, configid);
      targets := [];
      pending := [];
      scratch := new char[SCRATCH_LEN](_ => 0 as char);
      var q := new TimerQueue(DEVICE_TIMERS);
      timers := q;
      events := [];
      shuttingDown := false;
      rng := seed;
      new;
      assert timers.entries[..] == seq(DEVICE_TIMERS, _ => None);
    }

    // Appends one datagram to the arena; a refused one changes nothing.
    method EnqueuePayload(dest: Destination, payload: Bytes) returns (ok: bool)
      requires Valid()
      modifies this`pending, scratch
      ensures Valid()
      ensures match Enqueue(old(State()).outbox, Packet(dest, payload))
              case None => !ok && unchanged(this) && State() == old(State())
              case Some(q) => ok && State() == old(State()).(outbox := q)
    {
      hide Contents, Contiguous;
      ContentsBytes(pending, scratch[..]);
      var start := FreeFrom(pending);
      var end := start + |payload|;
      if end > scratch.Length || |pending| >= MAX_PENDING {
        return false;
      }
      ghost var before := scratch[..];
      CopyIn(payload, scratch, start);
      ContentsPushed(pending, dest, payload, before, scratch[..]);
      pending := pending + [Segment(dest, start, |payload|)];
      return true;
    }

    method EnqueueNotify(m: Notify)
      requires Valid()
      modifies this`pending, this`events, scratch
      ensures Valid() && State() == DeviceSpec.EnqueueNotify(old(State()), m)
    {
      hide NotifyText, Contents, Contiguous, OutboxBytes;
      var buf := new char[STAGING_LEN];
      var encoded := EncodeNotify(m, buf);
      if encoded.Ok? {
        var ok := EnqueuePayload(MulticastV4, buf[..encoded.value]);
        if !ok && |events| < MAX_EVENTS {
          events := events + [EncodeFailed(BufferTooSmall)];
        }
      }
    }

    method SendAliveAll()
      requires Valid()
      modifies this`pending, this`events, scratch
      ensures Valid() && State() == SendAll(old(State()), Alives(old(State()).cfg, old(State()).targets))
    {
      hide DeviceSpec.EnqueueNotify, Contents, Contiguous;
      ghost var s := State();
      ghost var ms := Alives(s.cfg, s.targets);
      for i := 0 to |targets|
        invariant Valid()
        invariant SendAll(State(), ms[i..]) == SendAll(s, ms)
      {
        assert ms[i..][0] == ms[i] && ms[i..][1..] == ms[i + 1..];
        var nt := ReparseTarget(targets[i].nt);
        EnqueueNotify(Notify(MULTICAST_HOST, nt, Alive, MakeUsn(cfg.uuid, nt), Some(cfg.location),
                             Some(targets[i].maxAge), cfg.server, Some(cfg.bootid), Some(cfg.configid), None, None));
      }
    }

    method SendByeByeAll()
      requires Valid()
      modifies this`pending, this`events, scratch
      ensures Valid() && State() == SendAll(old(State()), ByeByes(old(State()).cfg, old(State()).targets))
    {
      hide DeviceSpec.EnqueueNotify, Contents, Contiguous;
      ghost var s := State();
      ghost var ms := ByeByes(s.cfg, s.targets);
      for i := 0 to |targets|
        invariant Valid()
        invariant SendAll(State(), ms[i..]) == SendAll(s, ms)
      {
        assert ms[i..][0] == ms[i] && ms[i..][1..] == ms[i + 1..];
        var nt := ReparseTarget(targets[i].nt);
        EnqueueNotify(Notify(MULTICAST_HOST, nt, ByeBye, MakeUsn(cfg.uuid, nt), None, None, None,
                             Some(cfg.bootid), Some(cfg.configid), None, None));
      }
    }

    method EncodeSearchResponses(source: Address, search: Target)
      requires Valid()
      modifies this`pending, scratch
      ensures Valid()
      ensures State() == old(State()).(outbox := SendReplies(old(State()).outbox, cfg, source, search, targets))
    {
      hide ResponseText, Contents, Contiguous, Enqueue, TargetMatches, ReplyFor, ReparseTarget;
      ghost var s := State();
      for i := 0 to |targets|
        invariant Valid()
        invariant State() == s.(outbox := State().outbox)
        invariant SendReplies(State().outbox, cfg, source, search, targets[i..]) ==
          SendReplies(s.outbox, cfg, source, search, targets)
      {
        assert targets[i..][0] == targets[i] && targets[i..][1..] == targets[i + 1..];
        if TargetMatches(search, ReparseTarget(targets[i].nt)) {
          var buf := new char[STAGING_LEN];
          var encoded := EncodeResponse(ReplyFor(cfg, targets[i], search), buf);
          if encoded.Err? {
            return;
          }
          var ok := EnqueuePayload(Unicast(source), buf[..encoded.value]);
          if !ok {
            return;
          }
        }
      }
    }

    method ScheduleAliveRefresh(now: Nanos)
      requires Valid()
      modifies timers.entries
      ensures Valid() && State() == ScheduleRefresh(old(State()), now)
    {
      hide MinMaxAge, SetTimer, Contents, Contiguous;
      var least := DEFAULT_MAX_AGE;
      for i := 0 to |targets|
        invariant i == 0 ==> least == DEFAULT_MAX_AGE
        invariant forall j | 0 <= j < i :: least <= targets[j].maxAge
        invariant i > 0 ==> exists j :: 0 <= j < i && least == targets[j].maxAge
      {
        if i == 0 || targets[i].maxAge < least {
          least := targets[i].maxAge;
        }
      }
      timers.Set(Timer(now + least / 2, AliveRefresh));
    }

    method OnInitialAlive(now: Nanos)
      requires Valid()
      modifies this`pending, this`events, this`targets, this`rng, scratch, timers.entries
      ensures Valid() && State() == DeviceSpec.OnInitialAlive(old(State()), now)
    {
      hide SendAll, Alives, NextRand, Below, CountDown, SetTimer, Contents, Contiguous;
      SendAliveAll();
      var counted, done := CountDownAll(targets);
      targets := counted;
      if done {
        ScheduleAliveRefresh(now);
      } else {
        rng := NextRand(rng);
        timers.Set(Timer(now + (100 + Below(rng, 100)) * MILLISECOND, InitialAlive));
      }
    }

    method OnAliveRefresh(now: Nanos)
      requires Valid()
      modifies this`pending, this`events, scratch, timers.entries
      ensures Valid() && State() == DeviceSpec.OnAliveRefresh(old(State()), now)
    {
      hide SendAll, Alives, ByeByes, Contents, Contiguous;
      if shuttingDown {
        SendByeByeAll();
        return;
      }
      SendAliveAll();
      ScheduleAliveRefresh(now);
    }

    method OnSearch(now: Nanos, source: Address, search: MSearch)
      requires Valid() && search.mx > 0
      modifies this`events, this`rng, this`pending, scratch, timers.entries
      ensures Valid() && State() == DeviceSpec.OnSearch(old(State()), now, source, search)
    {
      hide SendReplies, NextRand, Below, SetTimer, Contents, Contiguous;
      if |events| < MAX_EVENTS {
        events := events + [SearchReceived(source)];
      }
      rng := NextRand(rng);
      timers.Set(Timer(now + Below(rng, search.mx * 1000) * MILLISECOND, SearchReply));
      EncodeSearchResponses(source, search.st);
    }

    // ---------- the public calls ----------

    method AddTarget(t: Target, maxAge: Nanos) returns (added: bool)
      requires Valid()
      modifies this`targets
      ensures Valid() && (State(), added) == DeviceSpec.AddTarget(old(State()), t, maxAge)
    {
      if |targets| >= MAX_TARGETS {
        return false;
      }
      var nt := TargetToString(t);
      if nt.None? {
        return false;
      }
      targets := targets + [AdvertEntry(nt.value, maxAge, INITIAL_ALIVE_COUNT)];
      return true;
    }

    method Start(now: Nanos)
      requires Valid()
      modifies timers.entries
      ensures Valid() && State() == DeviceSpec.Start(old(State()), now)
    {
      timers.Set(Timer(now, InitialAlive));
    }

    method Shutdown(now: Nanos)
      requires Valid()
      modifies this`shuttingDown, this`pending, this`events, scratch, timers.entries
      ensures Valid() && State() == DeviceSpec.Shutdown(old(State()), now)
    {
      hide SendAll, ByeByes, SetTimer, CancelTimer, Contents, Contiguous;
      shuttingDown := true;
      SendByeByeAll();
      timers.Set(Timer(now, SearchReply));
      timers.Cancel(AliveRefresh);
      timers.Cancel(InitialAlive);
    }

    method HandleDatagram(now: Nanos, source: Address, payload: Bytes)
      requires Valid()
      modifies this`events, this`rng, this`pending, scratch, timers.entries
      ensures Valid() && State() == DeviceSpec.HandleDatagram(old(State()), now, source, payload)
    {
      hide ParseDatagram, DeviceSpec.OnSearch;
      var msg := ParseDatagram(payload);
      if msg.Ok? && msg.value.Search? {
        ParsedMx(payload);
        OnSearch(now, source, msg.value.search);
      }
    }

    method HandleTimeout(now: Nanos)
      requires Valid()
      modifies this`events, this`targets, this`rng, this`pending, scratch, timers.entries
      ensures Valid() && State() == DeviceSpec.HandleTimeout(old(State()), now)
    {
      hide DeviceSpec.OnInitialAlive, DeviceSpec.OnAliveRefresh, ClearDue, DueKinds, Contents, Contiguous;
      var expired := timers.DrainExpired(now);
      for i := 0 to |expired|
        invariant Valid()
        invariant FireAll(State(), now, expired[i..]) == DeviceSpec.HandleTimeout(old(State()), now)
      {
        assert expired[i..][0] == expired[i] && expired[i..][1..] == expired[i + 1..];
        match expired[i]
        case InitialAlive => OnInitialAlive(now);
        case AliveRefresh => OnAliveRefresh(now);
        case _ =>
      }
    }

    // Copies the newest pending datagram into `buf`, as much of it as fits.
    method PollTransmit(buf: array<char>) returns (r: Option<(Destination, nat)>)
      requires Valid() && buf != scratch
      modifies this`pending, buf
      ensures Valid()
      ensures var (next, packet) := DeviceSpec.PollTransmit(old(State()), buf.Length);
              && State() == next
              && r.Some? == packet.Some?
              && (r.Some? ==> r.value.1 <= buf.Length && packet.value == Packet(r.value.0, buf[..r.value.1]))
    {
      hide Contiguous, Contents, End, DeviceSpec.PollTransmit;
      if pending == [] {
        NothingPending(State(), buf.Length, scratch[..]);
        return None;
      }
      ghost var was, bytes := State(), scratch[..];
      PopSegment(pending, bytes);
      var last := pending[|pending| - 1];
      pending := pending[..|pending| - 1];
      var n := if last.len <= buf.Length then last.len else buf.Length;
      CopyOut(scratch, last.start, n, buf);
      assert scratch[..] == bytes;
      SubSlice(bytes, last.start, last.start + last.len, 0, n);
      PoppedIs(was, State().outbox, Packet(last.dest, bytes[last.start..last.start + last.len]), buf.Length);
      return Some((last.dest, n));
    }

    method PollEvent() returns (r: Option<DeviceEvent>)
      requires Valid()
      modifies this`events
      ensures Valid() && (State(), r) == DeviceSpec.PollEvent(old(State()))
    {
      if events == [] {
        return None;
      }
      r := Some(events[0]);
      events := events[1..];
    }

    method PollTimeout() returns (r: Option<Nanos>)
      requires Valid()
      ensures r == NextTimeout(State().timers)
    {
      r := timers.NextDeadline();
    }
  }

  // The short-circuiting countdown over the targets: true when every counter has run out.
  method CountDownAll(was: seq<AdvertEntry>) returns (ts: seq<AdvertEntry>, done: bool)
    ensures (ts, done) == CountDown(was)
  {
    hide CountDown;
    ts := was;
    for i := 0 to |was|
      invariant |ts| == |was|
      invariant forall j | 0 <= j < i :: ts[j] == Tick(was[j]) && ts[j].initialRemaining == 0
      invariant forall j | i <= j < |was| :: ts[j] == was[j]
    {
      if ts[i].initialRemaining > 0 {
        ts := ts[i := ts[i].(initialRemaining := ts[i].initialRemaining - 1)];
      }
      if ts[i].initialRemaining > 0 {
        CountDownIs(was, ts, i);
        return ts, false;
      }
    }
    CountDownIs(was, ts, |was|);
    return ts, true;
  }

  lemma Stripped(text: Bytes)
    ensures var line := Http.RenderHeader(Http.Header("", text)); |line| == |text| + 4 && line[2..|line| - 2] == text
  {
    var line := Http.RenderHeader(Http.Header("", text));
    assert line == ": " + (text + Http.CRLF);
    Parts(": ", text + Http.CRLF);
    Parts(text, Http.CRLF);
    SubSlice(line, 2, |line|, 0, |text|);
  }

  // Renders a target for storage; URNs go through the encoder and a buffer of their own.
  method TargetToString(t: Target) returns (r: Option<Bytes>)
    ensures r == TargetString(t)
  {
    match t
    case All => return Some("ssdp:all");
    case RootDevice => return Some("upnp:rootdevice");
    case Uuid(u) =>
      return if 5 + |u| <= MAX_URN_LEN then Some("uuid:" + u) else None;
    case _ => r := UrnToString(t);
  }

  method UrnToString(t: Target) returns (r: Option<Bytes>)
    requires t.DeviceType? || t.ServiceType?
    ensures r == TargetString(t)
  {
    hide TargetText, Http.RenderHeader;
    ghost var text := TargetText(t);
    ghost var total := Http.RenderHeader(Http.Header("", text));
    Stripped(text);
    var buf := new char[MAX_URN_LEN];
    var w := new BufWriter(buf, total);
    assert total + [] == total;
    var written := w.WriteTargetHeader("", t, total, []);
    if written.Full? {
      return None;
    }
    w.Done(total);
    // Strip the ": " in front and the line ending behind.
    SubSlice(buf[..], 0, w.pos, 2, w.pos - 2);
    return Some(buf[2..w.pos - 2]);
  }
}
