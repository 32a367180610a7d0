/** The control point side of SSDP as a transition system, and the cache keys it files services under. */
module ControlPointSpec {
  import opened Wrappers
  import opened Text
  import opened Target
  import opened Fields
  import opened Messages
  import opened Timers
  import opened Cache

  const CP_TIMERS := 4
  const CP_KINDS: set<TimerKind> := {SearchRetransmit, CacheExpiry}
  const MAX_RETRANSMITS := 2
  const CP_SCRATCH := 512
  const CP_PENDING := 4
  const CP_EVENTS := 8
  const MAX_AGENT := 128

  datatype CpEvent =
    | SearchHit(usn: Bytes, location: Bytes, maxAge: Nanos)
    | Departed(usn: Bytes)
    | Expired(usn: Bytes)

  datatype CpState = CpState(cache: Entries, timers: seq<Slot>, retransmits: nat, activeMx: nat)

  // ---------- cache keys ----------

  // A piece that does not fit is left out whole; shorter pieces after it may still be added.
  function Append(s: Bytes, piece: Bytes): Bytes {
    if |s| + |piece| <= CACHE_USN then s + piece else s
  }

  function AppendAll(s: Bytes, pieces: seq<Bytes>): Bytes
    decreases |pieces|
  {
    if pieces == [] then s else AppendAll(Append(s, pieces[0]), pieces[1..])
  }

  function TargetPieces(t: Target): seq<Bytes> {
    match t
    case All => ["ssdp:all"]
    case RootDevice => ["upnp:rootdevice"]
    case Uuid(u) => ["uuid:", u]
    case DeviceType(domain, kind, version) => ["urn:", domain, ":device:", kind, ":", Dec(version)]
    case ServiceType(domain, kind, version) => ["urn:", domain, ":service:", kind, ":", Dec(version)]
  }

  function UsnPieces(u: Usn): seq<Bytes> {
    ["uuid:", u.deviceUuid] + match u.embedded case None => [] case Some(t) => ["::"] + TargetPieces(t)
  }

  function KeyOf(u: Usn): Bytes {
    AppendAll("", UsnPieces(u))
  }

  lemma {:induction false} AppendAllIs(s: Bytes, pieces: seq<Bytes>)
    requires |s| <= CACHE_USN
    ensures |AppendAll(s, pieces)| <= CACHE_USN
    ensures |s| + |Joined(pieces)| <= CACHE_USN ==> AppendAll(s, pieces) == s + Joined(pieces)
    decreases |pieces|
  {
    if pieces != [] {
      AppendAllIs(Append(s, pieces[0]), pieces[1..]);
      assert s + pieces[0] + Joined(pieces[1..]) == s + (pieces[0] + Joined(pieces[1..]));
    }
  }

  lemma AppendCons(s: Bytes, piece: Bytes, rest: seq<Bytes>)
    ensures AppendAll(s, [piece] + rest) == AppendAll(Append(s, piece), rest)
  {
    assert ([piece] + rest)[1..] == rest;
  }

  lemma AppendNone(s: Bytes)
    ensures AppendAll(s, []) == s
  {
  }

  lemma TargetPiecesJoin(t: Target)
    ensures Joined(TargetPieces(t)) == TargetText(t)
  {
    hide Joined, Dec;
    JoinedNone();
    match t
    case All => JoinedOne("ssdp:all");
    case RootDevice => JoinedOne("upnp:rootdevice");
    case Uuid(u) =>
      assert ["uuid:", u] == ["uuid:"] + ([u] + []);
      JoinedCons("uuid:", [u] + []);
      JoinedCons(u, []);
    case DeviceType(domain, kind, version) => JoinedSix("urn:", domain, ":device:", kind, ":", Dec(version));
    case ServiceType(domain, kind, version) => JoinedSix("urn:", domain, ":service:", kind, ":", Dec(version));
  }

  lemma UsnPiecesJoin(u: Usn)
    ensures Joined(UsnPieces(u)) == UsnText(u)
  {
    hide Joined, TargetPieces, TargetText;
    JoinedNone();
    var tail := match u.embedded case None => [] case Some(t) => ["::"] + TargetPieces(t);
    assert UsnPieces(u) == ["uuid:"] + ([u.deviceUuid] + tail);
    JoinedCons("uuid:", [u.deviceUuid] + tail);
    JoinedCons(u.deviceUuid, tail);
    if u.embedded.Some? {
      JoinedCons("::", TargetPieces(u.embedded.value));
      TargetPiecesJoin(u.embedded.value);
      assert "uuid:" + (u.deviceUuid + ("::" + TargetText(u.embedded.value))) == UsnText(u);
    } else {
      assert "uuid:" + (u.deviceUuid + "") == UsnText(u);
    }
  }

  /** The key of a service is its USN as sent on the wire, exactly when that has at most 128 octets. */
  lemma KeyIsText(u: Usn)
    ensures KeyOf(u) == UsnText(u) <==> |UsnText(u)| <= CACHE_USN
    ensures |KeyOf(u)| <= CACHE_USN
  {
    hide AppendAll, UsnPieces, UsnText;
    AppendAllIs("", UsnPieces(u));
    UsnPiecesJoin(u);
    assert "" + UsnText(u) == UsnText(u);
  }

  /** Keys are faithful: the USN can be read back from its key, so distinct services never share one. */
  lemma KeysIdentify(u: Usn, v: Usn)
    requires WellFormedUsn(u) && WellFormedUsn(v)
    requires |UsnText(u)| <= CACHE_USN && |UsnText(v)| <= CACHE_USN
    ensures ParseUsn(KeyOf(u)) == Ok(u)
    ensures KeyOf(u) == KeyOf(v) ==> u == v
  {
    hide KeyOf, UsnText, ParseUsn, WellFormedUsn;
    KeyIsText(u);
    KeyIsText(v);
    WellFormedUsnParsesBack(u);
    WellFormedUsnParsesBack(v);
  }

  /** Exactly the well-formed USNs that fit are read back from their keys. */
  lemma KeyReadsBack(u: Usn)
    ensures ParseUsn(KeyOf(u)) == Ok(u) <==> WellFormedUsn(u) && |UsnText(u)| <= CACHE_USN
  {
    hide KeyOf, UsnText, ParseUsn, WellFormedUsn;
    KeyIsText(u);
    ParsedUsnBytes(KeyOf(u));
    ParsedUsnIsWellFormed(KeyOf(u));
    if WellFormedUsn(u) {
      WellFormedUsnParsesBack(u);
    }
  }

  /** Some service that fits has this key exactly when the key reads as a USN that prints as the key. */
  lemma TakesKeyExactly(u: Usn)
    ensures var read := ParseUsn(KeyOf(u));
            (exists v :: WellFormedUsn(v) && |UsnText(v)| <= CACHE_USN && KeyOf(v) == KeyOf(u)) <==>
            (read.Ok? && UsnText(read.value) == KeyOf(u))
  {
    hide KeyOf, UsnText, ParseUsn, WellFormedUsn;
    KeyIsText(u);
    var read := ParseUsn(KeyOf(u));
    ParsedUsnIsWellFormed(KeyOf(u));
    if read.Ok? && UsnText(read.value) == KeyOf(u) {
      KeyIsText(read.value);
    }
    forall v | WellFormedUsn(v) && |UsnText(v)| <= CACHE_USN && KeyOf(v) == KeyOf(u)
      ensures read == Ok(v) && UsnText(v) == KeyOf(u)
    {
      KeyIsText(v);
      KeyReadsBack(v);
    }
  }

  /**
   * That happens: with a UUID of 122 octets, everything of a URN is left out but a domain of one octet,
   * and the key is that of a device whose UUID is one octet longer.
   */
  lemma ShortenedTakesKey(u: Bytes, domain: Bytes, kind: Bytes, version: u32)
    requires |u| == CACHE_USN - 6 && |domain| == 1 && kind != ""
    ensures var longer := Usn(u, Some(DeviceType(domain, kind, version)));
            KeyOf(longer) == KeyOf(Usn(u + domain, None)) == UsnText(Usn(u + domain, None))
            && |UsnText(longer)| > CACHE_USN
  {
    hide KeyOf, UsnText, TailPieces, AppendAll;
    var longer, other := Usn(u, Some(DeviceType(domain, kind, version))), Usn(u + domain, None);
    UsnTexts(u, domain, longer, other);
    KeyIsText(other);
    KeyFromUuid(longer);
    DecNotEmpty(version);
    UrnKept("uuid:" + u, domain, kind, version);
    assert ("uuid:" + u) + domain == "uuid:" + (u + domain);
  }

  lemma UsnTexts(u: Bytes, domain: Bytes, longer: Usn, other: Usn)
    requires longer.deviceUuid == u && longer.embedded.Some? && longer.embedded.value.DeviceType?
    requires other == Usn(u + domain, None)
    ensures UsnText(other) == "uuid:" + (u + domain) && |UsnText(longer)| > |u| + 18
  {
    hide Dec;
  }

  lemma DecNotEmpty(n: nat)
    ensures Dec(n) != ""
  {
  }

  lemma UrnKept(s: Bytes, domain: Bytes, kind: Bytes, version: u32)
    requires |s| == CACHE_USN - 1 && |domain| == 1 && kind != "" && Dec(version) != ""
    ensures AppendAll(s, TailPieces(Some(DeviceType(domain, kind, version)))) == s + domain
  {
    hide AppendAll, Dec;
    var full := s + domain;
    assert TailPieces(Some(DeviceType(domain, kind, version))) ==
      ["::"] + (["urn:"] + ([domain] + ([":device:"] + ([kind] + ([":"] + ([Dec(version)] + []))))));
    AppendCons(s, "::", ["urn:"] + ([domain] + ([":device:"] + ([kind] + ([":"] + ([Dec(version)] + []))))));
    AppendCons(s, "urn:", [domain] + ([":device:"] + ([kind] + ([":"] + ([Dec(version)] + [])))));
    AppendCons(s, domain, [":device:"] + ([kind] + ([":"] + ([Dec(version)] + []))));
    AppendCons(full, ":device:", [kind] + ([":"] + ([Dec(version)] + [])));
    AppendCons(full, kind, [":"] + ([Dec(version)] + []));
    AppendCons(full, ":", [Dec(version)] + []);
    AppendCons(full, Dec(version), []);
    AppendNone(full);
  }

  // The pieces after the UUID.
  function TailPieces(embedded: Option<Target>): seq<Bytes> {
    match embedded case None => [] case Some(t) => ["::"] + TargetPieces(t)
  }

  lemma KeyFromUuid(u: Usn)
    ensures KeyOf(u) == AppendAll(Append("uuid:", u.deviceUuid), TailPieces(u.embedded))
  {
    hide TargetPieces, TailPieces;
    var tail := TailPieces(u.embedded);
    UsnPiecesAre(u);
    AppendCons("", "uuid:", [u.deviceUuid] + tail);
    AppendCons("uuid:", u.deviceUuid, tail);
    assert Append("", "uuid:") == "uuid:";
  }

  lemma UsnPiecesAre(u: Usn)
    ensures UsnPieces(u) == ["uuid:"] + ([u.deviceUuid] + TailPieces(u.embedded))
  {
    hide TargetPieces;
  }

  /** Beyond that length they are not: UUIDs that do not fit are left out of the key, whatever is embedded. */
  lemma LongUuidsCollide(a: Bytes, b: Bytes, embedded: Option<Target>)
    requires |a| > CACHE_USN - 5 && |b| > CACHE_USN - 5
    ensures KeyOf(Usn(a, embedded)) == KeyOf(Usn(b, embedded))
  {
    hide KeyOf, AppendAll;
    KeyFromUuid(Usn(a, embedded));
    KeyFromUuid(Usn(b, embedded));
  }

  /** Two devices share a key exactly when they are the same or neither UUID fits. */
  lemma DevicesShareKey(a: Bytes, b: Bytes)
    requires a != "" && b != ""
    ensures KeyOf(Usn(a, None)) == KeyOf(Usn(b, None)) <==> a == b || (|a| > CACHE_USN - 5 && |b| > CACHE_USN - 5)
  {
    hide KeyOf;
    KeyFromUuid(Usn(a, None));
    KeyFromUuid(Usn(b, None));
    Parts("uuid:", a);
    Parts("uuid:", b);
  }

  // ---------- the calls ----------

  function NewCp(): CpState {
    CpState(map[], seq(CP_TIMERS, _ => None), 0, 3)
  }

  function ClampMx(mx: nat): nat {
    if mx < 1 then 1 else if mx > 5 then 5 else mx
  }

  function Search(s: CpState, mx: nat, now: Nanos): CpState {
    var active := ClampMx(mx);
    s.(retransmits := 0, activeMx := active,
       timers := SetTimer(s.timers, Timer(now + (active / 2 + 1) * SECOND, SearchRetransmit)))
  }

  // What a datagram tells a control point.
  datatype Tidings = Announce(key: Bytes, location: Bytes, maxAge: Nanos) | Depart(key: Bytes) | Nothing

  function TidingsOf(payload: Bytes): Tidings {
    match ParseDatagram(payload)
    case Ok(SearchResponse(r)) => Announce(KeyOf(r.usn), r.location, r.maxAge)
    case Ok(Announcement(n)) =>
      if n.nts == ByeBye then Depart(KeyOf(n.usn))
      else if n.location.Some? && n.maxAge.Some? then Announce(KeyOf(n.usn), n.location.value, n.maxAge.value)
      else Nothing
    case _ => Nothing
  }

  ghost function Reschedule(s: CpState, now: Nanos): CpState {
    var next := NextExpiry(s.cache);
    if next.Some? && next.value > now then s.(timers := SetTimer(s.timers, Timer(next.value, CacheExpiry))) else s
  }

  ghost function Hear(s: CpState, now: Nanos, t: Tidings): CpState {
    match t
    case Announce(key, location, maxAge) =>
      Reschedule(s.(cache := InsertEntry(s.cache, key, location, maxAge, now)), now)
    case Depart(key) => s.(cache := RemoveEntry(s.cache, key))
    case Nothing => s
  }

  ghost function HandleDatagram(s: CpState, now: Nanos, payload: Bytes): CpState {
    Hear(s, now, TidingsOf(payload))
  }

  function HeardEvent(t: Tidings): Option<CpEvent> {
    match t
    case Announce(key, location, maxAge) =>
      if |location| <= CACHE_LOC then Some(SearchHit(key, location, maxAge)) else None
    case Depart(key) => Some(Departed(key))
    case Nothing => None
  }

  // What is reported of a datagram.
  function EventOf(payload: Bytes): Option<CpEvent> {
    HeardEvent(TidingsOf(payload))
  }

  ghost function Fire(s: CpState, now: Nanos, k: TimerKind): CpState {
    match k
    case SearchRetransmit =>
      var n := s.retransmits + 1;
      if n < MAX_RETRANSMITS then
        s.(retransmits := n, timers := SetTimer(s.timers, Timer(now + s.activeMx * SECOND, SearchRetransmit)))
      else s.(retransmits := n)
    case CacheExpiry => Reschedule(s.(cache := ExpireEntries(s.cache, now)), now)
    case _ => s
  }

  ghost function FireAll(s: CpState, now: Nanos, kinds: seq<TimerKind>): CpState
    decreases |kinds|
  {
    if kinds == [] then s else FireAll(Fire(s, now, kinds[0]), now, kinds[1..])
  }

  ghost function HandleTimeout(s: CpState, now: Nanos): CpState {
    FireAll(s.(timers := ClearDue(s.timers, now)), now, DueKinds(s.timers, now))
  }

  // ---------- what a timeout does ----------

  ghost predicate CpTimersOk(timers: seq<Slot>) {
    |timers| == CP_TIMERS && OnePerKind(timers) && KindsWithin(timers, CP_KINDS)
  }

  ghost predicate CpInv(s: CpState) {
    && CpTimersOk(s.timers) && TableOk(s.cache) && 1 <= s.activeMx <= 5
    && s.retransmits <= MAX_RETRANSMITS
    && (Deadline(s.timers, SearchRetransmit).Some? ==> s.retransmits < MAX_RETRANSMITS)
  }

  lemma KindCount()
    ensures |CP_KINDS| == 2
  {
  }

  lemma SetKeepsCp(timers: seq<Slot>, t: Timer)
    requires CpTimersOk(timers) && t.kind in CP_KINDS
    ensures CpTimersOk(SetTimer(timers, t))
    ensures forall k :: Deadline(SetTimer(timers, t), k) == if k == t.kind then Some(t.fireAt) else Deadline(timers, k)
  {
    hide SetTimer, Deadline, OnePerKind, KindsWithin;
    KindCount();
    forall k
      ensures Deadline(SetTimer(timers, t), k) == if k == t.kind then Some(t.fireAt) else Deadline(timers, k)
    {
      SetTimerMeans(timers, CP_KINDS, t, k);
    }
    SetTimerMeans(timers, CP_KINDS, t, t.kind);
  }

  lemma RescheduleKeeps(s: CpState, now: Nanos)
    requires CpInv(s)
    ensures CpInv(Reschedule(s, now)) && Reschedule(s, now) == s.(timers := Reschedule(s, now).timers)
    ensures var r, next := Reschedule(s, now), NextExpiry(s.cache);
            Deadline(r.timers, CacheExpiry) ==
              if next.Some? && next.value > now then next else Deadline(s.timers, CacheExpiry)
    ensures Deadline(Reschedule(s, now).timers, SearchRetransmit) == Deadline(s.timers, SearchRetransmit)
  {
    hide SetTimer, Deadline, NextExpiry, CpTimersOk, TableOk;
    var next := NextExpiry(s.cache);
    if next.Some? && next.value > now {
      SetKeepsCp(s.timers, Timer(next.value, CacheExpiry));
    }
  }

  lemma SearchKeeps(s: CpState, mx: nat, now: Nanos)
    requires CpInv(s)
    ensures CpInv(Search(s, mx, now)) && Search(s, mx, now).cache == s.cache
    ensures Deadline(Search(s, mx, now).timers, CacheExpiry) == Deadline(s.timers, CacheExpiry)
  {
    hide SetTimer, Deadline, CpTimersOk, TableOk;
    SetKeepsCp(s.timers, Timer(now + (ClampMx(mx) / 2 + 1) * SECOND, SearchRetransmit));
  }

  lemma TidingsKey(payload: Bytes)
    ensures match TidingsOf(payload) case Nothing => true case t => |t.key| <= CACHE_USN
  {
    hide KeyOf, ParseDatagram, UsnText;
    match ParseDatagram(payload)
    case Ok(SearchResponse(r)) => KeyIsText(r.usn);
    case Ok(Announcement(n)) => KeyIsText(n.usn);
    case _ =>
  }

  lemma HearKeeps(s: CpState, now: Nanos, t: Tidings)
    requires CpInv(s)
    ensures CpInv(Hear(s, now, t))
  {
    hide SetTimer, Deadline, NextExpiry, CpTimersOk, TableOk, InsertEntry, RemoveEntry, Reschedule;
    match t
    case Announce(key, location, maxAge) =>
      InsertKeepsTable(s.cache, key, location, maxAge, now);
      RescheduleKeeps(s.(cache := InsertEntry(s.cache, key, location, maxAge, now)), now);
    case Depart(key) =>
      assert TableOk(RemoveEntry(s.cache, key)) by { RemoveKeeps(s.cache, key); }
    case Nothing =>
  }

  lemma RemoveKeeps(m: Entries, key: Bytes)
    requires TableOk(m)
    ensures TableOk(RemoveEntry(m, key))
  {
    hide TableOk;
    RemoveKeepsTable(m, {key});
  }

  /**
   * A timeout as a whole: it expires entries exactly when the expiry timer is due, and counts a
   * retransmission exactly when that timer is; neither disturbs the other, in either order.
   */
  ghost predicate TimeoutDoes(s: CpState, now: Nanos, r: CpState) {
    var expiring := DueAt(s, CacheExpiry, now);
    && CpInv(r)
    && r.cache == (if expiring then ExpireEntries(s.cache, now) else s.cache)
    && r.retransmits == s.retransmits + (if DueAt(s, SearchRetransmit, now) then 1 else 0)
    && Deadline(r.timers, CacheExpiry) ==
      (if expiring then Later(NextExpiry(r.cache), now) else Deadline(s.timers, CacheExpiry))
  }

  function Later(t: Option<Nanos>, now: Nanos): Option<Nanos> {
    if t.Some? && t.value > now then t else None
  }

  predicate DueAt(s: CpState, k: TimerKind, now: Nanos) {
    Deadline(s.timers, k).Some? && Deadline(s.timers, k).value <= now
  }

  // One timer firing with its slot already cleared.
  lemma FireKeeps(s: CpState, now: Nanos, k: TimerKind)
    requires CpInv(s) && k in CP_KINDS
    requires k == SearchRetransmit ==> s.retransmits < MAX_RETRANSMITS && Deadline(s.timers, SearchRetransmit).None?
    ensures var r := Fire(s, now, k);
            && CpInv(r)
            && r.retransmits == s.retransmits + (if k == SearchRetransmit then 1 else 0)
            && r.cache == (if k == CacheExpiry then ExpireEntries(s.cache, now) else s.cache)
            && (k == SearchRetransmit ==> Deadline(r.timers, CacheExpiry) == Deadline(s.timers, CacheExpiry))
            && (k == CacheExpiry ==> Deadline(r.timers, SearchRetransmit) == Deadline(s.timers, SearchRetransmit))
            && (k == CacheExpiry ==>
                  var next := NextExpiry(r.cache);
                  Deadline(r.timers, CacheExpiry) ==
                    if next.Some? && next.value > now then next else Deadline(s.timers, CacheExpiry))
  {
    hide SetTimer, Deadline, NextExpiry, CpTimersOk, TableOk, ExpireEntries, Reschedule;
    if k == SearchRetransmit {
      SetKeepsCp(s.timers, Timer(now + s.activeMx * SECOND, SearchRetransmit));
    } else {
      var e := s.(cache := ExpireEntries(s.cache, now));
      ExpireKeeps(s.cache, now);
      RescheduleKeeps(e, now);
    }
  }

  lemma ExpireKeeps(m: Entries, now: Nanos)
    requires TableOk(m)
    ensures TableOk(ExpireEntries(m, now))
  {
    hide TableOk, DueKeys;
    RemoveKeepsTable(m, DueKeys(m, now));
  }

  lemma DrainCp(s: CpState, now: Nanos)
    requires CpInv(s)
    ensures var c, kinds := s.(timers := ClearDue(s.timers, now)), DueKinds(s.timers, now);
            && CpInv(c)
            && (forall k :: Deadline(c.timers, k) == if DueAt(s, k, now) then None else Deadline(s.timers, k))
            && (forall k :: k in kinds <==> DueAt(s, k, now))
            && (forall i, j | 0 <= i < j < |kinds| :: kinds[i] != kinds[j])
            && (forall k <- kinds :: k in CP_KINDS)
  {
    hide ClearDue, DueKinds, Deadline, OnePerKind, TableOk;
    var kinds := DueKinds(s.timers, now);
    forall k
      ensures Deadline(ClearDue(s.timers, now), k) == if DueAt(s, k, now) then None else Deadline(s.timers, k)
      ensures k in kinds <==> DueAt(s, k, now)
      ensures k in kinds ==> k in CP_KINDS
    {
      DrainMeans(s.timers, CP_KINDS, now, k);
      if k in kinds {
        PendingKind(s.timers, k);
      }
    }
    DrainMeans(s.timers, CP_KINDS, now, CacheExpiry);
    assert |ClearDue(s.timers, now)| == CP_TIMERS;
  }

  lemma PendingKind(timers: seq<Slot>, k: TimerKind)
    requires KindsWithin(timers, CP_KINDS) && Deadline(timers, k).Some?
    ensures k in CP_KINDS
  {
    hide SlotOf;
  }

  lemma FireTwo(s: CpState, now: Nanos, kinds: seq<TimerKind>)
    requires |kinds| == 2
    ensures FireAll(s, now, kinds) == Fire(Fire(s, now, kinds[0]), now, kinds[1])
  {
    hide Fire;
    assert kinds[1..] == [kinds[1]] && [kinds[1]][1..] == [];
    assert FireAll(Fire(s, now, kinds[0]), now, [kinds[1]]) == Fire(Fire(s, now, kinds[0]), now, kinds[1]);
  }

  lemma TimeoutIs(s: CpState, now: Nanos)
    requires CpInv(s)
    ensures TimeoutDoes(s, now, HandleTimeout(s, now))
  {
    hide ClearDue, DueKinds, Deadline, CpTimersOk, TableOk, DueKeys, NextExpiry, Fire, ExpireEntries;
    DrainCp(s, now);
    var c, kinds := s.(timers := ClearDue(s.timers, now)), DueKinds(s.timers, now);
    if kinds == [] {
    } else if |kinds| == 1 {
      assert forall k :: k in kinds <==> k == kinds[0];
      FireKeeps(c, now, kinds[0]);
      assert kinds[1..] == [];
      assert HandleTimeout(s, now) == FireAll(Fire(c, now, kinds[0]), now, []);
    } else {
      assert kinds[0] != kinds[1];
      AtMostTwo(kinds);
      assert forall k :: k in kinds <==> k == kinds[0] || k == kinds[1];
      FireKeeps(c, now, kinds[0]);
      FireKeeps(Fire(c, now, kinds[0]), now, kinds[1]);
      FireTwo(c, now, kinds);
    }
  }

  lemma ThreeKinds(a: TimerKind, b: TimerKind, c: TimerKind)
    requires a in CP_KINDS && b in CP_KINDS && c in CP_KINDS
    ensures a == b || b == c || a == c
  {
  }

  lemma AtMostTwo(kinds: seq<TimerKind>)
    requires forall i, j | 0 <= i < j < |kinds| :: kinds[i] != kinds[j]
    requires forall k <- kinds :: k in CP_KINDS
    ensures |kinds| <= 2
  {
    if |kinds| > 2 {
      ThreeKinds(kinds[0], kinds[1], kinds[2]);
    }
  }
}
