/** SSDP messages: their text, and the meaning of a list of header fields. */
module Messages {
  import opened Wrappers
  import opened Text
  import opened Http
  import opened Target
  import opened Fields

  datatype MSearch = MSearch(
    host: Bytes, st: Target, mx: nat,
    userAgent: Option<Bytes>, cpfn: Option<Bytes>, cpuuid: Option<Bytes>, tcpport: Option<u16>)

  datatype Notify = Notify(
    host: Bytes, nt: Target, nts: SubType, usn: Usn,
    location: Option<Bytes>, maxAge: Option<Nanos>, server: Option<Bytes>,
    bootid: Option<u32>, configid: Option<u32>, nextbootid: Option<u32>, searchport: Option<u16>)

  datatype Response = Response(
    st: Target, usn: Usn, location: Bytes, maxAge: Nanos, server: Option<Bytes>,
    bootid: Option<u32>, configid: Option<u32>, searchport: Option<u16>)

  datatype Message =
    | Search(search: MSearch)
    | SearchResponse(response: Response)
    | Announcement(notify: Notify)

  // The three start lines.
  datatype Kind = MSearchKind | NotifyKind | ResponseKind

  const MSEARCH_LINE: Bytes := "M-SEARCH * HTTP/1.1"
  const NOTIFY_LINE: Bytes := "NOTIFY * HTTP/1.1"
  const RESPONSE_LINE: Bytes := "HTTP/1.1 200 OK"
  const MAN_DISCOVER: Bytes := "\"ssdp:discover\""

  // ---------- the text of a message ----------

  function Line(f: Field, value: Bytes): Header {
    Header(WireName(f), value)
  }

  function OptText(f: Field, v: Option<Bytes>): seq<Header> {
    match v case None => [] case Some(t) => [Line(f, t)]
  }

  function OptU32(f: Field, v: Option<u32>): seq<Header> {
    OptText(f, if v.None? then None else Some(Dec(v.value)))
  }

  function OptPort(f: Field, v: Option<u16>): seq<Header> {
    OptText(f, if v.None? then None else Some(Dec(v.value)))
  }

  function OptAge(v: Option<Nanos>): seq<Header> {
    OptText(CacheControl, if v.None? then None else Some(MaxAgeText(v.value)))
  }

  function MSearchHeaders(m: MSearch): seq<Header> {
    [Line(Host, m.host), Line(Man, MAN_DISCOVER), Line(Mx, Dec(m.mx)), Line(St, TargetText(m.st))]
    + (OptText(UserAgent, m.userAgent)
    + (OptText(Cpfn, m.cpfn)
    + (OptText(CpUuid, m.cpuuid)
    + OptPort(TcpPort, m.tcpport))))
  }

  function NotifyHeaders(m: Notify): seq<Header> {
    [Line(Host, m.host), Line(Nt, TargetText(m.nt)), Line(Nts, SubTypeText(m.nts)), Line(UsnField, UsnText(m.usn))]
    + (OptText(Location, m.location)
    + (OptAge(m.maxAge)
    + (OptText(Server, m.server)
    + (OptU32(BootId, m.bootid)
    + (OptU32(ConfigId, m.configid)
    + (OptU32(NextBootId, m.nextbootid)
    + OptPort(SearchPort, m.searchport)))))))
  }

  function ResponseHeaders(m: Response): seq<Header> {
    [Line(CacheControl, MaxAgeText(m.maxAge)), Line(Location, m.location),
     Line(St, TargetText(m.st)), Line(UsnField, UsnText(m.usn))]
    + (OptText(Server, m.server)
    + (OptU32(BootId, m.bootid)
    + (OptU32(ConfigId, m.configid)
    + OptPort(SearchPort, m.searchport))))
  }

  function Datagram(startLine: Bytes, hs: seq<Header>): Bytes {
    startLine + CRLF + (RenderHeaders(hs) + CRLF)
  }

  function MSearchText(m: MSearch): Bytes {
    Datagram(MSEARCH_LINE, MSearchHeaders(m))
  }

  function NotifyText(m: Notify): Bytes {
    Datagram(NOTIFY_LINE, NotifyHeaders(m))
  }

  function ResponseText(m: Response): Bytes {
    Datagram(RESPONSE_LINE, ResponseHeaders(m))
  }

  function MessageText(m: Message): Bytes {
    match m
    case Search(s) => MSearchText(s)
    case SearchResponse(r) => ResponseText(r)
    case Announcement(n) => NotifyText(n)
  }

  // ---------- the meaning of a list of fields ----------

  // What has been read so far; a field read again replaces its earlier value.
  datatype Seen = Seen(
    host: Option<Bytes>, target: Option<Target>, nts: Option<SubType>, usn: Option<Usn>,
    man: bool, mx: Option<nat>, location: Option<Bytes>, maxAge: Option<Nanos>,
    agent: Option<Bytes>, cpfn: Option<Bytes>, cpuuid: Option<Bytes>, tcpport: Option<u16>,
    bootid: Option<u32>, configid: Option<u32>, nextbootid: Option<u32>, searchport: Option<u16>)

  const NOTHING := Seen(None, None, None, None, false, None, None, None,
                        None, None, None, None, None, None, None, None)

  // Reads one field of a message of kind `k`; fields that mean nothing there are skipped.
  function ReadField(k: Kind, s: Seen, f: Field, v: Bytes): Result<Seen, ParseError> {
    match f
    case Host => if k == ResponseKind then Ok(s) else Ok(s.(host := Some(v)))
    case Nt => if k != NotifyKind then Ok(s) else var t :- ParseTarget(v); Ok(s.(target := Some(t)))
    case St => if k == NotifyKind then Ok(s) else var t :- ParseTarget(v); Ok(s.(target := Some(t)))
    case Nts => if k != NotifyKind then Ok(s) else var n :- ParseSubType(v); Ok(s.(nts := Some(n)))
    case UsnField => if k == MSearchKind then Ok(s) else var u :- ParseUsn(v); Ok(s.(usn := Some(u)))
    case Man =>
      if k != MSearchKind then Ok(s)
      else if Trim(v) == MAN_DISCOVER then Ok(s.(man := true)) else Err(InvalidHeaderValue("MAN"))
    case Mx => if k != MSearchKind then Ok(s) else var n :- ParseMx(v); Ok(s.(mx := Some(n)))
    case Location => if k == MSearchKind then Ok(s) else var l :- ParseLocation(v); Ok(s.(location := Some(l)))
    case CacheControl => if k == MSearchKind then Ok(s) else var a :- ParseMaxAge(v); Ok(s.(maxAge := Some(a)))
    case Server => if k == MSearchKind then Ok(s) else Ok(s.(agent := Some(v)))
    case UserAgent => if k != MSearchKind then Ok(s) else Ok(s.(agent := Some(v)))
    case Cpfn => if k != MSearchKind then Ok(s) else Ok(s.(cpfn := Some(v)))
    case CpUuid => if k != MSearchKind then Ok(s) else Ok(s.(cpuuid := Some(v)))
    case TcpPort =>
      if k != MSearchKind then Ok(s)
      else var p :- ParsePort(WireName(TcpPort), v); Ok(s.(tcpport := Some(p)))
    case BootId =>
      if k == MSearchKind then Ok(s)
      else var n :- ParseU32(WireName(BootId), v); Ok(s.(bootid := Some(n)))
    case ConfigId =>
      if k == MSearchKind then Ok(s)
      else var n :- ParseU32(WireName(ConfigId), v); Ok(s.(configid := Some(n)))
    case NextBootId =>
      if k != NotifyKind then Ok(s)
      else var n :- ParseU32(WireName(NextBootId), v); Ok(s.(nextbootid := Some(n)))
    case SearchPort =>
      if k == MSearchKind then Ok(s)
      else var p :- ParseSearchPort(v); Ok(s.(searchport := Some(p)))
    case Unknown => Ok(s)
  }

  function ReadHeader(k: Kind, s: Seen, h: Header): Result<Seen, ParseError> {
    if !ValidUtf8(h.value) then Err(InvalidHeaderValue("(non-utf8)"))
    else ReadField(k, s, Classify(h.name), h.value)
  }

  function ReadHeaders(k: Kind, s: Seen, hs: seq<Header>): Result<Seen, ParseError>
    decreases |hs|
  {
    if hs == [] then Ok(s)
    else var next :- ReadHeader(k, s, hs[0]); ReadHeaders(k, next, hs[1..])
  }

  function Need<T>(v: Option<T>, name: Bytes): Result<T, ParseError> {
    match v case None => Err(MissingHeader(name)) case Some(x) => Ok(x)
  }

  function FinishMSearch(s: Seen): Result<MSearch, ParseError> {
    if !s.man then Err(MissingHeader("MAN"))
    else
      var host :- Need(s.host, "HOST");
      var st :- Need(s.target, "ST");
      var mx :- Need(s.mx, "MX");
      Ok(MSearch(host, st, mx, s.agent, s.cpfn, s.cpuuid, s.tcpport))
  }

  // LOCATION and CACHE-CONTROL are required unless the device is leaving.
  function FinishNotify(s: Seen): Result<Notify, ParseError> {
    var nts :- Need(s.nts, "NTS");
    if nts != ByeBye && s.location.None? then Err(MissingHeader("LOCATION"))
    else if nts != ByeBye && s.maxAge.None? then Err(MissingHeader("CACHE-CONTROL"))
    else
      var host :- Need(s.host, "HOST");
      var nt :- Need(s.target, "NT");
      var usn :- Need(s.usn, "USN");
      Ok(Notify(host, nt, nts, usn, s.location, s.maxAge, s.agent,
                s.bootid, s.configid, s.nextbootid, s.searchport))
  }

  function FinishResponse(s: Seen): Result<Response, ParseError> {
    var st :- Need(s.target, "ST");
    var usn :- Need(s.usn, "USN");
    var location :- Need(s.location, "LOCATION");
    var maxAge :- Need(s.maxAge, "CACHE-CONTROL");
    Ok(Response(st, usn, location, maxAge, s.agent, s.bootid, s.configid, s.searchport))
  }

  function Finish(k: Kind, s: Seen): Result<Message, ParseError> {
    match k
    case MSearchKind => var m :- FinishMSearch(s); Ok(Search(m))
    case NotifyKind => var m :- FinishNotify(s); Ok(Announcement(m))
    case ResponseKind => var m :- FinishResponse(s); Ok(SearchResponse(m))
  }

  function ParseFields(k: Kind, buf: Bytes): Result<Message, ParseError> {
    match SplitHeaders(buf, MAX_HEADERS)
    case None => Err(MalformedHeaders)
    case Some(hs) => var s :- ReadHeaders(k, NOTHING, hs); Finish(k, s)
  }

  // ---------- start line and datagram ----------

  function ParseStartLine(buf: Bytes): Result<(Kind, Bytes), ParseError> {
    match FindText(buf, CRLF)
    case None => Err(TooShort)
    case Some(n) =>
      var line, rest := buf[..n], buf[n + 2..];
      if !ValidUtf8(line) then Err(UnknownStartLine)
      else if EqIgnoreCase(line, MSEARCH_LINE) then Ok((MSearchKind, rest))
      else if EqIgnoreCase(line, NOTIFY_LINE) then Ok((NotifyKind, rest))
      else if "HTTP/1.1 200" <= line then Ok((ResponseKind, rest))
      else Err(UnknownStartLine)
  }

  function ParseDatagram(buf: Bytes): Result<Message, ParseError> {
    if buf == [] then Err(TooShort)
    else
      var p :- ParseStartLine(buf);
      ParseFields(p.0, p.1)
  }

  // ---------- well-formed messages ----------

  predicate CleanText(v: Bytes) {
    CleanValue(v) && ValidUtf8(v)
  }

  predicate OptClean(v: Option<Bytes>) {
    v.Some? ==> CleanText(v.value)
  }

  predicate TargetOk(t: Target) {
    WellFormedTarget(t) && CleanText(TargetText(t))
  }

  predicate UsnOk(u: Usn) {
    WellFormedUsn(u) && CleanText(UsnText(u))
  }

  predicate LocationOk(l: Bytes) {
    ValidUri(l) && Trimmed(l)
  }

  predicate WellFormedMSearch(m: MSearch) {
    && CleanText(m.host) && TargetOk(m.st) && MX_MIN <= m.mx <= MX_MAX
    && OptClean(m.userAgent) && OptClean(m.cpfn) && OptClean(m.cpuuid)
  }

  predicate WellFormedNotify(m: Notify) {
    && CleanText(m.host) && TargetOk(m.nt) && UsnOk(m.usn)
    && (m.nts != ByeBye ==> m.location.Some? && m.maxAge.Some?)
    && (m.location.Some? ==> LocationOk(m.location.value))
    && (m.maxAge.Some? ==> WholeSeconds(m.maxAge.value))
    && OptClean(m.server)
    && m.searchport != Some(0)
  }

  predicate WellFormedResponse(m: Response) {
    && TargetOk(m.st) && UsnOk(m.usn) && LocationOk(m.location) && WholeSeconds(m.maxAge)
    && OptClean(m.server)
    && m.searchport != Some(0)
  }

  predicate WellFormed(m: Message) {
    match m
    case Search(s) => WellFormedMSearch(s)
    case SearchResponse(r) => WellFormedResponse(r)
    case Announcement(n) => WellFormedNotify(n)
  }
}
