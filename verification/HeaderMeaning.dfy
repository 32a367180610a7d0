/**
 * What a datagram means, read off its header lines by name: for every field the last line of that name
 * decides, wherever it stands, and lines with other names say nothing.
 */
module HeaderMeaning {
  import opened Wrappers
  import opened Text
  import opened Http
  import opened Target
  import opened Fields
  import opened Messages
  import opened MessageRoundTrip

  // ---------- the reference ----------

  predicate Named(h: Header, name: Bytes) {
    EqIgnoreCase(h.name, name)
  }

  // The value of the last header of that name.
  function LastValue(hs: seq<Header>, name: Bytes): Option<Bytes> {
    var n := |hs|;
    if n == 0 then None
    else if Named(hs[n - 1], name) then Some(hs[n - 1].value)
    else LastValue(hs[..n - 1], name)
  }

  // What can be read of a field, if anything.
  function Readable<T>(r: Result<T, ParseError>): Option<T> {
    match r case Ok(x) => Some(x) case Err(_) => None
  }

  function ReadTarget(v: Option<Bytes>): Option<Target> {
    if v.Some? then Readable(ParseTarget(v.value)) else None
  }

  function ReadUsn(v: Option<Bytes>): Option<Usn> {
    if v.Some? then Readable(ParseUsn(v.value)) else None
  }

  function ReadSubType(v: Option<Bytes>): Option<SubType> {
    if v.Some? then Readable(ParseSubType(v.value)) else None
  }

  function ReadLocation(v: Option<Bytes>): Option<Bytes> {
    if v.Some? then Readable(ParseLocation(v.value)) else None
  }

  function ReadAge(v: Option<Bytes>): Option<Nanos> {
    if v.Some? then Readable(ParseMaxAge(v.value)) else None
  }

  function ReadMx(v: Option<Bytes>): Option<nat> {
    if v.Some? then Readable(ParseMx(v.value)) else None
  }

  function ReadSearchPort(v: Option<Bytes>): Option<u16> {
    if v.Some? then Readable(ParseSearchPort(v.value)) else None
  }

  function ReadPortNumber(v: Option<Bytes>, name: Bytes): Option<u16> {
    if v.Some? then Readable(ParsePort(name, v.value)) else None
  }

  function ReadNumber(v: Option<Bytes>, name: Bytes): Option<u32> {
    if v.Some? then Readable(ParseU32(name, v.value)) else None
  }

  function ErrorOf<T>(r: Result<T, ParseError>): Option<ParseError> {
    match r case Ok(_) => None case Err(e) => Some(e)
  }

  // What a header alone is refused for, in a message of each kind.
  function Refusal(k: Kind, h: Header): Option<ParseError> {
    if !ValidUtf8(h.value) then Some(InvalidHeaderValue("(non-utf8)"))
    else match k
      case MSearchKind => SearchRefusal(h)
      case NotifyKind =>
        if Named(h, "NT") then ErrorOf(ParseTarget(h.value))
        else if Named(h, "NTS") then ErrorOf(ParseSubType(h.value))
        else if Named(h, "NEXTBOOTID.UPNP.ORG") then ErrorOf(ParseU32("NEXTBOOTID.UPNP.ORG", h.value))
        else AdvertRefusal(h)
      case ResponseKind =>
        if Named(h, "ST") then ErrorOf(ParseTarget(h.value)) else AdvertRefusal(h)
  }

  function SearchRefusal(h: Header): Option<ParseError> {
    if Named(h, "ST") then ErrorOf(ParseTarget(h.value))
    else if Named(h, "MAN") then
      if Trim(h.value) == "\"ssdp:discover\"" then None else Some(InvalidHeaderValue("MAN"))
    else if Named(h, "MX") then ErrorOf(ParseMx(h.value))
    else if Named(h, "TCPPORT.UPNP.ORG") then ErrorOf(ParsePort("TCPPORT.UPNP.ORG", h.value))
    else None
  }

  // The fields that notifications and responses share.
  function AdvertRefusal(h: Header): Option<ParseError> {
    if Named(h, "USN") then ErrorOf(ParseUsn(h.value))
    else if Named(h, "LOCATION") then ErrorOf(ParseLocation(h.value))
    else if Named(h, "CACHE-CONTROL") then ErrorOf(ParseMaxAge(h.value))
    else if Named(h, "BOOTID.UPNP.ORG") then ErrorOf(ParseU32("BOOTID.UPNP.ORG", h.value))
    else if Named(h, "CONFIGID.UPNP.ORG") then ErrorOf(ParseU32("CONFIGID.UPNP.ORG", h.value))
    else if Named(h, "SEARCHPORT.UPNP.ORG") then ErrorOf(ParseSearchPort(h.value))
    else None
  }

  // The first refusal, in the order of the headers.
  function FirstRefusal(k: Kind, hs: seq<Header>): Option<ParseError> {
    if hs == [] then None
    else
      var n := |hs| - 1;
      var before := FirstRefusal(k, hs[..n]);
      if before.Some? then before else Refusal(k, hs[n])
  }

  function Number(hs: seq<Header>, name: Bytes): Option<u32> {
    ReadNumber(LastValue(hs, name), name)
  }

  function SearchMeaning(hs: seq<Header>): Result<Message, ParseError> {
    var host := LastValue(hs, "HOST");
    var st := ReadTarget(LastValue(hs, "ST"));
    var mx := ReadMx(LastValue(hs, "MX"));
    if LastValue(hs, "MAN").None? then Err(MissingHeader("MAN"))
    else if host.None? then Err(MissingHeader("HOST"))
    else if st.None? then Err(MissingHeader("ST"))
    else if mx.None? then Err(MissingHeader("MX"))
    else Ok(Search(MSearch(
      host.value, st.value, mx.value,
      LastValue(hs, "USER-AGENT"), LastValue(hs, "CPFN.UPNP.ORG"), LastValue(hs, "CPUUID.UPNP.ORG"),
      ReadPortNumber(LastValue(hs, "TCPPORT.UPNP.ORG"), "TCPPORT.UPNP.ORG"))))
  }

  function NotifyMeaning(hs: seq<Header>): Result<Message, ParseError> {
    var host := LastValue(hs, "HOST");
    var nt := ReadTarget(LastValue(hs, "NT"));
    var nts := ReadSubType(LastValue(hs, "NTS"));
    var usn := ReadUsn(LastValue(hs, "USN"));
    var location := ReadLocation(LastValue(hs, "LOCATION"));
    var age := ReadAge(LastValue(hs, "CACHE-CONTROL"));
    if nts.None? then Err(MissingHeader("NTS"))
    else if nts.value != ByeBye && location.None? then Err(MissingHeader("LOCATION"))
    else if nts.value != ByeBye && age.None? then Err(MissingHeader("CACHE-CONTROL"))
    else if host.None? then Err(MissingHeader("HOST"))
    else if nt.None? then Err(MissingHeader("NT"))
    else if usn.None? then Err(MissingHeader("USN"))
    else Ok(Announcement(Notify(
      host.value, nt.value, nts.value, usn.value, location, age, LastValue(hs, "SERVER"),
      Number(hs, "BOOTID.UPNP.ORG"), Number(hs, "CONFIGID.UPNP.ORG"), Number(hs, "NEXTBOOTID.UPNP.ORG"),
      ReadSearchPort(LastValue(hs, "SEARCHPORT.UPNP.ORG")))))
  }

  function ResponseMeaning(hs: seq<Header>): Result<Message, ParseError> {
    var st := ReadTarget(LastValue(hs, "ST"));
    var usn := ReadUsn(LastValue(hs, "USN"));
    var location := ReadLocation(LastValue(hs, "LOCATION"));
    var age := ReadAge(LastValue(hs, "CACHE-CONTROL"));
    if st.None? then Err(MissingHeader("ST"))
    else if usn.None? then Err(MissingHeader("USN"))
    else if location.None? then Err(MissingHeader("LOCATION"))
    else if age.None? then Err(MissingHeader("CACHE-CONTROL"))
    else Ok(SearchResponse(Response(
      st.value, usn.value, location.value, age.value, LastValue(hs, "SERVER"),
      Number(hs, "BOOTID.UPNP.ORG"), Number(hs, "CONFIGID.UPNP.ORG"),
      ReadSearchPort(LastValue(hs, "SEARCHPORT.UPNP.ORG")))))
  }

  // The kind of message a start line announces.
  function KindOf(line: Bytes): Option<Kind> {
    if !ValidUtf8(line) then None
    else if EqIgnoreCase(line, "M-SEARCH * HTTP/1.1") then Some(MSearchKind)
    else if EqIgnoreCase(line, "NOTIFY * HTTP/1.1") then Some(NotifyKind)
    else if "HTTP/1.1 200" <= line then Some(ResponseKind)
    else None
  }

  function Meaning(line: Bytes, hs: seq<Header>): Result<Message, ParseError> {
    match KindOf(line)
    case None => Err(UnknownStartLine)
    case Some(k) =>
      if |hs| > 32 then Err(MalformedHeaders)
      else if FirstRefusal(k, hs).Some? then Err(FirstRefusal(k, hs).value)
      else match k
        case MSearchKind => SearchMeaning(hs)
        case NotifyKind => NotifyMeaning(hs)
        case ResponseKind => ResponseMeaning(hs)
  }

  // ---------- names and fields ----------

  lemma LowerShort()
    ensures EqIgnoreCase("NT", "nt") && EqIgnoreCase("ST", "st") && EqIgnoreCase("MX", "mx")
    ensures EqIgnoreCase("NTS", "nts") && EqIgnoreCase("USN", "usn") && EqIgnoreCase("MAN", "man")
  {
  }

  // Two names that fold to a third fold to each other.
  lemma FoldedAlike(a: Bytes, b: Bytes, c: Bytes)
    requires EqIgnoreCase(b, c)
    ensures EqIgnoreCase(a, c) ==> EqIgnoreCase(a, b)
  {
  }

  // A recognised name is the name of its field.
  lemma ClassifiedIsNamed(name: Bytes)
    ensures Classify(name) != Unknown ==> EqIgnoreCase(name, WireName(Classify(name)))
  {
    hide EqIgnoreCase;
    var f := Classify(name);
    LowerShort();
    LowerHost();
    LowerServer();
    LowerLocation();
    LowerUserAgent();
    LowerCacheControl();
    LowerCpfn();
    LowerBootId();
    LowerCpUuid();
    LowerTcpPort();
    LowerConfigId();
    LowerNextBootId();
    LowerSearchPort();
    forall c: Bytes | EqIgnoreCase(WireName(f), c)
      ensures EqIgnoreCase(name, c) ==> EqIgnoreCase(name, WireName(f))
    {
      FoldedAlike(name, WireName(f), c);
    }
  }

  lemma NamedIs(h: Header, f: Field)
    requires f != Unknown
    ensures Named(h, WireName(f)) <==> Classify(h.name) == f
  {
    hide Classify, WireName, EqIgnoreCase;
    WireNamesAreRecognised(f);
    ClassifiedIsNamed(h.name);
  }

  // Every field has its name as the UPnP Device Architecture spells it.
  lemma FieldNames(h: Header)
    ensures Named(h, "HOST") <==> Classify(h.name) == Host
    ensures Named(h, "CACHE-CONTROL") <==> Classify(h.name) == CacheControl
    ensures Named(h, "LOCATION") <==> Classify(h.name) == Location
    ensures Named(h, "NT") <==> Classify(h.name) == Nt
    ensures Named(h, "NTS") <==> Classify(h.name) == Nts
    ensures Named(h, "SERVER") <==> Classify(h.name) == Server
    ensures Named(h, "ST") <==> Classify(h.name) == St
    ensures Named(h, "USN") <==> Classify(h.name) == UsnField
    ensures Named(h, "MAN") <==> Classify(h.name) == Man
    ensures Named(h, "MX") <==> Classify(h.name) == Mx
    ensures Named(h, "USER-AGENT") <==> Classify(h.name) == UserAgent
    ensures Named(h, "BOOTID.UPNP.ORG") <==> Classify(h.name) == BootId
    ensures Named(h, "CONFIGID.UPNP.ORG") <==> Classify(h.name) == ConfigId
    ensures Named(h, "NEXTBOOTID.UPNP.ORG") <==> Classify(h.name) == NextBootId
    ensures Named(h, "SEARCHPORT.UPNP.ORG") <==> Classify(h.name) == SearchPort
    ensures Named(h, "CPFN.UPNP.ORG") <==> Classify(h.name) == Cpfn
    ensures Named(h, "CPUUID.UPNP.ORG") <==> Classify(h.name) == CpUuid
    ensures Named(h, "TCPPORT.UPNP.ORG") <==> Classify(h.name) == TcpPort
  {
    hide Classify, Named;
    NamedIs(h, Host);
    NamedIs(h, CacheControl);
    NamedIs(h, Location);
    NamedIs(h, Nt);
    NamedIs(h, Nts);
    NamedIs(h, Server);
    NamedIs(h, St);
    NamedIs(h, UsnField);
    NamedIs(h, Man);
    NamedIs(h, Mx);
    NamedIs(h, UserAgent);
    NamedIs(h, BootId);
    NamedIs(h, ConfigId);
    NamedIs(h, NextBootId);
    NamedIs(h, SearchPort);
    NamedIs(h, Cpfn);
    NamedIs(h, CpUuid);
    NamedIs(h, TcpPort);
  }

  // ---------- the reader computes it ----------

  function LastOf(hs: seq<Header>, f: Field): Option<Bytes> {
    LastValue(hs, WireName(f))
  }

  // What the reader remembers of a list of headers.
  function SeenOf(k: Kind, hs: seq<Header>): Seen {
    match k
    case MSearchKind =>
      Seen(LastOf(hs, Host), ReadTarget(LastOf(hs, St)), None, None, LastOf(hs, Man).Some?,
           ReadMx(LastOf(hs, Mx)), None, None, LastOf(hs, UserAgent), LastOf(hs, Cpfn), LastOf(hs, CpUuid),
           ReadPortNumber(LastOf(hs, TcpPort), WireName(TcpPort)), None, None, None, None)
    case NotifyKind =>
      Seen(LastOf(hs, Host), ReadTarget(LastOf(hs, Nt)), ReadSubType(LastOf(hs, Nts)),
           ReadUsn(LastOf(hs, UsnField)), false, None, ReadLocation(LastOf(hs, Location)),
           ReadAge(LastOf(hs, CacheControl)), LastOf(hs, Server), None, None, None,
           ReadNumber(LastOf(hs, BootId), WireName(BootId)), ReadNumber(LastOf(hs, ConfigId), WireName(ConfigId)),
           ReadNumber(LastOf(hs, NextBootId), WireName(NextBootId)), ReadSearchPort(LastOf(hs, SearchPort)))
    case ResponseKind =>
      Seen(None, ReadTarget(LastOf(hs, St)), None,
           ReadUsn(LastOf(hs, UsnField)), false, None, ReadLocation(LastOf(hs, Location)),
           ReadAge(LastOf(hs, CacheControl)), LastOf(hs, Server), None, None, None,
           ReadNumber(LastOf(hs, BootId), WireName(BootId)), ReadNumber(LastOf(hs, ConfigId), WireName(ConfigId)),
           None, ReadSearchPort(LastOf(hs, SearchPort)))
  }

  lemma LastOfSnoc(hs: seq<Header>, h: Header, f: Field)
    requires f != Unknown
    ensures LastOf(hs + [h], f) == if Classify(h.name) == f then Some(h.value) else LastOf(hs, f)
  {
    hide Named, WireName, Classify;
    NamedIs(h, f);
    assert (hs + [h])[..|hs|] == hs;
  }

  // The reason why a header cannot be read.
  function FailureOf(k: Kind, s: Seen, h: Header): Option<ParseError> {
    match ReadHeader(k, s, h) case Err(e) => Some(e) case Ok(_) => None
  }

  lemma SearchRefusedAlone(s: Seen, h: Header)
    ensures Refusal(MSearchKind, h) == FailureOf(MSearchKind, s, h)
  {
    hide Classify, Named, WireName, ParseTarget, ParseUsn, ParseLocation, ParseMaxAge, ParseU32, ParseSearchPort,
         ParseSubType, ParseMx, ParsePort, Trim, ValidUtf8;
    FieldNames(h);
    Spelled();
  }

  lemma NotifyRefusedAlone(s: Seen, h: Header)
    ensures Refusal(NotifyKind, h) == FailureOf(NotifyKind, s, h)
  {
    hide Classify, Named, WireName, ParseTarget, ParseUsn, ParseLocation, ParseMaxAge, ParseU32, ParseSearchPort,
         ParseSubType, ParseMx, ParsePort, Trim, ValidUtf8;
    FieldNames(h);
    Spelled();
  }

  lemma ResponseRefusedAlone(s: Seen, h: Header)
    ensures Refusal(ResponseKind, h) == FailureOf(ResponseKind, s, h)
  {
    hide Classify, Named, WireName, ParseTarget, ParseUsn, ParseLocation, ParseMaxAge, ParseU32, ParseSearchPort,
         ParseSubType, ParseMx, ParsePort, Trim, ValidUtf8;
    FieldNames(h);
    Spelled();
  }

  // Whether a header can be read does not depend on those before it.
  lemma RefusedAlone(k: Kind, s: Seen, h: Header)
    ensures Refusal(k, h) == FailureOf(k, s, h)
  {
    hide Refusal, FailureOf;
    match k
    case MSearchKind => SearchRefusedAlone(s, h);
    case NotifyKind => NotifyRefusedAlone(s, h);
    case ResponseKind => ResponseRefusedAlone(s, h);
  }

  // One more header changes what its own field says last.
  ghost predicate Grows(hs: seq<Header>, h: Header, more: seq<Header>) {
    forall f: Field | f != Unknown ::
      LastOf(more, f) == if Classify(h.name) == f then Some(h.value) else LastOf(hs, f)
  }

  lemma SearchStep(hs: seq<Header>, h: Header, more: seq<Header>)
    requires Grows(hs, h, more)
    ensures ReadHeader(MSearchKind, SeenOf(MSearchKind, hs), h).Ok? ==>
      ReadHeader(MSearchKind, SeenOf(MSearchKind, hs), h) == Ok(SeenOf(MSearchKind, more))
  {
    hide Classify, WireName, LastOf, ParseTarget, ParseUsn, ParseLocation, ParseMaxAge, ParseU32, ParseSearchPort,
         ParseSubType, ParseMx, ParsePort, Trim, ValidUtf8;
  }

  predicate IsNumber(f: Field) {
    f == BootId || f == ConfigId || f == NextBootId || f == SearchPort
  }

  predicate IsPlace(f: Field) {
    f == UsnField || f == Location || f == CacheControl || f == Server
  }

  lemma NotifyNumber(hs: seq<Header>, h: Header, more: seq<Header>)
    requires Grows(hs, h, more) && IsNumber(Classify(h.name))
    ensures ReadHeader(NotifyKind, SeenOf(NotifyKind, hs), h).Ok? ==>
      ReadHeader(NotifyKind, SeenOf(NotifyKind, hs), h) == Ok(SeenOf(NotifyKind, more))
  {
    hide Classify, WireName, LastOf, ParseTarget, ParseUsn, ParseLocation, ParseMaxAge, ParseU32, ParseSearchPort,
         ParseSubType, ParseMx, ParsePort, Trim, ValidUtf8;
  }

  lemma NotifyPlace(hs: seq<Header>, h: Header, more: seq<Header>)
    requires Grows(hs, h, more) && IsPlace(Classify(h.name))
    ensures ReadHeader(NotifyKind, SeenOf(NotifyKind, hs), h).Ok? ==>
      ReadHeader(NotifyKind, SeenOf(NotifyKind, hs), h) == Ok(SeenOf(NotifyKind, more))
  {
    hide Classify, WireName, LastOf, ParseTarget, ParseUsn, ParseLocation, ParseMaxAge, ParseU32, ParseSearchPort,
         ParseSubType, ParseMx, ParsePort, Trim, ValidUtf8;
  }

  lemma NotifyOther(hs: seq<Header>, h: Header, more: seq<Header>)
    requires Grows(hs, h, more) && !IsNumber(Classify(h.name)) && !IsPlace(Classify(h.name))
    ensures ReadHeader(NotifyKind, SeenOf(NotifyKind, hs), h).Ok? ==>
      ReadHeader(NotifyKind, SeenOf(NotifyKind, hs), h) == Ok(SeenOf(NotifyKind, more))
  {
    hide Classify, WireName, LastOf, ParseTarget, ParseUsn, ParseLocation, ParseMaxAge, ParseU32, ParseSearchPort,
         ParseSubType, ParseMx, ParsePort, Trim, ValidUtf8;
  }

  lemma ResponseNumber(hs: seq<Header>, h: Header, more: seq<Header>)
    requires Grows(hs, h, more) && IsNumber(Classify(h.name))
    ensures ReadHeader(ResponseKind, SeenOf(ResponseKind, hs), h).Ok? ==>
      ReadHeader(ResponseKind, SeenOf(ResponseKind, hs), h) == Ok(SeenOf(ResponseKind, more))
  {
    hide Classify, WireName, LastOf, ParseTarget, ParseUsn, ParseLocation, ParseMaxAge, ParseU32, ParseSearchPort,
         ParseSubType, ParseMx, ParsePort, Trim, ValidUtf8;
  }

  lemma ResponsePlace(hs: seq<Header>, h: Header, more: seq<Header>)
    requires Grows(hs, h, more) && IsPlace(Classify(h.name))
    ensures ReadHeader(ResponseKind, SeenOf(ResponseKind, hs), h).Ok? ==>
      ReadHeader(ResponseKind, SeenOf(ResponseKind, hs), h) == Ok(SeenOf(ResponseKind, more))
  {
    hide Classify, WireName, LastOf, ParseTarget, ParseUsn, ParseLocation, ParseMaxAge, ParseU32, ParseSearchPort,
         ParseSubType, ParseMx, ParsePort, Trim, ValidUtf8;
  }

  lemma ResponseOther(hs: seq<Header>, h: Header, more: seq<Header>)
    requires Grows(hs, h, more) && !IsNumber(Classify(h.name)) && !IsPlace(Classify(h.name))
    ensures ReadHeader(ResponseKind, SeenOf(ResponseKind, hs), h).Ok? ==>
      ReadHeader(ResponseKind, SeenOf(ResponseKind, hs), h) == Ok(SeenOf(ResponseKind, more))
  {
    hide Classify, WireName, LastOf, ParseTarget, ParseUsn, ParseLocation, ParseMaxAge, ParseU32, ParseSearchPort,
         ParseSubType, ParseMx, ParsePort, Trim, ValidUtf8;
  }

  lemma ReadStep(k: Kind, hs: seq<Header>, h: Header)
    ensures ReadHeader(k, SeenOf(k, hs), h) ==
      match Refusal(k, h) case Some(e) => Err(e) case None => Ok(SeenOf(k, hs + [h]))
  {
    hide Classify, LastOf, Refusal, ReadHeader, SeenOf;
    RefusedAlone(k, SeenOf(k, hs), h);
    forall f: Field | f != Unknown
      ensures LastOf(hs + [h], f) == if Classify(h.name) == f then Some(h.value) else LastOf(hs, f)
    {
      LastOfSnoc(hs, h, f);
    }
    match k
    case MSearchKind => SearchStep(hs, h, hs + [h]);
    case NotifyKind =>
      if IsNumber(Classify(h.name)) {
        NotifyNumber(hs, h, hs + [h]);
      } else if IsPlace(Classify(h.name)) {
        NotifyPlace(hs, h, hs + [h]);
      } else {
        NotifyOther(hs, h, hs + [h]);
      }
    case ResponseKind =>
      if IsNumber(Classify(h.name)) {
        ResponseNumber(hs, h, hs + [h]);
      } else if IsPlace(Classify(h.name)) {
        ResponsePlace(hs, h, hs + [h]);
      } else {
        ResponseOther(hs, h, hs + [h]);
      }
  }

  lemma {:induction false} ReadSnoc(k: Kind, s: Seen, hs: seq<Header>, h: Header)
    ensures ReadHeaders(k, s, hs + [h]) ==
      match ReadHeaders(k, s, hs) case Err(e) => Err(e) case Ok(next) => ReadHeader(k, next, h)
    decreases |hs|
  {
    hide ReadHeader;
    if hs == [] {
      assert (hs + [h])[1..] == [];
    } else {
      assert (hs + [h])[0] == hs[0] && (hs + [h])[1..] == hs[1..] + [h];
      if ReadHeader(k, s, hs[0]).Ok? {
        ReadSnoc(k, ReadHeader(k, s, hs[0]).value, hs[1..], h);
      }
    }
  }

  lemma {:induction false} ReaderComputes(k: Kind, hs: seq<Header>)
    ensures ReadHeaders(k, NOTHING, hs) ==
      match FirstRefusal(k, hs) case Some(e) => Err(e) case None => Ok(SeenOf(k, hs))
    decreases |hs|
  {
    hide ReadHeaders, ReadHeader, SeenOf, Refusal;
    if hs == [] {
      NothingRead(k);
    } else {
      var n := |hs| - 1;
      var before, h := hs[..n], hs[n];
      assert hs == before + [h];
      ReaderComputes(k, before);
      ReadSnoc(k, NOTHING, before, h);
      ReadStep(k, before, h);
    }
  }

  lemma NothingRead(k: Kind)
    ensures ReadHeaders(k, NOTHING, []) == Ok(NOTHING) && SeenOf(k, []) == NOTHING
  {
  }

  // ---------- whole datagrams ----------

  lemma {:induction false} TooManyHeaders(hs: seq<Header>, room: nat)
    requires AllClean(hs) && |hs| > room
    ensures SplitHeaders(RenderHeaders(hs) + CRLF, room) == None
    decreases room
  {
    hide FieldLine, IsTokenChar, CleanValue;
    var h, rest := hs[0], RenderHeaders(hs[1..]) + CRLF;
    var s := RenderHeaders(hs) + CRLF;
    assert hs[0] in hs;
    assert s == RenderHeader(h) + rest;
    FieldLineOfRendered(h, rest);
    assert s[0] == h.name[0] && IsTokenChar(h.name[0]);
    NoLineEnd(s[0]);
    if room > 0 {
      assert s[|RenderHeader(h)|..] == rest;
      TooManyHeaders(hs[1..], room - 1);
    }
  }

  lemma NoLineEnd(c: char)
    requires IsTokenChar(c)
    ensures c != '\r' && c != '\n'
  {
  }

  lemma StartLineMeans(line: Bytes, rest: Bytes)
    requires '\r' !in line
    ensures ParseStartLine(line + CRLF + rest) ==
      match KindOf(line) case None => Err(UnknownStartLine) case Some(k) => Ok((k, rest))
  {
    hide FindText, ValidUtf8, EqIgnoreCase;
    var buf := line + CRLF + rest;
    FirstLineEnds(line, rest);
    assert buf[..|line|] == line && buf[|line| + 2..] == rest;
  }

  /**
   * Every datagram of a start line and clean headers, few or many, known or not, in any order, parses to
   * its meaning, or fails for the reason given there.
   */
  lemma DatagramMeans(line: Bytes, hs: seq<Header>)
    requires '\r' !in line && AllClean(hs)
    ensures ParseDatagram(Datagram(line, hs)) == Meaning(line, hs)
  {
    hide SplitHeaders, RenderHeaders, CleanHeader, ParseDatagram, Meaning;
    if |hs| <= 32 {
      SplitOfRendered(hs, MAX_HEADERS);
      BodyMeans(line, RenderHeaders(hs) + CRLF, hs);
    } else {
      TooManyHeaders(hs, MAX_HEADERS);
      BodyFails(line, RenderHeaders(hs) + CRLF, hs);
    }
  }

  // What follows the start line means what its headers mean.
  lemma BodyMeans(line: Bytes, body: Bytes, hs: seq<Header>)
    requires '\r' !in line && |hs| <= 32 && SplitHeaders(body, MAX_HEADERS) == Some(hs)
    ensures ParseDatagram(line + CRLF + body) == Meaning(line, hs)
  {
    hide ParseStartLine, SplitHeaders, ReadHeaders, KindOf, FirstRefusal, SeenOf, Finish, SearchMeaning, NotifyMeaning,
         ResponseMeaning;
    StartLineMeans(line, body);
    match KindOf(line)
    case None =>
    case Some(k) =>
      ReaderComputes(k, hs);
      SearchFinishes(hs);
      NotifyFinishes(hs);
      ResponseFinishes(hs);
  }

  lemma BodyFails(line: Bytes, body: Bytes, hs: seq<Header>)
    requires '\r' !in line && |hs| > 32 && SplitHeaders(body, MAX_HEADERS) == None
    ensures ParseDatagram(line + CRLF + body) == Meaning(line, hs)
  {
    hide ParseStartLine, SplitHeaders, KindOf, FirstRefusal, SearchMeaning, NotifyMeaning, ResponseMeaning;
    StartLineMeans(line, body);
  }

  lemma SearchFinishes(hs: seq<Header>)
    ensures Finish(MSearchKind, SeenOf(MSearchKind, hs)) == SearchMeaning(hs)
  {
    hide LastValue, WireName, ParseTarget, ParseUsn, ParseLocation, ParseMaxAge, ParseU32, ParseSearchPort,
         ParseSubType, ParseMx, ParsePort;
    Spelled();
  }

  lemma NotifyFinishes(hs: seq<Header>)
    ensures Finish(NotifyKind, SeenOf(NotifyKind, hs)) == NotifyMeaning(hs)
  {
    hide LastValue, WireName, ParseTarget, ParseUsn, ParseLocation, ParseMaxAge, ParseU32, ParseSearchPort,
         ParseSubType, ParseMx, ParsePort;
    Spelled();
  }

  lemma ResponseFinishes(hs: seq<Header>)
    ensures Finish(ResponseKind, SeenOf(ResponseKind, hs)) == ResponseMeaning(hs)
  {
    hide LastValue, WireName, ParseTarget, ParseUsn, ParseLocation, ParseMaxAge, ParseU32, ParseSearchPort,
         ParseSubType, ParseMx, ParsePort;
    Spelled();
  }

  lemma Spelled()
    ensures WireName(Host) == "HOST" && WireName(St) == "ST" && WireName(Nt) == "NT" && WireName(Nts) == "NTS"
    ensures WireName(Man) == "MAN" && WireName(Mx) == "MX" && WireName(UsnField) == "USN"
    ensures WireName(Location) == "LOCATION" && WireName(CacheControl) == "CACHE-CONTROL"
    ensures WireName(Server) == "SERVER" && WireName(UserAgent) == "USER-AGENT"
    ensures WireName(BootId) == "BOOTID.UPNP.ORG" && WireName(ConfigId) == "CONFIGID.UPNP.ORG"
    ensures WireName(NextBootId) == "NEXTBOOTID.UPNP.ORG" && WireName(SearchPort) == "SEARCHPORT.UPNP.ORG"
    ensures WireName(Cpfn) == "CPFN.UPNP.ORG" && WireName(CpUuid) == "CPUUID.UPNP.ORG"
    ensures WireName(TcpPort) == "TCPPORT.UPNP.ORG"
  {
  }

  lemma NoLineIsTooShort(buf: Bytes)
    requires FindText(buf, "\r\n").None?
    ensures ParseDatagram(buf) == Err(TooShort)
  {
  }

  // ---------- what does not matter ----------

  const KNOWN: seq<Bytes> := [
    "HOST", "CACHE-CONTROL", "LOCATION", "NT", "NTS", "SERVER", "ST", "USN", "MAN", "MX", "USER-AGENT",
    "BOOTID.UPNP.ORG", "CONFIGID.UPNP.ORG", "NEXTBOOTID.UPNP.ORG", "SEARCHPORT.UPNP.ORG",
    "CPFN.UPNP.ORG", "CPUUID.UPNP.ORG", "TCPPORT.UPNP.ORG"]

  predicate Foreign(h: Header) {
    forall name <- KNOWN :: !Named(h, name)
  }

  ghost predicate SameLast(hs: seq<Header>, other: seq<Header>) {
    forall name <- KNOWN :: LastValue(hs, name) == LastValue(other, name)
  }

  lemma KnownNames(name: Bytes)
    requires name in ["HOST", "CACHE-CONTROL", "LOCATION", "NT", "NTS", "SERVER", "ST", "USN"]
      || name in ["MAN", "MX", "USER-AGENT"]
      || name in ["BOOTID.UPNP.ORG", "CONFIGID.UPNP.ORG", "NEXTBOOTID.UPNP.ORG", "SEARCHPORT.UPNP.ORG"]
      || name in ["CPFN.UPNP.ORG", "CPUUID.UPNP.ORG", "TCPPORT.UPNP.ORG"]
    ensures name in KNOWN
  {
  }

  lemma FieldIsKnown(f: Field)
    requires f != Unknown
    ensures WireName(f) in KNOWN
  {
    hide KNOWN;
    KnownNames(WireName(f));
  }

  // Equal last values, equal memory.
  lemma SameSeen(k: Kind, hs: seq<Header>, other: seq<Header>)
    requires SameLast(hs, other)
    ensures SeenOf(k, hs) == SeenOf(k, other)
  {
    hide LastValue, WireName, KNOWN, ParseTarget, ParseUsn, ParseLocation, ParseMaxAge, ParseU32, ParseSearchPort,
         ParseSubType, ParseMx, ParsePort;
    forall f: Field | f != Unknown
      ensures LastOf(hs, f) == LastOf(other, f)
    {
      FieldIsKnown(f);
    }
  }

  lemma SameMeaning(line: Bytes, hs: seq<Header>, other: seq<Header>)
    requires SameLast(hs, other) && |hs| <= 32 && |other| <= 32
    requires forall k :: FirstRefusal(k, hs) == FirstRefusal(k, other)
    ensures Meaning(line, hs) == Meaning(line, other)
  {
    hide SameLast, FirstRefusal, SearchMeaning, NotifyMeaning, ResponseMeaning, KindOf, SeenOf, Finish;
    SearchFinishes(hs);
    SearchFinishes(other);
    NotifyFinishes(hs);
    NotifyFinishes(other);
    ResponseFinishes(hs);
    ResponseFinishes(other);
    SameSeen(MSearchKind, hs, other);
    SameSeen(NotifyKind, hs, other);
    SameSeen(ResponseKind, hs, other);
  }

  lemma {:induction false} InsertedLast(a: seq<Header>, h: Header, b: seq<Header>, name: Bytes)
    ensures LastValue(a + [h] + b, name) ==
      if LastValue(b, name).Some? then LastValue(b, name)
      else if Named(h, name) then Some(h.value) else LastValue(a, name)
    ensures LastValue(a + b, name) ==
      if LastValue(b, name).Some? then LastValue(b, name) else LastValue(a, name)
    decreases |b|
  {
    hide Named;
    if b == [] {
      assert a + [h] + b == a + [h] && (a + [h])[..|a|] == a && a + b == a;
    } else {
      var c, last := b[..|b| - 1], b[|b| - 1];
      InsertedLast(a, h, c, name);
      assert (a + [h] + b)[..|a| + |b|] == a + [h] + c;
      assert (a + b)[..|a| + |b| - 1] == a + c;
      assert (a + [h] + b)[|a| + |b|] == last && (a + b)[|a| + |b| - 1] == last;
    }
  }

  lemma {:induction false} InsertedRefusal(k: Kind, a: seq<Header>, h: Header, b: seq<Header>)
    requires Refusal(k, h).None?
    ensures FirstRefusal(k, a + [h] + b) == FirstRefusal(k, a + b)
    decreases |b|
  {
    hide Refusal;
    if b == [] {
      assert a + [h] + b == a + [h] && (a + [h])[..|a|] == a && a + b == a;
    } else {
      var c, last := b[..|b| - 1], b[|b| - 1];
      InsertedRefusal(k, a, h, c);
      assert (a + [h] + b)[..|a| + |b|] == a + [h] + c;
      assert (a + b)[..|a| + |b| - 1] == a + c;
    }
  }

  lemma ForeignIsRead(k: Kind, h: Header)
    requires Foreign(h) && ValidUtf8(h.value)
    ensures Refusal(k, h).None?
  {
    hide Named, ValidUtf8, ParseTarget, ParseUsn, ParseLocation, ParseMaxAge, ParseU32, ParseSearchPort, ParseSubType,
         ParseMx, ParsePort, Trim;
    forall name | name in KNOWN
      ensures !Named(h, name)
    {
    }
    AllKnown();
  }

  lemma AllKnown()
    ensures "NT" in KNOWN && "NTS" in KNOWN && "NEXTBOOTID.UPNP.ORG" in KNOWN && "ST" in KNOWN && "MAN" in KNOWN
    ensures "MX" in KNOWN && "TCPPORT.UPNP.ORG" in KNOWN && "USN" in KNOWN && "LOCATION" in KNOWN
    ensures "CACHE-CONTROL" in KNOWN && "BOOTID.UPNP.ORG" in KNOWN && "CONFIGID.UPNP.ORG" in KNOWN
    ensures "SEARCHPORT.UPNP.ORG" in KNOWN
  {
    hide KNOWN;
    KnownNames("NT");
    KnownNames("NTS");
    KnownNames("NEXTBOOTID.UPNP.ORG");
    KnownNames("ST");
    KnownNames("MAN");
    KnownNames("MX");
    KnownNames("TCPPORT.UPNP.ORG");
    KnownNames("USN");
    KnownNames("LOCATION");
    KnownNames("CACHE-CONTROL");
    KnownNames("BOOTID.UPNP.ORG");
    KnownNames("CONFIGID.UPNP.ORG");
    KnownNames("SEARCHPORT.UPNP.ORG");
  }

  /** A header whose name is none of the known ones, put anywhere, changes nothing. */
  lemma ForeignHeadersAreIgnored(line: Bytes, a: seq<Header>, h: Header, b: seq<Header>)
    requires '\r' !in line && AllClean(a) && AllClean(b) && CleanHeader(h) && ValidUtf8(h.value) && Foreign(h)
    requires |a| + |b| < 32
    ensures ParseDatagram(Datagram(line, a + [h] + b)) == ParseDatagram(Datagram(line, a + b))
  {
    hide ParseDatagram, Datagram, Meaning, CleanHeader, FirstRefusal, Refusal, LastValue, ValidUtf8, Named, KNOWN;
    DatagramMeans(line, a + [h] + b);
    DatagramMeans(line, a + b);
    forall name <- KNOWN
      ensures LastValue(a + [h] + b, name) == LastValue(a + b, name)
    {
      InsertedLast(a, h, b, name);
    }
    forall k
      ensures FirstRefusal(k, a + [h] + b) == FirstRefusal(k, a + b)
    {
      ForeignIsRead(k, h);
      InsertedRefusal(k, a, h, b);
    }
    SameMeaning(line, a + [h] + b, a + b);
  }

  lemma {:induction false} NoneRefused(k: Kind, hs: seq<Header>)
    ensures FirstRefusal(k, hs).None? <==> forall h <- hs :: Refusal(k, h).None?
  {
    hide Refusal;
    if hs != [] {
      var n := |hs| - 1;
      NoneRefused(k, hs[..n]);
      assert hs == hs[..n] + [hs[n]];
    }
  }

  /**
   * Of the headers of a readable message only the last of each name counts: any other list of those
   * headers, in any order, with the same last ones, means the same.
   */
  lemma OnlyLastCounts(line: Bytes, hs: seq<Header>, other: seq<Header>)
    requires '\r' !in line && AllClean(hs) && ParseDatagram(Datagram(line, hs)).Ok?
    requires |other| <= 32 && (forall h <- other :: h in hs) && SameLast(hs, other)
    ensures ParseDatagram(Datagram(line, other)) == ParseDatagram(Datagram(line, hs))
  {
    hide ParseDatagram, Datagram, CleanHeader, FirstRefusal, Refusal, KindOf, SearchMeaning, NotifyMeaning,
         ResponseMeaning, SameLast, SeenOf, Finish;
    DatagramMeans(line, hs);
    DatagramMeans(line, other);
    var k := KindOf(line).value;
    NoneRefused(k, hs);
    NoneRefused(k, other);
    SearchFinishes(hs);
    SearchFinishes(other);
    NotifyFinishes(hs);
    NotifyFinishes(other);
    ResponseFinishes(hs);
    ResponseFinishes(other);
    SameSeen(k, hs, other);
  }

  /** So neighbours of different names may change places. */
  lemma OrderIsIrrelevant(line: Bytes, a: seq<Header>, x: Header, y: Header, b: seq<Header>)
    requires '\r' !in line && AllClean(a + [x] + ([y] + b)) && !EqIgnoreCase(x.name, y.name)
    requires ParseDatagram(Datagram(line, a + [x] + ([y] + b))).Ok?
    ensures ParseDatagram(Datagram(line, a + [y] + ([x] + b))) == ParseDatagram(Datagram(line, a + [x] + ([y] + b)))
  {
    hide ParseDatagram, Datagram, CleanHeader, LastValue, EqIgnoreCase, KNOWN;
    var hs, other := a + [x] + ([y] + b), a + [y] + ([x] + b);
    Accepted(line, hs);
    forall name <- KNOWN
      ensures LastValue(hs, name) == LastValue(other, name)
    {
      InsertedLast(a, x, [y] + b, name);
      InsertedLast(a, y, [x] + b, name);
      InsertedLast([], x, b, name);
      InsertedLast([], y, b, name);
      assert [] + [x] + b == [x] + b && [] + [y] + b == [y] + b;
      assert LastValue([], name) == None by { NoLast(name); }
      if EqIgnoreCase(x.name, name) && EqIgnoreCase(y.name, name) {
        SameName(x.name, y.name, name);
        assert false;
      }
    }
    OnlyLastCounts(line, hs, other);
  }

  lemma NoLast(name: Bytes)
    ensures LastValue([], name) == None
  {
  }

  lemma SameName(a: Bytes, b: Bytes, name: Bytes)
    requires EqIgnoreCase(a, name) && EqIgnoreCase(b, name)
    ensures EqIgnoreCase(a, b)
  {
  }

  lemma Accepted(line: Bytes, hs: seq<Header>)
    requires '\r' !in line && AllClean(hs) && ParseDatagram(Datagram(line, hs)).Ok?
    ensures |hs| <= 32
  {
    hide ParseDatagram, Datagram, CleanHeader, FirstRefusal, KindOf, SearchMeaning, NotifyMeaning, ResponseMeaning;
    DatagramMeans(line, hs);
  }

  /** And of two headers of the same name the earlier may be left out. */
  lemma LaterDecides(line: Bytes, a: seq<Header>, x: Header, b: seq<Header>, y: Header)
    requires '\r' !in line && AllClean(a + [x] + b) && y in b && EqIgnoreCase(x.name, y.name)
    requires ParseDatagram(Datagram(line, a + [x] + b)).Ok?
    ensures ParseDatagram(Datagram(line, a + b)) == ParseDatagram(Datagram(line, a + [x] + b))
  {
    hide ParseDatagram, Datagram, CleanHeader, LastValue, EqIgnoreCase, KNOWN;
    Accepted(line, a + [x] + b);
    forall name <- KNOWN
      ensures LastValue(a + [x] + b, name) == LastValue(a + b, name)
    {
      InsertedLast(a, x, b, name);
      if EqIgnoreCase(x.name, name) {
        RenamedToo(x.name, y.name, name);
        SomeLast(b, y, name);
      }
    }
    OnlyLastCounts(line, a + [x] + b, a + b);
  }

  lemma RenamedToo(a: Bytes, b: Bytes, name: Bytes)
    requires EqIgnoreCase(a, b) && EqIgnoreCase(a, name)
    ensures EqIgnoreCase(b, name)
  {
  }

  lemma {:induction false} SomeLast(hs: seq<Header>, h: Header, name: Bytes)
    requires h in hs && Named(h, name)
    ensures LastValue(hs, name).Some?
  {
    hide Named;
    var n := |hs| - 1;
    if !Named(hs[n], name) {
      assert h in hs[..n];
      SomeLast(hs[..n], h, name);
    }
  }

  /** However its lines are padded and ended, a datagram means what its headers mean. */
  lemma LoosenessIsIgnored(line: Bytes, ls: seq<Loose>, bareEnd: bool)
    requires '\r' !in line && (forall l <- ls :: LooseOk(l)) && |ls| <= 32
    ensures ParseDatagram(line + CRLF + (LooseText(ls) + Eol(bareEnd))) == Meaning(line, HeadersOf(ls))
  {
    hide ParseDatagram, SplitHeaders, LooseText, Meaning, LooseOk;
    SplitOfLoose(ls, bareEnd, MAX_HEADERS);
    BodyMeans(line, LooseText(ls) + Eol(bareEnd), HeadersOf(ls));
  }
}
