/** The header loops of the three parsers, one pass each with the last value of a field winning. */
module Parse {
  import opened Wrappers
  import opened Text
  import opened Http
  import opened Target
  import opened Fields
  import opened Messages

  method ParseMSearch(buf: Bytes) returns (r: Result<MSearch, ParseError>)
    ensures ParseFields(MSearchKind, buf) == if r.Ok? then Ok(Search(r.value)) else Err(r.error)
  {
    hide SplitHeaders, ReadHeaders, ParseTarget, ParseMx, ParsePort, Trim, Classify, ValidUtf8, CleanHeader;
    var split := SplitHeaders(buf, MAX_HEADERS);
    if split.None? {
      return Err(MalformedHeaders);
    }
    var headers := split.value;
    var host: Option<Bytes>, st: Option<Target>, mx: Option<nat> := None, None, None;
    var userAgent: Option<Bytes>, cpfn: Option<Bytes>, cpuuid: Option<Bytes> := None, None, None;
    var tcpport: Option<u16>, sawMan := None, false;
    for i := 0 to |headers|
      invariant ReadHeaders(MSearchKind, NOTHING, headers) == ReadHeaders(MSearchKind,
        NOTHING.(host := host, target := st, mx := mx, agent := userAgent, cpfn := cpfn, cpuuid := cpuuid,
                 tcpport := tcpport, man := sawMan), headers[i..])
    {
      var h := headers[i];
      ReadHead(MSearchKind, NOTHING.(host := host, target := st, mx := mx, agent := userAgent, cpfn := cpfn,
                                     cpuuid := cpuuid, tcpport := tcpport, man := sawMan), headers[i..]);
      assert headers[i..][1..] == headers[i + 1..];
      if !ValidUtf8(h.value) {
        return Err(InvalidHeaderValue("(non-utf8)"));
      }
      match Classify(h.name)
      case Host => host := Some(h.value);
      case St =>
        var t :- ParseTarget(h.value);
        st := Some(t);
      case Man =>
        if Trim(h.value) != MAN_DISCOVER {
          return Err(InvalidHeaderValue("MAN"));
        }
        sawMan := true;
      case Mx =>
        var n :- ParseMx(h.value);
        mx := Some(n);
      case UserAgent => userAgent := Some(h.value);
      case Cpfn => cpfn := Some(h.value);
      case CpUuid => cpuuid := Some(h.value);
      case TcpPort =>
        var p :- ParsePort("TCPPORT.UPNP.ORG", h.value);
        tcpport := Some(p);
      case _ =>
    }
    ReadNone(MSearchKind, NOTHING.(host := host, target := st, mx := mx, agent := userAgent, cpfn := cpfn,
                                   cpuuid := cpuuid, tcpport := tcpport, man := sawMan));
    if !sawMan {
      return Err(MissingHeader("MAN"));
    }
    var theHost :- Need(host, "HOST");
    var theSt :- Need(st, "ST");
    var theMx :- Need(mx, "MX");
    return Ok(MSearch(theHost, theSt, theMx, userAgent, cpfn, cpuuid, tcpport));
  }

  method ParseNotify(buf: Bytes) returns (r: Result<Notify, ParseError>)
    ensures ParseFields(NotifyKind, buf) == if r.Ok? then Ok(Announcement(r.value)) else Err(r.error)
  {
    hide SplitHeaders, ReadHeaders, ParseTarget, ParseUsn, ParseSubType, ParseLocation, ParseMaxAge, ParseU32,
         ParseSearchPort, Classify, ValidUtf8, CleanHeader;
    var split := SplitHeaders(buf, MAX_HEADERS);
    if split.None? {
      return Err(MalformedHeaders);
    }
    var headers := split.value;
    var host: Option<Bytes>, nt: Option<Target>, nts: Option<SubType>, usn: Option<Usn> := None, None, None, None;
    var location: Option<Bytes>, maxAge: Option<Nanos>, server: Option<Bytes> := None, None, None;
    var bootid: Option<u32>, configid: Option<u32>, nextbootid: Option<u32> := None, None, None;
    var searchport: Option<u16> := None;
    for i := 0 to |headers|
      invariant ReadHeaders(NotifyKind, NOTHING, headers) == ReadHeaders(NotifyKind,
        NOTHING.(host := host, target := nt, nts := nts, usn := usn, location := location, maxAge := maxAge,
                 agent := server, bootid := bootid, configid := configid, nextbootid := nextbootid,
                 searchport := searchport), headers[i..])
    {
      var h := headers[i];
      ReadHead(NotifyKind, NOTHING.(host := host, target := nt, nts := nts, usn := usn, location := location,
                                    maxAge := maxAge, agent := server, bootid := bootid, configid := configid,
                                    nextbootid := nextbootid, searchport := searchport), headers[i..]);
      assert headers[i..][1..] == headers[i + 1..];
      if !ValidUtf8(h.value) {
        return Err(InvalidHeaderValue("(non-utf8)"));
      }
      match Classify(h.name)
      case Host => host := Some(h.value);
      case Nt =>
        var t :- ParseTarget(h.value);
        nt := Some(t);
      case Nts =>
        var n :- ParseSubType(h.value);
        nts := Some(n);
      case UsnField =>
        var u :- ParseUsn(h.value);
        usn := Some(u);
      case Location =>
        var l :- ParseLocation(h.value);
        location := Some(l);
      case CacheControl =>
        var a :- ParseMaxAge(h.value);
        maxAge := Some(a);
      case Server => server := Some(h.value);
      case BootId =>
        var n :- ParseU32("BOOTID.UPNP.ORG", h.value);
        bootid := Some(n);
      case ConfigId =>
        var n :- ParseU32("CONFIGID.UPNP.ORG", h.value);
        configid := Some(n);
      case NextBootId =>
        var n :- ParseU32("NEXTBOOTID.UPNP.ORG", h.value);
        nextbootid := Some(n);
      case SearchPort =>
        var p :- ParseSearchPort(h.value);
        searchport := Some(p);
      case _ =>
    }
    ReadNone(NotifyKind, NOTHING.(host := host, target := nt, nts := nts, usn := usn, location := location,
                                  maxAge := maxAge, agent := server, bootid := bootid, configid := configid,
                                  nextbootid := nextbootid, searchport := searchport));
    var theNts :- Need(nts, "NTS");
    if theNts != ByeBye {
      if location.None? {
        return Err(MissingHeader("LOCATION"));
      }
      if maxAge.None? {
        return Err(MissingHeader("CACHE-CONTROL"));
      }
    }
    var theHost :- Need(host, "HOST");
    var theNt :- Need(nt, "NT");
    var theUsn :- Need(usn, "USN");
    return Ok(Notify(
      theHost, theNt, theNts, theUsn, location, maxAge, server, bootid, configid, nextbootid, searchport));
  }

  method ParseResponse(buf: Bytes) returns (r: Result<Response, ParseError>)
    ensures ParseFields(ResponseKind, buf) == if r.Ok? then Ok(SearchResponse(r.value)) else Err(r.error)
  {
    hide SplitHeaders, ReadHeaders, ParseTarget, ParseUsn, ParseLocation, ParseMaxAge, ParseU32,
         ParseSearchPort, Classify, ValidUtf8, CleanHeader;
    var split := SplitHeaders(buf, MAX_HEADERS);
    if split.None? {
      return Err(MalformedHeaders);
    }
    var headers := split.value;
    var st: Option<Target>, usn: Option<Usn>, location: Option<Bytes> := None, None, None;
    var maxAge: Option<Nanos>, server: Option<Bytes> := None, None;
    var bootid: Option<u32>, configid: Option<u32>, searchport: Option<u16> := None, None, None;
    for i := 0 to |headers|
      invariant ReadHeaders(ResponseKind, NOTHING, headers) == ReadHeaders(ResponseKind,
        NOTHING.(target := st, usn := usn, location := location, maxAge := maxAge, agent := server,
                 bootid := bootid, configid := configid, searchport := searchport), headers[i..])
    {
      var h := headers[i];
      ReadHead(ResponseKind, NOTHING.(target := st, usn := usn, location := location, maxAge := maxAge,
                                      agent := server, bootid := bootid, configid := configid,
                                      searchport := searchport), headers[i..]);
      assert headers[i..][1..] == headers[i + 1..];
      if !ValidUtf8(h.value) {
        return Err(InvalidHeaderValue("(non-utf8)"));
      }
      match Classify(h.name)
      case St =>
        var t :- ParseTarget(h.value);
        st := Some(t);
      case UsnField =>
        var u :- ParseUsn(h.value);
        usn := Some(u);
      case Location =>
        var l :- ParseLocation(h.value);
        location := Some(l);
      case CacheControl =>
        var a :- ParseMaxAge(h.value);
        maxAge := Some(a);
      case Server => server := Some(h.value);
      case BootId =>
        var n :- ParseU32("BOOTID.UPNP.ORG", h.value);
        bootid := Some(n);
      case ConfigId =>
        var n :- ParseU32("CONFIGID.UPNP.ORG", h.value);
        configid := Some(n);
      case SearchPort =>
        var p :- ParseSearchPort(h.value);
        searchport := Some(p);
      case _ =>
    }
    ReadNone(ResponseKind, NOTHING.(target := st, usn := usn, location := location, maxAge := maxAge,
                                    agent := server, bootid := bootid, configid := configid,
                                    searchport := searchport));
    var theSt :- Need(st, "ST");
    var theUsn :- Need(usn, "USN");
    var theLocation :- Need(location, "LOCATION");
    var theAge :- Need(maxAge, "CACHE-CONTROL");
    return Ok(Response(theSt, theUsn, theLocation, theAge, server, bootid, configid, searchport));
  }

  lemma ReadHead(k: Kind, s: Seen, hs: seq<Header>)
    requires hs != []
    ensures ReadHeaders(k, s, hs) == if !ValidUtf8(hs[0].value) then Err(InvalidHeaderValue("(non-utf8)"))
                                     else match ReadField(k, s, Classify(hs[0].name), hs[0].value)
                                          case Err(e) => Err(e)
                                          case Ok(next) => ReadHeaders(k, next, hs[1..])
  {
    hide ReadField, ValidUtf8, Classify;
  }

  lemma ReadNone(k: Kind, s: Seen)
    ensures ReadHeaders(k, s, []) == Ok(s)
  {
  }
}
