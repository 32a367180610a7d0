/**
 * Printing and parsing SSDP messages are inverse to each other: exactly the well-formed messages
 * survive the trip, and they are exactly the messages the parser can produce.
 */
module MessageRoundTrip {
  import opened Wrappers
  import opened Text
  import opened Http
  import opened Target
  import opened Fields
  import opened Messages

  // ---------- reading a printed field ----------

  lemma ReadLine(k: Kind, s: Seen, f: Field, v: Bytes)
    requires ValidUtf8(v)
    ensures ReadHeader(k, s, Line(f, v)) == ReadField(k, s, f, v)
  {
    hide Classify, WireName, ReadField, ValidUtf8;
    WireNamesAreRecognised(f);
  }

  lemma ReadCons(k: Kind, s: Seen, h: Header, rest: seq<Header>, next: Seen)
    requires ReadHeader(k, s, h) == Ok(next)
    ensures ReadHeaders(k, s, [h] + rest) == ReadHeaders(k, next, rest)
  {
    hide ReadHeader;
    assert ([h] + rest)[1..] == rest;
  }

  lemma DecIsUtf8(n: nat)
    ensures ValidUtf8(Dec(n))
  {
    hide Dec;
    assert forall i | 0 <= i < |Dec(n)| :: IsDigit(Dec(n)[i]);
    AsciiIsUtf8(Dec(n));
  }

  lemma LocationIsUtf8(l: Bytes)
    requires ValidUri(l)
    ensures ValidUtf8(l)
  {
    AsciiIsUtf8(l);
  }

  lemma MaxAgeIsUtf8(age: Nanos)
    ensures ValidUtf8(MaxAgeText(age))
  {
    hide Dec, WireSeconds;
    AsciiIsUtf8("max-age=");
    DecIsUtf8(WireSeconds(age));
    Utf8Join("max-age=", Dec(WireSeconds(age)));
  }

  // ---------- reading the fields of a printed message ----------

  // An optional field takes the reader from `s` to `next`, which is `s` when the field is absent.
  lemma ReadOptional(k: Kind, s: Seen, f: Field, v: Option<Bytes>, rest: seq<Header>, next: Seen)
    requires v.None? ==> next == s
    requires v.Some? ==> ValidUtf8(v.value) && ReadField(k, s, f, v.value) == Ok(next)
    ensures ReadHeaders(k, s, OptText(f, v) + rest) == ReadHeaders(k, next, rest)
  {
    hide ReadHeaders, ReadField, ValidUtf8, WireName;
    assert [] + rest == rest;
    if v.Some? {
      ReadLine(k, s, f, v.value);
      ReadCons(k, s, Line(f, v.value), rest, next);
    }
  }

  lemma ReadU32(k: Kind, s: Seen, f: Field, v: Option<u32>, rest: seq<Header>, next: Seen)
    requires k != MSearchKind && (f == BootId || f == ConfigId || (f == NextBootId && k == NotifyKind))
    requires match f case BootId => s.bootid.None? && next == s.(bootid := v)
                     case ConfigId => s.configid.None? && next == s.(configid := v)
                     case _ => s.nextbootid.None? && next == s.(nextbootid := v)
    ensures ReadHeaders(k, s, OptU32(f, v) + rest) == ReadHeaders(k, next, rest)
  {
    hide ReadHeaders, WireName, Dec, ParseU32, OptText;
    if v.Some? {
      DecIsUtf8(v.value);
      NumbersRoundTrip(v.value, WireName(f));
    }
    ReadOptional(k, s, f, if v.None? then None else Some(Dec(v.value)), rest, next);
  }

  lemma ReadPort(k: Kind, s: Seen, v: Option<u16>)
    requires k == MSearchKind ==> s.tcpport.None?
    requires k != MSearchKind ==> s.searchport.None? && v != Some(0)
    ensures k == MSearchKind ==> ReadHeaders(k, s, OptPort(TcpPort, v)) == Ok(s.(tcpport := v))
    ensures k != MSearchKind ==> ReadHeaders(k, s, OptPort(SearchPort, v)) == Ok(s.(searchport := v))
  {
    hide WireName, Dec, ParsePort, ParseSearchPort, OptText;
    if v.Some? {
      DecIsUtf8(v.value);
      NumbersRoundTrip(v.value, WireName(TcpPort));
    }
    var f := if k == MSearchKind then TcpPort else SearchPort;
    var next := if k == MSearchKind then s.(tcpport := v) else s.(searchport := v);
    ReadOptional(k, s, f, if v.None? then None else Some(Dec(v.value)), [], next);
    assert OptPort(f, v) + [] == OptPort(f, v);
  }

  lemma ReadTail(k: Kind, s: Seen, server: Option<Bytes>, bootid: Option<u32>, configid: Option<u32>, rest: seq<Header>)
    requires k != MSearchKind && OptClean(server) && s.agent.None? && s.bootid.None? && s.configid.None?
    ensures ReadHeaders(k, s, OptText(Server, server) + (OptU32(BootId, bootid) + (OptU32(ConfigId, configid) + rest)))
         == ReadHeaders(k, s.(agent := server, bootid := bootid, configid := configid), rest)
  {
    hide ReadHeaders, OptText, OptU32, ValidUtf8;
    var s1 := s.(agent := server);
    var s2 := s1.(bootid := bootid);
    ReadOptional(k, s, Server, server, OptU32(BootId, bootid) + (OptU32(ConfigId, configid) + rest), s1);
    ReadU32(k, s1, BootId, bootid, OptU32(ConfigId, configid) + rest, s2);
    ReadU32(k, s2, ConfigId, configid, rest, s2.(configid := configid));
  }

  // The mandatory part of each message, four fields at a time.
  lemma ReadFour(k: Kind, s0: Seen, a: Header, b: Header, c: Header, d: Header, rest: seq<Header>,
                 s1: Seen, s2: Seen, s3: Seen, s4: Seen)
    requires ReadHeader(k, s0, a) == Ok(s1) && ReadHeader(k, s1, b) == Ok(s2)
    requires ReadHeader(k, s2, c) == Ok(s3) && ReadHeader(k, s3, d) == Ok(s4)
    ensures ReadHeaders(k, s0, [a, b, c, d] + rest) == ReadHeaders(k, s4, rest)
  {
    hide ReadHeader, ReadHeaders;
    ReadCons(k, s0, a, [b, c, d] + rest, s1);
    ReadCons(k, s1, b, [c, d] + rest, s2);
    ReadCons(k, s2, c, [d] + rest, s3);
    ReadCons(k, s3, d, rest, s4);
    assert [a, b, c, d] + rest == [a] + ([b, c, d] + rest);
    assert [b, c, d] + rest == [b] + ([c, d] + rest);
    assert [c, d] + rest == [c] + ([d] + rest);
  }

  lemma NotifyReads(m: Notify)
    requires WellFormedNotify(m)
    ensures ReadHeaders(NotifyKind, NOTHING, NotifyHeaders(m)) ==
      Ok(NOTHING.(host := Some(m.host), target := Some(m.nt), nts := Some(m.nts), usn := Some(m.usn),
                  location := m.location, maxAge := m.maxAge, agent := m.server, bootid := m.bootid,
                  configid := m.configid, nextbootid := m.nextbootid, searchport := m.searchport))
  {
    hide ReadHeaders, ReadHeader, OptText, OptU32, OptPort, ValidUtf8, CleanValue, WireName, TargetText, UsnText,
         ParseTarget, ParseUsn, SubTypeText, ParseSubType, WellFormedTarget, WellFormedUsn, Trim, MaxAgeText,
         ParseMaxAge,
         WholeSeconds;
    var k := NotifyKind;
    var s1 := NOTHING.(host := Some(m.host));
    var s2 := s1.(target := Some(m.nt));
    var s3 := s2.(nts := Some(m.nts));
    var s4 := s3.(usn := Some(m.usn));
    var s5 := s4.(location := m.location);
    var s6 := s5.(maxAge := m.maxAge);
    var s7 := s6.(agent := m.server, bootid := m.bootid, configid := m.configid);
    var s8 := s7.(nextbootid := m.nextbootid);
    var h8 := OptPort(SearchPort, m.searchport);
    var h7 := OptU32(NextBootId, m.nextbootid) + h8;
    var h6 := OptText(Server, m.server) + (OptU32(BootId, m.bootid) + (OptU32(ConfigId, m.configid) + h7));
    var h5 := OptAge(m.maxAge) + h6;
    var h4 := OptText(Location, m.location) + h5;

    SubTypeRoundTrip(m.nts);
    SubTypeIsUtf8(m.nts);
    WellFormedTargetParsesBack(m.nt);
    WellFormedUsnParsesBack(m.usn);
    ReadLine(k, NOTHING, Host, m.host);
    ReadLine(k, s1, Nt, TargetText(m.nt));
    ReadLine(k, s2, Nts, SubTypeText(m.nts));
    ReadLine(k, s3, UsnField, UsnText(m.usn));
    ReadFour(k, NOTHING, Line(Host, m.host), Line(Nt, TargetText(m.nt)), Line(Nts, SubTypeText(m.nts)),
             Line(UsnField, UsnText(m.usn)), h4, s1, s2, s3, s4);

    if m.location.Some? {
      LocationIsUtf8(m.location.value);
      TrimIsTrimmed(m.location.value);
    }
    ReadOptional(k, s4, Location, m.location, h5, s5);
    if m.maxAge.Some? {
      MaxAgeIsUtf8(m.maxAge.value);
      MaxAgeOfWholeSeconds(m.maxAge.value);
    }
    ReadOptional(k, s5, CacheControl, if m.maxAge.None? then None else Some(MaxAgeText(m.maxAge.value)), h6, s6);
    ReadTail(k, s6, m.server, m.bootid, m.configid, h7);
    ReadU32(k, s7, NextBootId, m.nextbootid, h8, s8);
    ReadPort(k, s8, m.searchport);
  }

  lemma SubTypeIsUtf8(n: SubType)
    ensures ValidUtf8(SubTypeText(n)) && CleanValue(SubTypeText(n))
  {
    SubTypeIsAscii(n);
    AsciiIsUtf8(SubTypeText(n));
  }

  lemma SubTypeIsAscii(n: SubType)
    ensures CleanValue(SubTypeText(n)) && forall i | 0 <= i < |SubTypeText(n)| :: SubTypeText(n)[i] as int < 0x80
  {
    match n case _ =>
  }

  lemma MaxAgeOfWholeSeconds(age: Nanos)
    requires WholeSeconds(age)
    ensures ParseMaxAge(MaxAgeText(age)) == Ok(age)
  {
    hide ParseMaxAge, MaxAgeText;
    MaxAgeRoundTrip(age);
  }

  lemma ResponseReads(m: Response)
    requires WellFormedResponse(m)
    ensures ReadHeaders(ResponseKind, NOTHING, ResponseHeaders(m)) ==
      Ok(NOTHING.(maxAge := Some(m.maxAge), location := Some(m.location), target := Some(m.st), usn := Some(m.usn),
                  agent := m.server, bootid := m.bootid, configid := m.configid, searchport := m.searchport))
  {
    hide ReadHeaders, ReadHeader, OptText, OptU32, OptPort, ValidUtf8, CleanValue, WireName, TargetText, UsnText,
         ParseTarget, ParseUsn, WellFormedTarget, WellFormedUsn, Trim, MaxAgeText, ParseMaxAge, WholeSeconds;
    var k := ResponseKind;
    var s1 := NOTHING.(maxAge := Some(m.maxAge));
    var s2 := s1.(location := Some(m.location));
    var s3 := s2.(target := Some(m.st));
    var s4 := s3.(usn := Some(m.usn));
    var s5 := s4.(agent := m.server, bootid := m.bootid, configid := m.configid);
    var h5 := OptPort(SearchPort, m.searchport);
    var h4 := OptText(Server, m.server) + (OptU32(BootId, m.bootid) + (OptU32(ConfigId, m.configid) + h5));

    MaxAgeIsUtf8(m.maxAge);
    MaxAgeOfWholeSeconds(m.maxAge);
    LocationIsUtf8(m.location);
    TrimIsTrimmed(m.location);
    WellFormedTargetParsesBack(m.st);
    WellFormedUsnParsesBack(m.usn);
    ReadLine(k, NOTHING, CacheControl, MaxAgeText(m.maxAge));
    ReadLine(k, s1, Location, m.location);
    ReadLine(k, s2, St, TargetText(m.st));
    ReadLine(k, s3, UsnField, UsnText(m.usn));
    ReadFour(k, NOTHING, Line(CacheControl, MaxAgeText(m.maxAge)), Line(Location, m.location),
             Line(St, TargetText(m.st)), Line(UsnField, UsnText(m.usn)), h4, s1, s2, s3, s4);
    ReadTail(k, s4, m.server, m.bootid, m.configid, h5);
    ReadPort(k, s5, m.searchport);
  }

  lemma ManIsClean()
    ensures CleanText(MAN_DISCOVER) && Trimmed(MAN_DISCOVER)
  {
    hide ValidUtf8, CleanValue;
    ManIsAscii();
    AsciiIsUtf8(MAN_DISCOVER);
    ManIsCleanValue();
  }

  lemma ManIsAscii()
    ensures forall i | 0 <= i < |MAN_DISCOVER| :: MAN_DISCOVER[i] as int < 0x80
  {
  }

  lemma ManIsCleanValue()
    ensures CleanValue(MAN_DISCOVER)
  {
  }

  lemma MSearchReads(m: MSearch)
    requires WellFormedMSearch(m)
    ensures ReadHeaders(MSearchKind, NOTHING, MSearchHeaders(m)) ==
      Ok(NOTHING.(host := Some(m.host), man := true, mx := Some(m.mx), target := Some(m.st),
                  agent := m.userAgent, cpfn := m.cpfn, cpuuid := m.cpuuid, tcpport := m.tcpport))
  {
    hide ReadHeaders, ReadHeader, OptText, OptPort, ValidUtf8, CleanValue, WireName, TargetText,
         ParseTarget, WellFormedTarget, Trim, Trimmed, ParseMx, Dec;
    var k := MSearchKind;
    var s1 := NOTHING.(host := Some(m.host));
    var s2 := s1.(man := true);
    var s3 := s2.(mx := Some(m.mx));
    var s4 := s3.(target := Some(m.st));
    var s5 := s4.(agent := m.userAgent);
    var s6 := s5.(cpfn := m.cpfn);
    var s7 := s6.(cpuuid := m.cpuuid);
    var h7 := OptPort(TcpPort, m.tcpport);
    var h6 := OptText(CpUuid, m.cpuuid) + h7;
    var h5 := OptText(Cpfn, m.cpfn) + h6;
    var h4 := OptText(UserAgent, m.userAgent) + h5;

    ManIsClean();
    TrimIsTrimmed(MAN_DISCOVER);
    DecIsUtf8(m.mx);
    NumbersRoundTrip(m.mx, "MX");
    WellFormedTargetParsesBack(m.st);
    ReadLine(k, NOTHING, Host, m.host);
    ReadLine(k, s1, Man, MAN_DISCOVER);
    ReadLine(k, s2, Mx, Dec(m.mx));
    ReadLine(k, s3, St, TargetText(m.st));
    ReadFour(k, NOTHING, Line(Host, m.host), Line(Man, MAN_DISCOVER), Line(Mx, Dec(m.mx)), Line(St, TargetText(m.st)),
             h4, s1, s2, s3, s4);
    ReadOptional(k, s4, UserAgent, m.userAgent, h5, s5);
    ReadOptional(k, s5, Cpfn, m.cpfn, h6, s6);
    ReadOptional(k, s6, CpUuid, m.cpuuid, h7, s7);
    ReadPort(k, s7, m.tcpport);
  }

  // ---------- the fields of a well-formed message are clean and few ----------

  predicate AllClean(hs: seq<Header>) {
    forall h <- hs :: CleanHeader(h)
  }

  lemma LineIsClean(f: Field, v: Bytes)
    requires CleanValue(v)
    ensures CleanHeader(Line(f, v))
  {
    hide WireName, CleanValue, Classify;
    WireNamesAreRecognised(f);
  }

  lemma OptIsClean(f: Field, v: Option<Bytes>)
    requires v.Some? ==> CleanValue(v.value)
    ensures AllClean(OptText(f, v)) && |OptText(f, v)| <= 1
  {
    hide WireName, CleanValue;
    if v.Some? {
      LineIsClean(f, v.value);
    }
  }

  lemma DecIsClean(n: nat)
    ensures CleanValue(Dec(n))
  {
    hide Dec;
    assert forall i | 0 <= i < |Dec(n)| :: IsDigit(Dec(n)[i]);
  }

  lemma MaxAgeIsClean(age: Nanos)
    ensures CleanValue(MaxAgeText(age))
  {
    hide Dec, WireSeconds;
    var d := Dec(WireSeconds(age));
    assert forall i | 0 <= i < |d| :: IsDigit(d[i]);
  }

  lemma LocationIsClean(l: Bytes)
    requires LocationOk(l)
    ensures CleanValue(l)
  {
  }

  lemma OptU32IsClean(f: Field, v: Option<u32>)
    ensures AllClean(OptU32(f, v)) && |OptU32(f, v)| <= 1
  {
    hide Dec, OptText, CleanValue;
    if v.Some? {
      DecIsClean(v.value);
    }
    OptIsClean(f, if v.None? then None else Some(Dec(v.value)));
  }

  lemma OptPortIsClean(f: Field, v: Option<u16>)
    ensures AllClean(OptPort(f, v)) && |OptPort(f, v)| <= 1
  {
    hide Dec, OptText, CleanValue;
    if v.Some? {
      DecIsClean(v.value);
    }
    OptIsClean(f, if v.None? then None else Some(Dec(v.value)));
  }

  lemma NotifyHeadersAreClean(m: Notify)
    requires WellFormedNotify(m)
    ensures AllClean(NotifyHeaders(m)) && |NotifyHeaders(m)| <= MAX_HEADERS
  {
    hide CleanHeader, Line, OptText, OptU32, OptPort, CleanValue, ValidUtf8, WellFormedTarget, WellFormedUsn,
         TargetText, UsnText, SubTypeText, MaxAgeText, LocationOk;
    LineIsClean(Host, m.host);
    LineIsClean(Nt, TargetText(m.nt));
    SubTypeIsUtf8(m.nts);
    LineIsClean(Nts, SubTypeText(m.nts));
    LineIsClean(UsnField, UsnText(m.usn));
    if m.location.Some? {
      LocationIsClean(m.location.value);
    }
    OptIsClean(Location, m.location);
    if m.maxAge.Some? {
      MaxAgeIsClean(m.maxAge.value);
    }
    OptIsClean(CacheControl, if m.maxAge.None? then None else Some(MaxAgeText(m.maxAge.value)));
    OptIsClean(Server, m.server);
    OptU32IsClean(BootId, m.bootid);
    OptU32IsClean(ConfigId, m.configid);
    OptU32IsClean(NextBootId, m.nextbootid);
    OptPortIsClean(SearchPort, m.searchport);
  }

  lemma ResponseHeadersAreClean(m: Response)
    requires WellFormedResponse(m)
    ensures AllClean(ResponseHeaders(m)) && |ResponseHeaders(m)| <= MAX_HEADERS
  {
    hide CleanHeader, Line, OptText, OptU32, OptPort, CleanValue, ValidUtf8, WellFormedTarget, WellFormedUsn,
         TargetText, UsnText, MaxAgeText, LocationOk;
    MaxAgeIsClean(m.maxAge);
    LineIsClean(CacheControl, MaxAgeText(m.maxAge));
    LocationIsClean(m.location);
    LineIsClean(Location, m.location);
    LineIsClean(St, TargetText(m.st));
    LineIsClean(UsnField, UsnText(m.usn));
    OptIsClean(Server, m.server);
    OptU32IsClean(BootId, m.bootid);
    OptU32IsClean(ConfigId, m.configid);
    OptPortIsClean(SearchPort, m.searchport);
  }

  lemma MSearchHeadersAreClean(m: MSearch)
    requires WellFormedMSearch(m)
    ensures AllClean(MSearchHeaders(m)) && |MSearchHeaders(m)| <= MAX_HEADERS
  {
    hide CleanHeader, Line, OptText, OptPort, CleanValue, ValidUtf8, WellFormedTarget, TargetText, Dec;
    LineIsClean(Host, m.host);
    ManIsClean();
    LineIsClean(Man, MAN_DISCOVER);
    DecIsClean(m.mx);
    LineIsClean(Mx, Dec(m.mx));
    LineIsClean(St, TargetText(m.st));
    OptIsClean(UserAgent, m.userAgent);
    OptIsClean(Cpfn, m.cpfn);
    OptIsClean(CpUuid, m.cpuuid);
    OptPortIsClean(TcpPort, m.tcpport);
  }

  // ---------- whole datagrams ----------

  function StartLine(k: Kind): Bytes {
    match k
    case MSearchKind => MSEARCH_LINE
    case NotifyKind => NOTIFY_LINE
    case ResponseKind => RESPONSE_LINE
  }

  lemma FirstLineEnds(line: Bytes, rest: Bytes)
    requires forall i | 0 <= i < |line| :: line[i] != '\r'
    ensures FindText(line + CRLF + rest, CRLF) == Some(|line|)
  {
    hide FindText;
    var s := line + CRLF + rest;
    assert OccursAt(s, CRLF, |line|);
    forall i | 0 <= i < |line|
      ensures !OccursAt(s, CRLF, i)
    {
      assert s[i] == line[i];
      assert s[i..i + 2][0] == s[i];
    }
    FindTextIs(s, CRLF, |line|);
  }

  lemma StartLineIsPlain(k: Kind)
    ensures forall i | 0 <= i < |StartLine(k)| :: StartLine(k)[i] != '\r' && (StartLine(k)[i] as int) < 0x80
  {
  }

  lemma StartLineIsRecognised(k: Kind)
    ensures k == NotifyKind ==> !EqIgnoreCase(StartLine(k), MSEARCH_LINE)
    ensures k == ResponseKind ==>
      !EqIgnoreCase(StartLine(k), MSEARCH_LINE) && !EqIgnoreCase(StartLine(k), NOTIFY_LINE)
        && "HTTP/1.1 200" <= StartLine(k)
  {
  }

  lemma StartLineParses(k: Kind, rest: Bytes)
    ensures ParseStartLine(StartLine(k) + CRLF + rest) == Ok((k, rest))
  {
    hide FindText, ValidUtf8, StartLine;
    var line := StartLine(k);
    var buf := line + CRLF + rest;
    StartLineIsPlain(k);
    AsciiIsUtf8(line);
    StartLineIsRecognised(k);
    FirstLineEnds(line, rest);
    assert buf[..|line|] == line && buf[|line| + 2..] == rest;
    assert EqIgnoreCase(line, line);
    assert line ==
      match k case MSearchKind => MSEARCH_LINE case NotifyKind => NOTIFY_LINE case ResponseKind => RESPONSE_LINE by {
      StartLineIs(k);
    }
  }

  lemma StartLineIs(k: Kind)
    ensures StartLine(k) ==
      match k case MSearchKind => MSEARCH_LINE case NotifyKind => NOTIFY_LINE case ResponseKind => RESPONSE_LINE
  {
  }

  lemma DatagramParses(k: Kind, hs: seq<Header>, s: Seen)
    requires AllClean(hs) && |hs| <= MAX_HEADERS && ReadHeaders(k, NOTHING, hs) == Ok(s)
    ensures ParseDatagram(Datagram(StartLine(k), hs)) == Finish(k, s)
  {
    hide StartLine, ParseStartLine, SplitHeaders, RenderHeaders, CleanHeader, ReadHeaders, Finish;
    var body := RenderHeaders(hs) + CRLF;
    StartLineParses(k, body);
    SplitOfRendered(hs, MAX_HEADERS);
    assert |Datagram(StartLine(k), hs)| > 0;
  }

  lemma MSearchParsesBack(m: MSearch)
    requires WellFormedMSearch(m)
    ensures ParseDatagram(MSearchText(m)) == Ok(Search(m))
  {
    hide ReadHeaders, AllClean, MSearchHeaders, ParseDatagram, Datagram, WellFormedMSearch;
    MSearchReads(m);
    MSearchHeadersAreClean(m);
    DatagramParses(MSearchKind, MSearchHeaders(m), ReadHeaders(MSearchKind, NOTHING, MSearchHeaders(m)).value);
  }

  lemma NotifyParsesBack(m: Notify)
    requires WellFormedNotify(m)
    ensures ParseDatagram(NotifyText(m)) == Ok(Announcement(m))
  {
    hide ReadHeaders, AllClean, NotifyHeaders, ParseDatagram, Datagram, CleanText, TargetOk, UsnOk, LocationOk,
         OptClean, WholeSeconds;
    NotifyReads(m);
    NotifyHeadersAreClean(m);
    DatagramParses(NotifyKind, NotifyHeaders(m), ReadHeaders(NotifyKind, NOTHING, NotifyHeaders(m)).value);
  }

  lemma ResponseParsesBack(m: Response)
    requires WellFormedResponse(m)
    ensures ParseDatagram(ResponseText(m)) == Ok(SearchResponse(m))
  {
    hide ReadHeaders, AllClean, ResponseHeaders, ParseDatagram, Datagram, WellFormedResponse;
    ResponseReads(m);
    ResponseHeadersAreClean(m);
    DatagramParses(ResponseKind, ResponseHeaders(m), ReadHeaders(ResponseKind, NOTHING, ResponseHeaders(m)).value);
  }
}
