/** The three messages octet for octet as they stand on the wire (UPnP Device Architecture 1.1, sections 1.2, 1.3). */
module WireText {
  import opened Wrappers
  import opened Text
  import opened Http
  import opened Target
  import opened Fields
  import opened Messages

  function Given(name: Bytes, value: Bytes): Bytes {
    name + ": " + value + "\r\n"
  }

  function IfGiven(name: Bytes, value: Option<Bytes>): Bytes {
    match value case None => "" case Some(v) => Given(name, v)
  }

  function Printed(n: Option<u32>): Option<Bytes> {
    match n case None => None case Some(k) => Some(Dec(k))
  }

  function Port(n: Option<u16>): Option<Bytes> {
    match n case None => None case Some(k) => Some(Dec(k))
  }

  function Age(age: Nanos): Bytes {
    "max-age=" + Dec(age / 1_000_000_000 % 4_294_967_296)
  }

  function SubTypeWord(n: SubType): Bytes {
    match n case Alive => "ssdp:alive" case ByeBye => "ssdp:byebye" case Update => "ssdp:update"
  }

  lemma Rendered(name: Bytes, value: Bytes, rest: seq<Header>)
    ensures RenderHeaders([Header(name, value)] + rest) == Given(name, value) + RenderHeaders(rest)
  {
    assert ([Header(name, value)] + rest)[1..] == rest;
  }

  lemma RenderedIf(f: Field, value: Option<Bytes>, rest: seq<Header>)
    ensures RenderHeaders(OptText(f, value) + rest) == IfGiven(WireName(f), value) + RenderHeaders(rest)
  {
    hide WireName, Given;
    if value.Some? {
      Rendered(WireName(f), value.value, rest);
    } else {
      assert [] + rest == rest;
      assert "" + RenderHeaders(rest) == RenderHeaders(rest);
    }
  }

  lemma RenderedNone()
    ensures RenderHeaders([]) == ""
  {
  }

  lemma RenderedFour(a: Header, b: Header, c: Header, d: Header, rest: seq<Header>)
    ensures RenderHeaders([a, b, c, d] + rest) ==
      Given(a.name, a.value) + (Given(b.name, b.value) + (Given(c.name, c.value) + (Given(d.name, d.value)
        + RenderHeaders(rest))))
  {
    hide RenderHeaders, Given;
    assert [a, b, c, d] + rest == [a] + ([b] + ([c] + ([d] + rest)));
    Rendered(a.name, a.value, [b] + ([c] + ([d] + rest)));
    Rendered(b.name, b.value, [c] + ([d] + rest));
    Rendered(c.name, c.value, [d] + rest);
    Rendered(d.name, d.value, rest);
  }

  lemma SpelledOnWire()
    ensures WireName(Host) == "HOST" && WireName(Nt) == "NT" && WireName(Nts) == "NTS" && WireName(UsnField) == "USN"
    ensures WireName(St) == "ST" && WireName(Man) == "MAN" && WireName(Mx) == "MX"
    ensures WireName(Location) == "LOCATION"
    ensures WireName(CacheControl) == "CACHE-CONTROL" && WireName(Server) == "SERVER"
    ensures WireName(BootId) == "BOOTID.UPNP.ORG" && WireName(ConfigId) == "CONFIGID.UPNP.ORG"
    ensures WireName(NextBootId) == "NEXTBOOTID.UPNP.ORG" && WireName(SearchPort) == "SEARCHPORT.UPNP.ORG"
    ensures WireName(UserAgent) == "USER-AGENT" && WireName(Cpfn) == "CPFN.UPNP.ORG"
    ensures WireName(CpUuid) == "CPUUID.UPNP.ORG" && WireName(TcpPort) == "TCPPORT.UPNP.ORG"
  {
  }

  // The three optional fields that notifications and responses have in common.
  lemma RenderedTail(server: Option<Bytes>, bootid: Option<u32>, configid: Option<u32>, rest: seq<Header>)
    ensures RenderHeaders(OptText(Server, server) + (OptU32(BootId, bootid) + (OptU32(ConfigId, configid) + rest))) ==
      IfGiven("SERVER", server) + (IfGiven("BOOTID.UPNP.ORG", Printed(bootid))
        + (IfGiven("CONFIGID.UPNP.ORG", Printed(configid)) + RenderHeaders(rest)))
  {
    hide RenderHeaders, OptText, WireName, IfGiven, Dec;
    SpelledOnWire();
    RenderedIf(Server, server, OptU32(BootId, bootid) + (OptU32(ConfigId, configid) + rest));
    RenderedIf(BootId, Printed(bootid), OptU32(ConfigId, configid) + rest);
    RenderedIf(ConfigId, Printed(configid), rest);
  }

  lemma RenderedPort(f: Field, port: Option<u16>)
    ensures RenderHeaders(OptPort(f, port)) == IfGiven(WireName(f), Port(port))
  {
    hide RenderHeaders, OptText, WireName, IfGiven, Dec;
    RenderedIf(f, Port(port), []);
    RenderedNone();
    assert OptText(f, Port(port)) + [] == OptText(f, Port(port));
    assert IfGiven(WireName(f), Port(port)) + "" == IfGiven(WireName(f), Port(port));
  }

  lemma Whole(line: Bytes, hs: seq<Header>)
    ensures Datagram(line, hs) == line + "\r\n" + (RenderHeaders(hs) + "\r\n")
  {
  }

  lemma NotifyOnWire(m: Notify)
    ensures NotifyText(m) ==
      "NOTIFY * HTTP/1.1" + "\r\n" + (
        Given("HOST", m.host) + (Given("NT", TargetText(m.nt)) + (
        Given("NTS", SubTypeWord(m.nts)) + (
        Given("USN", UsnText(m.usn)) + (
        IfGiven("LOCATION", m.location) + (
        IfGiven("CACHE-CONTROL", match m.maxAge case None => None case Some(a) => Some(Age(a))) + (
        IfGiven("SERVER", m.server) + (
        IfGiven("BOOTID.UPNP.ORG", Printed(m.bootid)) + (
        IfGiven("CONFIGID.UPNP.ORG", Printed(m.configid)) + (
        IfGiven("NEXTBOOTID.UPNP.ORG", Printed(m.nextbootid)) +
        IfGiven("SEARCHPORT.UPNP.ORG", Port(m.searchport)))))))))))
      + "\r\n")
  {
    hide RenderHeaders, OptText, WireName, Given, IfGiven, TargetText, UsnText, Dec, Datagram;
    SpelledOnWire();
    var tail := OptU32(NextBootId, m.nextbootid) + OptPort(SearchPort, m.searchport);
    var age := match m.maxAge case None => None case Some(a) => Some(MaxAgeText(a));
    var more := OptText(Server, m.server) + (OptU32(BootId, m.bootid) + (OptU32(ConfigId, m.configid) + tail));
    RenderedPort(SearchPort, m.searchport);
    RenderedIf(NextBootId, Printed(m.nextbootid), OptPort(SearchPort, m.searchport));
    RenderedTail(m.server, m.bootid, m.configid, tail);
    RenderedIf(CacheControl, age, more);
    RenderedIf(Location, m.location, OptAge(m.maxAge) + more);
    RenderedFour(Line(Host, m.host), Line(Nt, TargetText(m.nt)), Line(Nts, SubTypeText(m.nts)),
                 Line(UsnField, UsnText(m.usn)), OptText(Location, m.location) + (OptAge(m.maxAge) + more));
    Whole(NOTIFY_LINE, NotifyHeaders(m));
  }

  lemma ResponseOnWire(m: Response)
    ensures ResponseText(m) ==
      "HTTP/1.1 200 OK" + "\r\n" + (
        Given("CACHE-CONTROL", Age(m.maxAge)) + (Given("LOCATION", m.location) + (
        Given("ST", TargetText(m.st)) + (Given("USN", UsnText(m.usn)) + (
        IfGiven("SERVER", m.server) + (
        IfGiven("BOOTID.UPNP.ORG", Printed(m.bootid)) + (
        IfGiven("CONFIGID.UPNP.ORG", Printed(m.configid)) +
        IfGiven("SEARCHPORT.UPNP.ORG", Port(m.searchport))))))))
      + "\r\n")
  {
    hide RenderHeaders, OptText, WireName, Given, IfGiven, TargetText, UsnText, Dec, Datagram;
    SpelledOnWire();
    var tail := OptPort(SearchPort, m.searchport);
    RenderedPort(SearchPort, m.searchport);
    RenderedTail(m.server, m.bootid, m.configid, tail);
    RenderedFour(Line(CacheControl, MaxAgeText(m.maxAge)), Line(Location, m.location), Line(St, TargetText(m.st)),
                 Line(UsnField, UsnText(m.usn)),
                 OptText(Server, m.server) + (OptU32(BootId, m.bootid) + (OptU32(ConfigId, m.configid) + tail)));
    Whole(RESPONSE_LINE, ResponseHeaders(m));
  }

  lemma SearchOnWire(m: MSearch)
    ensures MSearchText(m) ==
      "M-SEARCH * HTTP/1.1" + "\r\n" + (
        Given("HOST", m.host) + (Given("MAN", "\"ssdp:discover\"") + (
        Given("MX", Dec(m.mx)) + (Given("ST", TargetText(m.st)) + (
        IfGiven("USER-AGENT", m.userAgent) + (
        IfGiven("CPFN.UPNP.ORG", m.cpfn) + (
        IfGiven("CPUUID.UPNP.ORG", m.cpuuid) +
        IfGiven("TCPPORT.UPNP.ORG", Port(m.tcpport))))))))
      + "\r\n")
  {
    hide RenderHeaders, OptText, WireName, Given, IfGiven, TargetText, Dec, Datagram;
    SpelledOnWire();
    var port := OptPort(TcpPort, m.tcpport);
    RenderedPort(TcpPort, m.tcpport);
    RenderedIf(CpUuid, m.cpuuid, port);
    RenderedIf(Cpfn, m.cpfn, OptText(CpUuid, m.cpuuid) + port);
    RenderedIf(UserAgent, m.userAgent, OptText(Cpfn, m.cpfn) + (OptText(CpUuid, m.cpuuid) + port));
    RenderedFour(Line(Host, m.host), Line(Man, MAN_DISCOVER), Line(Mx, Dec(m.mx)), Line(St, TargetText(m.st)),
                 OptText(UserAgent, m.userAgent) + (OptText(Cpfn, m.cpfn) + (OptText(CpUuid, m.cpuuid) + port)));
    Whole(MSEARCH_LINE, MSearchHeaders(m));
  }
}
