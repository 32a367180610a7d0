/** The message encoders: a bounded cursor over a caller's buffer, written piece by piece. */
module Encode {
  import opened Wrappers
  import opened Text
  import opened Http
  import opened Target
  import opened Fields
  import opened Messages

  datatype EncodeError = BufferTooSmall

  // The outcome of one write.
  datatype Write = Written | Full {
    predicate IsFailure() {
      Full?
    }

    function PropagateFailure<T>(): Result<T, EncodeError>
      requires Full?
    {
      Err(BufferTooSmall)
    }
  }

  /**
   * A cursor over a buffer. Every write is told, for the proof only, the whole text being written
   * (`total`) and what will still be missing after it (`rest`): it either keeps the promise or
   * shows that the whole text cannot fit.
   */
  class BufWriter {
    const buf: array<char>
    var pos: nat

    constructor (buf: array<char>, ghost total: Bytes)
      ensures this.buf == buf && Owes(total, total)
    {
      this.buf := buf;
      pos := 0;
    }

    ghost predicate Valid()
      reads this
    {
      pos <= buf.Length
    }

    ghost function Text(): (t: Bytes)
      requires Valid()
      reads this, buf
      ensures |t| == pos
    {
      buf[..pos]
    }

    // What has been written, followed by `rest`, is `total`.
    ghost predicate Owes(total: Bytes, rest: Bytes)
      reads this, buf
    {
      Valid() && Text() + rest == total
    }

    lemma Done(total: Bytes)
      requires Owes(total, [])
      ensures pos == |total| <= buf.Length && buf[..pos] == total
    {
    }

    method WriteStr(s: Bytes, ghost total: Bytes, ghost rest: Bytes) returns (r: Write)
      requires Owes(total, s + rest)
      modifies this`pos, buf
      ensures r.Written? ==> Owes(total, rest)
      ensures r.Full? ==> |total| > buf.Length && unchanged(this, buf)
    {
      var end := pos + |s|;
      if end > buf.Length {
        return Full;
      }
      forall i | 0 <= i < |s| {
        buf[pos + i] := s[i];
      }
      pos := end;
      assert buf[..pos] == old(buf[..pos]) + s;
      return Written;
    }

    method WriteU32(n: u32, ghost total: Bytes, ghost rest: Bytes) returns (r: Write)
      requires Owes(total, Dec(n) + rest)
      modifies this`pos, buf
      ensures r.Written? ==> Owes(total, rest)
      ensures r.Full? ==> |total| > buf.Length
    {
      var text := U32ToStr(n);
      r := WriteStr(text, total, rest);
    }

    // `name: value CRLF`
    method WriteHeader(f: Field, value: Bytes, ghost total: Bytes, ghost rest: Bytes) returns (r: Write)
      requires Owes(total, RenderHeader(Line(f, value)) + rest)
      modifies this`pos, buf
      ensures r.Written? ==> Owes(total, rest)
      ensures r.Full? ==> |total| > buf.Length
    {
      hide WireName, Text;
      ghost var t2 := value + (CRLF + rest);
      assert RenderHeader(Line(f, value)) + rest == WireName(f) + (": " + t2);
      r := WriteStr(WireName(f), total, ": " + t2);
      if r.Full? { return; }
      r := WriteStr(": ", total, t2);
      if r.Full? { return; }
      r := WriteStr(value, total, CRLF + rest);
      if r.Full? { return; }
      r := WriteStr(CRLF, total, rest);
    }

    method WriteUrn(domain: Bytes, family: Bytes, kind: Bytes, version: u32, ghost total: Bytes, ghost rest: Bytes)
      returns (r: Write)
      requires Owes(total, UrnText(domain, family, kind, version) + rest)
      modifies this`pos, buf
      ensures r.Written? ==> Owes(total, rest)
      ensures r.Full? ==> |total| > buf.Length
    {
      hide Dec, Text;
      ghost var t5 := Dec(version) + rest;
      ghost var t4 := ":" + t5;
      ghost var t3 := kind + t4;
      ghost var t2 := family + t3;
      assert UrnText(domain, family, kind, version) + rest == "urn:" + (domain + t2);
      r := WriteStr("urn:", total, domain + t2);
      if r.Full? { return; }
      r := WriteStr(domain, total, t2);
      if r.Full? { return; }
      r := WriteStr(family, total, t3);
      if r.Full? { return; }
      r := WriteStr(kind, total, t4);
      if r.Full? { return; }
      r := WriteStr(":", total, t5);
      if r.Full? { return; }
      r := WriteU32(version, total, rest);
    }

    method WriteTarget(t: Target, ghost total: Bytes, ghost rest: Bytes) returns (r: Write)
      requires Owes(total, TargetText(t) + rest)
      modifies this`pos, buf
      ensures r.Written? ==> Owes(total, rest)
      ensures r.Full? ==> |total| > buf.Length
    {
      hide UrnText, Text;
      match t
      case All => r := WriteStr("ssdp:all", total, rest);
      case RootDevice => r := WriteStr("upnp:rootdevice", total, rest);
      case Uuid(u) =>
        assert TargetText(t) + rest == "uuid:" + (u + rest);
        r := WriteStr("uuid:", total, u + rest);
        if r.Full? { return; }
        r := WriteStr(u, total, rest);
      case DeviceType(domain, kind, version) => r := WriteUrn(domain, ":device:", kind, version, total, rest);
      case ServiceType(domain, kind, version) => r := WriteUrn(domain, ":service:", kind, version, total, rest);
    }

    method WriteTargetHeader(name: Bytes, t: Target, ghost total: Bytes, ghost rest: Bytes) returns (r: Write)
      requires Owes(total, RenderHeader(Header(name, TargetText(t))) + rest)
      modifies this`pos, buf
      ensures r.Written? ==> Owes(total, rest)
      ensures r.Full? ==> |total| > buf.Length
    {
      hide TargetText, Text;
      ghost var t2 := TargetText(t) + (CRLF + rest);
      assert RenderHeader(Header(name, TargetText(t))) + rest == name + (": " + t2);
      r := WriteStr(name, total, ": " + t2);
      if r.Full? { return; }
      r := WriteStr(": ", total, t2);
      if r.Full? { return; }
      r := WriteTarget(t, total, CRLF + rest);
      if r.Full? { return; }
      r := WriteStr(CRLF, total, rest);
    }

    method WriteUsnHeader(u: Usn, ghost total: Bytes, ghost rest: Bytes) returns (r: Write)
      requires Owes(total, RenderHeader(Line(UsnField, UsnText(u))) + rest)
      modifies this`pos, buf
      ensures r.Written? ==> Owes(total, rest)
      ensures r.Full? ==> |total| > buf.Length
    {
      hide TargetText, Text;
      ghost var t3 := CRLF + rest;
      ghost var t2 := if u.embedded.Some? then "::" + (TargetText(u.embedded.value) + t3) else t3;
      UsnHeaderPieces(u, rest, t2);
      r := WriteStr("USN: uuid:", total, u.deviceUuid + t2);
      if r.Full? { return; }
      r := WriteStr(u.deviceUuid, total, t2);
      if r.Full? { return; }
      if u.embedded.Some? {
        r := WriteStr("::", total, TargetText(u.embedded.value) + t3);
        if r.Full? { return; }
        r := WriteTarget(u.embedded.value, total, t3);
        if r.Full? { return; }
      }
      r := WriteStr(CRLF, total, rest);
    }

    // A numeric field: its name and the text before the number, then the number.
    method WriteNumber(f: Field, prefix: Bytes, n: u32, ghost total: Bytes, ghost rest: Bytes) returns (r: Write)
      requires Owes(total, RenderHeader(Line(f, prefix + Dec(n))) + rest)
      modifies this`pos, buf
      ensures r.Written? ==> Owes(total, rest)
      ensures r.Full? ==> |total| > buf.Length
    {
      hide WireName, Dec, Text;
      ghost var t2 := Dec(n) + (CRLF + rest);
      assert RenderHeader(Line(f, prefix + Dec(n))) + rest == (WireName(f) + ": " + prefix) + t2;
      r := WriteStr(WireName(f) + ": " + prefix, total, t2);
      if r.Full? { return; }
      r := WriteU32(n, total, CRLF + rest);
      if r.Full? { return; }
      r := WriteStr(CRLF, total, rest);
    }

    method WriteOptional(f: Field, v: Option<Bytes>, ghost total: Bytes, ghost rest: Bytes) returns (r: Write)
      requires Owes(total, RenderHeaders(OptText(f, v)) + rest)
      modifies this`pos, buf
      ensures r.Written? ==> Owes(total, rest)
      ensures r.Full? ==> |total| > buf.Length
    {
      hide RenderHeader, Text;
      OptionalPieces(f, v, rest);
      if v.Some? {
        r := WriteHeader(f, v.value, total, rest);
      } else {
        r := Written;
      }
    }

    method WriteOptNumber(f: Field, prefix: Bytes, v: Option<u32>, ghost total: Bytes,
                          ghost rest: Bytes) returns (r: Write)
      requires Owes(total, RenderHeaders(OptText(f, Numeric(v, prefix))) + rest)
      modifies this`pos, buf
      ensures r.Written? ==> Owes(total, rest)
      ensures r.Full? ==> |total| > buf.Length
    {
      hide RenderHeader, Dec, Text;
      OptionalPieces(f, Numeric(v, prefix), rest);
      if v.Some? {
        r := WriteNumber(f, prefix, v.value, total, rest);
      } else {
        r := Written;
      }
    }
  }

  // The value of an optional numeric field.
  function Numeric(v: Option<u32>, prefix: Bytes): Option<Bytes> {
    if v.None? then None else Some(prefix + Dec(v.value))
  }

  function PortNumber(v: Option<u16>): Option<u32> {
    if v.None? then None else Some(v.value)
  }

  function AgeNumber(v: Option<Nanos>): Option<u32> {
    if v.None? then None else Some(WireSeconds(v.value))
  }

  lemma NumericPieces(f: Field, n: Option<u32>, port: Option<u16>, age: Option<Nanos>)
    ensures OptU32(f, n) == OptText(f, Numeric(n, ""))
    ensures OptPort(f, port) == OptText(f, Numeric(PortNumber(port), ""))
    ensures OptAge(age) == OptText(CacheControl, Numeric(AgeNumber(age), "max-age="))
  {
    hide Dec, OptText, WireSeconds;
    assert forall s: Bytes :: "" + s == s;
  }

  lemma LineIs(f: Field, v: Bytes)
    ensures Line(f, v) == Header(WireName(f), v)
  {
  }

  lemma OptionalPieces(f: Field, v: Option<Bytes>, rest: Bytes)
    ensures RenderHeaders(OptText(f, v)) + rest == if v.None? then rest else RenderHeader(Line(f, v.value)) + rest
  {
    hide RenderHeader;
  }

  lemma UsnHeaderPieces(u: Usn, rest: Bytes, t2: Bytes)
    requires t2 == if u.embedded.Some? then "::" + (TargetText(u.embedded.value) + (CRLF + rest)) else CRLF + rest
    ensures RenderHeader(Line(UsnField, UsnText(u))) + rest == "USN: uuid:" + (u.deviceUuid + t2)
  {
    hide TargetText;
    assert RenderHeader(Line(UsnField, UsnText(u))) == "USN: " + UsnText(u) + CRLF;
  }

  // Decimal digits are produced from the last backwards into ten octets.
  method U32ToStr(n: u32) returns (text: Bytes)
    ensures text == Dec(n)
  {
    if n == 0 {
      return "0";
    }
    var buf := new char[10];
    var i: nat, v: u32 := 10, n;
    DecWidth(n);
    while v > 0
      invariant 0 <= i <= 10
      invariant v > 0 ==> |Dec(v)| <= i && Dec(n) == Dec(v) + buf[i..]
      invariant v == 0 ==> Dec(n) == buf[i..]
      decreases v
    {
      i := i - 1;
      buf[i] := Digit(v % 10);
      v := v / 10;
    }
    return buf[i..];
  }

  // ---------- the texts as their pieces, in the order they are written ----------

  lemma RenderTail(a: seq<Header>, b: seq<Header>)
    ensures RenderHeaders(a + b) + CRLF == RenderHeaders(a) + (RenderHeaders(b) + CRLF)
  {
    hide RenderHeaders;
    RenderHeadersJoin(a, b);
  }

  lemma RenderOne(h: Header, rest: seq<Header>)
    ensures RenderHeaders([h] + rest) + CRLF == RenderHeader(h) + (RenderHeaders(rest) + CRLF)
  {
    hide RenderHeader;
    assert ([h] + rest)[1..] == rest;
  }

  lemma FourPieces(a: Header, b: Header, c: Header, d: Header, rest: seq<Header>)
    ensures RenderHeaders([a, b, c, d] + rest) + CRLF
         == RenderHeader(a) + (RenderHeader(b) + (RenderHeader(c) + (RenderHeader(d) + (RenderHeaders(rest) + CRLF))))
  {
    hide RenderHeader, RenderHeaders;
    RenderOne(a, [b, c, d] + rest);
    RenderOne(b, [c, d] + rest);
    RenderOne(c, [d] + rest);
    RenderOne(d, rest);
    assert [a, b, c, d] + rest == [a] + ([b, c, d] + rest);
    assert [b, c, d] + rest == [b] + ([c, d] + rest);
    assert [c, d] + rest == [c] + ([d] + rest);
  }

  // A start line written together with its line ending.
  lemma StartPieces()
    ensures MSEARCH_LINE + CRLF == "M-SEARCH * HTTP/1.1\r\n"
    ensures NOTIFY_LINE + CRLF == "NOTIFY * HTTP/1.1\r\n"
    ensures RESPONSE_LINE + CRLF == "HTTP/1.1 200 OK\r\n"
  {
  }

  lemma NotifyPieces(m: Notify, t1: Bytes)
    requires t1 == RenderHeader(Line(Host, m.host)) + (RenderHeader(Line(Nt, TargetText(m.nt)))
      + (RenderHeader(Line(Nts, SubTypeText(m.nts))) + (RenderHeader(Line(UsnField, UsnText(m.usn)))
      + (RenderHeaders(OptText(Location, m.location)) + (RenderHeaders(OptAge(m.maxAge))
      + (RenderHeaders(OptText(Server, m.server)) + (RenderHeaders(OptU32(BootId, m.bootid))
      + (RenderHeaders(OptU32(ConfigId, m.configid)) + (RenderHeaders(OptU32(NextBootId, m.nextbootid))
      + (RenderHeaders(OptPort(SearchPort, m.searchport)) + CRLF))))))))))
    ensures NotifyText(m) == "NOTIFY * HTTP/1.1\r\n" + t1
  {
    hide RenderHeader, RenderHeaders, OptText, OptU32, OptPort, OptAge, Line;
    var h7 := OptPort(SearchPort, m.searchport);
    var h6 := OptU32(NextBootId, m.nextbootid) + h7;
    var h5 := OptU32(ConfigId, m.configid) + h6;
    var h4 := OptU32(BootId, m.bootid) + h5;
    var h3 := OptText(Server, m.server) + h4;
    var h2 := OptAge(m.maxAge) + h3;
    RenderTail(OptU32(NextBootId, m.nextbootid), h7);
    RenderTail(OptU32(ConfigId, m.configid), h6);
    RenderTail(OptU32(BootId, m.bootid), h5);
    RenderTail(OptText(Server, m.server), h4);
    RenderTail(OptAge(m.maxAge), h3);
    RenderTail(OptText(Location, m.location), h2);
    FourPieces(Line(Host, m.host), Line(Nt, TargetText(m.nt)), Line(Nts, SubTypeText(m.nts)),
      Line(UsnField, UsnText(m.usn)),
               OptText(Location, m.location) + h2);
    StartPieces();
  }

  /** Succeeds exactly when the text fits, and then the buffer starts with the text. */
  method EncodeNotify(m: Notify, out: array<char>) returns (r: Result<nat, EncodeError>)
    modifies out
    ensures r.Ok? <==> |NotifyText(m)| <= out.Length
    ensures r.Ok? ==> r.value == |NotifyText(m)| && out[..r.value] == NotifyText(m)
  {
    hide BufWriter.Owes, RenderHeader, RenderHeaders, OptText, OptU32, OptPort, OptAge, Line, NotifyText;
    ghost var total := NotifyText(m);
    // What remains to be written after each piece.
    ghost var t11 := RenderHeaders(OptPort(SearchPort, m.searchport)) + CRLF;
    ghost var t10 := RenderHeaders(OptU32(NextBootId, m.nextbootid)) + t11;
    ghost var t9 := RenderHeaders(OptU32(ConfigId, m.configid)) + t10;
    ghost var t8 := RenderHeaders(OptU32(BootId, m.bootid)) + t9;
    ghost var t7 := RenderHeaders(OptText(Server, m.server)) + t8;
    ghost var t6 := RenderHeaders(OptAge(m.maxAge)) + t7;
    ghost var t5 := RenderHeaders(OptText(Location, m.location)) + t6;
    ghost var t4 := RenderHeader(Line(UsnField, UsnText(m.usn))) + t5;
    ghost var t3 := RenderHeader(Line(Nts, SubTypeText(m.nts))) + t4;
    ghost var t2 := RenderHeader(Line(Nt, TargetText(m.nt))) + t3;
    ghost var t1 := RenderHeader(Line(Host, m.host)) + t2;
    NotifyPieces(m, t1);
    NumericPieces(BootId, m.bootid, m.searchport, m.maxAge);
    NumericPieces(ConfigId, m.configid, m.searchport, m.maxAge);
    NumericPieces(NextBootId, m.nextbootid, m.searchport, m.maxAge);
    NumericPieces(SearchPort, m.bootid, m.searchport, m.maxAge);
    var w := new BufWriter(out, total);
    :- w.WriteStr("NOTIFY * HTTP/1.1\r\n", total, t1);
    :- w.WriteHeader(Host, m.host, total, t2);
    assert Line(Nt, TargetText(m.nt)) == Header("NT", TargetText(m.nt)) by { LineIs(Nt, TargetText(m.nt)); }
    :- w.WriteTargetHeader("NT", m.nt, total, t3);
    :- w.WriteHeader(Nts, SubTypeText(m.nts), total, t4);
    :- w.WriteUsnHeader(m.usn, total, t5);
    :- w.WriteOptional(Location, m.location, total, t6);
    :- w.WriteOptNumber(CacheControl, "max-age=", AgeNumber(m.maxAge), total, t7);
    :- w.WriteOptional(Server, m.server, total, t8);
    :- w.WriteOptNumber(BootId, "", m.bootid, total, t9);
    :- w.WriteOptNumber(ConfigId, "", m.configid, total, t10);
    :- w.WriteOptNumber(NextBootId, "", m.nextbootid, total, t11);
    :- w.WriteOptNumber(SearchPort, "", PortNumber(m.searchport), total, CRLF);
    assert CRLF + [] == CRLF;
    :- w.WriteStr(CRLF, total, []);
    w.Done(total);
    return Ok(w.pos);
  }

  lemma ResponsePieces(m: Response, t1: Bytes)
    requires t1 == RenderHeader(Line(CacheControl, MaxAgeText(m.maxAge))) + (RenderHeader(Line(Location, m.location))
      + (RenderHeader(Line(St, TargetText(m.st))) + (RenderHeader(Line(UsnField, UsnText(m.usn)))
      + (RenderHeaders(OptText(Server, m.server)) + (RenderHeaders(OptU32(BootId, m.bootid))
      + (RenderHeaders(OptU32(ConfigId, m.configid))
      + (RenderHeaders(OptPort(SearchPort, m.searchport)) + CRLF)))))))
    ensures ResponseText(m) == "HTTP/1.1 200 OK\r\n" + t1
  {
    hide RenderHeader, RenderHeaders, OptText, OptU32, OptPort, Line;
    var h3 := OptPort(SearchPort, m.searchport);
    var h2 := OptU32(ConfigId, m.configid) + h3;
    var h1 := OptU32(BootId, m.bootid) + h2;
    RenderTail(OptU32(ConfigId, m.configid), h3);
    RenderTail(OptU32(BootId, m.bootid), h2);
    RenderTail(OptText(Server, m.server), h1);
    FourPieces(Line(CacheControl, MaxAgeText(m.maxAge)), Line(Location, m.location), Line(St, TargetText(m.st)),
               Line(UsnField, UsnText(m.usn)), OptText(Server, m.server) + h1);
    StartPieces();
  }

  /** As `EncodeNotify`, for a search response. */
  method EncodeResponse(m: Response, out: array<char>) returns (r: Result<nat, EncodeError>)
    modifies out
    ensures r.Ok? <==> |ResponseText(m)| <= out.Length
    ensures r.Ok? ==> r.value == |ResponseText(m)| && out[..r.value] == ResponseText(m)
  {
    hide BufWriter.Owes, RenderHeader, RenderHeaders, OptText, OptU32, OptPort, Line, ResponseText, Dec;
    ghost var total := ResponseText(m);
    ghost var t8 := RenderHeaders(OptPort(SearchPort, m.searchport)) + CRLF;
    ghost var t7 := RenderHeaders(OptU32(ConfigId, m.configid)) + t8;
    ghost var t6 := RenderHeaders(OptU32(BootId, m.bootid)) + t7;
    ghost var t5 := RenderHeaders(OptText(Server, m.server)) + t6;
    ghost var t4 := RenderHeader(Line(UsnField, UsnText(m.usn))) + t5;
    ghost var t3 := RenderHeader(Line(St, TargetText(m.st))) + t4;
    ghost var t2 := RenderHeader(Line(Location, m.location)) + t3;
    ghost var t1 := RenderHeader(Line(CacheControl, MaxAgeText(m.maxAge))) + t2;
    ResponsePieces(m, t1);
    NumericPieces(BootId, m.bootid, m.searchport, None);
    NumericPieces(ConfigId, m.configid, m.searchport, None);
    NumericPieces(SearchPort, m.bootid, m.searchport, None);
    var w := new BufWriter(out, total);
    :- w.WriteStr("HTTP/1.1 200 OK\r\n", total, t1);
    :- w.WriteNumber(CacheControl, "max-age=", WireSeconds(m.maxAge), total, t2);
    :- w.WriteHeader(Location, m.location, total, t3);
    assert Line(St, TargetText(m.st)) == Header("ST", TargetText(m.st)) by { LineIs(St, TargetText(m.st)); }
    :- w.WriteTargetHeader("ST", m.st, total, t4);
    :- w.WriteUsnHeader(m.usn, total, t5);
    :- w.WriteOptional(Server, m.server, total, t6);
    :- w.WriteOptNumber(BootId, "", m.bootid, total, t7);
    :- w.WriteOptNumber(ConfigId, "", m.configid, total, t8);
    :- w.WriteOptNumber(SearchPort, "", PortNumber(m.searchport), total, CRLF);
    assert CRLF + [] == CRLF;
    :- w.WriteStr(CRLF, total, []);
    w.Done(total);
    return Ok(w.pos);
  }

  lemma MSearchPieces(m: MSearch, t1: Bytes)
    requires t1 == RenderHeader(Line(Host, m.host)) + (RenderHeader(Line(Man, MAN_DISCOVER))
      + (RenderHeader(Line(Mx, Dec(m.mx))) + (RenderHeader(Line(St, TargetText(m.st)))
      + (RenderHeaders(OptText(UserAgent, m.userAgent)) + (RenderHeaders(OptText(Cpfn, m.cpfn))
      + (RenderHeaders(OptText(CpUuid, m.cpuuid))
      + (RenderHeaders(OptPort(TcpPort, m.tcpport)) + CRLF)))))))
    ensures MSearchText(m) == "M-SEARCH * HTTP/1.1\r\n" + t1
  {
    hide RenderHeader, RenderHeaders, OptText, OptPort, Line, Dec;
    var h3 := OptPort(TcpPort, m.tcpport);
    var h2 := OptText(CpUuid, m.cpuuid) + h3;
    var h1 := OptText(Cpfn, m.cpfn) + h2;
    RenderTail(OptText(CpUuid, m.cpuuid), h3);
    RenderTail(OptText(Cpfn, m.cpfn), h2);
    RenderTail(OptText(UserAgent, m.userAgent), h1);
    FourPieces(Line(Host, m.host), Line(Man, MAN_DISCOVER), Line(Mx, Dec(m.mx)), Line(St, TargetText(m.st)),
               OptText(UserAgent, m.userAgent) + h1);
    StartPieces();
  }

  /** As `EncodeNotify`, for a search request. */
  method EncodeMSearch(m: MSearch, out: array<char>) returns (r: Result<nat, EncodeError>)
    requires m.mx < 256
    modifies out
    ensures r.Ok? <==> |MSearchText(m)| <= out.Length
    ensures r.Ok? ==> r.value == |MSearchText(m)| && out[..r.value] == MSearchText(m)
  {
    hide BufWriter.Owes, RenderHeader, RenderHeaders, OptText, OptPort, Line, MSearchText, Dec;
    ghost var total := MSearchText(m);
    ghost var t8 := RenderHeaders(OptPort(TcpPort, m.tcpport)) + CRLF;
    ghost var t7 := RenderHeaders(OptText(CpUuid, m.cpuuid)) + t8;
    ghost var t6 := RenderHeaders(OptText(Cpfn, m.cpfn)) + t7;
    ghost var t5 := RenderHeaders(OptText(UserAgent, m.userAgent)) + t6;
    ghost var t4 := RenderHeader(Line(St, TargetText(m.st))) + t5;
    ghost var t3 := RenderHeader(Line(Mx, Dec(m.mx))) + t4;
    ghost var t2 := RenderHeader(Line(Man, MAN_DISCOVER)) + t3;
    ghost var t1 := RenderHeader(Line(Host, m.host)) + t2;
    MSearchPieces(m, t1);
    NumericPieces(TcpPort, None, m.tcpport, None);
    var w := new BufWriter(out, total);
    assert "" + Dec(m.mx) == Dec(m.mx);
    :- w.WriteStr("M-SEARCH * HTTP/1.1\r\n", total, t1);
    :- w.WriteHeader(Host, m.host, total, t2);
    :- w.WriteHeader(Man, MAN_DISCOVER, total, t3);
    :- w.WriteNumber(Mx, "", m.mx, total, t4);
    assert Line(St, TargetText(m.st)) == Header("ST", TargetText(m.st)) by { LineIs(St, TargetText(m.st)); }
    :- w.WriteTargetHeader("ST", m.st, total, t5);
    :- w.WriteOptional(UserAgent, m.userAgent, total, t6);
    :- w.WriteOptional(Cpfn, m.cpfn, total, t7);
    :- w.WriteOptional(CpUuid, m.cpuuid, total, t8);
    :- w.WriteOptNumber(TcpPort, "", PortNumber(m.tcpport), total, CRLF);
    assert CRLF + [] == CRLF;
    :- w.WriteStr(CRLF, total, []);
    w.Done(total);
    return Ok(w.pos);
  }
}
