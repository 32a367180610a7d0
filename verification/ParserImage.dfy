/** Whatever datagram arrives, the message the parser makes of it is well formed. */
module ParserImage {
  import opened Wrappers
  import opened Text
  import opened Http
  import opened Target
  import opened Fields
  import opened Messages
  import MessageRoundTrip

  // ---------- cutting clean text leaves clean pieces ----------

  predicate FieldChars(v: Bytes) {
    forall i | 0 <= i < |v| :: IsFieldChar(v[i])
  }

  // Text, as opposed to a whole value: blanks are allowed at the ends.
  predicate TextPiece(v: Bytes) {
    FieldChars(v) && ValidUtf8(v)
  }

  lemma {:induction false} TrimStartKeepsText(v: Bytes)
    requires TextPiece(v)
    ensures TextPiece(TrimStart(v))
    decreases |v|
  {
    var w := SpaceWidth(v);
    if w > 0 {
      assert Utf8Width(v) == w;
      assert forall i | 0 <= i < |v| - w :: v[w..][i] == v[w + i];
      TrimStartKeepsText(v[w..]);
    }
  }

  lemma {:induction false} TrimEndKeepsText(v: Bytes)
    requires TextPiece(v)
    ensures TextPiece(TrimEnd(v))
    decreases |v|
  {
    var w := SpaceWidthAtEnd(v);
    if w > 0 {
      var cut := v[..|v| - w];
      assert cut + v[|v| - w..] == v;
      Utf8Split(cut, v[|v| - w..]);
      TrimEndKeepsText(cut);
    }
  }

  lemma TrimKeepsText(v: Bytes)
    requires TextPiece(v)
    ensures TextPiece(Trim(v))
  {
    hide TrimStart, TrimEnd;
    TrimStartKeepsText(v);
    TrimEndKeepsText(TrimStart(v));
  }

  lemma JoinPieces(a: Bytes, b: Bytes)
    requires TextPiece(a) && TextPiece(b)
    ensures TextPiece(a + b)
  {
    hide ValidUtf8;
    Utf8Join(a, b);
  }

  // Cutting just before and just after an ASCII separator.
  lemma CutAt(v: Bytes, i: nat, sep: Bytes)
    requires TextPiece(v) && OccursAt(v, sep, i) && |sep| > 0
    requires forall j | 0 <= j < |sep| :: sep[j] as int < 0x80
    ensures TextPiece(v[..i]) && TextPiece(v[i + |sep|..])
  {
    hide ValidUtf8;
    var a, b := v[..i], v[i + |sep|..];
    assert v == a + (sep + b);
    Utf8Split(a, sep + b);
    DropAscii(sep, b);
  }

  lemma {:induction false} DropAscii(a: Bytes, b: Bytes)
    requires forall j | 0 <= j < |a| :: a[j] as int < 0x80
    requires ValidUtf8(a + b)
    ensures ValidUtf8(b)
  {
    if a == [] {
      assert a + b == b;
    } else {
      assert (a + b)[1..] == a[1..] + b;
      DropAscii(a[1..], b);
    }
  }

  // ---------- targets and USNs ----------

  lemma PiecesOfDec(n: nat)
    ensures TextPiece(Dec(n))
  {
    hide Dec;
    assert forall i | 0 <= i < |Dec(n)| :: IsDigit(Dec(n)[i]);
    AsciiIsUtf8(Dec(n));
  }

  lemma AsciiPiece(s: Bytes)
    requires forall i | 0 <= i < |s| :: ' ' <= s[i] <= '~'
    ensures TextPiece(s)
  {
    hide ValidUtf8;
    AsciiIsUtf8(s);
  }

  lemma LiteralPieces()
    ensures TextPiece("urn:") && TextPiece(":device:") && TextPiece(":service:") && TextPiece(":") && TextPiece("::")
    ensures TextPiece("uuid:") && TextPiece("ssdp:all") && TextPiece("upnp:rootdevice")
  {
    hide TextPiece;
    AsciiPiece("urn:");
    AsciiPiece(":device:");
    AsciiPiece(":service:");
    AsciiPiece(":");
    AsciiPiece("::");
    AsciiPiece("uuid:");
    AsciiPiece("ssdp:all");
    AsciiPiece("upnp:rootdevice");
  }

  lemma UrnPieces(domain: Bytes, family: Bytes, kind: Bytes, version: u32)
    requires TextPiece(domain) && TextPiece(family) && TextPiece(kind)
    ensures TextPiece(UrnText(domain, family, kind, version))
  {
    hide TextPiece, Dec;
    LiteralPieces();
    PiecesOfDec(version);
    JoinPieces("urn:", domain);
    JoinPieces("urn:" + domain, family);
    JoinPieces("urn:" + domain + family, kind);
    JoinPieces("urn:" + domain + family + kind, ":");
    JoinPieces("urn:" + domain + family + kind + ":", Dec(version));
  }

  lemma ParsedUrnIsText(rest: Bytes)
    requires TextPiece(rest)
    ensures ParseUrn(rest).Ok? ==> TextPiece(TargetText(ParseUrn(rest).value))
  {
    hide Find, ParseUint, TextPiece, UrnText;
    if ParseUrn(rest).Ok? {
      var i := Find(rest, ':');
      CutAt(rest, i, ":");
      var afterDomain := rest[i + 1..];
      var j := Find(afterDomain, ':');
      CutAt(afterDomain, j, ":");
      var afterFamily := afterDomain[j + 1..];
      var k := Find(afterFamily, ':');
      CutAt(afterFamily, k, ":");
      LiteralPieces();
      var version := ParseUrn(rest).value.version;
      UrnPieces(rest[..i], ":device:", afterFamily[..k], version);
      UrnPieces(rest[..i], ":service:", afterFamily[..k], version);
    }
  }

  lemma ParsedTargetIsText(v: Bytes)
    requires TextPiece(v)
    ensures ParseTarget(v).Ok? ==> TextPiece(TargetText(ParseTarget(v).value))
  {
    hide Trim, EqIgnoreCase, ParseUrn, UrnText, TextPiece;
    LiteralPieces();
    TrimKeepsText(v);
    var t := Trim(v);
    if EqIgnoreCase(t, "ssdp:all") {
    } else if EqIgnoreCase(t, "upnp:rootdevice") {
    } else if "uuid:" <= t {
      assert "uuid:" + t[5..] == t;
    } else if "urn:" <= t {
      CutAt(t, 0, "urn:");
      ParsedUrnIsText(t[4..]);
    }
  }

  lemma ParsedTargetIsOk(v: Bytes)
    requires CleanText(v)
    ensures ParseTarget(v).Ok? ==> TargetOk(ParseTarget(v).value)
  {
    hide ParseTarget, WellFormedTarget, TargetText, ValidUtf8;
    ParsedTargetIsText(v);
    ParsedTargetIsWellFormed(v);
    if ParseTarget(v).Ok? {
      TargetTextIsTrimmed(ParseTarget(v).value);
    }
  }

  lemma ParsedUsnIsText(v: Bytes)
    requires TextPiece(v)
    ensures ParseUsn(v).Ok? ==> TextPiece(UsnText(ParseUsn(v).value))
  {
    hide Trim, FindText, ParseTarget, TargetText, TextPiece;
    TrimKeepsText(v);
    var t := Trim(v);
    LiteralPieces();
    if ParseUsn(v).Ok? {
      var u := ParseUsn(v).value;
      var body := t[5..];
      CutAt(t, 0, "uuid:");
      match FindText(body, "::")
      case None =>
        JoinPieces("uuid:", body);
        assert UsnText(u) == "uuid:" + body;
      case Some(sep) =>
        CutAt(body, sep, "::");
        ParsedTargetIsText(body[sep + 2..]);
        JoinPieces("uuid:", body[..sep]);
        JoinPieces("::", TargetText(u.embedded.value));
        JoinPieces("uuid:" + body[..sep], "::" + TargetText(u.embedded.value));
    }
  }

  lemma ParsedUsnIsOk(v: Bytes)
    requires CleanText(v)
    ensures ParseUsn(v).Ok? ==> UsnOk(ParseUsn(v).value)
  {
    hide ParseUsn, WellFormedUsn, UsnText, ValidUtf8;
    ParsedUsnIsText(v);
    ParsedUsnIsWellFormed(v);
    if ParseUsn(v).Ok? {
      UsnTextIsTrimmed(ParseUsn(v).value);
    }
  }

  // ---------- the reader keeps only well-formed values ----------

  lemma {:induction false} ParsedAgeIsWhole(v: Bytes)
    ensures ParseMaxAge(v).Ok? ==> WholeSeconds(ParseMaxAge(v).value)
    decreases |v|
  {
    hide Find, Trim, Span, ParseUint;
    var i := Find(v, ',');
    if MaxAgeDirective(v[..i]).None? && i < |v| {
      ParsedAgeIsWhole(v[i + 1..]);
    }
  }

  ghost predicate SeenOk(s: Seen) {
    && OptClean(s.host) && OptClean(s.agent) && OptClean(s.cpfn) && OptClean(s.cpuuid)
    && (s.target.Some? ==> TargetOk(s.target.value))
    && (s.usn.Some? ==> UsnOk(s.usn.value))
    && (s.mx.Some? ==> MX_MIN <= s.mx.value <= MX_MAX)
    && (s.location.Some? ==> LocationOk(s.location.value))
    && (s.maxAge.Some? ==> WholeSeconds(s.maxAge.value))
    && s.searchport != Some(0)
  }

  lemma ReadFieldKeepsOk(k: Kind, s: Seen, f: Field, v: Bytes)
    requires SeenOk(s) && CleanText(v)
    ensures ReadField(k, s, f, v).Ok? ==> SeenOk(ReadField(k, s, f, v).value)
  {
    hide CleanText, TargetOk, UsnOk, ParseTarget, ParseUsn, Trim, ParseMaxAge, ParseMx, WholeSeconds, Trimmed,
         ParseSubType, ParseU32, ValidUri;
    ParsedTargetIsOk(v);
    ParsedUsnIsOk(v);
    ParsedAgeIsWhole(v);
    TrimIsTrimmed(v);
  }

  lemma {:induction false} ReadHeadersKeepsOk(k: Kind, s: Seen, hs: seq<Header>)
    requires SeenOk(s) && MessageRoundTrip.AllClean(hs)
    ensures ReadHeaders(k, s, hs).Ok? ==> SeenOk(ReadHeaders(k, s, hs).value)
    decreases |hs|
  {
    hide ReadField, SeenOk, Classify, CleanName, CleanValue, ValidUtf8;
    if hs != [] && ReadHeader(k, s, hs[0]).Ok? {
      assert hs[0] in hs;
      ReadFieldKeepsOk(k, s, Classify(hs[0].name), hs[0].value);
      ReadHeadersKeepsOk(k, ReadHeader(k, s, hs[0]).value, hs[1..]);
    }
  }

  lemma ParsedIsWellFormed(buf: Bytes)
    ensures ParseDatagram(buf).Ok? ==> WellFormed(ParseDatagram(buf).value)
  {
    hide ParseStartLine, SplitHeaders, ReadHeaders, CleanText, TargetOk, UsnOk, LocationOk, WholeSeconds, CleanHeader;
    if ParseDatagram(buf).Ok? {
      var (k, rest) := ParseStartLine(buf).value;
      var hs := SplitHeaders(rest, MAX_HEADERS).value;
      ReadHeadersKeepsOk(k, NOTHING, hs);
    }
  }

  // ---------- the round trip, in both directions ----------

  /** Printing a message and parsing the text gives the message back exactly when it is well formed. */
  lemma RoundTripExactly(m: Message)
    ensures ParseDatagram(MessageText(m)) == Ok(m) <==> WellFormed(m)
  {
    hide ParseDatagram, WellFormedMSearch, WellFormedNotify, WellFormedResponse, MSearchText, NotifyText, ResponseText;
    if WellFormed(m) {
      match m
      case Search(s) => MessageRoundTrip.MSearchParsesBack(s);
      case SearchResponse(r) => MessageRoundTrip.ResponseParsesBack(r);
      case Announcement(n) => MessageRoundTrip.NotifyParsesBack(n);
    }
    ParsedIsWellFormed(MessageText(m));
  }

  /** Any datagram that parses can be printed in canonical form without changing its meaning. */
  lemma CanonicalFormKeepsMeaning(buf: Bytes)
    requires ParseDatagram(buf).Ok?
    ensures ParseDatagram(MessageText(ParseDatagram(buf).value)) == ParseDatagram(buf)
  {
    hide ParseDatagram, WellFormed, MessageText;
    ParsedIsWellFormed(buf);
    RoundTripExactly(ParseDatagram(buf).value);
  }
}
