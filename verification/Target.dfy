/** Search targets and unique service names: what they mean, how they print and how they parse. */
module Target {
  import opened Wrappers
  import opened Text

  type u32 = n: int | 0 <= n < 0x1_0000_0000
  type u16 = n: int | 0 <= n < 0x1_0000

  datatype ParseError =
    | TooShort
    | UnknownStartLine
    | MalformedHeaders
    | MissingHeader(name: Bytes)
    | InvalidHeaderValue(name: Bytes)
    | MxOutOfRange
    | UnknownNts
    | InvalidTarget
    | InvalidUsn
    | InvalidCacheControl

  /** An NT or ST value. */
  datatype Target =
    | All
    | RootDevice
    | Uuid(uuid: Bytes)
    | DeviceType(domain: Bytes, kind: Bytes, version: u32)
    | ServiceType(domain: Bytes, kind: Bytes, version: u32)

  /** A USN value: a device, and what it advertises unless that is the device itself. */
  datatype Usn = Usn(deviceUuid: Bytes, embedded: Option<Target>)

  // ---------- printing ----------

  function UrnText(domain: Bytes, family: Bytes, kind: Bytes, version: u32): Bytes {
    "urn:" + domain + family + kind + ":" + Dec(version)
  }

  function TargetText(t: Target): Bytes {
    match t
    case All => "ssdp:all"
    case RootDevice => "upnp:rootdevice"
    case Uuid(u) => "uuid:" + u
    case DeviceType(domain, kind, version) => UrnText(domain, ":device:", kind, version)
    case ServiceType(domain, kind, version) => UrnText(domain, ":service:", kind, version)
  }

  function UsnText(u: Usn): Bytes {
    "uuid:" + u.deviceUuid + match u.embedded case None => "" case Some(t) => "::" + TargetText(t)
  }

  // ---------- parsing ----------

  function ParseTarget(value: Bytes): Result<Target, ParseError> {
    var v := Trim(value);
    if EqIgnoreCase(v, "ssdp:all") then Ok(All)
    else if EqIgnoreCase(v, "upnp:rootdevice") then Ok(RootDevice)
    else if "uuid:" <= v then
      if |v| == 5 then Err(InvalidTarget) else Ok(Uuid(v[5..]))
    else if "urn:" <= v then ParseUrn(v[4..])
    else Err(InvalidTarget)
  }

  // `<domain>:<device|service>:<kind>:<version>`, split at the first three colons.
  function ParseUrn(rest: Bytes): Result<Target, ParseError> {
    var i := Find(rest, ':');
    if i == 0 || i == |rest| then Err(InvalidTarget)
    else
      var afterDomain := rest[i + 1..];
      var j := Find(afterDomain, ':');
      if j == |afterDomain| then Err(InvalidTarget)
      else
        var afterClass := afterDomain[j + 1..];
        var k := Find(afterClass, ':');
        if k == 0 || k == |afterClass| then Err(InvalidTarget)
        else UrnOf(rest[..i], afterDomain[..j], afterClass[..k], afterClass[k + 1..])
  }

  function UrnOf(domain: Bytes, family: Bytes, kind: Bytes, versionText: Bytes): Result<Target, ParseError> {
    match ParseUint(versionText, 0xFFFF_FFFF)
    case None => Err(InvalidTarget)
    case Some(version) =>
      if family == "device" then Ok(DeviceType(domain, kind, version))
      else if family == "service" then Ok(ServiceType(domain, kind, version))
      else Err(InvalidTarget)
  }

  function ParseUsn(value: Bytes): Result<Usn, ParseError> {
    var v := Trim(value);
    if !("uuid:" <= v) then Err(InvalidUsn) else ParseUsnBody(v[5..])
  }

  function ParseUsnBody(body: Bytes): Result<Usn, ParseError> {
    match FindText(body, "::")
    case None => if body == "" then Err(InvalidUsn) else Ok(Usn(body, None))
    case Some(sep) =>
      if sep == 0 || sep + 2 == |body| then Err(InvalidUsn)
      else
        match ParseTarget(body[sep + 2..])
        case Err(e) => Err(e)
        case Ok(t) => Ok(Usn(body[..sep], Some(t)))
  }

  // ---------- well-formedness ----------

  predicate WellFormedTarget(t: Target) {
    match t
    case All => true
    case RootDevice => true
    case Uuid(u) => u != "" && SpaceWidthAtEnd(u) == 0
    case DeviceType(domain, kind, _) => UrnPart(domain) && UrnPart(kind)
    case ServiceType(domain, kind, _) => UrnPart(domain) && UrnPart(kind)
  }

  predicate UrnPart(s: Bytes) {
    s != "" && ':' !in s
  }

  // No "::" in the device part, not even one completed by the separator that follows it.
  predicate WellFormedUsn(u: Usn) {
    && u.deviceUuid != ""
    && match u.embedded
       case None => FindText(u.deviceUuid, "::").None? && SpaceWidthAtEnd(u.deviceUuid) == 0
       case Some(t) => FindText(u.deviceUuid + ":", "::").None? && WellFormedTarget(t)
  }

  // ---------- everything the parsers produce is well formed ----------

  lemma ParsedUrnIsWellFormed(rest: Bytes)
    ensures ParseUrn(rest).Ok? ==> WellFormedTarget(ParseUrn(rest).value)
  {
    hide Find, ParseUint;
  }

  lemma ParsedTargetIsWellFormed(value: Bytes)
    ensures ParseTarget(value).Ok? ==> WellFormedTarget(ParseTarget(value).value)
  {
    hide Trim, EqIgnoreCase, ParseUrn;
    var v := Trim(value);
    TrimIsTrimmed(value);
    if "uuid:" <= v {
      assert |v| > 5 ==> SpaceWidthAtEnd(v[5..]) == 0;
    } else if "urn:" <= v {
      ParsedUrnIsWellFormed(v[4..]);
    }
  }

  lemma ParsedUsnIsWellFormed(value: Bytes)
    ensures ParseUsn(value).Ok? ==> WellFormedUsn(ParseUsn(value).value)
  {
    hide Trim, FindText, ParseTarget, WellFormedTarget;
    var v := Trim(value);
    TrimIsTrimmed(value);
    if "uuid:" <= v {
      var body := v[5..];
      match FindText(body, "::")
      case None =>
        assert |body| > 0 ==> SpaceWidthAtEnd(body) == 0;
      case Some(sep) =>
        ParsedTargetIsWellFormed(body[sep + 2..]);
        NoSeparatorBefore(body, sep);
    }
  }

  // The text before the first "::" holds none, even with the first of its colons added.
  lemma NoSeparatorBefore(body: Bytes, sep: nat)
    requires FindText(body, "::") == Some(sep)
    ensures FindText(body[..sep] + ":", "::").None?
  {
    hide FindText;
    var d := body[..sep] + ":";
    assert body[sep..sep + 2] == "::";
    assert body[sep] == ':' by {
      assert body[sep..sep + 2][0] == ':';
    }
    assert d == body[..sep + 1];
    forall i | 0 <= i <= |d|
      ensures !OccursAt(d, "::", i)
    {
      if i + 2 <= |d| {
        assert d[i..i + 2] == body[i..i + 2];
        assert !OccursAt(body, "::", i);
      }
    }
    var r := FindText(d, "::");
    assert r.Some? ==> OccursAt(d, "::", r.value);
  }

  // ---------- printing what was parsed never lengthens it ----------

  lemma UrnOfBytes(domain: Bytes, family: Bytes, kind: Bytes, version: Bytes)
    ensures var r := UrnOf(domain, family, kind, version);
            r.Ok? ==> |TargetText(r.value)| <= |domain| + |family| + |kind| + |version| + 7
  {
    hide Dec, NatOf;
    if UrnOf(domain, family, kind, version).Ok? {
      DecOfDigits(if version[0] == '+' then version[1..] else version);
    }
  }

  lemma ParsedUrnBytes(rest: Bytes)
    ensures ParseUrn(rest).Ok? ==> |TargetText(ParseUrn(rest).value)| <= |rest| + 4
  {
    hide Find, UrnOf, TargetText;
    if ParseUrn(rest).Ok? {
      var i := Find(rest, ':');
      var afterDomain := rest[i + 1..];
      var j := Find(afterDomain, ':');
      var afterFamily := afterDomain[j + 1..];
      var k := Find(afterFamily, ':');
      UrnOfBytes(rest[..i], afterDomain[..j], afterFamily[..k], afterFamily[k + 1..]);
    }
  }

  lemma {:induction false} TrimStartShortens(s: Bytes)
    ensures |TrimStart(s)| <= |s|
    decreases |s|
  {
    hide SpaceWidth;
    if SpaceWidth(s) != 0 {
      TrimStartShortens(s[SpaceWidth(s)..]);
    }
  }

  lemma ParsedTargetBytes(value: Bytes)
    ensures ParseTarget(value).Ok? ==> |TargetText(ParseTarget(value).value)| <= |value|
  {
    hide TrimStart, TrimEnd, ParseUrn, UrnText;
    TrimStartShortens(value);
    var v := Trim(value);
    if "urn:" <= v {
      ParsedUrnBytes(v[4..]);
    }
  }

  lemma ParsedUsnBytes(value: Bytes)
    ensures ParseUsn(value).Ok? ==> |UsnText(ParseUsn(value).value)| <= |value|
  {
    hide TrimStart, TrimEnd, FindText, ParseTarget, TargetText;
    TrimStartShortens(value);
    var v := Trim(value);
    if "uuid:" <= v {
      var body := v[5..];
      var sep := FindText(body, "::");
      if sep.Some? {
        ParsedTargetBytes(body[sep.value + 2..]);
      }
    }
  }

  // ---------- printing then parsing ----------

  lemma ParseUrnOfParts(domain: Bytes, family: Bytes, kind: Bytes, version: u32)
    requires UrnPart(domain) && UrnPart(family) && UrnPart(kind)
    ensures ParseUrn(domain + ":" + family + ":" + kind + ":" + Dec(version)) ==
      UrnOf(domain, family, kind, Dec(version))
  {
    hide Find, UrnOf, Dec;
    var afterClass := kind + ":" + Dec(version);
    var afterDomain := family + ":" + afterClass;
    var rest := domain + ":" + afterDomain;
    assert rest == domain + ":" + family + ":" + kind + ":" + Dec(version);
    assert rest[..|domain|] == domain && rest[|domain| + 1..] == afterDomain;
    assert afterDomain[..|family|] == family && afterDomain[|family| + 1..] == afterClass;
    assert afterClass[..|kind|] == kind && afterClass[|kind| + 1..] == Dec(version);
    FindIs(rest, ':', |domain|);
    FindIs(afterDomain, ':', |family|);
    FindIs(afterClass, ':', |kind|);
  }

  lemma ParseUrnText(domain: Bytes, family: Bytes, kind: Bytes, version: u32)
    requires UrnPart(domain) && UrnPart(kind) && family in {"device", "service"}
    ensures ParseTarget(UrnText(domain, ":" + family + ":", kind, version)) == UrnOf(domain, family, kind, Dec(version))
  {
    hide ParseUrn, UrnOf, Trim, Dec;
    var v := UrnText(domain, ":" + family + ":", kind, version);
    ParseUrnOfParts(domain, family, kind, version);
    assert v[4..] == domain + ":" + family + ":" + kind + ":" + Dec(version);
    assert v[0] == 'u' && v[1] == 'r' && IsDigit(v[|v| - 1]);
    TrimIsTrimmed(v);
  }

  lemma TargetTextIsTrimmed(t: Target)
    requires WellFormedTarget(t)
    ensures Trimmed(TargetText(t)) && |TargetText(t)| >= 6 && TargetText(t)[0] != ':'
  {
    match t
    case DeviceType(domain, kind, version) =>
      assert IsDigit(TargetText(t)[|TargetText(t)| - 1]);
    case ServiceType(domain, kind, version) =>
      assert IsDigit(TargetText(t)[|TargetText(t)| - 1]);
    case _ =>
  }

  lemma WellFormedTargetParsesBack(t: Target)
    requires WellFormedTarget(t)
    ensures ParseTarget(TargetText(t)) == Ok(t)
  {
    hide Trim, ParseUrn, Dec, ParseUint;
    TargetTextIsTrimmed(t);
    TrimIsTrimmed(TargetText(t));
    match t
    case All =>
    case RootDevice =>
    case Uuid(u) =>
      var v := "uuid:" + u;
      assert v[0] == 'u' && v[1] == 'u' && v[5..] == u;
    case _ => UrnTargetParsesBack(t);
  }

  lemma UrnTargetParsesBack(t: Target)
    requires WellFormedTarget(t) && (t.DeviceType? || t.ServiceType?) && Trim(TargetText(t)) == TargetText(t)
    ensures ParseTarget(TargetText(t)) == Ok(t)
  {
    hide Trim, ParseUrn, Dec, ParseUint;
    if t.DeviceType? {
      ParseUrnText(t.domain, "device", t.kind, t.version);
      assert ":" + "device" + ":" == ":device:";
    } else {
      ParseUrnText(t.domain, "service", t.kind, t.version);
      assert ":" + "service" + ":" == ":service:";
    }
    ParseDec(t.version, 0xFFFF_FFFF);
  }

  /** Exactly the well-formed targets come back from print-then-parse. */
  lemma TargetRoundTrip(t: Target)
    ensures ParseTarget(TargetText(t)) == Ok(t) <==> WellFormedTarget(t)
  {
    if WellFormedTarget(t) {
      WellFormedTargetParsesBack(t);
    }
    ParsedTargetIsWellFormed(TargetText(t));
  }

  lemma UsnTextIsTrimmed(u: Usn)
    requires WellFormedUsn(u)
    ensures Trimmed(UsnText(u)) && "uuid:" <= UsnText(u)
  {
    hide TargetText, FindText, WellFormedTarget;
    var v := UsnText(u);
    assert v[0] == 'u';
    match u.embedded
    case None =>
      assert v == "uuid:" + u.deviceUuid;
    case Some(t) =>
      TargetTextIsTrimmed(t);
      assert v[|v| - |TargetText(t)|..] == TargetText(t);
  }

  lemma WellFormedUsnBodyParsesBack(u: Usn)
    requires WellFormedUsn(u)
    ensures ParseUsnBody(UsnText(u)[5..]) == Ok(u)
  {
    hide ParseTarget, TargetText, FindText, WellFormedTarget;
    var d := u.deviceUuid;
    var body := UsnText(u)[5..];
    match u.embedded
    case None =>
      assert body == d;
    case Some(t) =>
      assert body == d + "::" + TargetText(t);
      TargetTextIsTrimmed(t);
      FirstSeparator(d, TargetText(t));
      SeparatedParts(d, TargetText(t));
      WellFormedTargetParsesBack(t);
  }

  lemma SeparatedParts(d: Bytes, t: Bytes)
    ensures var body := d + "::" + t; body[..|d|] == d && body[|d| + 2..] == t
  {
    assert d + "::" + t == (d + "::") + t;
    assert ((d + "::") + t)[|d + "::"|..] == t;
  }

  lemma WellFormedUsnParsesBack(u: Usn)
    requires WellFormedUsn(u)
    ensures ParseUsn(UsnText(u)) == Ok(u)
  {
    hide ParseUsnBody, Trim, UsnText, WellFormedUsn;
    UsnTextIsTrimmed(u);
    TrimIsTrimmed(UsnText(u));
    WellFormedUsnBodyParsesBack(u);
  }

  lemma FirstSeparator(d: Bytes, rest: Bytes)
    requires FindText(d + ":", "::").None?
    ensures FindText(d + "::" + rest, "::") == Some(|d|)
  {
    var body := d + "::" + rest;
    assert OccursAt(body, "::", |d|);
    forall i | 0 <= i < |d|
      ensures !OccursAt(body, "::", i)
    {
      assert body[i..i + 2] == (d + ":")[i..i + 2];
      assert !OccursAt(d + ":", "::", i);
    }
    FindTextIs(body, "::", |d|);
  }

  /** Exactly the well-formed USNs come back from print-then-parse. */
  lemma UsnRoundTrip(u: Usn)
    ensures ParseUsn(UsnText(u)) == Ok(u) <==> WellFormedUsn(u)
  {
    if WellFormedUsn(u) {
      WellFormedUsnParsesBack(u);
    }
    ParsedUsnIsWellFormed(UsnText(u));
  }

  // ---------- every text a listener may be given ----------

  /** The two fixed targets, in any case; a UUID, unless it is empty; nothing of another beginning. */
  lemma TargetSyntax(v: Bytes)
    requires Trimmed(v)
    ensures EqIgnoreCase(v, "ssdp:all") ==> ParseTarget(v) == Ok(All)
    ensures EqIgnoreCase(v, "upnp:rootdevice") ==> ParseTarget(v) == Ok(RootDevice)
    ensures "uuid:" <= v ==> ParseTarget(v) == if |v| == 5 then Err(InvalidTarget) else Ok(Uuid(v[5..]))
    ensures !EqIgnoreCase(v, "ssdp:all") && !EqIgnoreCase(v, "upnp:rootdevice") && !("uuid:" <= v) && !("urn:" <= v) ==>
              ParseTarget(v) == Err(InvalidTarget)
  {
    hide Trim, ParseUrn;
    TrimIsTrimmed(v);
    if "uuid:" <= v {
      assert v[4] == ':' && v[1] == 'u';
    }
    if EqIgnoreCase(v, "upnp:rootdevice") {
      assert |v| == 15;
    }
  }

  /** A URN of four parts: its class decides, its version is a number, and no part but the class may be missing. */
  lemma UrnSyntax(domain: Bytes, class_: Bytes, kind: Bytes, version: Bytes)
    requires ':' !in domain && ':' !in class_ && ':' !in kind
    ensures ParseUrn(domain + (":" + (class_ + (":" + (kind + (":" + version)))))) ==
      if domain == "" || kind == "" then Err(InvalidTarget)
      else match ParseUint(version, 0xFFFF_FFFF)
           case None => Err(InvalidTarget)
           case Some(n) =>
             if class_ == "device" then Ok(DeviceType(domain, kind, n))
             else if class_ == "service" then Ok(ServiceType(domain, kind, n))
             else Err(InvalidTarget)
  {
    hide ParseUrn, ParseUint;
    UrnParts(domain, class_, kind, version);
  }

  lemma UrnParts(domain: Bytes, class_: Bytes, kind: Bytes, version: Bytes)
    requires ':' !in domain && ':' !in class_ && ':' !in kind
    ensures ParseUrn(domain + (":" + (class_ + (":" + (kind + (":" + version)))))) ==
      if domain == "" || kind == "" then Err(InvalidTarget) else UrnOf(domain, class_, kind, version)
  {
    hide Find, UrnOf;
    var c := kind + (":" + version);
    var b := class_ + (":" + c);
    FirstColon(domain, b);
    FirstColon(class_, c);
    FirstColon(kind, version);
  }

  lemma FirstColon(part: Bytes, rest: Bytes)
    requires ':' !in part
    ensures var t := part + (":" + rest);
            Find(t, ':') == |part| < |t| && t[..|part|] == part && t[|part| + 1..] == rest
  {
    hide Find;
    assert part + (":" + rest) == part + ([':'] + rest);
    PartsAround(part, ':', rest);
    FindIs(part + (":" + rest), ':', |part|);
  }

  /** With fewer parts it is none. */
  lemma ShortUrns(domain: Bytes, class_: Bytes, kind: Bytes)
    requires ':' !in domain && ':' !in class_ && ':' !in kind
    ensures ParseUrn(domain) == Err(InvalidTarget)
    ensures ParseUrn(domain + (":" + class_)) == Err(InvalidTarget)
    ensures ParseUrn(domain + (":" + (class_ + (":" + kind)))) == Err(InvalidTarget)
  {
    hide Find, UrnOf;
    FirstColon(domain, class_);
    FirstColon(domain, class_ + (":" + kind));
    FirstColon(class_, kind);
    assert domain[..|domain|] == domain && class_[..|class_|] == class_ && kind[..|kind|] == kind;
    FindIs(domain, ':', |domain|);
    FindIs(class_, ':', |class_|);
    FindIs(kind, ':', |kind|);
  }

  lemma UrnIsTarget(rest: Bytes)
    requires Trimmed("urn:" + rest)
    ensures ParseTarget("urn:" + rest) == ParseUrn(rest)
  {
    hide Trim, ParseUrn;
    var v := "urn:" + rest;
    TrimIsTrimmed(v);
    assert v[0] == 'u' && v[1] == 'r' && v[2] == 'n' && v[4..] == rest;
    assert !EqIgnoreCase(v, "ssdp:all") && !EqIgnoreCase(v, "upnp:rootdevice");
  }

  function BehindDevice(device: Bytes, target: Result<Target, ParseError>): Result<Usn, ParseError> {
    match target case Err(e) => Err(e) case Ok(t) => Ok(Usn(device, Some(t)))
  }

  /** A USN is a device, alone or with one target behind the first double colon; neither may be missing. */
  lemma UsnSyntax(device: Bytes, target: Bytes)
    requires FindText(device + ":", "::").None?
    ensures Trimmed("uuid:" + device) ==>
              ParseUsn("uuid:" + device) == if device == "" then Err(InvalidUsn) else Ok(Usn(device, None))
    ensures Trimmed("uuid:" + (device + "::" + target)) ==>
              ParseUsn("uuid:" + (device + "::" + target)) ==
                if device == "" || target == "" then Err(InvalidUsn) else BehindDevice(device, ParseTarget(target))
  {
    hide Trim, FindText, ParseTarget;
    var a, b := "uuid:" + device, "uuid:" + (device + "::" + target);
    TrimIsTrimmed(a);
    TrimIsTrimmed(b);
    Parts("uuid:", device);
    Parts("uuid:", device + "::" + target);
    FirstSeparator(device, target);
    SeparatedParts(device, target);
    NoSeparator(device);
  }

  lemma NoSeparator(uuid: Bytes)
    requires FindText(uuid + ":", "::").None?
    ensures FindText(uuid, "::").None?
  {
    hide FindText;
    var r := FindText(uuid, "::");
    assert r.Some? ==> OccursAt(uuid + ":", "::", r.value) by {
      if r.Some? {
        assert (uuid + ":")[r.value..r.value + 2] == uuid[r.value..r.value + 2];
      }
    }
  }

  lemma OnlyUuids(v: Bytes)
    requires Trimmed(v) && !("uuid:" <= v)
    ensures ParseUsn(v) == Err(InvalidUsn)
  {
    hide Trim;
    TrimIsTrimmed(v);
  }
}
