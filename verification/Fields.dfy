/** The header fields of SSDP: their names, and the parsers and printers of their values. */
module Fields {
  import opened Wrappers
  import opened Text
  import opened Http
  import opened Target

  // Durations and instants are counted in nanoseconds.
  type Nanos = nat
  const SECOND: Nanos := 1_000_000_000
  const MILLISECOND: Nanos := 1_000_000

  datatype Field =
    | Host | CacheControl | Location | Nt | Nts | Server | St | UsnField | Man | Mx | UserAgent
    | BootId | ConfigId | NextBootId | SearchPort | Cpfn | CpUuid | TcpPort
    | Unknown

  function WireName(f: Field): Bytes {
    match f
    case Host => "HOST"
    case CacheControl => "CACHE-CONTROL"
    case Location => "LOCATION"
    case Nt => "NT"
    case Nts => "NTS"
    case Server => "SERVER"
    case St => "ST"
    case UsnField => "USN"
    case Man => "MAN"
    case Mx => "MX"
    case UserAgent => "USER-AGENT"
    case BootId => "BOOTID.UPNP.ORG"
    case ConfigId => "CONFIGID.UPNP.ORG"
    case NextBootId => "NEXTBOOTID.UPNP.ORG"
    case SearchPort => "SEARCHPORT.UPNP.ORG"
    case Cpfn => "CPFN.UPNP.ORG"
    case CpUuid => "CPUUID.UPNP.ORG"
    case TcpPort => "TCPPORT.UPNP.ORG"
    case Unknown => "X"
  }

  // Field names are compared without regard to ASCII case, lengths first.
  function Classify(name: Bytes): Field {
    var n := |name|;
    if n == 2 then
      if EqIgnoreCase(name, "nt") then Nt
      else if EqIgnoreCase(name, "st") then St
      else if EqIgnoreCase(name, "mx") then Mx
      else Unknown
    else if n == 3 then
      if EqIgnoreCase(name, "nts") then Nts
      else if EqIgnoreCase(name, "usn") then UsnField
      else if EqIgnoreCase(name, "man") then Man
      else Unknown
    else if n == 13 then
      if EqIgnoreCase(name, "cache-control") then CacheControl
      else if EqIgnoreCase(name, "cpfn.upnp.org") then Cpfn
      else Unknown
    else if n == 15 then
      if EqIgnoreCase(name, "bootid.upnp.org") then BootId
      else if EqIgnoreCase(name, "cpuuid.upnp.org") then CpUuid
      else Unknown
    else if n == 19 then
      if EqIgnoreCase(name, "nextbootid.upnp.org") then NextBootId
      else if EqIgnoreCase(name, "searchport.upnp.org") then SearchPort
      else Unknown
    else if EqIgnoreCase(name, "host") then Host
    else if EqIgnoreCase(name, "server") then Server
    else if EqIgnoreCase(name, "location") then Location
    else if EqIgnoreCase(name, "user-agent") then UserAgent
    else if EqIgnoreCase(name, "tcpport.upnp.org") then TcpPort
    else if EqIgnoreCase(name, "configid.upnp.org") then ConfigId
    else Unknown
  }

  lemma Differ(a: Bytes, b: Bytes, i: nat)
    requires i < |a| && i < |b| && Lower(a[i]) != Lower(b[i])
    ensures !EqIgnoreCase(a, b)
  {
  }

  lemma ShortNames(f: Field)
    requires |WireName(f)| <= 3
    ensures Classify(WireName(f)) == f
  {
    var n := WireName(f);
    match f
    case St => Differ(n, "nt", 0);
    case Mx => Differ(n, "nt", 0); Differ(n, "st", 0);
    case UsnField => Differ(n, "nts", 0);
    case Man => Differ(n, "nts", 0); Differ(n, "usn", 0);
    case _ =>
  }

  lemma MiddleNames(f: Field)
    requires 3 < |WireName(f)| < 13
    ensures Classify(WireName(f)) == f
  {
    LowerHost();
    LowerServer();
    LowerLocation();
    LowerUserAgent();
    match f case _ =>
  }

  // The lower-case spellings of the longer names, one obligation each.
  lemma LowerHost() ensures EqIgnoreCase(WireName(Host), "host") {}
  lemma LowerServer() ensures EqIgnoreCase(WireName(Server), "server") {}
  lemma LowerLocation() ensures EqIgnoreCase(WireName(Location), "location") {}
  lemma LowerUserAgent() ensures EqIgnoreCase(WireName(UserAgent), "user-agent") {}
  lemma LowerCacheControl() ensures EqIgnoreCase(WireName(CacheControl), "cache-control") {}
  lemma LowerCpfn() ensures EqIgnoreCase(WireName(Cpfn), "cpfn.upnp.org") {}
  lemma LowerBootId() ensures EqIgnoreCase(WireName(BootId), "bootid.upnp.org") {}
  lemma LowerCpUuid() ensures EqIgnoreCase(WireName(CpUuid), "cpuuid.upnp.org") {}
  lemma LowerTcpPort() ensures EqIgnoreCase(WireName(TcpPort), "tcpport.upnp.org") {}
  lemma LowerConfigId() ensures EqIgnoreCase(WireName(ConfigId), "configid.upnp.org") {}
  lemma LowerNextBootId() ensures EqIgnoreCase(WireName(NextBootId), "nextbootid.upnp.org") {}
  lemma LowerSearchPort() ensures EqIgnoreCase(WireName(SearchPort), "searchport.upnp.org") {}

  lemma LongNames(f: Field)
    requires 13 <= |WireName(f)| <= 15
    ensures Classify(WireName(f)) == f
  {
    var n := WireName(f);
    match f
    case CacheControl => LowerCacheControl();
    case Cpfn => LowerCpfn(); Differ(n, "cache-control", 1);
    case BootId => LowerBootId();
    case CpUuid => LowerCpUuid(); Differ(n, "bootid.upnp.org", 0);
    case _ =>
  }

  lemma LongestNames(f: Field)
    requires 15 < |WireName(f)|
    ensures Classify(WireName(f)) == f
  {
    var n := WireName(f);
    match f
    case NextBootId => LowerNextBootId();
    case SearchPort => LowerSearchPort(); Differ(n, "nextbootid.upnp.org", 0);
    case TcpPort => LowerTcpPort();
    case ConfigId => LowerConfigId();
    case _ =>
  }

  lemma ShortNamesAreClean(f: Field)
    requires |WireName(f)| < 13
    ensures CleanName(WireName(f))
  {
    match f case _ =>
  }

  lemma LongNamesAreClean(f: Field)
    requires 13 <= |WireName(f)| <= 15
    ensures CleanName(WireName(f))
  {
    match f case _ =>
  }

  lemma LongestNamesAreClean(f: Field)
    requires 15 < |WireName(f)|
    ensures CleanName(WireName(f))
  {
    CleanConfigId();
    CleanNextBootId();
    match f case _ =>
  }

  lemma CleanConfigId() ensures CleanName(WireName(ConfigId)) {}
  lemma CleanNextBootId() ensures CleanName(WireName(NextBootId)) {}

  // Only the folded name decides.
  lemma CaseIsIgnored(a: Bytes, b: Bytes)
    requires EqIgnoreCase(a, b)
    ensures Classify(a) == Classify(b)
  {
    hide EqIgnoreCase;
    forall name: Bytes
      ensures EqIgnoreCase(a, name) <==> EqIgnoreCase(b, name)
    {
      SameFolding(a, b, name);
    }
    SameLength(a, b);
  }

  lemma SameFolding(a: Bytes, b: Bytes, name: Bytes)
    requires EqIgnoreCase(a, b)
    ensures EqIgnoreCase(a, name) <==> EqIgnoreCase(b, name)
  {
  }

  lemma SameLength(a: Bytes, b: Bytes)
    requires EqIgnoreCase(a, b)
    ensures |a| == |b|
  {
  }

  /** Every name the encoders write is recognised, in whatever case it arrives, as its field. */
  lemma WireNamesAreRecognised(f: Field)
    ensures Classify(WireName(f)) == f && CleanName(WireName(f))
    ensures forall name :: EqIgnoreCase(name, WireName(f)) ==> Classify(name) == f
  {
    hide Classify, WireName, EqIgnoreCase;
    forall name | EqIgnoreCase(name, WireName(f))
      ensures Classify(name) == Classify(WireName(f))
    {
      CaseIsIgnored(name, WireName(f));
    }
    var n := |WireName(f)|;
    if n < 13 {
      ShortNamesAreClean(f);
      if n <= 3 {
        ShortNames(f);
      } else {
        MiddleNames(f);
      }
    } else {
      if n <= 15 {
        LongNames(f);
        LongNamesAreClean(f);
      } else {
        LongestNames(f);
        LongestNamesAreClean(f);
      }
    }
  }

  // ---------- notification sub types ----------

  datatype SubType = Alive | ByeBye | Update

  function SubTypeText(n: SubType): Bytes {
    match n
    case Alive => "ssdp:alive"
    case ByeBye => "ssdp:byebye"
    case Update => "ssdp:update"
  }

  function ParseSubType(value: Bytes): Result<SubType, ParseError> {
    var v := Trim(value);
    if EqIgnoreCase(v, "ssdp:alive") then Ok(Alive)
    else if EqIgnoreCase(v, "ssdp:byebye") then Ok(ByeBye)
    else if EqIgnoreCase(v, "ssdp:update") then Ok(Update)
    else Err(UnknownNts)
  }

  lemma SubTypeRoundTrip(n: SubType)
    ensures ParseSubType(SubTypeText(n)) == Ok(n)
  {
    hide Trim;
    var v := SubTypeText(n);
    TrimIsTrimmed(v);
    match n
    case Alive =>
    case ByeBye =>
    case Update => Differ(v, "ssdp:byebye", 5);
  }

  // ---------- numbers ----------

  function ParseU32(field: Bytes, value: Bytes): Result<u32, ParseError> {
    match ParseUint(Trim(value), 0xFFFF_FFFF)
    case None => Err(InvalidHeaderValue(field))
    case Some(n) => Ok(n)
  }

  function ParsePort(field: Bytes, value: Bytes): Result<u16, ParseError> {
    match ParseUint(Trim(value), 0xFFFF)
    case None => Err(InvalidHeaderValue(field))
    case Some(n) => Ok(n)
  }

  // Port 0 is no port to search.
  function ParseSearchPort(value: Bytes): Result<u16, ParseError> {
    match ParsePort("SEARCHPORT.UPNP.ORG", value)
    case Err(e) => Err(e)
    case Ok(p) => if p == 0 then Err(InvalidHeaderValue("SEARCHPORT.UPNP.ORG")) else Ok(p)
  }

  const MX_MIN := 1
  const MX_MAX := 5

  function ParseMx(value: Bytes): (r: Result<nat, ParseError>)
    ensures r.Ok? ==> MX_MIN <= r.value <= MX_MAX
  {
    match ParseUint(Trim(value), 255)
    case None => Err(MxOutOfRange)
    case Some(n) => if MX_MIN <= n <= MX_MAX then Ok(n) else Err(MxOutOfRange)
  }

  lemma DecIsTrimmed(n: nat)
    ensures Trimmed(Dec(n)) && Trim(Dec(n)) == Dec(n)
  {
    hide Trim;
    var d := Dec(n);
    assert IsDigit(d[0]) && IsDigit(d[|d| - 1]);
    TrimIsTrimmed(d);
  }

  lemma NumbersRoundTrip(n: nat, field: Bytes)
    ensures n < 0x1_0000_0000 ==> ParseU32(field, Dec(n)) == Ok(n)
    ensures n < 0x1_0000 ==> ParsePort(field, Dec(n)) == Ok(n)
    ensures 0 < n < 0x1_0000 ==> ParseSearchPort(Dec(n)) == Ok(n)
    ensures ParseMx(Dec(n)) == if MX_MIN <= n <= MX_MAX then Ok(n) else Err(MxOutOfRange)
  {
    hide Trim, ParseUint, Dec;
    DecIsTrimmed(n);
    ParseDec(n, 0xFFFF_FFFF);
    ParseDec(n, 0xFFFF);
    ParseDec(n, 255);
  }

  // ---------- CACHE-CONTROL ----------

  // The verdict of one comma-separated part, or None when it is not a max-age directive.
  function MaxAgeDirective(part: Bytes): Option<Result<Nanos, ParseError>> {
    var p := Trim(part);
    if !("max-age" <= p) then None
    else
      var rest := p[7..];
      var value := rest[Span(rest, IsAsciiSpace)..];
      if !("=" <= value) then None
      else
        match ParseUint(Trim(value[1..]), 0xFFFF_FFFF)
        case None => Some(Err(InvalidCacheControl))
        case Some(n) => Some(Ok(n * SECOND))
  }

  function ParseMaxAge(value: Bytes): Result<Nanos, ParseError>
    decreases |value|
  {
    var i := Find(value, ',');
    match MaxAgeDirective(value[..i])
    case Some(verdict) => verdict
    case None => if i == |value| then Err(InvalidCacheControl) else ParseMaxAge(value[i + 1..])
  }

  // The encoders keep whole seconds, in 32 bits.
  function WireSeconds(age: Nanos): u32 {
    age / SECOND % 0x1_0000_0000
  }

  function MaxAgeText(age: Nanos): Bytes {
    "max-age=" + Dec(WireSeconds(age))
  }

  // Ages that the wire carries without loss.
  predicate WholeSeconds(age: Nanos) {
    age % SECOND == 0 && age / SECOND < 0x1_0000_0000
  }

  lemma MaxAgeTextIsTrimmed(age: Nanos)
    ensures Trimmed(MaxAgeText(age))
  {
    var d := Dec(WireSeconds(age));
    assert IsDigit(d[|d| - 1]);
  }

  /** A max-age comes back as the whole seconds the wire carries. */
  lemma MaxAgeRoundTrip(age: Nanos)
    ensures ParseMaxAge(MaxAgeText(age)) == Ok(WireSeconds(age) * SECOND)
  {
    hide Trim, ParseUint, Dec;
    var n := WireSeconds(age);
    var v := MaxAgeText(age);
    assert forall i | 0 <= i < |Dec(n)| :: IsDigit(Dec(n)[i]);
    assert forall i | 8 <= i < |v| :: v[i] == Dec(n)[i - 8];
    FindIs(v, ',', |v|) by {
      assert v[..|v|] == v;
    }
    assert v[..|v|] == v;
    MaxAgeTextIsTrimmed(age);
    TrimIsTrimmed(v);
    assert v[7..] == "=" + Dec(n) && v[7..][1..] == Dec(n);
    SpanIs(v[7..], IsAsciiSpace, 0);
    DecIsTrimmed(n);
    ParseDec(n, 0xFFFF_FFFF);
    assert MaxAgeDirective(v) == Some(Ok(n * SECOND));
  }

  // A max-age directive as others may write it.
  function Directive(pre: Bytes, before: Bytes, after: Bytes, digits: Bytes, post: Bytes): Bytes {
    pre + ("max-age" + (before + ("=" + (after + digits)))) + post
  }

  lemma DirectiveIsRead(pre: Bytes, before: Bytes, after: Bytes, digits: Bytes, post: Bytes)
    requires Blanks(pre) && Blanks(before) && Blanks(after) && Blanks(post) && digits != "" && AllDigits(digits)
    ensures MaxAgeDirective(Directive(pre, before, after, digits, post)) == Some(
      if NatOf(digits) < 0x1_0000_0000 then Ok(NatOf(digits) * SECOND) else Err(InvalidCacheControl))
  {
    hide Trim, Span, NatOf, MaxAgeDirective, ParseUint, AllDigits;
    var p := "max-age" + (before + ("=" + (after + digits)));
    EndsInDigit(before + ("=" + after), digits);
    assert p == "max-age" + (before + ("=" + after)) + digits;
    TrimPadded(pre, p, post);
    DigitsTrim(after, digits);
    DirectiveParts(pre + p + post, p, before, after + digits);
  }

  lemma EndsInDigit(middle: Bytes, digits: Bytes)
    requires digits != "" && AllDigits(digits)
    ensures Trimmed("max-age" + middle + digits) && "max-age" + middle + digits != ""
  {
    var p := "max-age" + middle + digits;
    assert p[0] == 'm' && p[|p| - 1] == digits[|digits| - 1] && IsDigit(digits[|digits| - 1]);
  }

  lemma DigitsTrim(after: Bytes, digits: Bytes)
    requires Blanks(after) && digits != "" && AllDigits(digits)
    ensures Trim(after + digits) == digits
    ensures ParseUint(digits, 0xFFFF_FFFF) == if NatOf(digits) <= 0xFFFF_FFFF then Some(NatOf(digits)) else None
  {
    hide Trim, NatOf;
    assert IsDigit(digits[0]) && IsDigit(digits[|digits| - 1]);
    TrimPadded(after, digits, "");
    assert after + digits + "" == after + digits;
  }

  lemma DirectiveParts(part: Bytes, p: Bytes, before: Bytes, number: Bytes)
    requires Trim(part) == p == "max-age" + (before + ("=" + number)) && Blanks(before)
    ensures MaxAgeDirective(part) == Some(
      match ParseUint(Trim(number), 0xFFFF_FFFF) case None => Err(InvalidCacheControl) case Some(n) => Ok(n * SECOND))
  {
    hide Trim, Span, ParseUint;
    var value := "=" + number;
    Parts("max-age", before + value);
    Parts(before, value);
    SpanIs(before + value, IsAsciiSpace, |before|) by {
      assert (before + value)[|before|] == '=';
    }
    Parts("=", number);
  }

  lemma NoComma(pre: Bytes, before: Bytes, after: Bytes, digits: Bytes, post: Bytes)
    requires Blanks(pre) && Blanks(before) && Blanks(after) && Blanks(post) && AllDigits(digits)
    ensures ',' !in Directive(pre, before, after, digits, post)
  {
    assert ',' !in pre && ',' !in before && ',' !in after && ',' !in post && ',' !in digits;
  }

  lemma FirstPart(part: Bytes, rest: Bytes)
    requires ',' !in part
    ensures ParseMaxAge(part) == match MaxAgeDirective(part) case Some(v) => v case None => Err(InvalidCacheControl)
    ensures ParseMaxAge(part + ("," + rest)) ==
      match MaxAgeDirective(part) case Some(v) => v case None => ParseMaxAge(rest)
  {
    hide MaxAgeDirective, Find;
    var v := part + ("," + rest);
    assert v == part + ([','] + rest);
    PartsAround(part, ',', rest);
    FindIs(v, ',', |part|);
    assert part[..|part|] == part;
    FindIs(part, ',', |part|);
  }

  /** The first max-age directive decides, whatever blanks stand around it and whatever follows the next comma. */
  lemma MaxAgeIsRead(pre: Bytes, before: Bytes, after: Bytes, digits: Bytes, post: Bytes, rest: Bytes)
    requires Blanks(pre) && Blanks(before) && Blanks(after) && Blanks(post) && digits != "" && AllDigits(digits)
    ensures var d := Directive(pre, before, after, digits, post);
            ParseMaxAge(d) == ParseMaxAge(d + ("," + rest)) ==
              if NatOf(digits) < 0x1_0000_0000 then Ok(NatOf(digits) * SECOND) else Err(InvalidCacheControl)
  {
    hide ParseMaxAge, MaxAgeDirective, Directive, NatOf;
    var d := Directive(pre, before, after, digits, post);
    DirectiveIsRead(pre, before, after, digits, post);
    NoComma(pre, before, after, digits, post);
    FirstPart(d, rest);
  }

  /** Directives that do not begin with "max-age" are passed over, and without any other the field is refused. */
  lemma OtherDirectivesAreSkipped(other: Bytes, rest: Bytes)
    requires ',' !in other && !("max-age" <= Trim(other))
    ensures ParseMaxAge(other + ("," + rest)) == ParseMaxAge(rest)
    ensures ParseMaxAge(other) == Err(InvalidCacheControl)
  {
    hide ParseMaxAge, Trim;
    FirstPart(other, rest);
  }

  // ---------- LOCATION ----------

  const MAX_URI_LEN := 2048

  predicate ValidUri(s: Bytes) {
    0 < |s| <= MAX_URI_LEN && forall i | 0 <= i < |s| :: 0x20 <= s[i] as int < 0x7F
  }

  function ParseLocation(value: Bytes): Result<Bytes, ParseError> {
    var v := Trim(value);
    if ValidUri(v) then Ok(v) else Err(InvalidHeaderValue("LOCATION"))
  }

  // ---------- every value a listener may be given ----------

  /** The sub types, in any case. */
  lemma SubTypeSyntax(v: Bytes)
    requires Trimmed(v)
    ensures forall n :: ParseSubType(v) == Ok(n) <==> EqIgnoreCase(v, SubTypeText(n))
    ensures ParseSubType(v).Err? ==> ParseSubType(v) == Err(UnknownNts)
  {
    hide Trim;
    TrimIsTrimmed(v);
    assert |SubTypeText(Alive)| == 10 && |SubTypeText(ByeBye)| == 11 && |SubTypeText(Update)| == 11;
    if EqIgnoreCase(v, "ssdp:update") {
      assert Lower(v[5]) == 'u' && Lower('b') == 'b';
      Differ(v, "ssdp:byebye", 5);
    }
  }

  /** A number is digits, after a plus sign or none, in range. */
  lemma NumberSyntax(field: Bytes, plus: bool, digits: Bytes)
    requires digits != "" && AllDigits(digits)
    ensures var v, n := (if plus then "+" else "") + digits, NatOf(digits);
            && ParseU32(field, v) == (if n <= 4_294_967_295 then Ok(n) else Err(InvalidHeaderValue(field)))
            && ParsePort(field, v) == (if n <= 65_535 then Ok(n) else Err(InvalidHeaderValue(field)))
            && ParseMx(v) == (if 1 <= n <= 5 then Ok(n) else Err(MxOutOfRange))
            && ParseSearchPort(v) ==
                 if 1 <= n <= 65_535 then Ok(n) else Err(InvalidHeaderValue("SEARCHPORT.UPNP.ORG"))
  {
    hide Trim, NatOf, ParseUint;
    UintIs(plus, digits, 0xFFFF_FFFF);
    UintIs(plus, digits, 0xFFFF);
    UintIs(plus, digits, 255);
  }

  /** Anything else is no number. */
  lemma OnlyNumbers(field: Bytes, v: Bytes)
    requires Trimmed(v) && (v == "" || v == "+" || !AllDigits(if v[0] == '+' then v[1..] else v))
    ensures ParseU32(field, v) == Err(InvalidHeaderValue(field))
    ensures ParsePort(field, v) == Err(InvalidHeaderValue(field))
    ensures ParseMx(v) == Err(MxOutOfRange) && ParseSearchPort(v) == Err(InvalidHeaderValue("SEARCHPORT.UPNP.ORG"))
  {
    hide Trim;
    TrimIsTrimmed(v);
  }

  /** A location is any printable ASCII of 1 to 2048 octets. */
  lemma LocationSyntax(v: Bytes)
    requires Trimmed(v)
    ensures ParseLocation(v) ==
      if 1 <= |v| <= 2048 && (forall i | 0 <= i < |v| :: ' ' <= v[i] <= '~') then Ok(v)
      else Err(InvalidHeaderValue("LOCATION"))
  {
    hide Trim;
    TrimIsTrimmed(v);
  }
}
