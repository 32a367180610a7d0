/** What the SOAP parser makes of the documents the SOAP writer produces. */
module SoapRoundTrip {
  import opened Wrappers
  import opened Text
  import opened Xml
  import opened Soap

  // ---------- names ----------

  predicate NameOctet(c: char) {
    && !IsAsciiSpace(c) && c != '<' && c != '>' && c != '/' && c != '!' && c != '?' && c != ':' && c != '"' && c != '\''
    && c != '&' && c != '='
  }

  // An element name without prefix.
  predicate WellFormedName(n: Bytes) {
    n != "" && Trimmed(n) && forall i | 0 <= i < |n| :: NameOctet(n[i])
  }

  predicate NoSpace(s: Bytes) {
    forall i | 0 <= i < |s| :: !IsAsciiSpace(s[i])
  }

  lemma TokenOf(first: Bytes, rest: Bytes)
    requires first != "" && NoSpace(first) && (rest == "" || IsAsciiSpace(rest[0]))
    ensures FirstToken(first + rest) == Some(first)
  {
    hide Span;
    var tag := first + rest;
    assert tag[0] == first[0];
    SpanIs(tag, IsAsciiSpace, 0);
    assert tag[0..] == tag;
    var word := c => !IsAsciiSpace(c);
    assert forall i | 0 <= i < |first| :: tag[i] == first[i];
    assert rest != "" ==> tag[|first|] == rest[0];
    SpanIs(tag, word, |first|);
    TokenSpan(tag, |first|);
    assert tag[..|first|] == first;
  }

  lemma TokenSpan(tag: Bytes, n: nat)
    requires n <= |tag| && (forall i | 0 <= i < n :: !IsAsciiSpace(tag[i])) && (n < |tag| ==> IsAsciiSpace(tag[n]))
    requires n > 0
    ensures FirstToken(tag) == Some(tag[..n])
  {
    hide Span;
    SpanIs(tag, IsAsciiSpace, 0);
    var t := tag[0..];
    assert t == tag;
    var m := Span(t, c => !IsAsciiSpace(c));
    assert m == n;
  }

  lemma LocalOf(prefix: Bytes, local: Bytes)
    requires ':' !in local
    ensures LocalPart(local) == local && LocalPart(prefix + ":" + local) == local
  {
    var name := prefix + ":" + local;
    assert forall i | 0 <= i < |local| :: local[i] in local;
    assert forall i | |prefix| < i < |name| :: name[i] == local[i - |prefix| - 1];
    LastIs(name, ':', |prefix|);
    assert name[|prefix| + 1..] == local;
    NoLast(local, ':');
  }

  lemma LastIs(s: Bytes, c: char, n: nat)
    requires n < |s| && s[n] == c && forall i | n < i < |s| :: s[i] != c
    ensures FindLast(s, c) == Some(n)
  {
    hide FindLast;
    var r := FindLast(s, c);
  }

  lemma NoLast(s: Bytes, c: char)
    requires forall i | 0 <= i < |s| :: s[i] != c
    ensures FindLast(s, c) == None
  {
    hide FindLast;
    var r := FindLast(s, c);
  }

  lemma NameOf(n: Bytes)
    requires WellFormedName(n)
    ensures ElementName(n) == Some(n) && Trim(n) == n && ':' !in n && NoSpace(n)
  {
    hide FirstToken, LocalPart, Trim;
    TokenOf(n, "");
    assert n + "" == n;
    LocalOf("", n);
    TrimIsTrimmed(n);
  }

  // A prefixed name at the start of a tag.
  lemma PrefixedName(prefix: Bytes, local: Bytes, rest: Bytes)
    requires NoSpace(prefix) && NoSpace(local) && local != "" && ':' !in local && ':' !in prefix
    requires rest == "" || IsAsciiSpace(rest[0])
    ensures ElementName(prefix + ":" + local + rest) == Some(local)
    ensures ElementPrefix(prefix + ":" + local + rest) == Some(prefix)
  {
    hide FirstToken, LocalPart, Find;
    var token := prefix + ":" + local;
    TokenOf(token, rest);
    LocalOf(prefix, local);
    FindIs(token, ':', |prefix|) by {
      assert token[..|prefix|] == prefix;
    }
    assert token[..|prefix|] == prefix;
  }

  // ---------- closing tags ----------

  // No closing tag starts here, not even one completed by what follows.
  predicate Quiet(s: Bytes) {
    forall i | 0 <= i < |s| :: s[i] == '<' ==> i + 1 < |s| && s[i + 1] != '/'
  }

  lemma QuietShift(a: Bytes, b: Bytes, i: nat)
    requires Quiet(a)
    ensures OccursAt(a + b, "</", i) <==> i >= |a| && OccursAt(b, "</", i - |a|)
  {
    var t := a + b;
    if i + 2 <= |t| {
      assert t[i..i + 2] == [t[i], t[i + 1]];
      if i >= |a| {
        assert b[i - |a|..i - |a| + 2] == [b[i - |a|], b[i - |a| + 1]];
      } else {
        assert t[i] == a[i];
        assert i + 1 < |a| ==> t[i + 1] == a[i + 1];
      }
    }
  }

  lemma FindPastQuiet(a: Bytes, b: Bytes)
    requires Quiet(a)
    ensures FindText(a + b, "</") == match FindText(b, "</") case None => None case Some(i) => Some(|a| + i)
  {
    hide FindText, OccursAt, Quiet;
    forall i: nat
      ensures OccursAt(a + b, "</", i) <==> i >= |a| && OccursAt(b, "</", i - |a|)
    {
      QuietShift(a, b, i);
    }
    var r := FindText(b, "</");
    if r.Some? {
      assert OccursAt(b, "</", r.value) by { FoundOccurs(b, "</"); }
      FindTextIs(a + b, "</", |a| + r.value);
    } else {
      var q := FindText(a + b, "</");
      if q.Some? {
        FoundOccurs(a + b, "</");
        OccursInside(b, "</", q.value - |a|);
      }
    }
  }

  lemma FoundOccurs(s: Bytes, p: Bytes)
    ensures FindText(s, p).Some? ==> OccursAt(s, p, FindText(s, p).value)
  {
    hide FindText;
  }

  lemma OccursInside(s: Bytes, p: Bytes, i: int)
    requires OccursAt(s, p, i)
    ensures 0 <= i <= |s|
  {
  }

  // Quiet text is skipped.
  lemma CloseAfterQuiet(a: Bytes, b: Bytes, name: Bytes)
    requires Quiet(a)
    ensures FindClose(a + b, name) == Shift(|a|, FindClose(b, name))
  {
    hide FindText, Find, ElementName, FindClose, Quiet;
    FindPastQuiet(a, b);
    FindCloseStops(a + b, name);
    FindCloseStops(b, name);
    var r := FindText(b, "</");
    if r.Some? {
      var after := b[r.value + 2..];
      TailOfSum(a, b, r.value + 2);
      var end := Find(after, '>');
      if end < |after| {
        FindCloseStep(b, name, r.value, end);
        FindCloseStep(a + b, name, |a| + r.value, end);
      }
    }
  }

  lemma TailOfSum(a: Bytes, b: Bytes, i: nat)
    requires i <= |b|
    ensures (a + b)[|a| + i..] == b[i..]
  {
  }

  // A closing tag ends the search, or is passed over.
  lemma CloseTag(tag: Bytes, rest: Bytes, name: Bytes)
    requires '>' !in tag
    ensures FindClose("</" + tag + ">" + rest, name) ==
      if ElementName(tag) == Some(name) then Some((0, |tag| + 3)) else Shift(|tag| + 3, FindClose(rest, name))
  {
    hide FindText, Find, ElementName, FindClose;
    var t := "</" + tag + ">" + rest;
    FindTextIs(t, "</", 0);
    var after := t[2..];
    assert after == tag + ">" + rest;
    FindIs(after, '>', |tag|) by {
      assert after[..|tag|] == tag;
    }
    assert after[..|tag|] == tag && after[|tag| + 1..] == rest;
    FindCloseStep(t, name, 0, |tag|);
  }

  lemma ShiftTwice(a: nat, b: nat, r: Option<(nat, nat)>)
    ensures Shift(a, Shift(b, r)) == Shift(a + b, r)
  {
  }

  // ---------- arguments ----------

  function OpenPart(a: Argument): Bytes {
    "<" + a.name + ">" + Escape(a.value)
  }

  lemma OpenPartIsQuiet(a: Argument)
    requires WellFormedName(a.name)
    ensures Quiet(OpenPart(a)) && '>' !in a.name
  {
    hide Escape;
    EscapedIsPlain(a.value);
    var p := OpenPart(a);
    var e := Escape(a.value);
    forall i | 0 < i < |p|
      ensures p[i] != '<'
    {
      if i <= |a.name| {
        assert p[i] == a.name[i - 1];
      } else if i > |a.name| + 1 {
        assert p[i] == e[i - |a.name| - 2];
      }
    }
    assert p[1] == a.name[0];
  }

  // One written element, then the rest.
  lemma CloseOverElement(a: Argument, rest: Bytes, name: Bytes)
    requires WellFormedName(a.name)
    ensures FindClose(Element(a.name, a.value) + rest, name) ==
      if a.name == name then Some((|OpenPart(a)|, |name| + 3))
      else Shift(|Element(a.name, a.value)|, FindClose(rest, name))
  {
    hide FindClose, WellFormedName, Quiet, ElementName, Element, OpenPart;
    NameOf(a.name);
    OpenPartIsQuiet(a);
    var close := "</" + a.name + ">" + rest;
    ElementSplits(a, rest);
    CloseAfterQuiet(OpenPart(a), close, name);
    CloseTag(a.name, rest, name);
    ShiftTwice(|OpenPart(a)|, |a.name| + 3, FindClose(rest, name));
  }

  lemma ElementSplits(a: Argument, rest: Bytes)
    ensures Element(a.name, a.value) + rest == OpenPart(a) + ("</" + a.name + ">" + rest)
    ensures |Element(a.name, a.value)| == |OpenPart(a)| + |a.name| + 3
  {
    hide Escape;
  }

  ghost predicate NamesOk(args: seq<Argument>) {
    forall a <- args :: WellFormedName(a.name)
  }

  ghost predicate NoneNamed(args: seq<Argument>, name: Bytes) {
    forall a <- args :: a.name != name
  }

  // Searching past all arguments, or ending inside them.
  lemma {:induction false} CloseOverArguments(args: seq<Argument>, rest: Bytes, name: Bytes)
    requires NamesOk(args)
    ensures NoneNamed(args, name) ==>
      FindClose(ArgumentsText(args) + rest, name) == Shift(|ArgumentsText(args)|, FindClose(rest, name))
    ensures !NoneNamed(args, name) ==>
      var r := FindClose(ArgumentsText(args) + rest, name); r.Some? && r.value.0 < |ArgumentsText(args)|
    decreases |args|
  {
    hide FindClose, WellFormedName, Element;
    if args == [] {
      assert "" + rest == rest;
    } else {
      var a, more := args[0], args[1..];
      assert args == [a] + more;
      CloseOverArguments(more, rest, name);
      CloseOverElement(a, ArgumentsText(more) + rest, name);
      ElementSplits(a, "");
      assert ArgumentsText(args) + rest == Element(a.name, a.value) + (ArgumentsText(more) + rest);
      ShiftTwice(|Element(a.name, a.value)|, |ArgumentsText(more)|, FindClose(rest, name));
    }
  }

  // A tag at the start of a text.
  lemma TagAt(tag: Bytes, rest: Bytes)
    requires Plain(tag)
    ensures var t := "<" + tag + ">" + rest;
            var after := t[1..];
            && Find(t, '<') == 0 && Find(after, '>') == |tag| && |after| > |tag|
            && after[..|tag|] == tag && after[|tag| + 1..] == rest
  {
    hide Find;
    var t := "<" + tag + ">" + rest;
    FindIs(t, '<', 0);
    var after := t[1..];
    assert after == tag + (">" + rest);
    TagEnd(tag, rest);
    assert (">" + rest)[1..] == rest;
    assert after[|tag| + 1..] == (">" + rest)[1..];
  }

  lemma TagEnd(tag: Bytes, rest: Bytes)
    requires Plain(tag)
    ensures Find(tag + (">" + rest), '>') == |tag|
  {
    hide Find;
    var after := tag + (">" + rest);
    assert after[..|tag|] == tag;
    FindIs(after, '>', |tag|);
  }

  // The iterator takes one element at a time.
  lemma NextOfElement(a: Argument, rest: Bytes)
    requires WellFormedName(a.name)
    ensures NextArgument(Element(a.name, a.value) + rest) == (Some(Argument(a.name, Trim(Escape(a.value)))), rest)
  {
    hide FindClose, ElementName, Trim, Find, NextArgument, Escape, Quiet, Element, WellFormedName;
    var e := Escape(a.value);
    var content := e + ("</" + a.name + ">" + rest);
    ElementTag(a, rest);
    TagAt(a.name, content);
    NameStart(a.name, ">" + content);
    NextArgumentStep("<" + a.name + ">" + content, 0, ("<" + a.name + ">" + content)[1..]);
    NameOf(a.name);
    EscapedIsQuiet(a.value);
    OpenPartIsQuiet(a);
    CloseAfterQuiet(e, "</" + a.name + ">" + rest, a.name);
    CloseTag(a.name, rest, a.name);
    ContentSplits(e, a.name, rest);
  }

  lemma ElementTag(a: Argument, rest: Bytes)
    requires WellFormedName(a.name)
    ensures Element(a.name, a.value) + rest == "<" + a.name + ">" + (Escape(a.value) + ("</" + a.name + ">" + rest))
    ensures ("<" + a.name + ">" + (Escape(a.value) + ("</" + a.name + ">" + rest)))[1..]
      == a.name + (">" + (Escape(a.value) + ("</" + a.name + ">" + rest)))
    ensures Plain(a.name)
  {
    hide Escape;
  }

  lemma NameStart(name: Bytes, rest: Bytes)
    requires WellFormedName(name)
    ensures !StartsWith(name + rest, '/') && !StartsWith(name + rest, '!') && !StartsWith(name + rest, '?')
      && !EndsWith(name, '/')
  {
    assert (name + rest)[0] == name[0];
  }

  lemma ContentSplits(e: Bytes, name: Bytes, rest: Bytes)
    ensures var content := e + ("</" + name + ">" + rest); content[..|e|] == e && content[|e| + |name| + 3..] == rest
  {
    var close := "</" + name + ">";
    assert e + (close + rest) == (e + close) + rest;
    assert ((e + close) + rest)[|e + close|..] == rest;
  }

  lemma EscapedIsQuiet(v: Bytes)
    ensures Quiet(Escape(v))
  {
    hide Escape;
    EscapedIsPlain(v);
  }

  function Yielded(args: seq<Argument>): seq<Argument> {
    seq(|args|, i requires 0 <= i < |args| => Argument(args[i].name, Trim(Escape(args[i].value))))
  }

  lemma {:induction false} ArgumentsAreYielded(args: seq<Argument>)
    requires NamesOk(args)
    ensures Arguments(ArgumentsText(args)) == Yielded(args)
    decreases |args|
  {
    hide NextArgument, Element, WellFormedName, Trim, Escape;
    if args == [] {
      NothingLeft();
    } else {
      var a, more := args[0], args[1..];
      ArgumentsAreYielded(more);
      NextOfElement(a, ArgumentsText(more));
      assert Yielded(args) == [Argument(a.name, Trim(Escape(a.value)))] + Yielded(more);
    }
  }

  lemma NothingLeft()
    ensures NextArgument("") == (None, "")
  {
    hide FindClose, ElementName, Trim;
  }

  /**
   * The iterator over written arguments yields each of them once and in order, and every value unescapes
   * to the original without its outer white space: to the original itself exactly when it has none.
   */
  lemma ArgumentsRoundTrip(args: seq<Argument>)
    requires NamesOk(args)
    ensures var found := Arguments(ArgumentsText(args));
            && |found| == |args|
            && forall i | 0 <= i < |args| ::
                 && found[i].name == args[i].name
                 && Unescape(found[i].value) == Trim(args[i].value)
                 && (Unescape(found[i].value) == args[i].value <==> Trimmed(args[i].value))
  {
    hide Arguments, ArgumentsText, Trim, Escape, Unescape, WellFormedName, Trimmed;
    ArgumentsAreYielded(args);
    forall i | 0 <= i < |args|
      ensures Unescape(Trim(Escape(args[i].value))) == Trim(args[i].value)
      ensures Trim(args[i].value) == args[i].value <==> Trimmed(args[i].value)
    {
      TrimOfEscaped(args[i].value);
      EscapeRoundTrip(Trim(args[i].value));
      TrimIsTrimmed(args[i].value);
    }
  }

  // ---------- the service type ----------

  // ":service:" does not occur earlier than after the domain, not even by overlapping it.
  predicate ServiceFirst(domain: Bytes) {
    FindText(domain + ":service:", ":service:") == Some(|domain|)
  }

  lemma OccursInPrefix(a: Bytes, b: Bytes, p: Bytes, i: nat)
    requires i + |p| <= |a|
    ensures OccursAt(a + b, p, i) <==> OccursAt(a, p, i)
  {
    assert (a + b)[i..i + |p|] == a[i..i + |p|];
  }

  lemma FirstServiceIs(domain: Bytes, rest: Bytes)
    ensures FindText(domain + (":service:" + rest), ":service:") == Some(|domain|) <==> ServiceFirst(domain)
  {
    hide FindText, OccursAt;
    var a := domain + ":service:";
    var t := domain + (":service:" + rest);
    assert t == a + rest;
    forall i | 0 <= i <= |domain|
      ensures OccursAt(t, ":service:", i) <==> OccursAt(a, ":service:", i)
    {
      OccursInPrefix(a, rest, ":service:", i);
    }
    assert OccursAt(a, ":service:", |domain|) by { OccursThere(domain, ":service:"); }
    FindsFirst(a, ":service:", |domain|);
    FindsFirst(t, ":service:", |domain|);
  }

  lemma OccursThere(a: Bytes, p: Bytes)
    ensures OccursAt(a + p, p, |a|)
  {
    assert (a + p)[|a|..|a| + |p|] == p;
  }

  lemma FindsFirst(s: Bytes, p: Bytes, n: nat)
    requires OccursAt(s, p, n)
    ensures FindText(s, p) == Some(n) <==> forall i | 0 <= i < n :: !OccursAt(s, p, i)
  {
    hide FindText;
    if forall i | 0 <= i < n :: !OccursAt(s, p, i) {
      FindTextIs(s, p, n);
    }
  }

  lemma LastColonOf(kind: Bytes, version: nat)
    ensures FindLast(kind + (":" + Dec(version)), ':') == Some(|kind|)
  {
    hide Dec, FindLast;
    ColonBefore(kind, Dec(version));
  }

  lemma ColonBefore(a: Bytes, d: Bytes)
    requires AllDigits(d)
    ensures FindLast(a + (":" + d), ':') == Some(|a|)
  {
    hide FindLast;
    var t := a + ([':'] + d);
    PartsAround(a, ':', d);
    forall i | |a| < i < |t|
      ensures t[i] != ':'
    {
      assert t[i] == t[|a| + 1..][i - |a| - 1];
      assert IsDigit(d[i - |a| - 1]);
    }
    LastIs(t, ':', |a|);
  }

  /** A service type comes back from its URN exactly when ":service:" first occurs after its domain. */
  lemma ServiceRoundTrip(s: ServiceType)
    requires s.version < 0x1_0000_0000
    ensures ParseServiceUrn(ServiceUrn(s)) == Ok(s) <==> ServiceFirst(s.domain)
  {
    hide FindText, FindLast, Dec, ParseUint, ServiceFirst, ServiceUrn, ParseServiceUrn;
    var tail := s.kind + (":" + Dec(s.version));
    UrnPieces(s, tail);
    FirstServiceIs(s.domain, tail);
    LastColonOf(s.kind, s.version);
    ParseDec(s.version, 0xFFFF_FFFF);
    ParsedDomain(ServiceUrn(s));
    if ServiceFirst(s.domain) {
      ParsedAt(ServiceUrn(s), |s.domain|, tail, |s.kind|);
    }
  }

  // The domain that is read ends at the first marker.
  lemma ParsedDomain(input: Bytes)
    requires "urn:" <= input
    ensures ParseServiceUrn(input).Ok? ==>
      FindText(input[4..], ":service:") == Some(|ParseServiceUrn(input).value.domain|)
  {
    hide FindText, FindLast, ParseUint;
  }

  lemma ParsedAt(input: Bytes, i: nat, tail: Bytes, j: nat)
    requires "urn:" <= input && FindText(input[4..], ":service:") == Some(i)
    requires i + 9 <= |input[4..]| && tail == input[4..][i + 9..] && j < |tail| && FindLast(tail, ':') == Some(j)
    ensures ParseServiceUrn(input) == match ParseUint(tail[j + 1..], 0xFFFF_FFFF)
                                      case None => Err(InvalidUrn)
                                      case Some(version) => Ok(ServiceType(input[4..][..i], tail[..j], version))
  {
    hide FindText, FindLast, ParseUint;
  }

  lemma UrnPieces(s: ServiceType, tail: Bytes)
    requires tail == s.kind + (":" + Dec(s.version))
    ensures var rest := s.domain + (":service:" + tail);
            && "urn:" <= ServiceUrn(s) && ServiceUrn(s)[4..] == rest
            && rest[|s.domain| + 9..] == tail && rest[..|s.domain|] == s.domain
            && tail[..|s.kind|] == s.kind && tail[|s.kind| + 1..] == Dec(s.version)
  {
    hide Dec;
    Parts("urn:", s.domain + (":service:" + tail));
    PartsBeside(s.domain, ":service:", tail);
    PartsAround(s.kind, ':', Dec(s.version));
  }

  // ---------- the namespace ----------

  ghost predicate NoDeclaration(a: Bytes) {
    ' ' !in a && forall i: nat :: !OccursAt(a, "xmlns:", i)
  }

  lemma DeclarationRead(urn: Bytes)
    requires '"' !in urn
    ensures var candidate := "xmlns:u=\"" + urn + "\"";
            NamespaceAttrLen(candidate, Some("u")) == Some(7) && FindAttrValue(candidate[7..]) == Some(urn)
  {
    hide NamespaceAttrLen, FindAttrValue;
    var t := "=" + ("\"" + (urn + "\""));
    var candidate := "xmlns:" + ("u" + t);
    assert candidate == "xmlns:u=\"" + urn + "\"";
    Parts("xmlns:", "u" + t);
    Parts("u", t);
    assert candidate[7..] == candidate[6..][1..];
    NoSpaceFirst(t);
    NamespaceOfU(candidate, t);
    QuotedValue(urn);
  }

  lemma NamespaceOfU(candidate: Bytes, t: Bytes)
    requires "xmlns:" <= candidate && "u" <= candidate[6..] && candidate[7..] == t && StartsWith(t, '=')
    requires TrimStart(t) == t
    ensures NamespaceAttrLen(candidate, Some("u")) == Some(7)
  {
    hide TrimStart;
    assert candidate[6 + |"u"|..] == t;
    assert "xmlns" <= "xmlns:" <= candidate;
  }

  lemma QuotedValue(urn: Bytes)
    requires '"' !in urn
    ensures FindAttrValue("=" + ("\"" + (urn + "\""))) == Some(urn)
  {
    hide Find, TrimStart;
    var value := urn + "\"";
    var v := "\"" + value;
    var t := "=" + v;
    Parts("=", v);
    Parts("\"", value);
    Parts(urn, "\"");
    NoSpaceFirst(t);
    NoSpaceFirst(v);
    FindIs(value, '"', |urn|);
  }

  lemma NoSpaceFirst(t: Bytes)
    requires t != "" && (t[0] == '=' || t[0] == '"')
    ensures TrimStart(t) == t
  {
  }

  // Where "xmlns" is first found: inside the name, or in the declaration.
  lemma FirstXmlns(a: Bytes, b: Bytes) returns (i: nat)
    requires ' ' !in a && " xmlns" <= b
    ensures FindText(a + b, "xmlns") == Some(i)
    ensures i + 5 <= |a| || i == |a| + 1
  {
    hide FindText;
    var t := a + b;
    assert OccursAt(t, "xmlns", |a| + 1) by {
      assert t[|a| + 1..|a| + 6] == b[1..6] == "xmlns";
    }
    var r := FindText(t, "xmlns");
    i := r.value;
    NoStraddle(t, |a|, i);
    assert i > |a| ==> i == |a| + 1;
  }

  // "xmlns" does not run across a blank.
  lemma NoStraddle(t: Bytes, k: nat, i: nat)
    requires k < |t| && t[k] == ' ' && OccursAt(t, "xmlns", i)
    ensures k < i || i + 5 <= k
  {
    var five := t[i..i + 5];
    assert forall m | i <= m < i + 5 :: t[m] == five[m - i];
    assert forall j | 0 <= j < 5 :: five[j] != ' ';
  }

  lemma {:induction false} NamespaceFound(a: Bytes, urn: Bytes)
    requires NoDeclaration(a) && '"' !in urn
    ensures FindNamespace(a + (" xmlns:u=\"" + urn + "\""), Some("u")) == Some(urn)
    decreases |a|
  {
    hide FindText, NamespaceAttrLen, FindAttrValue, NoDeclaration;
    var b := " xmlns:u=\"" + urn + "\"";
    var t := a + b;
    assert ' ' !in a by { DeclarationSpaces(a); }
    var i := FirstXmlns(a, b);
    var candidate := t[i..];
    if i == |a| + 1 {
      assert candidate == "xmlns:u=\"" + urn + "\"";
      DeclarationRead(urn);
    } else {
      assert candidate == a[i..] + b;
      NotDeclared(a, b, i);
      assert candidate[5..] == a[i + 5..] + b;
      SuffixUndeclared(a, i + 5);
      NamespaceFound(a[i + 5..], urn);
    }
  }

  lemma DeclarationSpaces(a: Bytes)
    requires NoDeclaration(a)
    ensures ' ' !in a
  {
  }

  lemma NotDeclared(a: Bytes, b: Bytes, i: nat)
    requires NoDeclaration(a) && b != "" && b[0] == ' ' && i + 5 <= |a| && "xmlns" <= (a + b)[i..]
    ensures NamespaceAttrLen((a + b)[i..], Some("u")) == None
  {
    var candidate := (a + b)[i..];
    assert candidate[5] == (a + b)[i + 5];
    if i + 5 < |a| {
      var six := a[i..i + 6];
      assert six == candidate[..6] && six == "xmlns" + [a[i + 5]];
      assert !OccursAt(a, "xmlns:", i);
      assert "xmlns:" == "xmlns" + [':'];
    }
  }

  lemma SuffixUndeclared(a: Bytes, n: nat)
    requires NoDeclaration(a) && n <= |a|
    ensures NoDeclaration(a[n..])
  {
    var s := a[n..];
    forall i: nat
      ensures !OccursAt(s, "xmlns:", i)
    {
      if i + 6 <= |s| {
        assert s[i..i + 6] == a[n + i..n + i + 6];
        assert !OccursAt(a, "xmlns:", n + i);
      }
    }
  }

  lemma ActionUndeclared(action: Bytes)
    requires WellFormedName(action)
    ensures NoDeclaration("u:" + action + "Response")
  {
    var a := "u:" + action + "Response";
    forall i | 0 <= i < |a|
      ensures a[i] != ' ' && (a[i] == ':' ==> i == 1)
    {
      if 2 <= i < |action| + 2 {
        assert a[i] == action[i - 2];
      } else if i >= |action| + 2 {
        assert a[i] == "Response"[i - |action| - 2];
      }
    }
    forall i: nat
      ensures !OccursAt(a, "xmlns:", i)
    {
      if i + 6 <= |a| {
        var six := a[i..i + 6];
        assert six[5] == a[i + 5];
      }
    }
  }

  // ---------- the document ----------

  predicate UrnOk(s: ServiceType) {
    s.version < 0x1_0000_0000 && Plain(ServiceUrn(s)) && '"' !in ServiceUrn(s)
  }

  function ResponseName(action: Bytes): Bytes {
    action + "Response"
  }

  lemma ResponseNameOk(action: Bytes)
    requires WellFormedName(action)
    ensures NoSpace(ResponseName(action)) && ':' !in ResponseName(action) && ResponseName(action) != ""
      && ResponseName(action) != "Body"
    ensures Plain(ResponseName(action))
  {
    var r := ResponseName(action);
    forall i | 0 <= i < |r|
      ensures !IsAsciiSpace(r[i]) && r[i] != ':' && r[i] != '<' && r[i] != '>'
    {
      if i < |action| {
        assert r[i] == action[i];
      } else {
        assert r[i] == "Response"[i - |action|];
      }
    }
    assert |r| > 8;
  }

  // The opening tag of the action element, taken apart.
  lemma OpenTagIs(s: ServiceType, action: Bytes)
    requires WellFormedName(action) && UrnOk(s)
    ensures var tag := OpenTag(s, action);
            && Trim(tag) == tag && Plain(tag) && StartsWith(tag, 'u') && EndsWith(tag, '"')
            && ElementName(tag) == Some(ResponseName(action)) && ElementPrefix(tag) == Some("u")
            && FindNamespace(tag, Some("u")) == Some(ServiceUrn(s))
  {
    hide Trim, ElementName, ElementPrefix, FindNamespace, ServiceUrn, WellFormedName, NoDeclaration;
    var urn := ServiceUrn(s);
    var tag := OpenTag(s, action);
    var rest := " xmlns:u=\"" + urn + "\"";
    ResponseNameOk(action);
    OpenTagPieces(action, rest);
    assert tag == "u" + ":" + ResponseName(action) + rest;
    PrefixedName("u", ResponseName(action), rest);
    ActionUndeclared(action);
    NamespaceFound("u:" + action + "Response", urn);
    TagEnds(tag, urn, action);
  }

  lemma OpenTagPieces(action: Bytes, rest: Bytes)
    ensures "u:" + action + "Response" + rest == "u" + ":" + ResponseName(action) + rest
  {
  }

  lemma TagEnds(tag: Bytes, urn: Bytes, action: Bytes)
    requires tag == "u" + ":" + ResponseName(action) + (" xmlns:u=\"" + urn + "\"") && Plain(urn)
      && Plain(ResponseName(action))
    ensures Trim(tag) == tag && Plain(tag) && StartsWith(tag, 'u') && EndsWith(tag, '"')
  {
    hide Trim, ResponseName;
    assert tag[0] == 'u' && tag[|tag| - 1] == '"';
    TrimIsTrimmed(tag);
    PlainSum("u" + ":", ResponseName(action));
    PlainSum(" xmlns:u=\"", urn);
    PlainSum(" xmlns:u=\"" + urn, "\"");
    PlainSum("u" + ":" + ResponseName(action), " xmlns:u=\"" + urn + "\"");
  }

  lemma PlainSum(a: Bytes, b: Bytes)
    requires Plain(a) && Plain(b)
    ensures Plain(a + b)
  {
  }

  // The first child of a body that starts with the action element.
  lemma FirstChildIs(s: ServiceType, action: Bytes, content: Bytes)
    requires WellFormedName(action) && UrnOk(s)
    ensures FirstChild("<" + OpenTag(s, action) + ">" + content) ==
      match FindClose(content, ResponseName(action))
      case None => None
      case Some(p) => Some((OpenTag(s, action), content[..p.0]))
  {
    hide Find, FindClose, ElementName, ElementPrefix, Trim, OpenTag, FindNamespace, WellFormedName, UrnOk;
    OpenTagIs(s, action);
    TagAt(OpenTag(s, action), content);
  }

  // Tags before the body are passed over.
  lemma BodySkips(tag: Bytes, rest: Bytes)
    requires Plain(tag)
    ensures FindElementBody("<" + tag + ">" + rest, "Body") ==
      if ElementName(Trim(tag)) == Some("Body") then
        match FindClose(rest, "Body") case None => None case Some(p) => Some(rest[..p.0])
      else FindElementBody(rest, "Body")
  {
    hide Find, FindClose, ElementName, Trim, FindElementBody;
    TagAt(tag, rest);
    BodyStep("<" + tag + ">" + rest, "Body");
  }

  lemma XmlTag()
    ensures Plain(XML_TAG) && ElementName(Trim(XML_TAG)) != Some("Body")
  {
    hide Trim, FirstToken, LocalPart;
    Ends("?xml", " version=\"1.0\"?");
    TrimIsTrimmed(XML_TAG);
    TokenOf("?xml", " version=\"1.0\"?");
    LocalOf("", "?xml");
  }

  lemma SpacePlain1() ensures Plain(" xmlns:s=\"http://schemas.") {}
  lemma SpacePlain2() ensures Plain("xmlsoap.org/soap/envelope/\"") {}
  lemma StylePlain1() ensures Plain(" s:encodingStyle=\"http://") {}
  lemma StylePlain2() ensures Plain("schemas.xmlsoap.org/soap/encoding/\"") {}

  lemma AttributesArePlain()
    ensures |ENVELOPE_ATTRIBUTES| > 0
    ensures Plain(ENVELOPE_ATTRIBUTES) && ENVELOPE_ATTRIBUTES[0] == ' '
      && ENVELOPE_ATTRIBUTES[|ENVELOPE_ATTRIBUTES| - 1] == '"'
  {
    hide Plain;
    SpacePlain1();
    SpacePlain2();
    StylePlain1();
    StylePlain2();
    PlainSum(" xmlns:s=\"http://schemas.", "xmlsoap.org/soap/envelope/\"");
    PlainSum(" s:encodingStyle=\"http://", "schemas.xmlsoap.org/soap/encoding/\"");
    PlainSum(ENVELOPE_SPACE, ENCODING_STYLE);
  }

  lemma Ends(a: Bytes, b: Bytes)
    requires a != "" && b != ""
    ensures (a + b)[0] == a[0] && (a + b)[|a + b| - 1] == b[|b| - 1]
  {
  }

  lemma EnvelopeTag()
    ensures Plain(ENVELOPE_TAG) && ElementName(Trim(ENVELOPE_TAG)) != Some("Body")
  {
    hide Trim, FirstToken, ElementName, ENVELOPE_ATTRIBUTES;
    AttributesArePlain();
    Ends("s:Envelope", ENVELOPE_ATTRIBUTES);
    TrimIsTrimmed(ENVELOPE_TAG);
    assert ENVELOPE_TAG == "s" + ":" + "Envelope" + ENVELOPE_ATTRIBUTES;
    PrefixedName("s", "Envelope", ENVELOPE_ATTRIBUTES);
    PlainSum("s:Envelope", ENVELOPE_ATTRIBUTES);
  }

  lemma BodyTag()
    ensures Plain(BODY_TAG) && '>' !in BODY_TAG && ElementName(BODY_TAG) == Some("Body") && Trim(BODY_TAG) == BODY_TAG
  {
    hide Trim, FirstToken, ElementName;
    TrimIsTrimmed(BODY_TAG);
    PrefixedName("s", "Body", "");
    assert BODY_TAG == "s" + ":" + "Body" + "";
  }

  // The parser reaches the body, and looks for its end there.
  lemma BodyOf(body: Bytes)
    ensures FindElementBody(ENVELOPE_START + body, "Body") ==
      match FindClose(body, "Body") case None => None case Some(p) => Some(body[..p.0])
  {
    hide FindElementBody, FindClose, ElementName, Trim, XML_TAG, ENVELOPE_TAG, BODY_TAG;
    XmlTag();
    EnvelopeTag();
    BodyTag();
    var r1 := "<" + BODY_TAG + ">" + body;
    var r2 := "<" + ENVELOPE_TAG + ">" + r1;
    StartPieces(body);
    BodySkips(XML_TAG, r2);
    BodySkips(ENVELOPE_TAG, r1);
    BodySkips(BODY_TAG, body);
  }

  lemma StartPieces(body: Bytes)
    ensures ENVELOPE_START + body == "<" + XML_TAG + ">" + ("<" + ENVELOPE_TAG + ">" + ("<" + BODY_TAG + ">" + body))
  {
    hide XML_TAG, ENVELOPE_TAG, BODY_TAG;
  }

  function CloseText(action: Bytes): Bytes {
    "</" + ("u:" + action + "Response") + ">"
  }

  lemma BodyPieces(s: ServiceType, action: Bytes, args: seq<Argument>)
    ensures BodyText(s, action, args) + ENVELOPE_END
      == ("<" + OpenTag(s, action) + ">") + (ArgumentsText(args) + (CloseText(action) + ENVELOPE_END))
    ensures BodyText(s, action, args) ==
      "<" + OpenTag(s, action) + ">" + (ArgumentsText(args) + (CloseText(action) + ""))
  {
    hide OpenTag, ArgumentsText, ENVELOPE_END;
  }

  lemma OpenTagIsQuiet(s: ServiceType, action: Bytes)
    requires WellFormedName(action) && UrnOk(s)
    ensures Quiet("<" + OpenTag(s, action) + ">")
  {
    hide OpenTag, WellFormedName, UrnOk, ElementName, ElementPrefix, FindNamespace, Trim;
    OpenTagIs(s, action);
    var tag := OpenTag(s, action);
    var t := "<" + tag + ">";
    assert t[1] == tag[0];
    forall i | 0 < i < |t|
      ensures t[i] != '<'
    {
      assert i <= |tag| ==> t[i] == tag[i - 1];
    }
  }

  // The closing tag of the action element and, for the body, the one after it.
  lemma ActionCloses(action: Bytes, rest: Bytes)
    requires WellFormedName(action)
    ensures FindClose(CloseText(action) + rest, ResponseName(action)) == Some((0, |CloseText(action)|))
    ensures FindClose(CloseText(action) + ENVELOPE_END, "Body") == Some((|CloseText(action)|, |BODY_TAG| + 3))
  {
    hide FindClose, ElementName, WellFormedName, BODY_TAG;
    var tag := "u:" + action + "Response";
    ResponseNameOk(action);
    PrefixedName("u", ResponseName(action), "");
    OpenTagPieces(action, "");
    assert tag == "u" + ":" + ResponseName(action) + "";
    assert '>' !in tag;
    CloseTag(tag, rest, ResponseName(action));
    CloseTag(tag, ENVELOPE_END, "Body");
    BodyTag();
    CloseTag(BODY_TAG, "</s:Envelope>", "Body");
  }

  // Where the body ends: after the action element, unless an argument is named "Body".
  lemma BodyEnds(s: ServiceType, action: Bytes, args: seq<Argument>)
    requires WellFormedName(action) && UrnOk(s) && NamesOk(args)
    ensures var r := FindClose(BodyText(s, action, args) + ENVELOPE_END, "Body");
            && r.Some?
            && (NoneNamed(args, "Body") ==> r.value.0 == |BodyText(s, action, args)|)
            && (!NoneNamed(args, "Body") ==>
                  |"<" + OpenTag(s, action) + ">"| <= r.value.0 < |"<" + OpenTag(s, action) + ">"
                    + ArgumentsText(args)|)
  {
    hide FindClose, OpenTag, ArgumentsText, ENVELOPE_END, BODY_TAG, Quiet, WellFormedName, UrnOk, CloseText;
    var open := "<" + OpenTag(s, action) + ">";
    var tail := CloseText(action) + ENVELOPE_END;
    BodyPieces(s, action, args);
    OpenTagIsQuiet(s, action);
    CloseAfterQuiet(open, ArgumentsText(args) + tail, "Body");
    CloseOverArguments(args, tail, "Body");
    ActionCloses(action, "");
  }

  // What the parser reads from the body it found.
  lemma ActionRead(s: ServiceType, action: Bytes, inner: Bytes)
    requires WellFormedName(action) && UrnOk(s)
    ensures ActionOf(OpenTag(s, action), inner) ==
      match ParseServiceUrn(ServiceUrn(s))
      case Ok(service) => Ok(Action(service, ResponseName(action), inner))
      case Err(e) => Err(e)
  {
    hide OpenTag, ElementName, ElementPrefix, FindNamespace, ParseServiceUrn, ServiceUrn, Trim, UrnOk, WellFormedName;
    OpenTagIs(s, action);
  }

  /**
   * SOAP round trip. Parsing a written response recovers the service type, the response name and the
   * text of all its arguments exactly when no argument is named like one of the two elements that the
   * parser looks for by local name, and ":service:" does not come early in the domain.
   */
  lemma ResponseRoundTrip(s: ServiceType, action: Bytes, args: seq<Argument>)
    requires WellFormedName(action) && UrnOk(s) && NamesOk(args)
    ensures ParseAction(ResponseDocument(s, action, args)) == Ok(Action(s, ResponseName(action), ArgumentsText(args)))
      <==> NoneNamed(args, "Body") && NoneNamed(args, ResponseName(action)) && ServiceFirst(s.domain)
  {
    hide FindElementBody, FindClose, FirstChild, ActionOf, OpenTag, ArgumentsText, ENVELOPE_START, ENVELOPE_END,
         UrnOk, WellFormedName,
         ParseServiceUrn, ServiceUrn, ServiceFirst, NoneNamed, ResponseName, CloseText, BodyText;
    var open := "<" + OpenTag(s, action) + ">";
    var xml := ArgumentsText(args);
    var text := BodyText(s, action, args);
    DocumentSplits(s, action, args);
    BodyOf(text + ENVELOPE_END);
    BodyEnds(s, action, args);
    BodyPieces(s, action, args);
    UrnOkVersion(s);
    ServiceRoundTrip(s);
    var end := FindClose(text + ENVELOPE_END, "Body").value.0;
    if NoneNamed(args, "Body") {
      assert (text + ENVELOPE_END)[..end] == text;
      var content := xml + (CloseText(action) + "");
      FirstChildIs(s, action, content);
      CloseOverArguments(args, CloseText(action) + "", ResponseName(action));
      ActionCloses(action, "");
      var p := FindClose(content, ResponseName(action));
      ActionRead(s, action, content[..p.value.0]);
      if NoneNamed(args, ResponseName(action)) {
        assert content[..p.value.0] == xml;
      } else {
        assert |content[..p.value.0]| < |xml|;
      }
    } else {
      var content := xml[..end - |open|];
      assert (text + ENVELOPE_END)[..end] == open + content;
      FirstChildIs(s, action, content);
      var p := FindClose(content, ResponseName(action));
      if p.Some? {
        ActionRead(s, action, content[..p.value.0]);
        assert |content[..p.value.0]| < |xml|;
      }
    }
  }

  lemma UrnOkVersion(s: ServiceType)
    requires UrnOk(s)
    ensures s.version < 0x1_0000_0000
  {
  }

  lemma DocumentSplits(s: ServiceType, action: Bytes, args: seq<Argument>)
    ensures ResponseDocument(s, action, args) == ENVELOPE_START + (BodyText(s, action, args) + ENVELOPE_END)
  {
    hide BodyText, ENVELOPE_START, ENVELOPE_END;
  }
}
