/** SOAP control messages: the response writer, and the request parser that scans for substrings. */
module Soap {
  import opened Wrappers
  import opened Text
  import opened Xml

  datatype ServiceType = ServiceType(domain: Bytes, kind: Bytes, version: nat)

  datatype SoapError = MissingBody | MissingAction | MissingNamespace | InvalidUrn | MalformedXml

  datatype Action = Action(service: ServiceType, name: Bytes, argumentsXml: Bytes)

  datatype Argument = Argument(name: Bytes, value: Bytes)

  // ---------- writing ----------

  const XML_TAG: Bytes := "?xml" + " version=\"1.0\"?"
  const ENVELOPE_SPACE: Bytes := " xmlns:s=\"http://schemas." + "xmlsoap.org/soap/envelope/\""
  const ENCODING_STYLE: Bytes := " s:encodingStyle=\"http://" + "schemas.xmlsoap.org/soap/encoding/\""
  const ENVELOPE_ATTRIBUTES: Bytes := ENVELOPE_SPACE + ENCODING_STYLE
  const ENVELOPE_TAG: Bytes := "s:Envelope" + ENVELOPE_ATTRIBUTES
  const BODY_TAG: Bytes := "s:Body"
  const ENVELOPE_START: Bytes := "<" + XML_TAG + ">" + ("<" + ENVELOPE_TAG + ">" + ("<" + BODY_TAG + ">"))
  const ENVELOPE_END: Bytes := "</" + BODY_TAG + ">" + "</s:Envelope>"

  function ServiceUrn(s: ServiceType): Bytes {
    "urn:" + (s.domain + (":service:" + (s.kind + (":" + Dec(s.version)))))
  }

  function ArgumentsText(args: seq<Argument>): Bytes {
    if args == [] then "" else Element(args[0].name, args[0].value) + ArgumentsText(args[1..])
  }

  function OpenTag(s: ServiceType, action: Bytes): Bytes {
    "u:" + action + "Response" + (" xmlns:u=\"" + ServiceUrn(s) + "\"")
  }

  // What stands inside the SOAP body.
  function BodyText(s: ServiceType, action: Bytes, args: seq<Argument>): Bytes {
    "<" + OpenTag(s, action) + ">" + ArgumentsText(args) + "</" + ("u:" + action + "Response") + ">"
  }

  function ResponseDocument(s: ServiceType, action: Bytes, args: seq<Argument>): Bytes {
    ENVELOPE_START + BodyText(s, action, args) + ENVELOPE_END
  }

  method WriteActionResponse(w: Sink, s: ServiceType, action: Bytes, args: seq<Argument>)
    returns (r: Result<(), WriteError>)
    requires w.Valid() && s.version < 0x1_0000_0000
    modifies w
    ensures w.Valid() && Wrote(w.limit, old(w.text), ResponseDocument(s, action, args), w.text, r.Ok?)
  {
    hide ServiceUrn, ArgumentsText, Wrote, Joined, ENVELOPE_START, ENVELOPE_END, ResponseDocument;
    ghost var open, xml, close := Opening(s, action), ArgumentsText(args), Closing(action);
    DocumentPieces(s, action, args);
    r := WriteFmt(w, [ENVELOPE_START, "<u:", action, "Response xmlns:u=\"", ServiceUrn(s), "\">"]);
    JoinedSix(ENVELOPE_START, "<u:", action, "Response xmlns:u=\"", ServiceUrn(s), "\">");
    if r.Err? {
      WroteLess(w.limit, old(w.text), open, w.text, xml + close);
      return;
    }
    ghost var between := w.text;
    r := WriteArguments(w, args);
    if r.Err? {
      WroteLess(w.limit, between, xml, w.text, close);
      WroteMore(w.limit, old(w.text), open, between, xml + close, w.text, false);
      return;
    }
    ghost var filled := w.text;
    r := WriteFmt(w, ["</u:", action, "Response>"] + [ENVELOPE_END]);
    JoinedThree("</u:", action, "Response>");
    JoinedSnoc(["</u:", action, "Response>"], ENVELOPE_END);
    WroteMore(w.limit, between, xml, filled, close, w.text, r.Ok?);
    WroteMore(w.limit, old(w.text), open, between, xml + close, w.text, r.Ok?);
  }

  function Opening(s: ServiceType, action: Bytes): Bytes {
    ENVELOPE_START + "<u:" + action + "Response xmlns:u=\"" + ServiceUrn(s) + "\">"
  }

  function Closing(action: Bytes): Bytes {
    "</u:" + action + "Response>" + ENVELOPE_END
  }

  lemma DocumentPieces(s: ServiceType, action: Bytes, args: seq<Argument>)
    ensures ResponseDocument(s, action, args) == Opening(s, action) + (ArgumentsText(args) + Closing(action))
  {
    hide ServiceUrn, ArgumentsText, ENVELOPE_START, ENVELOPE_END;
    var start, urn, xml, end := ENVELOPE_START, ServiceUrn(s), ArgumentsText(args), ENVELOPE_END;
    var open, close := "<u:" + action + "Response xmlns:u=\"" + urn + "\">", "</u:" + action + "Response>";
    assert "<" + OpenTag(s, action) + ">" == open && "</" + ("u:" + action + "Response") + ">" == close;
    assert BodyText(s, action, args) == open + xml + close;
    assert Opening(s, action) == start + open && Closing(action) == close + end;
    assert start + (open + xml + close) + end == (start + open) + (xml + (close + end));
  }

  // The arguments in turn, up to the first that is refused.
  method WriteArguments(w: Sink, args: seq<Argument>) returns (r: Result<(), WriteError>)
    requires w.Valid()
    modifies w
    ensures w.Valid() && Wrote(w.limit, old(w.text), ArgumentsText(args), w.text, r.Ok?)
  {
    hide ArgumentsText, Element, Wrote;
    NoArguments();
    NothingWrote(w.limit, w.text);
    for i := 0 to |args|
      invariant w.Valid() && Wrote(w.limit, old(w.text), ArgumentsText(args[..i]), w.text, true)
    {
      ghost var before := w.text;
      r := WriteTextElement(w, args[i].name, args[i].value);
      ArgumentsSnoc(args[..i], args[i]);
      assert args[..i + 1] == args[..i] + [args[i]];
      WroteMore(w.limit, old(w.text), ArgumentsText(args[..i]), before, Element(args[i].name, args[i].value), w.text,
        r.Ok?);
      if r.Err? {
        ArgumentsSplit(args, i + 1);
        WroteLess(w.limit, old(w.text), ArgumentsText(args[..i + 1]), w.text, ArgumentsText(args[i + 1..]));
        return;
      }
    }
    assert args[..|args|] == args;
    return Ok(());
  }

  lemma NoArguments()
    ensures ArgumentsText([]) == ""
  {
  }

  lemma {:induction false} ArgumentsSplit(args: seq<Argument>, i: nat)
    requires i <= |args|
    ensures ArgumentsText(args) == ArgumentsText(args[..i]) + ArgumentsText(args[i..])
    decreases |args| - i
  {
    hide Element;
    NoArguments();
    if i == |args| {
      assert args[..i] == args;
    } else {
      ArgumentsSplit(args, i + 1);
      ArgumentsSnoc(args[..i], args[i]);
      assert args[..i + 1] == args[..i] + [args[i]] && args[i..][1..] == args[i + 1..];
    }
  }

  // The envelope is that of SOAP 1.1; its two addresses stand here in two pieces each.
  lemma EnvelopeIs()
    ensures ENVELOPE_START == EnvelopeOf(
      " xmlns:s=\"http://schemas." + "xmlsoap.org/soap/envelope/\"",
      " s:encodingStyle=\"http://" + "schemas.xmlsoap.org/soap/encoding/\"")
    ensures ENVELOPE_END == "</s:Body></s:Envelope>"
  {
    hide ENVELOPE_SPACE, ENCODING_STYLE;
    EnvelopeAttributes();
    assert XML_TAG == "?xml version=\"1.0\"?";
    EnvelopeJoins(ENVELOPE_SPACE, ENCODING_STYLE);
  }

  function EnvelopeOf(space: Bytes, style: Bytes): Bytes {
    "<?xml version=\"1.0\"?>" + "<s:Envelope" + space + style + ">" + "<s:Body>"
  }

  lemma EnvelopeAttributes()
    ensures ENVELOPE_SPACE == " xmlns:s=\"http://schemas." + "xmlsoap.org/soap/envelope/\""
    ensures ENCODING_STYLE == " s:encodingStyle=\"http://" + "schemas.xmlsoap.org/soap/encoding/\""
  {
  }

  lemma EnvelopeJoins(space: Bytes, style: Bytes)
    ensures EnvelopeOf(space, style) ==
      "<" + "?xml version=\"1.0\"?" + ">" + ("<" + ("s:Envelope" + (space + style)) + ">" + ("<" + "s:Body" + ">"))
  {
  }

  /** The response document around its arguments (UPnP Device Architecture 1.1, section 3.1.2). */
  lemma DocumentIs(s: ServiceType, action: Bytes, args: seq<Argument>)
    ensures var urn := "urn:" + s.domain + ":service:" + s.kind + ":" + Dec(s.version);
            ResponseDocument(s, action, args) ==
              ENVELOPE_START
              + ("<u:" + action + "Response xmlns:u=\"" + urn + "\">"
              + ArgumentsText(args) + ("</u:" + action + "Response>"))
              + "</s:Body></s:Envelope>"
  {
    hide ENVELOPE_START, ENVELOPE_END, ArgumentsText, Dec, ServiceUrn, ResponseDocument;
    UrnIs(s);
    DocumentPieces(s, action, args);
    EndIs();
    DocumentJoins(ENVELOPE_START, "<u:", action, "Response xmlns:u=\"", ServiceUrn(s), "\">", ArgumentsText(args),
                  "</u:" + action + "Response>", ENVELOPE_END);
  }

  lemma EndIs()
    ensures ENVELOPE_END == "</s:Body></s:Envelope>"
  {
  }

  lemma UrnIs(s: ServiceType)
    ensures ServiceUrn(s) == "urn:" + s.domain + ":service:" + s.kind + ":" + Dec(s.version)
  {
    hide Dec;
  }

  lemma DocumentJoins(start: Bytes, a: Bytes, action: Bytes, b: Bytes, urn: Bytes, c: Bytes, xml: Bytes, close: Bytes,
                      end: Bytes)
    ensures start + a + action + b + urn + c + (xml + (close + end))
      == start + (a + action + b + urn + c + xml + close) + end
  {
  }

  /** An argument, escaped, in its element; all of them in order. */
  lemma ArgumentsIs(name: Bytes, value: Bytes, rest: seq<Argument>)
    ensures ArgumentsText([]) == ""
    ensures ArgumentsText([Argument(name, value)] + rest) ==
      "<" + name + ">" + Escape(value) + "</" + name + ">" + ArgumentsText(rest)
  {
    assert ([Argument(name, value)] + rest)[1..] == rest;
  }

  lemma {:induction false} ArgumentsSnoc(args: seq<Argument>, a: Argument)
    ensures ArgumentsText(args + [a]) == ArgumentsText(args) + Element(a.name, a.value)
  {
    hide Element;
    if args == [] {
      assert [a][1..] == [];
      assert args + [a] == [a];
    } else {
      assert (args + [a])[0] == args[0] && (args + [a])[1..] == args[1..] + [a];
      ArgumentsSnoc(args[1..], a);
    }
  }

  // ---------- names in tags ----------

  // The text up to the first ASCII white space, after any at the start.
  function FirstToken(tag: Bytes): Option<Bytes> {
    var t := tag[Span(tag, IsAsciiSpace)..];
    var n := Span(t, c => !IsAsciiSpace(c));
    if n == 0 then None else Some(t[..n])
  }

  // The last position of `c`, if any.
  function FindLast(s: Bytes, c: char): (r: Option<nat>)
    ensures r.Some? ==> r.value < |s| && s[r.value] == c && forall i | r.value < i < |s| :: s[i] != c
    ensures r.None? ==> forall i | 0 <= i < |s| :: s[i] != c
  {
    var n := |s|;
    if n == 0 then None
    else if s[n - 1] == c then Some(n - 1)
    else
      assert forall i | 0 <= i < n - 1 :: s[i] == s[..n - 1][i];
      FindLast(s[..n - 1], c)
  }

  function LocalPart(name: Bytes): Bytes {
    match FindLast(name, ':') case None => name case Some(i) => name[i + 1..]
  }

  function ElementName(tag: Bytes): Option<Bytes> {
    match FirstToken(tag)
    case None => None
    case Some(t) => if LocalPart(t) == "" then None else Some(LocalPart(t))
  }

  function ElementPrefix(tag: Bytes): Option<Bytes> {
    match FirstToken(tag)
    case None => None
    case Some(t) => if Find(t, ':') == |t| then None else Some(t[..Find(t, ':')])
  }

  // ---------- scanning ----------

  function Shift(d: nat, r: Option<(nat, nat)>): Option<(nat, nat)> {
    match r case None => None case Some(p) => Some((d + p.0, p.1))
  }

  // Where the first closing tag for `name` starts, and its length.
  function FindClose(input: Bytes, name: Bytes): (r: Option<(nat, nat)>)
    ensures r.Some? ==> r.value.0 + r.value.1 <= |input|
    decreases |input|
  {
    match FindText(input, "</")
    case None => None
    case Some(start) =>
      var after := input[start + 2..];
      var end := Find(after, '>');
      if end == |after| then None
      else if ElementName(after[..end]) == Some(name) then Some((start, end + 3))
      else Shift(start + end + 3, FindClose(after[end + 1..], name))
  }

  // The text between the first opening tag for `name` and the first closing one after it.
  function FindElementBody(input: Bytes, name: Bytes): Option<Bytes>
    decreases |input|
  {
    var start := Find(input, '<');
    if start == |input| then None
    else
      var after := input[start + 1..];
      var end := Find(after, '>');
      if end == |after| then None
      else
        var content := after[end + 1..];
        if ElementName(Trim(after[..end])) == Some(name) then
          match FindClose(content, name) case None => None case Some(p) => Some(content[..p.0])
        else FindElementBody(content, name)
  }

  predicate EndsWith(s: Bytes, c: char) {
    s != "" && s[|s| - 1] == c
  }

  predicate StartsWith(s: Bytes, c: char) {
    s != "" && s[0] == c
  }

  // The tag of the first element and the text inside it.
  function FirstChild(input: Bytes): Option<(Bytes, Bytes)> {
    var start := Find(input, '<');
    if start == |input| then None
    else
      var after := input[start + 1..];
      var end := Find(after, '>');
      if end == |after| then None
      else
        var tag := Trim(after[..end]);
        if StartsWith(tag, '/') || StartsWith(tag, '!') || StartsWith(tag, '?') || EndsWith(tag, '/') then None
        else
          match ElementName(tag)
          case None => None
          case Some(name) =>
            var content := after[end + 1..];
            match FindClose(content, name) case None => None case Some(p) => Some((tag, content[..p.0]))
  }

  function NamespaceAttrLen(candidate: Bytes, prefix: Option<Bytes>): (r: Option<nat>)
    requires "xmlns" <= candidate
    ensures r.Some? ==> r.value <= |candidate|
  {
    match prefix
    case Some(p) =>
      if !("xmlns:" <= candidate) || !(p <= candidate[6..]) then None
      else if StartsWith(TrimStart(candidate[6 + |p|..]), '=') then Some(6 + |p|) else None
    case None => if StartsWith(TrimStart(candidate[5..]), '=') then Some(5) else None
  }

  function FindAttrValue(afterName: Bytes): Option<Bytes> {
    var t := TrimStart(afterName);
    if !StartsWith(t, '=') then None
    else
      var v := TrimStart(t[1..]);
      if !StartsWith(v, '"') && !StartsWith(v, '\'') then None
      else
        var value := v[1..];
        var end := Find(value, v[0]);
        if end == |value| then None else Some(value[..end])
  }

  function FindNamespace(tag: Bytes, prefix: Option<Bytes>): Option<Bytes>
    decreases |tag|
  {
    match FindText(tag, "xmlns")
    case None => None
    case Some(i) =>
      var candidate := tag[i..];
      var len := NamespaceAttrLen(candidate, prefix);
      if len.Some? && FindAttrValue(candidate[len.value..]).Some? then FindAttrValue(candidate[len.value..])
      else FindNamespace(candidate[5..], prefix)
  }

  function ParseServiceUrn(input: Bytes): Result<ServiceType, SoapError> {
    if !("urn:" <= input) then Err(InvalidUrn)
    else
      var rest := input[4..];
      match FindText(rest, ":service:")
      case None => Err(InvalidUrn)
      case Some(i) =>
        var tail := rest[i + 9..];
        match FindLast(tail, ':')
        case None => Err(InvalidUrn)
        case Some(j) =>
          match ParseUint(tail[j + 1..], 0xFFFF_FFFF)
          case None => Err(InvalidUrn)
          case Some(version) => Ok(ServiceType(rest[..i], tail[..j], version))
  }

  // The action named by the first element of the body.
  function ActionOf(tag: Bytes, inner: Bytes): Result<Action, SoapError> {
    match ElementName(tag)
    case None => Err(MalformedXml)
    case Some(name) =>
      match FindNamespace(tag, ElementPrefix(tag))
      case None => Err(MissingNamespace)
      case Some(urn) => var service :- ParseServiceUrn(urn); Ok(Action(service, name, inner))
  }

  function ParseAction(input: Bytes): Result<Action, SoapError> {
    match FindElementBody(input, "Body")
    case None => Err(MissingBody)
    case Some(body) =>
      match FirstChild(body)
      case None => Err(MissingAction)
      case Some(p) => ActionOf(p.0, p.1)
  }

  // ---------- arguments ----------

  // The next argument, and what is left to read.
  function NextArgument(rest: Bytes): (r: (Option<Argument>, Bytes))
    ensures |r.1| <= |rest| && (r.0.Some? ==> |r.1| < |rest|)
    decreases |rest|
  {
    var start := Find(rest, '<');
    if start == |rest| then (None, rest)
    else
      var after := rest[start + 1..];
      if StartsWith(after, '/') || StartsWith(after, '!') || StartsWith(after, '?') then NextArgument(after[1..])
      else
        var end := Find(after, '>');
        if end == |after| then (None, rest)
        else
          var tag := Trim(after[..end]);
          var content := after[end + 1..];
          if EndsWith(tag, '/') then NextArgument(content)
          else
            match ElementName(tag)
            case None => (None, rest)
            case Some(name) =>
              match FindClose(content, name)
              case None => (None, rest)
              case Some(p) => (Some(Argument(name, Trim(content[..p.0]))), content[p.0 + p.1..])
  }

  function Arguments(rest: Bytes): seq<Argument>
    decreases |rest|
  {
    var (a, next) := NextArgument(rest);
    if a.None? then [] else [a.value] + Arguments(next)
  }

  // ---------- the scanners as loops ----------

  // One closing tag further.
  lemma FindCloseStep(input: Bytes, name: Bytes, start: nat, end: nat)
    requires FindText(input, "</") == Some(start) && end == Find(input[start + 2..], '>') < |input[start + 2..]|
    ensures var after := input[start + 2..];
            FindClose(input, name) ==
              if ElementName(after[..end]) == Some(name) then Some((start, end + 3))
              else Shift(start + end + 3, FindClose(after[end + 1..], name))
  {
    hide ElementName, FindText, Find, Shift;
  }

  lemma FindCloseStops(input: Bytes, name: Bytes)
    ensures FindText(input, "</").None? ==> FindClose(input, name) == None
    ensures FindText(input, "</").Some? ==>
      var after := input[FindText(input, "</").value + 2..];
      Find(after, '>') == |after| ==> FindClose(input, name) == None
  {
    hide ElementName, FindText, Find;
  }

  method FindCloseForName(input: Bytes, name: Bytes) returns (r: Option<(nat, nat)>)
    ensures r == FindClose(input, name)
  {
    hide ElementName, FindClose, FindText, Find;
    var rest, offset := input, 0;
    while true
      invariant FindClose(input, name) == Shift(offset, FindClose(rest, name))
      decreases |rest|
    {
      FindCloseStops(rest, name);
      var start := FindText(rest, "</");
      if start.None? {
        return None;
      }
      var after := rest[start.value + 2..];
      var end := Find(after, '>');
      if end == |after| {
        return None;
      }
      FindCloseStep(rest, name, start.value, end);
      if ElementName(after[..end]) == Some(name) {
        return Some((offset + start.value, 2 + end + 1));
      }
      offset := offset + start.value + 2 + end + 1;
      rest := after[end + 1..];
    }
  }

  // One opening tag further.
  lemma BodyStep(input: Bytes, name: Bytes)
    requires Find(input, '<') < |input|
    ensures var after := input[Find(input, '<') + 1..];
            var end := Find(after, '>');
            end < |after| ==>
              var content := after[end + 1..];
              FindElementBody(input, name) ==
                if ElementName(Trim(after[..end])) == Some(name) then
                  match FindClose(content, name) case None => None case Some(p) => Some(content[..p.0])
                else FindElementBody(content, name)
  {
    hide Find, FindClose, ElementName, Trim;
  }

  method FindBody(input: Bytes, name: Bytes) returns (r: Option<Bytes>)
    ensures r == FindElementBody(input, name)
  {
    hide ElementName, FindClose, Trim, Find;
    var rest := input;
    while true
      invariant FindElementBody(input, name) == FindElementBody(rest, name)
      decreases |rest|
    {
      var start := Find(rest, '<');
      if start == |rest| {
        return None;
      }
      var after := rest[start + 1..];
      var end := Find(after, '>');
      if end == |after| {
        return None;
      }
      var tag := Trim(after[..end]);
      if ElementName(tag) == Some(name) {
        var content := after[end + 1..];
        var close := FindCloseForName(content, name);
        return if close.None? then None else Some(content[..close.value.0]);
      }
      rest := after[end + 1..];
    }
  }

  method FindNamespaceIn(tag: Bytes, prefix: Option<Bytes>) returns (r: Option<Bytes>)
    ensures r == FindNamespace(tag, prefix)
  {
    hide NamespaceAttrLen, FindAttrValue, FindText;
    var rest := tag;
    while true
      invariant FindNamespace(tag, prefix) == FindNamespace(rest, prefix)
      decreases |rest|
    {
      var i := FindText(rest, "xmlns");
      if i.None? {
        return None;
      }
      var candidate := rest[i.value..];
      var len := NamespaceAttrLen(candidate, prefix);
      if len.Some? {
        var value := FindAttrValue(candidate[len.value..]);
        if value.Some? {
          return value;
        }
      }
      rest := candidate[5..];
    }
  }

  method ParseActionRequest(input: Bytes) returns (r: Result<Action, SoapError>)
    ensures r == ParseAction(input)
  {
    hide FindElementBody, FirstChild, FindNamespace, ElementName, ElementPrefix, ParseServiceUrn;
    var body := FindBody(input, "Body");
    if body.None? {
      return Err(MissingBody);
    }
    var child := FirstChild(body.value);
    if child.None? {
      return Err(MissingAction);
    }
    var (tag, inner) := child.value;
    var name := ElementName(tag);
    if name.None? {
      return Err(MalformedXml);
    }
    var urn := FindNamespaceIn(tag, ElementPrefix(tag));
    if urn.None? {
      return Err(MissingNamespace);
    }
    var service := ParseServiceUrn(urn.value);
    return if service.Err? then Err(service.error) else Ok(Action(service.value, name.value, inner));
  }

  // What the next tag means for the iterator.
  lemma NextArgumentStep(rest: Bytes, start: nat, after: Bytes)
    requires start == Find(rest, '<') < |rest| && after == rest[start + 1..]
    ensures
      if StartsWith(after, '/') || StartsWith(after, '!') || StartsWith(after, '?') then
        NextArgument(rest) == NextArgument(after[1..])
      else
        var end := Find(after, '>');
        if end == |after| then NextArgument(rest) == (None, rest)
        else
          var tag, content := Trim(after[..end]), after[end + 1..];
          if EndsWith(tag, '/') then NextArgument(rest) == NextArgument(content)
          else NextArgument(rest) == TakeArgument(rest, ElementName(tag), content)
  {
    hide ElementName, FindClose, Trim, Find;
  }

  function TakeArgument(rest: Bytes, name: Option<Bytes>, content: Bytes): (Option<Argument>, Bytes) {
    match name
    case None => (None, rest)
    case Some(n) =>
      match FindClose(content, n)
      case None => (None, rest)
      case Some(p) => (Some(Argument(n, Trim(content[..p.0]))), content[p.0 + p.1..])
  }

  lemma NextArgumentEnds(rest: Bytes)
    requires Find(rest, '<') == |rest|
    ensures NextArgument(rest) == (None, rest)
  {
  }

  class ArgumentIter {
    var rest: Bytes

    constructor (xml: Bytes)
      ensures rest == xml
    {
      rest := xml;
    }

    method Next() returns (r: Option<Argument>)
      modifies this
      ensures (r, rest) == NextArgument(old(rest))
    {
      hide ElementName, FindClose, Trim, Find, NextArgument;
      while true
        invariant NextArgument(rest) == NextArgument(old(rest))
        decreases |rest|
      {
        var start := Find(rest, '<');
        if start == |rest| {
          NextArgumentEnds(rest);
          return None;
        }
        var after := rest[start + 1..];
        NextArgumentStep(rest, start, after);
        if StartsWith(after, '/') || StartsWith(after, '!') || StartsWith(after, '?') {
          rest := after[1..];
          continue;
        }
        var end := Find(after, '>');
        if end == |after| {
          return None;
        }
        var tag := Trim(after[..end]);
        if EndsWith(tag, '/') {
          rest := after[end + 1..];
          continue;
        }
        var name := ElementName(tag);
        if name.None? {
          return None;
        }
        var content := after[end + 1..];
        var close := FindCloseForName(content, name.value);
        if close.None? {
          return None;
        }
        var value := Trim(content[..close.value.0]);
        rest := content[close.value.0 + close.value.1..];
        return Some(Argument(name.value, value));
      }
    }
  }
}
