/**
 * HTTP field lines (sections 3.2 and 3.2.4 of RFC 7230): the splitter the SSDP parser takes from
 * its HTTP library, stated here as a contract, and the printer its encoders amount to.
 */
module Http {
  import opened Wrappers
  import opened Text

  const CRLF: Bytes := "\r\n"
  const MAX_HEADERS := 32

  datatype Header = Header(name: Bytes, value: Bytes)

  // "tchar" of RFC 7230.
  predicate IsTokenChar(c: char) {
    || 'a' <= c <= 'z' || 'A' <= c <= 'Z' || IsDigit(c)
    || c == '!' || '#' <= c <= '\'' || c == '*' || c == '+' || c == '-' || c == '.'
    || c == '^' || c == '_' || c == '`' || c == '|' || c == '~'
  }

  predicate IsBlank(c: char) {
    c == ' ' || c == '\t'
  }

  // Visible characters, blanks and obs-text; no control characters.
  predicate IsFieldChar(c: char) {
    (' ' <= c && c as int < 256 && c as int != 127) || c == '\t'
  }

  // A value that survives a trip through a field line unchanged.
  predicate CleanValue(v: Bytes) {
    && (forall i | 0 <= i < |v| :: IsFieldChar(v[i]))
    && (v != [] ==> !IsBlank(v[0]) && !IsBlank(v[|v| - 1]))
  }

  predicate CleanName(n: Bytes) {
    n != [] && forall i | 0 <= i < |n| :: IsTokenChar(n[i])
  }

  predicate CleanHeader(h: Header) {
    CleanName(h.name) && CleanValue(h.value)
  }

  function DropBlanksAtEnd(v: Bytes): (r: Bytes)
    ensures r <= v
    ensures r != [] ==> !IsBlank(r[|r| - 1])
  {
    if v != [] && IsBlank(v[|v| - 1]) then DropBlanksAtEnd(v[..|v| - 1]) else v
  }

  // Width of the line ending at the start of `s`: CRLF, or a bare LF, which is tolerated.
  function LineEnd(s: Bytes): (w: nat)
    ensures w <= |s|
  {
    if s == [] then 0
    else if s[0] == '\n' then 1
    else if |s| >= 2 && s[0] == '\r' && s[1] == '\n' then 2
    else 0
  }

  // The value after a colon, up to and including its line ending, and the octets it occupies.
  function FieldValue(s: Bytes): (r: Option<(Bytes, nat)>)
    ensures r.Some? ==> 0 < r.value.1 <= |s| && CleanValue(r.value.0)
  {
    var b := Span(s, IsBlank);
    var t := s[b..];
    var e := Span(t, IsFieldChar);
    var w := LineEnd(t[e..]);
    if w == 0 then None
    else
      var value := DropBlanksAtEnd(t[..e]);
      assert forall i | 0 <= i < |value| :: value[i] == t[..e][i] == t[i];
      Some((value, b + e + w))
  }

  lemma TokensAreName(s: Bytes, n: nat)
    requires 0 < n <= |s| && forall i | 0 <= i < n :: IsTokenChar(s[i])
    ensures CleanName(s[..n])
  {
  }

  // One field line at the start of `s`: the field and the octets it occupies.
  function FieldLine(s: Bytes): (r: Option<(Header, nat)>)
    ensures r.Some? ==> 0 < r.value.1 <= |s| && CleanHeader(r.value.0)
  {
    var n := Span(s, IsTokenChar);
    if n == 0 || n == |s| || s[n] != ':' then None
    else
      assert CleanName(s[..n]) by { hide *; TokensAreName(s, n); }
      match FieldValue(s[n + 1..])
      case None => None
      case Some((v, used)) => Some((Header(s[..n], v), n + 1 + used))
  }

  /** The field lines of `s` up to the empty line; None when malformed, unterminated or too many. */
  function SplitHeaders(s: Bytes, room: nat): (r: Option<seq<Header>>)
    ensures r.Some? ==> |r.value| <= room && forall h <- r.value :: CleanHeader(h)
    decreases room
  {
    if s == [] then None
    else if s[0] == '\r' || s[0] == '\n' then
      if LineEnd(s) > 0 then Some([]) else None
    else if room == 0 then None
    else
      match FieldLine(s)
      case None => None
      case Some((h, used)) =>
        match SplitHeaders(s[used..], room - 1)
        case None => None
        case Some(rest) => Some([h] + rest)
  }

  function RenderHeader(h: Header): Bytes {
    h.name + ": " + h.value + CRLF
  }

  function RenderHeaders(hs: seq<Header>): Bytes {
    if hs == [] then [] else RenderHeader(hs[0]) + RenderHeaders(hs[1..])
  }

  lemma {:induction false} RenderHeadersJoin(a: seq<Header>, b: seq<Header>)
    ensures RenderHeaders(a + b) == RenderHeaders(a) + RenderHeaders(b)
  {
    if a == [] {
      assert a + b == b;
    } else {
      assert (a + b)[1..] == a[1..] + b;
      RenderHeadersJoin(a[1..], b);
    }
  }

  lemma DropBlanksAtEndOfClean(v: Bytes)
    requires v != [] ==> !IsBlank(v[|v| - 1])
    ensures DropBlanksAtEnd(v) == v
  {
  }

  lemma FieldValueOfRendered(v: Bytes, rest: Bytes)
    requires CleanValue(v)
    ensures FieldValue(" " + v + CRLF + rest) == Some((v, |v| + 3))
  {
    hide Span, DropBlanksAtEnd, IsFieldChar;
    var s := " " + v + CRLF + rest;
    var t := v + (CRLF + rest);
    assert s[0] == ' ' && s[1..] == t;
    SpanIs(s, IsBlank, 1) by {
      assert s[1] == t[0] == if v == [] then '\r' else v[0];
    }
    ValueSpan(v, CRLF + rest);
    assert t[..|v|] == v && t[|v|..] == CRLF + rest;
    DropBlanksAtEndOfClean(v);
  }

  lemma ValueSpan(v: Bytes, rest: Bytes)
    requires CleanValue(v) && rest != [] && rest[0] == '\r'
    ensures Span(v + rest, IsFieldChar) == |v|
  {
    hide Span;
    var t := v + rest;
    assert forall i | 0 <= i < |v| :: t[i] == v[i];
    assert t[|v|] == rest[0];
    SpanIs(t, IsFieldChar, |v|);
  }

  lemma FieldLineOfRendered(h: Header, rest: Bytes)
    requires CleanHeader(h)
    ensures FieldLine(RenderHeader(h) + rest) == Some((h, |RenderHeader(h)|))
  {
    hide FieldLine, FieldValue, Span;
    var after := " " + h.value + CRLF + rest;
    var s := h.name + ":" + after;
    RenderHeaderShape(h, rest);
    FieldValueOfRendered(h.value, rest);
    FieldLineAt(s, |h.name|);
    assert s[..|h.name|] == h.name && s[|h.name| + 1..] == after;
  }

  lemma RenderHeaderShape(h: Header, rest: Bytes)
    ensures RenderHeader(h) + rest == h.name + ":" + (" " + h.value + CRLF + rest)
  {
  }

  lemma FieldLineAt(s: Bytes, n: nat)
    requires 0 < n < |s| && s[n] == ':' && forall i | 0 <= i < n :: IsTokenChar(s[i])
    ensures FieldLine(s) == match FieldValue(s[n + 1..])
                            case None => None
                            case Some((v, used)) => Some((Header(s[..n], v), n + 1 + used))
  {
    SpanIs(s, IsTokenChar, n);
  }

  lemma SplitOfEmptyLine(room: nat)
    ensures SplitHeaders(CRLF, room) == Some([])
  {
  }

  lemma SplitStep(s: Bytes, room: nat, h: Header, used: nat, rest: seq<Header>)
    requires s != [] && IsTokenChar(s[0]) && room > 0
    requires FieldLine(s) == Some((h, used))
    requires SplitHeaders(s[used..], room - 1) == Some(rest)
    ensures SplitHeaders(s, room) == Some([h] + rest)
  {
    hide FieldLine;
  }

  /** Splitting inverts printing. */
  lemma {:induction false} SplitOfRendered(hs: seq<Header>, room: nat)
    requires |hs| <= room
    requires forall h <- hs :: CleanHeader(h)
    ensures SplitHeaders(RenderHeaders(hs) + CRLF, room) == Some(hs)
  {
    hide FieldLine, SplitHeaders, IsTokenChar;
    if hs == [] {
      assert RenderHeaders(hs) + CRLF == CRLF;
      SplitOfEmptyLine(room);
    } else {
      var h := hs[0];
      var rest := RenderHeaders(hs[1..]) + CRLF;
      var s := RenderHeaders(hs) + CRLF;
      assert s == RenderHeader(h) + rest;
      FieldLineOfRendered(h, rest);
      assert s[0] == h.name[0] && IsTokenChar(h.name[0]);
      assert s[|RenderHeader(h)|..] == rest;
      SplitOfRendered(hs[1..], room - 1);
      SplitStep(s, room, h, |RenderHeader(h)|, hs[1..]);
      assert [h] + hs[1..] == hs;
    }
  }

  // ---------- lines as others may write them ----------

  // A field line with any blanks around its value, ended by CRLF or a bare LF.
  datatype Loose = Loose(h: Header, pre: Bytes, post: Bytes, bare: bool)

  predicate LooseOk(l: Loose) {
    CleanHeader(l.h) && Blanks(l.pre) && Blanks(l.post)
  }

  function Eol(bare: bool): Bytes {
    if bare then "\n" else "\r\n"
  }

  function LooseLine(l: Loose): Bytes {
    l.h.name + (":" + (l.pre + (l.h.value + (l.post + Eol(l.bare)))))
  }

  function LooseText(ls: seq<Loose>): Bytes {
    if ls == [] then "" else LooseLine(ls[0]) + LooseText(ls[1..])
  }

  function HeadersOf(ls: seq<Loose>): seq<Header> {
    seq(|ls|, i requires 0 <= i < |ls| => ls[i].h)
  }

  lemma EolWidth(bare: bool, rest: Bytes)
    ensures LineEnd(Eol(bare) + rest) == |Eol(bare)| > 0 && Eol(bare) + rest != ""
    ensures var c := (Eol(bare) + rest)[0]; !IsBlank(c) && !IsFieldChar(c)
  {
    var s := Eol(bare) + rest;
    assert s[0] == Eol(bare)[0] && (!bare ==> s[1] == '\n');
  }

  lemma {:induction false} BlanksDrop(v: Bytes, post: Bytes)
    requires Blanks(post)
    ensures DropBlanksAtEnd(v + post) == DropBlanksAtEnd(v)
  {
    if post == "" {
      assert v + post == v;
    } else {
      var s := v + post;
      assert s[..|s| - 1] == v + post[..|post| - 1];
      BlanksDrop(v, post[..|post| - 1]);
    }
  }

  lemma BlankSpan(pre: Bytes, t: Bytes)
    requires Blanks(pre) && t != "" && !IsBlank(t[0])
    ensures Span(pre + t, IsBlank) == |pre| && (pre + t)[|pre|..] == t
  {
    hide Span;
    Parts(pre, t);
    assert (pre + t)[|pre|] == t[0];
    SpanIs(pre + t, IsBlank, |pre|);
  }

  lemma FieldSpan(v: Bytes, t: Bytes)
    requires (forall i | 0 <= i < |v| :: IsFieldChar(v[i])) && t != "" && !IsFieldChar(t[0])
    ensures Span(v + t, IsFieldChar) == |v| && (v + t)[..|v|] == v && (v + t)[|v|..] == t
  {
    hide Span, IsFieldChar;
    Parts(v, t);
    assert (v + t)[|v|] == t[0];
    SpanIs(v + t, IsFieldChar, |v|);
  }

  lemma PaddedIsField(v: Bytes, post: Bytes)
    requires CleanValue(v) && Blanks(post)
    ensures forall i | 0 <= i < |v + post| :: IsFieldChar((v + post)[i])
    ensures DropBlanksAtEnd(v + post) == v
  {
    hide DropBlanksAtEnd;
    BlanksDrop(v, post);
    DropBlanksAtEndOfClean(v);
  }

  lemma FieldValueOfLoose(pre: Bytes, v: Bytes, post: Bytes, bare: bool, rest: Bytes)
    requires CleanValue(v) && Blanks(pre) && Blanks(post)
    ensures FieldValue(pre + (v + post + (Eol(bare) + rest))) == Some((v, |pre| + |v| + |post| + |Eol(bare)|))
  {
    hide FieldValue, CleanValue, Eol, Blanks;
    if v == "" {
      BlanksJoin(pre, post);
      EmptyValue(pre + post, bare, rest);
      assert pre + ("" + post + (Eol(bare) + rest)) == (pre + post) + (Eol(bare) + rest);
    } else {
      FullValue(pre, v, post, bare, rest);
    }
  }

  lemma EmptyValue(blanks: Bytes, bare: bool, rest: Bytes)
    requires Blanks(blanks)
    ensures FieldValue(blanks + (Eol(bare) + rest)) == Some(("", |blanks| + |Eol(bare)|))
  {
    hide Span, IsFieldChar, Eol, FieldValue, Blanks;
    var end := Eol(bare) + rest;
    EolWidth(bare, rest);
    assert "" + end == end;
    BlankSpan(blanks, end);
    FieldSpan("", end);
    FieldValueIs(blanks, "", end);
  }

  lemma FullValue(pre: Bytes, v: Bytes, post: Bytes, bare: bool, rest: Bytes)
    requires CleanValue(v) && v != "" && Blanks(pre) && Blanks(post)
    ensures FieldValue(pre + (v + post + (Eol(bare) + rest))) == Some((v, |pre| + |v| + |post| + |Eol(bare)|))
  {
    hide Span, DropBlanksAtEnd, IsFieldChar, CleanValue, Eol, FieldValue, Blanks;
    var end := Eol(bare) + rest;
    EolWidth(bare, rest);
    PaddedIsField(v, post);
    FirstIsKept(v, post + end);
    assert v + post + end == v + (post + end);
    hide LineEnd, IsBlank;
    BlankSpan(pre, v + post + end);
    FieldSpan(v + post, end);
    FieldValueIs(pre, v + post, end);
  }

  lemma BlanksJoin(a: Bytes, b: Bytes)
    requires Blanks(a) && Blanks(b)
    ensures Blanks(a + b)
  {
  }

  // The three parts of a field value, once they are known.
  lemma FieldValueIs(pre: Bytes, v: Bytes, end: Bytes)
    requires var s := pre + (v + end); Span(s, IsBlank) == |pre| && s[|pre|..] == v + end
    requires Span(v + end, IsFieldChar) == |v| && (v + end)[..|v|] == v && (v + end)[|v|..] == end && LineEnd(end) > 0
    ensures FieldValue(pre + (v + end)) == Some((DropBlanksAtEnd(v), |pre| + |v| + LineEnd(end)))
  {
    hide Span, DropBlanksAtEnd, IsFieldChar, IsBlank, LineEnd;
  }

  lemma FirstIsKept(v: Bytes, more: Bytes)
    requires CleanValue(v) && v != ""
    ensures (v + more)[0] == v[0] && !IsBlank(v[0])
  {
  }

  lemma FieldLineOfLoose(l: Loose, rest: Bytes)
    requires LooseOk(l)
    ensures FieldLine(LooseLine(l) + rest) == Some((l.h, |LooseLine(l)|))
    ensures var s := LooseLine(l) + rest; IsTokenChar(s[0]) && s[|LooseLine(l)|..] == rest
  {
    hide FieldLine, FieldValue, CleanValue, IsTokenChar, Eol;
    var n, v := l.h.name, l.h.value;
    var after := l.pre + (v + l.post + (Eol(l.bare) + rest));
    var s := n + ([':'] + after);
    LooseSplits(l, rest);
    PartsAround(n, ':', after);
    FieldValueOfLoose(l.pre, v, l.post, l.bare, rest);
    FieldLineAt(s, |n|);
    Parts(LooseLine(l), rest);
    assert s[0] == n[0];
  }

  lemma LooseSplits(l: Loose, rest: Bytes)
    ensures LooseLine(l) + rest ==
      l.h.name + ([':'] + (l.pre + (l.h.value + l.post + (Eol(l.bare) + rest))))
    ensures |LooseLine(l)| == |l.h.name| + 1 + |l.pre| + |l.h.value| + |l.post| + |Eol(l.bare)|
  {
    hide Eol;
  }

  /** Neither blanks around a value nor the way lines end make a difference to the headers read. */
  lemma {:induction false} SplitOfLoose(ls: seq<Loose>, bareEnd: bool, room: nat)
    requires |ls| <= room && forall l <- ls :: LooseOk(l)
    ensures SplitHeaders(LooseText(ls) + Eol(bareEnd), room) == Some(HeadersOf(ls))
    decreases |ls|
  {
    hide FieldLine, SplitHeaders, IsTokenChar, LooseOk, LooseLine;
    if ls == [] {
      assert "" + Eol(bareEnd) == Eol(bareEnd);
      SplitOfEnd(bareEnd, room);
    } else {
      var rest := LooseText(ls[1..]) + Eol(bareEnd);
      var s := LooseText(ls) + Eol(bareEnd);
      assert s == LooseLine(ls[0]) + rest;
      FieldLineOfLoose(ls[0], rest);
      SplitOfLoose(ls[1..], bareEnd, room - 1);
      SplitStep(s, room, ls[0].h, |LooseLine(ls[0])|, HeadersOf(ls[1..]));
      assert [ls[0].h] + HeadersOf(ls[1..]) == HeadersOf(ls);
    }
  }

  lemma SplitOfEnd(bareEnd: bool, room: nat)
    ensures SplitHeaders(Eol(bareEnd), room) == Some([])
  {
  }
}
