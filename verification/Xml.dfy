/** Writing escaped XML text into a sink. */
module Xml {
  import opened Wrappers
  import opened Text

  function EscapeChar(c: char): Bytes {
    match c
    case '&' => "&amp;"
    case '<' => "&lt;"
    case '>' => "&gt;"
    case '"' => "&quot;"
    case '\'' => "&apos;"
    case _ => [c]
  }

  function Escape(s: Bytes): Bytes {
    if s == "" then "" else EscapeChar(s[0]) + Escape(s[1..])
  }

  // A reader of the five predefined entities (XML 1.0, section 4.6).
  function Unescape(s: Bytes): Bytes
    decreases |s|
  {
    if s == "" then ""
    else if "&amp;" <= s then "&" + Unescape(s[5..])
    else if "&lt;" <= s then "<" + Unescape(s[4..])
    else if "&gt;" <= s then ">" + Unescape(s[4..])
    else if "&quot;" <= s then "\"" + Unescape(s[6..])
    else if "&apos;" <= s then "'" + Unescape(s[6..])
    else [s[0]] + Unescape(s[1..])
  }

  lemma UnescapeOne(c: char, rest: Bytes)
    ensures Unescape(EscapeChar(c) + rest) == [c] + Unescape(rest)
  {
    var e := EscapeChar(c);
    var t := e + rest;
    assert t[..|e|] == e && t[|e|..] == rest;
    if c != '&' && |e| > 1 {
      assert t[1] == e[1] && t[2] == e[2];
    } else if |e| == 1 {
      assert t[0] == c;
    }
  }

  lemma {:induction false} EscapeOfSum(a: Bytes, b: Bytes)
    ensures Escape(a + b) == Escape(a) + Escape(b)
  {
    if a == "" {
      assert a + b == b;
    } else {
      assert (a + b)[0] == a[0] && (a + b)[1..] == a[1..] + b;
      EscapeOfSum(a[1..], b);
    }
  }

  lemma {:induction false} EscapeSnoc(a: Bytes, c: char)
    ensures Escape(a + [c]) == Escape(a) + EscapeChar(c)
  {
    EscapeOfSum(a, [c]);
    assert [c][1..] == "" && Escape([c]) == EscapeChar(c) + "";
  }

  /** Unescaping undoes escaping. */
  lemma {:induction false} EscapeRoundTrip(s: Bytes)
    ensures Unescape(Escape(s)) == s
  {
    hide EscapeChar, Unescape;
    if s == "" {
      UnescapeNothing();
    } else {
      UnescapeOne(s[0], Escape(s[1..]));
      EscapeRoundTrip(s[1..]);
    }
  }

  lemma UnescapeNothing()
    ensures Unescape("") == ""
  {
  }

  // Escaped text holds no markup characters.
  predicate Plain(s: Bytes) {
    forall i | 0 <= i < |s| :: s[i] != '<' && s[i] != '>'
  }

  lemma {:induction false} EscapedIsPlain(s: Bytes)
    ensures Plain(Escape(s))
  {
    if s != "" {
      EscapedIsPlain(s[1..]);
      EscapedCharIsPlain(s[0]);
    }
  }

  lemma EscapedCharIsPlain(c: char)
    ensures Plain(EscapeChar(c))
  {
  }

  /** Escaping leaves no markup and no quote, and an ampersand only where it begins an entity. */
  lemma {:induction false} EscapedHolds(s: Bytes)
    ensures var e := Escape(s);
            && '<' !in e && '>' !in e && '"' !in e && '\'' !in e
            && forall i | 0 <= i < |e| && e[i] == '&' ::
                 "&amp;" <= e[i..] || "&lt;" <= e[i..] || "&gt;" <= e[i..] || "&quot;" <= e[i..] || "&apos;" <= e[i..]
  {
    if s != "" {
      EscapedHolds(s[1..]);
      var head, tail := EscapeChar(s[0]), Escape(s[1..]);
      var e := head + tail;
      EscapedChar(s[0]);
      forall i | 0 <= i < |e| && e[i] == '&'
        ensures "&amp;" <= e[i..] || "&lt;" <= e[i..] || "&gt;" <= e[i..] || "&quot;" <= e[i..] || "&apos;" <= e[i..]
      {
        if i < |head| {
          assert e[i..] == head + tail;
        } else {
          assert e[i..] == tail[i - |head|..];
        }
      }
    }
  }

  lemma EscapedChar(c: char)
    ensures var e := EscapeChar(c);
            && '<' !in e && '>' !in e && '"' !in e && '\'' !in e
            && (forall i | 1 <= i < |e| :: e[i] != '&')
            && (e[0] == '&' ==> "&amp;" <= e || "&lt;" <= e || "&gt;" <= e || "&quot;" <= e || "&apos;" <= e)
  {
  }

  function Element(name: Bytes, value: Bytes): Bytes {
    "<" + name + ">" + Escape(value) + "</" + name + ">"
  }

  // ---------- writing ----------

  datatype WriteError = Fmt

  /** Where XML is written: it takes every text for which it has room, and refuses any other whole. */
  class Sink {
    const limit: nat
    var text: Bytes

    predicate Valid()
      reads this
    {
      |text| <= limit
    }

    constructor (limit: nat)
      ensures Valid() && text == "" && this.limit == limit
    {
      this.limit := limit;
      text := "";
    }

    method WriteStr(s: Bytes) returns (r: Result<(), WriteError>)
      requires Valid()
      modifies this
      ensures Valid() && (r.Ok? <==> |old(text)| + |s| <= limit)
      ensures text == if r.Ok? then old(text) + s else old(text)
    {
      if |text| + |s| > limit {
        return Err(Fmt);
      }
      text := text + s;
      return Ok(());
    }
  }

  /** `doc` was written behind `before` if there was room for all of it; otherwise only its beginning was. */
  predicate Wrote(limit: nat, before: Bytes, doc: Bytes, after: Bytes, ok: bool) {
    && |after| <= limit && before <= after && after <= before + doc
    && (ok <==> |before| + |doc| <= limit)
    && (ok ==> after == before + doc)
  }

  lemma WroteMore(limit: nat, before: Bytes, a: Bytes, between: Bytes, b: Bytes, after: Bytes, ok: bool)
    requires Wrote(limit, before, a, between, true) && Wrote(limit, between, b, after, ok)
    ensures Wrote(limit, before, a + b, after, ok)
  {
    assert (before + a) + b == before + (a + b);
  }

  lemma WroteLess(limit: nat, before: Bytes, a: Bytes, after: Bytes, b: Bytes)
    requires Wrote(limit, before, a, after, false)
    ensures Wrote(limit, before, a + b, after, false)
  {
    assert before + (a + b) == (before + a) + b;
  }

  // The pieces of a format string, in turn, up to the first that is refused.
  method WriteFmt(w: Sink, pieces: seq<Bytes>) returns (r: Result<(), WriteError>)
    requires w.Valid()
    modifies w
    ensures w.Valid() && Wrote(w.limit, old(w.text), Joined(pieces), w.text, r.Ok?)
  {
    hide Joined, Wrote;
    JoinedNone();
    NothingWrote(w.limit, w.text);
    for i := 0 to |pieces|
      invariant w.Valid() && Wrote(w.limit, old(w.text), Joined(pieces[..i]), w.text, true)
    {
      ghost var before := w.text;
      r := w.WriteStr(pieces[i]);
      OneWrote(w.limit, before, pieces[i], w.text, r.Ok?);
      JoinedSnoc(pieces[..i], pieces[i]);
      assert pieces[..i + 1] == pieces[..i] + [pieces[i]];
      WroteMore(w.limit, old(w.text), Joined(pieces[..i]), before, pieces[i], w.text, r.Ok?);
      if r.Err? {
        JoinedSplits(pieces, i + 1);
        WroteLess(w.limit, old(w.text), Joined(pieces[..i + 1]), w.text, Joined(pieces[i + 1..]));
        return;
      }
    }
    assert pieces[..|pieces|] == pieces;
    return Ok(());
  }

  lemma NothingWrote(limit: nat, text: Bytes)
    requires |text| <= limit
    ensures Wrote(limit, text, "", text, true)
  {
    assert text + "" == text;
  }

  lemma OneWrote(limit: nat, before: Bytes, s: Bytes, after: Bytes, ok: bool)
    requires |before| <= limit && (ok <==> |before| + |s| <= limit) && after == if ok then before + s else before
    ensures Wrote(limit, before, s, after, ok)
  {
  }

  method WriteEscapedText(w: Sink, value: Bytes) returns (r: Result<(), WriteError>)
    requires w.Valid()
    modifies w
    ensures w.Valid() && Wrote(w.limit, old(w.text), Escape(value), w.text, r.Ok?)
  {
    hide EscapeChar, Escape, Wrote;
    EscapeNothing();
    NothingWrote(w.limit, w.text);
    for i := 0 to |value|
      invariant w.Valid() && Wrote(w.limit, old(w.text), Escape(value[..i]), w.text, true)
    {
      ghost var before := w.text;
      r := WriteEscapedChar(w, value[i]);
      OneWrote(w.limit, before, EscapeChar(value[i]), w.text, r.Ok?);
      EscapeSnoc(value[..i], value[i]);
      assert value[..i + 1] == value[..i] + [value[i]];
      WroteMore(w.limit, old(w.text), Escape(value[..i]), before, EscapeChar(value[i]), w.text, r.Ok?);
      if r.Err? {
        EscapeOfSum(value[..i + 1], value[i + 1..]);
        assert value[..i + 1] + value[i + 1..] == value;
        WroteLess(w.limit, old(w.text), Escape(value[..i + 1]), w.text, Escape(value[i + 1..]));
        return;
      }
    }
    assert value[..|value|] == value;
    return Ok(());
  }

  lemma EscapeNothing()
    ensures Escape("") == ""
  {
  }

  method WriteEscapedChar(w: Sink, c: char) returns (r: Result<(), WriteError>)
    requires w.Valid()
    modifies w
    ensures w.Valid() && (r.Ok? <==> |old(w.text)| + |EscapeChar(c)| <= w.limit)
    ensures w.text == if r.Ok? then old(w.text) + EscapeChar(c) else old(w.text)
  {
    match c
    case '&' => r := w.WriteStr("&amp;");
    case '<' => r := w.WriteStr("&lt;");
    case '>' => r := w.WriteStr("&gt;");
    case '"' => r := w.WriteStr("&quot;");
    case '\'' => r := w.WriteStr("&apos;");
    case _ => r := w.WriteStr([c]);
  }

  method WriteTextElement(w: Sink, name: Bytes, value: Bytes) returns (r: Result<(), WriteError>)
    requires w.Valid()
    modifies w
    ensures w.Valid() && Wrote(w.limit, old(w.text), Element(name, value), w.text, r.Ok?)
  {
    hide Escape, Wrote, Joined;
    ghost var open, text, close := "<" + name + ">", Escape(value), "</" + name + ">";
    assert Element(name, value) == open + (text + close);
    JoinedThree("<", name, ">");
    JoinedThree("</", name, ">");
    r := WriteFmt(w, ["<", name, ">"]);
    if r.Err? {
      WroteLess(w.limit, old(w.text), open, w.text, text + close);
      return;
    }
    ghost var between := w.text;
    r := WriteEscapedText(w, value);
    if r.Err? {
      WroteLess(w.limit, between, text, w.text, close);
      WroteMore(w.limit, old(w.text), open, between, text + close, w.text, false);
      return;
    }
    ghost var filled := w.text;
    r := WriteFmt(w, ["</", name, ">"]);
    WroteMore(w.limit, between, text, filled, close, w.text, r.Ok?);
    WroteMore(w.limit, old(w.text), open, between, text + close, w.text, r.Ok?);
  }

  // ---------- white space and escaping ----------

  predicate Special(c: char) {
    c == '&' || c == '<' || c == '>' || c == '"' || c == '\''
  }

  // How escaped text starts: like the text, or with an ampersand.
  lemma EscapeStart(v: Bytes)
    ensures v == "" ==> Escape(v) == ""
    ensures v != "" && Special(v[0]) ==> Escape(v) != "" && Escape(v)[0] == '&'
    ensures v != "" && !Special(v[0]) ==> Escape(v) != "" && Escape(v)[0] == v[0] && Escape(v)[1..] == Escape(v[1..])
  {
  }

  // The first octets of the text, as far as they are spaces, are the first octets of the escaped text.
  lemma SpacesStay(v: Bytes)
    ensures SpaceWidth(Escape(v)) == SpaceWidth(v)
    ensures Escape(v)[SpaceWidth(v)..] == Escape(v[SpaceWidth(v)..])
  {
    hide Escape;
    var e := Escape(v);
    EscapeStart(v);
    if v != "" && !Special(v[0]) {
      var v1 := v[1..];
      EscapeStart(v1);
      if v1 != "" && !Special(v1[0]) {
        var v2 := v1[1..];
        assert v[2..] == v2 && e[2..] == e[1..][1..];
        EscapeStart(v2);
        if v2 != "" && !Special(v2[0]) {
          assert v[3..] == v2[1..] && e[3..] == e[2..][1..];
        }
      }
    }
  }

  lemma {:induction false} TrimStartOfEscaped(v: Bytes)
    ensures TrimStart(Escape(v)) == Escape(TrimStart(v))
    decreases |v|
  {
    hide Escape, SpaceWidth;
    SpacesStay(v);
    var w := SpaceWidth(v);
    if w > 0 {
      TrimStartOfEscaped(v[w..]);
    }
  }

  // How escaped text ends: like the text, or with a semicolon.
  lemma EscapeEnd(v: Bytes)
    ensures v == "" ==> Escape(v) == ""
    ensures var n := |v|; v != "" && Special(v[n - 1]) ==> Escape(v) != "" && Escape(v)[|Escape(v)| - 1] == ';'
    ensures var n := |v|;
            v != "" && !Special(v[n - 1]) ==>
              Escape(v) != "" && Escape(v)[|Escape(v)| - 1] == v[n - 1]
                && Escape(v)[..|Escape(v)| - 1] == Escape(v[..n - 1])
  {
    hide Escape;
    EscapeNothing();
    if v != "" {
      assert v == v[..|v| - 1] + [v[|v| - 1]];
      EscapeSnoc(v[..|v| - 1], v[|v| - 1]);
    }
  }

  lemma {:induction false} NothingToEscape(v: Bytes)
    requires forall i | 0 <= i < |v| :: !Special(v[i])
    ensures Escape(v) == v
  {
    if v != "" {
      NothingToEscape(v[1..]);
      assert EscapeChar(v[0]) == [v[0]];
    }
  }

  // The last `k` octets, none of them special, stay at the end.
  lemma SameEnd(v: Bytes, k: nat)
    requires k <= |v| && forall i | |v| - k <= i < |v| :: !Special(v[i])
    ensures k <= |Escape(v)| && Escape(v)[..|Escape(v)| - k] == Escape(v[..|v| - k])
    ensures Escape(v)[|Escape(v)| - k..] == v[|v| - k..]
  {
    hide Escape, Special;
    var a, b := v[..|v| - k], v[|v| - k..];
    assert v == a + b;
    EscapeOfSum(a, b);
    NothingToEscape(b);
  }

  lemma SpacesStayAtEnd(v: Bytes)
    ensures SpaceWidthAtEnd(Escape(v)) == SpaceWidthAtEnd(v)
    ensures var w := SpaceWidthAtEnd(v); w <= |Escape(v)| && Escape(v)[..|Escape(v)| - w] == Escape(v[..|v| - w])
  {
    hide Escape;
    var e, n, w := Escape(v), |v|, SpaceWidthAtEnd(v);
    SameEnd(v, w);
    if w == 0 {
      NoNewSpace(v);
    } else {
      SameTail(v, e, w);
    }
  }

  lemma SameTail(a: Bytes, b: Bytes, w: nat)
    requires 0 < w == SpaceWidthAtEnd(a) && w <= |b| && a[|a| - w..] == b[|b| - w..]
    ensures SpaceWidthAtEnd(b) == w
  {
    var t := b[|b| - w..];
    assert b[|b| - 1] == t[w - 1] == a[|a| - 1];
    assert w > 1 ==> b[|b| - 2] == t[w - 2] == a[|a| - 2];
    assert w > 2 ==> b[|b| - 3] == t[w - 3] == a[|a| - 3];
  }

  lemma NoNewSpace(v: Bytes)
    requires SpaceWidthAtEnd(v) == 0
    ensures SpaceWidthAtEnd(Escape(v)) == 0
  {
    hide Escape;
    var e, n := Escape(v), |v|;
    EscapeEnd(v);
    if v != "" && !Special(v[n - 1]) {
      EscapeEnd(v[..n - 1]);
      assert |e| > 1 ==> e[|e| - 2] == e[..|e| - 1][|e| - 2];
      if n > 1 && !Special(v[n - 2]) {
        EscapeEnd(v[..n - 1][..n - 2]);
        assert |e| > 2 ==> e[|e| - 3] == e[..|e| - 1][..|e| - 2][|e| - 3];
      }
    }
  }

  lemma {:induction false} TrimEndOfEscaped(v: Bytes)
    ensures TrimEnd(Escape(v)) == Escape(TrimEnd(v))
    decreases |v|
  {
    hide Escape, SpaceWidthAtEnd;
    SpacesStayAtEnd(v);
    var w := SpaceWidthAtEnd(v);
    if w > 0 {
      TrimEndOfEscaped(v[..|v| - w]);
    }
  }

  /** Trimming escaped text trims the text. */
  lemma TrimOfEscaped(v: Bytes)
    ensures Trim(Escape(v)) == Escape(Trim(v))
  {
    hide Escape, TrimStart, TrimEnd;
    TrimStartOfEscaped(v);
    TrimEndOfEscaped(TrimStart(v));
  }
}
