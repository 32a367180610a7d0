/** What the SOAP parser makes of requests that others write: any prefixes, attributes, quotes, blanks and order. */
module SoapRequest {
  import opened Wrappers
  import opened Text
  import opened Xml
  import opened Soap
  import opened SoapRoundTrip

  // ---------- tags ----------

  // What stands between the brackets: blanks, a name, attributes, blanks.
  datatype Tag = Tag(before: Bytes, prefix: Option<Bytes>, local: Bytes, attributes: Bytes, after: Bytes)

  function QName(prefix: Option<Bytes>, local: Bytes): Bytes {
    match prefix case None => local case Some(p) => p + ":" + local
  }

  function Inner(t: Tag): Bytes {
    QName(t.prefix, t.local) + t.attributes
  }

  function Content(t: Tag): Bytes {
    t.before + Inner(t) + t.after
  }

  predicate NameOk(prefix: Option<Bytes>, local: Bytes) {
    && local != "" && NoSpace(local) && ':' !in local
    && (prefix.Some? ==> NoSpace(prefix.value) && ':' !in prefix.value)
  }

  predicate TagOk(t: Tag) {
    && NameOk(t.prefix, t.local) && (t.attributes == "" || IsAsciiSpace(t.attributes[0]))
    && Blanks(t.before) && Blanks(t.after) && Trimmed(Inner(t)) && Plain(Inner(t))
  }

  // A tag that opens an element.
  predicate Opens(t: Tag) {
    var c := Inner(t);
    TagOk(t) && !StartsWith(c, '/') && !StartsWith(c, '!') && !StartsWith(c, '?') && !EndsWith(c, '/')
  }

  lemma InnerNames(t: Tag)
    requires TagOk(t)
    ensures ElementName(Inner(t)) == Some(t.local) && ElementPrefix(Inner(t)) == t.prefix && Inner(t) != ""
  {
    hide FirstToken, Plain, Trimmed, Find;
    match t.prefix
    case Some(p) => PrefixedName(p, t.local, t.attributes);
    case None =>
      TokenOf(t.local, t.attributes);
      LocalOf("", t.local);
      FindIs(t.local, ':', |t.local|) by {
        assert t.local[..|t.local|] == t.local;
      }
  }

  lemma ContentTrims(t: Tag)
    requires TagOk(t)
    ensures Trim(Content(t)) == Inner(t) && Plain(Content(t))
  {
    hide Trim, Trimmed, ElementName, ElementPrefix, Inner;
    InnerNames(t);
    TrimPadded(t.before, Inner(t), t.after);
    BlanksArePlain(t.before);
    BlanksArePlain(t.after);
    PlainSum(t.before, Inner(t));
    PlainSum(t.before + Inner(t), t.after);
  }

  lemma BlanksArePlain(s: Bytes)
    requires Blanks(s)
    ensures Plain(s)
  {
  }

  // A tag after some text.
  lemma TagAfter(text: Bytes, tag: Bytes, rest: Bytes)
    requires '<' !in text && Plain(tag)
    ensures var s := text + ("<" + tag + ">" + rest);
            var after := s[|text| + 1..];
            && Find(s, '<') == |text| < |s| && Find(after, '>') == |tag| < |after|
            && after[..|tag|] == tag && after[|tag| + 1..] == rest
            && (tag != "" ==> after[0] == tag[0])
  {
    hide Find;
    var s := text + ("<" + tag + ">" + rest);
    var after := tag + (['>'] + rest);
    assert s == text + (['<'] + after);
    PartsAround(text, '<', after);
    PartsAround(tag, '>', rest);
    FindIs(s, '<', |text|);
    FindIs(after, '>', |tag|);
  }

  // ---------- up to the body ----------

  // A tag with some text in front of it, in no element that ends.
  datatype Chunk = Chunk(text: Bytes, tag: Tag)

  predicate ChunkOk(c: Chunk) {
    '<' !in c.text && TagOk(c.tag) && c.tag.local != "Body"
  }

  function ChunkText(c: Chunk): Bytes {
    c.text + ("<" + Content(c.tag) + ">")
  }

  function Preamble(cs: seq<Chunk>): Bytes {
    if cs == [] then "" else ChunkText(cs[0]) + Preamble(cs[1..])
  }

  lemma BodyAt(text: Bytes, t: Tag, rest: Bytes)
    requires '<' !in text && TagOk(t)
    ensures FindElementBody(text + ("<" + Content(t) + ">" + rest), "Body") ==
      if t.local == "Body" then match FindClose(rest, "Body") case None => None case Some(p) => Some(rest[..p.0])
      else FindElementBody(rest, "Body")
  {
    hide Find, FindClose, FindElementBody, ElementName, ElementPrefix, Trim, Content, Inner, TagOk;
    ContentTrims(t);
    InnerNames(t);
    TagAfter(text, Content(t), rest);
    BodyStep(text + ("<" + Content(t) + ">" + rest), "Body");
  }

  lemma {:induction false} BodyAfter(cs: seq<Chunk>, rest: Bytes)
    requires forall c <- cs :: ChunkOk(c)
    ensures FindElementBody(Preamble(cs) + rest, "Body") == FindElementBody(rest, "Body")
  {
    hide FindElementBody, TagOk, Content;
    if cs == [] {
      assert "" + rest == rest;
    } else {
      var c, more := cs[0], Preamble(cs[1..]);
      assert ChunkOk(c);
      BodyAfter(cs[1..], rest);
      BodyAt(c.text, c.tag, more + rest);
      PreambleSplits(c, more, rest);
    }
  }

  lemma PreambleSplits(c: Chunk, more: Bytes, rest: Bytes)
    ensures ChunkText(c) + more + rest == c.text + ("<" + Content(c.tag) + ">" + (more + rest))
  {
    hide Content;
  }

  /** A document with no body element has none. */
  lemma NoBody(cs: seq<Chunk>, text: Bytes)
    requires (forall c <- cs :: ChunkOk(c)) && '<' !in text
    ensures ParseAction(Preamble(cs) + text) == Err(MissingBody)
  {
    hide Preamble, ChunkOk;
    BodyAfter(cs, text);
    FindIs(text, '<', |text|) by {
      assert text[..|text|] == text;
    }
  }

  // ---------- what stands inside the action ----------

  datatype Item =
    | Value(gap: Bytes, open: Tag, text: Bytes, close: Tag)   // an argument
    | Closed(gap: Bytes, tag: Tag)                            // an element without content
    | Note(gap: Bytes, mark: char, text: Bytes)               // a comment or an instruction

  predicate ItemOk(i: Item) {
    && '<' !in i.gap
    && match i
       case Value(_, open, text, close) =>
         Opens(open) && '<' !in text && TagOk(close) && close.before == "" && open.local == close.local
       case Closed(_, tag) =>
         && TagOk(tag) && EndsWith(Inner(tag), '/') && tag.before == ""
         && !StartsWith(Inner(tag), '/') && !StartsWith(Inner(tag), '!') && !StartsWith(Inner(tag), '?')
       case Note(_, mark, text) => (mark == '!' || mark == '?') && '<' !in text
  }

  function ItemText(i: Item): Bytes {
    match i
    case Value(gap, open, text, close) =>
      gap + ("<" + Content(open) + ">" + (text + ("</" + Content(close) + ">")))
    case Closed(gap, tag) => gap + ("<" + Content(tag) + ">")
    case Note(gap, mark, text) => gap + ("<" + [mark] + text + ">")
  }

  function ItemsText(items: seq<Item>): Bytes {
    if items == [] then "" else ItemText(items[0]) + ItemsText(items[1..])
  }

  // The arguments among them.
  function Given(items: seq<Item>): seq<Argument> {
    if items == [] then []
    else
      (if items[0].Value? then [Argument(items[0].open.local, Trim(items[0].text))] else []) + Given(items[1..])
  }

  ghost predicate NotNamed(items: seq<Item>, name: Bytes) {
    forall i <- items :: i.Value? ==> i.open.local != name
  }

  lemma QuietText(text: Bytes)
    requires '<' !in text
    ensures Quiet(text)
  {
  }

  lemma QuietSum(a: Bytes, b: Bytes)
    requires Quiet(a) && Quiet(b)
    ensures Quiet(a + b)
  {
    var s := a + b;
    forall i | 0 <= i < |s| && s[i] == '<'
      ensures i + 1 < |s| && s[i + 1] != '/'
    {
      if i < |a| {
        assert a[i] == '<' && s[i + 1] == a[i + 1];
      } else {
        assert b[i - |a|] == '<' && s[i + 1] == b[i - |a| + 1];
      }
    }
  }

  lemma QuietTag(content: Bytes)
    requires Plain(content) && content != "" && content[0] != '/'
    ensures Quiet("<" + content + ">")
  {
    var t := "<" + content + ">";
    assert t[1] == content[0];
    forall i | 0 < i < |t|
      ensures t[i] != '<'
    {
      assert i <= |content| ==> t[i] == content[i - 1];
    }
  }

  lemma NoSlashAhead(t: Tag)
    requires TagOk(t) && !StartsWith(Inner(t), '/')
    ensures Content(t) != "" && Content(t)[0] != '/'
  {
    hide Trimmed, Plain, ElementName, ElementPrefix;
    InnerNames(t);
    assert t.before == "" ==> Content(t)[0] == Inner(t)[0];
    assert t.before != "" ==> Content(t)[0] == t.before[0];
  }

  lemma QuietOpening(gap: Bytes, t: Tag, text: Bytes)
    requires '<' !in gap && '<' !in text && TagOk(t) && !StartsWith(Inner(t), '/')
    ensures Quiet(gap + ("<" + Content(t) + ">" + text))
  {
    hide TagOk, Content, Inner, Quiet, Trim;
    ContentTrims(t);
    NoSlashAhead(t);
    QuietTag(Content(t));
    QuietText(gap);
    QuietText(text);
    QuietSum("<" + Content(t) + ">", text);
    QuietSum(gap, "<" + Content(t) + ">" + text);
  }

  lemma CloseNamed(t: Tag, rest: Bytes, name: Bytes)
    requires TagOk(t) && t.before == ""
    ensures FindClose("</" + Content(t) + ">" + rest, name) ==
      if t.local == name then Some((0, |Content(t)| + 3)) else Shift(|Content(t)| + 3, FindClose(rest, name))
  {
    hide FindClose, ElementName, ElementPrefix, Trim, Trimmed;
    ContentTrims(t);
    ClosingName(t);
    CloseTag(Content(t), rest, name);
  }

  // Blanks behind a name do not change it.
  lemma ClosingName(t: Tag)
    requires TagOk(t) && t.before == ""
    ensures ElementName(Content(t)) == Some(t.local)
  {
    hide FirstToken, Plain, Trimmed;
    var rest := t.attributes + t.after;
    assert t.attributes == "" && t.after != "" ==> IsAsciiSpace(t.after[0]);
    assert Content(t) == QName(t.prefix, t.local) + rest;
    match t.prefix
    case Some(p) => PrefixedName(p, t.local, rest);
    case None =>
      TokenOf(t.local, rest);
      LocalOf("", t.local);
  }

  // Looking for a closing tag, an item is passed over unless it is the element looked for.
  lemma CloseOverItem(i: Item, rest: Bytes, name: Bytes)
    requires ItemOk(i) && (i.Value? ==> i.open.local != name)
    ensures FindClose(ItemText(i) + rest, name) == Shift(|ItemText(i)|, FindClose(rest, name))
  {
    hide FindClose, TagOk, Content, Inner, Quiet;
    match i
    case Value(gap, open, text, close) =>
      var a := gap + ("<" + Content(open) + ">" + text);
      var b := "</" + Content(close) + ">" + rest;
      QuietOpening(gap, open, text);
      assert ItemText(i) + rest == a + b && |ItemText(i)| == |a| + |Content(close)| + 3;
      CloseAfterQuiet(a, b, name);
      CloseNamed(close, rest, name);
      ShiftTwice(|a|, |Content(close)| + 3, FindClose(rest, name));
    case Closed(gap, tag) =>
      QuietOpening(gap, tag, "");
      assert gap + ("<" + Content(tag) + ">" + "") == ItemText(i);
      CloseAfterQuiet(ItemText(i), rest, name);
    case Note(gap, mark, text) =>
      QuietNote(gap, mark, text);
      CloseAfterQuiet(ItemText(i), rest, name);
  }

  lemma QuietNote(gap: Bytes, mark: char, text: Bytes)
    requires '<' !in gap && '<' !in text && mark != '/' && mark != '<'
    ensures Quiet(gap + ("<" + [mark] + text + ">"))
  {
    var t := "<" + [mark] + text + ">";
    assert t[1] == mark;
    forall i | 1 < i < |t| - 1
      ensures t[i] != '<'
    {
      assert t[i] == text[i - 2];
    }
    QuietText(gap);
    QuietSum(gap, t);
  }

  lemma {:induction false} CloseOverItems(items: seq<Item>, rest: Bytes, name: Bytes)
    requires (forall i <- items :: ItemOk(i)) && NotNamed(items, name)
    ensures FindClose(ItemsText(items) + rest, name) == Shift(|ItemsText(items)|, FindClose(rest, name))
  {
    hide FindClose, ItemOk, ItemText;
    if items == [] {
      assert "" + rest == rest;
    } else {
      var more := ItemsText(items[1..]);
      CloseOverItems(items[1..], rest, name);
      CloseOverItem(items[0], more + rest, name);
      assert ItemsText(items) + rest == ItemText(items[0]) + (more + rest);
      ShiftTwice(|ItemText(items[0])|, |more|, FindClose(rest, name));
    }
  }

  // ---------- the arguments ----------

  // Two texts from which the iterator takes the same next.
  predicate SameNext(a: Bytes, b: Bytes) {
    var x, y := NextArgument(a), NextArgument(b);
    x.0 == y.0 && (x.0.Some? ==> x.1 == y.1)
  }

  lemma SameArguments(a: Bytes, b: Bytes)
    requires SameNext(a, b)
    ensures Arguments(a) == Arguments(b)
  {
    hide NextArgument;
  }

  // Text without tags is skipped.
  lemma SkipText(text: Bytes, rest: Bytes)
    requires '<' !in text
    ensures SameNext(text + rest, rest)
  {
    hide Find, FindClose, Trim, ElementName, NextArgument;
    var s := text + rest;
    var i := Find(rest, '<');
    FindBehind(text, rest);
    if i < |rest| {
      assert s[|text| + i + 1..] == rest[i + 1..];
      NextArgumentStep(s, |text| + i, rest[i + 1..]);
      NextArgumentStep(rest, i, rest[i + 1..]);
    } else {
      NextArgumentEnds(s);
      NextArgumentEnds(rest);
    }
  }

  lemma FindBehind(text: Bytes, rest: Bytes)
    requires '<' !in text
    ensures Find(text + rest, '<') == |text| + Find(rest, '<')
  {
    hide Find;
    var s, i := text + rest, Find(rest, '<');
    assert s[..|text| + i] == text + rest[..i];
    FindIs(s, '<', |text| + i);
  }

  lemma NextOfItem(i: Item, rest: Bytes)
    requires ItemOk(i)
    ensures i.Value? ==> NextArgument(ItemText(i) + rest) == (Some(Argument(i.open.local, Trim(i.text))), rest)
    ensures !i.Value? ==> SameNext(ItemText(i) + rest, rest)
  {
    hide Find, FindClose, Trim, ElementName, NextArgument, TagOk, Content, Inner, SameNext;
    match i
    case Value(gap, open, text, close) => NextOfValue(i, rest);
    case Closed(gap, tag) =>
      var s := gap + ("<" + Content(tag) + ">" + rest);
      assert ItemText(i) + rest == s;
      ContentTrims(tag);
      InnerNames(tag);
      FirstOf(tag);
      TagAfter(gap, Content(tag), rest);
      NextArgumentStep(s, |gap|, s[|gap| + 1..]);
      NextSelf(s, rest);
    case Note(gap, mark, text) => NextOfNote(gap, mark, text, rest);
  }

  lemma NextOfNote(gap: Bytes, mark: char, text: Bytes, rest: Bytes)
    requires '<' !in gap && '<' !in text && (mark == '!' || mark == '?')
    ensures SameNext(gap + ("<" + [mark] + text + ">") + rest, rest)
  {
    hide Find, FindClose, Trim, ElementName, NextArgument, SameNext;
    var after := [mark] + ((text + ">") + rest);
    var s := gap + (['<'] + after);
    assert gap + ("<" + [mark] + text + ">") + rest == s;
    PartsAround(gap, '<', after);
    FindIs(s, '<', |gap|);
    NextArgumentStep(s, |gap|, after);
    Parts([mark], (text + ">") + rest);
    SkipText(text + ">", rest);
    NextVia(s, (text + ">") + rest, rest);
  }

  lemma NextSelf(a: Bytes, b: Bytes)
    requires NextArgument(a) == NextArgument(b)
    ensures SameNext(a, b)
  {
  }

  lemma NextVia(a: Bytes, b: Bytes, c: Bytes)
    requires NextArgument(a) == NextArgument(b) && SameNext(b, c)
    ensures SameNext(a, c)
  {
  }

  // The first octet of a tag without blanks in front.
  lemma FirstOf(t: Tag)
    requires TagOk(t) && t.before == ""
    ensures Content(t) != "" && Inner(t) != "" && Content(t)[0] == Inner(t)[0]
  {
    hide Trimmed, Plain, ElementName, ElementPrefix;
    InnerNames(t);
  }

  lemma NextOfValue(i: Item, rest: Bytes)
    requires ItemOk(i) && i.Value?
    ensures NextArgument(ItemText(i) + rest) == (Some(Argument(i.open.local, Trim(i.text))), rest)
  {
    hide Find, FindClose, Trim, ElementName, NextArgument, TagOk, Content, Inner, ElementPrefix, TakeArgument;
    var t := i.open;
    var close := "</" + Content(i.close) + ">";
    var content := i.text + (close + rest);
    var s := i.gap + ("<" + Content(t) + ">" + content);
    assert ItemText(i) + rest == s;
    ContentTrims(t);
    InnerNames(t);
    NotMarked(t);
    TagAfter(i.gap, Content(t), content);
    NextArgumentStep(s, |i.gap|, s[|i.gap| + 1..]);
    ValueTaken(s, i.text, i.close, rest);
  }

  lemma ValueTaken(s: Bytes, text: Bytes, end: Tag, rest: Bytes)
    requires '<' !in text && TagOk(end) && end.before == ""
    ensures TakeArgument(s, Some(end.local), text + ("</" + Content(end) + ">" + rest))
      == (Some(Argument(end.local, Trim(text))), rest)
  {
    hide FindClose, Trim, TagOk, Content, Quiet;
    var close := "</" + Content(end) + ">";
    QuietText(text);
    CloseAfterQuiet(text, close + rest, end.local);
    CloseNamed(end, rest, end.local);
    PartsBeside(text, close, rest);
    Parts(text, close + rest);
  }

  lemma NotMarked(t: Tag)
    requires Opens(t)
    ensures Content(t) != "" && Content(t)[0] != '/' && Content(t)[0] != '!' && Content(t)[0] != '?'
  {
    hide Trimmed, Plain, ElementName, ElementPrefix;
    InnerNames(t);
    assert t.before == "" ==> Content(t)[0] == Inner(t)[0];
    assert t.before != "" ==> Content(t)[0] == t.before[0];
  }

  /**
   * The iterator yields the arguments among any elements, comments and text: each once, in order, under its
   * local name, its text without outer white space; elements without content are not among them.
   */
  lemma {:induction false} ArgumentsAre(items: seq<Item>, text: Bytes)
    requires (forall i <- items :: ItemOk(i)) && '<' !in text
    ensures Arguments(ItemsText(items) + text) == Given(items)
  {
    hide ItemOk, ItemText, NextArgument, SameNext, Trim;
    if items == [] {
      assert "" + text == text;
      FindIs(text, '<', |text|) by {
        assert text[..|text|] == text;
      }
      NextArgumentEnds(text);
    } else {
      var more := ItemsText(items[1..]) + text;
      ArgumentsAre(items[1..], text);
      NextOfItem(items[0], more);
      assert ItemsText(items) + text == ItemText(items[0]) + more;
      if !items[0].Value? {
        SameArguments(ItemText(items[0]) + more, more);
      }
    }
  }

  // ---------- the namespace ----------

  // A declaration of the namespace of `prefix`, or of the default one.
  function Declaration(prefix: Option<Bytes>, before: Bytes, after: Bytes, quote: char, urn: Bytes): Bytes {
    var value := before + ("=" + (after + ([quote] + (urn + [quote]))));
    "xmlns" + ((match prefix case None => "" case Some(p) => ":" + p) + value)
  }

  predicate DeclarationOk(prefix: Option<Bytes>, before: Bytes, after: Bytes, quote: char, urn: Bytes) {
    && Blanks(before) && Blanks(after) && (quote == '"' || quote == '\'') && quote !in urn
  }

  lemma ValueRead(before: Bytes, after: Bytes, quote: char, urn: Bytes, rest: Bytes)
    requires DeclarationOk(None, before, after, quote, urn)
    ensures var t := before + ("=" + (after + ([quote] + (urn + ([quote] + rest)))));
            StartsWith(TrimStart(t), '=') && FindAttrValue(t) == Some(urn)
  {
    hide TrimStart, Find;
    var value := urn + ([quote] + rest);
    var v := [quote] + value;
    var t := "=" + (after + v);
    TrimStartBlanks(before, t);
    NotBlank(t);
    Parts("=", after + v);
    TrimStartBlanks(after, v);
    NotBlank(v);
    Parts([quote], value);
    PartsAround(urn, quote, rest);
    FindIs(value, quote, |urn|);
  }

  lemma NotBlank(t: Bytes)
    requires t != "" && (t[0] == '=' || t[0] == '"' || t[0] == '\'')
    ensures TrimStart(t) == t
  {
  }

  lemma DeclarationIsRead(prefix: Option<Bytes>, before: Bytes, after: Bytes, quote: char, urn: Bytes, rest: Bytes)
    requires DeclarationOk(prefix, before, after, quote, urn)
    ensures var c := Declaration(prefix, before, after, quote, urn) + rest;
            && "xmlns" <= c
            && var len := NamespaceAttrLen(c, prefix);
               len.Some? && FindAttrValue(c[len.value..]) == Some(urn)
  {
    hide TrimStart, FindAttrValue;
    var t := before + ("=" + (after + ([quote] + (urn + ([quote] + rest)))));
    var c := Declaration(prefix, before, after, quote, urn) + rest;
    ValueRead(before, after, quote, urn, rest);
    match prefix
    case None =>
      assert c == "xmlns" + t;
      Parts("xmlns", t);
    case Some(p) =>
      assert c == "xmlns:" + (p + t);
      Parts("xmlns:", p + t);
      Parts(p, t);
      assert c[6 + |p|..] == c[6..][|p|..];
      assert "xmlns" <= "xmlns:" <= c;
  }

  // The declaration is found behind a text that holds none.
  lemma NamespaceIsFound(head: Bytes, prefix: Option<Bytes>, before: Bytes, after: Bytes, quote: char, urn: Bytes,
                         rest: Bytes)
    requires DeclarationOk(prefix, before, after, quote, urn) && FindText(head, "xmlns").None?
    ensures FindNamespace(head + " " + Declaration(prefix, before, after, quote, urn) + rest, prefix) == Some(urn)
  {
    hide FindText, NamespaceAttrLen, FindAttrValue, Declaration;
    var c := Declaration(prefix, before, after, quote, urn) + rest;
    var tag := head + " " + Declaration(prefix, before, after, quote, urn) + rest;
    assert tag == head + ([' '] + c);
    PartsAround(head, ' ', c);
    DeclarationIsRead(prefix, before, after, quote, urn, rest);
    FirstDeclaration(head, c);
  }

  lemma OccursBefore(t: Bytes, n: nat, i: nat)
    requires n <= |t| && i + 5 <= n && OccursAt(t, "xmlns", i)
    ensures OccursAt(t[..n], "xmlns", i)
  {
    assert t[..n][i..i + 5] == t[i..i + 5];
  }

  lemma NotBefore(head: Bytes, t: Bytes, i: nat)
    requires |head| < |t| && t[..|head|] == head && t[|head|] == ' ' && i <= |head|
    requires FindText(head, "xmlns").None?
    ensures !OccursAt(t, "xmlns", i)
  {
    hide FindText, OccursAt;
    if OccursAt(t, "xmlns", i) {
      NoStraddle(t, |head|, i);
      OccursBefore(t, |head|, i);
      OccursBegins(head, "xmlns", i);
    }
  }

  lemma OccursBegins(s: Bytes, p: Bytes, i: nat)
    requires OccursAt(s, p, i)
    ensures i <= |s|
  {
  }

  lemma FirstDeclaration(head: Bytes, c: Bytes)
    requires FindText(head, "xmlns").None? && "xmlns" <= c
    ensures FindText(head + ([' '] + c), "xmlns") == Some(|head| + 1)
  {
    hide FindText, OccursAt;
    var t := head + ([' '] + c);
    PartsAround(head, ' ', c);
    DeclaredThere(t, |head| + 1);
    forall i | 0 <= i < |head| + 1
      ensures !OccursAt(t, "xmlns", i)
    {
      NotBefore(head, t, i);
    }
    FindTextIs(t, "xmlns", |head| + 1);
  }

  lemma DeclaredThere(t: Bytes, n: nat)
    requires n <= |t| && "xmlns" <= t[n..]
    ensures OccursAt(t, "xmlns", n)
  {
    assert t[n..n + 5] == t[n..][..5];
  }

  // ---------- the whole request ----------

  /** A request: a body, in it an action element that declares its namespace, in it the arguments. */
  datatype Request = Request(
    preamble: seq<Chunk>, lead: Bytes, body: Tag,
    gap: Bytes, head: Bytes, action: Tag, items: seq<Item>, text: Bytes, actionEnd: Tag,
    tail: Bytes, bodyEnd: Tag, rest: Bytes)

  predicate RequestOk(r: Request) {
    && (forall c <- r.preamble :: ChunkOk(c))
    && '<' !in r.lead && TagOk(r.body) && r.body.local == "Body"
    && '<' !in r.gap && Opens(r.action) && r.action.local != "Body"
    && (forall i <- r.items :: ItemOk(i)) && '<' !in r.text
    && TagOk(r.actionEnd) && r.actionEnd.before == "" && r.actionEnd.local == r.action.local
    && '<' !in r.tail && TagOk(r.bodyEnd) && r.bodyEnd.before == "" && r.bodyEnd.local == "Body"
  }

  function ArgumentsPart(r: Request): Bytes {
    ItemsText(r.items) + r.text
  }

  function ActionPart(r: Request): Bytes {
    r.gap + ("<" + Content(r.action) + ">" + (ArgumentsPart(r) + ("</" + Content(r.actionEnd) + ">" + r.tail)))
  }

  function RequestText(r: Request): Bytes {
    Preamble(r.preamble) + (r.lead + ("<" + Content(r.body) + ">" + (ActionPart(r)
      + ("</" + Content(r.bodyEnd) + ">" + r.rest))))
  }

  lemma ItemsPassed(items: seq<Item>, text: Bytes, after: Bytes, name: Bytes)
    requires (forall i <- items :: ItemOk(i)) && '<' !in text && NotNamed(items, name)
    ensures FindClose(ItemsText(items) + text + after, name) ==
      Shift(|ItemsText(items) + text|, FindClose(after, name))
  {
    hide FindClose, ItemOk, ItemsText, NotNamed, Quiet;
    CloseOverItems(items, text + after, name);
    QuietText(text);
    CloseAfterQuiet(text, after, name);
    assert ItemsText(items) + text + after == ItemsText(items) + (text + after);
    ShiftTwice(|ItemsText(items)|, |text|, FindClose(after, name));
  }

  lemma ActionEnds(r: Request, after: Bytes)
    requires RequestOk(r) && NotNamed(r.items, r.action.local)
    ensures FindClose(ArgumentsPart(r) + ("</" + Content(r.actionEnd) + ">" + after), r.action.local)
      == Some((|ArgumentsPart(r)|, |Content(r.actionEnd)| + 3))
  {
    hide FindClose, ItemOk, ItemsText, NotNamed, TagOk, Content, Opens, ChunkOk;
    ItemsPassed(r.items, r.text, "</" + Content(r.actionEnd) + ">" + after, r.action.local);
    CloseNamed(r.actionEnd, after, r.action.local);
  }

  lemma BodyCloses(r: Request)
    requires RequestOk(r) && NotNamed(r.items, "Body")
    ensures var p := FindClose(ActionPart(r) + ("</" + Content(r.bodyEnd) + ">" + r.rest), "Body");
            p.Some? && p.value.0 == |ActionPart(r)|
  {
    hide FindClose, ItemOk, Content, Inner, TagOk, Opens, ActionPart, NotNamed, ChunkOk;
    var close := "</" + Content(r.bodyEnd) + ">" + r.rest;
    ActionPassed(r, close);
    CloseNamed(r.bodyEnd, r.rest, "Body");
  }

  // The end of the body is looked for past everything in the action.
  lemma ActionPassed(r: Request, close: Bytes)
    requires RequestOk(r) && NotNamed(r.items, "Body")
    ensures FindClose(ActionPart(r) + close, "Body") == Shift(|ActionPart(r)|, FindClose(close, "Body"))
  {
    hide FindClose, ItemOk, Content, Inner, Quiet, Trimmed, Plain, ArgumentsPart;
    var open := r.gap + ("<" + Content(r.action) + ">" + "");
    var end := "</" + Content(r.actionEnd) + ">";
    QuietOpening(r.gap, r.action, "");
    CloseAfterQuiet(open, ArgumentsPart(r) + (end + (r.tail + close)), "Body");
    ArgumentsPassed(r, end + (r.tail + close));
    EndPassed(r, close);
    assert ActionPart(r) + close == open + (ArgumentsPart(r) + (end + (r.tail + close)));
    ShiftTwice(|open|, |ArgumentsPart(r)|, FindClose(end + (r.tail + close), "Body"));
    ShiftTwice(|open| + |ArgumentsPart(r)|, |end| + |r.tail|, FindClose(close, "Body"));
  }

  lemma ArgumentsPassed(r: Request, after: Bytes)
    requires RequestOk(r) && NotNamed(r.items, "Body")
    ensures FindClose(ArgumentsPart(r) + after, "Body") == Shift(|ArgumentsPart(r)|, FindClose(after, "Body"))
  {
    hide FindClose, ItemOk, ItemsText, NotNamed, TagOk, Opens, ChunkOk;
    ItemsPassed(r.items, r.text, after, "Body");
  }

  lemma EndPassed(r: Request, close: Bytes)
    requires RequestOk(r)
    ensures var end := "</" + Content(r.actionEnd) + ">";
            FindClose(end + (r.tail + close), "Body") == Shift(|end| + |r.tail|, FindClose(close, "Body"))
  {
    hide FindClose, ItemOk, Content, TagOk, Opens, Quiet, ChunkOk;
    CloseNamed(r.actionEnd, r.tail + close, "Body");
    QuietText(r.tail);
    CloseAfterQuiet(r.tail, close, "Body");
    ShiftTwice(|Content(r.actionEnd)| + 3, |r.tail|, FindClose(close, "Body"));
  }

  lemma BodyIs(r: Request)
    requires RequestOk(r) && NotNamed(r.items, "Body")
    ensures FindElementBody(RequestText(r), "Body") == Some(ActionPart(r))
  {
    hide FindClose, FindElementBody, ItemOk, Content, Preamble, ActionPart, TagOk, Opens, ChunkOk;
    var close := "</" + Content(r.bodyEnd) + ">" + r.rest;
    var rest := ActionPart(r) + close;
    BodyAfter(r.preamble, r.lead + ("<" + Content(r.body) + ">" + rest));
    BodyAt(r.lead, r.body, rest);
    BodyCloses(r);
    Parts(ActionPart(r), close);
  }

  lemma ChildIs(r: Request)
    requires RequestOk(r) && NotNamed(r.items, r.action.local)
    ensures FirstChild(ActionPart(r)) == Some((Inner(r.action), ArgumentsPart(r)))
  {
    hide Find, FindClose, ItemOk, Content, Inner, ElementName, ElementPrefix, Trim, TagOk, ArgumentsPart;
    var t := r.action;
    var close := "</" + Content(r.actionEnd) + ">" + r.tail;
    ContentTrims(t);
    InnerNames(t);
    TagAfter(r.gap, Content(t), ArgumentsPart(r) + close);
    ActionEnds(r, r.tail);
    Parts(ArgumentsPart(r), close);
  }

  /**
   * A request is read as what it says. Whatever stands before the body, whichever prefixes, quotes and blanks
   * it uses, with whatever other attributes, the parser finds the action by its local name, the service type
   * declared for its prefix, and the arguments, as long as no argument is named like the body or the action.
   */
  lemma RequestIsRead(r: Request, before: Bytes, after: Bytes, quote: char, s: ServiceType, more: Bytes)
    requires RequestOk(r) && NotNamed(r.items, "Body") && NotNamed(r.items, r.action.local)
    requires s.version < 0x1_0000_0000 && ServiceFirst(s.domain)
    requires DeclarationOk(r.action.prefix, before, after, quote, ServiceUrn(s)) && FindText(r.head, "xmlns").None?
    requires Inner(r.action) == r.head + " " + Declaration(r.action.prefix, before, after, quote, ServiceUrn(s)) + more
    ensures ParseAction(RequestText(r)) == Ok(Action(s, r.action.local, ArgumentsPart(r)))
    ensures Arguments(ArgumentsPart(r)) == Given(r.items)
  {
    hide FindElementBody, FirstChild, FindNamespace, ElementName, ElementPrefix, ParseServiceUrn, Declaration,
         ServiceUrn,
         Inner, RequestText, ActionPart, Arguments, ItemOk, TagOk, FindText, ServiceFirst, NotNamed;
    BodyIs(r);
    ChildIs(r);
    InnerNames(r.action);
    NamespaceIsFound(r.head, r.action.prefix, before, after, quote, ServiceUrn(s), more);
    ServiceRoundTrip(s);
    ArgumentsAre(r.items, r.text);
  }

  /** Without a declaration in its tag the action is refused. */
  lemma UndeclaredIsRefused(r: Request)
    requires RequestOk(r) && NotNamed(r.items, "Body") && NotNamed(r.items, r.action.local)
    requires FindText(Inner(r.action), "xmlns").None?
    ensures ParseAction(RequestText(r)) == Err(MissingNamespace)
  {
    hide FindElementBody, FirstChild, ElementName, ElementPrefix, Inner, RequestText, ActionPart, ItemOk, TagOk,
         FindText,
         NotNamed;
    BodyIs(r);
    ChildIs(r);
    InnerNames(r.action);
  }

  /** A namespace that is no service type is refused too. */
  lemma OtherUrnIsRefused(r: Request, before: Bytes, after: Bytes, quote: char, urn: Bytes, more: Bytes)
    requires RequestOk(r) && NotNamed(r.items, "Body") && NotNamed(r.items, r.action.local)
    requires DeclarationOk(r.action.prefix, before, after, quote, urn) && FindText(r.head, "xmlns").None?
    requires Inner(r.action) == r.head + " " + Declaration(r.action.prefix, before, after, quote, urn) + more
    requires !("urn:" <= urn) || FindText(urn[4..], ":service:").None?
    ensures ParseAction(RequestText(r)) == Err(InvalidUrn)
  {
    hide FindElementBody, FirstChild, FindNamespace, ElementName, ElementPrefix, Declaration, Inner, RequestText,
         ActionPart, ItemOk, TagOk, FindText, NotNamed;
    BodyIs(r);
    ChildIs(r);
    InnerNames(r.action);
    NamespaceIsFound(r.head, r.action.prefix, before, after, quote, urn, more);
  }

  /** A body that holds no element, or one without content first, has no action. */
  lemma NoAction(cs: seq<Chunk>, lead: Bytes, body: Tag, gap: Bytes, bodyEnd: Tag, rest: Bytes)
    requires (forall c <- cs :: ChunkOk(c)) && '<' !in lead && TagOk(body) && body.local == "Body"
    requires '<' !in gap && TagOk(bodyEnd) && bodyEnd.before == "" && bodyEnd.local == "Body"
    ensures var close := "</" + Content(bodyEnd) + ">" + rest;
            ParseAction(Preamble(cs) + (lead + ("<" + Content(body) + ">" + (gap + close)))) == Err(MissingAction)
  {
    hide FindClose, FindElementBody, Content, Preamble, TagOk, ChunkOk, Quiet, Find, ElementName;
    var close := "</" + Content(bodyEnd) + ">" + rest;
    BodyAfter(cs, lead + ("<" + Content(body) + ">" + (gap + close)));
    BodyAt(lead, body, gap + close);
    QuietText(gap);
    CloseAfterQuiet(gap, close, "Body");
    CloseNamed(bodyEnd, rest, "Body");
    Parts(gap, close);
    FindIs(gap, '<', |gap|) by {
      assert gap[..|gap|] == gap;
    }
  }

  // ---------- names with several colons, and other refusals ----------

  /** The local name is what follows the last colon, the prefix what precedes the first. */
  lemma ColonsSplit(prefix: Bytes, middle: Bytes, local: Bytes, attributes: Bytes)
    requires NoSpace(prefix) && NoSpace(middle) && NoSpace(local) && ':' !in prefix && ':' !in local && local != ""
    requires attributes == "" || IsAsciiSpace(attributes[0])
    ensures var name := prefix + (":" + (middle + ":" + local));
            ElementName(name + attributes) == Some(local) && ElementPrefix(name + attributes) == Some(prefix)
  {
    hide FirstToken, Find;
    var name := prefix + (":" + (middle + ":" + local));
    var front := prefix + (":" + middle);
    assert name == front + ":" + local;
    NoSpaceSum(prefix, ":" + middle);
    NoSpaceSum(":", middle);
    NoSpaceSum(front, ":");
    NoSpaceSum(front + ":", local);
    TokenOf(name, attributes);
    LocalOf(front, local);
    assert name == prefix + ([':'] + (middle + ":" + local));
    PartsAround(prefix, ':', middle + ":" + local);
    FindIs(name, ':', |prefix|);
  }

  lemma NoSpaceSum(a: Bytes, b: Bytes)
    requires NoSpace(a) && NoSpace(b)
    ensures NoSpace(a + b)
  {
  }

  /** A body whose first tag is a comment, an instruction, a closing tag or closed in itself has no action. */
  lemma MarkedFirst(gap: Bytes, tag: Bytes, rest: Bytes)
    requires '<' !in gap && Plain(tag)
    requires var t := Trim(tag); StartsWith(t, '/') || StartsWith(t, '!') || StartsWith(t, '?') || EndsWith(t, '/')
    ensures FirstChild(gap + ("<" + tag + ">" + rest)) == None
  {
    hide Find, FindClose, ElementName, Trim;
    TagAfter(gap, tag, rest);
  }

  /** An action or a body that is never closed is none. */
  lemma Unclosed(cs: seq<Chunk>, lead: Bytes, t: Tag, text: Bytes)
    requires (forall c <- cs :: ChunkOk(c)) && '<' !in lead && '<' !in text
    ensures TagOk(t) && t.local == "Body" ==>
              ParseAction(Preamble(cs) + (lead + ("<" + Content(t) + ">" + text))) == Err(MissingBody)
    ensures Opens(t) ==> FirstChild(lead + ("<" + Content(t) + ">" + text)) == None
  {
    hide FindClose, FindElementBody, Content, Inner, Preamble, TagOk, ChunkOk, Find, ElementName, ElementPrefix, Trim;
    NeverCloses(text, t.local);
    if TagOk(t) && t.local == "Body" {
      BodyAfter(cs, lead + ("<" + Content(t) + ">" + text));
      BodyAt(lead, t, text);
    }
    if Opens(t) {
      ContentTrims(t);
      InnerNames(t);
      TagAfter(lead, Content(t), text);
    }
  }

  lemma NeverCloses(text: Bytes, name: Bytes)
    requires '<' !in text
    ensures FindClose(text, name) == None
  {
    hide FindClose, Quiet, FindText;
    QuietText(text);
    CloseAfterQuiet(text, "", name);
    assert text + "" == text;
    NothingCloses(name);
  }

  lemma NothingCloses(name: Bytes)
    ensures FindClose("", name) == None
  {
  }

  /** The version of a service type is a number of 32 bits, or the type is refused. */
  lemma VersionDecides(domain: Bytes, kind: Bytes, version: Bytes)
    requires ServiceFirst(domain) && ':' !in version
    ensures ParseServiceUrn("urn:" + (domain + (":service:" + (kind + (":" + version))))) ==
      match ParseUint(version, 4_294_967_295)
      case None => Err(InvalidUrn)
      case Some(n) => Ok(ServiceType(domain, kind, n))
  {
    hide FindText, FindLast, ParseUint, ParseServiceUrn, ServiceFirst;
    var tail := kind + (":" + version);
    var rest := domain + (":service:" + tail);
    Parts("urn:", rest);
    PartsBeside(domain, ":service:", tail);
    assert tail == kind + ([':'] + version);
    PartsAround(kind, ':', version);
    FirstServiceIs(domain, tail);
    LastColon(kind, version);
    ParsedAt("urn:" + rest, |domain|, tail, |kind|);
  }

  lemma LastColon(kind: Bytes, version: Bytes)
    requires ':' !in version
    ensures FindLast(kind + (":" + version), ':') == Some(|kind|)
  {
    hide FindLast;
    var t := kind + ([':'] + version);
    assert kind + (":" + version) == t;
    PartsAround(kind, ':', version);
    forall i | |kind| < i < |t|
      ensures t[i] != ':'
    {
      assert t[i] == version[i - |kind| - 1];
    }
    LastIs(t, ':', |kind|);
  }
}
