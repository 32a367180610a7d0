/** Octet strings, and the few operations of Rust's `str` the SSDP code relies on. */
module Text {
  import opened Wrappers

  // An octet string: every character stands for one octet of a datagram, 0..255.
  type Bytes = string

  // ---------- sequences ----------

  // The two parts of a concatenation.
  lemma Parts<T>(a: seq<T>, b: seq<T>)
    ensures (a + b)[..|a|] == a && (a + b)[|a|..] == b
  {
  }

  // A slice of a slice.
  lemma SubSlice<T>(s: seq<T>, from: nat, to: nat, i: nat, j: nat)
    requires from <= to <= |s| && i <= j <= to - from
    ensures s[from..to][i..j] == s[from + i..from + j]
  {
    var t := s[from..to];
    forall k | 0 <= k < j - i
      ensures t[i..j][k] == s[from + i..from + j][k]
    {
      assert t[i..j][k] == t[i + k] == s[from + (i + k)];
    }
  }

  // The parts of a concatenation beside the middle one.
  lemma PartsBeside<T>(a: seq<T>, m: seq<T>, b: seq<T>)
    ensures (a + (m + b))[..|a|] == a && (a + (m + b))[|a| + |m|..] == b
  {
    Parts(a, m + b);
    Parts(m, b);
    assert (a + (m + b))[|a| + |m|..] == (a + (m + b))[|a|..][|m|..];
  }

  // The parts of a concatenation around one element.
  lemma PartsAround<T>(a: seq<T>, x: T, b: seq<T>)
    ensures var s := a + ([x] + b);
            |s| == |a| + 1 + |b| && s[..|a|] == a && s[|a|] == x && s[|a| + 1..] == b
  {
    var s := a + ([x] + b);
    Parts(a, [x] + b);
    Parts([x], b);
    assert s[|a| + 1..] == s[|a|..][1..];
  }

  // ---------- pieces ----------

  function Joined(pieces: seq<Bytes>): Bytes {
    if pieces == [] then "" else pieces[0] + Joined(pieces[1..])
  }

  lemma JoinedCons(piece: Bytes, rest: seq<Bytes>)
    ensures Joined([piece] + rest) == piece + Joined(rest)
  {
    assert ([piece] + rest)[1..] == rest;
  }

  lemma JoinedSix(a: Bytes, b: Bytes, c: Bytes, d: Bytes, e: Bytes, f: Bytes)
    ensures Joined([a, b, c, d, e, f]) == a + b + c + d + e + f
  {
    hide Joined;
    assert [a, b, c, d, e, f] == [a] + ([b] + ([c] + ([d] + ([e] + ([f] + [])))));
    JoinedCons(a, [b] + ([c] + ([d] + ([e] + ([f] + [])))));
    JoinedCons(b, [c] + ([d] + ([e] + ([f] + []))));
    JoinedCons(c, [d] + ([e] + ([f] + [])));
    JoinedCons(d, [e] + ([f] + []));
    JoinedCons(e, [f] + []);
    JoinedCons(f, []);
    assert Joined([]) == "" by { JoinedNone(); }
    assert a + (b + (c + (d + (e + (f + ""))))) == a + b + c + d + e + f;
  }

  lemma JoinedNone()
    ensures Joined([]) == ""
  {
  }

  lemma JoinedOne(piece: Bytes)
    ensures Joined([piece]) == piece
  {
    assert piece + "" == piece;
  }

  lemma JoinedThree(a: Bytes, b: Bytes, c: Bytes)
    ensures Joined([a, b, c]) == a + b + c
  {
    hide Joined;
    assert [a, b, c] == [a] + ([b] + [c]);
    JoinedCons(a, [b] + [c]);
    JoinedCons(b, [c]);
    JoinedOne(c);
    assert a + (b + c) == a + b + c;
  }

  lemma {:induction false} JoinedSplits(pieces: seq<Bytes>, i: nat)
    requires i <= |pieces|
    ensures Joined(pieces) == Joined(pieces[..i]) + Joined(pieces[i..])
  {
    if i == 0 {
      assert pieces[..0] == [] && pieces[0..] == pieces;
    } else {
      var rest := pieces[1..];
      JoinedSplits(rest, i - 1);
      assert pieces[..i] == [pieces[0]] + rest[..i - 1] && pieces[i..] == rest[i - 1..];
      JoinedCons(pieces[0], rest[..i - 1]);
      assert pieces[0] + (Joined(rest[..i - 1]) + Joined(rest[i - 1..]))
          == pieces[0] + Joined(rest[..i - 1]) + Joined(rest[i - 1..]);
    }
  }

  lemma {:induction false} JoinedSnoc(pieces: seq<Bytes>, last: Bytes)
    ensures Joined(pieces + [last]) == Joined(pieces) + last
  {
    if pieces == [] {
      JoinedOne(last);
      assert [] + [last] == [last] && "" + last == last;
    } else {
      assert (pieces + [last])[0] == pieces[0] && (pieces + [last])[1..] == pieces[1..] + [last];
      JoinedSnoc(pieces[1..], last);
      assert pieces[0] + (Joined(pieces[1..]) + last) == pieces[0] + Joined(pieces[1..]) + last;
    }
  }

  // ---------- prefixes and searching ----------

  function StripPrefix(s: Bytes, p: Bytes): Option<Bytes> {
    if p <= s then Some(s[|p|..]) else None
  }

  // The length of the longest prefix of `s` whose octets all satisfy `p`.
  function Span(s: Bytes, p: char -> bool): (n: nat)
    ensures n <= |s|
    ensures forall i | 0 <= i < n :: p(s[i])
    ensures n < |s| ==> !p(s[n])
  {
    if s == [] || !p(s[0]) then 0 else 1 + Span(s[1..], p)
  }

  lemma SpanIs(s: Bytes, p: char -> bool, n: nat)
    requires n <= |s|
    requires forall i | 0 <= i < n :: p(s[i])
    requires n < |s| ==> !p(s[n])
    ensures Span(s, p) == n
  {
  }

  // The first position of `c` in `s`, or |s| when there is none.
  function Find(s: Bytes, c: char): (n: nat)
    ensures n <= |s|
    ensures c !in s[..n]
    ensures n < |s| ==> s[n] == c
  {
    if s == [] || s[0] == c then 0 else 1 + Find(s[1..], c)
  }

  lemma FindIs(s: Bytes, c: char, n: nat)
    requires n <= |s| && c !in s[..n]
    requires n < |s| ==> s[n] == c
    ensures Find(s, c) == n
  {
    var m := Find(s, c);
    assert forall i | 0 <= i < n :: s[..n][i] == s[i];
    assert forall i | 0 <= i < m :: s[..m][i] == s[i];
  }

  // The first position at which `p` occurs in `s`, if any.
  function FindText(s: Bytes, p: Bytes): (r: Option<nat>)
    ensures r.Some? ==> r.value + |p| <= |s| && s[r.value..r.value + |p|] == p
    ensures r.Some? ==> forall i | 0 <= i < r.value :: !OccursAt(s, p, i)
    ensures r.None? ==> forall i | 0 <= i <= |s| :: !OccursAt(s, p, i)
  {
    if p <= s then
      Some(0)
    else if s == [] then
      None
    else
      var r := FindText(s[1..], p);
      assert forall i | 1 <= i <= |s| :: OccursAt(s, p, i) == OccursAt(s[1..], p, i - 1);
      if r.Some? then Some(r.value + 1) else None
  }

  predicate OccursAt(s: Bytes, p: Bytes, i: int)
  {
    0 <= i && i + |p| <= |s| && s[i..i + |p|] == p
  }

  lemma FindTextIs(s: Bytes, p: Bytes, n: nat)
    requires OccursAt(s, p, n)
    requires forall i | 0 <= i < n :: !OccursAt(s, p, i)
    ensures FindText(s, p) == Some(n)
  {
    hide FindText;
    var r := FindText(s, p);
    assert r.Some? ==> OccursAt(s, p, r.value);
  }

  // ---------- ASCII case folding ----------

  function Lower(c: char): char {
    if 'A' <= c <= 'Z' then (c as int + 32) as char else c
  }

  predicate EqIgnoreCase(a: Bytes, b: Bytes) {
    |a| == |b| && forall i | 0 <= i < |a| :: Lower(a[i]) == Lower(b[i])
  }

  // The text with its ASCII capitals made small.
  function Fold(c: char): char {
    if 'A' <= c <= 'Z' then 'a' + (c - 'A') else c
  }

  function Folded(s: Bytes): Bytes {
    seq(|s|, i requires 0 <= i < |s| => Fold(s[i]))
  }

  lemma FoldedAlike(a: Bytes, b: Bytes)
    ensures EqIgnoreCase(a, b) <==> Folded(a) == Folded(b)
  {
    forall c: char
      ensures Lower(c) == Fold(c)
    {
    }
    if Folded(a) == Folded(b) {
      forall i | 0 <= i < |a|
        ensures Lower(a[i]) == Lower(b[i])
      {
        assert Folded(a)[i] == Folded(b)[i];
      }
    }
  }

  // ---------- trimming ----------

  predicate IsAsciiSpace(c: char) {
    c == ' ' || c == '\t' || c == '\n' || c as int == 12 || c == '\r'
  }

  // Width in octets of the Unicode White_Space character encoded at position 0, or 0.
  function SpaceWidth(s: Bytes): (w: nat)
    ensures w <= |s| && w <= 3
  {
    if |s| >= 1 && IsSpace1(s[0]) then 1
    else if |s| >= 2 && IsSpace2(s[0], s[1]) then 2
    else if |s| >= 3 && IsSpace3(s[0], s[1], s[2]) then 3
    else 0
  }

  // Width in octets of the Unicode White_Space character that ends `s`, or 0.
  function SpaceWidthAtEnd(s: Bytes): (w: nat)
    ensures w <= |s| && w <= 3
  {
    var n := |s|;
    if n >= 1 && IsSpace1(s[n - 1]) then 1
    else if n >= 2 && IsSpace2(s[n - 2], s[n - 1]) then 2
    else if n >= 3 && IsSpace3(s[n - 3], s[n - 2], s[n - 1]) then 3
    else 0
  }

  predicate IsSpace1(c: char) {
    9 as char <= c <= 13 as char || c == ' '
  }

  // U+0085 and U+00A0.
  predicate IsSpace2(a: char, b: char) {
    a as int == 0xC2 && (b as int == 0x85 || b as int == 0xA0)
  }

  // U+1680, U+2000..U+200A, U+2028, U+2029, U+202F, U+205F and U+3000.
  predicate IsSpace3(a: char, b: char, c: char) {
    || (a as int == 0xE1 && b as int == 0x9A && c as int == 0x80)
    || (a as int == 0xE2 && b as int == 0x80 &&
        (0x80 <= c as int <= 0x8A || c as int == 0xA8 || c as int == 0xA9 || c as int == 0xAF))
    || (a as int == 0xE2 && b as int == 0x81 && c as int == 0x9F)
    || (a as int == 0xE3 && b as int == 0x80 && c as int == 0x80)
  }

  function TrimStart(s: Bytes): (r: Bytes)
    ensures SpaceWidth(r) == 0
    decreases |s|
  {
    var w := SpaceWidth(s);
    if w == 0 then s else TrimStart(s[w..])
  }

  function TrimEnd(s: Bytes): (r: Bytes)
    ensures SpaceWidthAtEnd(r) == 0
    ensures r <= s
    decreases |s|
  {
    var w := SpaceWidthAtEnd(s);
    if w == 0 then s else TrimEnd(s[..|s| - w])
  }

  function Trim(s: Bytes): Bytes {
    TrimEnd(TrimStart(s))
  }

  // No white space at either end: exactly the strings `Trim` leaves alone.
  predicate Trimmed(s: Bytes) {
    SpaceWidth(s) == 0 && SpaceWidthAtEnd(s) == 0
  }

  lemma TrimIsTrimmed(s: Bytes)
    ensures Trimmed(Trim(s))
    ensures Trimmed(s) ==> Trim(s) == s
  {
    var t := TrimStart(s);
    var r := TrimEnd(t);
    if |r| < |t| {
      PrefixKeepsNonSpace(t, r);
    }
  }

  // Cutting the end of a string that starts with no white space exposes none.
  lemma PrefixKeepsNonSpace(t: Bytes, r: Bytes)
    requires r <= t && SpaceWidth(t) == 0
    ensures SpaceWidth(r) == 0
  {
  }

  // Blanks and tabs.
  predicate Blanks(s: Bytes) {
    forall i | 0 <= i < |s| :: s[i] == ' ' || s[i] == '\t'
  }

  lemma {:induction false} TrimStartBlanks(a: Bytes, v: Bytes)
    requires Blanks(a)
    ensures TrimStart(a + v) == TrimStart(v)
  {
    if a == "" {
      assert a + v == v;
    } else {
      assert (a + v)[1..] == a[1..] + v && SpaceWidth(a + v) == 1;
      TrimStartBlanks(a[1..], v);
    }
  }

  lemma {:induction false} TrimEndBlanks(v: Bytes, b: Bytes)
    requires Blanks(b)
    ensures TrimEnd(v + b) == TrimEnd(v)
  {
    if b == "" {
      assert v + b == v;
    } else {
      var s := v + b;
      assert s[..|s| - 1] == v + b[..|b| - 1] && SpaceWidthAtEnd(s) == 1;
      TrimEndBlanks(v, b[..|b| - 1]);
    }
  }

  // Blanks around a text are trimmed away.
  lemma TrimPadded(a: Bytes, v: Bytes, b: Bytes)
    requires Blanks(a) && Blanks(b) && Trimmed(v) && v != ""
    ensures Trim(a + v + b) == v
  {
    hide TrimStart, TrimEnd, SpaceWidth, SpaceWidthAtEnd;
    assert a + v + b == a + (v + b);
    TrimStartBlanks(a, v + b);
    StartStays(v, b);
    TrimEndBlanks(v, b);
    TrimsToItself(v);
  }

  lemma TrimsToItself(v: Bytes)
    requires Trimmed(v)
    ensures TrimStart(v) == v && TrimEnd(v) == v
  {
  }

  lemma StartStays(v: Bytes, b: Bytes)
    requires Blanks(b) && SpaceWidth(v) == 0 && v != ""
    ensures TrimStart(v + b) == v + b
  {
    var s := v + b;
    assert s[0] == v[0];
    assert |v| > 1 ==> s[1] == v[1];
    assert |v| > 2 ==> s[2] == v[2];
  }

  // ---------- decimal numbers ----------

  function Digit(d: nat): char
    requires d < 10
  {
    ('0' as int + d) as char
  }

  predicate IsDigit(c: char) {
    '0' <= c <= '9'
  }

  predicate AllDigits(s: Bytes) {
    forall i | 0 <= i < |s| :: IsDigit(s[i])
  }

  // The decimal representation without leading zeros.
  function Dec(n: nat): (s: Bytes)
    ensures |s| >= 1 && AllDigits(s)
  {
    if n < 10 then [Digit(n)] else Dec(n / 10) + [Digit(n % 10)]
  }

  function NatOf(s: Bytes): nat
    requires AllDigits(s)
  {
    if s == [] then 0 else NatOf(s[..|s| - 1]) * 10 + (s[|s| - 1] as int - '0' as int)
  }

  // Rust's unsigned `str::parse`: an optional '+', at least one digit, no overflow past `max`.
  function ParseUint(s: Bytes, max: nat): (r: Option<nat>)
    ensures r.Some? ==> r.value <= max
  {
    var d := if s != [] && s[0] == '+' then s[1..] else s;
    if d == [] || !AllDigits(d) || NatOf(d) > max then None else Some(NatOf(d))
  }

  // Digits, after a plus sign or none.
  lemma UintIs(plus: bool, digits: Bytes, max: nat)
    requires digits != "" && AllDigits(digits)
    ensures var v := (if plus then "+" else "") + digits;
            Trim(v) == v && ParseUint(v, max) == if NatOf(digits) <= max then Some(NatOf(digits)) else None
  {
    hide Trim, NatOf;
    var v := (if plus then "+" else "") + digits;
    assert if plus then v[0] == '+' && v[1..] == digits else v == digits;
    assert IsDigit(digits[0]) && v[|v| - 1] == digits[|digits| - 1] && IsDigit(digits[|digits| - 1]);
    TrimIsTrimmed(v);
  }

  lemma {:induction false} DecOfDigits(d: Bytes)
    requires d != [] && AllDigits(d)
    ensures |Dec(NatOf(d))| <= |d|
  {
    var rest := d[..|d| - 1];
    if rest != [] {
      DecOfDigits(rest);
      assert NatOf(d) / 10 == NatOf(rest);
    }
  }

  // Digits no longer than the decimal representation are that representation.
  lemma {:induction false} DecIsShortest(d: Bytes)
    requires d != [] && AllDigits(d)
    ensures |Dec(NatOf(d))| == |d| ==> Dec(NatOf(d)) == d
  {
    var rest := d[..|d| - 1];
    if rest != [] {
      DecIsShortest(rest);
      DecOfDigits(rest);
      assert NatOf(d) / 10 == NatOf(rest) && NatOf(d) % 10 == d[|d| - 1] as int - '0' as int;
      assert d == rest + [d[|d| - 1]];
    }
  }

  lemma {:induction false} NatOfDec(n: nat)
    ensures NatOf(Dec(n)) == n
  {
    if n >= 10 {
      NatOfDec(n / 10);
      assert Dec(n)[..|Dec(n)| - 1] == Dec(n / 10);
    }
  }

  lemma ParseDec(n: nat, max: nat)
    ensures ParseUint(Dec(n), max) == if n <= max then Some(n) else None
  {
    NatOfDec(n);
    assert Dec(n)[0] != '+' by {
      assert IsDigit(Dec(n)[0]);
    }
  }

  lemma {:induction false} DecMonotone(m: nat, n: nat)
    requires m <= n
    ensures |Dec(m)| <= |Dec(n)|
  {
    if m >= 10 {
      DecMonotone(m / 10, n / 10);
    }
  }

  function Nines(k: nat): nat {
    if k == 0 then 0 else Nines(k - 1) * 10 + 9
  }

  // A u32 never needs more than ten digits.
  lemma DecWidth(n: nat)
    requires n < 0x1_0000_0000
    ensures |Dec(n)| <= 10
  {
    DecMonotone(n, 9_999_999_999);
    DecOfNines(9_999_999_999, 10);
  }

  lemma {:induction false} DecOfNines(n: nat, k: nat)
    requires n == Nines(k) && k > 0
    ensures |Dec(n)| == k
  {
    if k > 1 {
      DecOfNines(n / 10, k - 1);
    }
  }

  // ---------- UTF-8 (RFC 3629, section 4) ----------

  predicate IsCont(c: char) {
    0x80 <= c as int <= 0xBF
  }

  // Width of the well-formed UTF-8 sequence at position 0, or 0 when there is none.
  function Utf8Width(s: Bytes): (w: nat)
    ensures w <= |s| && w <= 4
    ensures forall i | 1 <= i < w :: IsCont(s[i])
  {
    if s == [] then 0
    else
      var a := s[0] as int;
      if a < 0x80 then 1
      else if 0xC2 <= a <= 0xDF && |s| >= 2 && IsCont(s[1]) then 2
      else if |s| >= 3 && IsCont(s[1]) && IsCont(s[2]) && Lead3(a, s[1] as int) then 3
      else if |s| >= 4 && IsCont(s[1]) && IsCont(s[2]) && IsCont(s[3]) && Lead4(a, s[1] as int) then 4
      else 0
  }

  predicate Lead3(a: int, b: int) {
    || (a == 0xE0 && 0xA0 <= b)
    || (0xE1 <= a <= 0xEF && a != 0xED)
    || (a == 0xED && b <= 0x9F)
  }

  predicate Lead4(a: int, b: int) {
    || (a == 0xF0 && 0x90 <= b)
    || (0xF1 <= a <= 0xF3)
    || (a == 0xF4 && b <= 0x8F)
  }

  predicate ValidUtf8(s: Bytes)
    decreases |s|
  {
    s == [] || (Utf8Width(s) > 0 && ValidUtf8(s[Utf8Width(s)..]))
  }

  // A continuation octet never starts a character.
  predicate StartsChar(s: Bytes) {
    s == [] || !IsCont(s[0])
  }

  lemma {:induction false} Utf8Join(a: Bytes, b: Bytes)
    requires ValidUtf8(a) && ValidUtf8(b)
    ensures ValidUtf8(a + b)
    decreases |a|
  {
    if a == [] {
      assert a + b == b;
    } else {
      hide Utf8Width;
      var w := Utf8Width(a);
      WidthOfJoin(a, b);
      assert (a + b)[w..] == a[w..] + b;
      Utf8Join(a[w..], b);
    }
  }

  lemma WidthOfJoin(a: Bytes, b: Bytes)
    requires Utf8Width(a) > 0
    ensures Utf8Width(a + b) == Utf8Width(a)
  {
    var s := a + b;
    assert s[0] == a[0];
    assert |a| > 1 ==> s[1] == a[1];
    assert |a| > 2 ==> s[2] == a[2];
    assert |a| > 3 ==> s[3] == a[3];
  }

  // Text may be cut wherever a character starts.
  lemma {:induction false} Utf8Split(a: Bytes, b: Bytes)
    requires ValidUtf8(a + b) && StartsChar(b)
    ensures ValidUtf8(a) && ValidUtf8(b)
    decreases |a|
  {
    if a == [] {
      assert a + b == b;
    } else {
      var w := Utf8Width(a + b);
      assert b != [] ==> (a + b)[|a|] == b[0];
      assert (a + b)[w..] == a[w..] + b;
      assert Utf8Width(a) == w;
      Utf8Split(a[w..], b);
    }
  }

  lemma {:induction false} AsciiIsUtf8(s: Bytes)
    requires forall i | 0 <= i < |s| :: s[i] as int < 0x80
    ensures ValidUtf8(s)
    decreases |s|
  {
    if s != [] {
      AsciiIsUtf8(s[1..]);
    }
  }
}
