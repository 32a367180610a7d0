/** Byte ranges of a media file: parsing, applying and serving them (RFC 7233, sections 2.1 and 4). */
module Ranges {
  import opened Wrappers
  import opened Text

  const U64_MAX := 0xFFFF_FFFF_FFFF_FFFF

  datatype RangeSpec = From(first: nat, last: Option<nat>) | Suffix(len: nat)

  datatype ByteSpan = ByteSpan(start: nat, end: nat) {
    function Len(): int {
      end - start + 1
    }
  }

  datatype RangeError = Invalid | Unsatisfiable

  function ParseU64(s: Bytes): Result<nat, RangeError> {
    if s == "" || !AllDigits(s) then Err(Invalid)
    else match ParseUint(s, U64_MAX) case None => Err(Invalid) case Some(n) => Ok(n)
  }

  function ParseRange(input: Bytes): Result<RangeSpec, RangeError> {
    match StripPrefix(Trim(input), "bytes=")
    case None => Err(Invalid)
    case Some(spec) =>
      var dash := Find(spec, '-');
      if ',' in spec || dash == |spec| then Err(Invalid)
      else
        var start, end := spec[..dash], spec[dash + 1..];
        if start == "" then
          var len :- ParseU64(end);
          if len == 0 then Err(Unsatisfiable) else Ok(Suffix(len))
        else
          var first :- ParseU64(start);
          if end == "" then Ok(From(first, None))
          else
            var last :- ParseU64(end);
            if last < first then Err(Unsatisfiable) else Ok(From(first, Some(last)))
  }

  function Min(a: nat, b: nat): nat {
    if a <= b then a else b
  }

  function Apply(spec: RangeSpec, total: nat): Result<ByteSpan, RangeError> {
    if total == 0 then Err(Unsatisfiable)
    else
      match spec
      case From(first, last) =>
        if first >= total then Err(Unsatisfiable)
        else Ok(ByteSpan(first, if last.None? then total - 1 else Min(last.value, total - 1)))
      case Suffix(len) => Ok(ByteSpan(total - Min(len, total), total - 1))
  }

  // ---------- what a range asks for ----------

  // Specs the parser produces: not backwards, not empty, within 64 bits.
  predicate SpecOk(spec: RangeSpec) {
    match spec
    case From(first, last) => first <= U64_MAX && (last.Some? ==> first <= last.value <= U64_MAX)
    case Suffix(len) => 0 < len <= U64_MAX
  }

  // Octet `i` of a representation of `total` octets is asked for.
  predicate Wanted(spec: RangeSpec, total: nat, i: int) {
    && 0 <= i < total
    && match spec
       case From(first, last) => first <= i && (last.Some? ==> i <= last.value)
       case Suffix(len) => total - len <= i
  }

  lemma ParsedSpecIsOk(input: Bytes)
    ensures ParseRange(input).Ok? ==> SpecOk(ParseRange(input).value)
  {
    hide Trim, Find, ParseUint;
  }

  predicate Covers(r: ByteSpan, i: int) {
    r.start <= i <= r.end
  }

  /** Applying a range gives exactly the octets asked for, within 64 bits, and fails exactly when there are none. */
  lemma ApplyIsIntersection(spec: RangeSpec, total: nat)
    requires SpecOk(spec) && total <= U64_MAX
    ensures Apply(spec, total).Ok? ==> forall i :: Covers(Apply(spec, total).value, i) <==> Wanted(spec, total, i)
    ensures Apply(spec, total).Ok? ==>
      var r := Apply(spec, total).value; r.start <= r.end < total && 1 <= r.Len() <= total
    ensures Apply(spec, total).Err? <==> forall i :: !Wanted(spec, total, i)
  {
    if Apply(spec, total).Ok? {
      assert Wanted(spec, total, Apply(spec, total).value.start);
    }
  }

  // ---------- the planned response ----------

  datatype Method = Get | Head

  datatype Status = Complete | Partial | NotSatisfiable

  datatype ContentRange = Octets(start: nat, end: nat, total: nat) | Unsatisfied(total: nat)

  datatype Plan = Plan(
    status: Status, sendBody: bool, contentLength: nat, contentRange: Option<ContentRange>, body: Option<ByteSpan>)

  function Requested(range: Option<Bytes>, total: nat): Result<ByteSpan, RangeError> {
    if range.None? then Err(Invalid)
    else var spec :- ParseRange(range.value); Apply(spec, total)
  }

  function PlanResponse(m: Method, total: nat, range: Option<Bytes>): Plan
    requires total <= U64_MAX
  {
    match Requested(range, total)
    case Ok(r) =>
      RequestedIsOk(range, total);
      Plan(Partial, m == Get, r.Len(), Some(Octets(r.start, r.end, total)), Some(r))
    case Err(Unsatisfiable) => Plan(NotSatisfiable, false, 0, Some(Unsatisfied(total)), None)
    case Err(Invalid) =>
      Plan(Complete, m == Get, total, None, if total != 0 then Some(ByteSpan(0, total - 1)) else None)
  }

  lemma RequestedIsOk(range: Option<Bytes>, total: nat)
    requires total <= U64_MAX
    ensures Requested(range, total).Ok? ==>
      var r := Requested(range, total).value; r.start <= r.end < total && 1 <= r.Len() <= total
  {
    hide ParseRange, Apply;
    if range.Some? && ParseRange(range.value).Ok? {
      ParsedSpecIsOk(range.value);
      ApplyIsIntersection(ParseRange(range.value).value, total);
    }
  }

  // The octets that follow the header.
  function Body(data: Bytes, p: Plan): Bytes
    requires p.body.Some? ==> p.body.value.start <= p.body.value.end < |data|
  {
    if p.sendBody && p.body.Some? then data[p.body.value.start..p.body.value.end + 1] else ""
  }

  /**
   * The announced length is the length of the body that a GET sends and a HEAD would have sent. A range
   * that parses yields exactly the octets it asks for, labelled as such. It is refused exactly when it asks
   * for none, be it on its own terms (backwards, or the last 0) or in this file; a header that is no single
   * byte range is ignored and yields everything.
   */
  lemma PlanIsHonest(m: Method, data: Bytes, range: Option<Bytes>)
    requires |data| <= U64_MAX
    ensures var p := PlanResponse(m, |data|, range);
            && (p.body.Some? ==> p.body.value.start <= p.body.value.end < |data|)
            && (m == Get ==> |Body(data, p)| == p.contentLength)
            && (m == Head ==> Body(data, p) == "" && p.contentLength == PlanResponse(Get, |data|, range).contentLength)
            && (p.status == NotSatisfiable ==> p.contentLength == 0 && p.contentRange == Some(Unsatisfied(|data|)))
            && (p.status == Partial ==>
                  && range.Some? && ParseRange(range.value).Ok?
                  && p.contentRange == Some(Octets(p.body.value.start, p.body.value.end, |data|))
                  && forall i :: Covers(p.body.value, i) <==> Wanted(ParseRange(range.value).value, |data|, i))
            && (p.status == Complete && m == Get ==> Body(data, p) == data && p.contentRange == None)
            && (p.status == Complete <==> range.None? || ParseRange(range.value) == Err(Invalid))
            && (p.status == NotSatisfiable <==>
                  range.Some? &&
                  match ParseRange(range.value)
                  case Ok(spec) => forall i :: !Wanted(spec, |data|, i)
                  case Err(e) => e == Unsatisfiable)
  {
    hide ParseRange, Apply, Wanted;
    RequestedIsOk(range, |data|);
    if range.Some? && ParseRange(range.value).Ok? {
      ParsedSpecIsOk(range.value);
      ApplyIsIntersection(ParseRange(range.value).value, |data|);
      ApplyErrors(ParseRange(range.value).value, |data|);
    }
  }

  lemma ApplyErrors(spec: RangeSpec, total: nat)
    ensures Apply(spec, total).Err? ==> Apply(spec, total).error == Unsatisfiable
  {
  }

  // ---------- the grammar of a range ----------

  lemma RangeSplits(a: Bytes, b: Bytes)
    requires '-' !in a && ',' !in a && ',' !in b
    ensures var spec := a + "-" + b;
            Find(spec, '-') == |a| < |spec| && spec[..|a|] == a && spec[|a| + 1..] == b && ',' !in spec
  {
    hide Find;
    var spec := a + "-" + b;
    assert spec == a + (['-'] + b);
    PartsAround(a, '-', b);
    FindIs(spec, '-', |a|);
  }

  lemma RangeIsTrimmed(pre: Bytes, a: Bytes, b: Bytes, post: Bytes)
    requires Blanks(pre) && Blanks(post) && AllDigits(b)
    ensures var v := "bytes=" + (a + "-" + b); Trim(pre + v + post) == v && "bytes=" <= v
  {
    hide Trim;
    var v := "bytes=" + (a + "-" + b);
    assert v[|v| - 1] == if b == "" then '-' else b[|b| - 1];
    assert b != "" ==> IsDigit(b[|b| - 1]);
    TrimPadded(pre, v, post);
  }

  /** What a range of two runs of digits, either of them possibly empty, asks for, and how it fails. */
  lemma RangeIsRead(pre: Bytes, a: Bytes, b: Bytes, post: Bytes)
    requires Blanks(pre) && Blanks(post) && AllDigits(a) && AllDigits(b)
    ensures ParseRange(pre + ("bytes=" + (a + "-" + b)) + post) ==
      if (a == "" && b == "") || NatOf(a) > U64_MAX || NatOf(b) > U64_MAX then Err(Invalid)
      else if a == "" then if NatOf(b) == 0 then Err(Unsatisfiable) else Ok(Suffix(NatOf(b)))
      else if b == "" then Ok(From(NatOf(a), None))
      else if NatOf(b) < NatOf(a) then Err(Unsatisfiable)
      else Ok(From(NatOf(a), Some(NatOf(b))))
  {
    hide Trim, Find, AllDigits;
    var spec := a + "-" + b;
    DigitsAreNoMarks(a);
    DigitsAreNoMarks(b);
    RangeIsTrimmed(pre, a, b, post);
    Parts("bytes=", spec);
    RangeSplits(a, b);
    DigitsParse(a);
    DigitsParse(b);
  }

  lemma DigitsAreNoMarks(d: Bytes)
    requires AllDigits(d)
    ensures '-' !in d && ',' !in d
  {
    assert forall i | 0 <= i < |d| :: IsDigit(d[i]);
  }

  lemma DigitsParse(d: Bytes)
    requires AllDigits(d)
    ensures d == "" ==> NatOf(d) == 0
    ensures d != "" ==> ParseU64(d) == if NatOf(d) <= U64_MAX then Ok(NatOf(d)) else Err(Invalid)
  {
    assert d != "" ==> IsDigit(d[0]);
  }

  /** Any other text is no range at all. */
  lemma OnlyRangesAreRead(input: Bytes)
    requires ParseRange(input) != Err(Invalid)
    ensures exists a, b :: AllDigits(a) && AllDigits(b) && Trim(input) == "bytes=" + (a + "-" + b)
  {
    hide Trim, Find, AllDigits, NatOf, ParseUint;
    var v := Trim(input);
    var spec := v[6..];
    var dash := Find(spec, '-');
    assert v == "bytes=" + spec;
    assert spec == spec[..dash] + "-" + spec[dash + 1..];
    NothingIsDigits();
    assert AllDigits(spec[..dash]) && AllDigits(spec[dash + 1..]);
  }

  lemma NothingIsDigits()
    ensures AllDigits("")
  {
  }

  /** A suffix range brings the last octets of the file, or all of it when it has fewer. */
  lemma SuffixServes(data: Bytes, n: nat)
    requires 0 < n <= U64_MAX && 0 < |data| <= U64_MAX
    ensures var p := PlanResponse(Get, |data|, Some("bytes=-" + Dec(n)));
            var start := if n <= |data| then |data| - n else 0;
            && ParseRange("bytes=-" + Dec(n)) == Ok(Suffix(n))
            && p.status == Partial && p.contentRange == Some(Octets(start, |data| - 1, |data|))
            && p.contentLength == |data| - start
            && p.body == Some(ByteSpan(start, |data| - 1)) && Body(data, p) == data[start..]
  {
    hide ParseRange, Dec, NatOf, AllDigits;
    var d := Dec(n);
    NothingIsDigits();
    DigitsParse("");
    NatOfDec(n);
    RangeIsRead("", "", d, "");
    assert "" + ("bytes=" + ("" + "-" + d)) + "" == "bytes=-" + d;
  }

  /** A range from a position brings the octets up to its end or to that of the file; past that it is refused. */
  lemma RangeServes(data: Bytes, first: nat, last: Option<nat>)
    requires |data| <= U64_MAX && first <= U64_MAX && (last.Some? ==> first <= last.value <= U64_MAX)
    ensures var p := PlanResponse(Get, |data|, Some(RangeText(first, last)));
            var stop := if last.None? || last.value >= |data| then |data| else last.value + 1;
            if first >= |data| then p == Plan(NotSatisfiable, false, 0, Some(Unsatisfied(|data|)), None)
            else
              && p.status == Partial && p.contentRange == Some(Octets(first, stop - 1, |data|))
              && p.contentLength == stop - first
              && p.body == Some(ByteSpan(first, stop - 1)) && Body(data, p) == data[first..stop]
  {
    hide ParseRange, RangeText;
    RangeParsesBack(first, last);
  }

  // ---------- a client that resumes ----------

  // `bytes=first-last`, or `bytes=first-` for the rest.
  function RangeText(first: nat, last: Option<nat>): Bytes {
    "bytes=" + Dec(first) + "-" + if last.None? then "" else Dec(last.value)
  }

  lemma RangeParsesBack(first: nat, last: Option<nat>)
    requires SpecOk(From(first, last))
    ensures ParseRange(RangeText(first, last)) == Ok(From(first, last))
  {
    hide ParseRange, Dec, NatOf, AllDigits;
    var a, b := Dec(first), if last.None? then "" else Dec(last.value);
    NothingIsDigits();
    DigitsParse("");
    NatOfDec(first);
    if last.Some? {
      NatOfDec(last.value);
    }
    RangeIsRead("", a, b, "");
    assert "" + ("bytes=" + (a + "-" + b)) + "" == RangeText(first, last);
  }

  // What a GET for that range brings.
  function Fetch(data: Bytes, first: nat, last: Option<nat>): Bytes
    requires |data| <= U64_MAX
  {
    PlanIsHonest(Get, data, Some(RangeText(first, last)));
    Body(data, PlanResponse(Get, |data|, Some(RangeText(first, last))))
  }

  // Asks for pieces of the given sizes one after the other, each from where the last one ended, then for the rest.
  function Resume(data: Bytes, from: nat, sizes: seq<nat>): Bytes
    requires |data| <= U64_MAX && forall i | 0 <= i < |sizes| :: 0 < sizes[i]
    decreases |sizes|
  {
    if from >= |data| then ""
    else if sizes == [] then Fetch(data, from, None)
    else
      var piece := Fetch(data, from, Some(from + sizes[0] - 1));
      piece + Resume(data, from + |piece|, sizes[1..])
  }

  lemma FetchIs(data: Bytes, first: nat, last: Option<nat>)
    requires |data| <= U64_MAX && first < |data| && SpecOk(From(first, last))
    ensures Fetch(data, first, last) == data[first..if last.None? then |data| else Min(last.value + 1, |data|)]
  {
    hide ParseRange, RangeText;
    RangeParsesBack(first, last);
  }

  /** However a client cuts a download into ranges, resuming where it stopped, it receives the file. */
  lemma {:induction false} ResumedIsWhole(data: Bytes, from: nat, sizes: seq<nat>)
    requires |data| <= U64_MAX && from <= |data|
    requires forall i | 0 <= i < |sizes| :: 0 < sizes[i]
    requires forall i | 0 <= i < |sizes| :: |data| + sizes[i] <= U64_MAX
    ensures Resume(data, from, sizes) == data[from..]
    decreases |sizes|
  {
    hide Fetch;
    if from < |data| {
      if sizes == [] {
        FetchIs(data, from, None);
      } else {
        var last := from + sizes[0] - 1;
        FetchIs(data, from, Some(last));
        var next := Min(last + 1, |data|);
        ResumedIsWhole(data, next, sizes[1..]);
        assert data[from..next] + data[next..] == data[from..];
      }
    }
  }
}
