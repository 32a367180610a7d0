/** Reading a duration out of an MP4 file (ISO/IEC 14496-12, sections 4.2 and 8.2.2). */
module Mp4 {
  import opened Wrappers
  import opened Text

  type Byte = n: int | 0 <= n < 256
  type Data = seq<Byte>

  const U64_MAX := 0xFFFF_FFFF_FFFF_FFFF
  const MOOV: Data := [0x6D, 0x6F, 0x6F, 0x76]
  const MVHD: Data := [0x6D, 0x76, 0x68, 0x64]

  datatype IoError = UnexpectedEof

  datatype MovieTime = MovieTime(timescale: nat, duration: nat)

  // ---------- big-endian numbers ----------

  function Pow256(k: nat): nat {
    if k == 0 then 1 else 256 * Pow256(k - 1)
  }

  function BigEndian(b: Data): (n: nat)
    ensures n < Pow256(|b|)
  {
    if b == [] then 0 else BigEndian(b[..|b| - 1]) * 256 + b[|b| - 1]
  }

  function BytesOf(n: nat, width: nat): (b: Data)
    ensures |b| == width
  {
    if width == 0 then [] else BytesOf(n / 256, width - 1) + [n % 256]
  }

  lemma {:induction false} BigEndianOfBytes(n: nat, width: nat)
    requires n < Pow256(width)
    ensures BigEndian(BytesOf(n, width)) == n
  {
    if width > 0 {
      BigEndianOfBytes(n / 256, width - 1);
      assert BytesOf(n, width)[..width - 1] == BytesOf(n / 256, width - 1);
    }
  }

  lemma {:induction false} BytesOfBigEndian(b: Data)
    ensures BytesOf(BigEndian(b), |b|) == b
  {
    if b != [] {
      BytesOfBigEndian(b[..|b| - 1]);
      assert BigEndian(b) / 256 == BigEndian(b[..|b| - 1]);
    }
  }

  lemma Widths()
    ensures Pow256(4) == 0x1_0000_0000 && Pow256(8) == U64_MAX + 1
  {
    assert Pow256(4) == 256 * 256 * 256 * 256 by { assert Pow256(2) == 65536; }
    assert Pow256(6) == 256 * 256 * Pow256(4);
  }

  // ---------- boxes as trees ----------

  // How a box states its size: in 32 bits, in 64 bits, or as reaching to the end of what encloses it.
  datatype Form = Short | Long | ToEnd

  /** A box: a movie box with its children, or any other. `junk` is what follows the last readable child. */
  datatype Box =
    | Leaf(form: Form, kind: Data, payload: Data)
    | Movie(form: Form, children: seq<Box>, junk: Data)

  function Kind(b: Box): Data {
    if b.Movie? then MOOV else b.kind
  }

  function HeaderLen(f: Form): nat {
    if f == Long then 16 else 8
  }

  function Header(f: Form, kind: Data, payload: nat): Data {
    match f
    case Short => BytesOf(8 + payload, 4) + kind
    case Long => BytesOf(1, 4) + kind + BytesOf(16 + payload, 8)
    case ToEnd => BytesOf(0, 4) + kind
  }

  function Payload(b: Box): Data
    decreases b, 0
  {
    match b
    case Leaf(_, _, payload) => payload
    case Movie(_, children, junk) => Forest(children) + junk
  }

  function Serial(b: Box): Data
    decreases b, 1
  {
    Header(b.form, Kind(b), |Payload(b)|) + Payload(b)
  }

  function Forest(bs: seq<Box>): Data
    decreases bs
  {
    if bs == [] then [] else Serial(bs[0]) + Forest(bs[1..])
  }

  // The 32-bit size field.
  function SizeField(d: Data): nat
    requires |d| >= 8
  {
    BigEndian(d[..4])
  }

  // No box can be read here: too short for its header, or a size too small for it or too large for the rest.
  predicate Unreadable(d: Data) {
    || |d| < 8
    || (SizeField(d) == 1 && |d| < 16)
    || (SizeField(d) == 1 && !(16 <= BigEndian(d[8..16]) <= |d|))
    || (SizeField(d) > 1 && !(8 <= SizeField(d) <= |d|))
  }

  predicate ValidBox(b: Box, last: bool)
    decreases b
  {
    && |Kind(b)| == 4
    && (match b.form
        case Short => 8 + |Payload(b)| < Pow256(4)
        case Long => 16 + |Payload(b)| < Pow256(8)
        case ToEnd => last)
    && (match b
        case Leaf(_, kind, _) => kind != MOOV
        case Movie(_, children, junk) => ValidForest(children, junk))
  }

  predicate ValidForest(bs: seq<Box>, junk: Data)
    decreases bs
  {
    if bs == [] then Unreadable(junk)
    else ValidBox(bs[0], bs[1..] == [] && junk == []) && ValidForest(bs[1..], junk)
  }

  // The movie header of section 8.2.2, in its two versions.
  function MovieHeader(p: Data): Option<MovieTime> {
    if |p| < 20 then None
    else if p[0] == 0 then Some(MovieTime(BigEndian(p[12..16]), BigEndian(p[16..20])))
    else if p[0] == 1 && |p| >= 32 then Some(MovieTime(BigEndian(p[20..24]), BigEndian(p[24..32])))
    else None
  }

  /** What is looked for: the first movie header, depth first, entering movie boxes only. */
  function Search(bs: seq<Box>): Option<MovieTime>
    decreases bs
  {
    if bs == [] then None
    else
      match bs[0]
      case Leaf(_, kind, payload) => if kind == MVHD then MovieHeader(payload) else Search(bs[1..])
      case Movie(_, children, _) =>
        var found := Search(children);
        if found.Some? then found else Search(bs[1..])
  }

  // ---------- walking a file by offsets ----------

  function ReadAt(d: Data, pos: nat, n: nat): Result<Data, IoError> {
    if pos + n <= |d| then Ok(d[pos..pos + n]) else Err(UnexpectedEof)
  }

  function SaturatingAdd(a: nat, b: nat): nat {
    if a + b <= U64_MAX then a + b else U64_MAX
  }

  // Size and header length of the box at `start`, by its size field; the wide size is read even past `end`.
  function Extent(d: Data, start: nat, end: nat, size32: nat): Result<(nat, nat), IoError>
    requires start <= end
  {
    if size32 == 0 then Ok((end - start, 8))
    else if size32 == 1 then var wide :- ReadAt(d, start + 8, 8); Ok((BigEndian(wide), 16))
    else Ok((size32, 8))
  }

  predicate Fits(start: nat, size: nat, headerLen: nat, end: nat) {
    size >= headerLen && SaturatingAdd(start, size) <= end
  }

  function HeaderAt(d: Data, start: nat, end: nat): Result<Option<MovieTime>, IoError>
    requires start <= end
  {
    if end - start < 20 then Ok(None)
    else
      var version :- ReadAt(d, start, 4);
      if version[0] == 0 then
        var f :- ReadAt(d, start + 4, 16);
        Ok(Some(MovieTime(BigEndian(f[8..12]), BigEndian(f[12..16]))))
      else if version[0] == 1 then
        if end - start < 32 then Ok(None)
        else
          var f :- ReadAt(d, start + 4, 28);
          Ok(Some(MovieTime(BigEndian(f[16..20]), BigEndian(f[20..28]))))
      else Ok(None)
  }

  function Walk(d: Data, start: nat, end: nat): Result<Option<MovieTime>, IoError>
    requires end < U64_MAX
    decreases if start <= end then end - start else 0
  {
    if start + 8 > end || start + 8 > |d| then Ok(None)
    else
      var (size, headerLen) :- Extent(d, start, end, BigEndian(d[start..start + 4]));
      if !Fits(start, size, headerLen, end) then Ok(None)
      else
        var kind := d[start + 4..start + 8];
        if kind == MVHD then HeaderAt(d, start + headerLen, start + size)
        else if kind == MOOV then
          var found :- Walk(d, start + headerLen, start + size);
          if found.Some? then Ok(found) else Walk(d, start + size, end)
        else Walk(d, start + size, end)
  }

  // ---------- the walk is the search ----------

  lemma SliceOfSum(x: Data, y: Data, i: nat, j: nat)
    requires i <= j <= |x|
    ensures (x + y)[i..j] == x[i..j]
  {
  }

  lemma HeaderAtIs(d: Data, start: nat, end: nat)
    requires start <= end <= |d|
    ensures HeaderAt(d, start, end) == Ok(MovieHeader(d[start..end]))
  {
    hide BigEndian;
    var p := d[start..end];
    if |p| >= 20 {
      assert d[start..start + 4][0] == p[0];
      if p[0] == 0 {
        var f := d[start + 4..start + 20];
        SubSlice(d, start + 4, start + 20, 8, 12);
        SubSlice(d, start + 4, start + 20, 12, 16);
        SubSlice(d, start, end, 12, 16);
        SubSlice(d, start, end, 16, 20);
      } else if p[0] == 1 && |p| >= 32 {
        var f := d[start + 4..start + 32];
        SubSlice(d, start + 4, start + 32, 16, 20);
        SubSlice(d, start + 4, start + 32, 20, 28);
        SubSlice(d, start, end, 20, 24);
        SubSlice(d, start, end, 24, 32);
      }
    }
  }

  lemma HeaderLength(f: Form, kind: Data, payload: nat)
    requires |kind| == 4
    ensures |Header(f, kind, payload)| == HeaderLen(f)
  {
  }

  lemma HeaderFields(f: Form, kind: Data, payload: nat, h: Data)
    requires |kind| == 4 && h == Header(f, kind, payload)
    requires f == Short ==> 8 + payload < Pow256(4)
    requires f == Long ==> 16 + payload < Pow256(8)
    ensures |h| == HeaderLen(f) && h[4..8] == kind
    ensures BigEndian(h[..4]) == match f case Short => 8 + payload case Long => 1 case ToEnd => 0
    ensures f == Long ==> BigEndian(h[8..16]) == 16 + payload
  {
    hide BytesOf, BigEndian, Pow256;
    Widths();
    match f
    case Short =>
      BigEndianOfBytes(8 + payload, 4);
      assert h[..4] == BytesOf(8 + payload, 4);
    case Long =>
      BigEndianOfBytes(1, 4);
      BigEndianOfBytes(16 + payload, 8);
      assert h[..4] == BytesOf(1, 4) && h[8..16] == BytesOf(16 + payload, 8);
    case ToEnd =>
      BigEndianOfBytes(0, 4);
      assert h[..4] == BytesOf(0, 4);
  }

  // Header and payload of a serialized box where it stands.
  lemma BoxParts(d: Data, start: nat, h: Data, payload: Data)
    requires start + |h + payload| <= |d| && |h| >= 8 && d[start..start + |h + payload|] == h + payload
    ensures d[start..start + 4] == h[..4] && d[start + 4..start + 8] == h[4..8]
    ensures |h| >= 16 ==> d[start + 8..start + 16] == h[8..16]
    ensures d[start + |h|..start + |h + payload|] == payload
  {
    var n := |h + payload|;
    SubSlice(d, start, start + n, 0, 4);
    SliceOfSum(h, payload, 0, 4);
    SubSlice(d, start, start + n, 4, 8);
    SliceOfSum(h, payload, 4, 8);
    if |h| >= 16 {
      SubSlice(d, start, start + n, 8, 16);
      SliceOfSum(h, payload, 8, 16);
    }
    SubSlice(d, start, start + n, |h|, n);
    assert (h + payload)[|h|..n] == payload;
  }

  // Where a serialized box stands, the walk reads its extent and kind.
  lemma ExtentOfBox(d: Data, start: nat, end: nat, b: Box, last: bool)
    requires ValidBox(b, last) && start + |Serial(b)| <= end <= |d| && end < U64_MAX
    requires d[start..start + |Serial(b)|] == Serial(b)
    requires last ==> start + |Serial(b)| == end
    ensures |Serial(b)| == HeaderLen(b.form) + |Payload(b)|
    ensures Extent(d, start, end, BigEndian(d[start..start + 4])) == Ok((|Serial(b)|, HeaderLen(b.form)))
    ensures Fits(start, |Serial(b)|, HeaderLen(b.form), end)
    ensures d[start + 4..start + 8] == Kind(b)
    ensures d[start + HeaderLen(b.form)..start + |Serial(b)|] == Payload(b)
  {
    hide BigEndian, BytesOf, Pow256, Payload, ValidForest, Header;
    var h := Header(b.form, Kind(b), |Payload(b)|);
    HeaderFields(b.form, Kind(b), |Payload(b)|, h);
    BoxParts(d, start, h, Payload(b));
  }

  // A header of 16 octets starts in this junk, but the file, which goes on for `after` octets, ends within it.
  predicate Cut(junk: Data, after: nat) {
    |junk| >= 8 && SizeField(junk) == 1 && |junk| + after < 16
  }

  lemma WalkUnreadable(d: Data, start: nat, end: nat)
    requires start <= end <= |d| && end < U64_MAX && Unreadable(d[start..end])
    ensures Walk(d, start, end) == if Cut(d[start..end], |d| - end) then Err(UnexpectedEof) else Ok(None)
  {
    hide BigEndian;
    var junk := d[start..end];
    if start + 8 <= end {
      SubSlice(d, start, end, 0, 4);
      if |junk| >= 16 {
        SubSlice(d, start, end, 8, 16);
      }
    }
  }

  /** The search in a file with `after` more octets behind this forest: a header cut short by its end ends it. */
  function SearchFile(bs: seq<Box>, junk: Data, after: nat): Result<Option<MovieTime>, IoError>
    decreases bs
  {
    if bs == [] then if Cut(junk, after) then Err(UnexpectedEof) else Ok(None)
    else
      match bs[0]
      case Leaf(_, kind, payload) => if kind == MVHD then Ok(MovieHeader(payload)) else SearchFile(bs[1..], junk, after)
      case Movie(_, children, inner) =>
        var found :- SearchFile(children, inner, |Forest(bs[1..]) + junk| + after);
        if found.Some? then Ok(found) else SearchFile(bs[1..], junk, after)
  }

  /** Unless it is cut short, that is the plain search; and it is not when no level ends in a header's worth of junk. */
  lemma {:induction false} SearchFileIs(bs: seq<Box>, junk: Data, after: nat)
    ensures SearchFile(bs, junk, after).Ok? ==> SearchFile(bs, junk, after) == Ok(Search(bs))
    ensures Tidy(bs, junk) ==> SearchFile(bs, junk, after).Ok?
    ensures after >= 8 ==> SearchFile(bs, junk, after).Ok?
    decreases bs
  {
    hide MovieHeader, Forest, BigEndian;
    if bs != [] {
      SearchFileIs(bs[1..], junk, after);
      if bs[0].Movie? {
        SearchFileIs(bs[0].children, bs[0].junk, |Forest(bs[1..]) + junk| + after);
      }
    }
  }

  // No level is followed by as much as a header's worth of junk.
  predicate Tidy(bs: seq<Box>, junk: Data)
    decreases bs
  {
    if bs == [] then |junk| < 8
    else (bs[0].Movie? ==> Tidy(bs[0].children, bs[0].junk)) && Tidy(bs[1..], junk)
  }

  lemma ForestCons(bs: seq<Box>, junk: Data)
    requires bs != []
    ensures Forest(bs) + junk == Serial(bs[0]) + (Forest(bs[1..]) + junk)
    ensures |Forest(bs)| == |Serial(bs[0])| + |Forest(bs[1..])|
  {
    hide Serial;
  }

  // One step of the walk, once the extent of the box is known.
  lemma WalkStep(d: Data, start: nat, end: nat, size: nat, headerLen: nat, kind: Data)
    requires start + 8 <= end && start + 8 <= |d| && end < U64_MAX && headerLen >= 8
    requires Extent(d, start, end, BigEndian(d[start..start + 4])) == Ok((size, headerLen))
    requires Fits(start, size, headerLen, end) && kind == d[start + 4..start + 8]
    ensures start + size <= end
    ensures Walk(d, start, end) ==
      if kind == MVHD then HeaderAt(d, start + headerLen, start + size)
      else if kind != MOOV then Walk(d, start + size, end)
      else
        var inner := Walk(d, start + headerLen, start + size);
        if inner == Ok(None) then Walk(d, start + size, end) else inner
  {
    hide BigEndian, Extent, HeaderAt;
  }

  lemma WalkStops(d: Data, start: nat, end: nat)
    requires end < U64_MAX
    ensures start + 8 > end || start + 8 > |d| ==> Walk(d, start, end) == Ok(None)
    ensures start + 8 <= end && start + 8 <= |d| ==>
      var extent := Extent(d, start, end, BigEndian(d[start..start + 4]));
      && (extent.Err? ==> Walk(d, start, end) == Err(extent.error))
      && (extent.Ok? && !Fits(start, extent.value.0, extent.value.1, end) ==> Walk(d, start, end) == Ok(None))
  {
    hide BigEndian, Extent, HeaderAt, Fits;
  }

  lemma ForestSplits(bs: seq<Box>, junk: Data, d: Data, start: nat)
    requires bs != [] && start + |Forest(bs) + junk| <= |d|
    requires d[start..start + |Forest(bs) + junk|] == Forest(bs) + junk
    ensures var n := |Serial(bs[0])|;
            && |Forest(bs)| == n + |Forest(bs[1..])|
            && d[start..start + n] == Serial(bs[0])
            && d[start + n..start + |Forest(bs) + junk|] == Forest(bs[1..]) + junk
  {
    hide Serial, Forest;
    var n := |Serial(bs[0])|;
    var all := Forest(bs) + junk;
    var tail := Forest(bs[1..]) + junk;
    ForestCons(bs, junk);
    SubSlice(d, start, start + |all|, 0, n);
    SubSlice(d, start, start + |all|, n, |all|);
    SliceOfSum(Serial(bs[0]), tail, 0, n);
    assert (Serial(bs[0]) + tail)[n..|all|] == tail;
  }

  lemma {:induction false} WalkAgrees(d: Data, start: nat, bs: seq<Box>, junk: Data)
    requires ValidForest(bs, junk) && start + |Forest(bs) + junk| <= |d| < U64_MAX
    requires d[start..start + |Forest(bs) + junk|] == Forest(bs) + junk
    ensures var end := start + |Forest(bs) + junk|; Walk(d, start, end) == SearchFile(bs, junk, |d| - end)
    decreases bs
  {
    hide Walk, Forest, Cut, MovieHeader, Serial, Unreadable, ValidBox;
    var end := start + |Forest(bs) + junk|;
    EmptyForest();
    if bs == [] {
      assert [] + junk == junk;
      WalkUnreadable(d, start, end);
    } else {
      var b, rest := bs[0], bs[1..];
      var next := start + |Serial(b)|;
      WalkBox(d, start, bs, junk);
      WalkAgrees(d, next, rest, junk);
      if b.Movie? {
        WalkAgrees(d, start + HeaderLen(b.form), b.children, b.junk);
        assert |d| - next == |Forest(rest) + junk| + (|d| - end);
      }
    }
  }

  // One box of the walk: where its payload and what follows it stand, and what the walk makes of it.
  lemma WalkBox(d: Data, start: nat, bs: seq<Box>, junk: Data)
    requires bs != [] && ValidForest(bs, junk) && start + |Forest(bs) + junk| <= |d| < U64_MAX
    requires d[start..start + |Forest(bs) + junk|] == Forest(bs) + junk
    ensures var b, end := bs[0], start + |Forest(bs) + junk|;
            var inside, next := start + HeaderLen(b.form), start + |Serial(b)|;
            && ValidForest(bs[1..], junk)
            && next + |Forest(bs[1..]) + junk| == end && d[next..end] == Forest(bs[1..]) + junk
            && (b.Leaf? ==>
                  Walk(d, start, end) == if b.kind == MVHD then Ok(MovieHeader(b.payload)) else Walk(d, next, end))
            && (b.Movie? ==>
                  && ValidForest(b.children, b.junk)
                  && inside + |Forest(b.children) + b.junk| == next && d[inside..next] == Forest(b.children) + b.junk
                  && Walk(d, start, end) ==
                       var inner := Walk(d, inside, next);
                       if inner == Ok(None) then Walk(d, next, end) else inner)
  {
    hide BigEndian, Extent, Fits, Unreadable, Cut, Header, Pow256, MovieHeader, HeaderAt, Serial, ValidBox, Kind,
         Walk, Forest;
    var b, end := bs[0], start + |Forest(bs) + junk|;
    var n, last := |Serial(b)|, bs[1..] == [] && junk == [];
    ForestSplits(bs, junk, d, start);
    EmptyForest();
    ExtentOfBox(d, start, end, b, last);
    BoxKinds(b, last);
    WalkStep(d, start, end, n, HeaderLen(b.form), Kind(b));
    HeaderAtIs(d, start + HeaderLen(b.form), start + n);
  }

  lemma EmptyForest()
    ensures Forest([]) == []
  {
  }

  lemma BoxKinds(b: Box, last: bool)
    requires ValidBox(b, last)
    ensures b.Leaf? ==> Kind(b) == b.kind != MOOV
    ensures b.Movie? ==> Kind(b) == MOOV != MVHD && ValidForest(b.children, b.junk)
  {
  }

  // ---------- every file is such a forest ----------

  function Decode(d: Data): (seq<Box>, Data)
    decreases |d|
  {
    if Unreadable(d) then ([], d)
    else
      var size32 := SizeField(d);
      var form := if size32 == 0 then ToEnd else if size32 == 1 then Long else Short;
      var size := if size32 == 0 then |d| else if size32 == 1 then BigEndian(d[8..16]) else size32;
      var kind, payload := d[4..8], d[HeaderLen(form)..size];
      var (rest, junk) := Decode(d[size..]);
      if kind == MOOV then
        var (children, inner) := Decode(payload);
        ([Movie(form, children, inner)] + rest, junk)
      else ([Leaf(form, kind, payload)] + rest, junk)
  }

  // A header spelled by its fields.
  lemma HeaderOfFields(d: Data, form: Form, size: nat)
    requires |d| >= HeaderLen(form) && HeaderLen(form) <= size <= |d|
    requires BigEndian(d[..4]) == match form case Short => size case Long => 1 case ToEnd => 0
    requires form == Long ==> BigEndian(d[8..16]) == size
    ensures d[..size] == Header(form, d[4..8], size - HeaderLen(form)) + d[HeaderLen(form)..size]
  {
    hide BytesOf, BigEndian;
    BytesOfBigEndian(d[..4]);
    if form == Long {
      BytesOfBigEndian(d[8..16]);
    }
    assert d[..size] == d[..4] + d[4..8] + d[8..size];
    assert form == Long ==> d[8..size] == d[8..16] + d[16..size];
  }

  /** Any octets at all are the serialization of a valid box forest followed by junk. */
  lemma {:induction false} DecodeIsFaithful(d: Data)
    ensures var (bs, junk) := Decode(d); ValidForest(bs, junk) && Forest(bs) + junk == d
    decreases |d|
  {
    hide BigEndian, Header, Pow256;
    if !Unreadable(d) {
      var size32 := SizeField(d);
      var form := if size32 == 0 then ToEnd else if size32 == 1 then Long else Short;
      var size := if size32 == 0 then |d| else if size32 == 1 then BigEndian(d[8..16]) else size32;
      var kind, payload := d[4..8], d[HeaderLen(form)..size];
      var (rest, junk) := Decode(d[size..]);
      DecodeIsFaithful(d[size..]);
      if kind == MOOV {
        var (children, inner) := Decode(payload);
        DecodeIsFaithful(payload);
        DecodedBox(d, Movie(form, children, inner), rest, junk, size);
      } else {
        DecodedBox(d, Leaf(form, kind, payload), rest, junk, size);
      }
    } else {
      assert Forest([]) + d == d;
    }
  }

  lemma SizesFit(d: Data)
    ensures |d| >= 8 ==> SizeField(d) < Pow256(4)
    ensures |d| >= 16 ==> BigEndian(d[8..16]) < Pow256(8)
  {
    hide Pow256;
  }

  lemma DecodedBox(d: Data, b: Box, rest: seq<Box>, junk: Data, size: nat)
    requires !Unreadable(d) && HeaderLen(b.form) <= size <= |d|
    requires BigEndian(d[..4]) == match b.form case Short => size case Long => 1 case ToEnd => 0
    requires b.form == Long ==> BigEndian(d[8..16]) == size
    requires b.form == ToEnd ==> size == |d|
    requires Kind(b) == d[4..8] && Payload(b) == d[HeaderLen(b.form)..size] && d[size..] == Forest(rest) + junk
    requires ValidForest(rest, junk)
    requires match b
             case Leaf(_, kind, _) => kind != MOOV
             case Movie(_, children, inner) => ValidForest(children, inner)
    ensures ValidForest([b] + rest, junk) && Forest([b] + rest) + junk == d
  {
    hide Unreadable, Kind, Payload, BigEndian, Header, Pow256, Forest;
    HeaderOfFields(d, b.form, size);
    SizesFit(d);
    assert ([b] + rest)[1..] == rest;
    assert d == d[..size] + d[size..];
    ForestCons([b] + rest, junk);
    if b.form == ToEnd {
      NothingSerial(rest, junk);
    }
  }

  lemma NothingSerial(bs: seq<Box>, junk: Data)
    requires |Forest(bs) + junk| == 0 && ValidForest(bs, junk)
    ensures bs == [] && junk == []
  {
    hide Payload, ValidBox, Header;
    if bs != [] {
      assert ValidBox(bs[0], bs[1..] == [] && junk == []);
      BoxNotEmpty(bs[0], bs[1..] == [] && junk == []);
    }
  }

  lemma BoxNotEmpty(b: Box, last: bool)
    requires ValidBox(b, last)
    ensures |Serial(b)| >= 8
  {
    hide Payload, ValidForest;
    HeaderLength(b.form, Kind(b), |Payload(b)|);
  }

  /**
   * The walk is the search, on every file: read as a forest of boxes (and it always can be), a file
   * yields the first movie header in depth-first order, unless a 16-octet header is cut short first.
   */
  lemma WalkIsSearch(d: Data)
    requires |d| < U64_MAX
    ensures var (bs, junk) := Decode(d);
            && ValidForest(bs, junk) && Forest(bs) + junk == d
            && Walk(d, 0, |d|) == SearchFile(bs, junk, 0)
            && (Walk(d, 0, |d|).Ok? ==> Walk(d, 0, |d|) == Ok(Search(bs)))
  {
    hide ValidForest, Forest, Walk, Decode, SearchFile;
    var (bs, junk) := Decode(d);
    DecodeIsFaithful(d);
    assert d[0..|d|] == d;
    WalkAgrees(d, 0, bs, junk);
    SearchFileIs(bs, junk, 0);
  }

  /** A forest written out whole is searched exactly and without error, whatever mix of size forms it uses. */
  lemma SerializedForest(bs: seq<Box>)
    requires ValidForest(bs, []) && Tidy(bs, []) && |Forest(bs)| < U64_MAX
    ensures Walk(Forest(bs), 0, |Forest(bs)|) == Ok(Search(bs))
  {
    hide ValidForest, Forest, Walk, Tidy, SearchFile;
    assert Forest(bs) + [] == Forest(bs);
    assert Forest(bs)[0..|Forest(bs)|] == Forest(bs);
    WalkAgrees(Forest(bs), 0, bs, []);
    SearchFileIs(bs, [], 0);
  }

  // The movie header as section 8.2.2 lays it out: version and flags, two dates, timescale, duration, the rest.
  function MovieHeaderText(wide: bool, created: nat, modified: nat, t: MovieTime, rest: Data): Data {
    var n := if wide then 8 else 4;
    [if wide then 1 else 0, 0, 0, 0] + BytesOf(created, n) + BytesOf(modified, n)
    + BytesOf(t.timescale, 4) + BytesOf(t.duration, n) + rest
  }

  lemma MovieHeaderRoundTrip(wide: bool, created: nat, modified: nat, t: MovieTime, rest: Data)
    requires t.timescale < Pow256(4) && t.duration < Pow256(if wide then 8 else 4)
    ensures MovieHeader(MovieHeaderText(wide, created, modified, t, rest)) == Some(t)
  {
    hide BytesOf, BigEndian, Pow256;
    var p := MovieHeaderText(wide, created, modified, t, rest);
    BigEndianOfBytes(t.timescale, 4);
    if wide {
      BigEndianOfBytes(t.duration, 8);
      assert p[20..24] == BytesOf(t.timescale, 4) && p[24..32] == BytesOf(t.duration, 8);
    } else {
      BigEndianOfBytes(t.duration, 4);
      assert p[12..16] == BytesOf(t.timescale, 4) && p[16..20] == BytesOf(t.duration, 4);
    }
  }

  // ---------- the printed duration ----------

  function SaturatingMul(a: nat, b: nat): nat {
    if a * b <= U64_MAX then a * b else U64_MAX
  }

  function TotalMillis(duration: nat, timescale: nat): nat
    requires timescale > 0
  {
    SaturatingAdd(SaturatingMul(duration, 1000), timescale / 2) / timescale
  }

  function Two(n: nat): string
    requires n < 100
  {
    [Digit(n / 10), Digit(n % 10)]
  }

  function Three(n: nat): string
    requires n < 1000
  {
    [Digit(n / 100), Digit(n / 10 % 10), Digit(n % 10)]
  }

  // H:MM:SS, and .mmm unless the milliseconds are zero.
  function Clock(ms: nat): string {
    var s := ms / 1000;
    Dec(s / 3600) + ":" + Two(s % 3600 / 60) + ":" + Two(s % 60) + if ms % 1000 == 0 then "" else "." + Three(ms % 1000)
  }

  // A reader of that notation, not minding superfluous zeros.
  function ReadClock(t: string): Option<nat> {
    var i := Find(t, ':');
    if i == 0 || i == |t| || !AllDigits(t[..i]) then None else ReadMinutes(NatOf(t[..i]), t[i + 1..])
  }

  function ReadMinutes(hours: nat, r: string): Option<nat> {
    if (|r| != 5 && |r| != 9) || r[2] != ':' || !AllDigits(r[..2]) || !AllDigits(r[3..5]) then None
    else if NatOf(r[..2]) >= 60 || NatOf(r[3..5]) >= 60 then None
    else
      var whole := hours * 3_600_000 + NatOf(r[..2]) * 60_000 + NatOf(r[3..5]) * 1000;
      if |r| == 5 then Some(whole)
      else if r[5] != '.' || !AllDigits(r[6..]) then None
      else Some(whole + NatOf(r[6..]))
  }

  lemma NatOfSnoc(s: string, d: nat)
    requires AllDigits(s) && d < 10
    ensures AllDigits(s + [Digit(d)]) && NatOf(s + [Digit(d)]) == NatOf(s) * 10 + d
  {
    assert (s + [Digit(d)])[..|s|] == s;
  }

  lemma TwoReadsBack(n: nat)
    requires n < 100
    ensures AllDigits(Two(n)) && NatOf(Two(n)) == n
  {
    hide NatOf, Digit, AllDigits;
    NatOfNothing();
    NatOfSnoc([], n / 10);
    assert [] + [Digit(n / 10)] == [Digit(n / 10)];
    NatOfSnoc([Digit(n / 10)], n % 10);
    assert Two(n) == [Digit(n / 10)] + [Digit(n % 10)];
  }

  lemma NatOfNothing()
    ensures AllDigits([]) && NatOf([]) == 0
  {
  }

  lemma ThreeReadsBack(n: nat)
    requires n < 1000
    ensures AllDigits(Three(n)) && NatOf(Three(n)) == n
  {
    hide NatOf, Digit;
    TwoReadsBack(n / 10);
    NatOfSnoc(Two(n / 10), n % 10);
    assert Three(n) == Two(n / 10) + [Digit(n % 10)] by {
      assert n / 100 == n / 10 / 10;
    }
  }

  lemma ClockParts(ms: nat)
    ensures ms / 1000 / 3600 * 3_600_000 + ms / 1000 % 3600 / 60 * 60_000 + ms / 1000 % 60 * 1000 + ms % 1000 == ms
  {
    var s := ms / 1000;
    MinuteParts(s);
    assert ms == s * 1000 + ms % 1000;
  }

  lemma MinuteParts(s: nat)
    ensures s / 3600 * 3600 + s % 3600 / 60 * 60 + s % 60 == s
  {
    var h, r := s / 3600, s % 3600;
    var m := r / 60;
    assert s == 60 * (60 * h + m) + r % 60;
    assert s % 60 == r % 60 by { Remainder(s, 60 * h + m, r % 60); }
  }

  lemma Remainder(s: nat, q: nat, r: nat)
    requires s == 60 * q + r && r < 60
    ensures s % 60 == r
  {
  }

  lemma ReadHours(h: string, r: string)
    requires AllDigits(h) && h != ""
    ensures ReadClock(h + ":" + r) == ReadMinutes(NatOf(h), r)
  {
    hide NatOf, ReadMinutes;
    var t := h + ":" + r;
    assert t[..|h|] == h && t[|h| + 1..] == r;
    assert forall c <- h :: IsDigit(c);
    FindIs(t, ':', |h|);
  }

  lemma ReadPieces(hours: nat, m: string, s: string, tail: string)
    requires AllDigits(m) && AllDigits(s) && |m| == 2 && |s| == 2 && NatOf(m) < 60 && NatOf(s) < 60
    requires tail == "" || (|tail| == 4 && tail[0] == '.' && AllDigits(tail[1..]))
    ensures ReadMinutes(hours, m + ":" + s + tail) ==
      Some(hours * 3_600_000 + NatOf(m) * 60_000 + NatOf(s) * 1000 + if tail == "" then 0 else NatOf(tail[1..]))
  {
    hide NatOf, AllDigits;
    ClockSlices(m, s, tail);
  }

  lemma ClockSlices(m: string, s: string, tail: string)
    requires |m| == 2 && |s| == 2
    ensures var r := m + ":" + s + tail;
            && |r| == 5 + |tail| && r[..2] == m && r[2] == ':' && r[3..5] == s
            && (|tail| > 0 ==> r[5] == tail[0] && r[6..] == tail[1..])
  {
    var r := m + ":" + s + tail;
    assert r[5..] == tail;
    assert |tail| > 0 ==> r[6..] == r[5..][1..];
  }

  lemma ClockReadsBack(ms: nat)
    ensures ReadClock(Clock(ms)) == Some(ms)
  {
    hide Dec, NatOf, Two, Three, ReadClock, ReadMinutes, AllDigits;
    var s := ms / 1000;
    NatOfDec(s / 3600);
    TwoReadsBack(s % 3600 / 60);
    TwoReadsBack(s % 60);
    ThreeReadsBack(ms % 1000);
    PaddedWidths(s % 3600 / 60, s % 60, ms % 1000);
    var tail := if ms % 1000 == 0 then "" else "." + Three(ms % 1000);
    assert ms % 1000 != 0 ==> tail[1..] == Three(ms % 1000);
    var r := Two(s % 3600 / 60) + ":" + Two(s % 60) + tail;
    assert Clock(ms) == Dec(s / 3600) + ":" + r;
    ReadHours(Dec(s / 3600), r);
    ReadPieces(s / 3600, Two(s % 3600 / 60), Two(s % 60), tail);
    ClockParts(ms);
  }

  // ---------- the text is the shortest of its meaning ----------

  lemma TwoOfDigits(d: string)
    requires |d| == 2 && AllDigits(d)
    ensures NatOf(d) < 100 && Two(NatOf(d)) == d
  {
    var a, b := d[0] as int - '0' as int, d[1] as int - '0' as int;
    assert IsDigit(d[0]) && IsDigit(d[1]);
    assert d[..1] == [d[0]] && d[..1][..0] == [];
    assert NatOf(d[..1]) == a;
    assert NatOf(d) == 10 * a + b;
  }

  lemma ThreeOfDigits(d: string)
    requires |d| == 3 && AllDigits(d)
    ensures NatOf(d) < 1000 && Three(NatOf(d)) == d
  {
    hide NatOf, Two, AllDigits;
    var c := d[2] as int - '0' as int;
    LastDigit(d);
    TwoOfDigits(d[..2]);
    ThreeFromTwo(NatOf(d[..2]), c);
    assert d == d[..2] + [d[2]];
  }

  lemma LastDigit(d: string)
    requires |d| == 3 && AllDigits(d)
    ensures IsDigit(d[2]) && AllDigits(d[..2]) && NatOf(d) == 10 * NatOf(d[..2]) + (d[2] as int - '0' as int)
  {
  }

  lemma ThreeFromTwo(n: nat, c: nat)
    requires n < 100 && c < 10
    ensures Three(10 * n + c) == Two(n) + [Digit(c)]
  {
    assert (10 * n + c) / 10 == n && (10 * n + c) % 10 == c;
    assert (10 * n + c) / 100 == n / 10;
  }

  lemma ClockFields(h: nat, m: nat, s: nat, f: nat, ms: nat)
    requires m < 60 && s < 60 && f < 1000 && ms == h * 3_600_000 + m * 60_000 + s * 1000 + f
    ensures ms / 1000 == 3600 * h + 60 * m + s && ms % 1000 == f
    ensures ms / 1000 / 3600 == h && ms / 1000 % 3600 / 60 == m && ms / 1000 % 60 == s
  {
    var whole := 3600 * h + 60 * m + s;
    assert ms == 1000 * whole + f;
    assert whole == 3600 * h + (60 * m + s) && whole == 60 * (60 * h + m) + s;
    assert whole % 3600 == 60 * m + s;
    Remainder(whole, 60 * h + m, s);
  }

  lemma ClockIs(h: nat, m: nat, s: nat, f: nat)
    requires m < 60 && s < 60 && f < 1000
    ensures Clock(h * 3_600_000 + m * 60_000 + s * 1000 + f) ==
      Dec(h) + ":" + Two(m) + ":" + Two(s) + if f == 0 then "" else "." + Three(f)
  {
    hide Dec, Two, Three;
    ClockFields(h, m, s, f, h * 3_600_000 + m * 60_000 + s * 1000 + f);
  }

  lemma RestOfClock(hours: nat, r: string, ms: nat) returns (m: nat, s: nat, f: nat)
    requires ReadMinutes(hours, r) == Some(ms)
    ensures m < 60 && s < 60 && f < 1000 && ms == hours * 3_600_000 + m * 60_000 + s * 1000 + f
    ensures |r| == 5 || |r| == 9
    ensures |r| == 5 ==> f == 0 && r == Two(m) + ":" + Two(s)
    ensures |r| == 9 ==> r == Two(m) + ":" + Two(s) + ("." + Three(f))
  {
    hide NatOf, Two, Three, AllDigits;
    m, s := NatOf(r[..2]), NatOf(r[3..5]);
    TwoOfDigits(r[..2]);
    TwoOfDigits(r[3..5]);
    if |r| == 9 {
      f := NatOf(r[6..]);
      ThreeOfDigits(r[6..]);
    } else {
      f := 0;
    }
    SplitRest(r);
  }

  lemma SplitRest(r: string)
    requires (|r| == 5 || |r| == 9) && r[2] == ':' && (|r| == 9 ==> r[5] == '.')
    ensures r == r[..2] + ":" + r[3..5] + if |r| == 5 then "" else "." + r[6..]
  {
  }

  /** No shorter text, nor any other of its length, reads as the same time. */
  lemma ClockIsShortest(ms: nat, t: string)
    requires ReadClock(t) == Some(ms) && |t| <= |Clock(ms)|
    ensures t == Clock(ms)
  {
    hide Dec, NatOf, Two, Three, AllDigits, ReadMinutes, Clock;
    var i := Find(t, ':');
    var h, r := t[..i], t[i + 1..];
    var m, s, f := RestOfClock(NatOf(h), r, ms);
    ClockIs(NatOf(h), m, s, f);
    PaddedWidths(m, s, f);
    DecOfDigits(h);
    DecIsShortest(h);
    assert t == h + ":" + r;
    assert |r| == if f == 0 then 5 else 9;
    assert Dec(NatOf(h)) == h;
    assert h + ":" + (Two(m) + ":" + Two(s)) == h + ":" + Two(m) + ":" + Two(s) + "";
    assert h + ":" + (Two(m) + ":" + Two(s) + ("." + Three(f))) == h + ":" + Two(m) + ":" + Two(s) + ("." + Three(f));
  }

  lemma PaddedWidths(a: nat, b: nat, c: nat)
    requires a < 100 && b < 100 && c < 1000
    ensures |Two(a)| == 2 && |Two(b)| == 2 && |Three(c)| == 3
  {
  }

  lemma MulMonotone(a: nat, b: nat, t: nat)
    requires a <= b
    ensures a * t <= b * t
  {
  }

  lemma DivMonotone(a: nat, b: nat, t: nat)
    requires a <= b && t > 0
    ensures a / t <= b / t
  {
    var p, q := a / t, b / t;
    assert a == p * t + a % t && b == q * t + b % t;
    assert (q + 1) * t == q * t + t;
    if p > q {
      MulMonotone(q + 1, p, t);
    }
  }

  // The exact rounded quotient, unless it exceeds what 64 bits can hold before the division.
  lemma TotalMillisIs(duration: nat, timescale: nat)
    requires timescale > 0
    ensures var exact, cap := (duration * 1000 + timescale / 2) / timescale, U64_MAX / timescale;
            TotalMillis(duration, timescale) == if exact <= cap then exact else cap
  {
    var n := duration * 1000 + timescale / 2;
    if n <= U64_MAX {
      DivMonotone(n, U64_MAX, timescale);
    } else {
      DivMonotone(U64_MAX, n, timescale);
    }
  }

  // The quotient so rounded is nearest: twice its error is at most one unit.
  lemma RoundedIsNearest(n: nat, t: nat)
    requires t > 0
    ensures var q := (n + t / 2) / t; 0 <= 2 * (n - q * t) + t <= 2 * t
  {
    var q := (n + t / 2) / t;
    assert (n + t / 2) == q * t + (n + t / 2) % t;
  }

  /**
   * The printed duration reads back as the duration in milliseconds, rounded to the nearest, for every
   * timescale; only beyond 2^64 units of a thousandth does it stick at its largest value.
   */
  lemma DurationReadsBack(t: MovieTime)
    requires 0 < t.timescale < 0x1_0000_0000 && t.duration <= U64_MAX
    ensures var ms := TotalMillis(t.duration, t.timescale);
            && ReadClock(Clock(ms)) == Some(ms)
            && (t.duration * 1000 + t.timescale / 2 <= U64_MAX ==>
                  0 <= 2 * (t.duration * 1000 - ms * t.timescale) + t.timescale <= 2 * t.timescale)
            && (ms == (t.duration * 1000 + t.timescale / 2) / t.timescale <==>
                  (t.duration * 1000 + t.timescale / 2) / t.timescale <= U64_MAX / t.timescale)
  {
    hide Clock, ReadClock;
    ClockReadsBack(TotalMillis(t.duration, t.timescale));
    TotalMillisIs(t.duration, t.timescale);
    RoundedIsNearest(t.duration * 1000, t.timescale);
    if t.duration * 1000 + t.timescale / 2 <= U64_MAX {
      DivMonotone(t.duration * 1000 + t.timescale / 2, U64_MAX, t.timescale);
    }
  }

  /** Past that point the text is wrong: it names fewer milliseconds than the nearest, as it does at the far end. */
  lemma SaturationMisprints(t: MovieTime)
    requires 0 < t.timescale < 0x1_0000_0000 && t.duration <= U64_MAX
    ensures var exact, cap := (t.duration * 1000 + t.timescale / 2) / t.timescale, U64_MAX / t.timescale;
            exact > cap ==> ReadClock(Clock(TotalMillis(t.duration, t.timescale))) == Some(cap)
    ensures ReadClock(Clock(TotalMillis(U64_MAX, 1))) == Some(U64_MAX) && U64_MAX < (U64_MAX * 1000 + 1 / 2) / 1
  {
    hide Clock, ReadClock;
    ClockReadsBack(TotalMillis(t.duration, t.timescale));
    TotalMillisIs(t.duration, t.timescale);
    ClockReadsBack(TotalMillis(U64_MAX, 1));
  }

  // ---------- the file and its cursor ----------

  class File {
    const data: Data
    var pos: nat

    constructor (data: Data)
      ensures this.data == data
    {
      this.data := data;
      pos := 0;
    }

    method Seek(to: nat)
      modifies this
      ensures pos == to
    {
      pos := to;
    }

    method ReadExact(n: nat) returns (r: Result<Data, IoError>)
      modifies this
      ensures r == ReadAt(data, old(pos), n)
      ensures r.Ok? ==> pos == old(pos) + n
    {
      if pos + n <= |data| {
        r := Ok(data[pos..pos + n]);
        pos := pos + n;
      } else {
        r := Err(UnexpectedEof);
      }
    }
  }

  method ReadMvhd(file: File, start: nat, end: nat) returns (r: Result<Option<MovieTime>, IoError>)
    requires start <= end
    modifies file
    ensures r == HeaderAt(file.data, start, end)
  {
    hide BigEndian;
    if end - start < 20 {
      return Ok(None);
    }
    file.Seek(start);
    var version := file.ReadExact(4);
    if version.Err? {
      return Err(version.error);
    }
    if version.value[0] == 0 {
      var fields := file.ReadExact(16);
      if fields.Err? {
        return Err(fields.error);
      }
      return Ok(Some(MovieTime(BigEndian(fields.value[8..12]), BigEndian(fields.value[12..16]))));
    } else if version.value[0] == 1 {
      if end - start < 32 {
        return Ok(None);
      }
      var fields := file.ReadExact(28);
      if fields.Err? {
        return Err(fields.error);
      }
      return Ok(Some(MovieTime(BigEndian(fields.value[16..20]), BigEndian(fields.value[20..28]))));
    } else {
      return Ok(None);
    }
  }

  method FindMvhd(file: File, from: nat, end: nat) returns (r: Result<Option<MovieTime>, IoError>)
    requires end < U64_MAX
    modifies file
    ensures r == Walk(file.data, from, end)
    decreases if from <= end then end - from else 0
  {
    hide BigEndian, HeaderAt, Walk;
    var start := from;
    while start + 8 <= end
      invariant from <= start
      invariant Walk(file.data, start, end) == Walk(file.data, from, end)
      decreases if start <= end then end - start else 0
    {
      WalkStops(file.data, start, end);
      file.Seek(start);
      var header := file.ReadExact(8);
      if header.Err? {
        return Ok(None);
      }
      var h := header.value;
      SubSlice(file.data, start, start + 8, 0, 4);
      SubSlice(file.data, start, start + 8, 4, 8);
      var size32 := BigEndian(h[0..4]);
      var size, headerLen;
      if size32 == 0 {
        size, headerLen := end - start, 8;
      } else if size32 == 1 {
        var wide := file.ReadExact(8);
        if wide.Err? {
          return Err(wide.error);
        }
        size, headerLen := BigEndian(wide.value), 16;
      } else {
        size, headerLen := size32, 8;
      }
      if size < headerLen || SaturatingAdd(start, size) > end {
        return Ok(None);
      }
      WalkStep(file.data, start, end, size, headerLen, h[4..8]);
      var payloadStart := start + headerLen;
      var payloadEnd := start + size;
      if h[4..8] == MVHD {
        r := ReadMvhd(file, payloadStart, payloadEnd);
        return;
      }
      if h[4..8] == MOOV {
        var found := FindMvhd(file, payloadStart, payloadEnd);
        if found.Err? || found.value.Some? {
          return found;
        }
      }
      start := start + size;
    }
    WalkStops(file.data, start, end);
    return Ok(None);
  }

  // Files are shorter than 2^63 octets.
  type FileData = d: Data | |d| < 0x8000_0000_0000_0000 witness []

  /** The duration of a file: the clock text of its first movie header, unless that has no timescale. */
  function DurationText(data: FileData): Result<Option<string>, IoError> {
    match Walk(data, 0, |data|)
    case Err(e) => Err(e)
    case Ok(None) => Ok(None)
    case Ok(Some(t)) => if t.timescale == 0 then Ok(None) else Ok(Some(Clock(TotalMillis(t.duration, t.timescale))))
  }

  /** The payload of the first movie header box, depth first, entering movie boxes only. */
  function FirstHeader(bs: seq<Box>): Option<Data>
    decreases bs
  {
    if bs == [] then None
    else
      match bs[0]
      case Leaf(_, kind, payload) => if kind == MVHD then Some(payload) else FirstHeader(bs[1..])
      case Movie(_, children, _) =>
        var found := FirstHeader(children);
        if found.Some? then found else FirstHeader(bs[1..])
  }

  // The search stops there if that header can be read, and finds nothing where there is none.
  lemma {:induction false} SearchStopsAtFirst(bs: seq<Box>)
    ensures FirstHeader(bs).None? ==> Search(bs).None?
    ensures FirstHeader(bs).Some? && MovieHeader(FirstHeader(bs).value).Some? ==>
              Search(bs) == MovieHeader(FirstHeader(bs).value)
    decreases bs
  {
    hide MovieHeader;
    if bs != [] {
      SearchStopsAtFirst(bs[1..]);
      if bs[0].Movie? {
        SearchStopsAtFirst(bs[0].children);
      }
    }
  }

  /** A file whose first movie header states a time with a timescale gets a text that reads back as that time. */
  lemma WrittenDurationIsRead(
    bs: seq<Box>, wide: bool, created: nat, modified: nat, t: MovieTime, rest: Data)
    requires ValidForest(bs, []) && Tidy(bs, []) && |Forest(bs)| < 0x8000_0000_0000_0000
    requires FirstHeader(bs) == Some(MovieHeaderText(wide, created, modified, t, rest))
    requires 0 < t.timescale < Pow256(4) && t.duration < Pow256(if wide then 8 else 4)
    ensures var text := DurationText(Forest(bs));
            && text.Ok? && text.value.Some?
            && ReadClock(text.value.value) == Some(TotalMillis(t.duration, t.timescale))
  {
    hide ValidForest, Forest, Walk, Tidy, Clock, ReadClock, MovieHeader, Pow256;
    SerializedForest(bs);
    MovieHeaderRoundTrip(wide, created, modified, t, rest);
    SearchStopsAtFirst(bs);
    ClockReadsBack(TotalMillis(t.duration, t.timescale));
  }

  method Mp4Duration(data: FileData) returns (r: Result<Option<string>, IoError>)
    ensures r == DurationText(data)
  {
    hide Walk, Clock, TotalMillis;
    var file := new File(data);
    var found := FindMvhd(file, 0, |data|);
    if found.Err? {
      return Err(found.error);
    }
    if found.value.None? {
      return Ok(None);
    }
    var t := found.value.value;
    if t.timescale == 0 {
      return Ok(None);
    }
    return Ok(Some(Clock(TotalMillis(t.duration, t.timescale))));
  }

  // ---------- an everyday file ----------

  function Octets(name: string): Data {
    seq(|name|, i requires 0 <= i < |name| => name[i] as int % 256)
  }

  function ShortBox(name: string, payload: Data): Data {
    BytesOf(8 + |payload|, 4) + Octets(name) + payload
  }

  lemma Names()
    ensures Octets("moov") == MOOV && Octets("mvhd") == MVHD
    ensures |Octets("ftyp")| == 4 && |Octets("trak")| == 4 && |Octets("mdat")| == 4
    ensures Octets("ftyp") != MOOV && Octets("trak") != MOOV && Octets("mdat") != MOOV
    ensures Octets("ftyp") != MVHD && Octets("trak") != MVHD && Octets("mdat") != MVHD
  {
    assert Octets("ftyp")[0] == 0x66 && Octets("trak")[0] == 0x74 && Octets("mdat")[1] == 0x64;
  }

  lemma SerialLeaf(name: string, payload: Data)
    ensures Serial(Leaf(Short, Octets(name), payload)) == ShortBox(name, payload)
  {
    hide BytesOf, Octets;
  }

  lemma ForestTwo(a: Box, b: Box)
    ensures Forest([a, b]) == Serial(a) + Serial(b)
  {
    hide Serial;
    assert [a, b][1..] == [b] && [b][1..] == [];
    EmptyForest();
    ForestOne(b);
  }

  lemma ForestOne(b: Box)
    ensures Forest([b]) == Serial(b)
  {
    hide Serial;
    assert [b][1..] == [];
    EmptyForest();
    assert Serial(b) + [] == Serial(b);
  }

  lemma ForestThree(a: Box, b: Box, c: Box)
    ensures Forest([a, b, c]) == Serial(a) + (Serial(b) + Serial(c))
  {
    hide Serial;
    assert [a, b, c][1..] == [b, c];
    ForestTwo(b, c);
  }

  /**
   * An everyday file, type, movie and media one after the other and the movie header first in the movie, gets
   * the duration its header gives.
   */
  lemma EverydayFile(brand: Data, wide: bool, created: nat, modified: nat, t: MovieTime, rest: Data, tracks: Data,
                     media: Data)
    requires 0 < t.timescale < 0x1_0000_0000 && t.duration < if wide then 0x1_0000_0000_0000_0000 else 0x1_0000_0000
    requires |brand| + |rest| + |tracks| + |media| < 0xF000_0000
    ensures var header := ShortBox("mvhd", MovieHeaderText(wide, created, modified, t, rest));
            var file := ShortBox("ftyp", brand)
                      + (ShortBox("moov", header + ShortBox("trak", tracks)) + ShortBox("mdat", media));
            && |file| < 0x8000_0000_0000_0000
            && DurationText(file).Ok? && DurationText(file).value.Some?
            && ReadClock(DurationText(file).value.value) == Some(TotalMillis(t.duration, t.timescale))
  {
    hide BytesOf, Octets, Walk, Clock, ReadClock, MovieHeader, TotalMillis, Pow256, Serial, Forest, ValidForest, Tidy,
         FirstHeader;
    Names();
    var p := MovieHeaderText(wide, created, modified, t, rest);
    var mvhd, trak := Leaf(Short, Octets("mvhd"), p), Leaf(Short, Octets("trak"), tracks);
    var ftyp, mdat := Leaf(Short, Octets("ftyp"), brand), Leaf(Short, Octets("mdat"), media);
    var moov := Movie(Short, [mvhd, trak], []);
    Widths();
    HeaderTextLength(wide, created, modified, t, rest);
    SerialLeaf("mvhd", p);
    SerialLeaf("trak", tracks);
    SerialLeaf("ftyp", brand);
    SerialLeaf("mdat", media);
    ForestTwo(mvhd, trak);
    SerialMovie([mvhd, trak]);
    ForestThree(ftyp, moov, mdat);
    EverydayValid(ftyp, mvhd, trak, mdat);
    WrittenDurationIsRead([ftyp, moov, mdat], wide, created, modified, t, rest);
  }

  lemma HeaderTextLength(wide: bool, created: nat, modified: nat, t: MovieTime, rest: Data)
    ensures |MovieHeaderText(wide, created, modified, t, rest)| <= 32 + |rest|
  {
    hide BytesOf;
  }

  lemma SerialMovie(children: seq<Box>)
    ensures Serial(Movie(Short, children, [])) == BytesOf(8 + |Forest(children)|, 4) + MOOV + Forest(children)
  {
    hide BytesOf, Forest;
    assert Forest(children) + [] == Forest(children);
  }

  lemma EverydayValid(ftyp: Box, mvhd: Box, trak: Box, mdat: Box)
    requires ftyp.Leaf? && mvhd.Leaf? && trak.Leaf? && mdat.Leaf?
    requires ftyp.form == Short && mvhd.form == Short && trak.form == Short && mdat.form == Short
    requires ftyp.kind == Octets("ftyp") && mvhd.kind == Octets("mvhd")
    requires trak.kind == Octets("trak") && mdat.kind == Octets("mdat")
    requires |ftyp.payload| + |mvhd.payload| + |trak.payload| + |mdat.payload| < 0xF000_0020
    ensures var bs := [ftyp, Movie(Short, [mvhd, trak], []), mdat];
            ValidForest(bs, []) && Tidy(bs, []) && FirstHeader(bs) == Some(mvhd.payload)
  {
    hide BytesOf, Octets, Pow256, ValidForest, Tidy, FirstHeader, Forest, Serial;
    Names();
    Widths();
    NothingStep();
    assert [trak] + [] == [trak] && [mvhd] + [trak] == [mvhd, trak] && [mdat] + [] == [mdat];
    LeafStep(trak, []);
    LeafStep(mvhd, [trak]);
    LeafStep(mdat, []);
    ForestTwo(mvhd, trak);
    SerialLength(mvhd);
    SerialLength(trak);
    MovieStep([mvhd, trak], [mdat]);
    LeafStep(ftyp, [Movie(Short, [mvhd, trak], []), mdat]);
    assert [Movie(Short, [mvhd, trak], [])] + [mdat] == [Movie(Short, [mvhd, trak], []), mdat];
    assert [ftyp] + [Movie(Short, [mvhd, trak], []), mdat] == [ftyp, Movie(Short, [mvhd, trak], []), mdat];
  }

  lemma NothingStep()
    ensures ValidForest([], []) && Tidy([], []) && FirstHeader([]) == None
  {
  }

  lemma LeafStep(b: Box, rest: seq<Box>)
    requires b.Leaf? && b.form == Short && |b.kind| == 4 && b.kind != MOOV && 8 + |b.payload| < Pow256(4)
    ensures ValidForest([b] + rest, []) <==> ValidForest(rest, [])
    ensures Tidy([b] + rest, []) <==> Tidy(rest, [])
    ensures FirstHeader([b] + rest) == if b.kind == MVHD then Some(b.payload) else FirstHeader(rest)
  {
    hide Pow256, Unreadable;
    assert ([b] + rest)[0] == b && ([b] + rest)[1..] == rest;
  }

  lemma MovieStep(children: seq<Box>, rest: seq<Box>)
    requires 8 + |Forest(children)| < Pow256(4) && ValidForest(children, []) && Tidy(children, [])
    ensures var bs := [Movie(Short, children, [])] + rest;
            && (ValidForest(bs, []) <==> ValidForest(rest, [])) && (Tidy(bs, []) <==> Tidy(rest, []))
            && FirstHeader(bs) == if FirstHeader(children).Some? then FirstHeader(children) else FirstHeader(rest)
  {
    hide Pow256, Unreadable, Forest;
    var b := Movie(Short, children, []);
    assert Forest(children) + [] == Forest(children);
    assert ([b] + rest)[0] == b && ([b] + rest)[1..] == rest;
  }

  lemma SerialLength(b: Box)
    requires b.Leaf? && b.form == Short && |b.kind| == 4
    ensures |Serial(b)| == 8 + |b.payload|
  {
    hide BytesOf;
  }

  /** Behind boxes that hold no movie header, the first one of a level decides, even one that cannot be read. */
  lemma {:induction false} FirstDecides(a: seq<Box>, b: Box, rest: seq<Box>)
    requires FirstHeader(a).None?
    ensures b.Leaf? && b.kind == MVHD ==> Search(a + [b] + rest) == MovieHeader(b.payload)
    ensures b.Leaf? && b.kind != MVHD ==> Search(a + [b] + rest) == Search(rest)
    ensures b.Movie? ==> Search(a + [b] + rest) == if Search(b.children).Some? then Search(b.children) else Search(rest)
    decreases |a|
  {
    hide MovieHeader;
    if a == [] {
      assert a + [b] + rest == [b] + rest && ([b] + rest)[1..] == rest;
    } else {
      var whole := a + [b] + rest;
      assert whole[0] == a[0] && whole[1..] == a[1..] + [b] + rest;
      FirstDecides(a[1..], b, rest);
      if a[0].Movie? {
        SearchStopsAtFirst(a[0].children);
      }
    }
  }

  lemma HeaderIsReadable(p: Data)
    ensures MovieHeader(p).Some? <==> (|p| >= 20 && p[0] == 0) || (|p| >= 32 && p[0] == 1)
  {
  }

  /** A file without a movie header, or whose first one gives no timescale, has no duration text, and is no error. */
  lemma NoTimeNoText(bs: seq<Box>, p: Data)
    requires ValidForest(bs, []) && Tidy(bs, []) && |Forest(bs)| < 0x8000_0000_0000_0000
    ensures FirstHeader(bs).None? ==> DurationText(Forest(bs)) == Ok(None)
    ensures FirstHeader(bs) == Some(p) && MovieHeader(p).Some? && MovieHeader(p).value.timescale == 0 ==>
              DurationText(Forest(bs)) == Ok(None)
  {
    hide ValidForest, Forest, Walk, Tidy, MovieHeader;
    SerializedForest(bs);
    SearchStopsAtFirst(bs);
  }
}
