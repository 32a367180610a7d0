/** Scanning a media directory: the walk that flattens a directory tree into parent-linked lists. */
module Scan {
  import opened Wrappers
  import opened Text
  import opened Catalog
  import Mp4

  type Path = seq<Bytes>

  /** What a directory holds; `Other` is neither a directory nor a regular file. */
  datatype Entry =
    | Dir(name: string, entries: seq<Entry>)
    | File(name: string, data: Mp4.FileData)
    | Other(name: string)

  function EntrySize(e: Entry): nat
    decreases e, 1
  {
    1 + if e.Dir? then Size(e.entries) else 0
  }

  function Size(es: seq<Entry>): nat
    decreases es, 0
  {
    if es == [] then 0 else EntrySize(es[0]) + Size(es[1..])
  }

  // ---------- sorting by name ----------

  predicate NameLess(a: string, b: string) {
    b != "" && (a == "" || a[0] < b[0] || (a[0] == b[0] && NameLess(a[1..], b[1..])))
  }

  function Insert(e: Entry, es: seq<Entry>): (r: seq<Entry>)
    ensures Size(r) == EntrySize(e) + Size(es)
    ensures multiset(r) == multiset([e]) + multiset(es)
  {
    if es == [] || !NameLess(es[0].name, e.name) then
      assert ([e] + es)[1..] == es;
      [e] + es
    else
      var r := Insert(e, es[1..]);
      assert ([es[0]] + r)[1..] == r;
      assert es == [es[0]] + es[1..];
      [es[0]] + r
  }

  // The order in which a directory is scanned.
  function SortByName(es: seq<Entry>): (r: seq<Entry>)
    ensures Size(r) == Size(es)
    ensures multiset(r) == multiset(es)
  {
    if es == [] then []
    else
      assert es == [es[0]] + es[1..];
      Insert(es[0], SortByName(es[1..]))
  }

  predicate Sorted(es: seq<Entry>) {
    forall i, j | 0 <= i < j < |es| :: !NameLess(es[j].name, es[i].name)
  }

  lemma {:induction false} NameLessTotal(a: string, b: string)
    ensures a == b || NameLess(a, b) || NameLess(b, a)
    ensures !(NameLess(a, b) && NameLess(b, a)) && !NameLess(a, a)
  {
    if a != "" && b != "" {
      NameLessTotal(a[1..], b[1..]);
      assert a == [a[0]] + a[1..] && b == [b[0]] + b[1..];
    }
    if a != "" {
      NameLessIrreflexive(a);
    }
  }

  lemma {:induction false} NameLessIrreflexive(a: string)
    ensures !NameLess(a, a)
  {
    if a != "" {
      NameLessIrreflexive(a[1..]);
    }
  }

  lemma {:induction false} NameLessTransitive(a: string, b: string, c: string)
    requires NameLess(a, b) && NameLess(b, c)
    ensures NameLess(a, c)
  {
    if a != "" && a[0] == b[0] == c[0] {
      NameLessTransitive(a[1..], b[1..], c[1..]);
    }
  }

  lemma NotLessTransitive(a: string, b: string, c: string)
    requires !NameLess(b, a) && !NameLess(c, b)
    ensures !NameLess(c, a)
  {
    NameLessTotal(a, b);
    NameLessTotal(b, c);
    NameLessTotal(a, c);
    if NameLess(a, b) && NameLess(b, c) {
      NameLessTransitive(a, b, c);
    }
  }

  lemma {:induction false} InsertKeepsSorted(e: Entry, es: seq<Entry>)
    requires Sorted(es)
    ensures Sorted(Insert(e, es))
  {
    hide NameLess;
    if es == [] {
    } else if !NameLess(es[0].name, e.name) {
      forall j | 0 <= j < |es|
        ensures !NameLess(es[j].name, e.name)
      {
        if j > 0 {
          NotLessTransitive(e.name, es[0].name, es[j].name);
        }
      }
      SortedCons(e, es);
    } else {
      hide Sorted, Insert;
      SortedTail(es);
      InsertKeepsSorted(e, es[1..]);
      NameLessTotal(es[0].name, e.name);
      InsertMembers(e, es[1..]);
      SortedCons(es[0], Insert(e, es[1..]));
      assert Insert(e, es) == [es[0]] + Insert(e, es[1..]) by { InsertBehind(e, es); }
    }
  }

  lemma SortedCons(e: Entry, es: seq<Entry>)
    requires Sorted(es) && forall x <- es :: !NameLess(x.name, e.name)
    ensures Sorted([e] + es)
  {
    hide NameLess;
  }

  lemma SortedTail(es: seq<Entry>)
    requires Sorted(es) && es != []
    ensures Sorted(es[1..]) && forall x <- es[1..] :: !NameLess(x.name, es[0].name)
  {
    hide NameLess;
  }

  lemma InsertMembers(e: Entry, es: seq<Entry>)
    ensures forall x <- Insert(e, es) :: x == e || x in es
  {
    hide Insert;
    forall x <- Insert(e, es)
      ensures x == e || x in es
    {
      assert x in multiset(Insert(e, es));
    }
  }

  lemma InsertBehind(e: Entry, es: seq<Entry>)
    requires es != [] && NameLess(es[0].name, e.name)
    ensures Insert(e, es) == [es[0]] + Insert(e, es[1..])
  {
    hide NameLess;
  }

  /** Directories are scanned in name order, every entry once. */
  lemma {:induction false} SortIsSorted(es: seq<Entry>)
    ensures Sorted(SortByName(es)) && multiset(SortByName(es)) == multiset(es)
  {
    hide Sorted, NameLess;
    if es != [] {
      SortIsSorted(es[1..]);
      InsertKeepsSorted(es[0], SortByName(es[1..]));
    } else {
      NothingIsSorted();
    }
  }

  lemma NothingIsSorted()
    ensures Sorted([])
  {
  }

  // ---------- identifiers ----------

  const FNV_BASIS: bv64 := 0xcbf2_9ce4_8422_2325
  const FNV_PRIME: bv64 := 0x0000_0100_0000_01b3

  // Names are octet strings: the low eight bits of a character are its octet.
  function Mix(h: bv64, c: char): bv64 {
    (h ^ (c as int % 256) as bv64) * FNV_PRIME
  }

  function MixAll(h: bv64, s: Bytes): bv64 {
    if s == "" then h else Mix(MixAll(h, s[..|s| - 1]), s[|s| - 1])
  }

  // Every component, each followed by a slash.
  function HashFrom(h: bv64, path: Path): bv64 {
    if path == [] then h else Mix(MixAll(HashFrom(h, path[..|path| - 1]), path[|path| - 1]), '/')
  }

  function PathHash(path: Path): nat
  {
    HashFrom(FNV_BASIS, path) as nat
  }

  function HexDigit(d: nat): char
    requires d < 16
  {
    if d < 10 then ('0' as int + d) as char else ('a' as int + d - 10) as char
  }

  function Hex(n: nat, width: nat): (s: string)
    ensures |s| == width
  {
    if width == 0 then "" else Hex(n / 16, width - 1) + [HexDigit(n % 16)]
  }

  function ObjectId(prefix: string, path: Path): Id
  {
    prefix + "-" + Hex(PathHash(path), 16)
  }

  function Pow16(k: nat): nat {
    if k == 0 then 1 else 16 * Pow16(k - 1)
  }

  lemma {:induction false} HexInjective(m: nat, n: nat, width: nat)
    requires Hex(m, width) == Hex(n, width) && m < Pow16(width) && n < Pow16(width)
    ensures m == n
  {
    if width > 0 {
      var a, b := Hex(m, width), Hex(n, width);
      assert a[..width - 1] == Hex(m / 16, width - 1) && b[..width - 1] == Hex(n / 16, width - 1);
      assert a[width - 1] == HexDigit(m % 16) && b[width - 1] == HexDigit(n % 16);
      HexInjective(m / 16, n / 16, width - 1);
    }
  }

  lemma HashBound(path: Path)
    ensures PathHash(path) < Pow16(16)
  {
    assert Pow16(8) == 0x1_0000_0000 by {
      assert Pow16(4) == 65536;
    }
    assert Pow16(12) == 65536 * Pow16(8) by {
      assert Pow16(10) == 256 * Pow16(8);
    }
    assert Pow16(16) == 65536 * Pow16(12) by {
      assert Pow16(14) == 256 * Pow16(12);
    }
  }

  // Identifiers differ in kind, and within a kind whenever the hashes of the paths do.
  lemma IdsDiffer(p: Path, q: Path)
    ensures ObjectId("c", p) != ROOT && ObjectId("c", p) != ObjectId("m", q)
    ensures ObjectId("c", p) == ObjectId("c", q) ==> PathHash(p) == PathHash(q)
    ensures ObjectId("m", p) == ObjectId("m", q) ==> PathHash(p) == PathHash(q)
  {
    hide PathHash, Hex;
    var a, b := Hex(PathHash(p), 16), Hex(PathHash(q), 16);
    assert ObjectId("c", p)[0] == 'c' && ObjectId("m", q)[0] == 'm';
    assert ObjectId("c", p)[2..] == a && ObjectId("c", q)[2..] == b;
    assert ObjectId("m", p)[2..] == a && ObjectId("m", q)[2..] == b;
    HashBound(p);
    HashBound(q);
    if a == b {
      HexInjective(PathHash(p), PathHash(q), 16);
    }
  }

  // ---------- names ----------

  // The position of the last dot, unless there is none or it starts the name.
  function LastDot(name: string): (i: nat)
    ensures i <= |name|
    ensures 0 < i < |name| ==> name[i] == '.' && '.' !in name[i + 1..]
  {
    if |name| <= 1 then 0
    else if name[|name| - 1] == '.' then |name| - 1
    else
      var i := LastDot(name[..|name| - 1]);
      assert 0 < i < |name| - 1 ==> name[i + 1..] == name[..|name| - 1][i + 1..] + [name[|name| - 1]];
      if i == |name| - 1 then 0 else i
  }

  function Extension(name: string): string {
    var i := LastDot(name);
    if i == 0 then "" else name[i + 1..]
  }

  function Stem(name: string): string {
    var i := LastDot(name);
    if i == 0 then name else name[..i]
  }

  datatype MediaKind = Mp4Kind | MpegKind

  function KindOf(name: string): Option<MediaKind> {
    var ext := Extension(name);
    if EqIgnoreCase(ext, "mp4") then Some(Mp4Kind)
    else if EqIgnoreCase(ext, "mpg") || EqIgnoreCase(ext, "mpeg") || EqIgnoreCase(ext, "vob") then Some(MpegKind)
    else None
  }

  function Mime(k: MediaKind): string {
    if k == Mp4Kind then "video/mp4" else "video/mpeg"
  }

  // ---------- the flat form of a tree ----------

  datatype Node = FolderNode(c: Container) | MediaNode(i: Item)

  function FolderOf(e: Entry, path: Path, parent: Id): Container
    requires e.Dir?
  {
    Container(ObjectId("c", path + [e.name]), parent, e.name)
  }

  // The duration of an MP4 file; other kinds have none, and an unreadable file ends the scan.
  function DurationOf(e: Entry): Result<Option<string>, Mp4.IoError>
    requires e.File?
  {
    if KindOf(e.name) == Some(Mp4Kind) then Mp4.DurationText(e.data) else Ok(None)
  }

  predicate Media(e: Entry) {
    e.File? && KindOf(e.name).Some?
  }

  function ItemOf(e: Entry, path: Path, parent: Id, base: string): Item
    requires Media(e)
  {
    var id := ObjectId("m", path + [e.name]);
    Item(id, parent, Stem(e.name), base + "media/" + id, Mime(KindOf(e.name).value), |e.data|,
         match DurationOf(e) case Ok(d) => d case Err(_) => None)
  }

  lemma SizesBelow(es: seq<Entry>)
    requires es != []
    ensures Size(es[1..]) < Size(es)
    ensures es[0].Dir? ==> Size(es[0].entries) < Size(es)
  {
  }

  // A listing, already in order, with everything below it: each directory before its contents.
  function FlatList(es: seq<Entry>, path: Path, parent: Id, base: string): seq<Node>
    decreases Size(es), 0
  {
    if es == [] then []
    else
      SizesBelow(es);
      FlatEntry(es[0], path, parent, base) + FlatList(es[1..], path, parent, base)
  }

  function FlatEntry(e: Entry, path: Path, parent: Id, base: string): seq<Node>
    decreases if e.Dir? then Size(e.entries) else 0, 2
  {
    if e.Dir? then
      var c := FolderOf(e, path, parent);
      [FolderNode(c)] + Flat(e.entries, path + [e.name], c.id, base)
    else if Media(e) then [MediaNode(ItemOf(e, path, parent, base))]
    else []
  }

  function Flat(es: seq<Entry>, path: Path, parent: Id, base: string): seq<Node>
    decreases Size(es), 1
  {
    FlatList(SortByName(es), path, parent, base)
  }

  // No file makes the scan fail.
  predicate Readable(es: seq<Entry>)
    decreases Size(es), 0
  {
    if es == [] then true else SizesBelow(es); EntryReadable(es[0]) && Readable(es[1..])
  }

  predicate EntryReadable(e: Entry)
    decreases if e.Dir? then Size(e.entries) else 0, 1
  {
    match e
    case Dir(_, entries) => Readable(entries)
    case File(_, _) => DurationOf(e).Ok?
    case Other(_) => true
  }

  lemma {:induction false} ReadableMeans(es: seq<Entry>)
    ensures Readable(es) <==> forall e <- es :: EntryReadable(e)
    decreases Size(es)
  {
    hide EntryReadable;
    if es != [] {
      SizesBelow(es);
      ReadableMeans(es[1..]);
      assert es[0] in es;
      assert forall e <- es[1..] :: e in es;
      if EntryReadable(es[0]) && Readable(es[1..]) {
        forall e <- es
          ensures EntryReadable(e)
        {
          assert e == es[0] || e in es[1..];
        }
      }
    }
  }

  lemma SortKeepsReadable(es: seq<Entry>)
    ensures Readable(SortByName(es)) <==> Readable(es)
  {
    hide Readable, EntryReadable;
    ReadableMeans(es);
    var r := SortByName(es);
    ReadableMeans(r);
    forall e
      ensures e in r <==> e in es
    {
      assert e in multiset(r) <==> e in multiset(es);
    }
  }

  // ---------- the two lists ----------

  function Containers(ns: seq<Node>): seq<Container> {
    if ns == [] then [] else (if ns[0].FolderNode? then [ns[0].c] else []) + Containers(ns[1..])
  }

  function Items(ns: seq<Node>): seq<Item> {
    if ns == [] then [] else (if ns[0].MediaNode? then [ns[0].i] else []) + Items(ns[1..])
  }

  lemma {:induction false} ContainersOfSum(a: seq<Node>, b: seq<Node>)
    ensures Containers(a + b) == Containers(a) + Containers(b)
  {
    if a == [] {
      assert a + b == b;
    } else {
      assert (a + b)[0] == a[0] && (a + b)[1..] == a[1..] + b;
      ContainersOfSum(a[1..], b);
    }
  }

  lemma {:induction false} ItemsOfSum(a: seq<Node>, b: seq<Node>)
    ensures Items(a + b) == Items(a) + Items(b)
  {
    if a == [] {
      assert a + b == b;
    } else {
      assert (a + b)[0] == a[0] && (a + b)[1..] == a[1..] + b;
      ItemsOfSum(a[1..], b);
    }
  }

  function ScannedCatalog(root: seq<Entry>, base: string): Catalog
  {
    var ns := Flat(root, [], ROOT, base);
    Catalog(Containers(ns), Items(ns))
  }

  // ---------- the scan itself ----------

  method HashPath(path: Path) returns (h: bv64)
    ensures h == HashFrom(FNV_BASIS, path)
  {
    hide Mix;
    h := FNV_BASIS;
    for i := 0 to |path|
      invariant h == HashFrom(FNV_BASIS, path[..i])
    {
      ghost var start := h;
      var part := path[i];
      for j := 0 to |part|
        invariant h == MixAll(start, part[..j])
      {
        assert part[..j + 1][..j] == part[..j];
        h := Mix(h, part[j]);
      }
      assert part[..|part|] == part && path[..i + 1][..i] == path[..i];
      h := Mix(h, '/');
    }
    assert path[..|path|] == path;
  }

  class ScannedTree {
    var containers: seq<Container>
    var media: seq<Item>

    constructor ()
      ensures containers == [] && media == []
    {
      containers := [];
      media := [];
    }

    method ScanFile(e: Entry, path: Path, parent: Id, base: string) returns (r: Result<(), Mp4.IoError>)
      requires Media(e)
      modifies this`media
      ensures r.Ok? <==> DurationOf(e).Ok?
      ensures r.Ok? ==> media == old(media) + [ItemOf(e, path, parent, base)]
    {
      hide Hex, KindOf, Stem, HashFrom, Mp4.DurationText;
      var hash := HashPath(path + [e.name]);
      var id := "m-" + Hex(hash as nat, 16);
      IdText("m", path + [e.name]);
      var kind := KindOf(e.name).value;
      var duration := None;
      if kind == Mp4Kind {
        var d := Mp4.Mp4Duration(e.data);
        if d.Err? {
          return Err(d.error);
        }
        duration := d.value;
      }
      media := media + [Item(id, parent, Stem(e.name), base + "media/" + id, Mime(kind), |e.data|, duration)];
      return Ok(());
    }

    // One entry of a directory: a folder with everything below it, a media file, or nothing.
    method ScanEntry(e: Entry, path: Path, parent: Id, base: string) returns (r: Result<(), Mp4.IoError>)
      modifies this
      ensures r.Ok? <==> EntryReadable(e)
      ensures r.Ok? ==> containers == old(containers) + Containers(FlatEntry(e, path, parent, base))
      ensures r.Ok? ==> media == old(media) + Items(FlatEntry(e, path, parent, base))
      decreases if e.Dir? then Size(e.entries) else 0, 2
    {
      hide Hex, KindOf, Stem, HashFrom, Readable, EntryReadable, DurationOf, FlatEntry, Size, Containers, Items;
      if e.Dir? {
        var hash := HashPath(path + [e.name]);
        var id := "c-" + Hex(hash as nat, 16);
        IdText("c", path + [e.name]);
        containers := containers + [Container(id, parent, e.name)];
        r := ScanDir(e.entries, path + [e.name], id, base);
        DirReadable(e);
        DirFlat(e, path, parent, base, id);
      } else if e.File? && KindOf(e.name).Some? {
        r := ScanFile(e, path, parent, base);
        FileFlat(e, path, parent, base);
      } else {
        SkippedFlat(e, path, parent, base);
        r := Ok(());
      }
    }

    /** Scans a directory into the lists; fails exactly when some file below it cannot be read. */
    method ScanDir(entries: seq<Entry>, path: Path, parent: Id, base: string) returns (r: Result<(), Mp4.IoError>)
      modifies this
      ensures r.Ok? <==> Readable(entries)
      ensures r.Ok? ==> containers == old(containers) + Containers(Flat(entries, path, parent, base))
      ensures r.Ok? ==> media == old(media) + Items(Flat(entries, path, parent, base))
      decreases Size(entries), 1
    {
      hide Readable, EntryReadable, FlatList, FlatEntry, Size, Containers, Items, SortByName;
      var sorted := SortByName(entries);
      SortKeepsReadable(entries);
      ReadableMeans(sorted);
      NothingFlat(path, parent, base);
      var i := 0;
      while i < |sorted|
        invariant i <= |sorted|
        invariant containers == old(containers) + Containers(FlatList(sorted[..i], path, parent, base))
        invariant media == old(media) + Items(FlatList(sorted[..i], path, parent, base))
        invariant forall k | 0 <= k < i :: EntryReadable(sorted[k])
      {
        FlatSnoc(sorted, i, path, parent, base);
        MemberSize(sorted, i);
        var one := ScanEntry(sorted[i], path, parent, base);
        if one.Err? {
          return Err(one.error);
        }
        i := i + 1;
      }
      assert sorted[..i] == sorted;
      return Ok(());
    }
  }

  lemma IdText(prefix: string, path: Path)
    ensures ObjectId(prefix, path) == prefix + "-" + Hex(HashFrom(FNV_BASIS, path) as nat, 16)
    ensures prefix == "c" ==> prefix + "-" == "c-"
    ensures prefix == "m" ==> prefix + "-" == "m-"
  {
    hide Hex;
  }

  lemma {:induction false} MemberSize(es: seq<Entry>, i: nat)
    requires i < |es|
    ensures (if es[i].Dir? then Size(es[i].entries) else 0) < Size(es)
    decreases i
  {
    SizesBelow(es);
    if i > 0 {
      MemberSize(es[1..], i - 1);
    }
  }

  lemma NothingFlat(path: Path, parent: Id, base: string)
    ensures FlatList([], path, parent, base) == [] && Containers([]) == [] && Items([]) == []
  {
  }

  lemma DirReadable(e: Entry)
    requires e.Dir?
    ensures EntryReadable(e) <==> Readable(e.entries)
  {
  }

  lemma DirFlat(e: Entry, path: Path, parent: Id, base: string, id: Id)
    requires e.Dir?
    requires id == ObjectId("c", path + [e.name])
    ensures var inner := Flat(e.entries, path + [e.name], id, base);
            && Containers(FlatEntry(e, path, parent, base)) == [Container(id, parent, e.name)] + Containers(inner)
            && Items(FlatEntry(e, path, parent, base)) == Items(inner)
  {
    hide Flat, ObjectId;
    var inner := Flat(e.entries, path + [e.name], id, base);
    assert ([FolderNode(Container(id, parent, e.name))] + inner)[1..] == inner;
  }

  lemma FileFlat(e: Entry, path: Path, parent: Id, base: string)
    requires Media(e)
    ensures Containers(FlatEntry(e, path, parent, base)) == []
      && Items(FlatEntry(e, path, parent, base)) == [ItemOf(e, path, parent, base)]
    ensures EntryReadable(e) <==> DurationOf(e).Ok?
  {
    hide ItemOf, DurationOf;
  }

  lemma SkippedFlat(e: Entry, path: Path, parent: Id, base: string)
    requires !e.Dir? && !Media(e)
    ensures Containers(FlatEntry(e, path, parent, base)) == [] && Items(FlatEntry(e, path, parent, base)) == []
    ensures EntryReadable(e)
  {
    hide Mp4.DurationText;
  }

  lemma {:induction false} FlatOfSum(a: seq<Entry>, b: seq<Entry>, path: Path, parent: Id, base: string)
    ensures FlatList(a + b, path, parent, base) == FlatList(a, path, parent, base) + FlatList(b, path, parent, base)
    decreases |a|
  {
    hide FlatEntry, Size, Containers, Items;
    if a == [] {
      assert a + b == b;
    } else {
      assert (a + b)[1..] == a[1..] + b && (a + b)[0] == a[0];
      FlatOfSum(a[1..], b, path, parent, base);
    }
  }

  lemma FlatSnoc(es: seq<Entry>, i: nat, path: Path, parent: Id, base: string)
    requires i < |es|
    ensures FlatList(es[..i + 1], path, parent, base) ==
      FlatList(es[..i], path, parent, base) + FlatEntry(es[i], path, parent, base)
    ensures Containers(FlatList(es[..i + 1], path, parent, base)) ==
      Containers(FlatList(es[..i], path, parent, base)) + Containers(FlatEntry(es[i], path, parent, base))
    ensures Items(FlatList(es[..i + 1], path, parent, base)) ==
      Items(FlatList(es[..i], path, parent, base)) + Items(FlatEntry(es[i], path, parent, base))
  {
    hide FlatEntry, Size, Containers, Items;
    assert es == es[..i + 1] + es[i + 1..];
    FlatOfSum(es[..i + 1], es[i + 1..], path, parent, base);
    assert es[..i + 1] == es[..i] + [es[i]];
    FlatOfSum(es[..i], [es[i]], path, parent, base);
    OneFlat(es[i], path, parent, base);
    ContainersOfSum(FlatList(es[..i], path, parent, base), FlatEntry(es[i], path, parent, base));
    ItemsOfSum(FlatList(es[..i], path, parent, base), FlatEntry(es[i], path, parent, base));
  }

  lemma OneFlat(e: Entry, path: Path, parent: Id, base: string)
    ensures FlatList([e], path, parent, base) == FlatEntry(e, path, parent, base)
  {
    hide FlatEntry;
    assert [e][1..] == [];
    NothingFlat(path, parent, base);
  }

  /** A whole scan: the catalog of the tree, or an error exactly when some MP4 file cannot be read. */
  method ScanTree(root: seq<Entry>, base: string) returns (r: Result<Catalog, Mp4.IoError>)
    ensures r.Ok? <==> Readable(root)
    ensures r.Ok? ==> r.value == ScannedCatalog(root, base)
  {
    hide Readable, Flat, Containers, Items;
    var tree := new ScannedTree();
    var done := tree.ScanDir(root, [], ROOT, base);
    if done.Err? {
      return Err(done.error);
    }
    return Ok(Catalog(tree.containers, tree.media));
  }
}
