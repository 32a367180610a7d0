/** What the scan makes of a name: kind, title, order and identifier; and Browse of the root and of videos. */
module ScanBehaviour {
  import opened Wrappers
  import opened Text
  import opened Catalog
  import opened Scan
  import opened Library
  import Mp4

  // ---------- names ----------

  lemma {:induction false} LastDotIs(stem: string, ext: string)
    requires stem != "" && '.' !in ext
    ensures LastDot(stem + "." + ext) == |stem|
    decreases |ext|
  {
    var name := stem + "." + ext;
    if ext == "" {
      assert name[|name| - 1] == '.';
    } else {
      var shorter := ext[..|ext| - 1];
      assert name[..|name| - 1] == stem + "." + shorter && name[|name| - 1] == ext[|ext| - 1];
      LastDotIs(stem, shorter);
    }
  }

  lemma {:induction false} NoDot(name: string)
    requires name != "" && '.' !in name[1..]
    ensures LastDot(name) == 0
  {
    if |name| > 1 {
      var shorter := name[..|name| - 1];
      assert name[|name| - 1] == name[1..][|name| - 2];
      assert shorter[1..] == name[1..][..|name| - 2];
      NoDot(shorter);
    }
  }

  /**
   * What a file is, by the ending of its name in any case: MP4, or the three endings of MPEG, or nothing to
   * show; and its title is the name without that ending.
   */
  lemma NamesAreRead(stem: string, ext: string)
    requires stem != "" && '.' !in ext
    ensures Stem(stem + "." + ext) == stem
    ensures KindOf(stem + "." + ext) ==
      if Folded(ext) == "mp4" then Some(Mp4Kind)
      else if Folded(ext) in {"mpg", "mpeg", "vob"} then Some(MpegKind)
      else None
  {
    hide Folded, LastDot, EqIgnoreCase;
    var name := stem + "." + ext;
    LastDotIs(stem, ext);
    assert name[..|stem|] == stem && name[|stem| + 1..] == ext;
    LiteralsFold();
    FoldedAlike(ext, "mp4");
    FoldedAlike(ext, "mpg");
    FoldedAlike(ext, "mpeg");
    FoldedAlike(ext, "vob");
  }

  lemma LiteralsFold()
    ensures Folded("mp4") == "mp4" && Folded("mpg") == "mpg" && Folded("mpeg") == "mpeg" && Folded("vob") == "vob"
  {
  }

  /** A name without an ending, or with nothing before its only dot, is no media. */
  lemma PlainNames(name: string)
    requires name != "" && '.' !in name[1..]
    ensures Stem(name) == name && KindOf(name) == None
  {
    hide LastDot;
    NoDot(name);
    assert !EqIgnoreCase("", "mp4") && !EqIgnoreCase("", "mpg");
    assert !EqIgnoreCase("", "mpeg") && !EqIgnoreCase("", "vob");
  }

  /** Names are ordered by their first difference, a name before what it begins. */
  lemma {:induction false} NameOrder(p: string, a: string, b: string)
    ensures NameLess(p + a, p + b) <==> NameLess(a, b)
    ensures NameLess("", b) <==> b != ""
    ensures a != "" && b != "" && a[0] < b[0] ==> NameLess(a, b) && !NameLess(b, a)
    ensures !NameLess(a, "")
  {
    if p == "" {
      assert p + a == a && p + b == b;
    } else {
      assert (p + a)[1..] == p[1..] + a && (p + b)[1..] == p[1..] + b;
      NameOrder(p[1..], a, b);
    }
  }

  // ---------- items and folders, field by field ----------

  /** How a media file is listed. */
  lemma ItemSays(stem: string, ext: string, data: Mp4.FileData, path: Path, parent: Id, base: string)
    requires stem != "" && '.' !in ext && Folded(ext) in {"mp4", "mpg", "mpeg", "vob"}
    ensures var e := File(stem + "." + ext, data);
            var id := "m-" + Hex(PathHash(path + [e.name]), 16);
            && Media(e)
            && ItemOf(e, path, parent, base) == Item(
                 id, parent, stem, base + "media/" + id,
                 if Folded(ext) == "mp4" then "video/mp4" else "video/mpeg", |data|,
                 if Folded(ext) != "mp4" || Mp4.DurationText(data).Err? then None else Mp4.DurationText(data).value)
  {
    hide Folded, PathHash, Hex, KindOf, Stem, Mp4.DurationText;
    NamesAreRead(stem, ext);
  }

  lemma FolderSays(name: string, entries: seq<Entry>, path: Path, parent: Id)
    ensures FolderOf(Dir(name, entries), path, parent) ==
      Container("c-" + Hex(PathHash(path + [name]), 16), parent, name)
  {
    hide PathHash, Hex;
  }

  /** Other files, and what is neither file nor directory, are not listed at all. */
  lemma OthersAreNotListed(e: Entry, path: Path, parent: Id, base: string)
    requires !e.Dir? && !(e.File? && KindOf(e.name).Some?)
    ensures FlatEntry(e, path, parent, base) == []
  {
    hide KindOf;
  }

  // ---------- identifiers ----------

  // The octets of a path, each component followed by a slash.
  function PathOctets(path: Path): Bytes {
    if path == [] then "" else PathOctets(path[..|path| - 1]) + path[|path| - 1] + "/"
  }

  // The 64-bit FNV-1a hash.
  function Fnv(s: Bytes): bv64 {
    if s == "" then FNV_BASIS else FnvStep(Fnv(s[..|s| - 1]), s[|s| - 1])
  }

  function FnvStep(h: bv64, c: char): bv64 {
    (h ^ (c as int % 256) as bv64) * FNV_PRIME
  }

  // The published constants: 2^40 + 2^8 + 0xb3, and the hash of nothing.
  lemma FnvConstants()
    ensures FNV_PRIME as nat == 1_099_511_628_211 && FNV_BASIS as nat == 14_695_981_039_346_656_037
  {
  }

  lemma SameStep(h: bv64, c: char)
    ensures FnvStep(h, c) == Mix(h, c)
  {
  }

  lemma {:induction false} MixesOn(a: Bytes, b: Bytes)
    ensures MixAll(Fnv(a), b) == Fnv(a + b)
    decreases |b|
  {
    hide Mix, FnvStep;
    if b == "" {
      assert a + b == a;
    } else {
      SameStep(Fnv(a + b[..|b| - 1]), b[|b| - 1]);
      MixesOn(a, b[..|b| - 1]);
      assert (a + b)[..|a + b| - 1] == a + b[..|b| - 1];
    }
  }

  /** The hash of a path is the FNV-1a hash of its octets. */
  lemma {:induction false} PathHashIsFnv(path: Path)
    ensures HashFrom(FNV_BASIS, path) == Fnv(PathOctets(path))
    decreases |path|
  {
    hide Mix, FnvStep, Fnv, MixAll;
    if path == [] {
      NothingHashed();
    } else {
      var n := |path| - 1;
      PathHashIsFnv(path[..n]);
      var before := PathOctets(path[..n]);
      MixesOn(before, path[n]);
      OneMixed(before + path[n]);
    }
  }

  lemma NothingHashed()
    ensures Fnv("") == FNV_BASIS
  {
  }

  lemma OneMixed(a: Bytes)
    ensures Mix(Fnv(a), '/') == Fnv(a + "/")
  {
    hide Mix, FnvStep;
    assert (a + "/")[..|a|] == a;
    SameStep(Fnv(a), '/');
  }

  // The value of hexadecimal digits.
  function HexValue(s: string): Option<nat> {
    if s == "" then Some(0)
    else
      var c := s[|s| - 1];
      var rest := HexValue(s[..|s| - 1]);
      if rest.None? then None
      else if '0' <= c <= '9' then Some(16 * rest.value + (c as int - '0' as int))
      else if 'a' <= c <= 'f' then Some(16 * rest.value + (c as int - 'a' as int + 10))
      else None
  }

  /** An identifier spells its hash in sixteen lower-case hexadecimal digits. */
  lemma {:induction false} HexReadsBack(n: nat, width: nat)
    requires n < Pow16(width)
    ensures |Hex(n, width)| == width && HexValue(Hex(n, width)) == Some(n)
  {
    if width > 0 {
      HexReadsBack(n / 16, width - 1);
      assert Hex(n, width)[..width - 1] == Hex(n / 16, width - 1);
    }
  }

  // ---------- Browse ----------

  /** The root is a folder called Media under nothing. */
  lemma RootSays(cat: Catalog)
    ensures Browse(cat, "0", Metadata) == Ok(Answer([Folder("0", "-1", "Media", ChildCount(cat, "0"))], 1, 1))
  {
  }

  /** Videos have no children, and folders and the root have theirs with their number. */
  lemma VideosHaveNoChildren(root: seq<Entry>, base: string, n: Node)
    requires Distinct(root) && CollisionFree(MediaPaths(SortByName(root), []))
    requires n in Flat(root, [], ROOT, base) && n.MediaNode?
    ensures Browse(ScannedCatalog(root, base), n.i.id, DirectChildren) == Ok(Answer([], 0, 0))
  {
    hide SortByName, FlatList, DirPaths, MediaPaths, Below, NameCount, CollisionFree, ObjectId, Containers, Items,
         FindContainer, FindItem, ChildCount;
    var es := SortByName(root);
    SortDistinct(root);
    NodesApart(es, [], ROOT, base);
    FindNode(FlatList(es, [], ROOT, base), n);
    var p := NodePath(es, [], ROOT, base, n);
    NotRoot(p);
  }

  /** A file stops the scan exactly when it is an MP4 file whose boxes cannot be read to the end. */
  lemma FilesThatStop(stem: string, ext: string, data: Mp4.FileData)
    requires stem != "" && '.' !in ext
    ensures Readable([File(stem + "." + ext, data)]) <==> !(Folded(ext) == "mp4" && Mp4.DurationText(data).Err?)
  {
    hide Folded, KindOf, Mp4.DurationText;
    NamesAreRead(stem, ext);
    var es := [File(stem + "." + ext, data)];
    assert es[1..] == [];
    assert Readable([]);
  }

  /** A directory is listed before what it holds, and that in the order of the names. */
  lemma FlatSays(name: string, entries: seq<Entry>, path: Path, parent: Id, base: string)
    ensures var id := "c-" + Hex(PathHash(path + [name]), 16);
            FlatEntry(Dir(name, entries), path, parent, base) ==
              [FolderNode(Container(id, parent, name))] + FlatList(SortByName(entries), path + [name], id, base)
  {
    hide PathHash, Hex, FlatList, SortByName;
    FolderSays(name, entries, path, parent);
  }
}
