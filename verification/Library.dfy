/** Browsing a scanned catalog gives the directory tree back. */
module Library {
  import opened Wrappers
  import opened Text
  import opened Catalog
  import opened Scan

  // ---------- the children of a node in the flat form ----------

  function ParentOf(n: Node): Id {
    if n.FolderNode? then n.c.parentId else n.i.parentId
  }

  function Filter(ns: seq<Node>, x: Id): seq<Node> {
    if ns == [] then [] else (if ParentOf(ns[0]) == x then [ns[0]] else []) + Filter(ns[1..], x)
  }

  lemma Regroup<T>(a: seq<T>, b: seq<T>, c: seq<T>)
    ensures a + (b + c) == (a + b) + c
  {
  }

  lemma {:induction false} FilterOfSum(a: seq<Node>, b: seq<Node>, x: Id)
    ensures Filter(a + b, x) == Filter(a, x) + Filter(b, x)
  {
    if a == [] {
      assert a + b == b;
    } else {
      assert (a + b)[0] == a[0] && (a + b)[1..] == a[1..] + b;
      FilterOfSum(a[1..], b, x);
      Regroup(if ParentOf(a[0]) == x then [a[0]] else [], Filter(a[1..], x), Filter(b, x));
    }
  }

  lemma OneNode(n: Node)
    ensures Containers([n]) == (if n.FolderNode? then [n.c] else []) && Items([n]) == if n.MediaNode? then [n.i] else []
  {
  }

  lemma {:induction false} FilteredContainers(ns: seq<Node>, x: Id)
    ensures ChildContainers(Containers(ns), x) == Containers(Filter(ns, x))
  {
    hide Items;
    if ns != [] {
      FilteredContainers(ns[1..], x);
      OneNode(ns[0]);
      ContainersOfSum(if ParentOf(ns[0]) == x then [ns[0]] else [], Filter(ns[1..], x));
      ChildContainersOfSum(if ns[0].FolderNode? then [ns[0].c] else [], Containers(ns[1..]), x);
    }
  }

  lemma {:induction false} ChildContainersOfSum(a: seq<Container>, b: seq<Container>, x: Id)
    ensures ChildContainers(a + b, x) == ChildContainers(a, x) + ChildContainers(b, x)
  {
    if a == [] {
      assert a + b == b;
    } else {
      assert (a + b)[0] == a[0] && (a + b)[1..] == a[1..] + b;
      ChildContainersOfSum(a[1..], b, x);
      Regroup(if a[0].parentId == x then [a[0]] else [], ChildContainers(a[1..], x), ChildContainers(b, x));
    }
  }

  lemma {:induction false} FilteredItems(ns: seq<Node>, x: Id)
    ensures ChildItems(Items(ns), x) == Items(Filter(ns, x))
  {
    hide Containers;
    if ns != [] {
      FilteredItems(ns[1..], x);
      OneNode(ns[0]);
      ItemsOfSum(if ParentOf(ns[0]) == x then [ns[0]] else [], Filter(ns[1..], x));
      ChildItemsOfSum(if ns[0].MediaNode? then [ns[0].i] else [], Items(ns[1..]), x);
    }
  }

  lemma {:induction false} ChildItemsOfSum(a: seq<Item>, b: seq<Item>, x: Id)
    ensures ChildItems(a + b, x) == ChildItems(a, x) + ChildItems(b, x)
  {
    if a == [] {
      assert a + b == b;
    } else {
      assert (a + b)[0] == a[0] && (a + b)[1..] == a[1..] + b;
      ChildItemsOfSum(a[1..], b, x);
      Regroup(if a[0].parentId == x then [a[0]] else [], ChildItems(a[1..], x), ChildItems(b, x));
    }
  }

  lemma {:induction false} ListLengths(ns: seq<Node>)
    ensures |Containers(ns)| + |Items(ns)| == |ns|
  {
    if ns != [] {
      ListLengths(ns[1..]);
    }
  }

  lemma {:induction false} FilterShrinks(ns: seq<Node>, x: Id)
    ensures |Filter(ns, x)| <= |ns|
  {
    if ns != [] {
      FilterShrinks(ns[1..], x);
    }
  }

  lemma {:induction false} FilterMember(ns: seq<Node>, x: Id, n: Node)
    requires n in Filter(ns, x)
    ensures n in ns
  {
    if n !in (if ParentOf(ns[0]) == x then [ns[0]] else []) {
      FilterMember(ns[1..], x, n);
    }
  }

  lemma {:induction false} ContainerMember(ns: seq<Node>, n: Node)
    requires n in ns && n.FolderNode?
    ensures n.c in Containers(ns)
  {
    if n != ns[0] {
      ContainerMember(ns[1..], n);
    }
  }

  function CatalogOf(ns: seq<Node>): Catalog {
    Catalog(Containers(ns), Items(ns))
  }

  lemma CountOf(ns: seq<Node>, x: Id)
    requires |ns| < 0x1_0000_0000
    ensures ChildCount(CatalogOf(ns), x) == |Filter(ns, x)|
  {
    hide Containers, Items, Filter, ChildContainers, ChildItems;
    FilteredContainers(ns, x);
    FilteredItems(ns, x);
    ListLengths(Filter(ns, x));
    FilterShrinks(ns, x);
  }

  // ---------- directories and their identifiers ----------

  function IdOf(e: Entry, path: Path): Id {
    ObjectId("c", path + [e.name])
  }

  // What a directory holds, in scan order.
  function Listing(e: Entry): seq<Entry>
    requires e.Dir?
    ensures Size(Listing(e)) == Size(e.entries)
  {
    SortByName(e.entries)
  }

  // `x` identifies a directory below these entries.
  predicate Owner(es: seq<Entry>, path: Path, x: Id)
    decreases Size(es), 0
  {
    if es == [] then false else SizesBelow(es); EntryOwner(es[0], path, x) || Owner(es[1..], path, x)
  }

  predicate EntryOwner(e: Entry, path: Path, x: Id)
    decreases if e.Dir? then Size(e.entries) else 0, 1
  {
    e.Dir? && (IdOf(e, path) == x || Owner(Listing(e), path + [e.name], x))
  }

  // No two directories below these entries have the same identifier.
  ghost predicate Unique(es: seq<Entry>, path: Path)
    decreases Size(es), 0
  {
    if es == [] then true
    else
      SizesBelow(es);
      && EntryUnique(es[0], path) && Unique(es[1..], path)
      && forall x :: EntryOwner(es[0], path, x) ==> !Owner(es[1..], path, x)
  }

  ghost predicate EntryUnique(e: Entry, path: Path)
    decreases if e.Dir? then Size(e.entries) else 0, 1
  {
    e.Dir? ==> Unique(Listing(e), path + [e.name]) && !Owner(Listing(e), path + [e.name], IdOf(e, path))
  }

  // The children of one directory as nodes.
  function DirectEntry(e: Entry, path: Path, parent: Id, base: string): seq<Node> {
    if e.Dir? then [FolderNode(FolderOf(e, path, parent))]
    else if Media(e) then [MediaNode(ItemOf(e, path, parent, base))]
    else []
  }

  function Direct(es: seq<Entry>, path: Path, parent: Id, base: string): seq<Node> {
    if es == [] then [] else DirectEntry(es[0], path, parent, base) + Direct(es[1..], path, parent, base)
  }

  function FlatDir(e: Entry, path: Path, base: string): seq<Node>
    requires e.Dir?
  {
    FlatList(Listing(e), path + [e.name], IdOf(e, path), base)
  }

  lemma FlatEntryIs(e: Entry, path: Path, parent: Id, base: string)
    ensures FlatEntry(e, path, parent, base) == 
      DirectEntry(e, path, parent, base) + if e.Dir? then FlatDir(e, path, base) else []
  {
    hide FlatList, ItemOf;
  }

  lemma DirectParents(e: Entry, path: Path, parent: Id, base: string, x: Id)
    ensures Filter(DirectEntry(e, path, parent, base), x) ==
      if x == parent then DirectEntry(e, path, parent, base) else []
  {
    hide ObjectId, KindOf, DurationOf, Stem;
  }

  // An identifier that owns nothing here has no children here.
  lemma {:induction false} FilterOutside(es: seq<Entry>, path: Path, parent: Id, base: string, x: Id)
    requires x != parent && !Owner(es, path, x)
    ensures Filter(FlatList(es, path, parent, base), x) == []
    decreases Size(es)
  {
    hide ObjectId, FlatEntry, Filter, DirectEntry, SortByName;
    NoFilter(x);
    if es != [] {
      SizesBelow(es);
      var e := es[0];
      FilterOutside(es[1..], path, parent, base, x);
      FlatEntryIs(e, path, parent, base);
      DirectParents(e, path, parent, base, x);
      var inner := if e.Dir? then FlatDir(e, path, base) else [];
      if e.Dir? {
        FilterOutside(Listing(e), path + [e.name], IdOf(e, path), base, x);
      }
      FilterOfSum(DirectEntry(e, path, parent, base), inner, x);
      FilterOfSum(FlatEntry(e, path, parent, base), FlatList(es[1..], path, parent, base), x);
    }
  }

  lemma NoFilter(x: Id)
    ensures Filter([], x) == []
  {
  }

  // The children of the directory itself are its direct entries.
  lemma {:induction false} FilterDirect(es: seq<Entry>, path: Path, parent: Id, base: string)
    requires !Owner(es, path, parent)
    ensures Filter(FlatList(es, path, parent, base), parent) == Direct(es, path, parent, base)
    decreases Size(es)
  {
    hide ObjectId, FlatEntry, Filter, DirectEntry, SortByName;
    NoFilter(parent);
    if es != [] {
      SizesBelow(es);
      var e := es[0];
      FilterDirect(es[1..], path, parent, base);
      FlatEntryIs(e, path, parent, base);
      DirectParents(e, path, parent, base, parent);
      var inner := if e.Dir? then FlatDir(e, path, base) else [];
      if e.Dir? {
        FilterOutside(Listing(e), path + [e.name], IdOf(e, path), base, parent);
      }
      FilterOfSum(DirectEntry(e, path, parent, base), inner, parent);
      FilterOfSum(FlatEntry(e, path, parent, base), FlatList(es[1..], path, parent, base), parent);
    }
  }

  lemma {:induction false} OwnerAt(es: seq<Entry>, path: Path, k: nat, x: Id)
    requires k < |es| && EntryOwner(es[k], path, x)
    ensures Owner(es, path, x)
    decreases k
  {
    hide EntryOwner;
    SizesBelow(es);
    if k > 0 {
      OwnerAt(es[1..], path, k - 1, x);
    }
  }

  // Below one directory, the children of an identifier are those it has there.
  lemma {:induction false} FilterInto(es: seq<Entry>, k: nat, path: Path, parent: Id, base: string, x: Id)
    requires Unique(es, path) && k < |es| && es[k].Dir? && EntryOwner(es[k], path, x) && x != parent
    ensures Filter(FlatList(es, path, parent, base), x) == Filter(FlatDir(es[k], path, base), x)
    decreases k
  {
    hide ObjectId, FlatEntry, Filter, DirectEntry, SortByName, EntryOwner, EntryUnique, FlatDir;
    SizesBelow(es);
    NoFilter(x);
    var e := es[0];
    FlatEntryIs(e, path, parent, base);
    DirectParents(e, path, parent, base, x);
    var inner := if e.Dir? then FlatDir(e, path, base) else [];
    FilterOfSum(DirectEntry(e, path, parent, base), inner, x);
    FilterOfSum(FlatEntry(e, path, parent, base), FlatList(es[1..], path, parent, base), x);
    if k == 0 {
      FilterOutside(es[1..], path, parent, base, x);
    } else {
      OwnerAt(es[1..], path, k - 1, x);
      FilterInto(es[1..], k - 1, path, parent, base, x);
      if e.Dir? {
        FilterForeign(e, path, base, x);
      }
    }
  }

  /** The same of the catalog's own filters: they find the children of a directory inside the one it is under. */
  lemma ChildrenStayInside(es: seq<Entry>, k: nat, path: Path, parent: Id, base: string, x: Id)
    requires Unique(es, path) && k < |es| && es[k].Dir? && EntryOwner(es[k], path, x) && x != parent
    ensures var all, inside := FlatList(es, path, parent, base), FlatDir(es[k], path, base);
            && ChildContainers(Containers(all), x) == ChildContainers(Containers(inside), x)
            && ChildItems(Items(all), x) == ChildItems(Items(inside), x)
  {
    hide FlatList, FlatDir, Filter, ChildContainers, ChildItems, Containers, Items, Unique, EntryOwner;
    var all, inside := FlatList(es, path, parent, base), FlatDir(es[k], path, base);
    FilterInto(es, k, path, parent, base, x);
    FilteredContainers(all, x);
    FilteredContainers(inside, x);
    FilteredItems(all, x);
    FilteredItems(inside, x);
  }

  lemma FilterForeign(e: Entry, path: Path, base: string, x: Id)
    requires e.Dir? && !EntryOwner(e, path, x)
    ensures Filter(FlatDir(e, path, base), x) == []
  {
    hide ObjectId, FlatList, Filter, SortByName, Owner;
    FilterOutside(Listing(e), path + [e.name], IdOf(e, path), base, x);
  }

  // ---------- what a client sees ----------

  /** An object as a client shows it: a folder with its contents, or a video. */
  datatype View = View(what: Object, children: seq<View>)

  // A client that opens every folder, `depth` levels deep.
  function Explore(cat: Catalog, id: Id, depth: nat): seq<View>
    decreases depth, 1, 0
  {
    match Browse(cat, id, DirectChildren)
    case Err(_) => []
    case Ok(answer) => ExploreAll(cat, answer.objects, depth)
  }

  function ExploreAll(cat: Catalog, objects: seq<Object>, depth: nat): seq<View>
    decreases depth, 0, |objects|
  {
    if objects == [] then []
    else
      var o := objects[0];
      var inside := if o.Folder? && depth > 0 then Explore(cat, o.id, depth - 1) else [];
      [View(o, inside)] + ExploreAll(cat, objects[1..], depth)
  }

  // What there is to see, read off the directory tree: sub-directories in name order, then media files.
  function ViewsOf(es: seq<Entry>, path: Path, parent: Id, base: string): seq<View>
    decreases Size(es), 1
  {
    FolderViews(es, path, parent, base) + VideoViews(es, path, parent, base)
  }

  function FolderViews(es: seq<Entry>, path: Path, parent: Id, base: string): seq<View>
    decreases Size(es), 0
  {
    if es == [] then []
    else
      SizesBelow(es);
      var e := es[0];
      var rest := FolderViews(es[1..], path, parent, base);
      if e.Dir? then
        var id := IdOf(e, path);
        [View(Folder(id, parent, e.name, Shown(Listing(e))), ViewsOf(Listing(e), path + [e.name], id, base))] + rest
      else rest
  }

  // A video with everything the scan has listed of it.
  function VideoOf(i: Item): Object {
    Video(i.id, i.parentId, i.title, i.url, i.mime, i.size, i.duration)
  }

  function VideoViews(es: seq<Entry>, path: Path, parent: Id, base: string): seq<View> {
    if es == [] then []
    else (if Media(es[0]) then [View(VideoOf(ItemOf(es[0], path, parent, base)), [])] else [])
         + VideoViews(es[1..], path, parent, base)
  }

  // How many entries of a directory are shown: its sub-directories and media files.
  function Shown(es: seq<Entry>): nat {
    if es == [] then 0 else (if es[0].Dir? || Media(es[0]) then 1 else 0) + Shown(es[1..])
  }

  function Height(es: seq<Entry>): nat
    decreases Size(es)
  {
    if es == [] then 0
    else
      SizesBelow(es);
      var rest := Height(es[1..]);
      if es[0].Dir? && Height(Listing(es[0])) + 1 > rest then Height(Listing(es[0])) + 1 else rest
  }

  lemma {:induction false} ShownIsDirect(es: seq<Entry>, path: Path, parent: Id, base: string)
    ensures |Direct(es, path, parent, base)| == Shown(es)
  {
    hide ItemOf, ObjectId;
    if es != [] {
      ShownIsDirect(es[1..], path, parent, base);
    }
  }

  // ---------- exploring sees what there is ----------

  // In the whole catalog `all`, every directory from here down has the children it has in this listing.
  ghost predicate Holds(all: seq<Node>, es: seq<Entry>, path: Path, id: Id, base: string) {
    forall x | x == id || Owner(es, path, x) :: Filter(all, x) == Filter(FlatList(es, path, id, base), x)
  }

  lemma HoldsBelow(all: seq<Node>, es: seq<Entry>, k: nat, path: Path, id: Id, base: string)
    requires Holds(all, es, path, id, base) && Unique(es, path) && !Owner(es, path, id)
    requires k < |es| && es[k].Dir?
    ensures Holds(all, Listing(es[k]), path + [es[k].name], IdOf(es[k], path), base)
  {
    hide FlatList, Filter, Owner, Unique, SortByName, ObjectId;
    var e := es[k];
    forall x | x == IdOf(e, path) || Owner(Listing(e), path + [e.name], x)
      ensures Filter(all, x) == Filter(FlatDir(e, path, base), x)
    {
      OwnerAt(es, path, k, x);
      FilterInto(es, k, path, id, base, x);
    }
  }

  lemma {:induction false} UniqueAt(es: seq<Entry>, k: nat, path: Path)
    requires Unique(es, path) && k < |es|
    ensures EntryUnique(es[k], path)
    decreases k
  {
    hide EntryUnique, EntryOwner;
    SizesBelow(es);
    if k > 0 {
      UniqueAt(es[1..], k - 1, path);
    }
  }

  lemma {:induction false} HeightAt(es: seq<Entry>, k: nat)
    requires k < |es| && es[k].Dir?
    ensures Height(Listing(es[k])) < Height(es)
    decreases k
  {
    SizesBelow(es);
    if k > 0 {
      HeightAt(es[1..], k - 1);
    }
  }

  lemma {:induction false} ExploreSum(cat: Catalog, a: seq<Object>, b: seq<Object>, depth: nat)
    ensures ExploreAll(cat, a + b, depth) == ExploreAll(cat, a, depth) + ExploreAll(cat, b, depth)
    decreases |a|
  {
    hide Explore;
    if a == [] {
      assert a + b == b;
    } else {
      assert (a + b)[0] == a[0] && (a + b)[1..] == a[1..] + b;
      ExploreSum(cat, a[1..], b, depth);
    }
  }

  lemma ChildrenAre(all: seq<Node>, es: seq<Entry>, path: Path, id: Id, base: string)
    requires Holds(all, es, path, id, base) && !Owner(es, path, id)
    ensures var d := Direct(es, path, id, base);
            Children(CatalogOf(all), id) == FolderObjects(CatalogOf(all), Containers(d)) + VideoObjects(Items(d))
  {
    hide Filter, FlatList, Owner, ChildContainers, ChildItems, Containers, Items, Direct;
    FilterDirect(es, path, id, base);
    FilteredContainers(all, id);
    FilteredItems(all, id);
  }

  lemma DirectLists(e: Entry, rest: seq<Node>, path: Path, parent: Id, base: string)
    ensures Containers(DirectEntry(e, path, parent, base) + rest) ==
      (if e.Dir? then [FolderOf(e, path, parent)] else []) + Containers(rest)
    ensures Items(DirectEntry(e, path, parent, base) + rest) ==
      (if Media(e) then [ItemOf(e, path, parent, base)] else []) + Items(rest)
  {
    hide ItemOf, ObjectId;
    var d := DirectEntry(e, path, parent, base);
    ContainersOfSum(d, rest);
    ItemsOfSum(d, rest);
  }

  lemma {:induction false} VideosExplored(cat: Catalog, es: seq<Entry>, path: Path, parent: Id, base: string,
                                          depth: nat)
    ensures ExploreAll(cat, VideoObjects(Items(Direct(es, path, parent, base))), depth) ==
      VideoViews(es, path, parent, base)
  {
    hide ItemOf, ObjectId, Explore, Items, Containers, DirectEntry, KindOf;
    if es == [] {
      NoItems();
    } else {
      VideosExplored(cat, es[1..], path, parent, base, depth);
      var rest := Direct(es[1..], path, parent, base);
      DirectLists(es[0], rest, path, parent, base);
      if Media(es[0]) {
        var i := ItemOf(es[0], path, parent, base);
        var objects := VideoObjects([i] + Items(rest));
        assert objects[0] == VideoObject(i) && objects[1..] == VideoObjects(Items(rest));
      } else {
        assert [] + Items(rest) == Items(rest);
      }
    }
  }

  lemma NoItems()
    ensures Items([]) == [] && Containers([]) == []
    ensures forall id :: FindContainer([], id).None? && FindItem([], id).None?
  {
  }

  // The folders from position `k` on are explored as they are.
  lemma {:induction false} FoldersExplored(all: seq<Node>, es: seq<Entry>, k: nat, path: Path, id: Id, base: string,
                                           depth: nat)
    requires Holds(all, es, path, id, base) && Unique(es, path) && !Owner(es, path, id) && |all| < 0x1_0000_0000
    requires k <= |es| && depth >= Height(es)
    ensures var cat := CatalogOf(all);
            ExploreAll(cat, FolderObjects(cat, Containers(Direct(es[k..], path, id, base))), depth)
              == FolderViews(es[k..], path, id, base)
    decreases Size(es), 0, |es| - k
  {
    hide ItemOf, ObjectId, Explore, Items, Containers, DirectEntry, KindOf, Holds, Unique, Owner, Height, Size,
         SortByName, ChildCount,
         Shown, ViewsOf;
    var cat := CatalogOf(all);
    if k == |es| {
      NoItems();
    } else {
      FoldersExplored(all, es, k + 1, path, id, base, depth);
      var e := es[k];
      var rest := Direct(es[k + 1..], path, id, base);
      assert es[k..][0] == e && es[k..][1..] == es[k + 1..];
      DirectLists(e, rest, path, id, base);
      if e.Dir? {
        FolderExplored(all, es, k, path, id, base, depth);
        var c := FolderOf(e, path, id);
        var objects := FolderObjects(cat, [c] + Containers(rest));
        assert objects[0] == FolderObject(cat, c) && objects[1..] == FolderObjects(cat, Containers(rest));
      } else {
        assert [] + Containers(rest) == Containers(rest);
      }
    }
  }

  lemma FolderExplored(all: seq<Node>, es: seq<Entry>, k: nat, path: Path, id: Id, base: string, depth: nat)
    requires Holds(all, es, path, id, base) && Unique(es, path) && !Owner(es, path, id) && |all| < 0x1_0000_0000
    requires k < |es| && es[k].Dir? && depth >= Height(es)
    ensures depth > 0
    ensures Explore(CatalogOf(all), IdOf(es[k], path), depth - 1) ==
      ViewsOf(Listing(es[k]), path + [es[k].name], IdOf(es[k], path), base)
    ensures ChildCount(CatalogOf(all), IdOf(es[k], path)) == Shown(Listing(es[k]))
    decreases Size(es), 0, 0
  {
    hide ItemOf, ObjectId, Explore, Items, Containers, KindOf, Unique, Owner, Height, Size, SortByName, ChildCount,
         Shown, ViewsOf, Filter, FlatList, Direct;
    var e := es[k];
    HoldsBelow(all, es, k, path, id, base);
    UniqueAt(es, k, path);
    HeightAt(es, k);
    MemberSize(es, k);
    FilterDirect(es, path, id, base);
    DirectMember(es, k, path, id, base);
    FilterMember(all, id, FolderNode(FolderOf(e, path, id)));
    ContainerMember(all, FolderNode(FolderOf(e, path, id)));
    ExploreIs(all, Listing(e), path + [e.name], IdOf(e, path), base, depth - 1);
    CountOf(all, IdOf(e, path));
    FilterDirect(Listing(e), path + [e.name], IdOf(e, path), base);
    ShownIsDirect(Listing(e), path + [e.name], IdOf(e, path), base);
  }

  lemma {:induction false} DirectMember(es: seq<Entry>, k: nat, path: Path, parent: Id, base: string)
    requires k < |es| && es[k].Dir?
    ensures FolderNode(FolderOf(es[k], path, parent)) in Direct(es, path, parent, base)
    decreases k
  {
    hide ItemOf, ObjectId;
    if k > 0 {
      DirectMember(es[1..], k - 1, path, parent, base);
    }
  }

  lemma ExploreIs(all: seq<Node>, es: seq<Entry>, path: Path, id: Id, base: string, depth: nat)
    requires Holds(all, es, path, id, base) && Unique(es, path) && !Owner(es, path, id) && |all| < 0x1_0000_0000
    requires depth >= Height(es)
    requires id == ROOT || exists c <- Containers(all) :: c.id == id
    ensures Explore(CatalogOf(all), id, depth) == ViewsOf(es, path, id, base)
    decreases Size(es), 1, 0
  {
    hide Items, Containers, Holds, Unique, Owner, Height, Size, ChildCount, FolderViews, VideoViews, Direct,
         ExploreAll, Children,
         FindContainer, FindItem, FolderObjects, VideoObjects;
    var cat := CatalogOf(all);
    var d := Direct(es, path, id, base);
    ChildrenAre(all, es, path, id, base);
    FoldersExplored(all, es, 0, path, id, base, depth);
    assert es[0..] == es;
    VideosExplored(cat, es, path, id, base, depth);
    ExploreSum(cat, FolderObjects(cat, Containers(d)), VideoObjects(Items(d)), depth);
  }

  // ---------- from distinct names and distinct hashes to distinct identifiers ----------

  function NameCount(es: seq<Entry>, name: Bytes): nat {
    if es == [] then 0 else (if es[0].name == name then 1 else 0) + NameCount(es[1..], name)
  }

  lemma {:induction false} InsertNames(e: Entry, es: seq<Entry>, name: Bytes)
    ensures NameCount(Insert(e, es), name) == (if e.name == name then 1 else 0) + NameCount(es, name)
  {
    hide NameLess;
    if es == [] || !NameLess(es[0].name, e.name) {
      assert ([e] + es)[1..] == es;
    } else {
      InsertNames(e, es[1..], name);
      assert ([es[0]] + Insert(e, es[1..]))[1..] == Insert(e, es[1..]);
    }
  }

  lemma {:induction false} SortNames(es: seq<Entry>, name: Bytes)
    ensures NameCount(SortByName(es), name) == NameCount(es, name)
  {
    if es != [] {
      SortNames(es[1..], name);
      InsertNames(es[0], SortByName(es[1..]), name);
    }
  }

  // No directory holds two entries of the same name.
  ghost predicate DistinctNames(es: seq<Entry>)
    decreases Size(es), 1
  {
    (forall name :: NameCount(es, name) <= 1) && Below(es)
  }

  ghost predicate Below(es: seq<Entry>)
    decreases Size(es), 0
  {
    if es == [] then true
    else SizesBelow(es); (es[0].Dir? ==> DistinctNames(es[0].entries)) && Below(es[1..])
  }

  lemma {:induction false} InsertBelow(e: Entry, es: seq<Entry>)
    requires (e.Dir? ==> DistinctNames(e.entries)) && Below(es)
    ensures Below(Insert(e, es))
  {
    hide NameLess, DistinctNames;
    if es == [] || !NameLess(es[0].name, e.name) {
      assert ([e] + es)[1..] == es;
    } else {
      InsertBelow(e, es[1..]);
      assert ([es[0]] + Insert(e, es[1..]))[1..] == Insert(e, es[1..]);
    }
  }

  lemma {:induction false} SortBelow(es: seq<Entry>)
    requires Below(es)
    ensures Below(SortByName(es))
  {
    hide DistinctNames, Insert;
    if es != [] {
      SortBelow(es[1..]);
      InsertBelow(es[0], SortByName(es[1..]));
    }
  }

  // Names distinct in a directory as it is are distinct in the order of the scan.
  lemma SortDistinct(es: seq<Entry>)
    requires DistinctNames(es)
    ensures DistinctNames(SortByName(es))
  {
    hide SortByName, Below, NameCount;
    SortBelow(es);
    forall name
      ensures NameCount(SortByName(es), name) <= 1
    {
      SortNames(es, name);
    }
  }

  // The paths of all directories below.
  function DirPaths(es: seq<Entry>, path: Path): set<Path>
    decreases Size(es), 0
  {
    if es == [] then {} else SizesBelow(es); EntryPaths(es[0], path) + DirPaths(es[1..], path)
  }

  function EntryPaths(e: Entry, path: Path): set<Path>
    decreases if e.Dir? then Size(e.entries) else 0, 1
  {
    if e.Dir? then {path + [e.name]} + DirPaths(Listing(e), path + [e.name]) else {}
  }

  ghost predicate CollisionFree(paths: set<Path>) {
    forall p, q | p in paths && q in paths :: PathHash(p) == PathHash(q) ==> p == q
  }

  lemma {:induction false} OwnerPath(es: seq<Entry>, path: Path, x: Id) returns (p: Path)
    requires Owner(es, path, x)
    ensures p in DirPaths(es, path) && ObjectId("c", p) == x
    decreases Size(es)
  {
    hide ObjectId, SortByName;
    SizesBelow(es);
    if EntryOwner(es[0], path, x) {
      if IdOf(es[0], path) == x {
        p := path + [es[0].name];
      } else {
        p := OwnerPath(Listing(es[0]), path + [es[0].name], x);
      }
    } else {
      p := OwnerPath(es[1..], path, x);
    }
  }

  lemma EntryOwnerPath(e: Entry, path: Path, x: Id) returns (p: Path)
    requires EntryOwner(e, path, x)
    ensures p in EntryPaths(e, path) && ObjectId("c", p) == x
  {
    hide ObjectId, SortByName, Owner, DirPaths;
    if IdOf(e, path) == x {
      p := path + [e.name];
    } else {
      p := OwnerPath(Listing(e), path + [e.name], x);
    }
  }

  // A path below goes through some entry here.
  lemma {:induction false} PathsUnder(es: seq<Entry>, path: Path, p: Path)
    requires p in DirPaths(es, path)
    ensures |p| > |path| && p[..|path|] == path && NameCount(es, p[|path|]) >= 1
    decreases Size(es), 0
  {
    hide SortByName;
    SizesBelow(es);
    if p in EntryPaths(es[0], path) {
      EntryPathsUnder(es[0], path, p);
    } else {
      PathsUnder(es[1..], path, p);
    }
  }

  lemma EntryPathsUnder(e: Entry, path: Path, p: Path)
    requires p in EntryPaths(e, path)
    ensures |p| > |path| && p[..|path|] == path && p[|path|] == e.name
    decreases if e.Dir? then Size(e.entries) else 0, 1
  {
    hide SortByName, NameCount;
    var deeper := path + [e.name];
    if p != deeper {
      PathsUnder(Listing(e), deeper, p);
      assert p[..|path|] == p[..|deeper|][..|path|];
      assert p[|path|] == p[..|deeper|][|path|];
    }
  }

  lemma {:induction false} UniqueIds(es: seq<Entry>, path: Path)
    requires Below(es) && (forall name :: NameCount(es, name) <= 1) && CollisionFree(DirPaths(es, path))
    ensures Unique(es, path)
    decreases Size(es), 0
  {
    hide ObjectId, SortByName, EntryOwner, Owner, PathHash, DistinctNames;
    if es != [] {
      SizesBelow(es);
      var e, rest := es[0], es[1..];
      assert forall name :: NameCount(rest, name) <= NameCount(es, name);
      UniqueIds(rest, path);
      assert NameCount(es, e.name) == 1 + NameCount(rest, e.name);
      forall x | EntryOwner(e, path, x)
        ensures !Owner(rest, path, x)
      {
        if Owner(rest, path, x) {
          var p := EntryOwnerPath(e, path, x);
          var q := OwnerPath(rest, path, x);
          IdsDiffer(p, q);
          EntryPathsUnder(e, path, p);
          PathsUnder(rest, path, q);
        }
      }
      if e.Dir? {
        DirUnique(e, path);
      }
    }
  }

  lemma DirUnique(e: Entry, path: Path)
    requires e.Dir? && DistinctNames(e.entries) && CollisionFree(EntryPaths(e, path))
    ensures EntryUnique(e, path)
    decreases Size(e.entries), 1
  {
    hide ObjectId, SortByName, Owner, PathHash, NameCount, Unique, DirPaths, Below;
    var deeper := path + [e.name];
    SortDistinct(e.entries);
    UniqueIds(Listing(e), deeper);
    if Owner(Listing(e), deeper, IdOf(e, path)) {
      var q := OwnerPath(Listing(e), deeper, IdOf(e, path));
      IdsDiffer(deeper, q);
      PathsUnder(Listing(e), deeper, q);
    }
  }

  // ---------- the theorems ----------

  // The file system and the hash keep things apart: names within a directory, hashes of directory paths.
  ghost predicate Distinct(root: seq<Entry>) {
    DistinctNames(root) && CollisionFree(DirPaths(SortByName(root), []))
  }

  lemma RootOwnsNothing(es: seq<Entry>, path: Path)
    ensures !Owner(es, path, ROOT)
  {
    hide ObjectId, PathHash;
    if Owner(es, path, ROOT) {
      var p := OwnerPath(es, path, ROOT);
      IdsDiffer(p, p);
    }
  }

  /**
   * Scanning and browsing lose nothing. A client that starts at "0" and opens every folder sees exactly
   * the directory tree that was scanned: every directory and every media file once, under its own
   * parent, folders before files and each in name order, with the true number of children on every folder.
   */
  lemma BrowsingRecoversTree(root: seq<Entry>, base: string, depth: nat)
    requires Distinct(root) && |Flat(root, [], ROOT, base)| < 0x1_0000_0000
    requires depth >= Height(SortByName(root))
    ensures Explore(ScannedCatalog(root, base), ROOT, depth) == ViewsOf(SortByName(root), [], ROOT, base)
  {
    hide Owner, Unique, Filter, FlatList, ViewsOf, Explore, Height, Containers, Items, DirPaths, Below, NameCount,
         SortByName;
    var es := SortByName(root);
    var all := Flat(root, [], ROOT, base);
    SortDistinct(root);
    UniqueIds(es, []);
    RootOwnsNothing(es, []);
    assert Holds(all, es, [], ROOT, base);
    ExploreIs(all, es, [], ROOT, base, depth);
  }

  // ---------- one object at a time ----------

  function NodeId(n: Node): Id {
    if n.FolderNode? then n.c.id else n.i.id
  }

  function ObjectOf(cat: Catalog, n: Node): Object {
    if n.FolderNode? then FolderObject(cat, n.c) else VideoObject(n.i)
  }

  // The paths of all media files below.
  function MediaPaths(es: seq<Entry>, path: Path): set<Path>
    decreases Size(es), 0
  {
    if es == [] then {} else SizesBelow(es); MediaEntryPaths(es[0], path) + MediaPaths(es[1..], path)
  }

  function MediaEntryPaths(e: Entry, path: Path): set<Path>
    decreases if e.Dir? then Size(e.entries) else 0, 1
  {
    if e.Dir? then MediaPaths(Listing(e), path + [e.name]) else if Media(e) then {path + [e.name]} else {}
  }

  lemma {:induction false} MediaUnder(es: seq<Entry>, path: Path, p: Path)
    requires p in MediaPaths(es, path)
    ensures |p| > |path| && p[..|path|] == path && NameCount(es, p[|path|]) >= 1
    decreases Size(es), 0
  {
    hide SortByName, Media;
    SizesBelow(es);
    if p in MediaEntryPaths(es[0], path) {
      MediaEntryUnder(es[0], path, p);
    } else {
      MediaUnder(es[1..], path, p);
    }
  }

  lemma MediaEntryUnder(e: Entry, path: Path, p: Path)
    requires p in MediaEntryPaths(e, path)
    ensures |p| > |path| && p[..|path|] == path && p[|path|] == e.name
    decreases if e.Dir? then Size(e.entries) else 0, 1
  {
    hide SortByName, NameCount, Media;
    var deeper := path + [e.name];
    if e.Dir? {
      MediaUnder(Listing(e), deeper, p);
      assert p[..|path|] == p[..|deeper|][..|path|];
      assert p[|path|] == p[..|deeper|][|path|];
    }
  }

  // The node `n` has the path `p`, which is among these.
  predicate Names(n: Node, p: Path, folders: set<Path>, media: set<Path>) {
    if n.FolderNode? then n.c.id == ObjectId("c", p) && p in folders else n.i.id == ObjectId("m", p) && p in media
  }

  lemma {:induction false} NodePath(es: seq<Entry>, path: Path, parent: Id, base: string, n: Node) returns (p: Path)
    requires n in FlatList(es, path, parent, base)
    ensures Names(n, p, DirPaths(es, path), MediaPaths(es, path))
    decreases Size(es), 0
  {
    hide ObjectId, SortByName, EntryPaths, MediaEntryPaths, FlatEntry;
    SizesBelow(es);
    if n in FlatEntry(es[0], path, parent, base) {
      p := EntryNodePath(es[0], path, parent, base, n);
    } else {
      p := NodePath(es[1..], path, parent, base, n);
    }
  }

  lemma EntryNodePath(e: Entry, path: Path, parent: Id, base: string, n: Node) returns (p: Path)
    requires n in FlatEntry(e, path, parent, base)
    ensures Names(n, p, EntryPaths(e, path), MediaEntryPaths(e, path))
    decreases if e.Dir? then Size(e.entries) else 0, 1
  {
    hide ObjectId, SortByName, DirPaths, MediaPaths, KindOf, DurationOf, Stem, FlatList;
    FlatEntryIs(e, path, parent, base);
    if e.Dir? && n in FlatDir(e, path, base) {
      p := NodePath(Listing(e), path + [e.name], IdOf(e, path), base, n);
    } else {
      p := path + [e.name];
    }
  }

  // Nodes of different paths have different identifiers.
  lemma PathsTellApart(m: Node, p: Path, n: Node, q: Path, folders: set<Path>, media: set<Path>)
    requires Names(m, p, folders, media) && Names(n, q, folders, media) && p != q
    requires CollisionFree(folders) && CollisionFree(media)
    ensures NodeId(m) != NodeId(n)
  {
    hide ObjectId, PathHash;
    IdsDiffer(p, q);
    IdsDiffer(q, p);
  }

  predicate Apart(ns: seq<Node>) {
    ns == [] || ((forall n <- ns[1..] :: NodeId(n) != NodeId(ns[0])) && Apart(ns[1..]))
  }

  lemma {:induction false} ApartSum(a: seq<Node>, b: seq<Node>)
    requires Apart(a) && Apart(b) && forall m <- a, n <- b :: NodeId(m) != NodeId(n)
    ensures Apart(a + b)
  {
    if a == [] {
      assert a + b == b;
    } else {
      assert (a + b)[0] == a[0] && (a + b)[1..] == a[1..] + b;
      ApartSum(a[1..], b);
    }
  }

  lemma {:induction false} NodesApart(es: seq<Entry>, path: Path, parent: Id, base: string)
    requires Below(es) && (forall name :: NameCount(es, name) <= 1)
    requires CollisionFree(DirPaths(es, path)) && CollisionFree(MediaPaths(es, path))
    ensures Apart(FlatList(es, path, parent, base))
    decreases Size(es), 0
  {
    hide ObjectId, SortByName, FlatEntry, EntryPaths, MediaEntryPaths, CollisionFree, DistinctNames, NodeId, Names,
         Apart;
    if es == [] {
      NothingApart();
    } else {
      SizesBelow(es);
      var e, rest := es[0], es[1..];
      FewerCollisions(EntryPaths(e, path), DirPaths(rest, path));
      FewerCollisions(MediaEntryPaths(e, path), MediaPaths(rest, path));
      assert forall name :: NameCount(rest, name) <= NameCount(es, name);
      NodesApart(rest, path, parent, base);
      EntryApart(e, path, parent, base);
      var a, b := FlatEntry(e, path, parent, base), FlatList(rest, path, parent, base);
      forall m <- a, n <- b
        ensures NodeId(m) != NodeId(n)
      {
        EntryAndRest(es, path, parent, base, m, n);
      }
      ApartSum(a, b);
    }
  }

  lemma NothingApart()
    ensures Apart([])
  {
  }

  lemma FewerCollisions(a: set<Path>, b: set<Path>)
    requires CollisionFree(a + b)
    ensures CollisionFree(a) && CollisionFree(b)
  {
    hide PathHash;
  }

  lemma EntryAndRest(es: seq<Entry>, path: Path, parent: Id, base: string, m: Node, n: Node)
    requires es != [] && forall name :: NameCount(es, name) <= 1
    requires CollisionFree(DirPaths(es, path)) && CollisionFree(MediaPaths(es, path))
    requires m in FlatEntry(es[0], path, parent, base) && n in FlatList(es[1..], path, parent, base)
    ensures NodeId(m) != NodeId(n)
  {
    hide ObjectId, SortByName, FlatEntry, EntryPaths, MediaEntryPaths, FlatList, CollisionFree, NodeId;
    var p := EntryNodePath(es[0], path, parent, base, m);
    var q := NodePath(es[1..], path, parent, base, n);
    if m.FolderNode? {
      EntryPathsUnder(es[0], path, p);
    } else {
      MediaEntryUnder(es[0], path, p);
    }
    if n.FolderNode? {
      PathsUnder(es[1..], path, q);
    } else {
      MediaUnder(es[1..], path, q);
    }
    assert NameCount(es, es[0].name) == 1 + NameCount(es[1..], es[0].name);
    PathsTellApart(m, p, n, q, DirPaths(es, path), MediaPaths(es, path));
  }

  lemma EntryApart(e: Entry, path: Path, parent: Id, base: string)
    requires e.Dir? ==> DistinctNames(e.entries)
    requires CollisionFree(EntryPaths(e, path)) && CollisionFree(MediaEntryPaths(e, path))
    ensures Apart(FlatEntry(e, path, parent, base))
    decreases if e.Dir? then Size(e.entries) else 0, 1
  {
    hide ObjectId, SortByName, CollisionFree, NameCount, DirPaths, MediaPaths, FlatList, ItemOf, Below;
    FlatEntryIs(e, path, parent, base);
    var own := DirectEntry(e, path, parent, base);
    assert Apart(own);
    if e.Dir? {
      var deeper := path + [e.name];
      SortDistinct(e.entries);
      FewerCollisions({deeper}, DirPaths(Listing(e), deeper));
      NodesApart(Listing(e), deeper, IdOf(e, path), base);
      forall m <- own, n <- FlatDir(e, path, base)
        ensures NodeId(m) != NodeId(n)
      {
        FolderAndInside(e, path, parent, base, n);
      }
      ApartSum(own, FlatDir(e, path, base));
    }
  }

  lemma FolderAndInside(e: Entry, path: Path, parent: Id, base: string, n: Node)
    requires e.Dir? && n in FlatDir(e, path, base) && CollisionFree(EntryPaths(e, path))
    ensures NodeId(n) != IdOf(e, path)
  {
    hide ObjectId, SortByName, NameCount, DirPaths, MediaPaths, FlatList, PathHash;
    var deeper := path + [e.name];
    var q := NodePath(Listing(e), deeper, IdOf(e, path), base, n);
    IdsDiffer(deeper, q);
    if n.FolderNode? {
      PathsUnder(Listing(e), deeper, q);
    }
  }

  lemma FindFirst(ns: seq<Node>, id: Id)
    requires ns != []
    ensures FindContainer(Containers(ns), id) ==
      if ns[0].FolderNode? && ns[0].c.id == id then Some(ns[0].c) else FindContainer(Containers(ns[1..]), id)
    ensures FindItem(Items(ns), id) ==
      if ns[0].MediaNode? && ns[0].i.id == id then Some(ns[0].i) else FindItem(Items(ns[1..]), id)
  {
    var cs, items := Containers(ns[1..]), Items(ns[1..]);
    if ns[0].FolderNode? {
      assert ([ns[0].c] + cs)[1..] == cs && [] + items == items;
    } else {
      assert ([ns[0].i] + items)[1..] == items && [] + cs == cs;
    }
  }

  // Identifiers that differ find their own object.
  lemma {:induction false} FindNode(ns: seq<Node>, n: Node)
    requires Apart(ns) && n in ns
    ensures FindContainer(Containers(ns), NodeId(n)) == if n.FolderNode? then Some(n.c) else None
    ensures FindItem(Items(ns), NodeId(n)) == if n.MediaNode? then Some(n.i) else None
  {
    hide Containers, Items, FindContainer, FindItem;
    FindFirst(ns, NodeId(n));
    if n == ns[0] {
      FindNothing(ns[1..], NodeId(n));
    } else {
      FindNode(ns[1..], n);
    }
  }

  lemma {:induction false} FindNothing(ns: seq<Node>, id: Id)
    requires forall n <- ns :: NodeId(n) != id
    ensures FindContainer(Containers(ns), id).None? && FindItem(Items(ns), id).None?
  {
    hide Containers, Items, FindContainer, FindItem;
    if ns == [] {
      NoItems();
    } else {
      FindFirst(ns, id);
      assert NodeId(ns[0]) != id;
      FindNothing(ns[1..], id);
    }
  }

  /** Asked about any one object of a scanned catalog, Browse answers with that object and no other. */
  lemma MetadataIsItsObject(root: seq<Entry>, base: string, n: Node)
    requires Distinct(root) && CollisionFree(MediaPaths(SortByName(root), []))
    requires n in Flat(root, [], ROOT, base)
    ensures var cat := ScannedCatalog(root, base);
            Browse(cat, NodeId(n), Metadata) == Ok(Answer([ObjectOf(cat, n)], 1, 1))
  {
    hide SortByName, FlatList, DirPaths, MediaPaths, Below, NameCount, CollisionFree, ObjectId, Containers, Items,
         FindContainer, FindItem, ChildCount;
    var es := SortByName(root);
    SortDistinct(root);
    NodesApart(es, [], ROOT, base);
    FindNode(FlatList(es, [], ROOT, base), n);
    var p := NodePath(es, [], ROOT, base, n);
    NotRoot(p);
  }

  lemma NotRoot(p: Path)
    ensures ObjectId("c", p) != ROOT && ObjectId("m", p) != ROOT
  {
    hide PathHash, Hex;
    assert ObjectId("m", p)[0] == 'm';
    assert ObjectId("c", p)[0] == 'c';
  }

  // The object is somewhere in what a client sees.
  predicate Shows(vs: seq<View>, o: Object) {
    vs != [] && (vs[0].what == o || Shows(vs[0].children, o) || Shows(vs[1..], o))
  }

  predicate Listed(ns: seq<Node>, o: Object) {
    exists n <- ns :: o == ObjectOf(CatalogOf(ns), n)
  }

  // Nothing is seen that the catalog does not list.
  lemma {:induction false} ExploreShows(ns: seq<Node>, id: Id, depth: nat, o: Object)
    requires Shows(Explore(CatalogOf(ns), id, depth), o)
    ensures Listed(ns, o)
    decreases depth, 1, 0
  {
    hide ExploreAll, Children, FindContainer, FindItem, ChildCount, Listed, Shows;
    var answer := Browse(CatalogOf(ns), id, DirectChildren);
    assert answer.Err? ==> !Shows([], o) by { NothingShown(o); }
    if answer.value.objects == [] {
      NothingExplored(CatalogOf(ns), depth, o);
    } else {
      ChildrenListed(ns, id);
      ExploreAllShows(ns, Children(CatalogOf(ns), id), depth, o);
    }
  }

  lemma NothingShown(o: Object)
    ensures !Shows([], o)
  {
  }

  lemma NothingExplored(cat: Catalog, depth: nat, o: Object)
    ensures !Shows(ExploreAll(cat, [], depth), o)
  {
  }

  lemma {:induction false} ExploreAllShows(ns: seq<Node>, objects: seq<Object>, depth: nat, o: Object)
    requires Shows(ExploreAll(CatalogOf(ns), objects, depth), o)
    requires forall x <- objects :: Listed(ns, x)
    ensures Listed(ns, o)
    decreases depth, 0, |objects|
  {
    hide Explore, Listed;
    if objects != [] {
      var first := objects[0];
      var inside := if first.Folder? && depth > 0 then Explore(CatalogOf(ns), first.id, depth - 1) else [];
      var rest := ExploreAll(CatalogOf(ns), objects[1..], depth);
      ShowsCons(View(first, inside), rest, o);
      if Shows(inside, o) {
        ExploreShows(ns, first.id, depth - 1, o);
      } else if Shows(rest, o) {
        ExploreAllShows(ns, objects[1..], depth, o);
      }
    }
  }

  lemma ShowsCons(v: View, rest: seq<View>, o: Object)
    ensures Shows([v] + rest, o) <==> v.what == o || Shows(v.children, o) || Shows(rest, o)
  {
    assert ([v] + rest)[0] == v && ([v] + rest)[1..] == rest;
  }

  lemma ChildrenListed(ns: seq<Node>, id: Id)
    ensures forall x <- Children(CatalogOf(ns), id) :: Listed(ns, x)
  {
    hide Filter, ChildContainers, ChildItems, Containers, Items, ChildCount;
    FilteredContainers(ns, id);
    FilteredItems(ns, id);
    forall x <- Children(CatalogOf(ns), id)
      ensures Listed(ns, x)
    {
      var n := ChildNode(ns, id, x);
      FilterMember(ns, id, n);
    }
  }

  lemma ChildNode(ns: seq<Node>, id: Id, x: Object) returns (n: Node)
    requires x in FolderObjects(CatalogOf(ns), Containers(Filter(ns, id))) + VideoObjects(Items(Filter(ns, id)))
    ensures n in Filter(ns, id) && x == ObjectOf(CatalogOf(ns), n)
  {
    hide Filter, Containers, Items, ChildCount;
    var cat, some := CatalogOf(ns), Filter(ns, id);
    if x in FolderObjects(cat, Containers(some)) {
      var c :| c in Containers(some) && x == FolderObject(cat, c);
      n := FolderNode(c);
      ListsHold(some, n);
    } else {
      var i :| i in Items(some) && x == VideoObject(i);
      n := MediaNode(i);
      ListsHold(some, n);
    }
  }

  lemma {:induction false} ListsHold(ns: seq<Node>, n: Node)
    requires if n.FolderNode? then n.c in Containers(ns) else n.i in Items(ns)
    ensures n in ns
  {
    if ns != [] && n != ns[0] {
      ListsHold(ns[1..], n);
    }
  }

  /** Every object a client comes across while exploring is the answer to asking about it by its identifier. */
  lemma MetadataIsWhatIsShown(root: seq<Entry>, base: string, depth: nat, o: Object)
    requires Distinct(root) && CollisionFree(MediaPaths(SortByName(root), []))
    requires Shows(Explore(ScannedCatalog(root, base), ROOT, depth), o)
    ensures Browse(ScannedCatalog(root, base), o.id, Metadata) == Ok(Answer([o], 1, 1))
  {
    hide SortByName, FlatList, MediaPaths, CollisionFree, Distinct, Explore, Containers, Items, Browse, ChildCount,
         Shows;
    var all := Flat(root, [], ROOT, base);
    ExploreShows(all, ROOT, depth, o);
    var n :| n in all && o == ObjectOf(CatalogOf(all), n);
    MetadataIsItsObject(root, base, n);
  }

  // ---------- counts ----------

  // Objects seen, and the child counts shown on them.
  function Seen(vs: seq<View>): nat {
    if vs == [] then 0 else 1 + Seen(vs[0].children) + Seen(vs[1..])
  }

  function Counts(vs: seq<View>): nat {
    if vs == [] then 0
    else (if vs[0].what.Folder? then vs[0].what.childCount else 0) + Counts(vs[0].children) + Counts(vs[1..])
  }

  lemma {:induction false} SeenSum(a: seq<View>, b: seq<View>)
    ensures Seen(a + b) == Seen(a) + Seen(b) && Counts(a + b) == Counts(a) + Counts(b)
  {
    if a == [] {
      assert a + b == b;
    } else {
      assert (a + b)[0] == a[0] && (a + b)[1..] == a[1..] + b;
      SeenSum(a[1..], b);
    }
  }

  lemma SeenOne(v: View, rest: seq<View>)
    ensures Seen([v] + rest) == 1 + Seen(v.children) + Seen(rest)
    ensures Counts([v] + rest) == (if v.what.Folder? then v.what.childCount else 0) + Counts(v.children) + Counts(rest)
  {
    assert ([v] + rest)[0] == v && ([v] + rest)[1..] == rest;
  }

  // In the tree, what the root and every directory hold together is all there is.
  lemma {:induction false} TreeAddsUp(es: seq<Entry>, path: Path, parent: Id, base: string)
    ensures Seen(ViewsOf(es, path, parent, base)) == |FlatList(es, path, parent, base)|
    ensures Shown(es) + Counts(ViewsOf(es, path, parent, base)) == |FlatList(es, path, parent, base)|
    decreases Size(es)
  {
    hide ItemOf, ObjectId, SortByName, Seen, Counts, FlatEntry, DirectEntry, KindOf;
    SeenNothing();
    SeenSum(FolderViews(es, path, parent, base), VideoViews(es, path, parent, base));
    if es != [] {
      SizesBelow(es);
      var e, rest := es[0], es[1..];
      TreeAddsUp(rest, path, parent, base);
      SeenSum(FolderViews(rest, path, parent, base), VideoViews(rest, path, parent, base));
      FlatEntryIs(e, path, parent, base);
      DirectOne(e, path, parent, base);
      if e.Dir? {
        var id := IdOf(e, path);
        TreeAddsUp(Listing(e), path + [e.name], id, base);
        SeenOne(View(Folder(id, parent, e.name, Shown(Listing(e))), ViewsOf(Listing(e), path + [e.name], id, base)),
                FolderViews(rest, path, parent, base));
        assert [] + VideoViews(rest, path, parent, base) == VideoViews(rest, path, parent, base);
      } else if Media(e) {
        SeenOne(View(VideoOf(ItemOf(e, path, parent, base)), []), VideoViews(rest, path, parent, base));
      } else {
        assert [] + VideoViews(rest, path, parent, base) == VideoViews(rest, path, parent, base);
      }
    }
  }

  lemma SeenNothing()
    ensures Seen([]) == 0 && Counts([]) == 0
  {
  }

  lemma DirectOne(e: Entry, path: Path, parent: Id, base: string)
    ensures |DirectEntry(e, path, parent, base)| == if e.Dir? || Media(e) then 1 else 0
  {
    hide ItemOf, ObjectId;
  }

  lemma RootCount(root: seq<Entry>, base: string)
    requires |Flat(root, [], ROOT, base)| < 0x1_0000_0000
    ensures ChildCount(ScannedCatalog(root, base), ROOT) == Shown(SortByName(root))
  {
    hide Filter, FlatList, Direct, SortByName, Containers, Items, ChildCount, Owner, Shown;
    var es := SortByName(root);
    CountOf(Flat(root, [], ROOT, base), ROOT);
    RootOwnsNothing(es, []);
    FilterDirect(es, [], ROOT, base);
    ShownIsDirect(es, [], ROOT, base);
  }

  /**
   * Counts add up. The number of children the catalog gives for the root, and those shown on every folder a
   * client opens, make up all its objects; and the client sees that many.
   */
  lemma CountsAddUp(root: seq<Entry>, base: string, depth: nat)
    requires Distinct(root) && |Flat(root, [], ROOT, base)| < 0x1_0000_0000
    requires depth >= Height(SortByName(root))
    ensures var cat := ScannedCatalog(root, base);
            && ChildCount(cat, ROOT) + Counts(Explore(cat, ROOT, depth)) == |cat.containers| + |cat.items|
            && Seen(Explore(cat, ROOT, depth)) == |cat.containers| + |cat.items|
  {
    hide Distinct, Explore, ViewsOf, Seen, Counts, FlatList, Containers, Items, ChildCount, Shown, SortByName, Height;
    BrowsingRecoversTree(root, base, depth);
    RootCount(root, base);
    TreeAddsUp(SortByName(root), [], ROOT, base);
    ListLengths(Flat(root, [], ROOT, base));
  }
}
