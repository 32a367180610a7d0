/** The flat media catalog and the Browse action over it. */
module Catalog {
  import opened Wrappers

  type Id = string

  const ROOT: Id := "0"

  datatype Container = Container(id: Id, parentId: Id, title: string)

  datatype Item = Item(
    id: Id, parentId: Id, title: string, url: string, mime: string, size: nat, duration: Option<string>)

  datatype Catalog = Catalog(containers: seq<Container>, items: seq<Item>)

  // ---------- filters and lookups ----------

  function ChildContainers(cs: seq<Container>, parent: Id): seq<Container> {
    if cs == [] then []
    else (if cs[0].parentId == parent then [cs[0]] else []) + ChildContainers(cs[1..], parent)
  }

  function ChildItems(items: seq<Item>, parent: Id): seq<Item> {
    if items == [] then []
    else (if items[0].parentId == parent then [items[0]] else []) + ChildItems(items[1..], parent)
  }

  // Counted in 32 bits.
  function ChildCount(cat: Catalog, parent: Id): nat {
    (|ChildContainers(cat.containers, parent)| + |ChildItems(cat.items, parent)|) % 0x1_0000_0000
  }

  function FindContainer(cs: seq<Container>, id: Id): (r: Option<Container>)
    ensures r.Some? <==> exists c <- cs :: c.id == id
    ensures r.Some? ==> r.value in cs && r.value.id == id
  {
    if cs == [] then None
    else if cs[0].id == id then Some(cs[0])
    else FindContainer(cs[1..], id)
  }

  function FindItem(items: seq<Item>, id: Id): (r: Option<Item>)
    ensures r.Some? <==> exists i <- items :: i.id == id
    ensures r.Some? ==> r.value in items && r.value.id == id
  {
    if items == [] then None
    else if items[0].id == id then Some(items[0])
    else FindItem(items[1..], id)
  }

  // ---------- Browse ----------

  datatype Object =
    | Folder(id: Id, parentId: Id, title: string, childCount: nat)
    | Video(id: Id, parentId: Id, title: string, url: string, mime: string, size: nat, duration: Option<string>)

  datatype BrowseFlag = Metadata | DirectChildren

  datatype BrowseError = NoSuchObject

  // The objects of an answer, and the two counts it carries.
  datatype Answer = Answer(objects: seq<Object>, returned: nat, total: nat)

  function FolderObject(cat: Catalog, c: Container): Object {
    Folder(c.id, c.parentId, c.title, ChildCount(cat, c.id))
  }

  function VideoObject(i: Item): Object {
    Video(i.id, i.parentId, i.title, i.url, i.mime, i.size, i.duration)
  }

  function FolderObjects(cat: Catalog, cs: seq<Container>): seq<Object> {
    seq(|cs|, k requires 0 <= k < |cs| => FolderObject(cat, cs[k]))
  }

  function VideoObjects(items: seq<Item>): seq<Object> {
    seq(|items|, k requires 0 <= k < |items| => VideoObject(items[k]))
  }

  // Folders first, then videos.
  function Children(cat: Catalog, parent: Id): seq<Object> {
    FolderObjects(cat, ChildContainers(cat.containers, parent)) + VideoObjects(ChildItems(cat.items, parent))
  }

  function RootObject(cat: Catalog): Object {
    Folder(ROOT, "-1", "Media", ChildCount(cat, ROOT))
  }

  function Browse(cat: Catalog, id: Id, flag: BrowseFlag): Result<Answer, BrowseError> {
    var container := FindContainer(cat.containers, id);
    var item := FindItem(cat.items, id);
    var count := ChildCount(cat, id);
    if id == ROOT && flag == Metadata then Ok(Answer([RootObject(cat)], 1, 1))
    else if id == ROOT then Ok(Answer(Children(cat, ROOT), count, count))
    else if flag == Metadata then
      if container.Some? then Ok(Answer([FolderObject(cat, container.value)], 1, 1))
      else if item.Some? then Ok(Answer([VideoObject(item.value)], 1, 1))
      else Err(NoSuchObject)
    else if container.Some? then Ok(Answer(Children(cat, id), count, count))
    else if item.Some? then Ok(Answer([], 0, 0))
    else Err(NoSuchObject)
  }

  lemma {:induction false} Fewer(cs: seq<Container>, items: seq<Item>, parent: Id)
    ensures |ChildContainers(cs, parent)| <= |cs| && |ChildItems(items, parent)| <= |items|
    decreases |cs| + |items|
  {
    if cs != [] {
      Fewer(cs[1..], [], parent);
    }
    if items != [] {
      Fewer([], items[1..], parent);
    }
  }

  /** Every answer carries as many objects as it says; it fails exactly for identifiers the catalog does not know. */
  lemma AnswersAreCounted(cat: Catalog, id: Id, flag: BrowseFlag)
    requires |cat.containers| + |cat.items| < 0x1_0000_0000
    ensures Browse(cat, id, flag).Ok? ==> var a := Browse(cat, id, flag).value; |a.objects| == a.returned == a.total
    ensures Browse(cat, id, flag).Err? <==>
      id != ROOT && (forall c <- cat.containers :: c.id != id) && (forall i <- cat.items :: i.id != id)
  {
    hide ChildContainers, ChildItems, FindContainer, FindItem;
    Fewer(cat.containers, cat.items, id);
  }
}
