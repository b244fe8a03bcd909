/** `ContentController`: the content list, the content of one section with
    its neighbouring sections, and the create, update and delete endpoints
    with their guards. */
module ContentEndpoints {
  import opened Base
  import opened Text
  import opened Entities
  import opened Repository
  import opened ApiResponses
  import opened Sorting
  import opened Catalogue

  /** A `DetailedContentDto`: the row, and its section's title and that
      section's category's name when they are loaded. */
  datatype ContentDetail = ContentDetail(entry: Entity<Content>, sectionTitle: Option<string>, categoryName: Option<string>)

  /** A `ContentDto`: what the reader of a section sees of one content. */
  datatype ContentItem = ContentItem(id: Id, text: string, markdown: Option<string>, html: Option<string>)

  /** A `SectionContentDto`: a section's contents in reading order and the
      links to the neighbouring sections of its category. */
  datatype SectionContent = SectionContent(
    contents: seq<ContentItem>,
    category: string,
    title: string,
    hasPrevious: bool,
    previousId: Option<Id>,
    previousText: Option<string>,
    hasNext: bool,
    nextId: Option<Id>,
    nextText: Option<string>)

  /** The key of `OrderBy(c => c.SectionId).ThenBy(c => c.Order)`. The
      database sorts a missing section after every present one. */
  function ListKey(e: Entity<Content>): seq<int> {
    match e.data.sectionId
    case Some(id) => [0, id, e.data.order]
    case None => [1, 0, e.data.order]
  }

  /** The key of `OrderBy(c => c.Order)`. */
  function ContentOrderKey(e: Entity<Content>): seq<int> {
    [e.data.order]
  }

  /** `c.Section` once included: the section the content points at, if
      it points at a stored one. */
  function SectionOf(db: Db, sectionId: Option<Id>): (r: Option<Entity<Section>>)
    requires Valid(db)
    ensures r.Some? <==> sectionId.Some? && sectionId.value in Ids(db.sections)
    ensures r.Some? ==> r.value.id == sectionId.value && r.value in db.sections
  {
    match sectionId
    case None => None
    case Some(id) => FindById(db.sections, id)
  }

  /** The `DetailedContentDto` of a stored content with its section and the
      section's category included. */
  function ContentView(db: Db, c: Entity<Content>): (r: ContentDetail)
    requires Valid(db)
    ensures r.entry == c
    ensures r.sectionTitle.Some? <==> SectionOf(db, c.data.sectionId).Some?
    ensures r.sectionTitle.Some? ==> r.sectionTitle.value == SectionOf(db, c.data.sectionId).value.data.title
    ensures r.categoryName.Some? <==>
      SectionOf(db, c.data.sectionId).Some? && SectionOf(db, c.data.sectionId).value.data.categoryId in Ids(db.categories)
    ensures r.categoryName.Some? ==>
      r.categoryName.value == FindById(db.categories, SectionOf(db, c.data.sectionId).value.data.categoryId).value.data.name
  {
    match SectionOf(db, c.data.sectionId)
    case None => ContentDetail(c, None, None)
    case Some(s) =>
      match FindById(db.categories, s.data.categoryId)
      case None => ContentDetail(c, Some(s.data.title), None)
      case Some(category) => ContentDetail(c, Some(s.data.title), Some(category.data.name))
  }

  /** The views of the contents `ordered`, position by position. */
  function ContentViews(db: Db, ordered: Table<Content>): (r: seq<ContentDetail>)
    requires Valid(db)
    ensures |r| == |ordered|
    ensures forall i :: 0 <= i < |r| ==> r[i] == ContentView(db, ordered[i])
    ensures forall x :: x in ordered ==> exists i :: 0 <= i < |r| && r[i].entry == x
  {
    var r := seq(|ordered|, i requires 0 <= i < |ordered| => ContentView(db, ordered[i]));
    forall x | x in ordered ensures exists i :: 0 <= i < |r| && r[i].entry == x {
      var i :| 0 <= i < |ordered| && ordered[i] == x;
      assert r[i].entry == x;
    }
    r
  }

  /** `GetContents`: every content once, ordered by section (contents
      without a section last) and then by position. */
  function GetContents(db: Db): (r: Reply<seq<ContentDetail>>)
    requires Valid(db)
    ensures r.status == Ok && r.body.success && r.body.data.Some?
    ensures |r.body.data.value| == |db.contents|
    ensures forall i :: 0 <= i < |r.body.data.value| ==>
      r.body.data.value[i].entry in db.contents && r.body.data.value[i] == ContentView(db, r.body.data.value[i].entry)
    ensures forall x :: x in db.contents ==> exists i :: 0 <= i < |r.body.data.value| && r.body.data.value[i].entry == x
    ensures forall i, j :: 0 <= i < j < |r.body.data.value| ==>
      LexLe(ListKey(r.body.data.value[i].entry), ListKey(r.body.data.value[j].entry))
  {
    var sorted := SortBy(db.contents, ListKey);
    forall x ensures x in db.contents <==> x in sorted {
      SortByMembers(db.contents, ListKey, x);
    }
    Reply(Ok, SuccessResult(ContentViews(db, sorted)))
  }

  /** In the content list the contents of a section come before those of
      any section with a greater identifier and before the contents with no
      section; within one section, and among the contents with no section, a
      lower position comes first. */
  lemma ContentsInOrder(db: Db, i: nat, j: nat)
    requires Valid(db)
    requires i < j < |GetContents(db).body.data.value|
    ensures var a := GetContents(db).body.data.value[i].entry.data;
      var b := GetContents(db).body.data.value[j].entry.data;
      match (a.sectionId, b.sectionId)
      case (Some(x), Some(y)) => x < y || (x == y && a.order <= b.order)
      case (Some(_), None) => true
      case (None, Some(_)) => false
      case (None, None) => a.order <= b.order
  {
    var a := GetContents(db).body.data.value[i].entry;
    var b := GetContents(db).body.data.value[j].entry;
    var ka := ListKey(a);
    var kb := ListKey(b);
    TripleOrder(ka[0], ka[1], ka[2], kb[0], kb[1], kb[2]);
    assert ka == [ka[0], ka[1], ka[2]] && kb == [kb[0], kb[1], kb[2]];
  }

  /** `GetContent(id)`: NotFound for an unknown identifier, otherwise the
      content's view. */
  function GetContent(db: Db, id: Id): (r: Reply<ContentDetail>)
    requires Valid(db)
    ensures id !in Ids(db.contents) ==> r == NotFoundReply("Content")
    ensures id in Ids(db.contents) ==>
      r.status == Ok && r.body.success && r.body.data == Some(ContentView(db, FindById(db.contents, id).value))
  {
    match FindById(db.contents, id)
    case None => NotFoundReply("Content")
    case Some(c) => Reply(Ok, SuccessResult(ContentView(db, c)))
  }

  /** `section.Contents.OrderBy(c => c.Order)`: every content of section
      `id` once, in ascending position. */
  function SectionContents(contents: Table<Content>, id: Id): (r: seq<Entity<Content>>)
    ensures |r| == ContentCount(contents, id)
    ensures forall x :: x in r <==> x in contents && x.data.sectionId == Some(id)
    ensures forall i, j :: 0 <= i < j < |r| ==> r[i].data.order <= r[j].data.order
  {
    var mine := Filter(contents, InSection(id));
    FilterLength(contents, InSection(id));
    var r := SortBy(mine, ContentOrderKey);
    forall x ensures x in r <==> x in contents && x.data.sectionId == Some(id) {
      SortByMembers(mine, ContentOrderKey, x);
      if x in contents && x.data.sectionId == Some(id) {
        var k :| 0 <= k < |contents| && contents[k] == x;
        assert InSection(id)(contents[k]);
      }
    }
    forall i, j | 0 <= i < j < |r| ensures r[i].data.order <= r[j].data.order {
      SingleOrder(r[i].data.order, r[j].data.order);
    }
    r
  }

  /** The `ContentDto`s of `es`, position by position. */
  function Items(es: seq<Entity<Content>>): (r: seq<ContentItem>)
    ensures |r| == |es|
    ensures forall i :: 0 <= i < |r| ==>
      r[i] == ContentItem(es[i].id, es[i].data.text, es[i].data.markdown, es[i].data.html)
  {
    seq(|es|, i requires 0 <= i < |es| => ContentItem(es[i].id, es[i].data.text, es[i].data.markdown, es[i].data.html))
  }

  /** Section `x` lies in the category of `current` and before it. */
  function Before(current: Section): Entity<Section> -> bool {
    (x: Entity<Section>) => x.data.categoryId == current.categoryId && x.data.order < current.order
  }

  /** Section `x` lies in the category of `current` and after it. */
  function After(current: Section): Entity<Section> -> bool {
    (x: Entity<Section>) => x.data.categoryId == current.categoryId && x.data.order > current.order
  }

  /** The key of `OrderByDescending(s => s.Order)`. */
  function DescendingOrderKey(e: Entity<Section>): seq<int> {
    [-e.data.order]
  }

  /** The previous-section query: of the sections of the same category
      placed before `current`, one placed last; nothing when there is none. */
  function PreviousSection(sections: Table<Section>, current: Section): (r: Option<Entity<Section>>)
    ensures r.None? <==>
      forall x :: x in sections ==> !(x.data.categoryId == current.categoryId && x.data.order < current.order)
    ensures r.Some? ==>
      r.value in sections && r.value.data.categoryId == current.categoryId && r.value.data.order < current.order
    ensures r.Some? ==>
      (forall x :: x in sections && x.data.categoryId == current.categoryId && x.data.order < current.order
         ==> x.data.order <= r.value.data.order)
  {
    var earlier := Filter(sections, Before(current));
    var r := FirstBy(earlier, DescendingOrderKey);
    forall x | x in sections && Before(current)(x) ensures x in earlier && (r.Some? ==> x.data.order <= r.value.data.order) {
      var k :| 0 <= k < |sections| && sections[k] == x;
      assert Before(current)(sections[k]);
      if r.Some? {
        SingleOrder(-r.value.data.order, -x.data.order);
      }
    }
    r
  }

  /** The next-section query: of the sections of the same category placed
      after `current`, one placed first; nothing when there is none. */
  function NextSection(sections: Table<Section>, current: Section): (r: Option<Entity<Section>>)
    ensures r.None? <==>
      forall x :: x in sections ==> !(x.data.categoryId == current.categoryId && x.data.order > current.order)
    ensures r.Some? ==>
      r.value in sections && r.value.data.categoryId == current.categoryId && r.value.data.order > current.order
    ensures r.Some? ==>
      (forall x :: x in sections && x.data.categoryId == current.categoryId && x.data.order > current.order
         ==> r.value.data.order <= x.data.order)
  {
    var later := Filter(sections, After(current));
    var r := FirstBy(later, OrderKey);
    forall x | x in sections && After(current)(x) ensures x in later && (r.Some? ==> r.value.data.order <= x.data.order) {
      var k :| 0 <= k < |sections| && sections[k] == x;
      assert After(current)(sections[k]);
      if r.Some? {
        SingleOrder(r.value.data.order, x.data.order);
      }
    }
    r
  }

  /** Positions being distinct within a category, the next section of a
      section's previous one is a section at the original position: the
      two links lead back and forth between neighbours. */
  lemma NavigationSymmetric(sections: Table<Section>, a: Entity<Section>)
    requires a in sections && PreviousSection(sections, a.data).Some?
    ensures var b := PreviousSection(sections, a.data).value;
      NextSection(sections, b.data).Some? && NextSection(sections, b.data).value.data.order == a.data.order
  {
    var b := PreviousSection(sections, a.data).value;
    assert a.data.categoryId == b.data.categoryId && a.data.order > b.data.order;
    var n := NextSection(sections, b.data);
    assert n.Some?;
    var m := n.value;
    assert m in sections && m.data.categoryId == a.data.categoryId && m.data.order <= a.data.order;
    assert !(m.data.order < a.data.order);
  }

  /** The reply for an unknown section: a bare failure, with no errors. */
  function SectionNotFound(): (r: Reply<SectionContent>)
    ensures r.status == NotFound && !r.body.success && r.body.data.None?
    ensures r.body.message == "Section not found." && r.body.errors.None?
  {
    Reply(NotFound, ApiResponse(false, None, "Section not found.", None))
  }

  /** `GetSectionContent(sectionId)`: NotFound for an unknown section;
      otherwise its contents in reading order, its title and category name,
      and a link to the previous (next) section of its category exactly when
      that section exists and has contents. An empty neighbour is not
      skipped: the link is then simply absent. */
  function GetSectionContent(db: Db, sectionId: Id): (r: Reply<SectionContent>)
    requires Valid(db)
    ensures sectionId !in Ids(db.sections) ==> r == SectionNotFound()
    ensures sectionId in Ids(db.sections) ==>
      var section := FindById(db.sections, sectionId).value;
      var prev := PreviousSection(db.sections, section.data);
      var next := NextSection(db.sections, section.data);
      && r.status == Ok && r.body.success && r.body.data.Some?
      && r.body.data.value.contents == Items(SectionContents(db.contents, sectionId))
      && r.body.data.value.title == section.data.title
      && r.body.data.value.category == CategoryNameOf(db.categories, section.data.categoryId)
      && (r.body.data.value.hasPrevious <==> prev.Some? && ContentCount(db.contents, prev.value.id) > 0)
      && (r.body.data.value.hasPrevious ==>
            r.body.data.value.previousId == Some(prev.value.id) && r.body.data.value.previousText == Some(prev.value.data.title))
      && (!r.body.data.value.hasPrevious ==> r.body.data.value.previousId.None? && r.body.data.value.previousText.None?)
      && (r.body.data.value.hasNext <==> next.Some? && ContentCount(db.contents, next.value.id) > 0)
      && (r.body.data.value.hasNext ==>
            r.body.data.value.nextId == Some(next.value.id) && r.body.data.value.nextText == Some(next.value.data.title))
      && (!r.body.data.value.hasNext ==> r.body.data.value.nextId.None? && r.body.data.value.nextText.None?)
  {
    match FindById(db.sections, sectionId)
    case None => SectionNotFound()
    case Some(section) =>
      var prev := PreviousSection(db.sections, section.data);
      var next := NextSection(db.sections, section.data);
      var hasPrevious := prev.Some? && ContentCount(db.contents, prev.value.id) > 0;
      var hasNext := next.Some? && ContentCount(db.contents, next.value.id) > 0;
      var dto := SectionContent(
        Items(SectionContents(db.contents, sectionId)),
        CategoryNameOf(db.categories, section.data.categoryId),
        section.data.title,
        hasPrevious,
        if hasPrevious then Some(prev.value.id) else None,
        if hasPrevious then Some(prev.value.data.title) else None,
        hasNext,
        if hasNext then Some(next.value.id) else None,
        if hasNext then Some(next.value.data.title) else None);
      Reply(Ok, SuccessResult(dto))
  }

  /** A section's reader shows each of its contents exactly once. */
  lemma SectionContentComplete(db: Db, sectionId: Id, c: Entity<Content>)
    requires Valid(db) && sectionId in Ids(db.sections)
    requires c in db.contents && c.data.sectionId == Some(sectionId)
    ensures ContentItem(c.id, c.data.text, c.data.markdown, c.data.html) in GetSectionContent(db, sectionId).body.data.value.contents
  {
    var es := SectionContents(db.contents, sectionId);
    var k :| 0 <= k < |es| && es[k] == c;
    assert Items(es)[k] == ContentItem(c.id, c.data.text, c.data.markdown, c.data.html);
  }

  /** The body of a create request (`CreateContentDto`). */
  datatype ContentInput = ContentInput(
    sectionId: Option<Id>, order: int, text: string, markdown: Option<string>, html: Option<string>)

  /** `CreateContent`: a blank text, and then a missing or unknown section,
      are refused. The action returns the envelope itself,
      so every reply, failures included, travels with status 200. A success
      stores the row attached to the section and describes it with the
      section's title and category. */
  function CreateContent(db: Db, input: ContentInput, newId: Id, s: Stamp)
    : (r: (Reply<ContentDetail>, Db))
    requires Valid(db) && newId !in Ids(db.contents)
    ensures Valid(r.1)
    ensures r.0.status == Ok
    ensures r.0.body.success <==>
      !IsBlank(input.text) && input.sectionId.Some? && input.sectionId.value in Ids(db.sections)
    ensures !r.0.body.success ==> r.0.body.message == "Content creation failed." && r.0.body.data.None? && r.1 == db
    ensures IsBlank(input.text) ==> r.0.body.errors == Some(["Invalid content data provided."])
    ensures !IsBlank(input.text) && !r.0.body.success ==>
      r.0.body.errors == Some(["Section not found."])
    ensures r.0.body.success ==>
      var c := input;
      var row := StampCreated(Entity(newId, Content(c.order, c.text, c.markdown, c.html, c.sectionId), Unstamped), ContentKind, s);
      && r.0.body.message == "Content created successfully."
      && r.0.body.data == Some(ContentView(r.1, row))
      && r.1 == db.(contents := db.contents + [row])
  {
    if IsBlank(input.text) then
      (Reply(Ok, Fail("Invalid content data provided.", "Content creation failed.")), db)
    else
      var c := input;
      match SectionOf(db, c.sectionId)
      case None => (Reply(Ok, Fail("Section not found.", "Content creation failed.")), db)
      case Some(section) =>
        var table := Create(db.contents, Entity(newId, Content(c.order, c.text, c.markdown, c.html, Some(section.id)), Unstamped), ContentKind, s);
        var after := db.(contents := table);
        (Reply(Ok, SuccessResult(ContentView(after, table[|db.contents|]), "Content created successfully.")), after)
  }

  /** Reading a content back right after creating it gives exactly what the
      create reply described. */
  lemma CreateThenGet(db: Db, input: ContentInput, newId: Id, s: Stamp)
    requires Valid(db) && newId !in Ids(db.contents)
    requires CreateContent(db, input, newId, s).0.body.success
    ensures var r := CreateContent(db, input, newId, s);
      GetContent(r.1, newId).body.data == r.0.body.data
  {
    var c := input;
    var e := Entity(newId, Content(c.order, c.text, c.markdown, c.html, c.sectionId), Unstamped);
    CreateThenFind(db.contents, e, ContentKind, s);
  }

  /** A create keeps every content attached to a stored section. */
  lemma CreateKeepsContentsLinked(db: Db, input: ContentInput, newId: Id, s: Stamp)
    requires Valid(db) && newId !in Ids(db.contents) && ContentsLinked(db)
    ensures ContentsLinked(CreateContent(db, input, newId, s).1)
  {
    var r := CreateContent(db, input, newId, s);
    if r.0.body.success {
      assert r.1.contents[|db.contents|].data.sectionId == input.sectionId;
      assert forall i :: 0 <= i < |db.contents| ==> r.1.contents[i] == db.contents[i];
    }
  }

  /** `UpdateContent`: the route and body identifiers must agree and the
      content must exist; the section is looked up only when it changes,
      and a missing or unknown new section is refused. Position, texts and
      section are overwritten (a blank text is not rejected), and the reply
      shows the row with its section and category. */
  function UpdateContent(db: Db, id: Id, bodyId: Id, sectionId: Option<Id>, order: int, text: string,
                         markdown: Option<string>, html: Option<string>, s: Stamp)
    : (r: (Reply<ContentDetail>, Db))
    requires Valid(db)
    ensures Valid(r.1)
    ensures id != bodyId ==> r.0 == IdMismatchReply() && r.1 == db
    ensures id == bodyId && id !in Ids(db.contents) ==> r.0 == NotFoundReply("Content") && r.1 == db
    ensures r.0.status == Ok <==>
      id == bodyId && id in Ids(db.contents)
      && (FindById(db.contents, id).value.data.sectionId == sectionId || SectionOf(db, sectionId).Some?)
    ensures id == bodyId && id in Ids(db.contents) && r.0.status != Ok ==>
      r.0.status == BadRequest && r.0.body.errors == Some(["Section not found"]) && r.0.body.message == "Invalid section"
    ensures r.0.status != Ok ==> !r.0.body.success && r.1 == db
    ensures r.0.status == Ok ==>
      var updated := StampModified(FindById(db.contents, id).value.(data := Content(order, text, markdown, html, sectionId)), ContentKind, s);
      && r.0.body.success && r.0.body.message == "Content updated successfully"
      && FindById(r.1.contents, id) == Some(updated)
      && r.0.body.data == Some(ContentView(r.1, updated))
      && r.1 == db.(contents := r.1.contents)
      && forall x :: x in db.contents && x.id != id ==> x in r.1.contents
  {
    if id != bodyId then (IdMismatchReply(), db)
    else match FindById(db.contents, id)
      case None => (NotFoundReply("Content"), db)
      case Some(current) =>
        if current.data.sectionId != sectionId && SectionOf(db, sectionId).None? then
          (Reply(BadRequest, Fail("Section not found", "Invalid section")), db)
        else
          var edited := current.(data := Content(order, text, markdown, html, sectionId));
          var table := Update(db.contents, edited, ContentKind, s);
          UpdateThenFind(db.contents, edited, ContentKind, s);
          var after := db.(contents := table);
          (Reply(Ok, SuccessResult(ContentView(after, StampModified(edited, ContentKind, s)), "Content updated successfully")), after)
  }

  /** The update reply is what reading the content back shows. */
  lemma UpdateThenGet(db: Db, id: Id, sectionId: Option<Id>, order: int, text: string,
                      markdown: Option<string>, html: Option<string>, s: Stamp)
    requires Valid(db)
    requires UpdateContent(db, id, id, sectionId, order, text, markdown, html, s).0.status == Ok
    ensures var r := UpdateContent(db, id, id, sectionId, order, text, markdown, html, s);
      GetContent(r.1, id).body.data == r.0.body.data
  {
  }

  /** A content attached to a section stays attached: clearing its section
      is refused, since the lookup of a missing section finds nothing. */
  lemma UpdateNeverDetaches(db: Db, id: Id, sectionId: Option<Id>, order: int, text: string,
                            markdown: Option<string>, html: Option<string>, s: Stamp)
    requires Valid(db) && id in Ids(db.contents) && FindById(db.contents, id).value.data.sectionId.Some?
    ensures var r := UpdateContent(db, id, id, sectionId, order, text, markdown, html, s);
      r.0.status == Ok ==> FindById(r.1.contents, id).value.data.sectionId.Some?
    ensures sectionId.None? ==>
      UpdateContent(db, id, id, sectionId, order, text, markdown, html, s).0.body.errors == Some(["Section not found"])
  {
  }

  /** An update keeps every content attached to a stored section. */
  lemma UpdateKeepsContentsLinked(db: Db, id: Id, bodyId: Id, sectionId: Option<Id>, order: int, text: string,
                                  markdown: Option<string>, html: Option<string>, s: Stamp)
    requires Valid(db) && ContentsLinked(db)
    ensures ContentsLinked(UpdateContent(db, id, bodyId, sectionId, order, text, markdown, html, s).1)
  {
    var r := UpdateContent(db, id, bodyId, sectionId, order, text, markdown, html, s);
    if r.0.status == Ok {
      var current := FindById(db.contents, id).value;
      var edited := current.(data := Content(order, text, markdown, html, sectionId));
      assert r.1.contents == Update(db.contents, edited, ContentKind, s);
      forall i | 0 <= i < |r.1.contents| && r.1.contents[i].data.sectionId.Some?
        ensures r.1.contents[i].data.sectionId.value in Ids(r.1.sections)
      {
        if db.contents[i].id == id {
          assert db.contents[i] == current;
        }
      }
    }
  }

  /** `DeleteContent`: an unknown identifier is NotFound, otherwise the row
      is removed. */
  function DeleteContent(db: Db, id: Id): (r: (Reply<()>, Db))
    requires Valid(db)
    ensures Valid(r.1)
    ensures id !in Ids(db.contents) ==> r.0 == NotFoundReply("Content") && r.1 == db
    ensures r.0.status == Ok <==> id in Ids(db.contents)
    ensures r.0.status == Ok ==>
      && r.0.body.success && r.0.body.message == "Content deleted successfully"
      && Ids(r.1.contents) == Ids(db.contents) - {id}
      && r.1 == db.(contents := r.1.contents)
      && forall x :: x in db.contents && x.id != id ==> x in r.1.contents
  {
    match FindById(db.contents, id)
    case None => (NotFoundReply("Content"), db)
    case Some(current) =>
      (Reply(Ok, SuccessResult((), "Content deleted successfully")),
       db.(contents := Delete(db.contents, current, ContentKind, Stamp(0, ""))))
  }

  /** After a delete the content can no longer be read. */
  lemma DeleteThenGet(db: Db, id: Id)
    requires Valid(db)
    ensures GetContent(DeleteContent(db, id).1, id) == NotFoundReply("Content")
  {
  }
}
