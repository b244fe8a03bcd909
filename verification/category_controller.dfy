/** `CategoryController`: the category list with each category's sections,
    the detail view with its counts, and the create, update and delete
    endpoints with their guards. */
module CategoryEndpoints {
  import opened Base
  import opened Text
  import opened Entities
  import opened Repository
  import opened ApiResponses
  import opened Sorting
  import opened Catalogue

  /** The key of `OrderBy(c => c.Name)`. */
  function NameKey(e: Entity<Category>): seq<int> {
    Codes(e.data.name)
  }

  /** The name the uniqueness guard compares. */
  function CategoryName(c: Category): string {
    c.name
  }

  /** The sections of category `id` in ascending `Order`. */
  function OrderedSections(sections: Table<Section>, id: Id): (r: Table<Section>)
    ensures |r| == |SectionsOf(sections, id)|
    ensures forall x :: x in r <==> x in sections && x.data.categoryId == id
    ensures forall i, j :: 0 <= i < j < |r| ==> r[i].data.order <= r[j].data.order
  {
    var r := SortBy(SectionsOf(sections, id), OrderKey);
    forall x ensures x in r <==> x in SectionsOf(sections, id) {
      SortByMembers(SectionsOf(sections, id), OrderKey, x);
    }
    assert forall i, j :: 0 <= i < j < |r| ==> LexLe(OrderKey(r[i]), OrderKey(r[j]));
    r
  }

  // ---------------------------------------------------------------------
  // List

  /** A `SectionDto` inside a `CategoryDto`: identifier and title. */
  datatype SectionSummary = SectionSummary(id: Id, title: string)

  /** A `CategoryDto`: the row and its sections. */
  datatype CategorySummary = CategorySummary(entry: Entity<Category>, sections: seq<SectionSummary>)

  function Summarize(sections: Table<Section>, c: Entity<Category>): (r: CategorySummary)
    ensures r.entry == c && |r.sections| == |SectionsOf(sections, c.id)|
    ensures forall k :: 0 <= k < |r.sections| ==>
      exists x :: x in sections && x.data.categoryId == c.id && r.sections[k] == SectionSummary(x.id, x.data.title)
  {
    var ordered := OrderedSections(sections, c.id);
    var r := CategorySummary(c, seq(|ordered|, k requires 0 <= k < |ordered| => SectionSummary(ordered[k].id, ordered[k].data.title)));
    assert forall k :: 0 <= k < |r.sections| ==> ordered[k] in sections && r.sections[k] == SectionSummary(ordered[k].id, ordered[k].data.title);
    r
  }

  /** The `CategoryDto`s of the categories `sorted`, position by position. */
  function Summaries(sections: Table<Section>, sorted: Table<Category>): (r: seq<CategorySummary>)
    ensures |r| == |sorted|
    ensures forall i :: 0 <= i < |r| ==> r[i] == Summarize(sections, sorted[i])
    ensures forall c :: c in sorted ==> exists i :: 0 <= i < |r| && r[i].entry == c
  {
    var r := seq(|sorted|, i requires 0 <= i < |sorted| => Summarize(sections, sorted[i]));
    forall c | c in sorted ensures exists i :: 0 <= i < |r| && r[i].entry == c {
      var i :| 0 <= i < |sorted| && sorted[i] == c;
      assert r[i].entry == c;
    }
    r
  }

  /** `GetCategories`: every category once, ordered by name, each with its
      sections ordered by `Order`. */
  function GetCategories(db: Db): (r: Reply<seq<CategorySummary>>)
    ensures r.status == Ok && r.body.success && r.body.data.Some?
    ensures |r.body.data.value| == |db.categories|
    ensures forall i :: 0 <= i < |r.body.data.value| ==>
      r.body.data.value[i].entry in db.categories
      && r.body.data.value[i] == Summarize(db.sections, r.body.data.value[i].entry)
    ensures forall c :: c in db.categories ==> exists i :: 0 <= i < |r.body.data.value| && r.body.data.value[i].entry == c
    ensures forall i, j :: 0 <= i < j < |r.body.data.value| ==>
      LexLe(NameKey(r.body.data.value[i].entry), NameKey(r.body.data.value[j].entry))
  {
    var sorted := SortBy(db.categories, NameKey);
    var items := Summaries(db.sections, sorted);
    forall c ensures c in db.categories <==> c in sorted {
      SortByMembers(db.categories, NameKey, c);
    }
    Reply(Ok, SuccessResult(items))
  }

  // ---------------------------------------------------------------------
  // Detail

  /** A `DetailedCategoryDto`. */
  datatype CategoryDetail = CategoryDetail(entry: Entity<Category>, sectionCount: nat, totalContentCount: nat, sections: seq<SectionDetail>)

  /** `category.Sections.Sum(s => s.Contents.Count)`. */
  function TotalContentCount(sections: Table<Section>, contents: Table<Content>): nat {
    if |sections| == 0 then 0 else ContentCount(contents, sections[0].id) + TotalContentCount(sections[1..], contents)
  }

  /** The `DetailedSectionDto` of a section of category `c`. */
  function Detail(contents: Table<Content>, c: Entity<Category>, s: Entity<Section>): (r: SectionDetail)
    ensures r.entry == s && r.categoryName == c.data.name
    ensures r.contentCount == 0 <==> forall i :: 0 <= i < |contents| ==> contents[i].data.sectionId != Some(s.id)
  {
    SectionDetail(s, c.data.name, ContentCount(contents, s.id))
  }

  /** The `DetailedSectionDto`s of the sections `ordered`, position by position. */
  function Details(contents: Table<Content>, c: Entity<Category>, ordered: Table<Section>): (r: seq<SectionDetail>)
    ensures |r| == |ordered|
    ensures forall k :: 0 <= k < |r| ==> r[k] == Detail(contents, c, ordered[k])
    ensures forall x :: x in ordered ==> exists k :: 0 <= k < |r| && r[k].entry == x
  {
    var r := seq(|ordered|, k requires 0 <= k < |ordered| => Detail(contents, c, ordered[k]));
    forall x | x in ordered ensures exists k :: 0 <= k < |r| && r[k].entry == x {
      var k :| 0 <= k < |ordered| && ordered[k] == x;
      assert r[k].entry == x;
    }
    r
  }

  /** The detail view of a stored category. */
  function Describe(db: Db, c: Entity<Category>): (r: CategoryDetail)
    ensures r.entry == c
    ensures r.sectionCount == |SectionsOf(db.sections, c.id)| == |r.sections|
    ensures r.totalContentCount == TotalContentCount(SectionsOf(db.sections, c.id), db.contents)
    ensures forall k :: 0 <= k < |r.sections| ==>
      r.sections[k].entry in db.sections && r.sections[k].entry.data.categoryId == c.id
      && r.sections[k] == Detail(db.contents, c, r.sections[k].entry)
    ensures forall x :: x in db.sections && x.data.categoryId == c.id ==>
      exists k :: 0 <= k < |r.sections| && r.sections[k].entry == x
    ensures forall k, l :: 0 <= k < l < |r.sections| ==> r.sections[k].entry.data.order <= r.sections[l].entry.data.order
  {
    var mine := SectionsOf(db.sections, c.id);
    var ordered := OrderedSections(db.sections, c.id);
    var details := Details(db.contents, c, ordered);
    CategoryDetail(c, |mine|, TotalContentCount(mine, db.contents), details)
  }

  /** `GetCategory(id)`: NotFound for an unknown identifier, otherwise the
      category with its sections and content counts. */
  function GetCategory(db: Db, id: Id): (r: Reply<CategoryDetail>)
    requires Valid(db)
    ensures id !in Ids(db.categories) ==> r == NotFoundReply("Category")
    ensures id in Ids(db.categories) ==>
      && r.status == Ok && r.body.success
      && r.body.data == Some(Describe(db, FindById(db.categories, id).value))
  {
    match FindById(db.categories, id)
    case None => NotFoundReply("Category")
    case Some(c) => Reply(Ok, SuccessResult(Describe(db, c)))
  }

  /** Content row `x` sits in some section of category `id`. */
  function InCategoryContent(sections: Table<Section>, id: Id): Entity<Content> -> bool {
    (x: Entity<Content>) => x.data.sectionId.Some?
      && exists k :: 0 <= k < |sections| && sections[k].id == x.data.sectionId.value && sections[k].data.categoryId == id
  }

  /** Content row `x` sits in one of the sections `sections`. */
  function InAnyOf(sections: Table<Section>): Entity<Content> -> bool {
    (x: Entity<Content>) => x.data.sectionId.Some?
      && exists k :: 0 <= k < |sections| && sections[k].id == x.data.sectionId.value
  }

  /** Summing the per-section counts counts every content of those sections
      once: the sections have distinct identifiers, so no content is in two
      of them. */
  lemma {:induction false} TotalCountsContentsOnce(sections: Table<Section>, contents: Table<Content>)
    requires UniqueIds(sections)
    ensures TotalContentCount(sections, contents) == Count(contents, InAnyOf(sections))
  {
    if |sections| > 0 {
      var rest := sections[1..];
      TotalCountsContentsOnce(rest, contents);
      forall i | 0 <= i < |contents|
        ensures InAnyOf(sections)(contents[i]) == (InSection(sections[0].id)(contents[i]) || InAnyOf(rest)(contents[i]))
        ensures !(InSection(sections[0].id)(contents[i]) && InAnyOf(rest)(contents[i]))
      {
        var x := contents[i];
        if InAnyOf(sections)(x) {
          var k :| 0 <= k < |sections| && sections[k].id == x.data.sectionId.value;
          if k > 0 {
            assert rest[k - 1] == sections[k];
          }
        }
        if InAnyOf(rest)(x) {
          var k :| 0 <= k < |rest| && rest[k].id == x.data.sectionId.value;
          assert sections[k + 1] == rest[k];
        }
      }
      CountSplit(contents, InSection(sections[0].id), InAnyOf(rest), InAnyOf(sections));
    }
  }

  /** A content sits in one of the category's sections exactly when it sits
      in a section of the category. */
  lemma InSectionsOfCategory(sections: Table<Section>, id: Id, x: Entity<Content>)
    ensures InAnyOf(SectionsOf(sections, id))(x) == InCategoryContent(sections, id)(x)
  {
    var mine := SectionsOf(sections, id);
    if InAnyOf(mine)(x) {
      var k :| 0 <= k < |mine| && mine[k].id == x.data.sectionId.value;
      var j :| 0 <= j < |sections| && sections[j] == mine[k];
    }
    if InCategoryContent(sections, id)(x) {
      var j :| 0 <= j < |sections| && sections[j].id == x.data.sectionId.value && sections[j].data.categoryId == id;
      var k :| 0 <= k < |mine| && mine[k] == sections[j];
    }
  }

  /** The detail view's `TotalContentCount` is the number of contents that
      sit in a section of the category. */
  lemma TotalContentCountIsCategoryContents(db: Db, id: Id)
    requires Valid(db) && id in Ids(db.categories)
    ensures GetCategory(db, id).body.data.value.totalContentCount == Count(db.contents, InCategoryContent(db.sections, id))
  {
    var mine := SectionsOf(db.sections, id);
    assert GetCategory(db, id).body.data.value.totalContentCount == TotalContentCount(mine, db.contents);
    TotalCountsContentsOnce(mine, db.contents);
    forall i | 0 <= i < |db.contents|
      ensures InAnyOf(mine)(db.contents[i]) == InCategoryContent(db.sections, id)(db.contents[i])
    {
      InSectionsOfCategory(db.sections, id, db.contents[i]);
    }
    CountSame(db.contents, InAnyOf(mine), InCategoryContent(db.sections, id));
  }

  // ---------------------------------------------------------------------
  // Create, update, delete

  /** Every section belongs to a stored category. */
  ghost predicate SectionsLinked(db: Db) {
    forall i :: 0 <= i < |db.sections| ==> db.sections[i].data.categoryId in Ids(db.categories)
  }

  /** `CreateCategory`: the name must be non-blank and not taken ignoring
      case. The reply describes the new category with no sections. */
  function CreateCategory(db: Db, input: Category, fold: string -> string, newId: Id, s: Stamp)
    : (r: (Reply<CategoryDetail>, Db))
    requires Valid(db) && newId !in Ids(db.categories)
    ensures Valid(r.1)
    ensures r.0.status == Created <==> !IsBlank(input.name) && !NameTaken(db.categories, CategoryName, fold, input.name, None)
    ensures r.0.status != Created ==> r.0.status == BadRequest && !r.0.body.success && r.1 == db
    ensures IsBlank(input.name) ==>
      r.0.body.errors == Some(["Category name is required"]) && r.0.body.message == "Invalid category data"
    ensures !IsBlank(input.name) && NameTaken(db.categories, CategoryName, fold, input.name, None) ==>
      r.0.body.errors == Some(["Category name already exists"]) && r.0.body.message == "Category name must be unique"
    ensures r.0.status == Created ==>
      var row := StampCreated(Entity(newId, input, Unstamped), CategoryKind, s);
      && r.0.body.success && r.0.body.message == "Category created successfully"
      && r.0.body.data == Some(CategoryDetail(row, 0, 0, []))
      && r.1 == db.(categories := db.categories + [row])
    ensures NamesDistinct(db.categories, CategoryName, fold) ==> NamesDistinct(r.1.categories, CategoryName, fold)
  {
    if IsBlank(input.name) then
      (Reply(BadRequest, Fail("Category name is required", "Invalid category data")), db)
    else if NameTaken(db.categories, CategoryName, fold, input.name, None) then
      (Reply(BadRequest, Fail("Category name already exists", "Category name must be unique")), db)
    else
      var row := Entity(newId, input, Unstamped);
      var table := Create(db.categories, row, CategoryKind, s);
      assert NamesDistinct(db.categories, CategoryName, fold) ==> NamesDistinct(table, CategoryName, fold) by {
        if NamesDistinct(db.categories, CategoryName, fold) {
          CreateKeepsNamesDistinct(db.categories, row, CategoryKind, s, CategoryName, fold);
        }
      }
      (Reply(Created, SuccessResult(CategoryDetail(table[|db.categories|], 0, 0, []), "Category created successfully")),
       db.(categories := table))
  }

  /** A category no section points at has no sections. */
  lemma NoSectionsOfFresh(db: Db, id: Id)
    requires SectionsLinked(db) && id !in Ids(db.categories)
    ensures SectionsOf(db.sections, id) == []
  {
    FilterNone(db.sections, InCategory(id));
  }

  /** Reading a category back right after creating it gives exactly what
      the create reply described. */
  lemma CreateThenGet(db: Db, input: Category, fold: string -> string, newId: Id, s: Stamp)
    requires Valid(db) && newId !in Ids(db.categories) && SectionsLinked(db)
    requires CreateCategory(db, input, fold, newId, s).0.status == Created
    ensures var r := CreateCategory(db, input, fold, newId, s);
      GetCategory(r.1, newId).body.data == r.0.body.data
  {
    var r := CreateCategory(db, input, fold, newId, s);
    var row := StampCreated(Entity(newId, input, Unstamped), CategoryKind, s);
    CreateThenFind(db.categories, Entity(newId, input, Unstamped), CategoryKind, s);
    assert r.1.categories == Create(db.categories, Entity(newId, input, Unstamped), CategoryKind, s);
    assert FindById(r.1.categories, newId) == Some(row);
    NoSectionsOfFresh(db, newId);
    assert r.1.sections == db.sections;
    assert OrderedSections(r.1.sections, newId) == [];
    assert Describe(r.1, row) == CategoryDetail(row, 0, 0, []);
  }

  /** `UpdateCategory`: the route and body identifiers must agree and the
      category must exist; only when the name changes (ignoring case) is it
      checked against the other categories, and a blank name is not
      rejected. Name, description and icon are overwritten. The category is
      read without its sections and nothing loads them afterwards, so the
      reply always reports no sections and no contents. */
  function UpdateCategory(db: Db, id: Id, bodyId: Id, input: Category, fold: string -> string, s: Stamp)
    : (r: (Reply<CategoryDetail>, Db))
    requires Valid(db)
    ensures Valid(r.1)
    ensures id != bodyId ==> r.0 == IdMismatchReply() && r.1 == db
    ensures id == bodyId && id !in Ids(db.categories) ==> r.0 == NotFoundReply("Category") && r.1 == db
    ensures r.0.status == Ok <==>
      id == bodyId && id in Ids(db.categories)
      && (SameIgnoringCase(fold, FindById(db.categories, id).value.data.name, input.name)
          || !NameTaken(db.categories, CategoryName, fold, input.name, Some(id)))
    ensures r.0.status != Ok ==> !r.0.body.success && r.1 == db
    ensures r.0.status == Ok ==>
      var updated := StampModified(FindById(db.categories, id).value.(data := input), CategoryKind, s);
      && r.0.body.success && r.0.body.message == "Category updated successfully"
      && r.0.body.data == Some(CategoryDetail(updated, 0, 0, []))
      && FindById(r.1.categories, id) == Some(updated)
      && r.1 == db.(categories := r.1.categories)
      && forall x :: x in db.categories && x.id != id ==> x in r.1.categories
    ensures NamesDistinct(db.categories, CategoryName, fold) ==> NamesDistinct(r.1.categories, CategoryName, fold)
  {
    if id != bodyId then (IdMismatchReply(), db)
    else match FindById(db.categories, id)
      case None => (NotFoundReply("Category"), db)
      case Some(current) =>
        if !SameIgnoringCase(fold, current.data.name, input.name)
           && NameTaken(db.categories, CategoryName, fold, input.name, Some(id))
        then (Reply(BadRequest, Fail("Category name already exists", "Category name must be unique")), db)
        else
          var edited := current.(data := input);
          var table := Update(db.categories, edited, CategoryKind, s);
          UpdateThenFind(db.categories, edited, CategoryKind, s);
          assert NamesDistinct(db.categories, CategoryName, fold) ==> NamesDistinct(table, CategoryName, fold) by {
            if NamesDistinct(db.categories, CategoryName, fold) {
              UpdateKeepsNamesDistinct(db.categories, edited, CategoryKind, s, CategoryName, fold);
            }
          }
          (Reply(Ok, SuccessResult(CategoryDetail(StampModified(edited, CategoryKind, s), 0, 0, []),
                                   "Category updated successfully")),
           db.(categories := table))
  }

  /** The update reply disagrees with the detail view whenever the category
      has a section: the reply says none. */
  lemma UpdateReportsNoSections(db: Db, id: Id, input: Category, fold: string -> string, s: Stamp)
    requires Valid(db)
    requires UpdateCategory(db, id, id, input, fold, s).0.status == Ok
    requires exists i :: 0 <= i < |db.sections| && db.sections[i].data.categoryId == id
    ensures var r := UpdateCategory(db, id, id, input, fold, s);
      r.0.body.data.value.sectionCount == 0 && GetCategory(r.1, id).body.data.value.sectionCount > 0
  {
    var r := UpdateCategory(db, id, id, input, fold, s);
    UpdateKeepsSections(db, id, input, fold, s);
    var i :| 0 <= i < |db.sections| && db.sections[i].data.categoryId == id;
    HasSection(db.sections, id, i);
    DetailCountsSections(r.1, id);
  }

  /** A successful update leaves the sections and keeps the category. */
  lemma UpdateKeepsSections(db: Db, id: Id, input: Category, fold: string -> string, s: Stamp)
    requires Valid(db)
    requires UpdateCategory(db, id, id, input, fold, s).0.status == Ok
    ensures var r := UpdateCategory(db, id, id, input, fold, s);
      Valid(r.1) && r.1.sections == db.sections && FindById(r.1.categories, id).Some?
      && r.0.body.data.Some? && r.0.body.data.value.sectionCount == 0
  {
  }

  /** A category with a section has a nonempty section list. */
  lemma HasSection(sections: Table<Section>, id: Id, i: nat)
    requires i < |sections| && sections[i].data.categoryId == id
    ensures |SectionsOf(sections, id)| > 0
  {
    assert sections[i] in SectionsOf(sections, id);
  }

  /** The detail view of a stored category counts its sections. */
  lemma DetailCountsSections(db: Db, id: Id)
    requires Valid(db) && FindById(db.categories, id).Some?
    ensures GetCategory(db, id).body.data.Some?
    ensures GetCategory(db, id).body.data.value.sectionCount == |SectionsOf(db.sections, id)|
  {
  }

  /** `DeleteCategory`: an unknown identifier is NotFound, a category that
      still has sections is refused, any other category is removed. */
  function DeleteCategory(db: Db, id: Id): (r: (Reply<()>, Db))
    requires Valid(db)
    ensures Valid(r.1)
    ensures id !in Ids(db.categories) ==> r.0 == NotFoundReply("Category") && r.1 == db
    ensures id in Ids(db.categories) && |SectionsOf(db.sections, id)| > 0 ==>
      && r.0.status == BadRequest && !r.0.body.success && r.1 == db
      && r.0.body.errors == Some(["Cannot delete category that contains sections"])
      && r.0.body.message == "Category is not empty"
    ensures r.0.status == Ok <==> id in Ids(db.categories) && |SectionsOf(db.sections, id)| == 0
    ensures r.0.status == Ok ==>
      && r.0.body.success && r.0.body.message == "Category deleted successfully"
      && Ids(r.1.categories) == Ids(db.categories) - {id}
      && r.1 == db.(categories := r.1.categories)
      && forall x :: x in db.categories && x.id != id ==> x in r.1.categories
  {
    match FindById(db.categories, id)
    case None => (NotFoundReply("Category"), db)
    case Some(current) =>
      if |SectionsOf(db.sections, id)| != 0 then
        (Reply(BadRequest, Fail("Cannot delete category that contains sections", "Category is not empty")), db)
      else
        (Reply(Ok, SuccessResult((), "Category deleted successfully")),
         db.(categories := Delete(db.categories, current, CategoryKind, Stamp(0, ""))))
  }

  /** The guard keeps every section attached to a stored category. */
  lemma DeleteKeepsSectionsLinked(db: Db, id: Id)
    requires Valid(db) && SectionsLinked(db)
    ensures SectionsLinked(DeleteCategory(db, id).1)
  {
    var r := DeleteCategory(db, id);
    if r.0.status == Ok {
      forall i | 0 <= i < |db.sections| ensures db.sections[i].data.categoryId in Ids(r.1.categories) {
        if db.sections[i].data.categoryId == id {
          assert false;
        }
        var j :| 0 <= j < |db.categories| && db.categories[j].id == db.sections[i].data.categoryId;
        assert db.categories[j] in r.1.categories;
      }
    }
  }
}
