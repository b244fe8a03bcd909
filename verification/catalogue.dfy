/** What the six catalogue controllers share: the tables they read and
    write, the case-insensitive uniqueness lookup they run before writing a
    name, and the replies they build for the common failures. */
module Catalogue {
  import opened Base
  import opened Text
  import opened Entities
  import opened Repository
  import opened ApiResponses
  import opened Sorting

  /** The tables the catalogue endpoints touch. */
  datatype Db = Db(
    categories: Table<Category>,
    sections: Table<Section>,
    contents: Table<Content>,
    vocabularies: Table<Vocabulary>,
    examples: Table<VocabularyExample>,
    roles: Table<Role>,
    userRoles: seq<UserRole>)

  /** Every table has a primary key. */
  predicate Valid(db: Db) {
    && UniqueIds(db.categories)
    && UniqueIds(db.sections)
    && UniqueIds(db.contents)
    && UniqueIds(db.vocabularies)
    && UniqueIds(db.examples)
    && UniqueIds(db.roles)
  }

  /** Content row `x` belongs to section `id`. */
  function InSection(id: Id): Entity<Content> -> bool {
    (x: Entity<Content>) => x.data.sectionId == Some(id)
  }

  /** Section row `x` belongs to category `id`. */
  function InCategory(id: Id): Entity<Section> -> bool {
    (x: Entity<Section>) => x.data.categoryId == id
  }

  /** `category.Sections` once loaded: the sections of category `id`. */
  function SectionsOf(sections: Table<Section>, id: Id): (r: Table<Section>)
    ensures UniqueIds(sections) ==> UniqueIds(r)
    ensures forall x :: x in r <==> x in sections && x.data.categoryId == id
  {
    assert UniqueIds(sections) ==> UniqueIds(Filter(sections, InCategory(id))) by {
      if UniqueIds(sections) {
        FilterKeepsUnique(sections, InCategory(id));
      }
    }
    Filter(sections, InCategory(id))
  }

  /** `s.Contents.Count` once loaded. */
  function ContentCount(contents: Table<Content>, id: Id): (n: nat)
    ensures n <= |contents|
    ensures n == 0 <==> forall i :: 0 <= i < |contents| ==> contents[i].data.sectionId != Some(id)
  {
    Count(contents, InSection(id))
  }

  /** The key of `OrderBy(s => s.Order)`. */
  function OrderKey(e: Entity<Section>): seq<int> {
    [e.data.order]
  }

  /** A `DetailedSectionDto`: the row, its category's name and its number
      of contents. */
  datatype SectionDetail = SectionDetail(entry: Entity<Section>, categoryName: string, contentCount: nat)

  /** `s.Category?.Name ?? string.Empty`. */
  function CategoryNameOf(categories: Table<Category>, id: Id): (r: string)
    requires UniqueIds(categories)
    ensures id in Ids(categories) ==> r == FindById(categories, id).value.data.name
    ensures id !in Ids(categories) ==> r == ""
  {
    match FindById(categories, id)
    case Some(c) => c.data.name
    case None => ""
  }

  /** Every content row with a section points at a stored section. */
  ghost predicate ContentsLinked(db: Db) {
    forall i :: 0 <= i < |db.contents| && db.contents[i].data.sectionId.Some? ==>
      db.contents[i].data.sectionId.value in Ids(db.sections)
  }

  /** `GetAsync(x => x.Name.Equals(candidate, CurrentCultureIgnoreCase))`,
      optionally with `&& x.Id != except`: is some other row's name equal to
      `candidate` ignoring case? */
  function NameTaken<T(==)>(t: Table<T>, name: T -> string, fold: string -> string,
                            candidate: string, except: Option<Id>): (b: bool)
    ensures b <==> exists i :: 0 <= i < |t| && SameIgnoringCase(fold, name(t[i].data), candidate)
                                            && (except.None? || t[i].id != except.value)
  {
    Find(t, (e: Entity<T>) => SameIgnoringCase(fold, name(e.data), candidate)
                              && (except.None? || e.id != except.value)).Some?
  }

  /** No two rows have names equal ignoring case: what the uniqueness
      guards are there to keep. */
  ghost predicate NamesDistinct<T>(t: Table<T>, name: T -> string, fold: string -> string) {
    forall i, j :: 0 <= i < j < |t| ==> !SameIgnoringCase(fold, name(t[i].data), name(t[j].data))
  }

  /** Names distinct ignoring case are distinct, so a table kept
      `NamesDistinct` also satisfies an exact unique index on the name. */
  lemma NamesDistinctAreExactlyDistinct<T>(t: Table<T>, name: T -> string, fold: string -> string)
    requires NamesDistinct(t, name, fold)
    ensures forall i, j :: 0 <= i < j < |t| ==> name(t[i].data) != name(t[j].data)
  {
  }

  /** A create that passed the uniqueness lookup keeps the names distinct. */
  lemma {:induction false} CreateKeepsNamesDistinct<T>(t: Table<T>, e: Entity<T>, kind: Kind, s: Stamp,
                                                      name: T -> string, fold: string -> string)
    requires UniqueIds(t) && e.id !in Ids(t) && NamesDistinct(t, name, fold)
    requires !NameTaken(t, name, fold, name(e.data), None)
    ensures NamesDistinct(Create(t, e, kind, s), name, fold)
  {
    var r := Create(t, e, kind, s);
    forall i, j | 0 <= i < j < |r| ensures !SameIgnoringCase(fold, name(r[i].data), name(r[j].data)) {
      assert r[i] == t[i];
      if j < |t| {
        assert r[j] == t[j];
      }
    }
  }

  /** An update of row `e.id` keeps the names distinct when either the
      lookup excluding the row itself found nothing, or the new name equals
      the old one ignoring case. The second case is why the guard may be
      skipped when the name does not change. */
  lemma {:induction false} UpdateKeepsNamesDistinct<T>(t: Table<T>, e: Entity<T>, kind: Kind, s: Stamp,
                                                      name: T -> string, fold: string -> string)
    requires UniqueIds(t) && e.id in Ids(t) && NamesDistinct(t, name, fold)
    requires !NameTaken(t, name, fold, name(e.data), Some(e.id))
          || SameIgnoringCase(fold, name(FindById(t, e.id).value.data), name(e.data))
    ensures NamesDistinct(Update(t, e, kind, s), name, fold)
  {
    var r := Update(t, e, kind, s);
    var k :| 0 <= k < |t| && t[k].id == e.id;
    NewNameClear(t, e, name, fold, k);
    forall i, j | 0 <= i < j < |r| ensures !SameIgnoringCase(fold, name(r[i].data), name(r[j].data)) {
      if i == k || j == k {
        assert r[k].data == e.data;
      } else {
        assert r[i] == t[i] && r[j] == t[j];
      }
    }
  }

  /** Under the update guard the new name clashes with no row other than
      the updated row `k`. */
  lemma NewNameClear<T>(t: Table<T>, e: Entity<T>, name: T -> string, fold: string -> string, k: nat)
    requires UniqueIds(t) && k < |t| && t[k].id == e.id && NamesDistinct(t, name, fold)
    requires !NameTaken(t, name, fold, name(e.data), Some(e.id))
          || SameIgnoringCase(fold, name(FindById(t, e.id).value.data), name(e.data))
    ensures forall j :: 0 <= j < |t| && j != k ==> t[j].id != e.id && !SameIgnoringCase(fold, name(t[j].data), name(e.data))
  {
    assert FindById(t, e.id).value == t[k];
    forall j | 0 <= j < |t| && j != k ensures t[j].id != e.id && !SameIgnoringCase(fold, name(t[j].data), name(e.data)) {
      if SameIgnoringCase(fold, name(t[k].data), name(e.data)) {
        if j < k {
          assert !SameIgnoringCase(fold, name(t[j].data), name(t[k].data));
        } else {
          assert !SameIgnoringCase(fold, name(t[k].data), name(t[j].data));
        }
      }
    }
  }

  /** `KeyNotFoundException(what + " not found")` reported with the same
      text, as the lookups by identifier do. */
  function NotFoundReply<T>(what: string): (r: Reply<T>)
    ensures r.status == NotFound && !r.body.success
    ensures r.body.message == what + " not found" && r.body.errors == Some([what + " not found"])
  {
    Reply(NotFound, Fail(what + " not found", what + " not found"))
  }

  /** The reply to a route identifier that differs from the body's. */
  function IdMismatchReply<T>(): (r: Reply<T>)
    ensures r.status == BadRequest && !r.body.success
    ensures r.body.message == "Invalid request" && r.body.errors == Some(["ID mismatch"])
  {
    Reply(BadRequest, Fail("ID mismatch", "Invalid request"))
  }

  /** The `catch` block: the exception the database raised, flattened, with
      the endpoint's message. */
  function FailedReply<T>(ex: Exception, message: string): (r: Reply<T>)
    ensures r.status == BadRequest && !r.body.success && r.body.message == message
    ensures r.body.errors.Some? && |r.body.errors.value| >= 1 && r.body.errors.value[0] == ex.message
  {
    var r: ApiResponse<T> := ErrorResult(Some(ex), message);
    assert Nth(Some(ex), 0) == Some(ex);
    Reply(BadRequest, r)
  }
}
