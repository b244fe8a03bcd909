/** `SectionController`: the section list ordered by category and position,
    the detail view, and the create, update and delete endpoints with their
    guards. */
module SectionEndpoints {
  import opened Base
  import opened Text
  import opened Entities
  import opened Repository
  import opened ApiResponses
  import opened Sorting
  import opened Catalogue

  /** The key of `OrderBy(s => s.CategoryId).ThenBy(s => s.Order)`. */
  function SectionKey(e: Entity<Section>): seq<int> {
    [e.data.categoryId, e.data.order]
  }

  /** The `DetailedSectionDto` of a stored section, with its category
      and its contents loaded. */
  function View(db: Db, s: Entity<Section>): (r: SectionDetail)
    requires Valid(db)
    ensures r.entry == s
    ensures r.categoryName == CategoryNameOf(db.categories, s.data.categoryId)
    ensures r.contentCount == ContentCount(db.contents, s.id)
  {
    SectionDetail(s, CategoryNameOf(db.categories, s.data.categoryId), ContentCount(db.contents, s.id))
  }

  /** The views of the sections `ordered`, position by position. */
  function Views(db: Db, ordered: Table<Section>): (r: seq<SectionDetail>)
    requires Valid(db)
    ensures |r| == |ordered|
    ensures forall i :: 0 <= i < |r| ==> r[i] == View(db, ordered[i])
    ensures forall x :: x in ordered ==> exists i :: 0 <= i < |r| && r[i].entry == x
  {
    var r := seq(|ordered|, i requires 0 <= i < |ordered| => View(db, ordered[i]));
    forall x | x in ordered ensures exists i :: 0 <= i < |r| && r[i].entry == x {
      var i :| 0 <= i < |ordered| && ordered[i] == x;
      assert r[i].entry == x;
    }
    r
  }

  /** `GetSections`: every section once, ordered by category and then by
      position. */
  function GetSections(db: Db): (r: Reply<seq<SectionDetail>>)
    requires Valid(db)
    ensures r.status == Ok && r.body.success && r.body.data.Some?
    ensures |r.body.data.value| == |db.sections|
    ensures forall i :: 0 <= i < |r.body.data.value| ==>
      r.body.data.value[i].entry in db.sections && r.body.data.value[i] == View(db, r.body.data.value[i].entry)
    ensures forall x :: x in db.sections ==> exists i :: 0 <= i < |r.body.data.value| && r.body.data.value[i].entry == x
    ensures forall i, j :: 0 <= i < j < |r.body.data.value| ==>
      LexLe(SectionKey(r.body.data.value[i].entry), SectionKey(r.body.data.value[j].entry))
  {
    var sorted := SortBy(db.sections, SectionKey);
    forall x ensures x in db.sections <==> x in sorted {
      SortByMembers(db.sections, SectionKey, x);
    }
    Reply(Ok, SuccessResult(Views(db, sorted)))
  }

  /** In the section list a lower category identifier comes first, and
      within one category a lower position. */
  lemma SectionsInOrder(db: Db, i: nat, j: nat)
    requires Valid(db)
    requires i < j < |GetSections(db).body.data.value|
    ensures var a := GetSections(db).body.data.value[i].entry.data;
      var b := GetSections(db).body.data.value[j].entry.data;
      a.categoryId < b.categoryId || (a.categoryId == b.categoryId && a.order <= b.order)
  {
    var a := GetSections(db).body.data.value[i].entry.data;
    var b := GetSections(db).body.data.value[j].entry.data;
    PairOrder(a.categoryId, a.order, b.categoryId, b.order);
  }

  /** `GetSection(id)`: NotFound for an unknown identifier, otherwise the
      section's view. */
  function GetSection(db: Db, id: Id): (r: Reply<SectionDetail>)
    requires Valid(db)
    ensures id !in Ids(db.sections) ==> r == NotFoundReply("Section")
    ensures id in Ids(db.sections) ==>
      r.status == Ok && r.body.success && r.body.data == Some(View(db, FindById(db.sections, id).value))
  {
    match FindById(db.sections, id)
    case None => NotFoundReply("Section")
    case Some(s) => Reply(Ok, SuccessResult(View(db, s)))
  }

  /** `CreateSection`: the title must be non-blank and the category must
      exist. The row is then saved, and the action returns
      `CreatedAtAction(nameof(GetSection), value)` without route values.
      The `GetSection` route needs `{id}`, so building the `Location` link
      finds no route. That exception, `noRoute`, is raised while the result
      is executed: after the save and outside the `try`. So the client gets
      a server error while the section stays stored. */
  function CreateSection(db: Db, title: string, order: int, categoryId: Id, newId: Id, s: Stamp, noRoute: Exception)
    : (r: (Response<SectionDetail>, Db))
    requires Valid(db) && newId !in Ids(db.sections)
    ensures Valid(r.1)
    ensures r.0.Thrown? <==> !IsBlank(title) && categoryId in Ids(db.categories)
    ensures r.0.Answer? ==> r.0.reply.status == BadRequest && !r.0.reply.body.success && r.1 == db
    ensures IsBlank(title) ==>
      r.0 == Answer(Reply(BadRequest, Fail("Section title is required", "Invalid section data")))
    ensures !IsBlank(title) && categoryId !in Ids(db.categories) ==>
      r.0 == Answer(Reply(BadRequest, Fail("Category not found", "Invalid category")))
    ensures r.0.Thrown? ==>
      && r.0.exception == noRoute
      && r.1 == db.(sections := db.sections + [StampCreated(Entity(newId, Section(title, order, categoryId), Unstamped), SectionKind, s)])
  {
    if IsBlank(title) then
      (Answer(Reply(BadRequest, Fail("Section title is required", "Invalid section data"))), db)
    else if FindById(db.categories, categoryId).None? then
      (Answer(Reply(BadRequest, Fail("Category not found", "Invalid category"))), db)
    else
      var table := Create(db.sections, Entity(newId, Section(title, order, categoryId), Unstamped), SectionKind, s);
      (Thrown(noRoute), db.(sections := table))
  }

  /** No content points at a section identifier that is not stored. */
  lemma NoContentsOfFresh(db: Db, id: Id)
    requires ContentsLinked(db) && id !in Ids(db.sections)
    ensures ContentCount(db.contents, id) == 0
  {
  }

  /** A create that ended in the link-generation error has still stored
      the section: reading it back gives the stamped row with its
      category's name and no contents. */
  lemma CreateThenGet(db: Db, title: string, order: int, categoryId: Id, newId: Id, s: Stamp, noRoute: Exception)
    requires Valid(db) && newId !in Ids(db.sections) && ContentsLinked(db)
    requires CreateSection(db, title, order, categoryId, newId, s, noRoute).0.Thrown?
    ensures var r := CreateSection(db, title, order, categoryId, newId, s, noRoute);
      var row := StampCreated(Entity(newId, Section(title, order, categoryId), Unstamped), SectionKind, s);
      GetSection(r.1, newId).body.data == Some(SectionDetail(row, FindById(db.categories, categoryId).value.data.name, 0))
  {
    var r := CreateSection(db, title, order, categoryId, newId, s, noRoute);
    var e := Entity(newId, Section(title, order, categoryId), Unstamped);
    CreateThenFind(db.sections, e, SectionKind, s);
    assert r.1.sections == Create(db.sections, e, SectionKind, s);
    NoContentsOfFresh(db, newId);
    assert r.1.contents == db.contents && r.1.categories == db.categories;
  }

  /** `UpdateSection`: the route and body identifiers must agree and the
      section must exist; the category is looked up only when it changes.
      Title, position and category are overwritten (a blank title is not
      rejected), and the reply is the section read back with its category
      and contents. */
  function UpdateSection(db: Db, id: Id, bodyId: Id, title: string, order: int, categoryId: Id, s: Stamp)
    : (r: (Reply<SectionDetail>, Db))
    requires Valid(db)
    ensures Valid(r.1)
    ensures id != bodyId ==> r.0 == IdMismatchReply() && r.1 == db
    ensures id == bodyId && id !in Ids(db.sections) ==> r.0 == NotFoundReply("Section") && r.1 == db
    ensures r.0.status == Ok <==>
      id == bodyId && id in Ids(db.sections)
      && (FindById(db.sections, id).value.data.categoryId == categoryId || categoryId in Ids(db.categories))
    ensures id == bodyId && id in Ids(db.sections) && r.0.status != Ok ==>
      r.0.body.errors == Some(["Category not found"]) && r.0.body.message == "Invalid category"
    ensures r.0.status != Ok ==> !r.0.body.success && r.1 == db
    ensures r.0.status == Ok ==>
      var updated := StampModified(FindById(db.sections, id).value.(data := Section(title, order, categoryId)), SectionKind, s);
      && r.0.body.success && r.0.body.message == "Section updated successfully"
      && FindById(r.1.sections, id) == Some(updated)
      && r.0.body.data == Some(View(r.1, updated))
      && r.1 == db.(sections := r.1.sections)
      && forall x :: x in db.sections && x.id != id ==> x in r.1.sections
  {
    if id != bodyId then (IdMismatchReply(), db)
    else match FindById(db.sections, id)
      case None => (NotFoundReply("Section"), db)
      case Some(current) =>
        if current.data.categoryId != categoryId && FindById(db.categories, categoryId).None? then
          (Reply(BadRequest, Fail("Category not found", "Invalid category")), db)
        else
          var edited := current.(data := Section(title, order, categoryId));
          var table := Update(db.sections, edited, SectionKind, s);
          UpdateThenFind(db.sections, edited, SectionKind, s);
          var after := db.(sections := table);
          (Reply(Ok, SuccessResult(View(after, StampModified(edited, SectionKind, s)), "Section updated successfully")), after)
  }

  /** The update reply is what reading the section back shows. */
  lemma UpdateThenGet(db: Db, id: Id, title: string, order: int, categoryId: Id, s: Stamp)
    requires Valid(db)
    requires UpdateSection(db, id, id, title, order, categoryId, s).0.status == Ok
    ensures var r := UpdateSection(db, id, id, title, order, categoryId, s);
      GetSection(r.1, id).body.data == r.0.body.data
  {
  }

  /** Some content still points at section `id`. */
  predicate HasContents(db: Db, id: Id) {
    exists i :: 0 <= i < |db.contents| && db.contents[i].data.sectionId == Some(id)
  }

  /** `DeleteSection`: an unknown identifier is NotFound, otherwise the row
      is removed. The contents' foreign key has no delete action and the
      contents are not loaded, so deleting a section that still has contents
      makes the database raise `fkViolation`, which the endpoint reports as
      a failed deletion. */
  function DeleteSection(db: Db, id: Id, fkViolation: Exception): (r: (Reply<()>, Db))
    requires Valid(db)
    ensures Valid(r.1)
    ensures id !in Ids(db.sections) ==> r.0 == NotFoundReply("Section") && r.1 == db
    ensures id in Ids(db.sections) && HasContents(db, id) ==>
      r.0 == FailedReply(fkViolation, "Section deletion failed") && r.1 == db
    ensures r.0.status == Ok <==> id in Ids(db.sections) && !HasContents(db, id)
    ensures r.0.status == Ok ==>
      && r.0.body.success && r.0.body.message == "Section deleted successfully"
      && Ids(r.1.sections) == Ids(db.sections) - {id}
      && r.1 == db.(sections := r.1.sections)
      && forall x :: x in db.sections && x.id != id ==> x in r.1.sections
  {
    match FindById(db.sections, id)
    case None => (NotFoundReply("Section"), db)
    case Some(current) =>
      if HasContents(db, id) then (FailedReply(fkViolation, "Section deletion failed"), db)
      else
        (Reply(Ok, SuccessResult((), "Section deleted successfully")),
         db.(sections := Delete(db.sections, current, SectionKind, Stamp(0, ""))))
  }

  /** The database's refusal keeps every content attached to a stored
      section. */
  lemma DeleteKeepsContentsLinked(db: Db, id: Id, fkViolation: Exception)
    requires Valid(db) && ContentsLinked(db)
    ensures ContentsLinked(DeleteSection(db, id, fkViolation).1)
  {
    var r := DeleteSection(db, id, fkViolation);
    if r.0.status == Ok {
      forall i | 0 <= i < |db.contents| && db.contents[i].data.sectionId.Some?
        ensures db.contents[i].data.sectionId.value in Ids(r.1.sections)
      {
        var sid := db.contents[i].data.sectionId.value;
        assert sid != id;
        var j :| 0 <= j < |db.sections| && db.sections[j].id == sid;
        assert db.sections[j] in r.1.sections;
      }
    }
  }
}
