/** `VocabularyExampleController`: the example list ordered by sentence and
    the create, update and delete endpoints with their guards. */
module VocabularyExampleEndpoints {
  import opened Base
  import opened Text
  import opened Entities
  import opened Repository
  import opened ApiResponses
  import opened Sorting
  import opened Catalogue

  /** A `DetailedVocabularyExampleDto`: the row's columns without its
      vocabulary link. */
  datatype ExampleDetail = ExampleDetail(
    id: Id,
    sentenceKazakh: string,
    sentenceTranslation: string,
    audioUrl: Option<string>,
    stamps: Stamps)

  function ExampleView(e: Entity<VocabularyExample>): (r: ExampleDetail)
    ensures r.id == e.id && r.stamps == e.stamps && r.audioUrl == e.data.audioUrl
    ensures r.sentenceKazakh == e.data.sentenceKazakh && r.sentenceTranslation == e.data.sentenceTranslation
  {
    ExampleDetail(e.id, e.data.sentenceKazakh, e.data.sentenceTranslation, e.data.audioUrl, e.stamps)
  }

  /** The key of `OrderBy(ve => ve.SentenceKazakh)`. */
  function SentenceKey(e: Entity<VocabularyExample>): seq<int> {
    Codes(e.data.sentenceKazakh)
  }

  /** The views of the examples `ordered`, position by position. */
  function ExampleViews(ordered: Table<VocabularyExample>): (r: seq<ExampleDetail>)
    ensures |r| == |ordered|
    ensures forall i :: 0 <= i < |r| ==> r[i] == ExampleView(ordered[i])
  {
    seq(|ordered|, i requires 0 <= i < |ordered| => ExampleView(ordered[i]))
  }

  /** `GetVocabularyExamples`: every example once, ordered by its Kazakh
      sentence. */
  function GetVocabularyExamples(db: Db): (r: Reply<seq<ExampleDetail>>)
    requires Valid(db)
    ensures r.status == Ok && r.body.success && r.body.data.Some?
    ensures |r.body.data.value| == |db.examples|
    ensures forall i :: 0 <= i < |r.body.data.value| ==>
      r.body.data.value[i].id in Ids(db.examples)
      && r.body.data.value[i] == ExampleView(FindById(db.examples, r.body.data.value[i].id).value)
    ensures forall x :: x in db.examples ==> ExampleView(x) in r.body.data.value
    ensures forall i, j :: 0 <= i < j < |r.body.data.value| ==>
      LexLe(Codes(r.body.data.value[i].sentenceKazakh), Codes(r.body.data.value[j].sentenceKazakh))
  {
    var sorted := SortBy(db.examples, SentenceKey);
    var r := ExampleViews(sorted);
    forall i | 0 <= i < |r| ensures r[i].id in Ids(db.examples) && r[i] == ExampleView(FindById(db.examples, r[i].id).value) {
      SortByMembers(db.examples, SentenceKey, sorted[i]);
      assert sorted[i] in db.examples;
      assert r[i] == ExampleView(sorted[i]);
    }
    forall x | x in db.examples ensures ExampleView(x) in r {
      SortByMembers(db.examples, SentenceKey, x);
      var k :| 0 <= k < |sorted| && sorted[k] == x;
      assert r[k] == ExampleView(x);
    }
    Reply(Ok, SuccessResult(r))
  }

  /** `GetVocabularyExample(id)`: NotFound for an unknown identifier,
      otherwise the example's view. */
  function GetVocabularyExample(db: Db, id: Id): (r: Reply<ExampleDetail>)
    requires Valid(db)
    ensures id !in Ids(db.examples) ==> r == NotFoundReply("Vocabulary example")
    ensures id in Ids(db.examples) ==>
      r.status == Ok && r.body.success && r.body.data == Some(ExampleView(FindById(db.examples, id).value))
  {
    match FindById(db.examples, id)
    case None => NotFoundReply("Vocabulary example")
    case Some(e) => Reply(Ok, SuccessResult(ExampleView(e)))
  }

  /** Every example with a vocabulary points at a stored vocabulary. */
  ghost predicate ExamplesLinked(db: Db) {
    forall i :: 0 <= i < |db.examples| && db.examples[i].data.vocabularyId.Some? ==>
      db.examples[i].data.vocabularyId.value in Ids(db.vocabularies)
  }

  /** A vocabulary link the guards accept: none, or a stored vocabulary. */
  ghost predicate KnownOrNone(db: Db, vocabularyId: Option<Id>) {
    vocabularyId.None? || vocabularyId.value in Ids(db.vocabularies)
  }

  /** `CreateVocabularyExample`: both sentences must be non-blank, and a
      given vocabulary must exist; an example without a vocabulary is
      accepted. */
  function CreateVocabularyExample(db: Db, sentenceKazakh: string, sentenceTranslation: string,
                                   audioUrl: Option<string>, vocabularyId: Option<Id>, newId: Id)
    : (r: (Reply<ExampleDetail>, Db))
    requires Valid(db) && newId !in Ids(db.examples)
    ensures Valid(r.1)
    ensures r.0.status == Created <==>
      !IsBlank(sentenceKazakh) && !IsBlank(sentenceTranslation) && KnownOrNone(db, vocabularyId)
    ensures r.0.status != Created ==> r.0.status == BadRequest && !r.0.body.success && r.1 == db
    ensures IsBlank(sentenceKazakh) || IsBlank(sentenceTranslation) ==>
      r.0.body.errors == Some(["Kazakh sentence and translation are required"])
      && r.0.body.message == "Invalid example data"
    ensures !IsBlank(sentenceKazakh) && !IsBlank(sentenceTranslation) && !KnownOrNone(db, vocabularyId) ==>
      r.0.body.errors == Some(["Vocabulary not found"]) && r.0.body.message == "Invalid vocabulary"
    ensures r.0.status == Created ==>
      var row := Entity(newId, VocabularyExample(sentenceKazakh, sentenceTranslation, audioUrl, vocabularyId), Unstamped);
      && r.0.body.success && r.0.body.message == "Vocabulary example created successfully"
      && r.0.body.data == Some(ExampleView(row))
      && r.1 == db.(examples := db.examples + [row])
  {
    if IsBlank(sentenceKazakh) || IsBlank(sentenceTranslation) then
      (Reply(BadRequest, Fail("Kazakh sentence and translation are required", "Invalid example data")), db)
    else if vocabularyId.Some? && FindById(db.vocabularies, vocabularyId.value).None? then
      (Reply(BadRequest, Fail("Vocabulary not found", "Invalid vocabulary")), db)
    else
      var row := Entity(newId, VocabularyExample(sentenceKazakh, sentenceTranslation, audioUrl, vocabularyId), Unstamped);
      var table := Create(db.examples, row, VocabularyExampleKind, Stamp(0, ""));
      (Reply(Created, SuccessResult(ExampleView(table[|db.examples|]), "Vocabulary example created successfully")),
       db.(examples := table))
  }

  /** Reading an example back right after creating it gives exactly what
      the create reply described. */
  lemma CreateThenGet(db: Db, sentenceKazakh: string, sentenceTranslation: string,
                      audioUrl: Option<string>, vocabularyId: Option<Id>, newId: Id)
    requires Valid(db) && newId !in Ids(db.examples)
    requires CreateVocabularyExample(db, sentenceKazakh, sentenceTranslation, audioUrl, vocabularyId, newId).0.status == Created
    ensures var r := CreateVocabularyExample(db, sentenceKazakh, sentenceTranslation, audioUrl, vocabularyId, newId);
      GetVocabularyExample(r.1, newId).body.data == r.0.body.data
  {
    var row := Entity(newId, VocabularyExample(sentenceKazakh, sentenceTranslation, audioUrl, vocabularyId), Unstamped);
    CreateThenFind(db.examples, row, VocabularyExampleKind, Stamp(0, ""));
  }

  /** A create keeps every example's vocabulary link valid. */
  lemma CreateKeepsExamplesLinked(db: Db, sentenceKazakh: string, sentenceTranslation: string,
                                  audioUrl: Option<string>, vocabularyId: Option<Id>, newId: Id)
    requires Valid(db) && newId !in Ids(db.examples) && ExamplesLinked(db)
    ensures ExamplesLinked(CreateVocabularyExample(db, sentenceKazakh, sentenceTranslation, audioUrl, vocabularyId, newId).1)
  {
    var r := CreateVocabularyExample(db, sentenceKazakh, sentenceTranslation, audioUrl, vocabularyId, newId);
    if r.0.status == Created {
      assert r.1.examples[|db.examples|].data.vocabularyId == vocabularyId;
      assert forall i :: 0 <= i < |db.examples| ==> r.1.examples[i] == db.examples[i];
    }
  }

  /** `UpdateVocabularyExample`: the route and body identifiers must agree
      and the example must exist; a vocabulary is looked up only when one
      is given and it differs from the current one. Sentences, audio and
      vocabulary are overwritten (blank sentences are not rejected, and no
      vocabulary detaches the example). */
  function UpdateVocabularyExample(db: Db, id: Id, bodyId: Id, sentenceKazakh: string, sentenceTranslation: string,
                                   audioUrl: Option<string>, vocabularyId: Option<Id>)
    : (r: (Reply<ExampleDetail>, Db))
    requires Valid(db)
    ensures Valid(r.1)
    ensures id != bodyId ==> r.0 == IdMismatchReply() && r.1 == db
    ensures id == bodyId && id !in Ids(db.examples) ==> r.0 == NotFoundReply("Vocabulary example") && r.1 == db
    ensures r.0.status == Ok <==>
      id == bodyId && id in Ids(db.examples)
      && (FindById(db.examples, id).value.data.vocabularyId == vocabularyId || KnownOrNone(db, vocabularyId))
    ensures id == bodyId && id in Ids(db.examples) && r.0.status != Ok ==>
      r.0.status == BadRequest && r.0.body.errors == Some(["Vocabulary not found"]) && r.0.body.message == "Invalid vocabulary"
    ensures r.0.status != Ok ==> !r.0.body.success && r.1 == db
    ensures r.0.status == Ok ==>
      var updated := FindById(db.examples, id).value.(data := VocabularyExample(sentenceKazakh, sentenceTranslation, audioUrl, vocabularyId));
      && r.0.body.success && r.0.body.message == "Vocabulary example updated successfully"
      && FindById(r.1.examples, id) == Some(updated)
      && r.0.body.data == Some(ExampleView(updated))
      && r.1 == db.(examples := r.1.examples)
      && forall x :: x in db.examples && x.id != id ==> x in r.1.examples
  {
    if id != bodyId then (IdMismatchReply(), db)
    else match FindById(db.examples, id)
      case None => (NotFoundReply("Vocabulary example"), db)
      case Some(current) =>
        if vocabularyId.Some? && vocabularyId != current.data.vocabularyId
           && FindById(db.vocabularies, vocabularyId.value).None? then
          (Reply(BadRequest, Fail("Vocabulary not found", "Invalid vocabulary")), db)
        else
          var edited := current.(data := VocabularyExample(sentenceKazakh, sentenceTranslation, audioUrl, vocabularyId));
          var table := Update(db.examples, edited, VocabularyExampleKind, Stamp(0, ""));
          UpdateThenFind(db.examples, edited, VocabularyExampleKind, Stamp(0, ""));
          (Reply(Ok, SuccessResult(ExampleView(edited), "Vocabulary example updated successfully")),
           db.(examples := table))
  }

  /** The update reply is what reading the example back shows. */
  lemma UpdateThenGet(db: Db, id: Id, sentenceKazakh: string, sentenceTranslation: string,
                      audioUrl: Option<string>, vocabularyId: Option<Id>)
    requires Valid(db)
    requires UpdateVocabularyExample(db, id, id, sentenceKazakh, sentenceTranslation, audioUrl, vocabularyId).0.status == Ok
    ensures var r := UpdateVocabularyExample(db, id, id, sentenceKazakh, sentenceTranslation, audioUrl, vocabularyId);
      GetVocabularyExample(r.1, id).body.data == r.0.body.data
  {
  }

  /** Unlike a content, an example can be detached: an update without a
      vocabulary always succeeds for a stored example and leaves it with no
      vocabulary. */
  lemma UpdateDetaches(db: Db, id: Id, sentenceKazakh: string, sentenceTranslation: string, audioUrl: Option<string>)
    requires Valid(db) && id in Ids(db.examples)
    ensures var r := UpdateVocabularyExample(db, id, id, sentenceKazakh, sentenceTranslation, audioUrl, None);
      r.0.status == Ok && FindById(r.1.examples, id).value.data.vocabularyId.None?
  {
  }

  /** An update keeps every example's vocabulary link valid. */
  lemma UpdateKeepsExamplesLinked(db: Db, id: Id, bodyId: Id, sentenceKazakh: string, sentenceTranslation: string,
                                  audioUrl: Option<string>, vocabularyId: Option<Id>)
    requires Valid(db) && ExamplesLinked(db)
    ensures ExamplesLinked(UpdateVocabularyExample(db, id, bodyId, sentenceKazakh, sentenceTranslation, audioUrl, vocabularyId).1)
  {
    var r := UpdateVocabularyExample(db, id, bodyId, sentenceKazakh, sentenceTranslation, audioUrl, vocabularyId);
    if r.0.status == Ok {
      var current := FindById(db.examples, id).value;
      var edited := current.(data := VocabularyExample(sentenceKazakh, sentenceTranslation, audioUrl, vocabularyId));
      assert r.1.examples == Update(db.examples, edited, VocabularyExampleKind, Stamp(0, ""));
      forall i | 0 <= i < |r.1.examples| && r.1.examples[i].data.vocabularyId.Some?
        ensures r.1.examples[i].data.vocabularyId.value in Ids(r.1.vocabularies)
      {
        if db.examples[i].id == id {
          assert db.examples[i] == current;
        }
      }
    }
  }

  /** `DeleteVocabularyExample`: an unknown identifier is NotFound,
      otherwise the row is removed. */
  function DeleteVocabularyExample(db: Db, id: Id): (r: (Reply<()>, Db))
    requires Valid(db)
    ensures Valid(r.1)
    ensures id !in Ids(db.examples) ==> r.0 == NotFoundReply("Vocabulary example") && r.1 == db
    ensures r.0.status == Ok <==> id in Ids(db.examples)
    ensures r.0.status == Ok ==>
      && r.0.body.success && r.0.body.message == "Vocabulary example deleted successfully"
      && Ids(r.1.examples) == Ids(db.examples) - {id}
      && r.1 == db.(examples := r.1.examples)
      && forall x :: x in db.examples && x.id != id ==> x in r.1.examples
  {
    match FindById(db.examples, id)
    case None => (NotFoundReply("Vocabulary example"), db)
    case Some(current) =>
      (Reply(Ok, SuccessResult((), "Vocabulary example deleted successfully")),
       db.(examples := Delete(db.examples, current, VocabularyExampleKind, Stamp(0, ""))))
  }

  /** After a delete the example can no longer be read. */
  lemma DeleteThenGet(db: Db, id: Id)
    requires Valid(db)
    ensures GetVocabularyExample(DeleteVocabularyExample(db, id).1, id) == NotFoundReply("Vocabulary example")
  {
  }
}
