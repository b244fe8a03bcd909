/** `VocabularyController`: the paged word list, the per-type statistics,
    and the create, update and delete endpoints with their guards. */
module VocabularyEndpoints {
  import opened Base
  import opened Text
  import opened Entities
  import opened Repository
  import opened ApiResponses
  import opened Sorting
  import opened Paging
  import opened Catalogue

  const PageSize: nat := 12

  /** The key of `OrderBy(v => v.WordKazakh)`. */
  function WordKey(e: Entity<Vocabulary>): seq<int> {
    Codes(e.data.wordKazakh)
  }

  /** The name the uniqueness guard compares. */
  function WordOf(v: Vocabulary): string {
    v.wordKazakh
  }

  /** A `VocabularyDto`: the row, the name of its type, and its examples. */
  datatype VocabularyItem = VocabularyItem(entry: Entity<Vocabulary>, typeName: string, examples: Table<VocabularyExample>)

  /** The examples linked to vocabulary `id`, in table order. */
  function ExamplesOf(examples: Table<VocabularyExample>, id: Id): (r: Table<VocabularyExample>)
    ensures forall i :: 0 <= i < |r| ==> r[i] in examples && r[i].data.vocabularyId == Some(id)
    ensures forall i :: 0 <= i < |examples| && examples[i].data.vocabularyId == Some(id) ==> examples[i] in r
  {
    Filter(examples, (x: Entity<VocabularyExample>) => x.data.vocabularyId == Some(id))
  }

  /** The `VocabularyDto` of one row: the row, its type's name, and exactly
      the examples linked to it. */
  function ToItem(examples: Table<VocabularyExample>, e: Entity<Vocabulary>): (r: VocabularyItem)
    ensures r.entry == e && r.typeName == TypeName(e.data.kind)
    ensures forall i :: 0 <= i < |r.examples| ==> r.examples[i] in examples && r.examples[i].data.vocabularyId == Some(e.id)
    ensures forall i :: 0 <= i < |examples| && examples[i].data.vocabularyId == Some(e.id) ==> examples[i] in r.examples
  {
    VocabularyItem(e, TypeName(e.data.kind), ExamplesOf(examples, e.id))
  }

  /** `GetVocabulary(offset)`: the page of words, ordered by Kazakh word,
      each with its examples. */
  function GetVocabulary(db: Db, offset: int): (r: Reply<PagedData<VocabularyItem>>)
    requires InInt32(offset) && |db.vocabularies| <= Int32Max
    ensures r.status == Ok && r.body.success && r.body.data.Some?
    ensures r.body.data.value.totalCount == |db.vocabularies|
    ensures r.body.data.value.nextOffset == Wrap32(ClampOffset(offset) + PageSize)
    ensures r.body.data.value.hasMore <==> |db.vocabularies| > r.body.data.value.nextOffset
    ensures |r.body.data.value.items| == Min(PageSize, Max(0, |db.vocabularies| - ClampOffset(offset)))
    ensures forall i :: 0 <= i < |r.body.data.value.items| ==>
      r.body.data.value.items[i].entry == SortBy(db.vocabularies, WordKey)[ClampOffset(offset) + i]
    ensures forall i :: 0 <= i < |r.body.data.value.items| ==>
      && r.body.data.value.items[i].entry in db.vocabularies
      && r.body.data.value.items[i] == ToItem(db.examples, r.body.data.value.items[i].entry)
    ensures forall i, j :: 0 <= i < j < |r.body.data.value.items| ==>
      LexLe(WordKey(r.body.data.value.items[i].entry), WordKey(r.body.data.value.items[j].entry))
  {
    var page := SortedPage(db.vocabularies, WordKey, offset, PageSize);
    Reply(Ok, PagedSuccessResult(PagedData(ItemsOf(db.examples, page.items), page.nextOffset, page.hasMore, page.totalCount)))
  }

  /** The `VocabularyDto`s of a list of rows, in the same order. */
  function ItemsOf(examples: Table<VocabularyExample>, rows: Table<Vocabulary>): (r: seq<VocabularyItem>)
    ensures |r| == |rows|
    ensures forall i :: 0 <= i < |r| ==> r[i] == ToItem(examples, rows[i]) && r[i].entry == rows[i]
  {
    seq(|rows|, i requires 0 <= i < |rows| => ToItem(examples, rows[i]))
  }

  /** `GetVocabulary(id)`: NotFound for an unknown identifier, otherwise the
      row with its audit columns, its type and its examples. */
  function GetVocabularyById(db: Db, id: Id): (r: Reply<VocabularyItem>)
    requires Valid(db)
    ensures id !in Ids(db.vocabularies) ==> r == NotFoundReply("Vocabulary")
    ensures id in Ids(db.vocabularies) ==>
      && r.status == Ok && r.body.success && r.body.data.Some?
      && r.body.data.value.entry in db.vocabularies && r.body.data.value.entry.id == id
      && r.body.data.value == ToItem(db.examples, r.body.data.value.entry)
      && forall x :: x in db.examples && x.data.vocabularyId == Some(id) ==> x in r.body.data.value.examples
  {
    match FindById(db.vocabularies, id)
    case None => NotFoundReply("Vocabulary")
    case Some(row) => Reply(Ok, SuccessResult(ToItem(db.examples, row)))
  }

  // ---------------------------------------------------------------------
  // Statistics

  /** The number of words of type `t`. */
  function CountOfType(vs: Table<Vocabulary>, t: VocabularyType): (n: nat)
    ensures n <= |vs|
    ensures n > 0 <==> exists i :: 0 <= i < |vs| && vs[i].data.kind == t
  {
    if |vs| == 0 then 0
    else
      (if vs[0].data.kind == t then 1 else 0) + CountOfType(vs[1..], t)
  }

  /** `GroupBy(v => v.Type).Select(g => (g.Key, g.Count()))`: one entry per
      type that occurs, taken in the order of `ts`. */
  function Groups(vs: Table<Vocabulary>, ts: seq<VocabularyType>): seq<(VocabularyType, nat)> {
    if |ts| == 0 then []
    else
      (if CountOfType(vs, ts[0]) > 0 then [(ts[0], CountOfType(vs, ts[0]))] else [])
      + Groups(vs, ts[1..])
  }

  /** `stats.Sum(s => s.Count)`. */
  function SumCounts(gs: seq<(VocabularyType, nat)>): nat {
    if |gs| == 0 then 0 else gs[0].1 + SumCounts(gs[1..])
  }

  /** The sum of the per-type counts over the types `ts`. */
  function TotalOver(vs: Table<Vocabulary>, ts: seq<VocabularyType>): nat {
    if |ts| == 0 then 0 else CountOfType(vs, ts[0]) + TotalOver(vs, ts[1..])
  }

  /** How many times `t` occurs in `ts`. */
  function Occurrences(ts: seq<VocabularyType>, t: VocabularyType): nat {
    if |ts| == 0 then 0 else (if ts[0] == t then 1 else 0) + Occurrences(ts[1..], t)
  }

  /** `VocabularyStatsDto`. */
  datatype VocabularyStats = VocabularyStats(totalWords: int, categories: map<string, int>)

  /** `stats.ToDictionary(s => s.Type.ToString(), s => s.Count)`. */
  function ToDictionary(gs: seq<(VocabularyType, nat)>): map<string, int> {
    if |gs| == 0 then map[] else ToDictionary(gs[1..])[TypeName(gs[0].0) := gs[0].1]
  }

  /** Over a list of distinct types, the dictionary has a key for exactly the
      types that occur, each with its count: type names are distinct, so no
      key is added twice. */
  lemma {:induction false} DictionaryOfGroups(vs: Table<Vocabulary>, ts: seq<VocabularyType>, t: VocabularyType)
    requires forall i, j :: 0 <= i < j < |ts| ==> ts[i] != ts[j]
    ensures TypeName(t) in ToDictionary(Groups(vs, ts)) <==> t in ts && CountOfType(vs, t) > 0
    ensures TypeName(t) in ToDictionary(Groups(vs, ts)) ==> ToDictionary(Groups(vs, ts))[TypeName(t)] == CountOfType(vs, t)
  {
    TypeNameInjective();
    if |ts| > 0 {
      DictionaryOfGroups(vs, ts[1..], t);
      var gs := Groups(vs, ts);
      var rest := Groups(vs, ts[1..]);
      assert t in ts <==> t == ts[0] || t in ts[1..];
      if CountOfType(vs, ts[0]) > 0 {
        assert gs[0] == (ts[0], CountOfType(vs, ts[0])) && gs[1..] == rest;
      } else {
        assert gs == rest;
      }
    }
  }

  /** The statistics dictionary over all types. */
  lemma CategoryCounts(vs: Table<Vocabulary>, t: VocabularyType)
    ensures TypeName(t) in ToDictionary(Groups(vs, AllTypes)) <==> CountOfType(vs, t) > 0
    ensures TypeName(t) in ToDictionary(Groups(vs, AllTypes)) ==>
      ToDictionary(Groups(vs, AllTypes))[TypeName(t)] == CountOfType(vs, t)
  {
    AllTypesIndexed(t);
    DictionaryOfGroups(vs, AllTypes, t);
  }

  /** `GetVocabularyStats`: the number of words, and per type that occurs
      its name and number of words. */
  function GetVocabularyStats(db: Db): (r: Reply<VocabularyStats>)
    ensures r.status == Ok && r.body.success && r.body.data.Some?
    ensures r.body.data.value.totalWords == |db.vocabularies|
    ensures forall t :: TypeName(t) in r.body.data.value.categories <==> CountOfType(db.vocabularies, t) > 0
    ensures forall t :: TypeName(t) in r.body.data.value.categories ==>
      r.body.data.value.categories[TypeName(t)] == CountOfType(db.vocabularies, t)
  {
    GroupsSum(db.vocabularies, AllTypes);
    TotalOverAllTypes(db.vocabularies);
    var gs := Groups(db.vocabularies, AllTypes);
    forall t
      ensures TypeName(t) in ToDictionary(gs) <==> CountOfType(db.vocabularies, t) > 0
      ensures TypeName(t) in ToDictionary(gs) ==> ToDictionary(gs)[TypeName(t)] == CountOfType(db.vocabularies, t)
    {
      CategoryCounts(db.vocabularies, t);
    }
    Reply(Ok, SuccessResult(VocabularyStats(SumCounts(gs), ToDictionary(gs))))
  }

  /** Leaving out the empty groups does not change the sum. */
  lemma {:induction false} GroupsSum(vs: Table<Vocabulary>, ts: seq<VocabularyType>)
    ensures SumCounts(Groups(vs, ts)) == TotalOver(vs, ts)
  {
    if |ts| > 0 {
      GroupsSum(vs, ts[1..]);
      var head := if CountOfType(vs, ts[0]) > 0 then [(ts[0], CountOfType(vs, ts[0]))] else [];
      SumCountsAppend(head, Groups(vs, ts[1..]));
    }
  }

  lemma {:induction false} SumCountsAppend(a: seq<(VocabularyType, nat)>, b: seq<(VocabularyType, nat)>)
    ensures SumCounts(a + b) == SumCounts(a) + SumCounts(b)
  {
    if |a| > 0 {
      assert (a + b)[1..] == a[1..] + b;
      SumCountsAppend(a[1..], b);
    } else {
      assert a + b == b;
    }
  }

  /** One more word adds one to the total of every list of types in which
      its type occurs once. */
  lemma {:induction false} TotalOverCons(x: Entity<Vocabulary>, rest: Table<Vocabulary>, ts: seq<VocabularyType>)
    ensures TotalOver([x] + rest, ts) == TotalOver(rest, ts) + Occurrences(ts, x.data.kind)
  {
    assert ([x] + rest)[1..] == rest;
    if |ts| > 0 {
      TotalOverCons(x, rest, ts[1..]);
    }
  }

  /** In a list without repetitions a type occurs at most once. */
  lemma {:induction false} OccurrencesDistinct(ts: seq<VocabularyType>, t: VocabularyType)
    requires forall i, j :: 0 <= i < j < |ts| ==> ts[i] != ts[j]
    ensures Occurrences(ts, t) == if t in ts then 1 else 0
  {
    if |ts| > 0 {
      OccurrencesDistinct(ts[1..], t);
      assert t in ts <==> t == ts[0] || t in ts[1..];
    }
  }

  /** Every word belongs to exactly one group: the counts over all types add
      up to the number of words. */
  lemma {:induction false} TotalOverAllTypes(vs: Table<Vocabulary>)
    ensures TotalOver(vs, AllTypes) == |vs|
  {
    if |vs| == 0 {
      TotalOverEmpty(AllTypes);
    } else {
      assert vs == [vs[0]] + vs[1..];
      TotalOverAllTypes(vs[1..]);
      TotalOverCons(vs[0], vs[1..], AllTypes);
      AllTypesIndexed(vs[0].data.kind);
      OccurrencesDistinct(AllTypes, vs[0].data.kind);
    }
  }

  lemma {:induction false} TotalOverEmpty(ts: seq<VocabularyType>)
    ensures TotalOver([], ts) == 0
  {
    if |ts| > 0 {
      TotalOverEmpty(ts[1..]);
    }
  }

  // ---------------------------------------------------------------------
  // Create, update, delete

  /** The fields of `CreateVocabularyDto` / `UpdateVocabularyDto`. */
  datatype VocabularyInput = VocabularyInput(
    wordKazakh: string,
    wordAzerbaijani: string,
    pronunciation: Option<string>,
    audioUrl: Option<string>,
    kind: VocabularyType)

  function ToVocabulary(input: VocabularyInput): Vocabulary {
    Vocabulary(input.wordKazakh, input.wordAzerbaijani, input.pronunciation, input.audioUrl, input.kind)
  }

  /** `CreateVocabulary`: both words must be non-blank and the Kazakh word
      must not exist yet, ignoring case. The new row gets identifier
      `newId`; vocabulary rows carry no audit stamps. */
  function CreateVocabulary(db: Db, input: VocabularyInput, fold: string -> string, newId: Id, s: Stamp)
    : (r: (Reply<Entity<Vocabulary>>, Db))
    requires Valid(db) && newId !in Ids(db.vocabularies)
    ensures Valid(r.1)
    ensures r.0.status == Created <==>
      !IsBlank(input.wordKazakh) && !IsBlank(input.wordAzerbaijani)
      && !NameTaken(db.vocabularies, WordOf, fold, input.wordKazakh, None)
    ensures r.0.status != Created ==> r.0.status == BadRequest && !r.0.body.success && r.1 == db
    ensures IsBlank(input.wordKazakh) || IsBlank(input.wordAzerbaijani) ==>
      r.0.body.errors == Some(["Kazakh and Azerbaijani words are required"]) && r.0.body.message == "Invalid vocabulary data"
    ensures (!IsBlank(input.wordKazakh) && !IsBlank(input.wordAzerbaijani)
             && NameTaken(db.vocabularies, WordOf, fold, input.wordKazakh, None)) ==>
      r.0.body.errors == Some(["Kazakh word already exists"]) && r.0.body.message == "Word must be unique"
    ensures r.0.status == Created ==>
      && r.0.body.success && r.0.body.message == "Vocabulary created successfully"
      && r.0.body.data == Some(Entity(newId, ToVocabulary(input), Unstamped))
      && r.1 == db.(vocabularies := db.vocabularies + [Entity(newId, ToVocabulary(input), Unstamped)])
    ensures NamesDistinct(db.vocabularies, WordOf, fold) ==> NamesDistinct(r.1.vocabularies, WordOf, fold)
  {
    if IsBlank(input.wordKazakh) || IsBlank(input.wordAzerbaijani) then
      (Reply(BadRequest, Fail("Kazakh and Azerbaijani words are required", "Invalid vocabulary data")), db)
    else if NameTaken(db.vocabularies, WordOf, fold, input.wordKazakh, None) then
      (Reply(BadRequest, Fail("Kazakh word already exists", "Word must be unique")), db)
    else
      var row := Entity(newId, ToVocabulary(input), Unstamped);
      var table := Create(db.vocabularies, row, VocabularyKind, s);
      assert NamesDistinct(db.vocabularies, WordOf, fold) ==> NamesDistinct(table, WordOf, fold) by {
        if NamesDistinct(db.vocabularies, WordOf, fold) {
          CreateKeepsNamesDistinct(db.vocabularies, row, VocabularyKind, s, WordOf, fold);
        }
      }
      (Reply(Created, SuccessResult(row, "Vocabulary created successfully")), db.(vocabularies := table))
  }

  /** `UpdateVocabulary`: the route and body identifiers must agree and the
      row must exist; only when the Kazakh word changes (ignoring case) is
      it checked against the other rows. All five fields are overwritten;
      blank words are not rejected here. The word is loaded with its
      examples, and the reply lists them. */
  function UpdateVocabulary(db: Db, id: Id, bodyId: Id, input: VocabularyInput, fold: string -> string, s: Stamp)
    : (r: (Reply<VocabularyItem>, Db))
    requires Valid(db)
    ensures Valid(r.1)
    ensures id != bodyId ==> r.0 == IdMismatchReply() && r.1 == db
    ensures id == bodyId && id !in Ids(db.vocabularies) ==> r.0 == NotFoundReply("Vocabulary") && r.1 == db
    ensures r.0.status == Ok <==>
      id == bodyId && id in Ids(db.vocabularies)
      && (SameIgnoringCase(fold, FindById(db.vocabularies, id).value.data.wordKazakh, input.wordKazakh)
          || !NameTaken(db.vocabularies, WordOf, fold, input.wordKazakh, Some(id)))
    ensures r.0.status != Ok ==> !r.0.body.success && r.1 == db
    ensures r.0.status == Ok ==>
      var updated := FindById(db.vocabularies, id).value.(data := ToVocabulary(input));
      && r.0.body.success && r.0.body.message == "Vocabulary updated successfully"
      && r.0.body.data == Some(ToItem(db.examples, updated))
      && r.1 == db.(vocabularies := Update(db.vocabularies, updated, VocabularyKind, s))
      && FindById(r.1.vocabularies, id) == Some(updated)
    ensures NamesDistinct(db.vocabularies, WordOf, fold) ==> NamesDistinct(r.1.vocabularies, WordOf, fold)
  {
    if id != bodyId then (IdMismatchReply(), db)
    else match FindById(db.vocabularies, id)
      case None => (NotFoundReply("Vocabulary"), db)
      case Some(current) =>
        if !SameIgnoringCase(fold, current.data.wordKazakh, input.wordKazakh)
           && NameTaken(db.vocabularies, WordOf, fold, input.wordKazakh, Some(id))
        then (Reply(BadRequest, Fail("Kazakh word already exists", "Word must be unique")), db)
        else
          var updated := current.(data := ToVocabulary(input));
          var table := Update(db.vocabularies, updated, VocabularyKind, s);
          UpdateThenFind(db.vocabularies, updated, VocabularyKind, s);
          assert NamesDistinct(db.vocabularies, WordOf, fold) ==> NamesDistinct(table, WordOf, fold) by {
            if NamesDistinct(db.vocabularies, WordOf, fold) {
              UpdateKeepsNamesDistinct(db.vocabularies, updated, VocabularyKind, s, WordOf, fold);
            }
          }
          (Reply(Ok, SuccessResult(ToItem(db.examples, updated), "Vocabulary updated successfully")), db.(vocabularies := table))
  }

  /** Some example still points at vocabulary `id`. */
  predicate Referenced(db: Db, id: Id) {
    exists i :: 0 <= i < |db.examples| && db.examples[i].data.vocabularyId == Some(id)
  }

  /** `DeleteVocabulary`: an unknown identifier is NotFound. The row is
      removed outright (vocabulary is not soft-deletable). The examples'
      foreign key has no delete action and the examples are not loaded, so
      deleting a word that still has examples makes the database raise
      `fkViolation`, which the endpoint reports as a failed deletion. */
  function DeleteVocabulary(db: Db, id: Id, fkViolation: Exception): (r: (Reply<()>, Db))
    requires Valid(db)
    ensures Valid(r.1)
    ensures id !in Ids(db.vocabularies) ==> r.0 == NotFoundReply("Vocabulary") && r.1 == db
    ensures id in Ids(db.vocabularies) && Referenced(db, id) ==>
      r.0 == FailedReply(fkViolation, "Vocabulary deletion failed") && r.1 == db
    ensures r.0.status == Ok <==> id in Ids(db.vocabularies) && !Referenced(db, id)
    ensures r.0.status == Ok ==>
      && r.0.body.success && r.0.body.message == "Vocabulary deleted successfully"
      && Ids(r.1.vocabularies) == Ids(db.vocabularies) - {id}
      && r.1 == db.(vocabularies := r.1.vocabularies)
      && forall x :: x in db.vocabularies && x.id != id ==> x in r.1.vocabularies
  {
    match FindById(db.vocabularies, id)
    case None => (NotFoundReply("Vocabulary"), db)
    case Some(current) =>
      if Referenced(db, id) then (FailedReply(fkViolation, "Vocabulary deletion failed"), db)
      else
        (Reply(Ok, SuccessResult((), "Vocabulary deleted successfully")),
         db.(vocabularies := Delete(db.vocabularies, current, VocabularyKind, Stamp(0, ""))))
  }

  /** Reading a word back right after creating it gives exactly the row the
      create reply carried. */
  lemma CreateThenGet(db: Db, input: VocabularyInput, fold: string -> string, newId: Id, s: Stamp)
    requires Valid(db) && newId !in Ids(db.vocabularies)
    requires CreateVocabulary(db, input, fold, newId, s).0.status == Created
    ensures var r := CreateVocabulary(db, input, fold, newId, s);
      GetVocabularyById(r.1, newId).body.data.Some?
      && Some(GetVocabularyById(r.1, newId).body.data.value.entry) == r.0.body.data
  {
    var row := Entity(newId, ToVocabulary(input), Unstamped);
    CreateThenFind(db.vocabularies, row, VocabularyKind, s);
  }

  /** Reading a word back right after a successful update gives exactly
      what the update reply carried: the row, its type and its examples. */
  lemma UpdateThenGet(db: Db, id: Id, input: VocabularyInput, fold: string -> string, s: Stamp)
    requires Valid(db)
    requires UpdateVocabulary(db, id, id, input, fold, s).0.status == Ok
    ensures var r := UpdateVocabulary(db, id, id, input, fold, s);
      GetVocabularyById(r.1, id).body.data.Some? && GetVocabularyById(r.1, id).body.data == r.0.body.data
  {
  }
}
