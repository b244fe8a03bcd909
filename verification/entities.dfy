/** The domain entities the operations touch, reduced to the fields those
    operations read or write. Every entity has an identifier (`EntityBase`);
    the audit fields (`IAuditableEntity`) and soft-delete fields
    (`ISoftDeletable`) are kept beside the entity's own data. */
module Entities {
  import opened Base

  /** `VocabularyType`, in declaration order. */
  datatype VocabularyType =
    | All | Alphabet | Animals | BodyParts | Colors | DaysOfWeek | FamilyMembers
    | FoodAndDrinks | Greetings | Numbers | Places | Seasons | Time | Transportation
    | Weather | Phrases | Idioms | Expressions | Slang | Proverbs

  datatype Category = Category(name: string, description: string, icon: string)

  datatype Section = Section(title: string, order: int, categoryId: Id)

  /** A content block; `sectionId` is nullable. */
  datatype Content = Content(
    order: int,
    text: string,
    markdown: Option<string>,
    html: Option<string>,
    sectionId: Option<Id>)

  datatype Vocabulary = Vocabulary(
    wordKazakh: string,
    wordAzerbaijani: string,
    pronunciation: Option<string>,
    audioUrl: Option<string>,
    kind: VocabularyType)

  /** An example sentence; `vocabularyId` is nullable. */
  datatype VocabularyExample = VocabularyExample(
    sentenceKazakh: string,
    sentenceTranslation: string,
    audioUrl: Option<string>,
    vocabularyId: Option<Id>)

  datatype Role = Role(name: string, description: string)

  datatype User = User(
    email: string,
    passwordHash: string,
    passwordSalt: string,
    firstName: string,
    lastName: string,
    phoneNumber: Option<string>,
    emailVerified: bool)

  /** The user-to-role link table row. */
  datatype UserRole = UserRole(userId: Id, roleId: Id)

  /** The audit and soft-delete columns. Entities that do not implement the
      corresponding interface simply never have them written. */
  datatype Stamps = Stamps(
    createdAt: int,
    createdBy: Option<string>,
    lastModifiedAt: Option<int>,
    lastModifiedBy: Option<string>,
    isDeleted: bool,
    deletedAt: Option<int>,
    deletedBy: Option<string>)

  /** The column values of a newly constructed entity object. */
  const Unstamped: Stamps := Stamps(0, None, None, None, false, None, None)

  /** A stored row: identifier, the entity's own fields, and its stamps. */
  datatype Entity<T> = Entity(id: Id, data: T, stamps: Stamps)

  /** Which of the two marker interfaces an entity type implements. */
  datatype Kind = Kind(auditable: bool, softDeletable: bool)

  const CategoryKind: Kind := Kind(true, false)
  const SectionKind: Kind := Kind(true, false)
  const ContentKind: Kind := Kind(true, false)
  const RoleKind: Kind := Kind(true, false)
  const UserKind: Kind := Kind(true, true)
  const VocabularyKind: Kind := Kind(false, false)
  const VocabularyExampleKind: Kind := Kind(false, false)

  /** `Enum.ToString()` of a vocabulary type: its declared name. */
  function TypeName(t: VocabularyType): (r: string)
    ensures |r| > 0
  {
    match t
    case All => "All"
    case Alphabet => "Alphabet"
    case Animals => "Animals"
    case BodyParts => "BodyParts"
    case Colors => "Colors"
    case DaysOfWeek => "DaysOfWeek"
    case FamilyMembers => "FamilyMembers"
    case FoodAndDrinks => "FoodAndDrinks"
    case Greetings => "Greetings"
    case Numbers => "Numbers"
    case Places => "Places"
    case Seasons => "Seasons"
    case Time => "Time"
    case Transportation => "Transportation"
    case Weather => "Weather"
    case Phrases => "Phrases"
    case Idioms => "Idioms"
    case Expressions => "Expressions"
    case Slang => "Slang"
    case Proverbs => "Proverbs"
  }

  /** The underlying enum value (declaration index), which the database
      stores and sorts and groups by. */
  function TypeIndex(t: VocabularyType): (r: nat)
    ensures r < 20
  {
    match t
    case All => 0
    case Alphabet => 1
    case Animals => 2
    case BodyParts => 3
    case Colors => 4
    case DaysOfWeek => 5
    case FamilyMembers => 6
    case FoodAndDrinks => 7
    case Greetings => 8
    case Numbers => 9
    case Places => 10
    case Seasons => 11
    case Time => 12
    case Transportation => 13
    case Weather => 14
    case Phrases => 15
    case Idioms => 16
    case Expressions => 17
    case Slang => 18
    case Proverbs => 19
  }

  /** Every declared type, once each, in declaration order. */
  const AllTypes: seq<VocabularyType> :=
    [ All, Alphabet, Animals, BodyParts, Colors, DaysOfWeek, FamilyMembers,
      FoodAndDrinks, Greetings, Numbers, Places, Seasons, Time, Transportation,
      Weather, Phrases, Idioms, Expressions, Slang, Proverbs ]

  /** `AllTypes` lists every type exactly once: position and index agree. */
  lemma AllTypesIndexed(t: VocabularyType)
    ensures |AllTypes| == 20 && AllTypes[TypeIndex(t)] == t
    ensures forall i :: 0 <= i < |AllTypes| ==> TypeIndex(AllTypes[i]) == i
  {
  }

  lemma EveryTypeListed()
    ensures forall t :: t in AllTypes
  {
    forall t ensures t in AllTypes {
      AllTypesIndexed(t);
    }
  }

  /** Distinct types have distinct names, so the statistics dictionary keyed
      by name has one entry per type. */
  lemma TypeNameInjective()
    ensures forall a, b :: TypeName(a) == TypeName(b) ==> a == b
  {
  }
}
