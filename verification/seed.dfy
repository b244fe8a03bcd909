/** `DataContextSeed`: the start-up seeding of an empty database with one
    administrator, four categories with their sections, fifty vocabulary
    entries and their example sentences. Generated identifiers
    (`Guid.NewGuid()`), the password hasher and the clock are parameters;
    the fixed identifiers the source writes as Guid literals are the same
    128-bit numbers here. */
module Seeding {
  import opened Base
  import opened Entities
  import opened Repository
  import opened Sorting
  import opened Catalogue
  import AuthEndpoints

  // ---------------------------------------------------------------------
  // SeedIfEmpty

  /** `SeedIfEmpty`: the rows after the call; `data` is added only when the
      set has no row at all. */
  function SeedIfEmpty<T>(t: seq<T>, data: seq<T>): (r: seq<T>)
    ensures |t| == 0 ==> r == data
    ensures |t| > 0 ==> r == t
  {
    if |t| == 0 then data else t
  }

  /** Seeding a set twice is seeding it once, whatever the data. */
  lemma SeedIfEmptyIdempotent<T>(t: seq<T>, data: seq<T>)
    ensures SeedIfEmpty(SeedIfEmpty(t, data), data) == SeedIfEmpty(t, data)
    ensures |data| > 0 ==> |SeedIfEmpty(t, data)| > 0
  {
  }

  // ---------------------------------------------------------------------
  // The administrator

  const DefaultAdminPassword := "YourDefaultPassword123!"

  /** The password the administrator is created with: the delegate's
      result when a delegate is given, the built-in default only when none
      is. */
  function AdminPassword(getAdminPassword: Option<() -> string>): (p: string)
    ensures getAdminPassword.None? ==> p == DefaultAdminPassword
    ensures getAdminPassword.Some? ==> p == getAdminPassword.value()
  {
    match getAdminPassword
    case None => DefaultAdminPassword
    case Some(get) => get()
  }

  /** The delegate the API's start-up passes: the configured
      `Authentication:DefaultPassword`, or the empty string when it is not
      configured. */
  function StartupPasswordDelegate(configured: Option<string>): () -> string {
    () => configured.GetOr("")
  }

  /** With the start-up delegate the default password is never used: an
      unconfigured deployment seeds an administrator whose password is the
      empty string. */
  lemma StartupNeverUsesDefault(configured: Option<string>)
    ensures AdminPassword(Some(StartupPasswordDelegate(configured))) == configured.GetOr("")
    ensures configured.None? ==> AdminPassword(Some(StartupPasswordDelegate(configured))) == ""
  {
  }

  const AdminEmail := "dev.ahmadov.mahammad@gmail.com"
  const AdminRoleNames: seq<string> := ["Admin", "Instructor"]

  /** What `GetAdmin` hands to the context: the user, the two new roles it
      carries in `UserRoles`, and the links between them. */
  datatype AdminSeed = AdminSeed(user: Entity<User>, roles: Table<Role>, links: seq<UserRole>)

  /** `GetAdmin`: one verified user whose hash and salt come from hashing
      the password, linked to two new roles named "Admin" and "Instructor".
      `hash` stands for the password service, `userId` and `roleIds` for
      the identifiers the new objects receive. */
  function GetAdmin(getAdminPassword: Option<() -> string>, hash: string -> (string, string),
                    userId: Id, roleIds: seq<Id>): (r: AdminSeed)
    requires |roleIds| == 2
    ensures var (h, salt) := hash(AdminPassword(getAdminPassword));
      r.user == Entity(userId, User(AdminEmail, h, salt, "Mahammad", "Ahmadov", None, true), Unstamped)
    ensures |r.roles| == |AdminRoleNames| == |r.links|
    ensures forall i :: 0 <= i < |r.roles| ==>
      && r.roles[i] == Entity(roleIds[i], Role(AdminRoleNames[i], ""), Unstamped)
      && r.links[i] == UserRole(userId, roleIds[i])
  {
    var (h, salt) := hash(AdminPassword(getAdminPassword));
    var user := Entity(userId, User(AdminEmail, h, salt, "Mahammad", "Ahmadov", None, true), Unstamped);
    var roles := [Entity(roleIds[0], Role("Admin", ""), Unstamped), Entity(roleIds[1], Role("Instructor", ""), Unstamped)];
    AdminSeed(user, roles, [UserRole(userId, roleIds[0]), UserRole(userId, roleIds[1])])
  }

  /** With two distinct role identifiers the administrator holds exactly
      the roles Admin and Instructor, in that order. */
  lemma {:induction false} AdminHoldsBothRoles(getAdminPassword: Option<() -> string>, hash: string -> (string, string),
                                               userId: Id, roleIds: seq<Id>)
    requires |roleIds| == 2 && roleIds[0] != roleIds[1]
    ensures var a := GetAdmin(getAdminPassword, hash, userId, roleIds);
      UniqueIds(a.roles) && AuthEndpoints.RoleNamesOf(a.roles, a.links, userId) == ["Admin", "Instructor"]
  {
    var a := GetAdmin(getAdminPassword, hash, userId, roleIds);
    assert FindById(a.roles, roleIds[0]) == Some(a.roles[0]);
    assert a.roles[1..] == [a.roles[1]];
    assert FindById(a.roles, roleIds[1]) == Some(a.roles[1]);
    assert a.links[1..] == [a.links[1]];
    assert a.links[1..][1..] == [];
    assert AuthEndpoints.RoleNamesOf(a.roles, a.links[1..], userId) == ["Instructor"];
  }

  // ---------------------------------------------------------------------
  // Categories and sections

  const AlphabetCategoryId: Id := 0x941c0ef8_e6aa_4bb0_ac6b_f9941d6151f2
  const NumbersCategoryId: Id := 0xd8d87b51_781f_4b80_b549_b3719c770436
  const GrammarCategoryId: Id := 0x33941de7_7b48_479d_8990_53f3c15f9847
  const DailyLifeCategoryId: Id := 0x4f5bf5e2_c4f7_40bf_b6a4_1f20cd0909ea

  /** What the seed writes into the audit columns of the rows it builds: only
      `CreatedBy`, plus `CreatedAt` where the source sets it. */
  function SystemStamps(createdAt: int): (s: Stamps)
    ensures s.createdBy == Some("System") && s.createdAt == createdAt && !s.isDeleted
  {
    Unstamped.(createdAt := createdAt, createdBy := Some("System"))
  }

  /** `GetCategories`: the four categories with their fixed identifiers.
      `icon` stands for the four icon helpers, keyed by category name. The
      seed sets only `CreatedBy`; `CreatedAt` keeps the entity's initialiser
      `DateTime.UtcNow`, the instant `now` the list is built. */
  function GetCategories(icon: string -> string, now: int): (r: Table<Category>)
    ensures |r| == 4 && UniqueIds(r)
    ensures r[0].id == AlphabetCategoryId && r[1].id == NumbersCategoryId
    ensures r[2].id == GrammarCategoryId && r[3].id == DailyLifeCategoryId
    ensures forall i :: 0 <= i < |r| ==> r[i].stamps == SystemStamps(now) && r[i].data.icon == icon(r[i].data.name)
  {
    [ Entity(AlphabetCategoryId, Category("Alphabet", "Learn the Kazakh alphabet with pronunciation and examples", icon("Alphabet")), SystemStamps(now)),
      Entity(NumbersCategoryId, Category("Numbers", "Learn Kazakh numbers and counting", icon("Numbers")), SystemStamps(now)),
      Entity(GrammarCategoryId, Category("Grammar", "Essential Kazakh grammar rules and structures", icon("Grammar")), SystemStamps(now)),
      Entity(DailyLifeCategoryId, Category("Daily Life", "Practical expressions for everyday situations", icon("Daily Life")), SystemStamps(now)) ]
  }

  /** `CreateSections`: one section per title, in title order, numbered
      from 1; `ids` are the identifiers `Guid.NewGuid()` hands out. */
  function CreateSections(categoryId: Id, titles: seq<string>, ids: seq<Id>): (r: Table<Section>)
    requires |ids| == |titles|
    ensures |r| == |titles|
    ensures forall i :: 0 <= i < |r| ==> r[i].id == ids[i] && r[i].data.title == titles[i] && r[i].stamps == SystemStamps(0)
    ensures forall i :: 0 <= i < |r| ==> r[i].data.categoryId == categoryId
  {
    if |titles| == 0 then []
    else CreateSections(categoryId, titles[..|titles| - 1], ids[..|ids| - 1])
         + [Entity(ids[|ids| - 1], Section(titles[|titles| - 1], |titles|, categoryId), SystemStamps(0))]
  }

  /** The orders of a category's sections are exactly 1..n, increasing in
      title order, so ordering by `Order` gives back the titles as listed. */
  lemma {:induction false} SectionOrdersCount(categoryId: Id, titles: seq<string>, ids: seq<Id>)
    requires |ids| == |titles|
    ensures forall i :: 0 <= i < |titles| ==> CreateSections(categoryId, titles, ids)[i].data.order == i + 1
  {
    if |titles| > 0 {
      var prefix := CreateSections(categoryId, titles[..|titles| - 1], ids[..|ids| - 1]);
      var r := CreateSections(categoryId, titles, ids);
      SectionOrdersCount(categoryId, titles[..|titles| - 1], ids[..|ids| - 1]);
      assert r == prefix + [Entity(ids[|ids| - 1], Section(titles[|titles| - 1], |titles|, categoryId), SystemStamps(0))];
      forall i | 0 <= i < |r| ensures r[i].data.order == i + 1 {
        if i < |prefix| {
          assert r[i] == prefix[i];
          assert prefix[i].data.order == i + 1;
        } else {
          assert i == |prefix| == |titles| - 1;
        }
      }
    }
  }

  const AlphabetTitles: seq<string> := ["А-Ж Letters", "З-П Letters", "Р-Ш Letters", "Щ-Я Letters"]
  const NumbersTitles: seq<string> := ["Basic Numbers", "Tens & Hundreds", "Large Numbers", "Ordinals"]
  const GrammarTitles: seq<string> :=
    [ "Pronouns", "Verb 'To Be'", "Present Tense", "Past Tense",
      "Future Tense", "Nominative", "Genitive", "Dative",
      "Accusative", "Locative", "Ablative", "Instrumental",
      "Plurals", "Possessives", "Comparatives", "Questions",
      "Negation", "Modal Verbs", "Participles", "Conditionals" ]
  const DailyLifeTitles: seq<string> :=
    [ "Time & Days", "Greetings", "Family Terms", "Weather",
      "Directions", "Shopping", "Restaurant", "Transportation" ]

  /** The number of sections `GetSections` creates. */
  const SectionCount := 36

  /** `GetSections`: the four categories' sections, one category after the
      other; `ids` supplies one fresh identifier per section. */
  function GetSections(ids: seq<Id>): (r: Table<Section>)
    requires |ids| == SectionCount
    ensures |r| == SectionCount
  {
    CreateSections(AlphabetCategoryId, AlphabetTitles, ids[..4])
    + CreateSections(NumbersCategoryId, NumbersTitles, ids[4..8])
    + CreateSections(GrammarCategoryId, GrammarTitles, ids[8..28])
    + CreateSections(DailyLifeCategoryId, DailyLifeTitles, ids[28..])
  }

  /** Loading a category's sections after seeding gives exactly the
      sections created for it, in creation order. */
  lemma SectionsPerCategory(ids: seq<Id>)
    requires |ids| == SectionCount
    ensures SectionsOf(GetSections(ids), AlphabetCategoryId) == CreateSections(AlphabetCategoryId, AlphabetTitles, ids[..4])
    ensures SectionsOf(GetSections(ids), NumbersCategoryId) == CreateSections(NumbersCategoryId, NumbersTitles, ids[4..8])
    ensures SectionsOf(GetSections(ids), GrammarCategoryId) == CreateSections(GrammarCategoryId, GrammarTitles, ids[8..28])
    ensures SectionsOf(GetSections(ids), DailyLifeCategoryId) == CreateSections(DailyLifeCategoryId, DailyLifeTitles, ids[28..])
  {
    var a := CreateSections(AlphabetCategoryId, AlphabetTitles, ids[..4]);
    var b := CreateSections(NumbersCategoryId, NumbersTitles, ids[4..8]);
    var c := CreateSections(GrammarCategoryId, GrammarTitles, ids[8..28]);
    var d := CreateSections(DailyLifeCategoryId, DailyLifeTitles, ids[28..]);
    assert GetSections(ids) == a + b + c + d;
    SeparateBlocks(a, b, c, d, AlphabetCategoryId, NumbersCategoryId, GrammarCategoryId, DailyLifeCategoryId);
  }

  /** `GetSections` yields 4, 4, 20 and 8 sections for the four seeded
      categories. */
  lemma SeededSectionCounts(ids: seq<Id>)
    requires |ids| == SectionCount
    ensures |SectionsOf(GetSections(ids), AlphabetCategoryId)| == 4
    ensures |SectionsOf(GetSections(ids), NumbersCategoryId)| == 4
    ensures |SectionsOf(GetSections(ids), GrammarCategoryId)| == 20
    ensures |SectionsOf(GetSections(ids), DailyLifeCategoryId)| == 8
  {
    SectionsPerCategory(ids);
  }

  /** Four blocks of four different categories: filtering by each
      category gives back its block. */
  lemma SeparateBlocks(a: Table<Section>, b: Table<Section>, c: Table<Section>, d: Table<Section>,
                       ca: Id, cb: Id, cc: Id, cd: Id)
    requires forall i :: 0 <= i < |a| ==> a[i].data.categoryId == ca
    requires forall i :: 0 <= i < |b| ==> b[i].data.categoryId == cb
    requires forall i :: 0 <= i < |c| ==> c[i].data.categoryId == cc
    requires forall i :: 0 <= i < |d| ==> d[i].data.categoryId == cd
    requires ca != cb && ca != cc && ca != cd && cb != cc && cb != cd && cc != cd
    ensures Filter(a + b + c + d, InCategory(ca)) == a
    ensures Filter(a + b + c + d, InCategory(cb)) == b
    ensures Filter(a + b + c + d, InCategory(cc)) == c
    ensures Filter(a + b + c + d, InCategory(cd)) == d
  {
    var e: Table<Section> := [];
    assert Filter(a + b + c + d, InCategory(ca)) == a by {
      var p := InCategory(ca);
      FilterFour(a, b, c, d, p);
      BlockFilter(a, p, true);
      BlockFilter(b, p, false);
      BlockFilter(c, p, false);
      BlockFilter(d, p, false);
      assert a + e + e + e == a;
    }
    assert Filter(a + b + c + d, InCategory(cb)) == b by {
      var p := InCategory(cb);
      FilterFour(a, b, c, d, p);
      BlockFilter(a, p, false);
      BlockFilter(b, p, true);
      BlockFilter(c, p, false);
      BlockFilter(d, p, false);
      assert e + b + e + e == b;
    }
    assert Filter(a + b + c + d, InCategory(cc)) == c by {
      var p := InCategory(cc);
      FilterFour(a, b, c, d, p);
      BlockFilter(a, p, false);
      BlockFilter(b, p, false);
      BlockFilter(c, p, true);
      BlockFilter(d, p, false);
      assert e + e + c + e == c;
    }
    assert Filter(a + b + c + d, InCategory(cd)) == d by {
      var p := InCategory(cd);
      FilterFour(a, b, c, d, p);
      BlockFilter(a, p, false);
      BlockFilter(b, p, false);
      BlockFilter(c, p, false);
      BlockFilter(d, p, true);
      assert e + e + e + d == d;
    }
  }

  /** Filtering four blocks filters each. */
  lemma FilterFour(a: Table<Section>, b: Table<Section>, c: Table<Section>, d: Table<Section>, p: Entity<Section> -> bool)
    ensures Filter(a + b + c + d, p) == Filter(a, p) + Filter(b, p) + Filter(c, p) + Filter(d, p)
  {
    FilterAppend(a + b + c, d, p);
    FilterAppend(a + b, c, p);
    FilterAppend(a, b, p);
  }

  /** A block all of whose rows agree on `p` is kept whole or dropped. */
  lemma BlockFilter(t: Table<Section>, p: Entity<Section> -> bool, keep: bool)
    requires forall i :: 0 <= i < |t| ==> p(t[i]) == keep
    ensures Filter(t, p) == if keep then t else []
  {
    if keep {
      FilterAll(t, p);
    } else {
      FilterNone(t, p);
    }
  }

  // ---------------------------------------------------------------------
  // Vocabulary and examples

  /** The keys of `VocabularyGuids`: 1 to 50. */
  const VocabularyKeyCount := 50

  predicate IsVocabularyKey(k: int) { 1 <= k <= VocabularyKeyCount }

  /** The `VocabularyGuids` keys the example sentences look up, in order. */
  const ExampleKeys: seq<int> :=
    [1, 1, 3, 3, 6, 7, 8, 11, 12, 13, 16, 17, 18, 21, 22, 26, 27, 28, 36, 37, 41, 42, 46, 47, 48]

  /** `GetVocabularies`: entry `k` (1 to 50) under `VocabularyGuids[k]`.
      `guidOf` stands for the `VocabularyGuids` literals and `entry` for the
      literal words. */
  function GetVocabularies(guidOf: int -> Id, entry: int -> Vocabulary, now: int): (r: Table<Vocabulary>)
    ensures |r| == VocabularyKeyCount
    ensures forall i :: 0 <= i < |r| ==> r[i] == Entity(guidOf(i + 1), entry(i + 1), SystemStamps(now))
  {
    seq(VocabularyKeyCount, i => Entity(guidOf(i + 1), entry(i + 1), SystemStamps(now)))
  }

  /** `GetVocabularyExamples`: example `i` belongs to the entry under
      `VocabularyGuids[ExampleKeys[i]]`; `ids` are fresh identifiers and
      `sentence` stands for the literal sentence pairs. */
  function GetVocabularyExamples(guidOf: int -> Id, sentence: nat -> (string, string), ids: seq<Id>, now: int)
    : (r: Table<VocabularyExample>)
    requires |ids| == |ExampleKeys|
    ensures |r| == |ExampleKeys|
    ensures forall i :: 0 <= i < |r| ==> r[i].id == ids[i] && r[i].data.vocabularyId == Some(guidOf(ExampleKeys[i]))
  {
    seq(|ExampleKeys|, i requires 0 <= i < |ExampleKeys| =>
      Entity(ids[i], VocabularyExample(sentence(i).0, sentence(i).1, None, Some(guidOf(ExampleKeys[i]))), SystemStamps(now)))
  }

  /** Every example looks up a key `VocabularyGuids` has, so building the
      examples never fails on a missing key. */
  lemma ExampleKeysPresent()
    ensures forall i :: 0 <= i < |ExampleKeys| ==> IsVocabularyKey(ExampleKeys[i])
  {
  }

  /** Every example points at a seeded vocabulary entry: the one seeded
      under the key the example looks up. */
  lemma ExamplesReferenceSeededVocabulary(guidOf: int -> Id, entry: int -> Vocabulary,
                                          sentence: nat -> (string, string), ids: seq<Id>, now: int)
    requires |ids| == |ExampleKeys|
    ensures var vs := GetVocabularies(guidOf, entry, now);
      var es := GetVocabularyExamples(guidOf, sentence, ids, now);
      forall i :: 0 <= i < |es| ==> 1 <= ExampleKeys[i] <= |vs| && es[i].data.vocabularyId == Some(vs[ExampleKeys[i] - 1].id)
  {
    ExampleKeysPresent();
  }

  // ---------------------------------------------------------------------
  // SeedAsync

  /** The tables seeding touches. */
  datatype SeedState = SeedState(users: Table<User>, db: Db)

  /** Everything the five `Get…` calls produce. */
  datatype SeedData = SeedData(
    admin: AdminSeed,
    categories: Table<Category>,
    sections: Table<Section>,
    vocabularies: Table<Vocabulary>,
    examples: Table<VocabularyExample>)

  /** The outcome of seeding: the tables afterwards, or the exception the
      first `SaveChangesAsync` raises when a role named like one of the new
      ones already exists (the unique index on role names). */
  datatype SeedOutcome = Seeded(state: SeedState) | SeedFailed(exception: string)

  const RoleNameTaken := "DbUpdateException: duplicate key value violates unique constraint \"IX_Roles_Name\""

  predicate HasRoleNamed(roles: Table<Role>, name: string) {
    exists i :: 0 <= i < |roles| && roles[i].data.name == name
  }

  /** The users step: the administrator, its two roles and the links are
      inserted only into an empty user set. */
  function SeedUsers(st: SeedState, admin: AdminSeed): (r: SeedOutcome)
    ensures |st.users| > 0 ==> r == Seeded(st)
    ensures r.SeedFailed? <==> |st.users| == 0 && exists i :: 0 <= i < |admin.roles| && HasRoleNamed(st.db.roles, admin.roles[i].data.name)
    ensures r.Seeded? && |st.users| == 0 ==>
      && r.state.users == [admin.user]
      && r.state.db == st.db.(roles := st.db.roles + admin.roles, userRoles := st.db.userRoles + admin.links)
  {
    if |st.users| > 0 then Seeded(st)
    else if exists i :: 0 <= i < |admin.roles| && HasRoleNamed(st.db.roles, admin.roles[i].data.name) then SeedFailed(RoleNameTaken)
    else Seeded(SeedState([admin.user], st.db.(roles := st.db.roles + admin.roles, userRoles := st.db.userRoles + admin.links)))
  }

  /** `SeedAsync`: the users step, then each catalogue set in turn. */
  function SeedAsync(st: SeedState, data: SeedData): (r: SeedOutcome)
    ensures r.SeedFailed? ==> |st.users| == 0
    ensures r.SeedFailed? <==> SeedUsers(st, data.admin).SeedFailed?
    ensures r.Seeded? ==>
      && r.state.users == SeedUsers(st, data.admin).state.users
      && r.state.db.roles == SeedUsers(st, data.admin).state.db.roles
      && r.state.db.userRoles == SeedUsers(st, data.admin).state.db.userRoles
      && r.state.db.categories == SeedIfEmpty(st.db.categories, data.categories)
      && r.state.db.sections == SeedIfEmpty(st.db.sections, data.sections)
      && r.state.db.vocabularies == SeedIfEmpty(st.db.vocabularies, data.vocabularies)
      && r.state.db.examples == SeedIfEmpty(st.db.examples, data.examples)
      && r.state.db.contents == st.db.contents
  {
    match SeedUsers(st, data.admin)
    case SeedFailed(e) => SeedFailed(e)
    case Seeded(s) =>
      Seeded(s.(db := s.db.(
        categories := SeedIfEmpty(s.db.categories, data.categories),
        sections := SeedIfEmpty(s.db.sections, data.sections),
        vocabularies := SeedIfEmpty(s.db.vocabularies, data.vocabularies),
        examples := SeedIfEmpty(s.db.examples, data.examples))))
  }

  /** Seeding again after a successful seeding changes nothing: start-up
      may run it on every launch. */
  lemma SeedAsyncIdempotent(st: SeedState, data: SeedData)
    requires SeedAsync(st, data).Seeded?
    ensures SeedAsync(SeedAsync(st, data).state, data) == SeedAsync(st, data)
  {
    var s1 := SeedAsync(st, data).state;
    assert |s1.users| > 0;
    SeedIfEmptyIdempotent(st.db.categories, data.categories);
    SeedIfEmptyIdempotent(st.db.sections, data.sections);
    SeedIfEmptyIdempotent(st.db.vocabularies, data.vocabularies);
    SeedIfEmptyIdempotent(st.db.examples, data.examples);
  }
}
