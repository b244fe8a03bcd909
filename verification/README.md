# Learn Kazakh back end: a verified model

This project is a Dafny model of the server core of *Learn Kazakh*, an ASP.NET Core learning
platform. It covers these parts of the server:

- Catalogue. The REST controllers for categories, sections, learning content, vocabulary, vocabulary
  examples and roles, plus the generic EF repository, the unit of work and the `ApiResponse`
  envelope that every endpoint answers with.
- Authentication. Registration, login, refresh-token rotation and logout, the JWT service that
  issues and validates access tokens, and the refresh-token entity and service.
- Presence. The SignalR presence hub and the tracker behind it.
- Start-up seeding. The catalogue, the vocabulary and the administrator account.

Each operation is a pure function from a state and a request to a reply and the next state.
- Tables are sequences of entities: an identifier, the row's data, and its audit and soft-delete
  stamps.
- A reply is an HTTP status together with an `ApiResponse`.
- Inputs the program gets from its surroundings are parameters. These are the clock (100 ns
  ticks), the client address, fresh GUIDs and random token values, the password hasher, the
  configuration, and the case folding of `StringComparison.CurrentCultureIgnoreCase`.

Modules follow the program's files:

| module | file | models |
|---|---|---|
| `Base` | base.dfy | `Option`, identifiers, ticks, 32-bit `int` arithmetic |
| `Text` | text.dfy | `string.IsNullOrWhiteSpace`, `Trim`, `int.TryParse`, `StringValues.ToString` |
| `Entities` | entities.dfy | domain entities, audit stamps, `VocabularyType` |
| `Sorting` | sorting.dfy | `OrderBy`/`ThenBy` as a sort on keys (SQL `ORDER BY` leaves ties in no promised order), `Where`, `Count` |
| `Repository` | repository.dfy | `EfRepository<T>` |
| `ApiResponses` | api_response.dfy | `ApiResponse<T>`, `ApiPagedResponse<T>`, `PagedData<T>` |
| `Catalogue` | catalogue.dfy | the catalogue tables and the replies the controllers share |
| `Paging` | paging.dfy | `Skip`/`Take` paging with `NextOffset` and `HasMore` |
| `UnitOfWorks` | unit_of_work.dfy | `UnitOfWork` |
| `CategoryEndpoints`, `SectionEndpoints`, `ContentEndpoints`, `VocabularyEndpoints`, `VocabularyExampleEndpoints`, `RoleEndpoints` | *_controller.dfy | the six catalogue controllers |
| `RefreshTokens`, `RefreshTokenService` | refresh_token*.dfy | `RefreshToken`, `RefreshTokenService` |
| `Encodings`, `Jwt` | encoding.dfy, jwt_service.dfy | UTF-8 and ASCII key bytes, `JwtService` |
| `AuthEndpoints` | auth_controller.dfy | `AuthController` |
| `Presence`, `PresenceHubs` | presence_*.dfy | `PresenceTracker`, `PresenceHub` |
| `Seeding` | seed.dfy | `DataContextSeed` |

## Model

| member | source | states |
|---|---|---|
| Base.Wrap32 | src/shared/LearnKazakh.Shared/DTOs/Common.cs:74 | `int` arithmetic wraps into the 32-bit range, agrees with exact arithmetic inside it, and differs from it by a multiple of 2^32 |
| Text.TrimStartWith | src/server/LearnKazakh.Infrastructure/Authentication/JwtService.cs:37 | the result is a suffix of the input, everything dropped satisfies the predicate, and the result does not start with such a character |
| Text.TrimEndWith | src/server/LearnKazakh.Infrastructure/Authentication/JwtService.cs:37 | the result is a prefix of the input, everything dropped satisfies the predicate, and the result does not end with such a character |
| Text.TrimWith | src/server/LearnKazakh.Infrastructure/Authentication/JwtService.cs:37 | the result is a contiguous slice of the input obtained by dropping only trimmable characters at both ends, and it neither starts nor ends with one |
| Text.TrimUntouched | src/server/LearnKazakh.Infrastructure/Authentication/JwtService.cs:37 | a string without trimmable characters at its ends is left unchanged |
| Text.TrimBlank | src/server/LearnKazakh.Infrastructure/Authentication/JwtService.cs:37 | trimming a blank string gives the empty string |
| Text.TryParseInt32 | src/server/LearnKazakh.Infrastructure/Authentication/RefreshTokenService.cs:27 | a missing setting never parses, and any parsed value lies in the `int` range; `Text.ParsePadded` shows the accepted form (white space, sign, digits, white space, trailing U+0000) is accepted and `Text.ParsedCharacters` that nothing else is |
| Text.ParsedCharacters | src/server/LearnKazakh.Infrastructure/Authentication/RefreshTokenService.cs:27 | a setting that parses holds only number white space, digits, signs and U+0000, and at least one digit |
| Text.ParseFormatRoundTrip | src/server/LearnKazakh.Infrastructure/Authentication/RefreshTokenService.cs:27 | every `int`, written in decimal, parses back to itself |
| Text.ParsePadded | src/server/LearnKazakh.Infrastructure/Authentication/RefreshTokenService.cs:27 | every `int`, written in decimal with white space before and after it and U+0000 characters at the end, parses back to itself |
| Text.TrailingNulAccepted | src/server/LearnKazakh.Infrastructure/Authentication/RefreshTokenService.cs:27 | a setting "7" followed by U+0000 parses as 7 |
| Text.JoinValues | src/server/LearnKazakh.API/PresenceHub.cs:14 | `StringValues.ToString()` of no values is "" and of one value is that value |
| Text.Codes | src/server/LearnKazakh.API/Controllers/VocabularyController.cs:35 | the ordinal sort key of a string is its sequence of character codes, one per character |
| Text.CodesInjective | src/server/LearnKazakh.API/Controllers/VocabularyController.cs:35 | two strings with equal sort keys are equal, so ordering by the key orders by the string |
| Entities.TypeName | src/server/LearnKazakh.API/Controllers/VocabularyController.cs:45 | the `ToString()` of a vocabulary type is never empty |
| Entities.TypeNameInjective | src/server/LearnKazakh.API/Controllers/VocabularyController.cs:134 | different types have different names, so the statistics dictionary has one key per type |
| Entities.AllTypesIndexed | src/server/LearnKazakh.API/Controllers/VocabularyController.cs:127 | the list of the twenty types is indexed by each type's ordinal |
| Entities.EveryTypeListed | src/server/LearnKazakh.API/Controllers/VocabularyController.cs:127 | every vocabulary type appears in that list |
| Sorting.LexLeTotal | src/server/LearnKazakh.API/Controllers/CategoryController.cs:28 | any two sort keys are comparable |
| Sorting.LexLeTransitive | src/server/LearnKazakh.API/Controllers/CategoryController.cs:28 | the key order is transitive |
| Sorting.LexLeAntisymmetric | src/server/LearnKazakh.API/Controllers/CategoryController.cs:28 | keys that are ordered both ways are equal |
| Sorting.PairOrder | src/server/LearnKazakh.API/Controllers/SectionController.cs:31-32 | the two-part key orders by its first part, then by its second: `OrderBy(...).ThenBy(...)` |
| Sorting.SortBy | src/server/LearnKazakh.API/Controllers/CategoryController.cs:28 | `OrderBy` returns a permutation of its input that is sorted by the key |
| Sorting.SortByMembers | src/server/LearnKazakh.API/Controllers/CategoryController.cs:28 | sorting neither adds nor loses rows |
| Sorting.FirstBy | src/server/LearnKazakh.API/Controllers/ContentController.cs:303-307 | `OrderBy(...).FirstOrDefault()` is empty exactly for an empty input and otherwise returns a row whose key is least |
| Sorting.Filter | src/server/LearnKazakh.Persistence/Repositories/EfRepository.cs:30-34 | `Where` keeps exactly the rows that satisfy the predicate |
| Sorting.Count | src/server/LearnKazakh.API/Controllers/ContentController.cs:316 | the count is zero exactly when no row satisfies the predicate |
| Sorting.FilterLength | src/server/LearnKazakh.API/Controllers/ContentController.cs:316 | the filtered sequence has as many rows as the count |
| Repository.CurrentUser | src/server/LearnKazakh.Persistence/Repositories/EfRepository.cs:23 | the identity name when there is one, otherwise "System" |
| Repository.Find | src/server/LearnKazakh.Persistence/Repositories/EfRepository.cs:49-53 | `FirstOrDefault`: the first row satisfying the predicate, or none exactly when no row does |
| Repository.FindById | src/server/LearnKazakh.Persistence/Repositories/EfRepository.cs:55-65 | a lookup by primary key succeeds exactly for a stored identifier and returns that row |
| Repository.StampCreated | src/server/LearnKazakh.Persistence/Repositories/EfRepository.cs:71-75 | an auditable row gets the creation time and user; other rows are untouched |
| Repository.StampModified | src/server/LearnKazakh.Persistence/Repositories/EfRepository.cs:85-89 | an auditable row gets the modification time and user and keeps its creation stamp; other rows are untouched |
| Repository.Create | src/server/LearnKazakh.Persistence/Repositories/EfRepository.cs:67-79 | the stamped row is appended, everything before it is kept, and primary keys stay unique |
| Repository.Update | src/server/LearnKazakh.Persistence/Repositories/EfRepository.cs:81-93 | only the row with the entity's key changes, to the stamped entity; the set of keys is unchanged |
| Repository.Delete | src/server/LearnKazakh.Persistence/Repositories/EfRepository.cs:95-111 | a soft-deletable row stays, marked deleted with time and user; any other row is removed; every other row stays |
| Repository.CreateThenFind | src/server/LearnKazakh.Persistence/Repositories/EfRepository.cs:67-79 | a created row is found by its key, stamped |
| Repository.UpdateThenFind | src/server/LearnKazakh.Persistence/Repositories/EfRepository.cs:81-93 | an updated row is found by its key with the new data, and every other row is kept |
| Repository.UpdateKeepsCreation | src/server/LearnKazakh.Persistence/Repositories/EfRepository.cs:85-89 | updating a loaded row keeps its creation time and creator |
| Repository.HardDeleteRemoves | src/server/LearnKazakh.Persistence/Repositories/EfRepository.cs:105-108 | after a hard delete the key is no longer found, and other rows remain |
| Repository.SoftDeleteKeeps | src/server/LearnKazakh.Persistence/Repositories/EfRepository.cs:99-104 | after a soft delete the row is still found, flagged as deleted |
| ApiResponses.Messages | src/shared/LearnKazakh.Shared/DTOs/Common.cs:23-26 | one message per exception in the inner-exception chain, the outermost first |
| ApiResponses.MessagesFollowChain | src/shared/LearnKazakh.Shared/DTOs/Common.cs:23-26 | the i-th message is the message of the i-th exception down the chain |
| ApiResponses.CollectErrors | src/shared/LearnKazakh.Shared/DTOs/Common.cs:22-26 | the loop that walks `InnerException` collects exactly the chain's messages in order |
| ApiResponses.SuccessResult | src/shared/LearnKazakh.Shared/DTOs/Common.cs:10-18 | a success carries the data and the message and has no error list |
| ApiResponses.ErrorResult | src/shared/LearnKazakh.Shared/DTOs/Common.cs:20-34 | a failure carries no data, the given message, and the messages of the whole exception chain |
| ApiResponses.Fail | src/shared/LearnKazakh.Shared/DTOs/Common.cs:20-34 | a failure for an exception without an inner one lists just that exception's message |
| ApiResponses.PagedSuccessResult | src/shared/LearnKazakh.Shared/DTOs/Common.cs:44-52 | a paged success carries the page and the message and has no error list |
| ApiResponses.PagedErrorResult | src/shared/LearnKazakh.Shared/DTOs/Common.cs:54-68 | a paged failure carries no data and the messages of the whole exception chain |
| Paging.ClampOffset | src/server/LearnKazakh.API/Controllers/VocabularyController.cs:23 | `Math.Max(0, offset)` |
| Paging.Page | src/server/LearnKazakh.API/Controllers/VocabularyController.cs:31-60 | the page holds the rows from the clamped offset on, at most a page of them. `TotalCount` is the row count. `NextOffset` is offset plus page size, wrapped to 32 bits. `HasMore` says whether the total exceeds it |
| Paging.SortedPage | src/server/LearnKazakh.API/Controllers/RoleController.cs:29-45 | the page is a page of the sorted rows: it holds as many rows as remain after the clamped offset, up to the page size, and its i-th row is the sorted table's row at the offset plus i |
| Paging.HasMoreIffRowsRemain | src/server/LearnKazakh.API/Controllers/VocabularyController.cs:32 | without overflow, `HasMore` holds exactly when rows remain after this page, and then the page is full |
| Paging.ConsecutivePages | src/server/LearnKazakh.API/Controllers/VocabularyController.cs:32-60 | following `NextOffset` yields the rows right after the current page, with no gap and no overlap |
| Paging.OverflowReportsMore | src/server/LearnKazakh.API/Controllers/VocabularyController.cs:32 | an offset near `int.MaxValue` wraps `NextOffset` negative and reports `HasMore` on an empty page |
| UnitOfWorks.Begin | src/server/LearnKazakh.Application/UnitOfWork.cs:24-27 | with no open transaction, the new one takes the slot and nothing else changes; with one open, EF Core's "already in a transaction" exception escapes and nothing changes |
| UnitOfWorks.Commit | src/server/LearnKazakh.Application/UnitOfWork.cs:29-38 | commit ends the open transaction as committed and clears the slot; without one it does nothing |
| UnitOfWorks.Rollback | src/server/LearnKazakh.Application/UnitOfWork.cs:40-49 | rollback ends the open transaction as rolled back and clears the slot; without one it does nothing |
| UnitOfWorks.Repository | src/server/LearnKazakh.Application/UnitOfWork.cs:57-62 | a repository property returns the cached instance, creating and caching one on first use |
| UnitOfWorks.RepositorySameInstance | src/server/LearnKazakh.Application/UnitOfWork.cs:57-62 | asking twice for the same repository gives the same instance and no further change |
| UnitOfWorks.RepositoriesIndependent | src/server/LearnKazakh.Application/UnitOfWork.cs:57-62 | creating one repository leaves every other cached repository as it was |
| UnitOfWorks.BeginTwiceKeepsFirst | src/server/LearnKazakh.Application/UnitOfWork.cs:24-49 | a second begin while the first transaction is open throws, and a later commit or rollback ends the first transaction |
| UnitOfWorks.BeginThenEnd | src/server/LearnKazakh.Application/UnitOfWork.cs:24-49 | beginning and then committing or rolling back ends exactly that transaction and frees the slot |
| UnitOfWorks.EndingTwiceIsEndingOnce | src/server/LearnKazakh.Application/UnitOfWork.cs:29-49 | a second commit or rollback after the first is a no-op |
| Catalogue.SectionsOf | src/server/LearnKazakh.API/Controllers/CategoryController.cs:25-26 | a category's sections are exactly the stored sections whose category is that one |
| Catalogue.ContentCount | src/server/LearnKazakh.API/Controllers/SectionController.cs:40 | a section's content count is zero exactly when no content belongs to it |
| Catalogue.CategoryNameOf | src/server/LearnKazakh.API/Controllers/SectionController.cs:39 | the name of the section's category, or "" when there is none |
| Catalogue.NameTaken | src/server/LearnKazakh.API/Controllers/CategoryController.cs:123-129 | the uniqueness guard holds exactly when another row's name equals the candidate ignoring case |
| Catalogue.NamesDistinctAreExactlyDistinct | src/server/LearnKazakh.API/Controllers/CategoryController.cs:123 | names that are distinct ignoring case are also distinct exactly |
| Catalogue.CreateKeepsNamesDistinct | src/server/LearnKazakh.API/Controllers/CategoryController.cs:123-138 | inserting a name the guard let through keeps all names distinct ignoring case |
| Catalogue.UpdateKeepsNamesDistinct | src/server/LearnKazakh.API/Controllers/CategoryController.cs:188-203 | renaming to a name the guard let through keeps all names distinct ignoring case |
| Catalogue.NotFoundReply | src/server/LearnKazakh.API/Controllers/CategoryController.cs:64-69 | 404 with "<entity> not found" as both message and single error |
| Catalogue.IdMismatchReply | src/server/LearnKazakh.API/Controllers/CategoryController.cs:173-178 | 400 with message "Invalid request" and error "ID mismatch" |
| Catalogue.FailedReply | src/server/LearnKazakh.API/Controllers/SectionController.cs:246-249 | 400 carrying the given message and, first, the caught exception's message |
| CategoryEndpoints.OrderedSections | src/server/LearnKazakh.API/Controllers/CategoryController.cs:35 | a category's sections, all of them and only them, in ascending `Order` |
| CategoryEndpoints.Summarize | src/server/LearnKazakh.API/Controllers/CategoryController.cs:29-39 | a category with one id-and-title pair for each of its sections |
| CategoryEndpoints.GetCategories | src/server/LearnKazakh.API/Controllers/CategoryController.cs:19-48 | 200 with every category exactly once, ordered by name, each with its sections |
| CategoryEndpoints.Describe | src/server/LearnKazakh.API/Controllers/CategoryController.cs:71-97 | the detail lists exactly the category's sections in `Order` order, counts them, and sums their contents |
| CategoryEndpoints.GetCategory | src/server/LearnKazakh.API/Controllers/CategoryController.cs:51-105 | 404 for an unknown id, otherwise 200 with the category's detail |
| CategoryEndpoints.TotalCountsContentsOnce | src/server/LearnKazakh.API/Controllers/CategoryController.cs:78 | summing the sections' content counts counts each content of those sections exactly once |
| CategoryEndpoints.TotalContentCountIsCategoryContents | src/server/LearnKazakh.API/Controllers/CategoryController.cs:78 | the reported total is the number of contents whose section belongs to the category |
| CategoryEndpoints.CreateCategory | src/server/LearnKazakh.API/Controllers/CategoryController.cs:108-161 | 201 exactly when the name is non-blank and not taken ignoring case, otherwise 400 with the matching error and no change. The stored row is the stamped input. Name uniqueness is preserved |
| CategoryEndpoints.NoSectionsOfFresh | src/server/LearnKazakh.API/Controllers/CategoryController.cs:141-152 | a category that did not exist has no sections, so the create reply's empty lists are accurate |
| CategoryEndpoints.CreateThenGet | src/server/LearnKazakh.API/Controllers/CategoryController.cs:108-161 | reading a created category back gives exactly what the create reply carried |
| CategoryEndpoints.UpdateCategory | src/server/LearnKazakh.API/Controllers/CategoryController.cs:164-240 | 400 on an id mismatch and 404 for an unknown id. 200 exactly when the name is unchanged ignoring case or free; then only that row changes, stamped. Name uniqueness is preserved |
| CategoryEndpoints.UpdateReportsNoSections | src/server/LearnKazakh.API/Controllers/CategoryController.cs:206-226 | the update reply reports zero sections even when the category has sections, which a read shows |
| CategoryEndpoints.DeleteCategory | src/server/LearnKazakh.API/Controllers/CategoryController.cs:243-281 | 404 for an unknown id. 400 "Category is not empty" while it has sections. Otherwise 200, and only that category is removed |
| CategoryEndpoints.DeleteKeepsSectionsLinked | src/server/LearnKazakh.API/Controllers/CategoryController.cs:265-272 | deleting a category never leaves a section pointing to a missing category |
| SectionEndpoints.View | src/server/LearnKazakh.API/Controllers/SectionController.cs:33-45 | a section's view carries its category's name and its content count |
| SectionEndpoints.GetSections | src/server/LearnKazakh.API/Controllers/SectionController.cs:21-53 | 200 with every section exactly once, in key order, each with its view |
| SectionEndpoints.SectionsInOrder | src/server/LearnKazakh.API/Controllers/SectionController.cs:31-32 | the list is ordered by category, then by `Order` |
| SectionEndpoints.GetSection | src/server/LearnKazakh.API/Controllers/SectionController.cs:55-95 | 404 for an unknown id, otherwise 200 with the section's view |
| SectionEndpoints.CreateSection | src/server/LearnKazakh.API/Controllers/SectionController.cs:97-148 | a blank title or an unknown category gives 400 with the matching error and no change. Otherwise the stamped row is appended and saved, and then `CreatedAtAction` without an id (line 142) throws: the client gets no 201 |
| SectionEndpoints.NoContentsOfFresh | src/server/LearnKazakh.API/Controllers/SectionController.cs:130-140 | a new section has no contents, so the reply's zero count is accurate |
| SectionEndpoints.CreateThenGet | src/server/LearnKazakh.API/Controllers/SectionController.cs:97-148 | after a create that throws once the row is saved, reading the section back gives the new row with its category's name and no contents |
| SectionEndpoints.UpdateSection | src/server/LearnKazakh.API/Controllers/SectionController.cs:150-223 | 400 on an id mismatch and 404 for an unknown id. 200 exactly when the category is unchanged or exists; then only that row changes, stamped |
| SectionEndpoints.UpdateThenGet | src/server/LearnKazakh.API/Controllers/SectionController.cs:150-223 | reading an updated section back gives exactly what the update reply carried |
| SectionEndpoints.DeleteSection | src/server/LearnKazakh.API/Controllers/SectionController.cs:225-250 | 404 for an unknown id. A section with contents fails with the foreign-key error and no change. Otherwise only that section is removed |
| SectionEndpoints.DeleteKeepsContentsLinked | src/server/LearnKazakh.API/Controllers/SectionController.cs:241-249 | deleting a section never leaves content pointing to a missing section |
| ContentEndpoints.SectionOf | src/server/LearnKazakh.API/Controllers/ContentController.cs:26-27 | a content's section is found exactly when its section id is set and stored |
| ContentEndpoints.ContentView | src/server/LearnKazakh.API/Controllers/ContentController.cs:31-45 | a content's view carries its section's title and its category's name, each present exactly when that row exists |
| ContentEndpoints.GetContents | src/server/LearnKazakh.API/Controllers/ContentController.cs:19-53 | 200 with every content exactly once, each with its view, in key order |
| ContentEndpoints.ContentsInOrder | src/server/LearnKazakh.API/Controllers/ContentController.cs:29-30 | ordered by section id with unsectioned contents last, then by `Order` |
| ContentEndpoints.GetContent | src/server/LearnKazakh.API/Controllers/ContentController.cs:78-117 | 404 for an unknown id, otherwise 200 with the content's view |
| ContentEndpoints.SectionContents | src/server/LearnKazakh.API/Controllers/ContentController.cs:286 | exactly the section's contents, in ascending `Order` |
| ContentEndpoints.Items | src/server/LearnKazakh.API/Controllers/ContentController.cs:286-295 | one `ContentDto` per content, in the same order, carrying its id and three texts |
| ContentEndpoints.PreviousSection | src/server/LearnKazakh.API/Controllers/ContentController.cs:303-307 | the same-category section with the largest smaller `Order`, or none exactly when there is no such section |
| ContentEndpoints.NextSection | src/server/LearnKazakh.API/Controllers/ContentController.cs:309-313 | the same-category section with the smallest larger `Order`, or none exactly when there is no such section |
| ContentEndpoints.NavigationSymmetric | src/server/LearnKazakh.API/Controllers/ContentController.cs:301-313 | the next section of a section's previous section has that section's `Order` |
| ContentEndpoints.SectionNotFound | src/server/LearnKazakh.API/Controllers/ContentController.cs:61-68 | 404 with message "Section not found." and no error list |
| ContentEndpoints.GetSectionContent | src/server/LearnKazakh.API/Controllers/ContentController.cs:55-76 | 404 for an unknown section. Otherwise the section's contents in order, its title and category name, and links to the neighbouring sections, each shown only when that neighbour has contents |
| ContentEndpoints.SectionContentComplete | src/server/LearnKazakh.API/Controllers/ContentController.cs:277-299 | every content of the section appears in the section's page |
| ContentEndpoints.CreateContent | src/server/LearnKazakh.API/Controllers/ContentController.cs:119-168 | once the action runs, the reply is always 200. Success exactly when the text is non-blank and the section exists; otherwise a failure envelope with the matching error and no change. On success the stamped row is appended |
| ContentEndpoints.CreateThenGet | src/server/LearnKazakh.API/Controllers/ContentController.cs:119-168 | reading a created content back gives exactly what the create reply carried |
| ContentEndpoints.CreateKeepsContentsLinked | src/server/LearnKazakh.API/Controllers/ContentController.cs:132-148 | creating content never links it to a missing section |
| ContentEndpoints.UpdateContent | src/server/LearnKazakh.API/Controllers/ContentController.cs:170-240 | 400 on an id mismatch and 404 for an unknown id. 200 exactly when the section is unchanged or exists; then only that row changes, stamped |
| ContentEndpoints.UpdateThenGet | src/server/LearnKazakh.API/Controllers/ContentController.cs:170-240 | reading updated content back gives exactly what the update reply carried |
| ContentEndpoints.UpdateNeverDetaches | src/server/LearnKazakh.API/Controllers/ContentController.cs:196-213 | content that has a section cannot be moved out of every section: asking for no section is rejected as "Section not found" |
| ContentEndpoints.UpdateKeepsContentsLinked | src/server/LearnKazakh.API/Controllers/ContentController.cs:196-213 | updating content never links it to a missing section |
| ContentEndpoints.DeleteContent | src/server/LearnKazakh.API/Controllers/ContentController.cs:242-267 | 404 for an unknown id, otherwise 200, and only that content is removed |
| ContentEndpoints.DeleteThenGet | src/server/LearnKazakh.API/Controllers/ContentController.cs:242-267 | deleted content is no longer found |
| VocabularyEndpoints.ExamplesOf | src/server/LearnKazakh.API/Controllers/VocabularyController.cs:46-52 | exactly the examples linked to the word |
| VocabularyEndpoints.ToItem | src/server/LearnKazakh.API/Controllers/VocabularyController.cs:40-52 | a word's item carries the row, its type's name and only examples of that word |
| VocabularyEndpoints.GetVocabulary | src/server/LearnKazakh.API/Controllers/VocabularyController.cs:19-69 | 200 with a page of at most twelve words: the i-th item is the word at the clamped offset plus i in Kazakh-word order, with exactly its linked examples. Total count, `NextOffset` and `HasMore` are as in `Paging.Page` |
| VocabularyEndpoints.GetVocabularyById | src/server/LearnKazakh.API/Controllers/VocabularyController.cs:71-118 | 404 for an unknown id, otherwise 200 with the word, its type name, and exactly the examples linked to it |
| VocabularyEndpoints.CountOfType | src/server/LearnKazakh.API/Controllers/VocabularyController.cs:127-128 | the count of a type is positive exactly when some word has that type |
| VocabularyEndpoints.DictionaryOfGroups | src/server/LearnKazakh.API/Controllers/VocabularyController.cs:127-134 | a type's name is a dictionary key exactly when the type occurs, and it maps to the type's count |
| VocabularyEndpoints.CategoryCounts | src/server/LearnKazakh.API/Controllers/VocabularyController.cs:127-134 | grouping over all types gives one entry per occurring type, with its count |
| VocabularyEndpoints.GetVocabularyStats | src/server/LearnKazakh.API/Controllers/VocabularyController.cs:120-143 | 200. `TotalWords` is the number of words, and the dictionary maps exactly the occurring types to their counts |
| VocabularyEndpoints.GroupsSum | src/server/LearnKazakh.API/Controllers/VocabularyController.cs:133 | the sum of the group counts is the number of words whose type is among the grouped types |
| VocabularyEndpoints.TotalOverAllTypes | src/server/LearnKazakh.API/Controllers/VocabularyController.cs:133 | counted over all types, that is every word |
| VocabularyEndpoints.CreateVocabulary | src/server/LearnKazakh.API/Controllers/VocabularyController.cs:145-199 | 201 exactly when both words are non-blank and the Kazakh word is not taken ignoring case, otherwise 400 with the matching error and no change. The row is appended. Word uniqueness is preserved |
| VocabularyEndpoints.CreateThenGet | src/server/LearnKazakh.API/Controllers/VocabularyController.cs:145-199 | reading a created word back gives the row the create reply carried |
| VocabularyEndpoints.UpdateVocabulary | src/server/LearnKazakh.API/Controllers/VocabularyController.cs:201-278 | 400 on an id mismatch and 404 for an unknown id. 200 exactly when the word is unchanged ignoring case or free; then only that row changes, and the reply carries the updated word with exactly its linked examples. Word uniqueness is preserved |
| VocabularyEndpoints.UpdateThenGet | src/server/LearnKazakh.API/Controllers/VocabularyController.cs:201-278 | reading an updated word back gives exactly what the update reply carried, examples included |
| VocabularyEndpoints.DeleteVocabulary | src/server/LearnKazakh.API/Controllers/VocabularyController.cs:280-305 | 404 for an unknown id. A word that examples reference fails with the foreign-key error and no change. Otherwise only that word is removed |
| VocabularyExampleEndpoints.ExampleView | src/server/LearnKazakh.API/Controllers/VocabularyExampleController.cs:31-41 | the view carries the example's id, sentences, audio and audit columns |
| VocabularyExampleEndpoints.GetVocabularyExamples | src/server/LearnKazakh.API/Controllers/VocabularyExampleController.cs:21-49 | 200 with the view of every example, ordered by Kazakh sentence |
| VocabularyExampleEndpoints.GetVocabularyExample | src/server/LearnKazakh.API/Controllers/VocabularyExampleController.cs:51-84 | 404 for an unknown id, otherwise 200 with the example's view |
| VocabularyExampleEndpoints.CreateVocabularyExample | src/server/LearnKazakh.API/Controllers/VocabularyExampleController.cs:86-142 | 201 exactly when both sentences are non-blank and the word, if given, exists; otherwise 400 with the matching error and no change |
| VocabularyExampleEndpoints.CreateThenGet | src/server/LearnKazakh.API/Controllers/VocabularyExampleController.cs:86-142 | reading a created example back gives exactly what the create reply carried |
| VocabularyExampleEndpoints.CreateKeepsExamplesLinked | src/server/LearnKazakh.API/Controllers/VocabularyExampleController.cs:102-112 | creating an example never links it to a missing word |
| VocabularyExampleEndpoints.UpdateVocabularyExample | src/server/LearnKazakh.API/Controllers/VocabularyExampleController.cs:144-210 | 400 on an id mismatch and 404 for an unknown id. 200 exactly when the word is unchanged, absent or existing; then only that row changes |
| VocabularyExampleEndpoints.UpdateThenGet | src/server/LearnKazakh.API/Controllers/VocabularyExampleController.cs:144-210 | reading an updated example back gives exactly what the update reply carried |
| VocabularyExampleEndpoints.UpdateDetaches | src/server/LearnKazakh.API/Controllers/VocabularyExampleController.cs:168-187 | an example can always be detached from its word |
| VocabularyExampleEndpoints.UpdateKeepsExamplesLinked | src/server/LearnKazakh.API/Controllers/VocabularyExampleController.cs:168-187 | updating an example never links it to a missing word |
| VocabularyExampleEndpoints.DeleteVocabularyExample | src/server/LearnKazakh.API/Controllers/VocabularyExampleController.cs:212-237 | 404 for an unknown id, otherwise 200, and only that example is removed |
| VocabularyExampleEndpoints.DeleteThenGet | src/server/LearnKazakh.API/Controllers/VocabularyExampleController.cs:212-237 | a deleted example is no longer found |
| RoleEndpoints.GetRoles | src/server/LearnKazakh.API/Controllers/RoleController.cs:19-61 | 200 with a page of at most fifty roles: the i-th is the role at the clamped offset plus i in name order. Paging fields are as in `Paging.Page` |
| RoleEndpoints.GetRole | src/server/LearnKazakh.API/Controllers/RoleController.cs:63-96 | 404 for an unknown id, otherwise 200 with that role |
| RoleEndpoints.CreateRole | src/server/LearnKazakh.API/Controllers/RoleController.cs:98-145 | a blank or taken name (ignoring case) gives 400 with the matching error and no change. Otherwise the stamped row is appended and saved, and then `CreatedAtAction` without an id (line 139) throws: the client gets no 201. Name uniqueness is preserved |
| RoleEndpoints.CreateThenGet | src/server/LearnKazakh.API/Controllers/RoleController.cs:98-145 | after a create that throws once the row is saved, reading the role back gives the new row, stamped with the creation time and user |
| RoleEndpoints.UpdateRole | src/server/LearnKazakh.API/Controllers/RoleController.cs:147-202 | 400 on an id mismatch and 404 for an unknown id. 200 exactly when no other role has the name ignoring case; then only that row changes, stamped. Name uniqueness is preserved |
| RoleEndpoints.UpdateThenGet | src/server/LearnKazakh.API/Controllers/RoleController.cs:147-202 | reading an updated role back gives exactly what the update reply carried |
| RoleEndpoints.DeleteRole | src/server/LearnKazakh.API/Controllers/RoleController.cs:204-242 | 404 for an unknown id. 400 "Role is in use" while a user holds it. Otherwise only that role is removed |
| RoleEndpoints.DeleteKeepsLinksValid | src/server/LearnKazakh.API/Controllers/RoleController.cs:213-236 | deleting a role never leaves a user-role link to a missing role |
| RefreshTokens.ExpiryBoundary | src/server/LearnKazakh.Domain/Entities/RefreshToken.cs:18 | a token is not expired at its expiry instant and is expired one tick later |
| RefreshTokens.UnexpiredNeverActive | src/server/LearnKazakh.Domain/Entities/RefreshToken.cs:19 | a token that has not expired is never active |
| RefreshTokens.RevokedNeverActive | src/server/LearnKazakh.Domain/Entities/RefreshToken.cs:19 | a revoked token is never active |
| RefreshTokens.ActiveIsOppositeOfIntended | src/server/LearnKazakh.Domain/Entities/RefreshToken.cs:18-19 | for an unrevoked token, `IsActive` is the negation of "not expired and not revoked" |
| RefreshTokens.StatusDependsOnlyOnExpiryAndRevocation | src/server/LearnKazakh.Domain/Entities/RefreshToken.cs:18-19 | tokens with the same expiry and revocation flag have the same status |
| RefreshTokenService.Lookup | src/server/LearnKazakh.Infrastructure/Authentication/RefreshTokenService.cs:27 | the configuration indexer yields the value exactly when the key is present |
| RefreshTokenService.ExpirationDays | src/server/LearnKazakh.Infrastructure/Authentication/RefreshTokenService.cs:22-31 | the lifetime is an `int`, and it is one day when the setting is absent |
| RefreshTokenService.ExpirationDaysConfigured | src/server/LearnKazakh.Infrastructure/Authentication/RefreshTokenService.cs:27-30 | a setting holding a decimal `int` gives that number of days |
| RefreshTokenService.ExpirationDaysUnparsable | src/server/LearnKazakh.Infrastructure/Authentication/RefreshTokenService.cs:27-30 | a setting that does not parse falls back to one day |
| RefreshTokenService.SettingsKeyIgnored | src/server/LearnKazakh.Infrastructure/Authentication/JwtService.cs:126 | the `RefreshTokenExpiryDays` setting of `JwtSettings` has no effect on the lifetime |
| RefreshTokenService.Generate | src/server/LearnKazakh.Infrastructure/Authentication/RefreshTokenService.cs:33-47 | a new, unrevoked token for the user and address, expiring the configured days from now, is added and nothing else changes |
| RefreshTokenService.Get | src/server/LearnKazakh.Infrastructure/Authentication/RefreshTokenService.cs:49-52 | the stored token with that value, found exactly when it is stored |
| RefreshTokenService.Validate | src/server/LearnKazakh.Infrastructure/Authentication/RefreshTokenService.cs:54-58 | valid exactly when the token is stored and `IsActive` |
| RefreshTokenService.Revoke | src/server/LearnKazakh.Infrastructure/Authentication/RefreshTokenService.cs:60-72 | only a valid token changes, marked revoked with time, address and reason; afterwards it is not active |
| RefreshTokenService.RevokeUnexpiredIsNoOp | src/server/LearnKazakh.Infrastructure/Authentication/RefreshTokenService.cs:63 | revoking a token that has not expired changes nothing |
| RefreshTokenService.RevokeIdempotent | src/server/LearnKazakh.Infrastructure/Authentication/RefreshTokenService.cs:60-72 | revoking twice is revoking once |
| RefreshTokenService.Rotate | src/server/LearnKazakh.Infrastructure/Authentication/RefreshTokenService.cs:74-84 | the old token is revoked with reason "TOKEN ROTATION" if it was active, and a successor for the same user is stored. The second `Add` of the successor (line 80) makes the last save fail, so the old token never records its successor. Nothing else changes |
| RefreshTokenService.AddAndSave | src/server/LearnKazakh.Infrastructure/Authentication/RefreshTokenService.cs:80-81 | adding a token and saving fails exactly when its value is already stored (primary key and unique token index); a save that goes through stores the pending edits and the new token |
| RefreshTokenService.RotateIntended | src/server/LearnKazakh.Infrastructure/Authentication/RefreshTokenService.cs:74-84 | without the second `Add`, the save goes through and the old token points to its stored successor |
| RefreshTokenService.RotateLosesOnlyTheLink | src/server/LearnKazakh.Infrastructure/Authentication/RefreshTokenService.cs:78-81 | the rotation as written and the intended one issue the same successor and leave the same table except the old token's link |
| RefreshTokenService.Cleanup | src/server/LearnKazakh.Infrastructure/Authentication/RefreshTokenService.cs:86-97 | exactly the active tokens are removed; the rest are kept unchanged |
| RefreshTokenService.CleanupLeavesNoneActive | src/server/LearnKazakh.Infrastructure/Authentication/RefreshTokenService.cs:86-97 | after cleanup no token validates, and a second cleanup changes nothing |
| RefreshTokenService.CleanupKeepsRevokedAndUnexpired | src/server/LearnKazakh.Infrastructure/Authentication/RefreshTokenService.cs:88-90 | a token survives cleanup exactly when it is revoked or has not expired |
| RefreshTokenService.FreshTokenNotActive | src/server/LearnKazakh.Infrastructure/Authentication/RefreshTokenService.cs:33-58 | a token just issued with a positive lifetime does not validate |
| RefreshTokenService.GeneratedValidIffExpired | src/server/LearnKazakh.Infrastructure/Authentication/RefreshTokenService.cs:33-58 | an issued token validates exactly at instants after its expiry |
| Encodings.EncodeChar | src/server/LearnKazakh.Infrastructure/Authentication/JwtService.cs:45 | a character's UTF-8 encoding is one to four bytes, a single byte exactly for ASCII |
| Encodings.Ascii | src/server/LearnKazakh.Infrastructure/Authentication/JwtService.cs:81 | `Encoding.ASCII` gives one byte per character: the code for ASCII and '?' otherwise |
| Encodings.Utf8Length | src/server/LearnKazakh.Infrastructure/Authentication/JwtService.cs:45 | the UTF-8 bytes are at least as many as the characters, and equally many exactly for ASCII text |
| Encodings.EncodingsAgreeIffAscii | src/server/LearnKazakh.Infrastructure/Authentication/JwtService.cs:45-107 | the signing key bytes (UTF-8) and the validation key bytes (ASCII) agree exactly when the key is ASCII |
| Encodings.DecodeEncodedChar | src/server/LearnKazakh.Infrastructure/Authentication/JwtService.cs:45 | decoding the start of a character's encoding yields that character and its length |
| Encodings.Utf8RoundTrip | src/server/LearnKazakh.Infrastructure/Authentication/JwtService.cs:45 | the UTF-8 encoding of a string decodes back to the string |
| Jwt.Configure | src/server/LearnKazakh.Infrastructure/Authentication/JwtService.cs:24-29 | the service is ready exactly when the settings section is present, and otherwise fails with the configuration message |
| Jwt.Claims | src/server/LearnKazakh.Infrastructure/Authentication/JwtService.cs:33-43 | the id, e-mail and trimmed full name claims, followed by one role claim per role in order |
| Jwt.RoleClaims | src/server/LearnKazakh.Infrastructure/Authentication/JwtService.cs:40-43 | one role claim per role name, in order |
| Jwt.FindFirst | src/server/LearnKazakh.Infrastructure/Authentication/JwtService.cs:33-38 | a claim of a kind is found exactly when one is present |
| Jwt.RolesOfRoleClaims | src/server/LearnKazakh.Infrastructure/Authentication/JwtService.cs:40-43 | reading the roles back from role claims gives the role names |
| Jwt.ClaimsReadBack | src/server/LearnKazakh.Infrastructure/Authentication/JwtService.cs:33-43 | the id, e-mail, name and roles read back from the claims are the user's own |
| Jwt.NameOfNamelessUser | src/server/LearnKazakh.Infrastructure/Authentication/JwtService.cs:37 | a user without first and last name gets the empty name claim |
| Jwt.GenerateAccessToken | src/server/LearnKazakh.Infrastructure/Authentication/JwtService.cs:31-58 | an HS512 token with the configured issuer and audience, expiring the configured minutes from now, signed with the key's UTF-8 bytes, and carrying the user's id and roles |
| Jwt.ValidationKey | src/server/LearnKazakh.Infrastructure/Authentication/JwtService.cs:107 | the validation key has one byte per key character |
| Jwt.ValidateToken | src/server/LearnKazakh.Infrastructure/Authentication/JwtService.cs:93-117 | true exactly when the handler accepts the token; an accepted token is signed and has the configured issuer and audience |
| Jwt.GetClaimsPrincipal | src/server/LearnKazakh.Infrastructure/Authentication/JwtService.cs:69-91 | the handler's rejection propagates. An accepted token whose algorithm is not HS512 (ignoring case) fails with "Invalid token". Otherwise the principal holds the token's claims, its expiry, and the configured issuer and audience |
| Jwt.MintedTokenValidIffAsciiKey | src/server/LearnKazakh.Infrastructure/Authentication/JwtService.cs:45-117 | a token the service issues validates exactly when the signing key is ASCII |
| Jwt.MintedTokenPrincipal | src/server/LearnKazakh.Infrastructure/Authentication/JwtService.cs:31-91 | with an ASCII key, the principal of an issued token holds exactly the user's claims plus the registered issuer, audience and expiry claims |
| Jwt.LifetimeIgnored | src/server/LearnKazakh.Infrastructure/Authentication/JwtService.cs:77 | changing a token's expiry never changes validation or the outcome; a principal differs only in the expiry it carries |
| Jwt.AlgorithmGuardOnlyInPrincipal | src/server/LearnKazakh.Infrastructure/Authentication/JwtService.cs:85-117 | a token with a foreign algorithm still validates but yields no principal |
| Jwt.UnsignedRejected | src/server/LearnKazakh.Infrastructure/Authentication/JwtService.cs:76 | an unsigned token never validates |
| AuthEndpoints.ClientIp | src/server/LearnKazakh.API/Controllers/AuthController.cs:59 | the remote address, or "unknown" without one |
| AuthEndpoints.UserByEmail | src/server/LearnKazakh.API/Controllers/AuthController.cs:83-86 | a user with exactly that e-mail, none exactly when no user has it |
| AuthEndpoints.ProfileOf | src/server/LearnKazakh.API/Controllers/AuthController.cs:66-74 | the profile copies the user's id, e-mail and phone number and stamps the login time |
| AuthEndpoints.NewUser | src/server/LearnKazakh.API/Controllers/AuthController.cs:38-53 | the new user has the requested e-mail, the hash and salt of the password, the creation time, and no phone number |
| AuthEndpoints.Enrol | src/server/LearnKazakh.API/Controllers/AuthController.cs:38-77 | registration appends the user, a new "User" role and the link between them, and issues a refresh token. It answers with the access token, the refresh token, an expiry thirty minutes ahead and the profile |
| AuthEndpoints.EnrolKeepsValid | src/server/LearnKazakh.API/Controllers/AuthController.cs:55-56 | adding a user, a role and their link with fresh keys and unused e-mail and name keeps keys, unique indexes and links valid |
| AuthEndpoints.Register | src/server/LearnKazakh.API/Controllers/AuthController.cs:26-78 | a known e-mail gives 400 "Email already registered". If a "User" role already exists the insert violates its unique index and throws. Otherwise registration succeeds |
| AuthEndpoints.RegisterGrantsUserRole | src/server/LearnKazakh.API/Controllers/AuthController.cs:49-58 | the access token after registration names the new user and holds just the "User" role |
| AuthEndpoints.SecondRegistrationThrows | src/server/LearnKazakh.API/Controllers/AuthController.cs:49-56 | after one successful registration, registering any other new e-mail throws and changes nothing |
| AuthEndpoints.Login | src/server/LearnKazakh.API/Controllers/AuthController.cs:80-117 | 200 exactly when the e-mail is known and the password verifies; otherwise 401 and no change. On success a refresh token is issued for that user, and the reply carries it with an access token for the user and its roles |
| AuthEndpoints.RoleNamesOfNewUser | src/server/LearnKazakh.API/Controllers/AuthController.cs:49-52 | a user whose only link is to a new role holds exactly that role's name |
| AuthEndpoints.RegisterThenLogin | src/server/LearnKazakh.API/Controllers/AuthController.cs:26-117 | after registering, logging in with the same password succeeds with the same profile and the "User" role |
| AuthEndpoints.Refresh | src/server/LearnKazakh.API/Controllers/AuthController.cs:119-157 | an invalid token or a missing user gives 401 and no change. Otherwise the rotation's failed save throws out of the action (no catch): the old token stays revoked, the successor stays stored for the same user, and no reply is sent |
| AuthEndpoints.RefreshNeverAccepted | src/server/LearnKazakh.API/Controllers/AuthController.cs:119-157 | no refresh request ever gets a 200 |
| AuthEndpoints.RefreshIntended | src/server/LearnKazakh.API/Controllers/AuthController.cs:119-157 | over the intended rotation: the same 401s, otherwise 200 with the successor, which belongs to the same user and is recorded on the revoked old token, and an access token naming that user |
| AuthEndpoints.LoginTokenRefreshableOnlyAfterExpiry | src/server/LearnKazakh.API/Controllers/AuthController.cs:119-157 | the refresh token from a login gets 401 "Invalid refresh token" until its expiry has passed and reaches the failing rotation exactly after it; with the intended rotation it would be refreshed exactly then |
| AuthEndpoints.Logout | src/server/LearnKazakh.API/Controllers/AuthController.cs:159-164 | always 200 "Logged out successfully". It revokes the token if valid, afterwards the token is not active, and without a valid token nothing changes |
| AuthEndpoints.LogoutOfUnexpiredTokenKeepsIt | src/server/LearnKazakh.API/Controllers/AuthController.cs:159-164 | logging out with a token that has not expired leaves it unrevoked |
| AuthEndpoints.ReportedExpiryIgnoresSettings | src/server/LearnKazakh.API/Controllers/AuthController.cs:104 | the reported expiry equals the access token's expiry exactly when the configured lifetime is thirty minutes |
| Presence.UserConnected | src/server/LearnKazakh.API/PresenceTracker.cs:9-12 | the key is added, and the call reports whether it was new |
| Presence.UserDisconnected | src/server/LearnKazakh.API/PresenceTracker.cs:14-17 | the key is removed, and the call reports whether it was there |
| Presence.CountFollowsReports | src/server/LearnKazakh.API/PresenceTracker.cs:9-27 | a successful connect adds one to the count and a successful disconnect takes one away. The key's status follows |
| Presence.ConnectThenDisconnect | src/server/LearnKazakh.API/PresenceTracker.cs:9-17 | connecting a new key and disconnecting it restores the tracker |
| Presence.ConnectIdempotent | src/server/LearnKazakh.API/PresenceTracker.cs:9-12 | a second connect of the same key reports false and changes nothing |
| Presence.GetSnapshot | src/server/LearnKazakh.API/PresenceTracker.cs:29-32 | each online key exactly once |
| PresenceHubs.QueryValues | src/server/LearnKazakh.API/PresenceHub.cs:14 | an absent query parameter has no values |
| PresenceHubs.PresenceKey | src/server/LearnKazakh.API/PresenceHub.cs:11-14 | the connection id without an HTTP context, otherwise the "u" query value |
| PresenceHubs.MissingUserKeyIsEmpty | src/server/LearnKazakh.API/PresenceHub.cs:14 | clients without a "u" parameter all share the empty key |
| PresenceHubs.OnConnected | src/server/LearnKazakh.API/PresenceHub.cs:9-22 | the key is tracked, and the count is broadcast exactly when the key was new |
| PresenceHubs.OnDisconnected | src/server/LearnKazakh.API/PresenceHub.cs:24-37 | the key is untracked, and the count is broadcast exactly when the key was there |
| PresenceHubs.BroadcastMatchesTracker | src/server/LearnKazakh.API/PresenceHub.cs:16-33 | each broadcast carries the tracker's count at that moment |
| PresenceHubs.SharedKeyCountsOnce | src/server/LearnKazakh.API/PresenceHub.cs:9-37 | two tabs with one key count once, and the first tab to close takes the key offline |
| Seeding.SeedIfEmpty | src/server/LearnKazakh.Application/Seed/DataContextSeed.cs:32-39 | a table gets the seed rows exactly when it is empty, and is otherwise untouched |
| Seeding.SeedIfEmptyIdempotent | src/server/LearnKazakh.Application/Seed/DataContextSeed.cs:32-39 | seeding twice is seeding once, and a seeded table is non-empty |
| Seeding.AdminPassword | src/server/LearnKazakh.Application/Seed/DataContextSeed.cs:43 | the delegate's password, or the built-in default without a delegate |
| Seeding.StartupNeverUsesDefault | src/server/LearnKazakh.API/Program.cs:119 | at start-up the password is the configured one, or the empty string, never the default |
| Seeding.GetAdmin | src/server/LearnKazakh.Application/Seed/DataContextSeed.cs:41-68 | the administrator with the hashed password, and one role and one link each for "Admin" and "Instructor" |
| Seeding.AdminHoldsBothRoles | src/server/LearnKazakh.Application/Seed/DataContextSeed.cs:56-65 | the administrator's role names are "Admin" and "Instructor" |
| Seeding.GetCategories | src/server/LearnKazakh.Application/Seed/DataContextSeed.cs:70-81 | four categories with the fixed GUIDs and each name's icon, created by "System" at the seeding instant, which the entity's `CreatedAt = DateTime.UtcNow` initialiser supplies |
| Seeding.CreateSections | src/server/LearnKazakh.Application/Seed/DataContextSeed.cs:107-117 | one section per title, with its id and title, in the category, stamped by the system |
| Seeding.SectionOrdersCount | src/server/LearnKazakh.Application/Seed/DataContextSeed.cs:107-117 | the section orders are 1, 2, 3, … in title order |
| Seeding.GetSections | src/server/LearnKazakh.Application/Seed/DataContextSeed.cs:83-105 | thirty-six sections |
| Seeding.SectionsPerCategory | src/server/LearnKazakh.Application/Seed/DataContextSeed.cs:83-105 | each category's sections are exactly its block of titles, in order |
| Seeding.SeededSectionCounts | src/server/LearnKazakh.Application/Seed/DataContextSeed.cs:83-105 | the categories get 4, 4, 20 and 8 sections |
| Seeding.GetVocabularies | src/server/LearnKazakh.Application/Seed/DataContextSeed.cs:173-244 | fifty words, the i-th with the GUID of key i |
| Seeding.GetVocabularyExamples | src/server/LearnKazakh.Application/Seed/DataContextSeed.cs:246-290 | one example per listed key, linked to that key's GUID |
| Seeding.ExampleKeysPresent | src/server/LearnKazakh.Application/Seed/DataContextSeed.cs:119-171 | every key the examples look up is one of the fifty dictionary keys |
| Seeding.ExamplesReferenceSeededVocabulary | src/server/LearnKazakh.Application/Seed/DataContextSeed.cs:246-290 | every seeded example references a seeded word |
| Seeding.SeedUsers | src/server/LearnKazakh.Persistence/Configurations/RoleConfiguration.cs:19-22 | a non-empty user table is untouched. Otherwise the administrator, its roles and links are added, and the save fails exactly when one of those role names exists |
| Seeding.SeedAsync | src/server/LearnKazakh.Application/Seed/DataContextSeed.cs:21-30 | users first, then each catalogue table seeded only if empty. The run fails exactly when the users step fails (so a non-empty user table always seeds); on success users, roles and links are those of the users step and contents are untouched |
| Seeding.SeedAsyncIdempotent | src/server/LearnKazakh.Application/Seed/DataContextSeed.cs:21-30 | running the seed again after it succeeded changes nothing |

## Behaviour as written

The model follows the code where the code does something its names or comments suggest it should
not. It does not correct any of these, and the members named below show each one.

- `RefreshToken.IsActive` is `IsExpired && !IsRevoked` (RefreshToken.cs:19). An unexpired token is
  never active, so it cannot be refreshed. Logging out does not revoke it, and cleanup removes exactly
  the expired, unrevoked tokens. See `RefreshTokens.ActiveIsOppositeOfIntended`,
  `AuthEndpoints.LoginTokenRefreshableOnlyAfterExpiry` and
  `RefreshTokenService.CleanupKeepsRevokedAndUnexpired`.
- Each registration creates a new role named "User" (AuthController.cs:51). The unique index on
  role names makes every registration after the first throw (`AuthEndpoints.SecondRegistrationThrows`).
- The refresh-token lifetime is read from `Authentication:Jwt:RefreshTokenExpirationDays`, but
  `JwtSettings` names it `RefreshTokenExpiryDays` (`RefreshTokenService.SettingsKeyIgnored`).
- Tokens are signed with the key's UTF-8 bytes and validated with its ASCII bytes, so a key with a
  non-ASCII character yields tokens that never validate (`Jwt.MintedTokenValidIffAsciiKey`).
- Responses report an expiry thirty minutes ahead whatever the configured access-token lifetime
  (`AuthEndpoints.ReportedExpiryIgnoresSettings`).
- Registration ignores the requested phone number (`AuthEndpoints.NewUser`).
- `CreateContent` returns the envelope rather than an action result, so it answers 200 even when the
  section is missing or unknown (`ContentEndpoints.CreateContent`).
- Content cannot be detached from its section (`ContentEndpoints.UpdateNeverDetaches`), although
  an example can be detached from its word (`VocabularyExampleEndpoints.UpdateDetaches`).
- All presence clients without a "u" query parameter share one key
  (`PresenceHubs.MissingUserKeyIsEmpty`).
- `RotateRefreshTokenAsync` adds the successor a second time (RefreshTokenService.cs:80) after
  `GenerateRefreshTokenAsync` has saved it. The tracked row goes back to the Added state, so the save at
  line 81 collides with the primary key and the unique token index and is rolled back, link to the
  successor included. `RefreshToken` has no `catch`, so every refresh that passes its checks ends in
  that exception, after the old token has been revoked and the successor stored
  (`RefreshTokenService.Rotate`, `AuthEndpoints.Refresh`, `AuthEndpoints.RefreshNeverAccepted`).
  `RefreshTokenService.RotateIntended` and `AuthEndpoints.RefreshIntended` give the rotation without
  the second add for comparison, and `RefreshTokenService.RotateLosesOnlyTheLink` relates the two.
- `CreateSection` (SectionController.cs:142) and `CreateRole` (RoleController.cs:139) call
  `CreatedAtAction` without route values, aimed at actions whose route needs an `{id}`. Link
  generation fails after the row is saved, so the client gets a server error instead of 201
  (`SectionEndpoints.CreateSection`, `RoleEndpoints.CreateRole`).
- Start-up passes a password delegate that returns "" when no password is configured, so the built-in
  default password is never used (`Seeding.StartupNeverUsesDefault`).
- `UpdateCategory` answers with zero sections and contents whatever the category holds
  (`CategoryEndpoints.UpdateReportsNoSections`).

## Left out

- Password hashing and verification (PasswordService.cs) are parameters: `hash` and `verify`.
- JWT serialisation, Base64url and the HMAC-SHA512 signature are idealised. A token records the key
  bytes it was signed with, and the handler accepts it when those bytes equal the validation key and
  issuer and audience match. Signature forgery and malformed token strings are not modelled.
- The handler's own rules are not modelled: the minimum HS512 key size, its treatment of empty
  issuer or audience, and its other checks.
- `JwtService.GenerateRefreshToken` (JwtService.cs:60-67) and the private generator of
  RefreshTokenService.cs:100-104 draw random bytes. The token value is a parameter assumed not to be
  in the store.
- `Guid.NewGuid()` and database-generated keys are parameters assumed fresh.
- `DateTime.UtcNow` is a parameter; `DateTime` range overflow in `AddDays`/`AddMinutes` is not modelled.
- Jwt.GenerateAccessToken: `AccessTokenExpiryMinutes` is a `double` in the source and an integer
  number of minutes here.
- Encodings.EncodeChar: Dafny characters are Unicode scalar values, so the source's UTF-16 surrogate
  pairs and lone surrogates are not modelled.
- Concurrency: each request, each hub call and each tracker operation is one atomic step. Races
  between requests and the concurrent dictionary's interleavings are not modelled.
- EF Core query translation is not modelled. The model evaluates `string.Equals(…,
  StringComparison.CurrentCultureIgnoreCase)` in the uniqueness guards as if it ran, through an abstract
  case-folding function. `Include`, tracking and `AsNoTracking` leave no trace.
- CategoryEndpoints.CreateCategory, CategoryEndpoints.UpdateCategory, RoleEndpoints.CreateRole,
  RoleEndpoints.UpdateRole, VocabularyEndpoints.CreateVocabulary and VocabularyEndpoints.UpdateVocabulary:
  EF Core has no SQL translation for that `string.Equals` overload. So the uniqueness queries at
  CategoryController.cs:123 and :190, RoleController.cs:113 and :171 and VocabularyController.cs:160
  and :233 throw when they run, and their `catch` answers 400 "… creation failed" or "… update
  failed". That happens on every create and role update that passes the blank check, and on every
  category or word rename. The success paths these members model are those of the intended query.
- RefreshTokenService.Cleanup, RefreshTokenService.CleanupLeavesNoneActive and
  RefreshTokenService.CleanupKeepsRevokedAndUnexpired: the filter at
  RefreshTokenService.cs:89 is on `IsActive`, a computed property with no column, which EF Core cannot
  translate either, so the query throws when it runs. The model gives the filter's in-memory meaning.
- MVC model binding and validation are not modelled. Every controller carries `[ApiController]`, so a
  missing request body gets the framework's automatic 400 before the action runs. The body check
  `createContentDto == null` at ContentController.cs:125 is therefore unreachable and has no
  counterpart here. With nullable reference types enabled (the project files are not part of this
  model), a blank non-nullable string property such as `CreateContentDto.ContentText` is also refused
  by that automatic 400, before the actions' blank checks, which are modelled as written.
- Database string order is modelled as ordinal order of character codes; collations are not modelled.
- Paging.Page, Paging.SortedPage, VocabularyEndpoints.GetVocabulary and RoleEndpoints.GetRoles require
  at most `int.MaxValue` rows, because `CountAsync` returns an `int` and throws on a larger table.
  That overflow path is not modelled.
- Column lengths and `IsRequired` constraints from the entity configurations are not modelled.
- The `try`/`catch` branches that only turn an unexpected exception into a 400 reply are not
  modelled. The exceptions that the guards in this model do predict are modelled: the foreign-key
  failures on delete and the unique-index failure on registration.
- The global soft-delete query filter of LearnKazakhContext.cs:29-35 skips `User`, the only
  soft-deletable type, so it filters nothing and has no counterpart here; soft-deleted users stay
  visible to lookups, as in the model. Audit stamping follows EfRepository, the only place that
  writes the audit columns.
- Seeding.GetVocabularies, Seeding.GetVocabularyExamples and Seeding.GetCategories: the literal
  words, sentences, GUID values and SVG icons are parameters (`entry`, `sentence`, `guidOf`, `icon`).
  The model proves the structure: counts, keys, links and order.
- Seeding.SeedAsync: save failures other than the role-name clash are not modelled, for example
  foreign-key errors when only some catalogue tables are empty.
- The hosting code (Program.cs, except the seed's password delegate), the health check, the client
  and the migrations are not part of this model.
