# my-newspaper article service, modelled in Dafny

my-newspaper is a small reactive web service that keeps newspaper articles in
a document store. This project models its core:

- **The article aggregate** (`Article.java`).
  - Built from a create request by a factory.
  - Overwritten by an update and soft-deleted by `delete()`.
  - Authors and keywords are kept in a canonical form: each label of the
    request's set is upper-cased and the result sorted (`SORT_AND_CAPITALIZE`).
- **The request shapes** and their validation constraints.
- **The two domain failures** and their messages: `ArticleNotFoundException`
  and `OutdatedUpdateArticleException`.
- **The outward DTO.**
- **The optional-clause builder** that composes search predicates.
- **The service** (`ArticleService.java`):
  - create, get, list and search;
  - a versioned update, rejected unless the requested version is above the
    stored one;
  - a soft delete.

Modules, one file each:

- `common.dfy`: `Option`, ids, dates (days since the epoch) and instants.
- `strings.dfy`: ASCII `toUpperCase` and `equalsIgnoreCase`, and the
  lexicographic order `String.compareTo` defines, proved a total order.
  Characters are Unicode code points (see "Left out" for what that changes).
  Also an insertion sort by that order, proved to produce the sorted
  permutation, and a walk over a set that visits each element once.
- `requests.dfy`: create, update and search requests, with their bean
  validation constraints as `Valid()` predicates.
- `article.dfy`: the persisted document `ArticleDocument`, and the canonical
  form of a label set with its properties. Also the pure factory, update and
  delete functions, and the mutable `Article` class. The class's `Update` and
  `Delete` methods change its fields in place, and each is proved equal to the
  pure function.
- `errors.dfy`: `ArticleError` and its messages, and `Long.toString` for the
  version in the message, proved invertible for the non-negative versions
  the store holds.
- `dto.dfy`: `ArticleDto.fromArticle`.
- `query.dfy`: the search predicates and their meaning on a document. Also the
  immutable builder `OptionalBooleanExpressionBuilder` and the conjunction
  chains it builds.
- `store.dfy`: the document store as a map from id to document. It has pure
  reads and an `ArticleStore` class whose `Insert` and `Save` assign ids,
  timestamps and versions.
- `service.dfy`: each service operation as a function from the stored
  documents to an outcome `Step(result, docs)`. An `ArticleService` class
  performs the operation on a live store with `Article` objects, proved equal
  to that outcome. Lemmas state what the operations promise, and the searches
  of the end-to-end tests are proved over any store shaped like their fixture
  and over the fixture's own articles.

Where the repository's parts disagree, the model follows the service code:

- **Search request form.** `SearchArticleRequest` is written with date fields
  fixed to "ten days ago" and "today", and no constructor that sets them. The
  service tests build it with four arguments, any of them null. The model takes
  the four-optional form the service and its tests use.
  `Requests.SearchWithDefaults` gives the defaults the code's initialisers
  describe, and `Service.DefaultSearchWindow` says what that window selects.
- **Factory name.** The service calls `Article.fromCreateArticleRequest`, but
  the entity's factory is named `fromUpsertArticleRequest`. Both are the same
  factory here (`Domain.NewArticle`, `Domain.Article.FromUpsertArticleRequest`).
- **Repository.** The service talks to a repository with `insert`,
  `findByIdAndDeletedFalse`, `save`, `findAllByDeletedFalse` and
  `findAll(predicate)`. `ArticleRepository.java` has other methods, so the
  store is modelled from the service's calls and from the entity's
  `@CreatedDate`, `@LastModifiedDate` and `@Version` fields.
- **Label case.** The end-to-end create test expects keywords `["Health"]` and
  authors `["Cenk Akin", "Pulitzer"]`. `SORT_AND_CAPITALIZE` upper-cases every
  letter, and the model follows it (`Domain.CanonicalFormOfTheSampleKeywords`,
  `Domain.CanonicalFormOfTheSampleAuthors`).

## Model

| member | source | states |
|---|---|---|
| Strings.Upper | src/main/java/com/github/cenkakin/mynewspaper/domain/Article.java:76 | `toUpperCase` keeps the length, and each character is the upper-case of the one at the same place; no lower-case letter remains |
| Strings.UpperFixesUpper | src/main/java/com/github/cenkakin/mynewspaper/domain/Article.java:76 | upper-casing is idempotent on upper-case text |
| Strings.EqualsIgnoreCaseIff | src/main/java/com/github/cenkakin/mynewspaper/service/ArticleService.java:70-71 | `equalsIgnoreCase` holds exactly when the upper-cased forms are equal |
| Strings.LeIsTotalOrder | src/main/java/com/github/cenkakin/mynewspaper/domain/Article.java:76 | the natural string order `sorted()` uses is reflexive, total, antisymmetric and transitive |
| Strings.LeReflexive | src/main/java/com/github/cenkakin/mynewspaper/domain/Article.java:76 | every string is ordered before or equal to itself |
| Strings.LeTotal | src/main/java/com/github/cenkakin/mynewspaper/domain/Article.java:76 | any two strings are comparable |
| Strings.LeAntisymmetric | src/main/java/com/github/cenkakin/mynewspaper/domain/Article.java:76 | two strings each ordered before the other are equal |
| Strings.LeTransitive | src/main/java/com/github/cenkakin/mynewspaper/domain/Article.java:76 | the order is transitive |
| Strings.InsertSorted | src/main/java/com/github/cenkakin/mynewspaper/domain/Article.java:76 | inserting into a sorted list keeps it sorted and adds exactly the new element |
| Strings.SortSorted | src/main/java/com/github/cenkakin/mynewspaper/domain/Article.java:76 | `sorted()` yields a sorted permutation of its input |
| Strings.SortedUnique | src/main/java/com/github/cenkakin/mynewspaper/domain/Article.java:76 | two sorted arrangements of the same elements are the same list, so the sorted result does not depend on the input order |
| Strings.LeastExists | src/main/java/com/github/cenkakin/mynewspaper/domain/Article.java:76 | every non-empty set of strings has a least element |
| Strings.LeastUnique | src/main/java/com/github/cenkakin/mynewspaper/domain/Article.java:76 | a set has at most one least element |
| Strings.EnumerateWalks | src/main/java/com/github/cenkakin/mynewspaper/domain/Article.java:76 | `set.stream()` visits every element of the set exactly once and nothing else |
| Strings.MapUpper | src/main/java/com/github/cenkakin/mynewspaper/domain/Article.java:76 | `map(String::toUpperCase)` keeps the length and upper-cases the element at each place |
| Strings.MapUpperCounts | src/main/java/com/github/cenkakin/mynewspaper/domain/Article.java:76 | after upper-casing a walk over the set, each label occurs as often as the set has members that upper-case to it |
| Requests.SearchWithDefaults | src/main/java/com/github/cenkakin/mynewspaper/request/SearchArticleRequest.java:13-19 | the default window runs from ten days before today up to today, and the keyword and author are the given ones |
| Requests.CreateArticleRequest.Valid | src/main/java/com/github/cenkakin/mynewspaper/request/CreateArticleRequest.java:18-34 | the create request's bean-validation annotations: header not blank and at most 250 characters, short description and text not blank, a publish date, at least one author; its meaning on the test request is stated by `Requests.CreateRequestConstraints` |
| Requests.CreateRequestConstraints | src/main/java/com/github/cenkakin/mynewspaper/request/CreateArticleRequest.java:18-34 | the sample request is valid; dropping header, short description, text, publish date or authors, emptying the authors, a blank header or a 251-character header makes it invalid; an empty keyword set does not |
| Requests.UpdateArticleRequest.Valid | src/main/java/com/github/cenkakin/mynewspaper/request/UpdateArticleRequest.java:18-37 | the update request's annotations: the create request's, plus a version; its meaning on the test request is stated by `Requests.UpdateRequestConstraints` |
| Requests.UpdateRequestConstraints | src/main/java/com/github/cenkakin/mynewspaper/request/UpdateArticleRequest.java:18-37 | the update request of the service tests is valid; dropping the version, header, short description, text, publish date or authors, emptying the authors, a blank header or a 251-character header makes it invalid; an empty keyword set does not |
| Domain.SortAndCapitalize | src/main/java/com/github/cenkakin/mynewspaper/domain/Article.java:76 | `SORT_AND_CAPITALIZE`: upper-case each label of the set, then sort; what the result is stated by `Domain.CanonicalFormShape`, `Domain.CanonicalFormCounts`, `Domain.CanonicalFormMembership` and `Domain.CanonicalFormIndependentOfOrder` |
| Domain.CanonicalFormShape | src/main/java/com/github/cenkakin/mynewspaper/domain/Article.java:76 | the canonical form of a label set is sorted, upper-case throughout and as long as the set |
| Domain.CanonicalFormCounts | src/main/java/com/github/cenkakin/mynewspaper/domain/Article.java:76 | the canonical form holds each label as often as the set has labels that upper-case to it |
| Domain.CanonicalFormMembership | src/main/java/com/github/cenkakin/mynewspaper/domain/Article.java:76 | a label occurs in the canonical form iff some label of the set upper-cases to it |
| Domain.CanonicalFormIndependentOfOrder | src/main/java/com/github/cenkakin/mynewspaper/domain/Article.java:76 | whatever order the set is streamed in, upper-casing and sorting gives the same list |
| Domain.CanonicalFormKeepsCaseVariants | src/main/java/com/github/cenkakin/mynewspaper/domain/Article.java:76 | labels differing only in case are not merged: they all survive as the same upper-case label |
| Domain.CanonicalFormOfAAndUpperA | src/main/java/com/github/cenkakin/mynewspaper/domain/Article.java:76 | `{"a", "A"}` becomes `["A", "A"]` |
| Domain.CanonicalFormOfTheSampleKeywords | src/main/java/com/github/cenkakin/mynewspaper/domain/Article.java:76 | `{"health"}` becomes `["HEALTH"]` |
| Domain.CanonicalFormOfTheSampleAuthors | src/main/java/com/github/cenkakin/mynewspaper/domain/Article.java:76 | `{"Cenk Akin", "Pulitzer"}` becomes `["CENK AKIN", "PULITZER"]` |
| Domain.NewArticle | src/main/java/com/github/cenkakin/mynewspaper/domain/Article.java:66-74 | a new article is not deleted, has no id, timestamps or version, holds the request's content with canonical authors and keywords, and satisfies the entity's own constraints |
| Domain.Updated | src/main/java/com/github/cenkakin/mynewspaper/domain/Article.java:78-88 | an update takes the request's six content fields (labels canonicalised) and keeps id, deletion mark, timestamps and version |
| Domain.UpdatedContentValid | src/main/java/com/github/cenkakin/mynewspaper/domain/Article.java:37-55 | after an update with a valid request the entity's own constraints hold, whatever it held before |
| Domain.Deleted | src/main/java/com/github/cenkakin/mynewspaper/domain/Article.java:90-93 | a delete sets the deletion mark and changes nothing else |
| Domain.UpdateOverwritesContent | src/main/java/com/github/cenkakin/mynewspaper/domain/Article.java:78-88 | no old content survives an update, and the request's version plays no part in it |
| Domain.UpdateIdempotent | src/main/java/com/github/cenkakin/mynewspaper/domain/Article.java:78-88 | applying the same update twice equals applying it once |
| Domain.DeleteIdempotent | src/main/java/com/github/cenkakin/mynewspaper/domain/Article.java:90-93 | deleting twice equals deleting once, and an update does not undo a deletion |
| Domain.Article.FromUpsertArticleRequest | src/main/java/com/github/cenkakin/mynewspaper/domain/Article.java:95-105 | the factory object holds exactly the new article `NewArticle` describes |
| Domain.Article.Load | src/main/java/com/github/cenkakin/mynewspaper/domain/Article.java:34-64 | the object materialised from a stored document holds exactly that document |
| Domain.Article.Update | src/main/java/com/github/cenkakin/mynewspaper/domain/Article.java:78-88 | the object's fields are changed in place to the updated article, and the same object is returned |
| Domain.Article.Delete | src/main/java/com/github/cenkakin/mynewspaper/domain/Article.java:90-93 | the object is marked deleted in place, and the same object is returned |
| Errors.ArticleError.Message | src/main/java/com/github/cenkakin/mynewspaper/exception/ArticleNotFoundException.java:8-10 | not found: the fixed text followed by the id; outdated: the fixed text followed by the stored version |
| Errors.LongToString | src/main/java/com/github/cenkakin/mynewspaper/exception/OutdatedUpdateArticleException.java:8-10 | the stored version as text: never empty, and it starts with a minus sign exactly when the version is negative |
| Errors.NatToString | src/main/java/com/github/cenkakin/mynewspaper/exception/OutdatedUpdateArticleException.java:8-10 | the version is written as a non-empty string of decimal digits with no leading zero |
| Errors.NatToStringRoundTrip | src/main/java/com/github/cenkakin/mynewspaper/exception/OutdatedUpdateArticleException.java:8-10 | reading the written digits back gives the version |
| Errors.MessageNamesTheCause | src/main/java/com/github/cenkakin/mynewspaper/exception/OutdatedUpdateArticleException.java:8-10 | the id can be read back from a not-found message, and the stored version from an outdated message |
| Errors.MessagesOfTheTests | src/test/java/com/github/cenkakin/mynewspaper/service/ArticleServiceTest.java:151-182 | the messages for id `1234` and for versions 1 and 2 are exactly those the service tests expect |
| Dto.FromArticle | src/main/java/com/github/cenkakin/mynewspaper/dto/ArticleDto.java:37-47 | `fromArticle` copies the eight visible fields; what it keeps and drops is stated by `Dto.FromArticleKeepsExactlyTheVisibleFields` |
| Dto.FromArticleKeepsExactlyTheVisibleFields | src/main/java/com/github/cenkakin/mynewspaper/dto/ArticleDto.java:37-47 | two articles have the same DTO iff they agree on id, header, short description, text, publish date, authors, keywords and version; deletion mark and timestamps are dropped |
| Query.AnyEqualsIgnoreCaseOnUpper | src/main/java/com/github/cenkakin/mynewspaper/service/ArticleService.java:70-71 | against an upper-case list, `any().equalsIgnoreCase(s)` is membership of the upper-cased `s` |
| Query.CaseInsensitiveMatchOnCanonicalForm | src/main/java/com/github/cenkakin/mynewspaper/service/ArticleService.java:70-71 | a case-insensitive clause over a canonical list holds iff a label of the original set equals the term ignoring case |
| Query.Builder.Build | src/main/java/com/github/cenkakin/mynewspaper/util/OptionalBooleanExpressionBuilder.java:22-24 | `build()` returns the predicate built so far; its meaning after each step is stated by `Query.NotNullAndEval` and `Query.ChainEval` |
| Query.Conjuncts | src/main/java/com/github/cenkakin/mynewspaper/util/OptionalBooleanExpressionBuilder.java:16-24 | the conjuncts of a built predicate: never empty, the first is the initial predicate (no conjunction itself), and the last is the clause conjoined most recently |
| Query.Builder.NotNullAnd | src/main/java/com/github/cenkakin/mynewspaper/util/OptionalBooleanExpressionBuilder.java:16-20 | an absent value returns the receiver itself; a present one returns a builder of the receiver's predicate and the clause |
| Query.NotNullAndEval | src/main/java/com/github/cenkakin/mynewspaper/util/OptionalBooleanExpressionBuilder.java:16-24 | the built predicate holds iff the receiver's does and, when the value is present, the clause does |
| Query.AllHoldAppend | src/main/java/com/github/cenkakin/mynewspaper/util/OptionalBooleanExpressionBuilder.java:16-20 | all of a list and one more hold iff all of the list hold and the extra one holds |
| Query.EvalConjuncts | src/main/java/com/github/cenkakin/mynewspaper/util/OptionalBooleanExpressionBuilder.java:16-24 | a conjunction holds iff each of its conjuncts holds |
| Query.ChainConjuncts | src/main/java/com/github/cenkakin/mynewspaper/util/OptionalBooleanExpressionBuilder.java:12-24 | a chain of `notNullAnd` calls appends the present clauses after the initial predicate, in call order |
| Query.ChainEval | src/main/java/com/github/cenkakin/mynewspaper/util/OptionalBooleanExpressionBuilder.java:12-24 | a chained predicate holds iff the initial predicate and every present clause hold |
| Query.ChainOrderIrrelevant | src/main/java/com/github/cenkakin/mynewspaper/util/OptionalBooleanExpressionBuilder.java:12-24 | reordering the optional clauses does not change which articles the built predicate accepts |
| Store.WriteKeepsStoreValid | src/main/java/com/github/cenkakin/mynewspaper/domain/Article.java:34-35 | filing a document under its own id with a non-negative version keeps every document filed under its own id |
| Store.Inserted | src/main/java/com/github/cenkakin/mynewspaper/domain/Article.java:57-64 | a first write assigns the id, both timestamps and version 0, and keeps everything else |
| Store.Saved | src/main/java/com/github/cenkakin/mynewspaper/domain/Article.java:60-64 | a later write sets the version one past the stored one and the modification time to now, and writes the rest as given |
| Store.FindActive | src/main/java/com/github/cenkakin/mynewspaper/service/ArticleService.java:33 | a document is found iff it is filed under the id and not deleted, and then it is that document |
| Store.FindAllActive | src/main/java/com/github/cenkakin/mynewspaper/service/ArticleService.java:59 | exactly the documents not marked deleted, unchanged |
| Store.FindAll | src/main/java/com/github/cenkakin/mynewspaper/service/ArticleService.java:64 | exactly the documents the predicate accepts, unchanged |
| Store.ArticleStore.Insert | src/main/java/com/github/cenkakin/mynewspaper/service/ArticleService.java:28 | the stored document is the inserted form, filed under the fresh id, and no other entry changes |
| Store.ArticleStore.Save | src/main/java/com/github/cenkakin/mynewspaper/service/ArticleService.java:44 | the saved document is the next revision, filed under its id, and no other entry changes |
| Store.SaveAdvancesVersion | src/main/java/com/github/cenkakin/mynewspaper/domain/Article.java:63-64 | a save keeps the store valid and its ids, lowers no version, and moves the saved one up by exactly one |
| Service.CreateSearchQuery | src/main/java/com/github/cenkakin/mynewspaper/service/ArticleService.java:67-75 | the search predicate accepts an article iff it is not deleted, has the author and keyword ignoring case when given, and was published within the given dates, both bounds included |
| Service.SearchQueryClauseOrder | src/main/java/com/github/cenkakin/mynewspaper/service/ArticleService.java:67-75 | the query's conjuncts are "not deleted" then author, keyword, from-date and to-date when present; any other clause order selects the same articles |
| Service.SearchQueryIsChain | src/main/java/com/github/cenkakin/mynewspaper/service/ArticleService.java:67-75 | the query equals the builder chain over the request's optional clauses |
| Service.SearchQueriesOfTheTests | src/test/java/com/github/cenkakin/mynewspaper/service/ArticleServiceTest.java:262-341 | the five queries of the service tests have exactly the expected clauses, with the from-date shifted to 2018-12-31 and the to-date to 2020-01-26 |
| Service.GetArticle | src/main/java/com/github/cenkakin/mynewspaper/service/ArticleService.java:32-35 | the live article under the id, or `NotFound(id)` exactly when it is absent or deleted |
| Service.GetArticles | src/main/java/com/github/cenkakin/mynewspaper/service/ArticleService.java:58-60 | exactly the articles not marked deleted |
| Service.SearchArticles | src/main/java/com/github/cenkakin/mynewspaper/service/ArticleService.java:62-65 | exactly the stored articles that match the request, none of them deleted |
| Service.SearchWithinListing | src/main/java/com/github/cenkakin/mynewspaper/service/ArticleService.java:58-75 | a search without criteria lists exactly what the listing lists, and any search returns a subset of it |
| Service.DefaultSearchWindow | src/main/java/com/github/cenkakin/mynewspaper/request/SearchArticleRequest.java:17-19 | the default dates select live articles published from ten days before today up to today, inclusive |
| Service.SearchFindsCreatedLabels | src/main/java/com/github/cenkakin/mynewspaper/service/ArticleService.java:70-71 | a search by author or keyword finds a created article iff one of its given labels equals the term ignoring case |
| Service.CreateOutcome | src/main/java/com/github/cenkakin/mynewspaper/service/ArticleService.java:27-30 | a create keeps the store valid |
| Service.UpdateOutcome | src/main/java/com/github/cenkakin/mynewspaper/service/ArticleService.java:37-48 | an update keeps the store valid |
| Service.DeleteOutcome | src/main/java/com/github/cenkakin/mynewspaper/service/ArticleService.java:50-56 | a delete keeps the store valid |
| Service.CreateThenGet | src/main/java/com/github/cenkakin/mynewspaper/service/ArticleService.java:27-35 | the created article is the factory's article as inserted, and can be read under its new id; it holds the request's header, short description, text and publish date, canonical labels, version 0 (also in the DTO) and creation and modification time now; the rest of the store is unchanged |
| Service.UpdateOutcomes | src/main/java/com/github/cenkakin/mynewspaper/service/ArticleService.java:37-48 | `NotFound` iff absent or deleted; `Outdated` with the stored version iff live with a stored version at least the requested one; success otherwise, saving the updated article; a failure changes nothing |
| Service.UpdateThenGet | src/main/java/com/github/cenkakin/mynewspaper/service/ArticleService.java:37-48 | after a successful update the saved article is the updated one as saved, and reads back with the request's header, short description, text, publish date and canonical labels, its id, creation time and live state, and a version above the old one and at most the requested one |
| Service.UpdateVersionExamples | src/test/java/com/github/cenkakin/mynewspaper/service/ArticleServiceTest.java:125-218 | stored 1 or 2 against requested 1 is outdated with that version; stored 1 against requested 2 succeeds at version 2 |
| Service.DeleteThenGone | src/main/java/com/github/cenkakin/mynewspaper/service/ArticleService.java:50-56 | a delete of a live article keeps it, marked deleted and one version up, and it can no longer be read, listed, updated or deleted; a delete of anything else is `NotFound` and changes nothing |
| Service.UpdateKeepsHistory | src/main/java/com/github/cenkakin/mynewspaper/service/ArticleService.java:37-48 | an update keeps every id, touches only the named article, lowers no version and keeps every creation time |
| Service.DeleteKeepsHistory | src/main/java/com/github/cenkakin/mynewspaper/service/ArticleService.java:50-56 | a delete keeps every id, touches only the named article, lowers no version and keeps every creation time |
| Service.FixtureArticle | src/test/java/com/github/cenkakin/mynewspaper/controller/ArticleControllerE2ETest.java:485-498 | a fixture article is live, published on its date, with canonical labels |
| Service.CreatedLabelFound | src/main/java/com/github/cenkakin/mynewspaper/service/ArticleService.java:70-71 | a label given at creation is found by a search for it |
| Service.FixtureFirstArticle | src/test/java/com/github/cenkakin/mynewspaper/controller/ArticleControllerE2ETest.java:486-487 | the first fixture article is live, dated 2019-09-01, by author1 and not author3, about keyword1 |
| Service.FixtureSecondArticle | src/test/java/com/github/cenkakin/mynewspaper/controller/ArticleControllerE2ETest.java:488-489 | the second fixture article is live, dated 2020-01-01, by author1 and author3, about keyword1 |
| Service.Author3NotAmong | src/test/java/com/github/cenkakin/mynewspaper/controller/ArticleControllerE2ETest.java:486-487 | author3 matches no label of the canonical form of `{author1, author2}` |
| Service.EndToEndSearches | src/test/java/com/github/cenkakin/mynewspaper/controller/ArticleControllerE2ETest.java:377-453 | over a store of two articles like the fixture's, the four searches return the second article, the second, both and both |
| Service.FixtureEndToEndSearches | src/test/java/com/github/cenkakin/mynewspaper/controller/ArticleControllerE2ETest.java:377-498 | over the fixture's own two articles, the four searches return the second article, the second, both and both |
| Service.EndToEndSearchesOverTwoArticles | src/test/java/com/github/cenkakin/mynewspaper/controller/ArticleControllerE2ETest.java:377-453 | the four searches over the store filing two given articles with the fixture's attributes under "1" and "2" |
| Service.SearchOverTwo | src/main/java/com/github/cenkakin/mynewspaper/service/ArticleService.java:62-65 | over a store of two documents, a search returns exactly those of the two that match |
| Service.ArticleService.CreateArticle | src/main/java/com/github/cenkakin/mynewspaper/service/ArticleService.java:27-30 | building the article object and inserting it produces exactly the create outcome and keeps the store valid |
| Service.ArticleService.UpdateArticle | src/main/java/com/github/cenkakin/mynewspaper/service/ArticleService.java:37-48 | reading, checking the version, updating the article object in place and saving produces exactly the update outcome |
| Service.ArticleService.DeleteArticle | src/main/java/com/github/cenkakin/mynewspaper/service/ArticleService.java:50-56 | reading, marking the article object deleted and saving produces exactly the delete outcome |

## Left out

- The HTTP controller, request binding, bean validation and its error responses are not modelled. The service's operations require `Valid()` requests, which is what validation guarantees before the service is reached.
- Reactor's `Mono`/`Flux`, logging, and the asynchronous order of events are left out. Errors are returned as `Result` values instead of signalled.
- Reads return a map from id to document, so the order in which the store streams articles is not modelled.
- The store's own id generation and clock are left out. The fresh id and the current instant are parameters, and the fresh id is assumed unused.
- The store's optimistic-locking check on save is left out, along with any other concurrent writer. Reading and saving are one atomic step here, so no save is ever rejected for a stale version.
- QueryDSL rendering of a predicate to text (`toString`) and to a Mongo query is left out. A predicate is a datatype with a meaning on documents, and the test strings are matched clause by clause.
- Versions are unbounded integers, so `Long` overflow is not modelled.
- Case mapping covers ASCII letters only, not Unicode or locale rules.
- Strings are sequences of Unicode code points, while Java's are UTF-16 code units. Above U+FFFF the two differ: the `sorted()` order of labels can differ from Java's, and `@Size(max = 250)` counts a character twice in Java but once in `Requests.HeaderOk`.
- A null keyword set or a null version would make the code throw a `NullPointerException`. Those crash paths are not modelled: keyword sets are always present, and the update requires a version.
- `LocalDate.now()` in the search request's defaults is a parameter of `Requests.SearchWithDefaults`.
- Service.CreateOutcome: states only that the store stays valid. The article a create returns and stores, `Inserted(NewArticle(req), freshId, now)`, is stated by `Service.CreateThenGet`.
- Service.UpdateOutcome: states only that the store stays valid. Its outcomes are in `Service.UpdateOutcomes`, `Service.UpdateThenGet` and `Service.UpdateKeepsHistory`.
- Service.DeleteOutcome: states only that the store stays valid. Its outcomes are in `Service.DeleteThenGone` and `Service.DeleteKeepsHistory`.
- `ArticleRepository.java` and `ArticleRepository2.java` are not part of this model, apart from the operations the service calls on its repository.
