# Article service model

A Dafny model of the article CRUD service in `kotlin-webflux`. `ArticleService` runs
five operations over an article repository: `get`, `getAll`, `create`, `update` and
`delete`. Around it sit the `Article` entity, with its id-only equality and its audit
timestamps, and the `CreateArticle` and `UpdateArticle` request bodies.

The reactive store is replaced by `Repository.ArticleRepository`, a class whose
`articles: map<Long, Article>` field is the article table. Its methods (`FindById`,
`FindAll`, `FindAllByTitleContains`, `Save`, `DeleteById`, `Count`) have the contracts
that the service assumes of Spring Data's repository:

- a save of an article with id 0 inserts it under a fresh positive id;
- a save of any other article overwrites the row with that id;
- a delete of a missing id does nothing.

The service is `Service.ArticleService`. It holds the repository and changes it only
through those methods. The clock is a parameter, `now`, of the operations that save.

Files, one module each:

- `wrappers.dfy`: `Option` (Kotlin's nullable values) and `Result` (success or domain error).
- `primitives.dfy`: `Long` and `Int` as 64- and 32-bit newtypes, and `Long.hashCode`.
  Also the decimal rendering a string template applies to a `Long`, with its inverse.
- `text.dfy`: case-sensitive substring containment, the title filter.
- `model.dfy`: `Article` (from `Article.kt`, including the `BaseEntity` timestamps),
  with `equals` and `hashCode`.
- `save_article.dfy`: `CreateArticle`, `CreateArticle.toEntity`, `UpdateArticle`.
- `repository.dfy`: the repository stand-in and the specification of a listing.
- `service.dfy`: `ArticleService`, the partial-update merge and the `ArticleNotFound` error.
- `scenarios.dfy`: the flows of `ArticleServiceTest` written as verified client methods.

Modelling choices:

- **Title filter.** `findAllByTitleContains` is a database `LIKE` query, so its case
  sensitivity depends on the store's collation. The model treats it as a case-sensitive
  match of consecutive characters (`Text.Contains`).
- **Listing order.** Results come back in an order the store chooses. The contracts
  say only that each selected article appears exactly once (`Repository.Lists`).
- **`getAll` specification.** `Repository.Selected` is the reference definition: every
  article whose title contains the filter, and every article when there is no filter.
  It has no special case for the empty string. `getAll` itself branches on a null or
  empty filter. The proof shows that an empty filter selects every article anyway, so
  the branch agrees with the reference definition.
- **Update in place.** `update` assigns to the fetched entity's `var` fields and then
  saves it. `Article` is an updatable record here: the method builds the updated value
  one field at a time (`Service.ArticleService.Update`), and `Service.Patched` is the
  merge it is proved against.

## Model

| member | source | states |
|---|---|---|
| `Service.ArticleService.Get` | src/main/kotlin/dev/fastcampus/webfluxreactor/service/ArticleService.kt:23-25 | A stored id yields that article. A missing id yields `ArticleNotFound` with the message "No article found (id: <id>)". |
| `Service.NotFoundMentionsId` | src/main/kotlin/dev/fastcampus/webfluxreactor/service/ArticleService.kt:25 | The not-found message contains the decimal form of the requested id. |
| `Service.NotFoundIdentifiesId` | src/main/kotlin/dev/fastcampus/webfluxreactor/service/ArticleService.kt:25 | Two ids with the same not-found message are the same id. |
| `Service.ArticleService.GetAll` | src/main/kotlin/dev/fastcampus/webfluxreactor/service/ArticleService.kt:27-29 | Returns each article of the reference selection exactly once: all articles for a null or empty filter, else those whose title contains the filter. A null or empty filter returns as many articles as the table holds. |
| `Service.SelectedByGetAll` | src/main/kotlin/dev/fastcampus/webfluxreactor/service/ArticleService.kt:27-29 | A null or empty filter selects every id. Otherwise an id is selected if and only if its article's title contains the filter. |
| `Service.FilteredWithinAll` | src/test/kotlin/dev/fastcampus/webfluxreactor/service/ArticleServiceTest.kt:32-36 | Every article in a filtered listing is in the unfiltered listing, so the filtered listing is no longer. |
| `Service.ArticleService.Create` | src/main/kotlin/dev/fastcampus/webfluxreactor/service/ArticleService.kt:32 | Stores the request's title, body and author under a new positive id, with both timestamps `now`. Returns that article. Adds exactly one row and changes no other. |
| `Service.ArticleService.Update` | src/main/kotlin/dev/fastcampus/webfluxreactor/service/ArticleService.kt:34-42 | A missing id gives `ArticleNotFound` and leaves the table as it is. Otherwise it returns and stores the merged article with `updatedAt = now`. The set of ids is unchanged and every other row is untouched. |
| `Service.PatchedFields` | src/main/kotlin/dev/fastcampus/webfluxreactor/service/ArticleService.kt:38-40 | Each non-null request field overwrites the article's field and each null one keeps it. The id and timestamps are not touched. |
| `Service.PatchedNoChange` | src/main/kotlin/dev/fastcampus/webfluxreactor/model/SaveArticle.kt:16-20 | The update request with every field null leaves the article exactly as it was. |
| `Service.PatchedIdempotent` | src/main/kotlin/dev/fastcampus/webfluxreactor/service/ArticleService.kt:38-40 | Applying the same update request twice gives the same article as applying it once. |
| `Service.PatchedKeepsIdentity` | src/main/kotlin/dev/fastcampus/webfluxreactor/service/ArticleService.kt:38-40 | An updated article still `equals` the original. |
| `Service.ArticleService.Delete` | src/main/kotlin/dev/fastcampus/webfluxreactor/service/ArticleService.kt:43 | Removes the row with that id. A missing id is no error and changes nothing. A present id lowers the count by one. |
| `Repository.ArticleRepository.FindById` | src/main/kotlin/dev/fastcampus/webfluxreactor/service/ArticleService.kt:24 | Returns the stored row for that id, or null exactly when the id is absent. |
| `Repository.ArticleRepository.FindAll` | src/main/kotlin/dev/fastcampus/webfluxreactor/service/ArticleService.kt:28 | Lists every stored row exactly once. |
| `Repository.ArticleRepository.FindAllByTitleContains` | src/main/kotlin/dev/fastcampus/webfluxreactor/service/ArticleService.kt:29 | Lists, exactly once each, the stored rows whose title contains the argument. |
| `Repository.ArticleRepository.Scan` | src/main/kotlin/dev/fastcampus/webfluxreactor/service/ArticleService.kt:28-29 | A table scan that keeps exactly the rows the optional pattern selects, each once. |
| `Repository.ArticleRepository.Save` | src/main/kotlin/dev/fastcampus/webfluxreactor/service/ArticleService.kt:32-41 | An article with id 0 gets a fresh positive id and both timestamps `now`. Any other article overwrites its row with `updatedAt = now`. The table afterwards is the old one with this row written. |
| `Repository.ArticleRepository.DeleteById` | src/main/kotlin/dev/fastcampus/webfluxreactor/service/ArticleService.kt:43 | The table afterwards is the old one without that id. |
| `Repository.ArticleRepository.Count` | src/test/kotlin/dev/fastcampus/webfluxreactor/service/ArticleServiceTest.kt:41-49 | Returns the number of rows. |
| `Repository.ListsLength` | src/test/kotlin/dev/fastcampus/webfluxreactor/service/ArticleServiceTest.kt:35-36 | A listing has exactly one element per selected id. |
| `Repository.SelectedEmptyPattern` | src/main/kotlin/dev/fastcampus/webfluxreactor/service/ArticleService.kt:28 | An empty pattern selects the same ids as no pattern, namely all of them. |
| `Repository.FreeIdExists` | src/main/kotlin/dev/fastcampus/webfluxreactor/model/Article.kt:10 | A table with fewer rows than there are positive `Long` values leaves some positive id unused, so an insert can always get an id. |
| `Model.EqualsIffSameId` | src/main/kotlin/dev/fastcampus/webfluxreactor/model/Article.kt:15-20 | Two articles are equal if and only if their ids are equal. |
| `Model.EqualsOnlyArticles` | src/main/kotlin/dev/fastcampus/webfluxreactor/model/Article.kt:17 | An article never equals null or an object of another class. |
| `Model.EqualsIsEquivalence` | src/main/kotlin/dev/fastcampus/webfluxreactor/model/Article.kt:15-20 | `equals` is reflexive, symmetric and transitive. |
| `Model.EqualsIgnoresContent` | src/main/kotlin/dev/fastcampus/webfluxreactor/model/Article.kt:19 | Changing title, body or author keeps an article equal to what it was. |
| `Model.HashCodeConsistent` | src/main/kotlin/dev/fastcampus/webfluxreactor/model/Article.kt:22 | Equal articles have equal hash codes. |
| `Model.ConstructorDefaults` | src/main/kotlin/dev/fastcampus/webfluxreactor/model/Article.kt:8-14 | An article built from a title alone has id 0 (new), null body and author, and null `createdAt` and `updatedAt`. |
| `Primitives.LongHashCodeOfSmall` | src/main/kotlin/dev/fastcampus/webfluxreactor/model/Article.kt:22 | Under `Long.hashCode`'s xor of the two 32-bit halves, an id from 0 to 2^31 - 1 hashes to itself. |
| `Primitives.DecimalRoundTrip` | src/main/kotlin/dev/fastcampus/webfluxreactor/service/ArticleService.kt:25 | Reading back the decimal rendering of an id gives the id. |
| `Primitives.DecimalInjective` | src/main/kotlin/dev/fastcampus/webfluxreactor/service/ArticleService.kt:25 | Distinct ids render to distinct strings. |
| `SaveArticle.CreateArticle.ToEntity` | src/main/kotlin/dev/fastcampus/webfluxreactor/model/SaveArticle.kt:9-14 | Copies title, body and author unchanged into a new article: id 0, no timestamps. |
| `SaveArticle.ToEntityInjective` | src/main/kotlin/dev/fastcampus/webfluxreactor/model/SaveArticle.kt:3-14 | Distinct create requests give distinct entities: the conversion loses no field. |
| `Text.ContainsChar` | src/main/kotlin/dev/fastcampus/webfluxreactor/service/ArticleService.kt:29 | A one-character filter matches a title if and only if that character occurs in it. |
| `Scenarios.GetAllScenario` | src/test/kotlin/dev/fastcampus/webfluxreactor/service/ArticleServiceTest.kt:22-37 | After saving "title 1", "title 2" and "title 3" into an empty table, `getAll("2")` has one element and `getAll()` has three. |
| `Scenarios.CreateThenGet` | src/test/kotlin/dev/fastcampus/webfluxreactor/service/ArticleServiceTest.kt:39-56 | `create` raises the count by one. `get` on the returned id yields the request's title, body and author, with both timestamps set and equal. |
| `Scenarios.UpdateScenario` | src/test/kotlin/dev/fastcampus/webfluxreactor/service/ArticleServiceTest.kt:58-78 | After an update naming all three fields, reading the row back shows the new title, body and author. The original creation time is kept and the last-modified time is the update's. |
| `Scenarios.DeleteAfterSave` | src/test/kotlin/dev/fastcampus/webfluxreactor/service/ArticleServiceTest.kt:80-88 | Saving an article and then deleting it leaves the table exactly as before, so the count is as before and the id is not found. |
| `Scenarios.DeleteTwice` | src/main/kotlin/dev/fastcampus/webfluxreactor/service/ArticleService.kt:43 | Deleting the same id twice succeeds both times and leaves the table the same as one delete does. |
| `Scenarios.MissingId` | src/main/kotlin/dev/fastcampus/webfluxreactor/service/ArticleService.kt:23-36 | For an id that is not stored, `get` and `update` both give `ArticleNotFound` and the table is unchanged. |

## Left out

- HTTP routing and application start-up (`ArticleController`, `HelloController`, `WebfluxReactorApplication`) have no logic of their own.
- The mapping of `ArticleNotFound` to HTTP 404 is framework behaviour. The error is modelled as the `Err` case of a `Result`.
- Reactive deferred execution (`Mono`, `Flux`, `switchIfEmpty`) is not modelled. Each operation runs at once and returns its value or error.
- `@Transactional` boundaries, concurrent requests and store failures (connectivity, constraint violations) are not modelled.
- Auditing is modelled only as the `now` parameter: an insert sets both timestamps, an update sets `updatedAt`. Real timestamps and the clock are outside the model.
- Service.ArticleService.Update: does not promise `updatedAt > createdAt`, because that depends on the clock advancing between the calls.
- The model proves no `createdAt <= updatedAt` invariant over the table, for the same reason.
- Repository.ArticleRepository.Save: how the store generates ids is not modelled; the contract promises only a fresh positive id.
- An insert requires the table to hold fewer than 2^63 - 1 rows, so that a positive `Long` id is free. No real table comes close.
- Repository.ArticleRepository.Save: with a nonzero id missing from the table, the model writes a new row. The real R2DBC update would fail instead. The service never saves such an article: `update` saves only an article it has just read.
- `Scenarios.GetAllScenario` assumes the table starts empty, as the test's assertions require.
- The controller tests are not encoded. Some of their expectations contradict the service: five results after six creates, and status 201 from a delete.
- `toString` of `Article` and `BaseEntity` is formatting only.
- `Article` is a value here, not a shared mutable object. Aliasing of the fetched entity between the service and the store is therefore not represented.
