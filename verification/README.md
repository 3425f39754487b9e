# Book-shop public routes, modelled in Dafny

This project models the public routes of the book-review shop's router
(`final_project/router/general.js`). They are registration of a
username/password pair, listing the catalog, lookup by ISBN, lookup of a
book's reviews, and search by author and by title. It also covers the
deferred `/async/...` variants of those routes. Each Express handler becomes a
pure function. It takes the catalog or the user registry as an explicit
argument and returns a reply: an HTTP status code plus either a JSON payload or
a `{message}` body. Registration also returns the registry after the request.

Modules:

- `Outcomes` (`outcomes.dfy`): `Option`, the `Reply`/`Body` result type, the status codes and the fixed messages.
- `Text` (`text.dfy`): `toLowerCase` restricted to ASCII letters, and `includes` as a left-to-right scan. The scan is proved equal to the definition of contiguous-substring occurrence.
- `Catalog` (`catalog.dfy`): `Book`, the catalog as a sequence of `(key, Book)` entries in `Object.values` order, own-key lookup, and the subsequence relation.
- `Filters` (`filters.dfy`): the two `filter` predicates (author: case-insensitive whole-string equality; title: case-insensitive substring) and the order-preserving `Select`.
- `Queries` (`queries.dfy`): the synchronous catalog routes.
- `Registration` (`registration.dfy`): `POST /register` as one atomic step, and a series of such steps.
- `Deferred` (`deferred.dfy`): the `/async/...` routes. Each one is a Promise executor that produces a settled value (fulfilled or rejected), plus the handler's mapping from the settled value to a reply. One lemma shows that every deferred route replies exactly as its synchronous counterpart.
- `PropertyLookup` (`property_lookup.dfy`): `books[isbn]` with JavaScript's prototype lookup, as the code is written (see Findings).

The title search is a literal substring test on lower-cased strings, with no
stemming: "fly" does not find "Lord of the Flies", while "FLIES" does
(`Filters.TitleMatchIsLiteral`).

## Model

| member | source | states |
|---|---|---|
| `Text.IncludesIffOccurs` | final_project/router/general.js:48 | The `includes` scan answers true exactly when the needle occurs as a contiguous substring at some position (both directions). |
| `Text.NoOccurrenceWithoutChar` | final_project/router/general.js:48 | A needle that has a character the haystack lacks occurs nowhere in the haystack. |
| `Catalog.Lookup` | final_project/router/general.js:28 | Reading a key finds a record exactly when some entry has that key, and the record found is stored under that key. |
| `Catalog.LookupStored` | final_project/router/general.js:28 | With distinct keys, as an object guarantees, reading the key of entry i yields exactly entry i's record. |
| `Filters.Select` | final_project/router/general.js:38-48 | The `Object.values(...).filter` result holds only matching records (sound) and every matching record (complete). It is a subsequence of `Object.values`, so catalog order is kept. |
| `Filters.SelectEmptyIff` | final_project/router/general.js:39-52 | The filter result is empty exactly when no record of the catalog matches. |
| `Filters.SelectAppend` | final_project/router/general.js:38-48 | Filtering a concatenation of catalogs gives the concatenation of the filtered parts, in order. |
| `Filters.SelectSingle` | final_project/router/general.js:38-48 | A one-entry catalog filters to that record when it matches and to nothing otherwise. With SelectAppend, this fixes the result as the order-preserving filter. |
| `Filters.AuthorCaseInvariant` | final_project/router/general.js:38 | Two author queries with the same lower-case form select identical sequences. |
| `Filters.TitleCaseInvariant` | final_project/router/general.js:48 | Two title queries with the same lower-case form select identical sequences. |
| `Filters.AuthorMatchIsWholeString` | final_project/router/general.js:38 | An author matches only a query of the same length, so a partial name never matches. |
| `Filters.TitleMatchIffOccurs` | final_project/router/general.js:48 | A title matches exactly when the lower-cased query occurs as a contiguous substring of the lower-cased title. |
| `Filters.EmptyTitleSelectsAll` | final_project/router/general.js:48 | The empty title query selects every record, so the result is all of `Object.values` in order. |
| `Filters.TitleMatchIsLiteral` | final_project/router/general.js:48 | "fly" does not match the title "Lord of the Flies", but "FLIES" does. |
| `Queries.ListAll` | final_project/router/general.js:21-23 | `GET /` always answers 200 with the whole catalog, unfiltered and in the stored order, including when the catalog is empty. |
| `Queries.GetByIsbn` | final_project/router/general.js:26-33 | Replies 200 exactly when the key is in the catalog, with a record stored under that key. Otherwise it replies 404 "Book not found". |
| `Queries.GetReviews` | final_project/router/general.js:56-63 | Replies 200 exactly when the key is in the catalog, with the `reviews` field of a record stored under it. Otherwise it replies 404 "Book not found". |
| `Queries.IsbnHitIsStoredRecord` | final_project/router/general.js:26-63 | With distinct keys, the ISBN route returns exactly the stored record and the review route returns exactly its reviews. |
| `Queries.ReviewsFollowIsbn` | final_project/router/general.js:56-63 | The review route hits and misses exactly as the ISBN route does. A hit returns the reviews of the record the ISBN route returns. A miss returns the same message. |
| `Queries.ByAuthor` | final_project/router/general.js:36-43 | 404 "No books found for this author" exactly when no record's lower-cased author equals the lower-cased query. Otherwise 200 with the selected records. |
| `Queries.ByTitle` | final_project/router/general.js:46-53 | 404 "No books found with this title" exactly when no lower-cased title includes the lower-cased query. Otherwise 200 with the selected records. |
| `Queries.RepliesIgnoreQueryCase` | final_project/router/general.js:36-53 | Re-casing the query does not change the author reply or the title reply. |
| `Queries.EmptyTitleListsEverything` | final_project/router/general.js:46-53 | On a non-empty catalog the handler, given the empty title query, replies 200 with every record in catalog order. This is a property of the handler logic only: Express's `/title/:title` pattern never yields an empty `req.params.title`, so the route itself cannot receive the empty query. |
| `Queries.OneBookIsbnScenario` | final_project/router/general.js:26-33 | On a one-book catalog the ISBN route answers 200 with the book for its key and 404 "Book not found" for another key. |
| `Queries.OneBookAuthorScenario` | final_project/router/general.js:36-43 | On a one-book catalog a lower-case author query finds the book. A surname-only query answers 404. |
| `Queries.OneBookTitleScenario` | final_project/router/general.js:46-53 | On a one-book catalog an upper-case fragment of the title finds the book. |
| `Registration.FindUser` | final_project/router/general.js:13 | `find` succeeds exactly when some user's name equals the given name (case-sensitive), and returns the first such user in registry order. |
| `Registration.Register` | final_project/router/general.js:8-18 | 400 exactly when a field is missing or empty. 409 exactly when the fields are present and the name is taken. 200 otherwise. Each outcome has its fixed message. On 400 and 409 the registry is unchanged. On 200 exactly `{username, password}` is appended at the end. |
| `Registration.RegisterKeepsNamesUnique` | final_project/router/general.js:13-16 | A registry without duplicate usernames has none after a registration. |
| `Registration.SecondRegistrationConflicts` | final_project/router/general.js:13-17 | After a successful registration, the same username with any non-empty password gets 409, and the registry is unchanged. |
| `Registration.NamesAreCaseSensitive` | final_project/router/general.js:13 | With only "alice" registered, "Alice" registers successfully. |
| `Registration.RegisterAll` | final_project/router/general.js:16 | A series of registrations only appends: earlier users stay in place, and the registry grows by at most one user per request. |
| `Registration.RegisterAllKeepsNamesUnique` | final_project/router/general.js:13-16 | Serving requests one at a time never creates a duplicate username in a registry that had none. |
| `Deferred.IsbnPromise` | final_project/router/general.js:82-89 | The executor fulfils exactly when the key is in the catalog, with the stored record. Otherwise it rejects with "Book not found". |
| `Deferred.DeferredLookupsByCatalog` | final_project/router/general.js:66-92 | Stated against the catalog alone: `/async/books` answers 200 with the whole catalog. `/async/isbn` answers 200 exactly when the key is in the catalog, with a record stored under it, and otherwise 404 with the rejection reason "Book not found". |
| `Deferred.DeferredAuthorByCatalog` | final_project/router/general.js:95-111 | `/async/author` answers 404 "No books found for this author" exactly when no record's author matches ignoring case, and otherwise 200 with the order-preserving filter. |
| `Deferred.DeferredTitleByCatalog` | final_project/router/general.js:114-130 | `/async/title` answers 404 "No books found with this title" exactly when no record's title contains the query ignoring case, and otherwise 200 with the order-preserving filter. |
| `Deferred.DeferredAgreesWithSync` | final_project/router/general.js:66-130 | `/async/books`, `/async/isbn`, `/async/author` and `/async/title` reply exactly as `/`, `/isbn`, `/author` and `/title`, and never with 500. |
| `PropertyLookup.ReadProperty` | final_project/router/general.js:28 | A property read yields the own record exactly when the key is an own key. Otherwise it yields an inherited member exactly when the key names one of `Object.prototype`'s members. |
| `PropertyLookup.IsbnStatusAsWritten` | final_project/router/general.js:28-32 | As written, the ISBN and review routes answer 200 exactly when the key is an own key or an inherited `Object.prototype` name. |
| `PropertyLookup.ConstructorKeyAnswers200` | final_project/router/general.js:28-32 | For a catalog without the key "constructor", the code as written answers 200, while the own-key lookup answers 404 "Book not found". |
| `PropertyLookup.AsWrittenAgreesOffPrototype` | final_project/router/general.js:28-32 | For keys that are not `Object.prototype` names, the code as written and the own-key lookup give the same status. |

## Left out

- Express routing, `req`/`res`, and JSON serialisation are not modelled. A handler returns an abstract `(status, body)` reply.
- The one-second `setTimeout` of `/async/books`, and Promise scheduling, are not modelled. A Promise is represented only by its settled value.
- The 500 `catch` arms are modelled as the handlers' reaction to a rejected Promise. The executors in this model never reject, because every `Book` has string `author` and `title` fields. A stored record lacking those fields, which would make `toLowerCase` throw, is not modelled. Neither is the framework's error page for a throw in a synchronous handler.
- The check-then-append race between concurrent registrations is not modelled. Registration is one atomic step.
- The contents of `booksdb.js` and `auth_users.js` are not part of this model. The catalog and the registry are parameters. `isValid` is imported but not used by these routes.
- `toLowerCase` is modelled on ASCII letters only. Full Unicode case mapping, including mappings that change a string's length, is not modelled.
- JavaScript puts integer-like keys first, in ascending order, in `Object.values`. This is not modelled. The catalog's sequence order is taken as the iteration order.
- Request-body fields are either absent or strings. Truthiness of other JSON values (numbers, booleans, objects), and storing them in the registry, are not modelled.
- PropertyLookup.IsbnStatusAsWritten: models only the status of an inherited-name hit. The body is not modelled. A function serialises to an empty body, and an inherited value's `reviews` is `undefined`.

## Findings

| source | as written | input that shows it | evidently intended | confidence | as-written member | corrected member |
|---|---|---|---|---|---|---|
| final_project/router/general.js:28-32 | `books[isbn]` also reads properties that the catalog object inherits from `Object.prototype`, and `if (book)` treats them as a found book. The same read is at lines 58 and 83. | `GET /isbn/constructor` or `GET /review/constructor` on a catalog without that key answers 200. | 404 "Book not found" for every key that is not a catalog entry | medium, not executed | `PropertyLookup.ConstructorKeyAnswers200` | `Queries.GetByIsbn` |
