/** The synchronous catalog routes: `/`, `/isbn/:isbn`, `/author/:author`,
    `/title/:title` and `/review/:isbn`, each a pure function of the catalog
    and the path parameter. */
module Queries {
  import opened Outcomes
  import opened Text
  import opened Catalog
  import opened Filters

  /** `GET /`: always succeeds with the whole catalog. */
  function ListAll(c: Catalog): (r: Reply<Catalog>)
    ensures r.status == OK
    ensures r.body == Json(c)
  {
    Reply(OK, Json(c))
  }

  /** `GET /isbn/:isbn`: the record stored under the key, or 404. */
  function GetByIsbn(c: Catalog, isbn: string): (r: Reply<Book>)
    ensures r.status == OK <==> HasKey(c, isbn)
    ensures r.status == OK ==> r.body.Json? && Entry(isbn, r.body.value) in c
    ensures r.status != OK ==> r == Reply(NotFound, Message(BookNotFound))
  {
    match Lookup(c, isbn)
    case Some(book) => Reply(OK, Json(book))
    case None => Reply(NotFound, Message(BookNotFound))
  }

  /** `GET /review/:isbn`: only the `reviews` field of the record stored
      under the key, or 404. */
  function GetReviews(c: Catalog, isbn: string): (r: Reply<map<string, string>>)
    ensures r.status == OK <==> HasKey(c, isbn)
    ensures r.status == OK ==> r.body.Json? && exists b :: Entry(isbn, b) in c && r.body.value == b.reviews
    ensures r.status != OK ==> r == Reply(NotFound, Message(BookNotFound))
  {
    match Lookup(c, isbn)
    case Some(book) => Reply(OK, Json(book.reviews))
    case None => Reply(NotFound, Message(BookNotFound))
  }

  /** With distinct keys, a lookup by a key of the catalog answers 200 with
      exactly the record stored there, and the review route with exactly its
      reviews. */
  lemma IsbnHitIsStoredRecord(c: Catalog, i: nat)
    requires DistinctKeys(c)
    requires i < |c|
    ensures GetByIsbn(c, c[i].key) == Reply(OK, Json(c[i].book))
    ensures GetReviews(c, c[i].key) == Reply(OK, Json(c[i].book.reviews))
  {
    LookupStored(c, i);
  }

  /** The review route hits and misses exactly as the ISBN route does, and on
      a hit returns the reviews of the record the ISBN route returns. */
  lemma ReviewsFollowIsbn(c: Catalog, isbn: string)
    ensures GetReviews(c, isbn).status == GetByIsbn(c, isbn).status
    ensures GetByIsbn(c, isbn).status == OK ==>
              GetReviews(c, isbn).body == Json(GetByIsbn(c, isbn).body.value.reviews)
    ensures GetByIsbn(c, isbn).status != OK ==> GetReviews(c, isbn).body.text == GetByIsbn(c, isbn).body.text
  {
  }

  /** `if (found.length > 0) 200 found else 404 {message}`: the status mapping
      shared by both filter routes and their deferred variants. */
  function SearchReply(found: seq<Book>, missMessage: string): (r: Reply<seq<Book>>)
    ensures r.status == NotFound <==> |found| == 0
    ensures r.status != NotFound ==> r == Reply(OK, Json(found))
    ensures r.status == NotFound ==> r.body == Message(missMessage)
  {
    if |found| > 0 then Reply(OK, Json(found)) else Reply(NotFound, Message(missMessage))
  }

  /** `GET /author/:author`: 404 exactly when no record's author equals the
      query ignoring case, otherwise 200 with every such record in catalog order. */
  function ByAuthor(c: Catalog, author: string): (r: Reply<seq<Book>>)
    ensures r.status == NotFound <==> forall j :: 0 <= j < |c| ==> Lower(c[j].book.author) != Lower(author)
    ensures r.status == NotFound ==> r.body == Message(NoBooksByAuthor)
    ensures r.status != NotFound ==> r == Reply(OK, Json(Select(c, AuthorIs(author))))
  {
    SelectEmptyIff(c, AuthorIs(author));
    SearchReply(Select(c, AuthorIs(author)), NoBooksByAuthor)
  }

  /** `GET /title/:title`: 404 exactly when no record's title contains the
      query ignoring case, otherwise 200 with every such record in catalog order. */
  function ByTitle(c: Catalog, title: string): (r: Reply<seq<Book>>)
    ensures r.status == NotFound <==> forall j :: 0 <= j < |c| ==> !Includes(Lower(c[j].book.title), Lower(title))
    ensures r.status == NotFound ==> r.body == Message(NoBooksWithTitle)
    ensures r.status != NotFound ==> r == Reply(OK, Json(Select(c, TitleHas(title))))
  {
    SelectEmptyIff(c, TitleHas(title));
    SearchReply(Select(c, TitleHas(title)), NoBooksWithTitle)
  }

  /** Re-casing the query never changes either filter route's reply. */
  lemma RepliesIgnoreQueryCase(c: Catalog, q1: string, q2: string)
    requires Lower(q1) == Lower(q2)
    ensures ByAuthor(c, q1) == ByAuthor(c, q2)
    ensures ByTitle(c, q1) == ByTitle(c, q2)
  {
    AuthorCaseInvariant(c, q1, q2);
    TitleCaseInvariant(c, q1, q2);
  }

  /** Given the empty title query, the handler logic answers 200 with the whole
      of `Object.values(books)` on any non-empty catalog. The route pattern
      `/title/:title` never passes an empty parameter, so this describes the
      handler, not a request the route can receive. */
  lemma EmptyTitleListsEverything(c: Catalog)
    requires |c| > 0
    ensures ByTitle(c, "") == Reply(OK, Json(Values(c)))
  {
    EmptyTitleSelectsAll(c);
  }

  /** The one-book catalog used by the scenario below. */
  const AchebeBook := Book("Things Fall Apart", "Chinua Achebe", map[])
  const OneBook: Catalog := [Entry("1", AchebeBook)]

  /** On a one-book catalog the ISBN route finds the book under its key and
      answers 404 for another key. */
  lemma OneBookIsbnScenario()
    ensures GetByIsbn(OneBook, "1") == Reply(OK, Json(AchebeBook))
    ensures GetByIsbn(OneBook, "2") == Reply(NotFound, Message(BookNotFound))
  {
    assert OneBook[0].key == "1";
    assert !HasKey(OneBook, "2");
  }

  /** On a one-book catalog a lower-case author query finds the book, while a
      surname alone is not a whole-string match and answers 404. */
  lemma OneBookAuthorScenario()
    ensures ByAuthor(OneBook, "chinua achebe") == Reply(OK, Json([AchebeBook]))
    ensures ByAuthor(OneBook, "achebe") == Reply(NotFound, Message(NoBooksByAuthor))
  {
    assert Lower(AchebeBook.author) == Lower("chinua achebe");
    SelectSingle(OneBook[0], AuthorIs("chinua achebe"));
    AuthorMatchIsWholeString(AchebeBook, "achebe");
  }

  /** On a one-book catalog an upper-case fragment of the title finds the book. */
  lemma OneBookTitleScenario()
    ensures ByTitle(OneBook, "FALL") == Reply(OK, Json([AchebeBook]))
  {
    assert Lower(AchebeBook.title)[7..11] == Lower("FALL");
    assert OccursAt(Lower(AchebeBook.title), Lower("FALL"), 7);
    TitleMatchIffOccurs(AchebeBook, "FALL");
    SelectSingle(OneBook[0], TitleHas("FALL"));
  }
}
