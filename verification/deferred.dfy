/** The deferred `async` routes. Each runs the same scan inside a Promise executor
    and maps the settled Promise to a reply; the timer of `/async/books` only
    delays the settlement and is not modelled. A settled Promise is either
    fulfilled with a value or rejected with a reason; the `catch` arms map a
    rejection to 404 (`/async/isbn`) or 500 (the others). */
module Deferred {
  import opened Outcomes
  import opened Catalog
  import opened Filters
  import opened Queries

  datatype Settled<+T> = Fulfilled(value: T) | Rejected(reason: string)

  /** The executor of `/async/books`: resolves with the catalog. */
  function BooksPromise(c: Catalog): (s: Settled<Catalog>)
    ensures s.Fulfilled? && s.value == c
  {
    Fulfilled(c)
  }

  /** `await` inside `try`, then 200 with the value, or 500 from `catch`. */
  function AwaitBooks(s: Settled<Catalog>): (r: Reply<Catalog>)
    ensures r.status == OK <==> s.Fulfilled?
    ensures s.Fulfilled? ==> r.body == Json(s.value)
    ensures s.Rejected? ==> r == Reply(InternalError, Message(ErrorFetchingBooks))
  {
    match s
    case Fulfilled(books) => Reply(OK, Json(books))
    case Rejected(_) => Reply(InternalError, Message(ErrorFetchingBooks))
  }

  function AsyncListAll(c: Catalog): Reply<Catalog> {
    AwaitBooks(BooksPromise(c))
  }

  /** The executor of `/async/isbn`: resolves with the record or rejects with
      the string "Book not found". */
  function IsbnPromise(c: Catalog, isbn: string): (s: Settled<Book>)
    ensures s.Fulfilled? <==> HasKey(c, isbn)
    ensures s.Fulfilled? ==> Entry(isbn, s.value) in c
    ensures s.Rejected? ==> s.reason == BookNotFound
  {
    match Lookup(c, isbn)
    case Some(book) => Fulfilled(book)
    case None => Rejected(BookNotFound)
  }

  /** `.then` answers 200 with the value; `.catch` answers 404 with the
      rejection reason as the message. */
  function SettleIsbn(s: Settled<Book>): (r: Reply<Book>)
    ensures r.status == OK <==> s.Fulfilled?
    ensures s.Fulfilled? ==> r.body == Json(s.value)
    ensures s.Rejected? ==> r == Reply(NotFound, Message(s.reason))
  {
    match s
    case Fulfilled(book) => Reply(OK, Json(book))
    case Rejected(err) => Reply(NotFound, Message(err))
  }

  function AsyncGetByIsbn(c: Catalog, isbn: string): Reply<Book> {
    SettleIsbn(IsbnPromise(c, isbn))
  }

  /** The executor of `/async/author` and `/async/title`: resolves with the
      filtered records. */
  function SearchPromise(c: Catalog, crit: Criterion): (s: Settled<seq<Book>>)
    ensures s.Fulfilled? && s.value == Select(c, crit)
  {
    Fulfilled(Select(c, crit))
  }

  /** `await` inside `try`, then the usual length test, or 500 from `catch`. */
  function AwaitSearch(s: Settled<seq<Book>>, missMessage: string): (r: Reply<seq<Book>>)
    ensures s.Rejected? ==> r == Reply(InternalError, Message(ErrorSearchingBooks))
    ensures s.Fulfilled? ==> r == SearchReply(s.value, missMessage)
  {
    match s
    case Fulfilled(found) => SearchReply(found, missMessage)
    case Rejected(_) => Reply(InternalError, Message(ErrorSearchingBooks))
  }

  function AsyncByAuthor(c: Catalog, author: string): Reply<seq<Book>> {
    AwaitSearch(SearchPromise(c, AuthorIs(author)), NoBooksByAuthor)
  }

  function AsyncByTitle(c: Catalog, title: string): Reply<seq<Book>> {
    AwaitSearch(SearchPromise(c, TitleHas(title)), NoBooksWithTitle)
  }

  /** `/async/books` and `/async/isbn` described against the catalog alone,
      without reference to the synchronous handlers. */
  lemma DeferredLookupsByCatalog(c: Catalog, key: string)
    ensures AsyncListAll(c) == Reply(OK, Json(c))
    ensures AsyncGetByIsbn(c, key).status == OK <==> HasKey(c, key)
    ensures AsyncGetByIsbn(c, key).status == OK ==>
              AsyncGetByIsbn(c, key).body.Json? && Entry(key, AsyncGetByIsbn(c, key).body.value) in c
    ensures AsyncGetByIsbn(c, key).status != OK ==> AsyncGetByIsbn(c, key) == Reply(NotFound, Message(BookNotFound))
  {
  }

  /** `/async/author` described against the catalog alone. */
  lemma DeferredAuthorByCatalog(c: Catalog, author: string)
    ensures AsyncByAuthor(c, author).status == NotFound <==>
              forall j :: 0 <= j < |c| ==> !Matches(AuthorIs(author), c[j].book)
    ensures AsyncByAuthor(c, author).status != NotFound ==>
              AsyncByAuthor(c, author) == Reply(OK, Json(Select(c, AuthorIs(author))))
    ensures AsyncByAuthor(c, author).status == NotFound ==> AsyncByAuthor(c, author).body == Message(NoBooksByAuthor)
  {
    SelectEmptyIff(c, AuthorIs(author));
  }

  /** `/async/title` described against the catalog alone. */
  lemma DeferredTitleByCatalog(c: Catalog, title: string)
    ensures AsyncByTitle(c, title).status == NotFound <==>
              forall j :: 0 <= j < |c| ==> !Matches(TitleHas(title), c[j].book)
    ensures AsyncByTitle(c, title).status != NotFound ==>
              AsyncByTitle(c, title) == Reply(OK, Json(Select(c, TitleHas(title))))
    ensures AsyncByTitle(c, title).status == NotFound ==> AsyncByTitle(c, title).body == Message(NoBooksWithTitle)
  {
    SelectEmptyIff(c, TitleHas(title));
  }

  /** Every deferred route replies exactly as its synchronous counterpart:
      same status, same payload, same message. The 500 arms are never taken
      because the executors never reject. */
  lemma DeferredAgreesWithSync(c: Catalog, key: string, query: string)
    ensures AsyncListAll(c) == ListAll(c)
    ensures AsyncGetByIsbn(c, key) == GetByIsbn(c, key)
    ensures AsyncByAuthor(c, query) == ByAuthor(c, query)
    ensures AsyncByTitle(c, query) == ByTitle(c, query)
    ensures AsyncListAll(c).status != InternalError
    ensures AsyncByAuthor(c, query).status != InternalError
    ensures AsyncByTitle(c, query).status != InternalError
  {
  }
}
