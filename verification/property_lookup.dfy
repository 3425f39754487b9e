/** `books[isbn]` as JavaScript evaluates it. The catalog is an ordinary
    object, so a key that is not one of its own properties is still looked up
    on `Object.prototype`; names such as `constructor` or `toString` yield a
    function, which is truthy, so the `if (book)` test of the ISBN and review
    routes lets them through with status 200. The rest of the model uses the
    own-property lookup `Queries.GetByIsbn`. */
module PropertyLookup {
  import opened Outcomes
  import opened Catalog
  import opened Queries

  /** Names every plain object inherits from `Object.prototype`. */
  const ObjectPrototypeMembers: set<string> := {
    "constructor", "__proto__", "toString", "toLocaleString", "valueOf",
    "hasOwnProperty", "isPrototypeOf", "propertyIsEnumerable",
    "__defineGetter__", "__defineSetter__", "__lookupGetter__", "__lookupSetter__"
  }

  /** What a property read on the catalog object yields. */
  datatype Property = OwnRecord(book: Book) | Inherited(name: string) | Undefined

  /** `books[key]`: own properties first, then the prototype. */
  function ReadProperty(c: Catalog, key: string): (p: Property)
    ensures p.OwnRecord? <==> HasKey(c, key)
    ensures p.OwnRecord? ==> Entry(key, p.book) in c
    ensures p.Inherited? <==> !HasKey(c, key) && key in ObjectPrototypeMembers
  {
    match Lookup(c, key)
    case Some(book) => OwnRecord(book)
    case None => if key in ObjectPrototypeMembers then Inherited(key) else Undefined
  }

  /** `if (book)`: everything except `undefined` passes (records are objects). */
  predicate PropertyTruthy(p: Property) {
    !p.Undefined?
  }

  /** The status the ISBN and review routes answer with, as written. */
  function IsbnStatusAsWritten(c: Catalog, key: string): (status: nat)
    ensures status == OK <==> HasKey(c, key) || key in ObjectPrototypeMembers
    ensures status != OK ==> status == NotFound
  {
    if PropertyTruthy(ReadProperty(c, key)) then OK else NotFound
  }

  /** `/isbn/constructor` on a catalog without such a key: the code as written
      answers 200, the own-property lookup answers 404 "Book not found". */
  lemma ConstructorKeyAnswers200(c: Catalog)
    requires !HasKey(c, "constructor")
    ensures IsbnStatusAsWritten(c, "constructor") == OK
    ensures GetByIsbn(c, "constructor") == Reply(NotFound, Message(BookNotFound))
    ensures GetReviews(c, "constructor") == Reply(NotFound, Message(BookNotFound))
  {
  }

  /** Away from the inherited names the code as written and the own-property
      lookup answer with the same status. */
  lemma AsWrittenAgreesOffPrototype(c: Catalog, key: string)
    requires key !in ObjectPrototypeMembers
    ensures IsbnStatusAsWritten(c, key) == GetByIsbn(c, key).status
    ensures IsbnStatusAsWritten(c, key) == GetReviews(c, key).status
  {
  }
}
