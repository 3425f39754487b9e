/** The two catalog filters: `/author` keeps the records whose lower-cased
    author equals the lower-cased query, `/title` keeps the records whose
    lower-cased title contains the lower-cased query. Both are
    `Object.values(books).filter(...)`. */
module Filters {
  import opened Text
  import opened Catalog

  /** The predicate handed to `Array.prototype.filter`, with the raw query. */
  datatype Criterion = AuthorIs(author: string) | TitleHas(fragment: string)

  predicate Matches(crit: Criterion, b: Book) {
    match crit
    case AuthorIs(q) => Lower(b.author) == Lower(q)
    case TitleHas(q) => Includes(Lower(b.title), Lower(q))
  }

  /** `Object.values(c).filter(book => Matches(crit, book))`: sound (only matching
      records), complete (every matching record), and in catalog order. */
  function Select(c: Catalog, crit: Criterion): (r: seq<Book>)
    ensures |r| <= |c|
    ensures forall k :: 0 <= k < |r| ==> Matches(crit, r[k])
    ensures forall j :: 0 <= j < |c| && Matches(crit, c[j].book) ==> c[j].book in r
    ensures IsSubsequence(r, Values(c))
  {
    if |c| == 0 then []
    else
      var rest := Select(c[1..], crit);
      ValuesCons(c);
      assert forall j :: 1 <= j < |c| ==> c[j] == c[1..][j - 1];
      if Matches(crit, c[0].book) then
        SubsequenceCons(c[0].book, rest, Values(c[1..]));
        [c[0].book] + rest
      else
        SubsequenceSkip(c[0].book, rest, Values(c[1..]));
        rest
  }

  /** The filter is empty exactly when no record of the catalog matches. */
  lemma SelectEmptyIff(c: Catalog, crit: Criterion)
    ensures |Select(c, crit)| == 0 <==> forall j :: 0 <= j < |c| ==> !Matches(crit, c[j].book)
  {
  }

  /** Filtering distributes over concatenation of catalogs: together with the
      one-entry case this pins the result down to the order-preserving filter. */
  lemma {:induction false} SelectAppend(c1: Catalog, c2: Catalog, crit: Criterion)
    ensures Select(c1 + c2, crit) == Select(c1, crit) + Select(c2, crit)
    decreases |c1|
  {
    if |c1| > 0 {
      assert (c1 + c2)[0] == c1[0];
      assert (c1 + c2)[1..] == c1[1..] + c2;
      SelectAppend(c1[1..], c2, crit);
    } else {
      assert c1 + c2 == c2;
    }
  }

  /** The one-entry case of the filter. */
  lemma SelectSingle(e: Entry, crit: Criterion)
    ensures Select([e], crit) == if Matches(crit, e.book) then [e.book] else []
  {
    assert [e][1..] == [];
  }

  /** The author filter sees the query only through its lower-cased form. */
  lemma {:induction false} AuthorCaseInvariant(c: Catalog, q1: string, q2: string)
    requires Lower(q1) == Lower(q2)
    ensures Select(c, AuthorIs(q1)) == Select(c, AuthorIs(q2))
  {
    if |c| > 0 {
      AuthorCaseInvariant(c[1..], q1, q2);
    }
  }

  /** The title filter sees the query only through its lower-cased form. */
  lemma {:induction false} TitleCaseInvariant(c: Catalog, q1: string, q2: string)
    requires Lower(q1) == Lower(q2)
    ensures Select(c, TitleHas(q1)) == Select(c, TitleHas(q2))
  {
    if |c| > 0 {
      TitleCaseInvariant(c[1..], q1, q2);
    }
  }

  /** The author comparison is whole-string: a query of a different length
      than the author's name (a surname alone, say) never matches. */
  lemma AuthorMatchIsWholeString(b: Book, q: string)
    ensures Matches(AuthorIs(q), b) ==> |q| == |b.author|
  {
  }

  /** A title matches exactly when the lower-cased query occurs as a contiguous
      substring of the lower-cased title. */
  lemma TitleMatchIffOccurs(b: Book, q: string)
    ensures Matches(TitleHas(q), b) <==> exists i :: OccursAt(Lower(b.title), Lower(q), i)
  {
    IncludesIffOccurs(Lower(b.title), Lower(q));
  }

  /** The empty title query matches every record, so it returns all of
      `Object.values(books)`. */
  lemma {:induction false} EmptyTitleSelectsAll(c: Catalog)
    ensures Select(c, TitleHas("")) == Values(c)
  {
    if |c| > 0 {
      IncludesEmpty(Lower(c[0].book.title));
      assert Lower("") == "";
      EmptyTitleSelectsAll(c[1..]);
      ValuesCons(c);
    }
  }

  const FliesTitle := "Lord of the Flies"

  lemma FliesTitleHasNoY()
    ensures forall k :: 0 <= k < |Lower(FliesTitle)| ==> Lower(FliesTitle)[k] != 'y'
  {
    assert forall k :: 0 <= k < |FliesTitle| ==> FliesTitle[k] != 'y' && FliesTitle[k] != 'Y';
  }

  /** The title match is a plain substring test on the lower-cased strings,
      with no stemming: "fly" does not occur in "Lord of the Flies", while
      "FLIES" does. */
  lemma TitleMatchIsLiteral(b: Book)
    requires b.title == FliesTitle
    ensures !Matches(TitleHas("fly"), b)
    ensures Matches(TitleHas("FLIES"), b)
  {
    FliesTitleHasNoY();
    assert Lower("fly")[2] == 'y';
    NoOccurrenceWithoutChar(Lower(b.title), Lower("fly"), 2);
    TitleMatchIffOccurs(b, "fly");
    assert Lower(FliesTitle)[12..17] == Lower("FLIES");
    assert OccursAt(Lower(b.title), Lower("FLIES"), 12);
    TitleMatchIffOccurs(b, "FLIES");
  }
}
