/** The book catalog: the object exported by the book database, seen as the
    sequence of its `(key, record)` pairs in `Object.values` iteration order. */
module Catalog {
  import opened Outcomes

  /** A book record; `reviews` is the record's keyed review collection,
      returned to the client as stored. */
  datatype Book = Book(title: string, author: string, reviews: map<string, string>)

  /** One own property of the catalog object: the identifier (ISBN) and its record. */
  datatype Entry = Entry(key: string, book: Book)

  type Catalog = seq<Entry>

  /** A JavaScript object cannot hold the same own key twice. */
  ghost predicate DistinctKeys(c: Catalog) {
    forall i, j :: 0 <= i < j < |c| ==> c[i].key != c[j].key
  }

  ghost predicate HasKey(c: Catalog, key: string) {
    exists i :: 0 <= i < |c| && c[i].key == key
  }

  /** `Object.values(books)`: the records in iteration order. */
  function Values(c: Catalog): (vs: seq<Book>)
    ensures |vs| == |c|
    ensures forall i :: 0 <= i < |c| ==> vs[i] == c[i].book
  {
    seq(|c|, i requires 0 <= i < |c| => c[i].book)
  }

  /** `books[key]` restricted to own properties: the record stored under `key`,
      if there is one. */
  function Lookup(c: Catalog, key: string): (r: Option<Book>)
    ensures r.Some? <==> HasKey(c, key)
    ensures r.Some? ==> Entry(key, r.value) in c
  {
    if |c| == 0 then None
    else if c[0].key == key then Some(c[0].book)
    else
      var r := Lookup(c[1..], key);
      assert forall i :: 1 <= i < |c| ==> c[i] == c[1..][i - 1];
      r
  }

  /** In a catalog with distinct keys a hit returns exactly the record stored
      under that key. */
  lemma LookupStored(c: Catalog, i: nat)
    requires DistinctKeys(c)
    requires i < |c|
    ensures Lookup(c, c[i].key) == Some(c[i].book)
  {
  }

  /** `a` is obtained from `b` by deleting elements: it keeps `b`'s order. */
  predicate IsSubsequence<T(==)>(a: seq<T>, b: seq<T>)
    decreases |b|
  {
    |a| == 0 ||
    (|b| > 0 && ((a[0] == b[0] && IsSubsequence(a[1..], b[1..])) || IsSubsequence(a, b[1..])))
  }

  /** Putting the same element in front of both sides keeps a subsequence. */
  lemma SubsequenceCons<T>(x: T, a: seq<T>, b: seq<T>)
    requires IsSubsequence(a, b)
    ensures IsSubsequence([x] + a, [x] + b)
  {
    assert ([x] + a)[1..] == a;
    assert ([x] + b)[1..] == b;
  }

  /** Putting an element in front of the larger side keeps a subsequence. */
  lemma SubsequenceSkip<T>(x: T, a: seq<T>, b: seq<T>)
    requires IsSubsequence(a, b)
    ensures IsSubsequence(a, [x] + b)
  {
    assert ([x] + b)[1..] == b;
  }

  /** `Object.values` of a catalog is its first record followed by the values of the rest. */
  lemma ValuesCons(c: Catalog)
    requires |c| > 0
    ensures Values(c) == [c[0].book] + Values(c[1..])
  {
  }
}
