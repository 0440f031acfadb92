/** The book record the client keeps in its list, and the two list transformations the
    handlers apply to it: removing every entry with a given id (deleteBook) and replacing
    every entry whose id matches a record returned by the store (updateStatus). */
module Books {

  datatype Option<+T> = None | Some(value: T)

  /** The three reading states: the options of the status selector and the values of the
      store's ENUM column. */
  datatype Status = ToBeRead | Reading | Finished

  /** The text a status travels as between the selector, the client and the store. */
  function Label(s: Status): (l: string)
    ensures |l| > 0
  {
    match s
    case ToBeRead => "To Be Read"
    case Reading => "Reading"
    case Finished => "Finished"
  }

  /** Reads a status back from its text; any other text is not a status. */
  function ParseLabel(l: string): (r: Option<Status>)
    ensures r.Some? ==> Label(r.value) == l
    ensures r.None? <==> l != "To Be Read" && l != "Reading" && l != "Finished"
  {
    if l == "To Be Read" then Some(ToBeRead)
    else if l == "Reading" then Some(Reading)
    else if l == "Finished" then Some(Finished)
    else None
  }

  lemma LabelRoundTrip(s: Status)
    ensures ParseLabel(Label(s)) == Some(s)
  {
  }

  /** One book record as the store returns it. */
  datatype Book = Book(id: int, title: string, author: string, status: Status)

  /** The entries of `books` whose id differs from `id`, in their order: `books.filter(book => book.id !== id)`. */
  function Without(books: seq<Book>, id: int): (r: seq<Book>)
    ensures |r| <= |books|
    ensures forall b :: b in r ==> b in books && b.id != id
  {
    if books == [] then []
    else if books[0].id != id then [books[0]] + Without(books[1..], id)
    else Without(books[1..], id)
  }

  /** `sub` can be obtained from `s` by dropping entries, keeping the rest in order. */
  ghost predicate IsSubsequence(sub: seq<Book>, s: seq<Book>)
    decreases |s|
  {
    sub == [] ||
    (s != [] && ((sub[0] == s[0] && IsSubsequence(sub[1..], s[1..])) || IsSubsequence(sub, s[1..])))
  }

  /** Deleting keeps every entry with another id, as often as it occurred. */
  lemma {:induction false} WithoutKeepsOthers(books: seq<Book>, id: int, b: Book)
    requires b.id != id
    ensures multiset(Without(books, id))[b] == multiset(books)[b]
  {
    if books != [] {
      WithoutKeepsOthers(books[1..], id, b);
      assert books == [books[0]] + books[1..];
    }
  }

  /** Deleting keeps the surviving entries in their original relative order. */
  lemma {:induction false} WithoutIsSubsequence(books: seq<Book>, id: int)
    ensures IsSubsequence(Without(books, id), books)
  {
    if books != [] {
      WithoutIsSubsequence(books[1..], id);
      var r := Without(books, id);
      if books[0].id != id {
        assert r[0] == books[0] && r[1..] == Without(books[1..], id);
      }
    }
  }

  /** Deleting an id no entry carries leaves the list as it is; in particular deleting twice
      is the same as deleting once. */
  lemma {:induction false} WithoutAbsent(books: seq<Book>, id: int)
    requires forall b :: b in books ==> b.id != id
    ensures Without(books, id) == books
  {
    if books != [] {
      WithoutAbsent(books[1..], id);
      assert books == [books[0]] + books[1..];
    }
  }

  lemma WithoutIdempotent(books: seq<Book>, id: int)
    ensures Without(Without(books, id), id) == Without(books, id)
  {
    WithoutAbsent(Without(books, id), id);
  }

  /** Every entry whose id is the updated record's id becomes that record; the others stay:
      `books.map(book => book.id === updated.id ? updated : book)`. */
  function Replace(books: seq<Book>, updated: Book): (r: seq<Book>)
    ensures |r| == |books|
    ensures forall i :: 0 <= i < |books| && books[i].id == updated.id ==> r[i] == updated
    ensures forall i :: 0 <= i < |books| && books[i].id != updated.id ==> r[i] == books[i]
  {
    if books == [] then []
    else [if books[0].id == updated.id then updated else books[0]] + Replace(books[1..], updated)
  }

  /** A reply whose id matches no entry changes nothing. */
  lemma ReplaceAbsent(books: seq<Book>, updated: Book)
    requires forall b :: b in books ==> b.id != updated.id
    ensures Replace(books, updated) == books
  {
  }

  /** Applying the same reply twice is the same as applying it once, and the ids at every
      position are those of the old list. */
  lemma ReplaceIdempotent(books: seq<Book>, updated: Book)
    ensures Replace(Replace(books, updated), updated) == Replace(books, updated)
    ensures forall i :: 0 <= i < |books| ==> Replace(books, updated)[i].id == books[i].id
  {
  }
}
