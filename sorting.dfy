/** The sorted view of the book list (`sortedBooks`): a copy of the list ordered by title or
    author, ascending or descending, under the browser's `localeCompare`.

    `localeCompare` is a parameter: any function from two strings to a number whose sign
    orders them. The engine's `Array.prototype.sort` is stable, so the copy is ordered by a
    stable insertion sort; SortWithUnique shows that every stable ordering of the same
    entries under a consistent comparator is this one, whatever algorithm produced it. */
module Sorting {
  import opened Books

  /** `localeCompare(a, b) <= 0` ("a may come before b") is total and transitive on strings. */
  ghost predicate Collation(localeCompare: (string, string) -> int) {
    && (forall a, b :: localeCompare(a, b) <= 0 || localeCompare(b, a) <= 0)
    && (forall a, b, c :: localeCompare(a, b) <= 0 && localeCompare(b, c) <= 0 ==> localeCompare(a, c) <= 0)
  }

  /** The same two conditions for a comparator on books, as handed to `sort`. */
  ghost predicate TotalPreorder(cmp: (Book, Book) -> int) {
    && (forall a, b :: cmp(a, b) <= 0 || cmp(b, a) <= 0)
    && (forall a, b, c :: cmp(a, b) <= 0 && cmp(b, c) <= 0 ==> cmp(a, c) <= 0)
  }

  /** Every entry may come before every later entry. */
  ghost predicate Sorted(s: seq<Book>, cmp: (Book, Book) -> int) {
    forall i, j :: 0 <= i < j < |s| ==> cmp(s[i], s[j]) <= 0
  }

  /** `cmp` cannot tell `a` and `b` apart. */
  predicate Tied(a: Book, b: Book, cmp: (Book, Book) -> int) {
    cmp(a, b) <= 0 && cmp(b, a) <= 0
  }

  /** The entries of `s` tied with `x`, in their order in `s`. */
  function Ties(s: seq<Book>, x: Book, cmp: (Book, Book) -> int): (r: seq<Book>)
    ensures |r| <= |s|
    ensures forall b :: b in r ==> b in s && Tied(b, x, cmp)
  {
    if s == [] then []
    else if Tied(s[0], x, cmp) then [s[0]] + Ties(s[1..], x, cmp)
    else Ties(s[1..], x, cmp)
  }

  /** Puts `x` in front of the first entry it may precede: before every entry tied with it. */
  function Insert(x: Book, s: seq<Book>, cmp: (Book, Book) -> int): (r: seq<Book>)
    ensures |r| == |s| + 1
    ensures multiset(r) == multiset(s) + multiset{x}
  {
    if s == [] || cmp(x, s[0]) <= 0 then [x] + s
    else
      assert s == [s[0]] + s[1..];
      [s[0]] + Insert(x, s[1..], cmp)
  }

  /** `[...s].sort(cmp)`: a stable sort of a copy of `s`. */
  function SortWith(s: seq<Book>, cmp: (Book, Book) -> int): (r: seq<Book>)
    ensures |r| == |s|
    ensures multiset(r) == multiset(s)
  {
    if s == [] then []
    else
      assert s == [s[0]] + s[1..];
      Insert(s[0], SortWith(s[1..], cmp), cmp)
  }

  /** The head of a sorted sequence may precede every later entry. */
  lemma HeadFirst(s: seq<Book>, cmp: (Book, Book) -> int)
    requires Sorted(s, cmp) && s != []
    ensures forall y :: y in s[1..] ==> cmp(s[0], y) <= 0
  {
  }

  /** An entry that may precede every entry of a sorted sequence can be put in front of it. */
  lemma PrependSorted(x: Book, s: seq<Book>, cmp: (Book, Book) -> int)
    requires Sorted(s, cmp)
    requires forall y :: y in s ==> cmp(x, y) <= 0
    ensures Sorted([x] + s, cmp)
  {
  }

  lemma {:induction false} InsertSorted(x: Book, s: seq<Book>, cmp: (Book, Book) -> int)
    requires TotalPreorder(cmp) && Sorted(s, cmp)
    ensures Sorted(Insert(x, s, cmp), cmp)
  {
    if s == [] {
    } else if cmp(x, s[0]) <= 0 {
      HeadFirst(s, cmp);
      forall y | y in s ensures cmp(x, y) <= 0 {
        if y != s[0] {
          assert s == [s[0]] + s[1..];
          assert y in s[1..];
          assert cmp(s[0], y) <= 0;
        }
      }
      PrependSorted(x, s, cmp);
    } else {
      assert Sorted(s[1..], cmp);
      InsertSorted(x, s[1..], cmp);
      HeadFirst(s, cmp);
      var tail := Insert(x, s[1..], cmp);
      forall y | y in tail ensures cmp(s[0], y) <= 0 {
        assert y in multiset(tail);
        if y != x {
          assert y in multiset(s[1..]);
        }
      }
      PrependSorted(s[0], tail, cmp);
    }
  }

  /** For any consistent comparator the copy is in order. */
  lemma {:induction false} SortWithSorted(s: seq<Book>, cmp: (Book, Book) -> int)
    requires TotalPreorder(cmp)
    ensures Sorted(SortWith(s, cmp), cmp)
  {
    if s != [] {
      SortWithSorted(s[1..], cmp);
      InsertSorted(s[0], SortWith(s[1..], cmp), cmp);
    }
  }

  /** Inserting `h` keeps it ahead of every entry tied with it. */
  lemma {:induction false} InsertTies(h: Book, s: seq<Book>, x: Book, cmp: (Book, Book) -> int)
    requires TotalPreorder(cmp)
    ensures Ties(Insert(h, s, cmp), x, cmp) == Ties([h] + s, x, cmp)
  {
    if s != [] && cmp(h, s[0]) > 0 {
      InsertTies(h, s[1..], x, cmp);
      assert ([h] + s)[1..] == s;
      assert ([h] + s[1..])[1..] == s[1..];
      if Tied(h, x, cmp) {
        // s[0] comes strictly before h, so it is not tied with x
        assert !Tied(s[0], x, cmp);
      }
    } else {
      assert Insert(h, s, cmp) == [h] + s;
    }
  }

  /** The sort keeps entries that the comparator ties in their original order. */
  lemma {:induction false} SortWithStable(s: seq<Book>, x: Book, cmp: (Book, Book) -> int)
    requires TotalPreorder(cmp)
    ensures Ties(SortWith(s, cmp), x, cmp) == Ties(s, x, cmp)
  {
    if s != [] {
      SortWithStable(s[1..], x, cmp);
      InsertTies(s[0], SortWith(s[1..], cmp), x, cmp);
      assert ([s[0]] + SortWith(s[1..], cmp))[1..] == SortWith(s[1..], cmp);
      assert s == [s[0]] + s[1..];
    }
  }

  /** The heads of two sorted orderings of the same entries are tied. */
  lemma HeadsTied(t: seq<Book>, u: seq<Book>, cmp: (Book, Book) -> int)
    requires TotalPreorder(cmp) && Sorted(t, cmp) && Sorted(u, cmp)
    requires multiset(t) == multiset(u) && t != [] && u != []
    ensures Tied(t[0], u[0], cmp)
  {
    assert t[0] in multiset(u) && u[0] in multiset(t);
    var i :| 0 <= i < |u| && u[i] == t[0];
    var j :| 0 <= j < |t| && t[j] == u[0];
    assert cmp(u[0], t[0]) <= 0 by { if i != 0 { assert cmp(u[0], u[i]) <= 0; } }
    assert cmp(t[0], u[0]) <= 0 by { if j != 0 { assert cmp(t[0], t[j]) <= 0; } }
  }

  /** Two sorted orderings of the same entries that agree on the entries tied with the first
      head start with the same entry. */
  lemma SameHead(t: seq<Book>, u: seq<Book>, cmp: (Book, Book) -> int)
    requires t != [] && u != []
    requires Tied(t[0], t[0], cmp) && Tied(u[0], t[0], cmp)
    requires Ties(t, t[0], cmp) == Ties(u, t[0], cmp)
    ensures t[0] == u[0]
  {
    var x := t[0];
    var tt, tu := Ties(t, x, cmp), Ties(u, x, cmp);
    assert tt == [t[0]] + Ties(t[1..], x, cmp);
    assert tu == [u[0]] + Ties(u[1..], x, cmp);
    assert tt[0] == t[0] && tu[0] == u[0];
  }

  /** Sequences with the same head that agree on the entries tied with `y` still agree on
      them once the head is dropped. */
  lemma TiesOfTails(t: seq<Book>, u: seq<Book>, y: Book, cmp: (Book, Book) -> int)
    requires t != [] && u != [] && t[0] == u[0]
    requires Ties(t, y, cmp) == Ties(u, y, cmp)
    ensures Ties(t[1..], y, cmp) == Ties(u[1..], y, cmp)
  {
    if Tied(t[0], y, cmp) {
      assert Ties(t, y, cmp)[1..] == Ties(t[1..], y, cmp);
      assert Ties(u, y, cmp)[1..] == Ties(u[1..], y, cmp);
    }
  }

  lemma SortedTail(s: seq<Book>, cmp: (Book, Book) -> int)
    requires Sorted(s, cmp) && s != []
    ensures Sorted(s[1..], cmp)
  {
  }

  /** What two orderings with the same head and the same entries share carries over to their tails. */
  lemma TailsAgree(t: seq<Book>, u: seq<Book>, cmp: (Book, Book) -> int)
    requires t != [] && u != [] && t[0] == u[0]
    requires multiset(t) == multiset(u)
    requires forall x :: Ties(t, x, cmp) == Ties(u, x, cmp)
    ensures multiset(t[1..]) == multiset(u[1..])
    ensures forall y :: Ties(t[1..], y, cmp) == Ties(u[1..], y, cmp)
  {
    assert t == [t[0]] + t[1..] && u == [u[0]] + u[1..];
    assert multiset(t) == multiset{t[0]} + multiset(t[1..]);
    assert multiset(u) == multiset{t[0]} + multiset(u[1..]);
    assert multiset(t[1..]) == multiset(t) - multiset{t[0]};
    assert multiset(u[1..]) == multiset(u) - multiset{t[0]};
    forall y ensures Ties(t[1..], y, cmp) == Ties(u[1..], y, cmp) {
      TiesOfTails(t, u, y, cmp);
    }
  }

  /** Two sorted, stable orderings of the same entries are the same sequence. */
  lemma {:induction false} SortedStableUnique(t: seq<Book>, u: seq<Book>, cmp: (Book, Book) -> int)
    requires TotalPreorder(cmp) && Sorted(t, cmp) && Sorted(u, cmp)
    requires multiset(t) == multiset(u)
    requires forall x :: Ties(t, x, cmp) == Ties(u, x, cmp)
    ensures t == u
  {
    assert |u| == |multiset(u)| == |multiset(t)| == |t|;
    if t != [] {
      HeadsTied(t, u, cmp);
      assert Tied(t[0], t[0], cmp);
      assert Ties(t, t[0], cmp) == Ties(u, t[0], cmp);
      SameHead(t, u, cmp);
      TailsAgree(t, u, cmp);
      SortedTail(t, cmp);
      SortedTail(u, cmp);
      SortedStableUnique(t[1..], u[1..], cmp);
      assert t == [t[0]] + t[1..] && u == [u[0]] + u[1..];
    }
  }

  /** Any sorted, stable permutation of `s` (such as the engine's own `sort` produces) is SortWith(s). */
  lemma SortWithUnique(s: seq<Book>, t: seq<Book>, cmp: (Book, Book) -> int)
    requires TotalPreorder(cmp) && Sorted(t, cmp)
    requires multiset(t) == multiset(s)
    requires forall x :: Ties(t, x, cmp) == Ties(s, x, cmp)
    ensures t == SortWith(s, cmp)
  {
    SortWithSorted(s, cmp);
    forall x ensures Ties(t, x, cmp) == Ties(SortWith(s, cmp), x, cmp) {
      SortWithStable(s, x, cmp);
    }
    SortedStableUnique(t, SortWith(s, cmp), cmp);
  }

  /** `(a, b) => a.title.localeCompare(b.title)` */
  function TitleAscending(localeCompare: (string, string) -> int): (Book, Book) -> int {
    (a: Book, b: Book) => localeCompare(a.title, b.title)
  }

  /** `(a, b) => b.title.localeCompare(a.title)` */
  function TitleDescending(localeCompare: (string, string) -> int): (Book, Book) -> int {
    (a: Book, b: Book) => localeCompare(b.title, a.title)
  }

  /** `(a, b) => a.author.localeCompare(b.author)` */
  function AuthorAscending(localeCompare: (string, string) -> int): (Book, Book) -> int {
    (a: Book, b: Book) => localeCompare(a.author, b.author)
  }

  /** `(a, b) => b.author.localeCompare(a.author)` */
  function AuthorDescending(localeCompare: (string, string) -> int): (Book, Book) -> int {
    (a: Book, b: Book) => localeCompare(b.author, a.author)
  }

  /** The comparator chosen by the sort selector; None for "none" and for any other value. */
  function Comparator(sortBy: string, localeCompare: (string, string) -> int): Option<(Book, Book) -> int> {
    if sortBy == "title-asc" then Some(TitleAscending(localeCompare))
    else if sortBy == "title-desc" then Some(TitleDescending(localeCompare))
    else if sortBy == "author-asc" then Some(AuthorAscending(localeCompare))
    else if sortBy == "author-desc" then Some(AuthorDescending(localeCompare))
    else None
  }

  /** The four comparators inherit totality and transitivity from the collation. */
  lemma ComparatorConsistent(sortBy: string, localeCompare: (string, string) -> int)
    requires Collation(localeCompare)
    ensures Comparator(sortBy, localeCompare).Some? ==> TotalPreorder(Comparator(sortBy, localeCompare).value)
  {
    var c := Comparator(sortBy, localeCompare);
    if c.Some? {
      var cmp := c.value;
      forall a: Book, b: Book ensures cmp(a, b) <= 0 || cmp(b, a) <= 0 {
        assert localeCompare(a.title, b.title) <= 0 || localeCompare(b.title, a.title) <= 0;
        assert localeCompare(a.author, b.author) <= 0 || localeCompare(b.author, a.author) <= 0;
      }
      forall a: Book, b: Book, d: Book | cmp(a, b) <= 0 && cmp(b, d) <= 0 ensures cmp(a, d) <= 0 {
        if sortBy == "title-asc" {
          assert localeCompare(a.title, b.title) <= 0 && localeCompare(b.title, d.title) <= 0;
        } else if sortBy == "title-desc" {
          assert localeCompare(d.title, b.title) <= 0 && localeCompare(b.title, a.title) <= 0;
        } else if sortBy == "author-asc" {
          assert localeCompare(a.author, b.author) <= 0 && localeCompare(b.author, d.author) <= 0;
        } else {
          assert localeCompare(d.author, b.author) <= 0 && localeCompare(b.author, a.author) <= 0;
        }
      }
    }
  }

  /** `sortedBooks`: a permutation of `books`; for "none" and any unrecognised value, `books`
      itself in the same order. */
  function SortBooks(books: seq<Book>, sortBy: string, localeCompare: (string, string) -> int): (r: seq<Book>)
    ensures multiset(r) == multiset(books)
    ensures Comparator(sortBy, localeCompare).None? ==> r == books
  {
    match Comparator(sortBy, localeCompare)
    case None => books
    case Some(cmp) => SortWith(books, cmp)
  }

  /** Ascending modes give a view non-decreasing in the chosen field, descending modes a view
      non-increasing in it. */
  lemma SortBooksOrdered(books: seq<Book>, sortBy: string, localeCompare: (string, string) -> int)
    requires Collation(localeCompare)
    ensures var r := SortBooks(books, sortBy, localeCompare);
      && (sortBy == "title-asc" ==> forall i, j :: 0 <= i < j < |r| ==> localeCompare(r[i].title, r[j].title) <= 0)
      && (sortBy == "title-desc" ==> forall i, j :: 0 <= i < j < |r| ==> localeCompare(r[j].title, r[i].title) <= 0)
      && (sortBy == "author-asc" ==> forall i, j :: 0 <= i < j < |r| ==> localeCompare(r[i].author, r[j].author) <= 0)
      && (sortBy == "author-desc" ==> forall i, j :: 0 <= i < j < |r| ==> localeCompare(r[j].author, r[i].author) <= 0)
  {
    var c := Comparator(sortBy, localeCompare);
    if c.Some? {
      ComparatorConsistent(sortBy, localeCompare);
      SortWithSorted(books, c.value);
      var r := SortBooks(books, sortBy, localeCompare);
      forall i, j | 0 <= i < j < |r| ensures c.value(r[i], r[j]) <= 0 {
      }
    }
  }

  /** Books the chosen comparator ties keep their relative order from `books`; and the view is
      the only ordering of the entries that is sorted and stable, so it does not depend on
      which algorithm the engine uses. */
  lemma SortBooksStable(books: seq<Book>, sortBy: string, localeCompare: (string, string) -> int)
    requires Collation(localeCompare)
    ensures var c := Comparator(sortBy, localeCompare);
      c.Some? ==> forall x :: Ties(SortBooks(books, sortBy, localeCompare), x, c.value) == Ties(books, x, c.value)
  {
    var c := Comparator(sortBy, localeCompare);
    if c.Some? {
      ComparatorConsistent(sortBy, localeCompare);
      forall x ensures Ties(SortBooks(books, sortBy, localeCompare), x, c.value) == Ties(books, x, c.value) {
        SortWithStable(books, x, c.value);
      }
    }
  }

  /** With tied titles the descending view is not the reverse of the ascending one: two books
      with the same title keep their order in both. */
  lemma DescendingIsNotReversedAscending()
    ensures var lc := (a: string, b: string) => 0;
      var books := [Book(1, "Dune", "Herbert", ToBeRead), Book(2, "Dune", "Anderson", Reading)];
      && Collation(lc)
      && SortBooks(books, "title-desc", lc) == books
      && SortBooks(books, "title-asc", lc) == books
      && SortBooks(books, "title-desc", lc) != [books[1], books[0]]
  {
  }
}
