/** The `App` component's state and its handlers.

    Each handler that talks to the store takes the store's reply as a parameter: `None` (or
    `false` for the delete) stands for a request whose `fetch` or `res.json()` threw, which the
    handler logs and otherwise ignores. The randomness of `randomSort` (the shuffled list and the
    value of `Math.random()`) is a parameter too. */
module App {
  import opened Books
  import Sorting

  /** `Math.floor(random * length)` for a `random` drawn from [0, 1): always a valid index. */
  function RandomIndex(random: real, length: nat): (k: int)
    requires 0.0 <= random < 1.0 && length > 0
    ensures 0 <= k < length
    ensures k as real <= random * length as real < k as real + 1.0
  {
    var n := length as real;
    assert 0.0 <= random * n by { assert 0.0 <= n; }
    assert random * n < n by { assert (1.0 - random) * n > 0.0; }
    (random * n).Floor
  }

  class BookApp {
    var books: seq<Book>
    var title: string
    var author: string
    var sortBy: string
    /** `null` until the first random pick. */
    var selectedRandomBook: Option<Book>

    /** The initial state: no books, empty inputs, no sorting, nothing picked. */
    constructor ()
      ensures books == [] && title == "" && author == ""
      ensures sortBy == "none" && selectedRandomBook == None
    {
      books := [];
      title := "";
      author := "";
      sortBy := "none";
      selectedRandomBook := None;
    }

    /** The view derived from `books` and `sortBy`; reading it changes nothing. */
    function SortedBooks(localeCompare: (string, string) -> int): (r: seq<Book>)
      reads this
      ensures multiset(r) == multiset(books)
    {
      Sorting.SortBooks(books, sortBy, localeCompare)
    }

    /** The initial load: the list becomes the store's list, or stays as it was if the request threw. */
    method FetchBooks(reply: Option<seq<Book>>)
      modifies this
      ensures books == (if reply.Some? then reply.value else old(books))
      ensures title == old(title) && author == old(author)
      ensures sortBy == old(sortBy) && selectedRandomBook == old(selectedRandomBook)
    {
      match reply
      case Some(data) => books := data;
      case None =>
    }

    /** The title input's change handler. */
    method SetTitle(value: string)
      modifies this
      ensures title == value
      ensures books == old(books) && author == old(author)
      ensures sortBy == old(sortBy) && selectedRandomBook == old(selectedRandomBook)
    {
      title := value;
    }

    /** The author input's change handler. */
    method SetAuthor(value: string)
      modifies this
      ensures author == value
      ensures books == old(books) && title == old(title)
      ensures sortBy == old(sortBy) && selectedRandomBook == old(selectedRandomBook)
    {
      author := value;
    }

    /** The sort selector's change handler; any text is accepted, unknown values sort nothing. */
    method SetSortBy(value: string)
      modifies this
      ensures sortBy == value
      ensures books == old(books) && title == old(title) && author == old(author)
      ensures selectedRandomBook == old(selectedRandomBook)
    {
      sortBy := value;
    }

    /** `addBook`: with both inputs filled, sends them to the store; the record it returns is
        appended and the inputs are cleared. With an empty input nothing is sent and nothing
        changes; a request that throws changes nothing either. */
    method AddBook(reply: Option<Book>)
      modifies this
      ensures old(title) == "" || old(author) == "" || reply.None? ==>
        books == old(books) && title == old(title) && author == old(author)
      ensures old(title) != "" && old(author) != "" && reply.Some? ==>
        books == old(books) + [reply.value] && title == "" && author == ""
      ensures |books| <= |old(books)| + 1 && books[..|old(books)|] == old(books)
      ensures sortBy == old(sortBy) && selectedRandomBook == old(selectedRandomBook)
    {
      if title != "" && author != "" {
        match reply
        case Some(newBook) =>
          books := books + [newBook];
          title := "";
          author := "";
        case None =>
      }
    }

    /** `deleteBook(id)`: once the request has been sent without throwing, every entry with
        that id is dropped and the others keep their order (whatever the store answered). */
    method DeleteBook(id: int, requestCompleted: bool)
      modifies this
      ensures books == (if requestCompleted then Without(old(books), id) else old(books))
      ensures requestCompleted ==> forall b :: b in books ==> b.id != id
      ensures forall b: Book :: b.id != id ==> multiset(books)[b] == multiset(old(books))[b]
      ensures title == old(title) && author == old(author)
      ensures sortBy == old(sortBy) && selectedRandomBook == old(selectedRandomBook)
    {
      if requestCompleted {
        forall b: Book | b.id != id ensures multiset(Without(books, id))[b] == multiset(books)[b] {
          WithoutKeepsOthers(books, id, b);
        }
        books := Without(books, id);
      }
    }

    /** `updateStatus(id, status)`: `id` and `status` only go into the request; the store's
        reply is deliberately left unconstrained, since the handler trusts whatever record comes
        back. The reply replaces every entry carrying the reply's id (not necessarily `id`); the
        length and every other entry stay. */
    method UpdateStatus(id: int, status: Status, reply: Option<Book>)
      modifies this
      ensures books == (if reply.Some? then Replace(old(books), reply.value) else old(books))
      ensures |books| == |old(books)|
      ensures forall i :: 0 <= i < |books| ==> books[i].id == old(books)[i].id
      ensures title == old(title) && author == old(author)
      ensures sortBy == old(sortBy) && selectedRandomBook == old(selectedRandomBook)
    {
      match reply
      case Some(updatedBook) => books := Replace(books, updatedBook);
      case None =>
    }

    /** `randomSort`: the list is replaced by `shuffled`, the outcome of sorting a copy with a
        comparator whose answers are random, which can be any permutation of the list; then the
        book at index `Math.floor(random * length)` of the shuffled list is picked, `random`
        being the value of `Math.random()`. */
    method RandomSort(shuffled: seq<Book>, random: real)
      requires multiset(shuffled) == multiset(books)
      requires 0.0 <= random < 1.0
      modifies this
      ensures books == shuffled
      ensures multiset(books) == multiset(old(books))
      ensures |books| > 0 ==> selectedRandomBook == Some(books[RandomIndex(random, |books|)])
      ensures |books| > 0 ==> selectedRandomBook.Some? && selectedRandomBook.value in old(books)
      ensures |books| == 0 ==> selectedRandomBook == old(selectedRandomBook)
      ensures title == old(title) && author == old(author) && sortBy == old(sortBy)
    {
      books := shuffled;
      if |shuffled| > 0 {
        var randomIndex := RandomIndex(random, |shuffled|);
        selectedRandomBook := Some(shuffled[randomIndex]);
        assert shuffled[randomIndex] in multiset(shuffled);
      }
    }
  }
}
