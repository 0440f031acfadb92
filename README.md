# BookSorter client book list, modelled in Dafny

BookSorter is a small reading-list application. The browser component `App` keeps an
in-memory list of book records (`books`), the two text inputs used to add a book (`title`,
`author`), the chosen sort order (`sortBy`) and the last randomly picked book
(`selectedRandomBook`). Its handlers add a book (after the store has created it), delete a
book, replace a book whose status the store has updated, and shuffle the list and pick one
book at random. A derived view, `sortedBooks`, shows a copy of the list ordered by title or
author, ascending or descending.

The model has three modules:

- `Books` (`books.dfy`): the `Status` enumeration and its text labels, the `Book` record, and
  the two list transformations the handlers use: `Without` (`books.filter(book => book.id !== id)`)
  and `Replace` (`books.map(book => book.id === updated.id ? updated : book)`), with what they
  keep and drop.
- `Sorting` (`sorting.dfy`): the comparators the sort selector chooses, a stable sort
  `SortWith`, and `SortBooks`, the `sortedBooks` view. `localeCompare` is a parameter; the
  ordering facts assume only that "`localeCompare(a, b) <= 0`" is total and transitive
  (`Collation`). `Array.prototype.sort` is stable, and `SortWithUnique` proves that a sorted,
  stable permutation is unique, so the insertion sort used here gives the same sequence as
  whatever algorithm the engine runs.
- `App` (`app.dfy`): the class `BookApp` with the component's five state fields and one method
  per handler. The store's reply is a parameter of each handler that talks to the store: `None`
  (or `requestCompleted == false` for the delete) stands for a request whose `fetch` or
  `res.json()` threw. `Math.random()` is a `real` parameter in [0, 1). The shuffled list is a
  parameter too: any permutation of the current list.

Three behaviours of the code are worth stating plainly:

- With tied keys the descending view keeps the list order, as the ascending view does, so it
  is not the ascending view reversed (`DescendingIsNotReversedAscending`).
- A delete filters the list whenever `fetch` resolves, even on an error status. When `fetch`
  throws, nothing is removed.
- A status update replaces every entry whose id equals the reply's id, not the id that was
  requested.

## Model

| member | source | states |
|---|---|---|
| `Books.Label` | src/App.jsx:125-130 | every status has a non-empty label, the text of its option in the status selector |
| `Books.ParseLabel` | src/App.jsx:125-130 | only the three option texts are statuses, and a parsed status has exactly that text as its label |
| `Books.LabelRoundTrip` | src/App.jsx:125-130 | reading back a status's label gives the same status |
| `Books.Without` | src/App.jsx:46 | the filtered list is no longer than the list, holds only entries of the list, and none of them has the deleted id |
| `Books.WithoutKeepsOthers` | src/App.jsx:46 | every entry with another id is kept, as many times as it occurred |
| `Books.WithoutIsSubsequence` | src/App.jsx:46 | the kept entries are in their original relative order |
| `Books.WithoutAbsent` | src/App.jsx:46 | deleting an id that no entry carries leaves the list unchanged |
| `Books.WithoutIdempotent` | src/App.jsx:46 | deleting the same id twice is the same as deleting it once |
| `Books.Replace` | src/App.jsx:60 | the length is kept, every position whose id equals the reply's id holds the reply, and every other position is unchanged |
| `Books.ReplaceAbsent` | src/App.jsx:60 | a reply whose id no entry carries leaves the list unchanged |
| `Books.ReplaceIdempotent` | src/App.jsx:60 | applying the same reply twice is the same as once, and the id at every position is unchanged |
| `Sorting.SortWith` | src/App.jsx:76-85 | sorting a copy gives a permutation of the list, of the same length |
| `Sorting.SortWithSorted` | src/App.jsx:76-85 | under a total, transitive comparator every entry of the sorted copy may precede every later entry |
| `Sorting.SortWithStable` | src/App.jsx:76-85 | entries that the comparator ties keep their relative order |
| `Sorting.SortedStableUnique` | src/App.jsx:76-85 | two sorted, stable orderings of the same entries are equal |
| `Sorting.SortWithUnique` | src/App.jsx:76-85 | any sorted, stable permutation of the list is the modelled sort's result |
| `Sorting.ComparatorConsistent` | src/App.jsx:77-84 | the four comparators are total and transitive whenever `localeCompare` is |
| `Sorting.SortBooks` | src/App.jsx:75-87 | the view is a permutation of `books`; for `'none'` and any unrecognised `sortBy` it is `books` in the same order |
| `Sorting.SortBooksOrdered` | src/App.jsx:77-84 | `title-asc`/`author-asc` views are non-decreasing in that field under `localeCompare`; `title-desc`/`author-desc` views are non-increasing |
| `Sorting.SortBooksStable` | src/App.jsx:77-84 | in every sorting mode, books with tied keys keep their order from `books` |
| `Sorting.DescendingIsNotReversedAscending` | src/App.jsx:77-80 | with two books of equal title, the descending view equals the ascending view and is not its reverse |
| `App.RandomIndex` | src/App.jsx:70 | `Math.floor(random * length)` is a valid index for any `random` in [0, 1) |
| `App.BookApp.constructor` | src/App.jsx:5-9 | the initial state: no books, empty inputs, sort `'none'`, no book picked |
| `App.BookApp.SortedBooks` | src/App.jsx:75-87 | the view read from the component is a permutation of its `books`, and reading it changes no state |
| `App.BookApp.FetchBooks` | src/App.jsx:15-23 | the list becomes the store's list, or is unchanged when the request throws; nothing else changes |
| `App.BookApp.SetTitle` | src/App.jsx:94-99 | only `title` changes, to the typed value |
| `App.BookApp.SetAuthor` | src/App.jsx:100-105 | only `author` changes, to the typed value |
| `App.BookApp.SetSortBy` | src/App.jsx:111-117 | only `sortBy` changes, to the selected value |
| `App.BookApp.AddBook` | src/App.jsx:25-41 | with an empty title or author, or a request that throws, the list and both inputs are unchanged; otherwise the returned record is appended at the end and both inputs are cleared; the old list is always a prefix of the new one |
| `App.BookApp.DeleteBook` | src/App.jsx:43-50 | after a request that did not throw, the list is the filtered list: no entry has the id, and every other entry is kept in order; after a request that threw, nothing changes |
| `App.BookApp.UpdateStatus` | src/App.jsx:52-64 | the list keeps its length and its ids at every position; entries with the reply's id become the reply; a request that throws changes nothing |
| `App.BookApp.RandomSort` | src/App.jsx:66-73 | the list becomes the given permutation of itself; if it is non-empty, the pick is the book at `Math.floor(random * length)` of the shuffled list, which is a book of the old list; if it is empty, the pick is unchanged; the inputs and `sortBy` do not change |

## Left out

- The server (`server.js`): table creation, the four endpoints, id assignment by `AUTO_INCREMENT`, the status `ENUM` and its default. These are database-engine behaviour. The store's replies are parameters of the handlers instead.
- `fetch`, `res.json()`, `async`/`await`, the `useEffect` that loads the list on mount, and `console.error` logging. Only their outcome is modelled, as a handler parameter.
- FetchBooks: a failed load answers with an HTTP error status and the body `{error}`. `fetch` does not throw on an error status, so the source stores that object as `books`, and the next computation of the sorted view then throws when it spreads a non-array. The model's reply is either a list of records or a thrown request, so this case is not represented.
- AddBook: a reply with an HTTP error status does not make `fetch` throw, so the source appends the error body `{error}` to the list as if it were a book. The model's reply is either a record or a thrown request, so this case is not represented.
- UpdateStatus: for the same reason an error body reaches the `map`. Its id is undefined, so it matches no entry and the list is unchanged. The model does not represent such a reply.
- React rendering and the JSX markup, state batching, and handlers that close over a stale `books`. These are rendering and timing behaviour of the framework. Each method sees the current state.
- `localeCompare` collation. It is locale-dependent library behaviour and is a parameter here. Its only assumed properties are totality and transitivity (`Collation`).
- RandomSort: the shuffle `[...books].sort(() => Math.random() - 0.5)` is modelled as its outcome, a `shuffled` parameter that may be any permutation of `books`. The distribution of the shuffle and of the pick is not modelled.
- Floating-point rounding of `Math.random() * length`. The product is taken over the reals.
- JavaScript truthiness of `title && author` is modelled as "not the empty string", which is the only falsy string.
