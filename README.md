# Book tracker: store, Top 10 drag engine and collection filter

A Dafny model of the core of a personal book tracker written in React and
TypeScript. The tracker keeps a collection of books (title, author, one of six
categories, a rating, a date added, an optional cover). It also keeps a
"Top 10" ranking: at most ten books of the collection, in order. The model
covers three parts.

- **The store** (`store.dfy`, module `Store`). The class `BookStore` holds the two lists,
  `books` and `topTenBooks`, and its four mutators: `addBook`, `updateBook`,
  `deleteBook` and `updateTopTen`. Each method overwrites its fields with a
  pure function of the old values, just as the React state setters do. The
  store invariant says three things:
  - collection ids are unique;
  - the ranking holds at most ten books and no id twice;
  - every ranked entry is an entry of the collection.

  The invariant is proved to survive every mutator under the preconditions
  each one needs.
- **The Top 10 page** (`topten.dfy`, module `TopTen`).
  - `Available` is the list of books not yet ranked.
  - `arrayMove` of the sortable drag-and-drop library is a local function.
  - `DragEnd` is the decision taken at the end of a drag. It returns the new
    ranking handed to `updateTopTen`, or `None` when that is not called.
    It follows the handler's branches: no target, unknown book, reorder
    inside the ranking, insert an available book, take a ranked book out.
  - The class `TopTenPage` holds the gesture state (`activeId`, `container`)
    and a reference to the store.
  - The lemmas characterise each branch. They show that every gesture keeps
    the ranking consistent with the collection. They also show a defect of the page:
    its only drop targets are the book cards themselves, ranked
    (src/pages/TopTenPage.tsx:188-211) or available (:220-240). Nothing
    stands for the ranking as a whole, so an empty ranking offers no target
    and no gesture can add a first book to it (`EmptyRankingStaysEmpty`). The
    page's own instructions (src/pages/TopTenPage.tsx:163 and :198-200) tell
    the user to drag books from the collection to build the ranking.
- **The collection filter** (`booklist.dfy`, module `BookList`).
  - `FilteredBooks` combines a case-insensitive search over title and
    author, a category selection and a minimum rating.
  - `Includes` models `String.prototype.includes`. It is proved equal to
    "occurs at some index".
  - `Toggled` models the category toggle, and the class `FilterSettings`
    holds the three filter settings with `toggleCategory` and
    `clearFilters`.

`types.dfy` (module `Types`) holds the records and the id lookups (`some`,
`findIndex`, `find`, `map`). `seqs.dfy` (module `Seqs`) holds the array
operations used on them: `filter`, `slice(0, n)`, and `splice` for one
insertion or one removal.

Conventions:
- Ratings are integers counting half points, so 0..20 stands for 0..10.
- Strings are `seq<char>`.
- The generated UUID and the current date are parameters of `AddBook`.

## Model

| member | source | states |
|---|---|---|
| Types.FindIndex | src/pages/TopTenPage.tsx:105-106 | the result is -1 exactly when no entry has the id; otherwise it is the first index whose entry has the id |
| Types.Find | src/pages/TopTenPage.tsx:90-92 | a book is found exactly when some entry has the id; the book found is the first entry carrying that id |
| Types.HasIdMeans | src/context/BookContext.tsx:40 | `some(book => book.id === id)` holds exactly when some book of the list carries the id (the predicate `Types.HasId` has no contract of its own; this lemma gives its meaning) |
| Types.FindSkipsPrefix | src/pages/TopTenPage.tsx:90-92 | when the ranking lacks the id, `find` over the spread of both lists returns what `find` over the available list returns |
| Types.HasIdConcat | src/pages/TopTenPage.tsx:90 | an id occurs in the spread `[...topTen, ...available]` exactly when it occurs in one of the two parts |
| Types.ReplaceById | src/context/BookContext.tsx:35-37 | same length; each entry with the updated id becomes the update; every other entry is unchanged |
| Types.ReplaceByIdKeepsIds | src/context/BookContext.tsx:34-45 | replacing by id keeps the id at every position, keeps ids unique and keeps the set of ids present |
| Types.ReplaceAbsentIsIdentity | src/context/BookContext.tsx:39-44 | mapping with an id that is absent leaves the list equal to the original |
| Seqs.Filter | src/context/BookContext.tsx:48-49 | `filter` never lengthens the list, and everything it keeps passes the predicate |
| Seqs.FilterMember | src/pages/TopTenPage.tsx:34-36 | an entry survives `filter` exactly when it was in the list and passes the predicate |
| Seqs.FilterIsSubsequence | src/components/BookList.tsx:17-31 | `filter` keeps the relative order of the entries it keeps |
| Seqs.FilterAllPass | src/components/BookList.tsx:17-31 | a `filter` that every entry passes returns the list unchanged |
| Seqs.FilterRemovesOne | src/pages/TopTenPage.tsx:123 | a `filter` that rejects exactly one position equals removing that position |
| Seqs.SubsequenceMembers | src/components/BookList.tsx:17-31 | every entry of an order-preserving sublist is an entry of the whole |
| Seqs.Take | src/context/BookContext.tsx:54 | `slice(0, n)` has length min(n, length), is a prefix of the input, and is the input itself when that is no longer than n |
| Seqs.RemoveAt | src/pages/TopTenPage.tsx:109 | removing one position shortens the list by one and shifts the later entries down by one |
| Seqs.Insert | src/pages/TopTenPage.tsx:117-118 | `splice(i, 0, x)` lengthens the list by one, puts `x` at `i` and shifts the later entries up by one |
| Seqs.RemoveAtMultiset | src/pages/TopTenPage.tsx:109 | removing a position takes exactly one copy of its entry out of the multiset of entries |
| Seqs.InsertMultiset | src/pages/TopTenPage.tsx:117-118 | inserting adds exactly one copy of the entry to the multiset of entries |
| Seqs.RemoveInserted | src/pages/TopTenPage.tsx:117-118 | removing the entry just inserted at `i` gives back the original list |
| Seqs.InsertRemoved | src/pages/TopTenPage.tsx:109 | putting a removed entry back at its index gives back the original list |
| Store.RankedIdsAreBookIds | src/context/BookContext.tsx:39-44 | under a consistent ranking, every ranked id is a collection id |
| Store.NewBook | src/context/BookContext.tsx:26-30 | the new record carries exactly the form data, plus the given id and date |
| Store.WithoutId | src/context/BookContext.tsx:47-50 | dropping an id removes every entry with it and keeps every other entry in order; unique ids stay unique |
| Store.WithoutIdAbsent | src/context/BookContext.tsx:47-50 | deleting an id that no entry carries leaves the list equal to the original |
| Store.WithoutIdRemovesOne | src/pages/TopTenPage.tsx:123 | in a list with unique ids, dropping an entry's id removes exactly that one position |
| Store.SubsequenceKeepsUniqueIds | src/context/BookContext.tsx:47-50 | an order-preserving sublist of a list with unique ids has unique ids |
| Store.AddKeepsInvariant | src/context/BookContext.tsx:25-32 | appending a book with a fresh id keeps the store invariant |
| Store.UpdateKeepsInvariant | src/context/BookContext.tsx:34-45 | the update in both lists, the ranking's guarded by `some`, keeps the store invariant |
| Store.DeleteKeepsInvariant | src/context/BookContext.tsx:47-50 | dropping the id from both lists keeps the store invariant |
| Store.UpdateTopTenKeepsInvariant | src/context/BookContext.tsx:52-55 | a duplicate-free list of collection entries, cut to ten, is a consistent ranking |
| Store.BookStore.constructor | src/context/BookContext.tsx:7-15 | with nothing saved, both lists start empty and the invariant holds |
| Store.BookStore.AddBook | src/context/BookContext.tsx:25-32 | the new record is appended to the collection; the ranking is untouched; the invariant is kept |
| Store.BookStore.UpdateBook | src/context/BookContext.tsx:34-45 | the collection is mapped by id; the ranking is mapped only when it holds the id; the invariant is kept |
| Store.BookStore.DeleteBook | src/context/BookContext.tsx:47-50 | the id is gone from both lists, the other entries stay in order, and the invariant is kept |
| Store.BookStore.UpdateTopTen | src/context/BookContext.tsx:52-55 | the ranking becomes the first ten entries of the argument and the collection is untouched; the invariant holds when the argument is a duplicate-free list of collection entries |
| TopTen.ArrayMove | src/pages/TopTenPage.tsx:109 | same length; the moved entry lands at `to`; with it taken out, the rest equals the old list without `from` |
| TopTen.ArrayMovePermutes | src/pages/TopTenPage.tsx:109 | a move is a permutation: the multiset of entries is unchanged |
| TopTen.ArrayMoveUndo | src/pages/TopTenPage.tsx:109 | moving back from `to` to `from` restores the list |
| TopTen.ArrayMoveExample | src/pages/TopTenPage.tsx:109 | moving index 1 to index 0 turns [x, y, z] into [y, x, z] |
| TopTen.Available | src/pages/TopTenPage.tsx:34-36 | a book is available exactly when it is in the collection and its id is not ranked; order and unique ids are kept |
| TopTen.DragEnd | src/pages/TopTenPage.tsx:78-128 | `handleDragEnd`'s decision: with no target no update is made; an update happens only when the dragged book is ranked, or when the target is ranked and the ranking has room; the new list is at most one longer. Each branch is characterised by DragEndWithoutEffect, DropOnItself, DragEndReorders, DragEndInserts, DragEndUnrankedBlocked and DragEndRemoves |
| TopTen.NextRankingShape | src/pages/TopTenPage.tsx:78-128 | the store's ranking after a gesture (`TopTen.NextRanking`, which has no contract of its own) is the old one when no update is made, and at most ten books otherwise |
| TopTen.ContainerOf | src/pages/TopTenPage.tsx:52-56 | the container is the ranking exactly when some ranked book carries the id |
| TopTen.DragEndWithoutEffect | src/pages/TopTenPage.tsx:81-97 | a drop over nothing, or of an id found in neither list, calls no update and leaves the ranking as it was |
| TopTen.DropOnItself | src/pages/TopTenPage.tsx:103-111 | dropping a book on itself calls no update |
| TopTen.DragEndReorders | src/pages/TopTenPage.tsx:103-111 | ranked on ranked: the new ranking is a permutation of the old one, with the dragged book at the target's old index and the others in their old order |
| TopTen.ReorderExample | src/pages/TopTenPage.tsx:103-111 | [X, Y, Z] with Y dropped on X becomes [Y, X, Z] |
| TopTen.DragEndInserts | src/pages/TopTenPage.tsx:112-120 | an available book dropped on a ranked one, with room left, is inserted at the target's index; the other entries keep their order |
| TopTen.DragEndUnrankedBlocked | src/pages/TopTenPage.tsx:112-125 | an unranked book never enters a full ranking, and a drop that is not on a ranked book does nothing |
| TopTen.DragEndRemoves | src/pages/TopTenPage.tsx:121-124 | a ranked book dropped outside the ranking leaves it; the others keep their order, and with unique ids exactly one entry goes |
| TopTen.EmptyRankingStaysEmpty | src/pages/TopTenPage.tsx:99-125 | with an empty ranking no drop target is ranked, so no gesture changes it: a defect of the page, whose instructions ask the user to drag books into the ranking |
| TopTen.RemoveAtKeepsUniqueIds | src/pages/TopTenPage.tsx:109 | removing a position keeps ids unique, and the removed id is gone |
| TopTen.InsertKeepsUniqueIds | src/pages/TopTenPage.tsx:117-118 | inserting a book whose id is absent keeps ids unique |
| TopTen.DragEndKeepsConsistency | src/pages/TopTenPage.tsx:78-128 | every gesture leaves a consistent ranking (at most ten, no repeated id, collection entries only), so the cut to ten in `updateTopTen` never drops anything |
| TopTen.TopTenPage.constructor | src/pages/TopTenPage.tsx:29-31 | nothing is being dragged and the container starts as the ranking |
| TopTen.TopTenPage.HandleDragStart | src/pages/TopTenPage.tsx:49-57 | the dragged id is recorded; the container is the ranking exactly when the ranking holds that id |
| TopTen.TopTenPage.HandleDragOver | src/pages/TopTenPage.tsx:59-76 | the container becomes the target's list when the drag crosses lists; otherwise it stays as it was |
| TopTen.TopTenPage.HandleDragEnd | src/pages/TopTenPage.tsx:78-128 | the store's ranking becomes the gesture's result and the collection is untouched; the dragged id is cleared on every path while `container` is left as it was; the store invariant is kept |
| BookList.ToLowerChar | src/components/BookList.tsx:20 | ASCII capitals move to their lower-case letter, every other character is kept, and no capital remains |
| BookList.ToLower | src/components/BookList.tsx:20-21 | lower-casing a string keeps its length and lower-cases every character |
| BookList.Includes | src/components/BookList.tsx:20-21 | `includes` can only hold when the term is no longer than the text, and the empty term is always included; IncludesIff gives its full meaning |
| BookList.OccursAtStart | src/components/BookList.tsx:20-21 | an occurrence at index 0 is the same as a matching prefix |
| BookList.IncludesIff | src/components/BookList.tsx:20-21 | `includes` holds exactly when the term occurs at some index of the text |
| BookList.MatchesSearch | src/components/BookList.tsx:19-21 | the empty term matches every book; a match needs the term to be no longer than the title or the author |
| BookList.MatchesCategory | src/components/BookList.tsx:24-25 | with no category selected every book matches; otherwise the book's category must be one of those selected |
| BookList.MatchesRating | src/components/BookList.tsx:28 | a matching book has a rating of at least the minimum; with a minimum of at most 0 every non-negative rating matches |
| BookList.Matches | src/components/BookList.tsx:30 | a shown book passes the rating test, and with no term and no category the rating test alone decides |
| BookList.FilteredBooks | src/components/BookList.tsx:16-32 | a book is shown exactly when it is in the collection and passes the search, category and rating tests; the collection's order is kept |
| BookList.SearchMeaning | src/components/BookList.tsx:19-21 | an empty term matches every book; otherwise a book matches exactly when the lower-cased term occurs in its lower-cased title or author |
| BookList.DefaultFiltersShowAll | src/components/BookList.tsx:11-32 | with the initial settings, every book of non-negative rating is shown, in order |
| BookList.RatingExample | src/components/BookList.tsx:28 | ratings 8 and 3 with minimum 5 show only the first book |
| BookList.SearchExample | src/components/BookList.tsx:19-21 | the term "dune" finds the title "Dune" |
| BookList.Toggled | src/components/BookList.tsx:34-40 | the toggled category flips its membership and every other category keeps its own |
| BookList.ToggleTwice | src/components/BookList.tsx:34-40 | toggling twice restores membership, and restores the list itself when the category was not selected |
| BookList.FilterSettings.constructor | src/components/BookList.tsx:11-14 | the settings start with no term, no category and minimum 0 |
| BookList.FilterSettings.ToggleCategory | src/components/BookList.tsx:34-40 | the selection becomes the toggled list; the category is selected exactly when it was not |
| BookList.FilterSettings.ClearFilters | src/components/BookList.tsx:42-46 | the settings return to the initial ones |

## Left out

- Persistence: `localStorage` reads at startup and writes on change, and JSON (de)serialisation, are I/O. The store starts from empty lists, which is the case where nothing is saved.
- Store.BookStore.AddBook: `crypto.randomUUID()` and `new Date().toISOString()` become parameters, and the new id must be fresh. The code relies on UUID uniqueness rather than checking it, and the UUID generator is outside the model.
- The drag-and-drop library's sensors, collision detection, drag overlay and animations are left out. The gesture is given as the dragged id and the id it ends over, or none.
- The `activeBook` lookup for the drag overlay (src/pages/TopTenPage.tsx:130-133) is not modelled. It only feeds rendering.
- Ratings are JavaScript numbers, which may be fractional. They are modelled as integers counting half points, which are the steps the forms produce.
- `toLowerCase` is modelled for ASCII letters only. Unicode case mapping is not modelled.
- The text inputs' `setSearchTerm` and `setRatingFilter` handlers and the show/hide toggles are plain assignments of UI state and are not modelled.
- The forms, the book card, the navigation bar, the theme, the routes and the home page are not part of this model.
- `splice` on the copied ranking is modelled as a pure insertion. The copy is fresh and never shared, so nothing else sees the update in place.
- Concurrent batched state updates are not modelled. Each setter here takes effect at once, in program order. In `updateBook`, the ranking guard reads the ranking from the same render, and in a single update that is the same value.
