# Book catalogue store

This project models the state held by the `BookStore` class of a client-side
book-catalogue page. The class holds:

- the full catalogue of books;
- the author and genre lookup tables;
- the page size;
- the current result set `matches`;
- the pagination counter `page`.

A search replaces `matches` with the catalogue books that pass three tests:

- genre: the selected genre is "any", or it is in the book's genre list;
- title: the query is blank after trimming, or it occurs, case-insensitively, in the title;
- author: the selected author is "any", or it is the book's author.

A search also resets `page` to 1. The first render shows the first page of
`matches`. "Show more" returns the next page slice and advances `page`. The
button label shows how many results remain, and the button is disabled when
none do. Clicking a preview looks the book up by id.

Files:

- `text.dfy` (module `Text`): the string built-ins the filter calls. These are
  `trim` with ECMAScript's whitespace set, `toLowerCase` restricted to ASCII,
  and `includes`, specified by "occurs at some index".
- `seqs.dfy` (module `Seqs`): `Option`, `Array.prototype.slice` for
  non-negative bounds, and order-preserving subsequences.
- `catalog.dfy` (module `Catalog`): the `Book` and `Filters` records, the
  per-book test, the filter over the catalogue with its soundness,
  completeness and order properties, and `find` by id.
- `paging.dfy` (module `Paging`): what is on screen after a number of pages,
  the slice "show more" appends, and what the list holds after any number of
  clicks.
- `bookstore.dfy` (module `Store`): the class `BookStore`. The catalogue, the
  lookup tables and the page size are `const` fields, so no operation can
  change them. `page` and `matches` are mutable fields. A ghost field
  `criteria` records the filters `matches` was computed from. `Valid()` keeps
  `matches == Filtered(books, criteria)` and `page >= 1`.

Points where the source behaves differently from what a reader might expect;
the model follows the source:

- The title test trims the query only to decide whether it is blank. The
  substring test uses the untrimmed lower-cased query, so " dune" does not
  find "Dune" (`Catalog.PaddedQueryNotTrimmed`).
- Nothing checks the page size. The constructor accepts any `nat`, and only
  the lemma that "show more" eventually reveals everything needs a positive
  page size.
- `getBooksToRender` always returns the first page, whatever the counter says.
- As written, `scripts.js` closes the class body at line 21, so the members at
  lines 26-220 sit outside it. They are modelled as the methods of
  `BookStore` that they are evidently meant to be.

## Model

| member | source | states |
|---|---|---|
| `Text.Trim` | StudentNo_Classcode_Group_Name-Surname_DJS03-main/scripts.js:168 | `trim()` returns the query without its leading and trailing whitespace runs, the rest kept as a contiguous piece; it yields the empty string exactly when every character of the query is whitespace; otherwise the result starts and ends with non-whitespace |
| `Text.ToLower` | StudentNo_Classcode_Group_Name-Surname_DJS03-main/scripts.js:168 | lower-casing keeps the length, maps each character on its own, and leaves no ASCII capital letter |
| `Text.ToLowerIdempotent` | StudentNo_Classcode_Group_Name-Surname_DJS03-main/scripts.js:168 | lower-casing a lower-cased string changes nothing |
| `Text.LowerKeepsBlank` | StudentNo_Classcode_Group_Name-Surname_DJS03-main/scripts.js:168 | lower-casing a query neither makes it blank nor makes a blank query non-blank, so the trimmed-blank test gives the same answer before and after |
| `Text.Includes` | StudentNo_Classcode_Group_Name-Surname_DJS03-main/scripts.js:168 | `includes` is true exactly when the needle occurs at some index of the haystack (so the empty needle is always found) |
| `Seqs.Slice` | StudentNo_Classcode_Group_Name-Surname_DJS03-main/scripts.js:192 | `slice(start, end)` returns the elements from `start` on, clipped to the length, and is empty when the range is empty or starts past the end |
| `Catalog.Filtered` | StudentNo_Classcode_Group_Name-Surname_DJS03-main/scripts.js:166-171 | the result is an order-preserving subsequence of the catalogue; a book is in it exactly when it is in the catalogue and passes the genre, title and author tests together; each passing book keeps its multiplicity |
| `Catalog.FilteredAllMatch` | StudentNo_Classcode_Group_Name-Surname_DJS03-main/scripts.js:166-171 | when every book passes, the filter returns the catalogue itself |
| `Catalog.BlankFiltersKeepCatalog` | StudentNo_Classcode_Group_Name-Surname_DJS03-main/scripts.js:167-169 | genre "any", author "any" and an empty or all-whitespace title give back the whole catalogue in order |
| `Catalog.FilteredIdempotent` | StudentNo_Classcode_Group_Name-Surname_DJS03-main/scripts.js:164-171 | filtering a result again with the same criteria leaves it unchanged |
| `Catalog.SpecificCriteriaExclude` | StudentNo_Classcode_Group_Name-Surname_DJS03-main/scripts.js:167-170 | a book lacking a requested non-"any" genre, or by another author than a requested non-"any" author, is never in the result |
| `Catalog.AuthorOnlyFilter` | StudentNo_Classcode_Group_Name-Surname_DJS03-main/scripts.js:169 | selecting only an author keeps exactly the catalogue books by that author |
| `Catalog.QueryCaseInsensitive` | StudentNo_Classcode_Group_Name-Surname_DJS03-main/scripts.js:168 | any two queries that agree after lower-casing select exactly the same books, in the same order, whatever the genre and author |
| `Catalog.QueryIgnoresCase` | StudentNo_Classcode_Group_Name-Surname_DJS03-main/scripts.js:168 | an instance of the rule above: the query "dune" finds the title "Dune" |
| `Catalog.PaddedQueryNotTrimmed` | StudentNo_Classcode_Group_Name-Surname_DJS03-main/scripts.js:168 | " dune" is not blank, yet it does not find "Dune": the substring test uses the untrimmed query |
| `Catalog.Find` | StudentNo_Classcode_Group_Name-Surname_DJS03-main/scripts.js:204 | `find` by id returns nothing exactly when no book has the id; otherwise it returns the book at the first index carrying the id |
| `Paging.Revealed` | StudentNo_Classcode_Group_Name-Surname_DJS03-main/scripts.js:110-111 | after `page` pages the screen holds the first `page * booksPerPage` results, clipped to the result count |
| `Paging.ShowMoreItems` | StudentNo_Classcode_Group_Name-Surname_DJS03-main/scripts.js:192 | the "show more" slice extends the revealed prefix by exactly one page, has at most a page of items, and is empty once everything is revealed |
| `Paging.Shown` | StudentNo_Classcode_Group_Name-Surname_DJS03-main/scripts.js:185-193 | the list rendered after a search and a number of "show more" clicks; with no clicks it is the first page of results, clipped to their count (what `getBooksToRender` puts on screen); what it is after clicks is stated by `Paging.ShownIsRevealed` |
| `Paging.ShownIsRevealed` | StudentNo_Classcode_Group_Name-Surname_DJS03-main/scripts.js:191-196 | the first page followed by the slices of `k` clicks is exactly the first `k + 1` pages of results: no gap, no repetition, in order |
| `Paging.ShowMoreExhausts` | StudentNo_Classcode_Group_Name-Surname_DJS03-main/scripts.js:191-196 | once `clicks + 1` pages cover the results, every result is on screen and a further click returns nothing |
| `Paging.ShowMoreTerminates` | StudentNo_Classcode_Group_Name-Surname_DJS03-main/scripts.js:191-196 | with a positive page size, as many clicks as there are results always put every result on screen |
| `Store.BookStore.constructor` | StudentNo_Classcode_Group_Name-Surname_DJS03-main/scripts.js:13-19 | the store keeps its four inputs, `page` is 1, `matches` is the whole catalogue, and that is the catalogue filtered by the blank form |
| `Store.BookStore.ApplyFilters` | StudentNo_Classcode_Group_Name-Surname_DJS03-main/scripts.js:164-172 | `page` becomes 1 and `matches` the catalogue filtered by the criteria; the catalogue, tables and page size are constants; re-filtering the new matches changes nothing |
| `Store.BookStore.BooksToRender` | StudentNo_Classcode_Group_Name-Surname_DJS03-main/scripts.js:36-38 | the first `booksPerPage` results, or all of them when there are fewer, independent of `page` |
| `Store.BookStore.RemainingBooksCount` | StudentNo_Classcode_Group_Name-Surname_DJS03-main/scripts.js:110-112 | never negative; equals the number of results not yet on screen |
| `Store.BookStore.ShowMoreDisabled` | StudentNo_Classcode_Group_Name-Surname_DJS03-main/scripts.js:102 | the button is disabled exactly when the remaining count is 0, that is, when every result is on screen |
| `Store.BookStore.FindBook` | StudentNo_Classcode_Group_Name-Surname_DJS03-main/scripts.js:204 | the lookup searches the store's whole catalogue, not the current results: it returns nothing exactly when no catalogue book has the id, and otherwise the catalogue book at the first index carrying the id |
| `Store.BookStore.HandleShowMoreClick` | StudentNo_Classcode_Group_Name-Surname_DJS03-main/scripts.js:191-196 | returns the next page slice, which extends the screen exactly; `page` goes up by one and `matches` is untouched; the remaining count drops by one page and stops at 0 |

## Left out

- Rendering and DOM work: `init`, `renderBooks`, `createBookElement`, `populateSelectOptions`, the message toggling and scrolling in `renderFilteredBooks`, and the `renderBooks`/`updateShowMoreButton` calls inside `handleShowMoreClick`. These are browser output with no state of the store beyond what is modelled.
- The button label text at lines 101 and 104-107. Line 101 is overwritten at once; the count shown at line 106 is `RemainingBooksCount`.
- Theme handling (`setTheme`, `updateTheme`, `handleSettingsFormSubmit`). It reads the browser's colour-scheme preference and sets CSS variables.
- Overlay open/close handlers and event wiring (`addEventListeners` and the handlers at lines 114-145). This is UI plumbing.
- Form parsing in `handleSearchFormSubmit` (`FormData`, `Object.fromEntries`). Search criteria arrive as an already-parsed `Filters` value.
- The walk over `composedPath()` in `handleBookClick` and the detail overlay `openBookDetail`. Only the `find` by id is modelled.
- Book fields `image`, `description` and `published`. The store's logic never reads them.
- `Text.ToLower`: only ASCII letters are lower-cased. JavaScript's full Unicode case mapping is not modelled.
- `Text.Includes`: compares Unicode scalar values. JavaScript compares UTF-16 code units; the two agree except on unpaired surrogates.
- The module `data.js` that supplies the books, tables and page-size constant is not part of this model. The store takes them as constructor arguments.
- Aliasing of the `books` array with `matches` after construction: the model uses sequence values. The source never mutates either array in place.
