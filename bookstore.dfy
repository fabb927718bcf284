/**
  The `BookStore` object: the catalogue it was built with, the current result
  set `matches` and the pagination counter `page`, with the operations the
  page calls on a search, on first render, on "show more", and to label and
  enable the "show more" button.
 */
module Store {
  import opened Seqs
  import opened Catalog
  import opened Paging

  class BookStore {
    const books: seq<Book>
    const authors: map<string, string>
    const genres: map<string, string>
    const booksPerPage: nat
    var page: nat
    var matches: seq<Book>
    /** The criteria `matches` was last computed from; the blank form at start. */
    ghost var criteria: Filters

    /** `matches` is always the catalogue filtered by some criteria, and a page is on screen. */
    ghost predicate Valid()
      reads this
    {
      page >= 1 && matches == Filtered(books, criteria)
    }

    /** Keeps the four inputs; every book matches and one page is shown. */
    constructor (books: seq<Book>, authors: map<string, string>, genres: map<string, string>, booksPerPage: nat)
      ensures Valid()
      ensures this.books == books && this.authors == authors && this.genres == genres
      ensures this.booksPerPage == booksPerPage
      ensures page == 1 && matches == books && criteria == DefaultFilters
    {
      BlankFiltersKeepCatalog(books, DefaultFilters);
      this.books := books;
      this.authors := authors;
      this.genres := genres;
      this.booksPerPage := booksPerPage;
      page := 1;
      matches := books;
      criteria := DefaultFilters;
    }

    /**
      A search replaces the result set with the matching books, in catalogue
      order, and goes back to the first page; the catalogue, the lookup tables
      and the page size are constants.
     */
    method ApplyFilters(filters: Filters)
      modifies this`page, this`matches, this`criteria
      ensures Valid()
      ensures page == 1 && criteria == filters
      ensures matches == Filtered(books, filters)
      ensures Filtered(matches, filters) == matches
    {
      page := 1;
      matches := Filtered(books, filters);
      criteria := filters;
      FilteredIdempotent(books, filters);
    }

    /** The first page of results, whatever page the counter is on. */
    function BooksToRender(): (r: seq<Book>)
      reads this
      ensures |r| == Min(booksPerPage, |matches|) && r == matches[..|r|]
      ensures r == Revealed(matches, 1, booksPerPage)
    {
      Slice(matches, 0, booksPerPage)
    }

    /** How many results are not on screen yet; never negative. */
    function RemainingBooksCount(): (n: int)
      reads this
      ensures n >= 0
      ensures n == |matches| - |Revealed(matches, page, booksPerPage)|
    {
      Max(|matches| - page * booksPerPage, 0)
    }

    /** The "show more" button is disabled exactly when nothing remains. */
    function ShowMoreDisabled(): (disabled: bool)
      reads this
      ensures disabled <==> RemainingBooksCount() == 0
      ensures disabled <==> Revealed(matches, page, booksPerPage) == matches
    {
      |matches| - page * booksPerPage <= 0
    }

    /**
      The book a clicked preview stands for: searched in the whole catalogue,
      not only in the current results.
     */
    function FindBook(id: string): (r: Option<Book>)
      reads this
      ensures r.None? <==> forall i :: 0 <= i < |books| ==> books[i].id != id
      ensures r.Some? ==> exists i :: 0 <= i < |books| && books[i] == r.value && r.value.id == id &&
                                      forall j :: 0 <= j < i ==> books[j].id != id
    {
      Find(books, id)
    }

    /**
      "Show more": hands back the next page of results (empty once all are
      shown) and moves the counter on by one. The result set is untouched, the
      new items extend the screen exactly, and the remaining count drops by a
      page, stopping at zero.
     */
    method HandleShowMoreClick() returns (newItems: seq<Book>)
      requires Valid()
      modifies this`page
      ensures Valid()
      ensures page == old(page) + 1
      ensures newItems == ShowMoreItems(matches, old(page), booksPerPage)
      ensures old(Revealed(matches, page, booksPerPage)) + newItems == Revealed(matches, page, booksPerPage)
      ensures RemainingBooksCount() == Max(old(RemainingBooksCount()) - booksPerPage, 0)
    {
      ghost var before := |matches| - page * booksPerPage;
      assert (page + 1) * booksPerPage == page * booksPerPage + booksPerPage;
      newItems := ShowMoreItems(matches, page, booksPerPage);
      page := page + 1;
      assert |matches| - page * booksPerPage == before - booksPerPage;
    }
  }
}
