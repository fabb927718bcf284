/**
  The book catalogue: the book record, the search form's three criteria, the
  per-book test `applyFilters` runs, the filter over the whole catalogue, and
  the lookup by id used when a preview is clicked.
 */
module Catalog {
  import opened Text
  import opened Seqs

  /** A catalogue entry; `genres` lists genre ids and may repeat one. */
  datatype Book = Book(id: string, title: string, author: string, genres: seq<string>)

  /** The submitted search form: a free-text title and two select values. */
  datatype Filters = Filters(title: string, genre: string, author: string)

  /** The value of the "All Genres" / "All Authors" option. */
  const Any: string := "any"

  /** The form as it is before the user changes anything. */
  const DefaultFilters: Filters := Filters("", Any, Any)

  predicate GenreMatch(f: Filters, b: Book) {
    f.genre == Any || f.genre in b.genres
  }

  /**
    A blank query (after trimming) matches every title; otherwise the
    lower-cased title must contain the lower-cased query as typed, including
    any leading or trailing whitespace.
   */
  predicate TitleMatch(f: Filters, b: Book) {
    Trim(f.title) == [] || Includes(ToLower(b.title), ToLower(f.title))
  }

  predicate AuthorMatch(f: Filters, b: Book) {
    f.author == Any || b.author == f.author
  }

  /** The callback `applyFilters` passes to `books.filter`. */
  predicate Matches(f: Filters, b: Book) {
    GenreMatch(f, b) && TitleMatch(f, b) && AuthorMatch(f, b)
  }

  /**
    `books.filter(...)`: the books that pass all three tests, in catalogue
    order, each kept as often as it occurs.
   */
  function Filtered(books: seq<Book>, f: Filters): (r: seq<Book>)
    ensures IsSubsequence(r, books)
    ensures forall b :: b in r <==> b in books && Matches(f, b)
    ensures forall b :: multiset(r)[b] == if Matches(f, b) then multiset(books)[b] else 0
  {
    if books == [] then []
    else
      var rest := Filtered(books[1..], f);
      assert books == [books[0]] + books[1..];
      if Matches(f, books[0]) then [books[0]] + rest else rest
  }

  /** When every book passes, the filter returns the catalogue unchanged. */
  lemma {:induction false} FilteredAllMatch(books: seq<Book>, f: Filters)
    requires forall b :: b in books ==> Matches(f, b)
    ensures Filtered(books, f) == books
  {
    if books != [] {
      FilteredAllMatch(books[1..], f);
    }
  }

  /**
    With genre "any", author "any" and a title that is empty or all
    whitespace, filtering gives back the whole catalogue in order.
   */
  lemma BlankFiltersKeepCatalog(books: seq<Book>, f: Filters)
    requires f.genre == Any && f.author == Any && AllWhitespace(f.title)
    ensures Filtered(books, f) == books
  {
    FilteredAllMatch(books, f);
  }

  /** Filtering the result again with the same criteria changes nothing. */
  lemma {:induction false} FilteredIdempotent(books: seq<Book>, f: Filters)
    ensures Filtered(Filtered(books, f), f) == Filtered(books, f)
  {
    if books != [] {
      FilteredIdempotent(books[1..], f);
    }
  }

  /**
    A specific genre or author is never ignored: a book that lacks the
    requested genre, or has another author, is filtered out.
   */
  lemma SpecificCriteriaExclude(books: seq<Book>, f: Filters, b: Book)
    requires (f.genre != Any && f.genre !in b.genres) || (f.author != Any && b.author != f.author)
    ensures b !in Filtered(books, f)
  {
  }

  /** Selecting only an author keeps exactly that author's books. */
  lemma AuthorOnlyFilter(books: seq<Book>, a: string)
    requires a != Any
    ensures forall b :: b in Filtered(books, Filters("", Any, a)) <==> b in books && b.author == a
  {
  }

  /**
    Queries that agree up to ASCII case select the same books: both the blank
    test and the substring test see only the lower-cased query.
   */
  lemma {:induction false} QueryCaseInsensitive(books: seq<Book>, q1: string, q2: string, g: string, a: string)
    requires ToLower(q1) == ToLower(q2)
    ensures Filtered(books, Filters(q1, g, a)) == Filtered(books, Filters(q2, g, a))
  {
    LowerKeepsBlank(q1);
    LowerKeepsBlank(q2);
    if books != [] {
      QueryCaseInsensitive(books[1..], q1, q2, g, a);
    }
  }

  /** The query "dune" finds the book titled "Dune": case is ignored. */
  lemma QueryIgnoresCase(b: Book)
    requires b.title == "Dune"
    ensures Filtered([b], Filters("dune", Any, Any)) == [b]
  {
  }

  /**
    The blank test trims the query but the substring test does not: " dune"
    is not blank, yet it misses the title "Dune", which "dune" finds.
   */
  lemma PaddedQueryNotTrimmed(b: Book)
    requires b.title == "Dune"
    ensures Trim(" dune") != []
    ensures Filtered([b], Filters(" dune", Any, Any)) == []
  {
    assert !IsWhitespace(" dune"[1]);
    assert |ToLower(b.title)| == 4 && |ToLower(" dune")| == 5;
    assert !Includes(ToLower(b.title), ToLower(" dune"));
    assert [b][1..] == [];
  }

  /**
    `books.find(book => book.id === id)`: the first book carrying `id`, or
    nothing when no book does.
   */
  function Find(books: seq<Book>, id: string): (r: Option<Book>)
    ensures r.None? <==> forall i :: 0 <= i < |books| ==> books[i].id != id
    ensures r.Some? ==> exists i :: 0 <= i < |books| && books[i] == r.value && r.value.id == id &&
                                    forall j :: 0 <= j < i ==> books[j].id != id
  {
    if books == [] then None
    else if books[0].id == id then
      Some(books[0])
    else
      var r := Find(books[1..], id);
      if r.Some? then
        var i :| 0 <= i < |books[1..]| && books[1..][i] == r.value && r.value.id == id &&
                 forall j :: 0 <= j < i ==> books[1..][j].id != id;
        assert books[i + 1] == r.value;
        assert forall j :: 0 <= j < i + 1 ==> books[j].id != id by {
          forall j | 0 <= j < i + 1 ensures books[j].id != id {
            if j > 0 { assert books[j] == books[1..][j - 1]; }
          }
        }
        r
      else
        assert forall i :: 0 <= i < |books| ==> books[i].id != id by {
          forall i | 0 <= i < |books| ensures books[i].id != id {
            if i > 0 { assert books[i] == books[1..][i - 1]; }
          }
        }
        r
  }
}
