/**
  Pagination over the current result set. `page` counts the pages of
  `perPage` results already on screen; "show more" reveals the next one.
 */
module Paging {
  import opened Seqs

  /** What is on screen after `page` pages: the leading results, clipped to their count. */
  function Revealed<T>(m: seq<T>, page: nat, perPage: nat): (r: seq<T>)
    ensures r == m[..Min(page * perPage, |m|)]
  {
    Slice(m, 0, page * perPage)
  }

  /**
    The slice "show more" appends: it continues exactly where the screen
    ends, so the screen afterwards is the revealed prefix one page longer.
    Once every result is on screen it is empty.
   */
  function ShowMoreItems<T>(m: seq<T>, page: nat, perPage: nat): (r: seq<T>)
    ensures Revealed(m, page, perPage) + r == Revealed(m, page + 1, perPage)
    ensures |r| <= perPage
    ensures Revealed(m, page, perPage) == m ==> r == []
  {
    var r := Slice(m, page * perPage, (page + 1) * perPage);
    assert (page + 1) * perPage == page * perPage + perPage;
    r
  }

  /** Everything rendered after the first page and `clicks` presses of "show more". */
  function Shown<T>(m: seq<T>, perPage: nat, clicks: nat): (r: seq<T>)
    ensures clicks == 0 ==> r == m[..Min(perPage, |m|)]
  {
    if clicks == 0 then Slice(m, 0, perPage)
    else Shown(m, perPage, clicks - 1) + ShowMoreItems(m, clicks, perPage)
  }

  /**
    The rendered list is always a prefix of the results with no gap and no
    repetition: after `clicks` presses it is the first `clicks + 1` pages.
   */
  lemma {:induction false} ShownIsRevealed<T>(m: seq<T>, perPage: nat, clicks: nat)
    ensures Shown(m, perPage, clicks) == Revealed(m, clicks + 1, perPage)
  {
    if clicks > 0 {
      ShownIsRevealed(m, perPage, clicks - 1);
    }
  }

  /**
    Once `clicks + 1` pages cover the results, every result is on screen,
    each once and in order, and a further "show more" adds nothing.
   */
  lemma ShowMoreExhausts<T>(m: seq<T>, perPage: nat, clicks: nat)
    requires |m| <= (clicks + 1) * perPage
    ensures Shown(m, perPage, clicks) == m
    ensures ShowMoreItems(m, clicks + 1, perPage) == []
  {
    ShownIsRevealed(m, perPage, clicks);
  }

  /**
    With a positive page size, "show more" eventually reveals everything:
    `|m|` clicks always suffice.
   */
  lemma ShowMoreTerminates<T>(m: seq<T>, perPage: nat)
    requires perPage > 0
    ensures Shown(m, perPage, |m|) == m
  {
    var n := |m| + 1;
    assert n * perPage == n * (perPage - 1) + n;
    assert n * (perPage - 1) >= 0;
    ShowMoreExhausts(m, perPage, |m|);
  }
}
