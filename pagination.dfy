/** The results table of the dashboard (tcia-cohort-builder.py) is shown a
    page at a time: the page count follows from the number of filtered rows
    and the page size, a page is a slice of the filtered rows, and the
    session's page number moves with the "‹" and "›" buttons. */
module Pagination {

  /** Line 454: `max(0, (len(filtered_df) - 1) // page_size)`.  For a positive
      divisor Dafny's `/` rounds down like Python's `//`, also for -1. */
  function MaxPage(n: nat, pageSize: int): (m: nat)
    requires pageSize >= 1
    ensures n == 0 ==> m == 0
    ensures n > 0 ==> m * pageSize < n <= m * pageSize + pageSize
  {
    var q := (n - 1) / pageSize;
    if q < 0 then 0 else q
  }

  /** Lines 395-399: `filtered_df[start_idx:end_idx]` with
      `start_idx = page_number * page_size`; Python clamps both ends. */
  function PageSlice<T>(rows: seq<T>, pageNumber: nat, pageSize: int): (r: seq<T>)
    requires pageSize >= 1
    ensures var start := pageNumber * pageSize;
            && (start >= |rows| ==> r == [])
            && (start < |rows| ==> |r| == (if start + pageSize <= |rows| then pageSize else |rows| - start))
            && forall i :: 0 <= i < |r| ==> r[i] == rows[start + i]
  {
    var start := pageNumber * pageSize;
    var end := start + pageSize;
    if start >= |rows| then [] else rows[start..if end <= |rows| then end else |rows|]
  }

  /** The pages before `count`, one after another. */
  function Pages<T>(rows: seq<T>, pageSize: int, count: nat): seq<T>
    requires pageSize >= 1
  {
    if count == 0 then [] else Pages(rows, pageSize, count - 1) + PageSlice(rows, count - 1, pageSize)
  }

  function Min(a: int, b: int): int
  {
    if a <= b then a else b
  }

  lemma {:induction false} PagesArePrefix<T>(rows: seq<T>, pageSize: int, count: nat)
    requires pageSize >= 1
    ensures Pages(rows, pageSize, count) == rows[..Min(|rows|, count * pageSize)]
  {
    if count > 0 {
      PagesArePrefix(rows, pageSize, count - 1);
      var start := (count - 1) * pageSize;
      var end := count * pageSize;
      NextStart(count, pageSize);
      SliceExtendsPrefix(rows, start, end, PageSlice(rows, count - 1, pageSize));
    }
  }

  lemma NextStart(count: nat, pageSize: int)
    requires count >= 1
    ensures count * pageSize == (count - 1) * pageSize + pageSize
  {
  }

  /** A page appended to the rows before it gives the rows before its end. */
  lemma SliceExtendsPrefix<T>(rows: seq<T>, start: nat, end: int, page: seq<T>)
    requires start <= end
    requires start >= |rows| ==> page == []
    requires start < |rows| ==> page == rows[start..Min(|rows|, end)]
    ensures rows[..Min(|rows|, start)] + page == rows[..Min(|rows|, end)]
  {
    if start < |rows| {
      assert rows[..start] + rows[start..Min(|rows|, end)] == rows[..Min(|rows|, end)];
    }
  }

  /** The pages 0 to `max_page` cover the filtered rows exactly, in order:
      every row is shown on one page and no page repeats a row. */
  lemma PagesCoverRows<T>(rows: seq<T>, pageSize: int)
    requires pageSize >= 1
    ensures Pages(rows, pageSize, MaxPage(|rows|, pageSize) + 1) == rows
  {
    var m := MaxPage(|rows|, pageSize);
    PagesArePrefix(rows, pageSize, m + 1);
    assert (m + 1) * pageSize == m * pageSize + pageSize;
  }

  /** Every page up to `max_page` has a row, unless there are none at all. */
  lemma PagesUpToMaxAreNotEmpty<T>(rows: seq<T>, pageSize: int, pageNumber: nat)
    requires pageSize >= 1 && |rows| > 0
    requires pageNumber <= MaxPage(|rows|, pageSize)
    ensures PageSlice(rows, pageNumber, pageSize) != []
  {
    var m := MaxPage(|rows|, pageSize);
    MonotoneScale(pageNumber, m, pageSize);
  }

  /** A page past `max_page` is empty; this is what the stored page number
      shows after a filter has shrunk the table below it. */
  lemma PagesPastMaxAreEmpty<T>(rows: seq<T>, pageSize: int, pageNumber: nat)
    requires pageSize >= 1
    requires pageNumber > MaxPage(|rows|, pageSize)
    ensures PageSlice(rows, pageNumber, pageSize) == []
  {
    var m := MaxPage(|rows|, pageSize);
    MonotoneScale(m + 1, pageNumber, pageSize);
    assert (m + 1) * pageSize == m * pageSize + pageSize;
  }

  /** Row `i` is shown on page `i // page_size`, at position
      `i % page_size`, and that page is within `max_page`. */
  lemma RowOnItsPage<T>(rows: seq<T>, pageSize: int, i: nat)
    requires pageSize >= 1 && i < |rows|
    ensures i / pageSize <= MaxPage(|rows|, pageSize)
    ensures var page := PageSlice(rows, i / pageSize, pageSize);
            i % pageSize < |page| && page[i % pageSize] == rows[i]
  {
    var p := i / pageSize;
    assert p * pageSize + i % pageSize == i;
    var m := MaxPage(|rows|, pageSize);
    assert (m + 1) * pageSize == m * pageSize + pageSize;
    ScaleCancel(p, m + 1, pageSize);
  }

  lemma ScaleCancel(a: nat, b: nat, k: nat)
    requires a * k < b * k
    ensures a < b
  {
    if a >= b {
      MonotoneScale(b, a, k);
    }
  }

  lemma MonotoneScale(a: nat, b: nat, k: nat)
    requires a <= b
    ensures a * k <= b * k
  {
  }

  /** Line 468: "‹" moves back only from a page above the first. */
  function PreviousPage(pageNumber: int, pressed: bool): (r: int)
    ensures r <= pageNumber <= r + 1
    ensures pageNumber >= 0 ==> r >= 0
    ensures !pressed ==> r == pageNumber
  {
    if pressed && pageNumber > 0 then pageNumber - 1 else pageNumber
  }

  /** Line 488: "›" moves on only from a page below `max_page`. */
  function NextPage(pageNumber: int, pressed: bool, maxPage: int): (r: int)
    ensures pageNumber <= r <= pageNumber + 1
    ensures pageNumber <= maxPage ==> r <= maxPage
    ensures !pressed ==> r == pageNumber
  {
    if pressed && pageNumber < maxPage then pageNumber + 1 else pageNumber
  }

  /** "‹" never makes the page negative and "›" never takes it past
      `max_page`; from a page in range both keep it in range. */
  lemma ButtonsKeepPageInRange(pageNumber: int, previous: bool, next: bool, maxPage: int)
    requires 0 <= pageNumber <= maxPage
    ensures 0 <= PreviousPage(pageNumber, previous) <= maxPage
    ensures 0 <= NextPage(pageNumber, next, maxPage) <= maxPage
    ensures 0 <= NextPage(PreviousPage(pageNumber, previous), next, maxPage) <= maxPage
  {
  }

  /** A button press of the dashboard, or a rerun that presses nothing. */
  datatype Press = Previous | Next | Neither

  /** Line 492: the page number after a sequence of reruns with the given
      page counts. */
  function AfterPresses(pageNumber: int, presses: seq<(Press, nat)>): int
    decreases |presses|
  {
    if presses == [] then pageNumber
    else
      var (press, maxPage) := presses[0];
      AfterPresses(NextPage(PreviousPage(pageNumber, press == Previous), press == Next, maxPage), presses[1..])
  }

  /** From a page in range, and while the page count does not change, the
      page number never goes negative and never passes `max_page`. */
  lemma {:induction false} PressesKeepPageInRange(pageNumber: int, presses: seq<(Press, nat)>, maxPage: nat)
    requires 0 <= pageNumber <= maxPage
    requires forall k :: 0 <= k < |presses| ==> presses[k].1 == maxPage
    ensures 0 <= AfterPresses(pageNumber, presses) <= maxPage
    decreases |presses|
  {
    if presses != [] {
      var (press, m) := presses[0];
      ButtonsKeepPageInRange(pageNumber, press == Previous, press == Next, maxPage);
      PressesKeepPageInRange(NextPage(PreviousPage(pageNumber, press == Previous), press == Next, m), presses[1..], maxPage);
    }
  }

  /** Whatever the page counts, the page number stays at or above 0. */
  lemma {:induction false} PressesKeepPageNatural(pageNumber: int, presses: seq<(Press, nat)>)
    requires 0 <= pageNumber
    ensures 0 <= AfterPresses(pageNumber, presses)
    decreases |presses|
  {
    if presses != [] {
      var (press, m) := presses[0];
      PressesKeepPageNatural(NextPage(PreviousPage(pageNumber, press == Previous), press == Next, m), presses[1..]);
    }
  }

  /** `st.session_state.page_number`. */
  class PageState {
    var pageNumber: int

    /** Lines 457-458: the first visit starts on page 0. */
    constructor()
      ensures pageNumber == 0
    {
      pageNumber := 0;
    }

    /** Lines 468-469 and 488-489 of one rerun: "‹" is handled before "›". */
    method Rerun(previousPressed: bool, nextPressed: bool, maxPage: int)
      modifies this
      ensures pageNumber == NextPage(PreviousPage(old(pageNumber), previousPressed), nextPressed, maxPage)
      ensures 0 <= old(pageNumber) <= maxPage ==> 0 <= pageNumber <= maxPage
    {
      if previousPressed && pageNumber > 0 {
        pageNumber := pageNumber - 1;
      }
      if nextPressed && pageNumber < maxPage {
        pageNumber := pageNumber + 1;
      }
    }
  }
}
