/** The page window of the pagination control: at most seven page numbers,
    with `-1` and `-2` standing for the two ellipses, plus the targets of the
    previous, next and page buttons. */
module Pagination {

  datatype Option<T> = None | Some(value: T)

  /** `Array.from({ length: totalPages }, (_, i) => i + 1)`; a negative length is read as 0. */
  function Pages(total: int): seq<int> {
    seq(if total < 0 then 0 else total, i => i + 1)
  }

  /** `getVisiblePages()`. */
  function VisiblePages(current: int, total: int): (r: seq<int>)
    ensures |r| == if total < 0 then 0 else if total <= 7 then total else 7
    ensures total > 0 ==> r[0] == 1 && r[|r| - 1] == total
  {
    var pages := Pages(total);
    if total <= 7 then pages
    else if current <= 4 then pages[..5] + [-1, total]
    else if current >= total - 3 then [1, -1] + pages[total - 5..]
    else [1, -1, current - 1, current, current + 1, -2, total]
  }

  predicate IsEllipsis(page: int) {
    page == -1 || page == -2
  }

  /** Up to seven pages every page is listed: `1, 2, …, totalPages`, nothing for 0 pages. */
  lemma VisibleSmall(current: int, total: int)
    requires total <= 7
    ensures var r := VisiblePages(current, total);
      && |r| == (if total < 0 then 0 else total)
      && forall i :: 0 <= i < |r| ==> r[i] == i + 1
  {
  }

  /** Beyond seven pages the window has seven entries, from page 1 to the last page,
      in one of three shapes depending on where the current page lies. */
  lemma VisibleLarge(current: int, total: int)
    requires total > 7
    ensures var r := VisiblePages(current, total);
      && |r| == 7 && r[0] == 1 && r[6] == total
      && (current <= 4 ==> r == [1, 2, 3, 4, 5, -1, total])
      && (4 < current && total - 3 <= current ==>
            r == [1, -1, total - 4, total - 3, total - 2, total - 1, total])
      && (4 < current < total - 3 ==> r == [1, -1, current - 1, current, current + 1, -2, total])
  {
    var r := VisiblePages(current, total);
    var pages := Pages(total);
    if current <= 4 {
      assert pages[..5] == [1, 2, 3, 4, 5];
    } else if current >= total - 3 {
      assert pages[total - 5..] == [total - 4, total - 3, total - 2, total - 1, total];
    }
  }

  /** Every entry is an ellipsis or a page in `1..totalPages`, and the page
      numbers are strictly increasing from left to right. */
  lemma VisibleWellFormed(current: int, total: int)
    ensures var r := VisiblePages(current, total);
      && (forall i :: 0 <= i < |r| ==> IsEllipsis(r[i]) || 1 <= r[i] <= total)
      && (forall i, j :: 0 <= i < j < |r| && !IsEllipsis(r[i]) && !IsEllipsis(r[j]) ==> r[i] < r[j])
  {
    if total <= 7 {
      VisibleSmall(current, total);
    } else {
      VisibleLarge(current, total);
    }
  }

  /** The current page, when it is a real page, is always in the window. */
  lemma VisibleHasCurrent(current: int, total: int)
    requires 1 <= current <= total
    ensures current in VisiblePages(current, total)
  {
    var r := VisiblePages(current, total);
    if total <= 7 {
      VisibleSmall(current, total);
      assert r[current - 1] == current;
    } else {
      VisibleLarge(current, total);
      if current <= 4 {
        assert r[current - 1] == current;
      } else if current >= total - 3 {
        assert r[current - total + 6] == current;
      } else {
        assert r[3] == current;
      }
    }
  }

  /** The previous button: disabled on page 1, otherwise goes one page back. */
  function PreviousTarget(current: int): (r: Option<int>)
    ensures r == None <==> current == 1
    ensures 1 < current ==> r.Some? && 1 <= r.value < current
  {
    if current == 1 then None else Some(current - 1)
  }

  /** The next button: disabled on the last page, otherwise goes one page on. */
  function NextTarget(current: int, total: int): (r: Option<int>)
    ensures r == None <==> current == total
    ensures 1 <= current < total ==> r.Some? && current < r.value <= total
  {
    if current == total then None else Some(current + 1)
  }

  /** A window entry: an ellipsis is text, any other entry a button for that page. */
  function EntryTarget(page: int): Option<int> {
    if IsEllipsis(page) then None else Some(page)
  }

  /** From a real page, every enabled button leads to a real page: the
      previous button is off exactly on page 1, the next button exactly on the
      last page, and the ellipses never reach `onPageChange`. */
  lemma TargetsInRange(current: int, total: int)
    requires 1 <= current <= total
    ensures PreviousTarget(current) == None <==> current == 1
    ensures NextTarget(current, total) == None <==> current == total
    ensures forall p :: PreviousTarget(current) == Some(p) || NextTarget(current, total) == Some(p) ==>
              1 <= p <= total
    ensures forall e :: e in VisiblePages(current, total) ==>
              (EntryTarget(e) == None <==> IsEllipsis(e)) &&
              (forall p :: EntryTarget(e) == Some(p) ==> 1 <= p <= total)
  {
    VisibleWellFormed(current, total);
  }

  /** With no pages at all (`totalPages` 0, the current page still 1) the window
      is empty and the next button stays enabled, leading to page 2: the range
      promise of `TargetsInRange` needs a current page in `1..totalPages`. */
  lemma NextOnNoPages()
    ensures VisiblePages(1, 0) == []
    ensures PreviousTarget(1) == None && NextTarget(1, 0) == Some(2)
  {
  }
}
