/** The prediction-history page: the fetched list is shown newest first, five rows per
    page, with Previous/Next buttons and at most one expanded row. */
module History {
  import opened Common

  const ItemsPerPage: nat := 5

  const UpdatedToast: Toast := Toast("History Updated", "Latest prediction history loaded successfully", false)
  const FailureTitle: string := "Error Fetching History"
  const FailureFallback: string := "Cannot reach the backend"

  // ---------------------------------------------------------------------------------------
  // Page arithmetic

  /** `Math.ceil(length / itemsPerPage)`: the fewest pages of five that hold every row. */
  function TotalPages(length: nat): (pages: nat)
    ensures pages * ItemsPerPage >= length
    ensures pages == 0 || (pages - 1) * ItemsPerPage < length
  {
    (length + ItemsPerPage - 1) / ItemsPerPage
  }

  function StartIndex(page: int): (i: int) {
    (page - 1) * ItemsPerPage
  }

  function EndIndex(page: int): (i: int) {
    StartIndex(page) + ItemsPerPage
  }

  /** Array.prototype.slice's reading of an index: a negative index counts from the end,
      and the result is clamped to 0..length. */
  function ClampIndex(k: int, length: nat): (r: nat)
    ensures r <= length
    ensures 0 <= k ==> r == Min(k, length)
    ensures k < 0 ==> r == Max(length + k, 0)
  {
    if k < 0 then Max(length + k, 0) else Min(k, length)
  }

  /** Array.prototype.slice(start, end). */
  function Slice<T>(s: seq<T>, start: int, end: int): (r: seq<T>)
    ensures |r| == Max(ClampIndex(end, |s|) - ClampIndex(start, |s|), 0)
    ensures forall k :: 0 <= k < |r| ==> r[k] == s[ClampIndex(start, |s|) + k]
  {
    var from := ClampIndex(start, |s|);
    var to := ClampIndex(end, |s|);
    if from < to then s[from..to] else []
  }

  /** `history.slice(startIndex, endIndex)`. For a page from 1 on it is the contiguous
      window of rows (page-1)*5 .. page*5, cut off at the end of the list; page 0, which the
      Next button produces on an empty list, shows nothing. */
  function CurrentData<T>(history: seq<T>, page: int): (rows: seq<T>)
    ensures |rows| <= ItemsPerPage
    ensures page >= 1 ==>
      rows == history[Min(StartIndex(page), |history|)..Min(EndIndex(page), |history|)]
    ensures page == 0 ==> rows == []
  {
    Slice(history, StartIndex(page), EndIndex(page))
  }

  /** The position in the whole list of the row shown at `local` on `page` (globalIndex:
      the key of the row and the index the expand button toggles). */
  function RowIndex(page: int, local: int): (i: int) {
    StartIndex(page) + local
  }

  /** Every row on a page is the list element at its global index, and a page within
      1..TotalPages is never empty. */
  lemma PageRows<T>(history: seq<T>, page: int)
    requires 1 <= page <= TotalPages(|history|)
    ensures CurrentData(history, page) != []
    ensures |CurrentData(history, page)| == Min(EndIndex(page), |history|) - StartIndex(page)
    ensures forall k :: 0 <= k < |CurrentData(history, page)| ==>
      0 <= RowIndex(page, k) < |history| && CurrentData(history, page)[k] == history[RowIndex(page, k)]
  {
  }

  /** A page past the last one shows nothing ("No history found."). */
  lemma PagePastEndEmpty<T>(history: seq<T>, page: int)
    requires page > TotalPages(|history|)
    ensures CurrentData(history, page) == []
  {
  }

  /** The rows of pages 1..k, in page order. */
  function PagesUpTo<T>(history: seq<T>, k: nat): (rows: seq<T>) {
    if k == 0 then [] else PagesUpTo(history, k - 1) + CurrentData(history, k)
  }

  lemma {:induction false} PagesUpToPrefix<T>(history: seq<T>, k: nat)
    ensures PagesUpTo(history, k) == history[..Min(k * ItemsPerPage, |history|)]
  {
    if k > 0 {
      PagesUpToPrefix(history, k - 1);
      var a := Min((k - 1) * ItemsPerPage, |history|);
      var b := Min(k * ItemsPerPage, |history|);
      assert history[..a] + history[a..b] == history[..b];
    }
  }

  /** Reading pages 1..TotalPages in order gives back the whole list, each row once. */
  lemma PagesReassemble<T>(history: seq<T>)
    ensures PagesUpTo(history, TotalPages(|history|)) == history
  {
    PagesUpToPrefix(history, TotalPages(|history|));
  }

  /** The footer line "Showing from to to of total entries". */
  datatype Footer = Footer(from: int, to: int, total: nat)

  function FooterOf<T>(history: seq<T>, page: int): (f: Footer) {
    Footer(StartIndex(page) + 1, Min(EndIndex(page), |history|), |history|)
  }

  /** On a page within range the footer numbers the rows shown, counting from one. */
  lemma FooterCountsRows<T>(history: seq<T>, page: int)
    requires 1 <= page <= TotalPages(|history|)
    ensures var f := FooterOf(history, page);
      1 <= f.from <= f.to <= f.total == |history|
      && f.to - f.from + 1 == |CurrentData(history, page)|
      && CurrentData(history, page)[0] == history[f.from - 1]
      && CurrentData(history, page)[|CurrentData(history, page)| - 1] == history[f.to - 1]
  {
    PageRows(history, page);
  }

  /** With an empty list the footer reads "Showing 1 to 0 of 0 entries". */
  lemma EmptyFooter<T>(history: seq<T>)
    requires history == []
    ensures FooterOf(history, 1) == Footer(1, 0, 0)
  {
  }

  /** On an empty list, Next from page 1 reaches page 0, where the footer reads "Showing -4
      to 0 of 0 entries" and no row is shown. */
  lemma PageZeroFooter<T>(history: seq<T>)
    requires history == []
    ensures NextPage(1, TotalPages(|history|)) == 0
    ensures FooterOf(history, 0) == Footer(-4, 0, 0)
    ensures CurrentData(history, 0) == []
  {
  }

  // ---------------------------------------------------------------------------------------
  // Previous / Next

  /** The Previous button's update `Math.max(1, p - 1)`. */
  function PrevPage(page: int): (p: int) {
    Max(1, page - 1)
  }

  /** The Next button's update `Math.min(totalPages, p + 1)`. */
  function NextPage(page: int, totalPages: nat): (p: int) {
    Min(totalPages, page + 1)
  }

  /** From a page within 1..total both buttons stay within 1..total, moving by one where
      they can. */
  lemma NavigationInRange(page: int, total: nat)
    requires 1 <= page <= total
    ensures 1 <= PrevPage(page) <= total && 1 <= NextPage(page, total) <= total
    ensures PrevPage(page) == if page > 1 then page - 1 else 1
    ensures NextPage(page, total) == if page < total then page + 1 else total
  {
  }

  /** On an empty list Next is enabled on page 1 (1 differs from 0 pages) and moves to
      page 0; Previous brings it back to 1. */
  lemma EmptyListNext()
    ensures TotalPages(0) == 0
    ensures NextPage(1, TotalPages(0)) == 0
    ensures PrevPage(0) == 1
  {
  }

  // ---------------------------------------------------------------------------------------
  // Expanded row

  /** toggleRow: `expandedRow === index ? null : index`. */
  function Toggle(expanded: Option<int>, index: int): (r: Option<int>)
    ensures r == None <==> expanded == Some(index)
    ensures r == Some(index) <==> expanded != Some(index)
    ensures forall other :: other != index ==> r != Some(other)
  {
    if expanded == Some(index) then None else Some(index)
  }

  /** Toggling the same row twice restores a closed or that-row-open state. */
  lemma ToggleTwice(expanded: Option<int>, index: int)
    requires expanded == None || expanded == Some(index)
    ensures Toggle(Toggle(expanded, index), index) == expanded
  {
  }

  // ---------------------------------------------------------------------------------------
  // Newest first

  function Reversed<T>(s: seq<T>): (r: seq<T>)
    ensures |r| == |s|
  {
    if s == [] then [] else Reversed(s[1..]) + [s[0]]
  }

  lemma {:induction false} ReversedAt<T>(s: seq<T>, k: int)
    requires 0 <= k < |s|
    ensures Reversed(s)[k] == s[|s| - 1 - k]
  {
    if k < |s| - 1 {
      ReversedAt(s[1..], k);
    }
  }

  /** The newest entry, appended last by the backend, is the first row shown. */
  lemma {:induction false} NewestFirst<T>(s: seq<T>, newest: T)
    ensures Reversed(s + [newest]) == [newest] + Reversed(s)
  {
    if s != [] {
      assert (s + [newest])[1..] == s[1..] + [newest];
      NewestFirst(s[1..], newest);
    } else {
      assert [newest][1..] == [];
    }
  }

  /** `data.reverse()`: reverses the fetched array in place. */
  method ReverseInPlace<T>(a: array<T>)
    modifies a
    ensures a[..] == Reversed(old(a[..]))
  {
    ghost var original := a[..];
    var lo, hi := 0, a.Length - 1;
    while lo < hi
      invariant 0 <= lo <= a.Length && hi == a.Length - 1 - lo
      invariant forall k :: 0 <= k < lo ==> a[k] == original[a.Length - 1 - k]
      invariant forall k :: 0 <= k < lo ==> a[a.Length - 1 - k] == original[k]
      invariant forall k :: lo <= k <= hi ==> a[k] == original[k]
    {
      a[lo], a[hi] := a[hi], a[lo];
      lo, hi := lo + 1, hi - 1;
    }
    forall k | 0 <= k < a.Length
      ensures a[k] == Reversed(original)[k]
    {
      ReversedAt(original, k);
    }
  }

  // ---------------------------------------------------------------------------------------
  // The page state

  class HistoryPage<T> {
    var history: seq<T>
    var expandedRow: Option<int>
    var currentPage: int
    var isRefreshing: bool

    /** The page number never drops below 0 (it is 0 only after Next on an empty list). */
    ghost predicate Valid()
      reads this
    {
      currentPage >= 0
    }

    constructor ()
      ensures Valid()
      ensures history == [] && expandedRow == None && currentPage == 1 && !isRefreshing
    {
      history, expandedRow, currentPage, isRefreshing := [], None, 1, false;
    }

    /** The rows on screen. */
    function Visible(): (rows: seq<T>)
      reads this
    {
      CurrentData(history, currentPage)
    }

    /** fetchHistory before the request. */
    method BeginRefresh()
      requires Valid()
      modifies this`isRefreshing
      ensures Valid()
      ensures isRefreshing
    {
      isRefreshing := true;
    }

    /** fetchHistory after a successful response: the array is reversed in place and
        becomes the list; the page and the expanded row are kept. */
    method Loaded(data: array<T>) returns (toast: Toast)
      requires Valid()
      modifies this`history, this`isRefreshing, data
      ensures Valid()
      ensures history == Reversed(old(data[..])) && data[..] == history
      ensures Visible() == CurrentData(Reversed(old(data[..])), currentPage)
      ensures !isRefreshing && toast == UpdatedToast
    {
      ReverseInPlace(data);
      history := data[..];
      toast := UpdatedToast;
      isRefreshing := false;
    }

    /** fetchHistory after a failure (an unreachable server, a non-ok status, a body that is
        not JSON): the list stays as it was. */
    method LoadFailed(message: string) returns (toast: Toast)
      requires Valid()
      modifies this`isRefreshing
      ensures Valid()
      ensures !isRefreshing
      ensures toast == Toast(FailureTitle, OrElse(Some(message), FailureFallback), false)
    {
      toast := Toast(FailureTitle, OrElse(Some(message), FailureFallback), false);
      isRefreshing := false;
    }

    /** The Previous button, disabled on page 1. */
    method Previous()
      requires Valid()
      modifies this`currentPage
      ensures Valid()
      ensures currentPage == if old(currentPage) == 1 then 1 else PrevPage(old(currentPage))
      ensures currentPage >= 1
    {
      if currentPage != 1 {
        currentPage := PrevPage(currentPage);
      }
    }

    /** The Next button, disabled when the page equals the page count. */
    method Next()
      requires Valid()
      modifies this`currentPage
      ensures Valid()
      ensures var total := TotalPages(|history|);
        currentPage == if old(currentPage) == total then total else NextPage(old(currentPage), total)
    {
      var total := TotalPages(|history|);
      if currentPage != total {
        currentPage := NextPage(currentPage, total);
      }
    }

    /** The Show/Hide button of the row at global index `index`. */
    method ToggleRow(index: int)
      requires Valid()
      modifies this`expandedRow
      ensures Valid()
      ensures expandedRow == Toggle(old(expandedRow), index)
    {
      expandedRow := Toggle(expandedRow, index);
    }
  }
}
