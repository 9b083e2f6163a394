/**
 * The pagination of the main page: a fixed page size of six, the page count,
 * the slice shown for the current page, the list of page numbers and the
 * Previous/Next updates of the current page. Generic in the element type:
 * the page only slices the list it is given.
 */
module Pagination {

  const UsersPerPage: nat := 6

  function Min(a: int, b: int): int { if a <= b then a else b }
  function Max(a: int, b: int): int { if a >= b then a else b }

  /** `Math.ceil(n / usersPerPage)`: the least page count whose pages hold n records; 0 for no records. */
  function TotalPages(n: nat): (r: nat)
    ensures n <= r * UsersPerPage < n + UsersPerPage
    ensures r == 0 <==> n == 0
  {
    (n + UsersPerPage - 1) / UsersPerPage
  }

  /** Index of the first record of page `page` (pages are numbered from 1). */
  function StartIndex(page: int): (r: int)
    ensures page >= 1 ==> r >= 0 && r % UsersPerPage == 0
    ensures page >= 1 ==> r / UsersPerPage == page - 1
  {
    (page - 1) * UsersPerPage
  }

  /** How `Array.prototype.slice` reads an index: negative counts from the end, then clamped to [0, len]. */
  function RelativeIndex(k: int, len: nat): (r: int)
    ensures 0 <= r <= len
    ensures 0 <= k ==> r == Min(k, len)
    ensures k < 0 ==> r == Max(len + k, 0)
  {
    if k < 0 then Max(len + k, 0) else Min(k, len)
  }

  /** `s.slice(start, end)`. */
  function JsSlice<T>(s: seq<T>, start: int, end: int): (r: seq<T>)
    ensures |r| <= |s|
    ensures 0 <= start <= end <= |s| ==> r == s[start..end]
    ensures 0 <= start <= |s| && start <= end ==> r == s[start..Min(end, |s|)]
    ensures 0 <= start && 0 <= end ==> |r| == Max(Min(end, |s|) - Min(start, |s|), 0)
  {
    var from := RelativeIndex(start, |s|);
    var to := RelativeIndex(end, |s|);
    if from < to then s[from..to] else []
  }

  /** `list.slice(startIndex, startIndex + usersPerPage)`: the records shown on page `page`. */
  function CurrentUsers<T>(list: seq<T>, page: int): (r: seq<T>)
    ensures |r| <= UsersPerPage
    ensures forall x :: x in r ==> x in list
  {
    JsSlice(list, StartIndex(page), StartIndex(page) + UsersPerPage)
  }

  /** A page in range shows the records from (page-1)*6 on: between one and six of them, fewer only on the last page. */
  lemma PageSlice<T>(list: seq<T>, page: int)
    requires 1 <= page <= TotalPages(|list|)
    ensures 0 <= StartIndex(page) < |list|
    ensures CurrentUsers(list, page) == list[StartIndex(page)..Min(StartIndex(page) + UsersPerPage, |list|)]
    ensures |CurrentUsers(list, page)| == Min(UsersPerPage, |list| - StartIndex(page))
    ensures 1 <= |CurrentUsers(list, page)| <= UsersPerPage
    ensures page < TotalPages(|list|) ==> |CurrentUsers(list, page)| == UsersPerPage
  {
  }

  /** A page past the last one shows nothing. */
  lemma PageBeyondLast<T>(list: seq<T>, page: int)
    requires page > TotalPages(|list|)
    ensures CurrentUsers(list, page) == []
  {
  }

  /** The pages `from`, `from + 1`, ..., `total` laid end to end. */
  function ConcatPages<T>(list: seq<T>, from: nat, total: nat): seq<T>
    requires 1 <= from
    decreases total + 1 - from
  {
    if from > total then [] else CurrentUsers(list, from) + ConcatPages(list, from + 1, total)
  }

  lemma {:induction false} ConcatPagesFrom<T>(list: seq<T>, from: nat)
    requires 1 <= from <= TotalPages(|list|) + 1
    ensures ConcatPages(list, from, TotalPages(|list|)) == list[Min(StartIndex(from), |list|)..]
    decreases TotalPages(|list|) + 1 - from
  {
    var total := TotalPages(|list|);
    if from <= total {
      PageSlice(list, from);
      ConcatPagesFrom(list, from + 1);
      var s := StartIndex(from);
      var e := Min(s + UsersPerPage, |list|);
      assert Min(StartIndex(from + 1), |list|) == e;
      assert list[s..] == list[s..e] + list[e..];
    }
  }

  /** The pages 1..totalPages partition the list: laid end to end they give it back, in order. */
  lemma PagesPartitionList<T>(list: seq<T>)
    ensures ConcatPages(list, 1, TotalPages(|list|)) == list
  {
    ConcatPagesFrom(list, 1);
  }

  /** `Array.from({ length: totalPages }, (_, i) => i + 1)`. */
  function PageNumbers(total: nat): (r: seq<int>)
    ensures |r| == total
    ensures total > 0 ==> r[0] == 1 && r[total - 1] == total
  {
    seq(total, i => i + 1)
  }

  /** The page numbers are 1, 2, ..., total: increasing, and holding exactly the pages in range. */
  lemma PageNumbersExact(total: nat)
    ensures |PageNumbers(total)| == total
    ensures forall i, j :: 0 <= i < j < total ==> PageNumbers(total)[i] < PageNumbers(total)[j]
    ensures forall k :: k in PageNumbers(total) <==> 1 <= k <= total
  {
    var ps := PageNumbers(total);
    forall k | 1 <= k <= total
      ensures k in ps
    {
      assert ps[k - 1] == k;
    }
  }

  /** The pagination controls are rendered only when there is more than one page. */
  predicate ShowsControls(total: nat)
    ensures ShowsControls(total) ==> |PageNumbers(total)| >= 2
    ensures !ShowsControls(total) ==> |PageNumbers(total)| <= 1
  {
    total > 1
  }

  /** The controls appear exactly when the list does not fit on one page. */
  lemma ControlsShownIff(n: nat)
    ensures ShowsControls(TotalPages(n)) <==> n > UsersPerPage
  {
  }

  /** Previous: `prev => Math.max(prev - 1, 1)`. */
  function PreviousPage(prev: int): (r: int)
    ensures r >= 1
    ensures prev <= 1 ==> r == 1
    ensures prev > 1 ==> r == prev - 1
  {
    Max(prev - 1, 1)
  }

  /** Next: `prev => Math.min(prev + 1, totalPages)`. */
  function NextPage(prev: int, total: nat): (r: int)
    ensures r <= total
    ensures prev < total ==> r == prev + 1
    ensures prev >= total ==> r == total
    ensures 1 <= prev <= total ==> 1 <= r <= total
  {
    Min(prev + 1, total)
  }

  /** What the user can do with the controls: Previous, Next, or a page link. */
  datatype PageEvent = Previous | Next | Select(pageNumber: int)

  /** One click: the updater the clicked control passes to setCurrentPage. */
  function Step(page: int, total: nat, e: PageEvent): (r: int)
    ensures 1 <= page <= total && Offered(total, e) ==> 1 <= r <= total
    ensures e.Previous? ==> r >= 1 && r == PreviousPage(page)
    ensures e.Next? ==> r <= total && r == NextPage(page, total)
    ensures e.Select? ==> r == e.pageNumber
  {
    PageNumbersExact(total);
    match e
    case Previous => PreviousPage(page)
    case Next => NextPage(page, total)
    case Select(k) => k
  }

  /** The current page after a sequence of clicks. */
  function Run(page: int, total: nat, events: seq<PageEvent>): (r: int)
    ensures (page >= 1 && forall i :: 0 <= i < |events| ==> events[i].Previous?) ==>
              r == Max(page - |events|, 1)
    decreases |events|
  {
    if events == [] then page else Run(Step(page, total, events[0]), total, events[1..])
  }

  /** Only the links that are rendered can be clicked. */
  predicate Offered(total: nat, e: PageEvent) {
    e.Select? ==> e.pageNumber in PageNumbers(total)
  }

  /** Starting on a page in range, any clicks on the rendered controls keep the current page in range. */
  lemma {:induction false} RunStaysInRange(page: int, total: nat, events: seq<PageEvent>)
    requires ShowsControls(total) && 1 <= page <= total
    requires forall i :: 0 <= i < |events| ==> Offered(total, events[i])
    ensures 1 <= Run(page, total, events) <= total
    decreases |events|
  {
    if events != [] {
      var next := Step(page, total, events[0]);
      assert Offered(total, events[0]);
      PageNumbersExact(total);
      assert 1 <= next <= total;
      RunStaysInRange(next, total, events[1..]);
    }
  }

  /** Thirteen records give three pages; the third holds one record; no records give no pages. */
  lemma ThirteenRecords<T>(list: seq<T>)
    requires |list| == 13
    ensures TotalPages(|list|) == 3
    ensures |CurrentUsers(list, 3)| == 1 && CurrentUsers(list, 3) == [list[12]]
    ensures TotalPages(0) == 0 && CurrentUsers<T>([], 1) == []
  {
    PageSlice(list, 3);
  }
}
