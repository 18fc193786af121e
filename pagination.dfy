/**
 * The page of the filtered list that the table shows, its row numbers, and
 * the number of pages the Next handler allows.
 */
module Pagination {

  /** `usersPerPage`. */
  const UsersPerPage: nat := 5

  function Min(a: int, b: int): int { if a <= b then a else b }
  function Max(a: int, b: int): int { if a <= b then b else a }

  /**
   * `s.slice(start, end)` as `Array.prototype.slice` defines it: a negative
   * bound counts from the end, bounds are clamped to the list, and a range
   * with its end before its start is empty.
   */
  function JsSlice<T>(s: seq<T>, start: int, end: int): (r: seq<T>)
    ensures |r| <= |s|
    ensures 0 <= start <= end ==> |r| == Max(0, Min(end, |s|) - Min(start, |s|))
  {
    var from := if start < 0 then Max(|s| + start, 0) else Min(start, |s|);
    var to := if end < 0 then Max(|s| + end, 0) else Min(end, |s|);
    if from < to then s[from..to] else []
  }

  /**
   * `currentUsers`, the rows of page `currentPage`: never more than a page
   * holds, and from page 1 on, row i is the record at position
   * (currentPage-1)*5 + i of the list.
   */
  function CurrentUsers<T>(filteredUsers: seq<T>, currentPage: int): (r: seq<T>)
    ensures |r| <= UsersPerPage
    ensures currentPage >= 1 ==> forall i :: 0 <= i < |r| ==>
              (currentPage - 1) * UsersPerPage + i < |filteredUsers|
              && r[i] == filteredUsers[(currentPage - 1) * UsersPerPage + i]
  {
    var indexOfLastUser := currentPage * UsersPerPage;
    var indexOfFirstUser := indexOfLastUser - UsersPerPage;
    JsSlice(filteredUsers, indexOfFirstUser, indexOfLastUser)
  }

  /**
   * `Math.ceil(count / usersPerPage)`: the pages hold every record, the last
   * one is not empty, and there are no pages exactly when there are no records.
   */
  function TotalPages(count: nat): (pages: nat)
    ensures pages * UsersPerPage >= count
    ensures count == 0 <==> pages == 0
    ensures count > 0 ==> (pages - 1) * UsersPerPage < count
  {
    (count + UsersPerPage - 1) / UsersPerPage
  }

  /**
   * The S.No cell of the row at position `index` of the page. For a row of a
   * page the number tells back the page and the row: numbers are never
   * shared between rows.
   */
  function SerialNumber(currentPage: int, index: nat): (n: int)
    ensures index < UsersPerPage ==>
              (n - 1) / UsersPerPage == currentPage - 1 && (n - 1) % UsersPerPage == index
  {
    (currentPage - 1) * UsersPerPage + index + 1
  }

  /**
   * Page p (p >= 1) is the contiguous run of at most five records starting at
   * position (p-1)*5, cut short by the end of the list.
   */
  lemma PageIsContiguous<T>(s: seq<T>, p: int)
    requires p >= 1
    ensures var r := CurrentUsers(s, p);
            |r| <= UsersPerPage
            && r == s[Min((p - 1) * UsersPerPage, |s|)..Min(p * UsersPerPage, |s|)]
            && forall i :: 0 <= i < |r| ==> r[i] == s[(p - 1) * UsersPerPage + i]
  {
  }

  /** A page (p >= 1) is empty exactly when it starts past the end, that is when p exceeds the page count. */
  lemma PageEmptyIff<T>(s: seq<T>, p: int)
    requires p >= 1
    ensures CurrentUsers(s, p) == [] <==> (p - 1) * UsersPerPage >= |s|
    ensures CurrentUsers(s, p) == [] <==> p > TotalPages(|s|)
  {
    PageIsContiguous(s, p);
  }

  /** Row `index` of page p shows the record at position S.No - 1 of the list. */
  lemma SerialNumberIsPosition<T>(s: seq<T>, p: int, index: nat)
    requires p >= 1 && index < |CurrentUsers(s, p)|
    ensures 1 <= SerialNumber(p, index) <= |s|
    ensures CurrentUsers(s, p)[index] == s[SerialNumber(p, index) - 1]
    ensures index + 1 < |CurrentUsers(s, p)| ==> SerialNumber(p, index + 1) == SerialNumber(p, index) + 1
  {
    PageIsContiguous(s, p);
  }

  /** Every record of the list is shown on page i/5 + 1, in row i%5, numbered i + 1. */
  lemma RecordOnItsPage<T>(s: seq<T>, i: nat)
    requires i < |s|
    ensures 1 <= i / UsersPerPage + 1 <= TotalPages(|s|)
    ensures i % UsersPerPage < |CurrentUsers(s, i / UsersPerPage + 1)|
    ensures CurrentUsers(s, i / UsersPerPage + 1)[i % UsersPerPage] == s[i]
    ensures SerialNumber(i / UsersPerPage + 1, i % UsersPerPage) == i + 1
  {
    var p := i / UsersPerPage + 1;
    PageIsContiguous(s, p);
  }

  /** Pages 1..k laid end to end. */
  function PagesUpTo<T>(s: seq<T>, k: nat): seq<T>
  {
    if k == 0 then [] else PagesUpTo(s, k - 1) + CurrentUsers(s, k)
  }

  /** The first k pages are the first k*5 records (or all of them). */
  lemma {:induction false} PagesUpToIsPrefix<T>(s: seq<T>, k: nat)
    ensures PagesUpTo(s, k) == s[..Min(k * UsersPerPage, |s|)]
  {
    if k > 0 {
      PagesUpToIsPrefix(s, k - 1);
      PageIsContiguous(s, k);
      var a := Min((k - 1) * UsersPerPage, |s|);
      var b := Min(k * UsersPerPage, |s|);
      assert s[..a] + s[a..b] == s[..b];
    }
  }

  /** Paging neither loses nor repeats a record: all pages together are the list. */
  lemma PagesCoverList<T>(s: seq<T>)
    ensures PagesUpTo(s, TotalPages(|s|)) == s
  {
    PagesUpToIsPrefix(s, TotalPages(|s|));
  }

  /** Seven records: page 1 shows the first five, page 2 the last two, and there are two pages. */
  lemma SevenRecords<T>(s: seq<T>)
    requires |s| == 7
    ensures TotalPages(|s|) == 2
    ensures CurrentUsers(s, 1) == s[..5] && CurrentUsers(s, 2) == s[5..]
    ensures CurrentUsers(s, 3) == []
  {
  }
}
