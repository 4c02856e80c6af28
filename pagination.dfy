/** The paginator of App.tsx:10 and 90-93: on a narrow screen the filtered links are shown
    five at a time, on a wide screen all at once. */
module Pagination {

  /** `LINKS_PER_PAGE`. */
  const LinksPerPage: nat := 5

  /** `isMobile ? Math.ceil(count / LINKS_PER_PAGE) : 1`. */
  function TotalPages(count: nat, isMobile: bool): (pages: nat)
    ensures isMobile ==> count <= pages * LinksPerPage
    ensures isMobile ==> pages == 0 || (pages - 1) * LinksPerPage < count
    ensures !isMobile ==> pages == 1
  {
    if isMobile then (count + LinksPerPage - 1) / LinksPerPage else 1
  }

  /** Where `Array.prototype.slice` reads a position: a negative one counts from the end,
      and the result is clamped to `0..len`. */
  function SliceBound(i: int, len: nat): (b: nat)
    ensures b <= len
    ensures 0 <= i <= len ==> b == i
    ensures i > len ==> b == len
    ensures i < 0 ==> b == (if len + i < 0 then 0 else len + i)
  {
    if i < 0 then (if len + i < 0 then 0 else len + i)
    else if i > len then len
    else i
  }

  /** `xs.slice(start, end)`: empty when the end falls at or before the start. */
  function Slice<T>(xs: seq<T>, start: int, end: int): (r: seq<T>)
    ensures |r| <= |xs|
  {
    var from := SliceBound(start, |xs|);
    var to := SliceBound(end, |xs|);
    if from < to then xs[from..to] else []
  }

  function Min(a: int, b: int): int {
    if a <= b then a else b
  }

  /** `paginatedLinks`: the slice for `currentPage` on a narrow screen, everything
      otherwise. */
  function PageOf<T>(xs: seq<T>, currentPage: int, isMobile: bool): seq<T> {
    if isMobile
    then Slice(xs, (currentPage - 1) * LinksPerPage, currentPage * LinksPerPage)
    else xs
  }

  /** Page `p` (from 1) holds the elements at positions `(p - 1) * 5` up to, not
      including, `p * 5`, as far as the list reaches. */
  lemma PageContents<T>(xs: seq<T>, p: int)
    requires 1 <= p
    ensures Min((p - 1) * LinksPerPage, |xs|) <= Min(p * LinksPerPage, |xs|)
    ensures PageOf(xs, p, true) ==
      xs[Min((p - 1) * LinksPerPage, |xs|)..Min(p * LinksPerPage, |xs|)]
  {
  }

  /** No page holds more than five links, and every page from 1 to the last is
      non-empty. */
  lemma PageSize<T>(xs: seq<T>, p: int)
    requires 1 <= p
    ensures |PageOf(xs, p, true)| <= LinksPerPage
    ensures p <= TotalPages(|xs|, true) ==> PageOf(xs, p, true) != []
  {
    PageContents(xs, p);
  }

  /** On a wide screen there is one page, and it shows every link whatever `currentPage`
      holds. */
  lemma WideScreenShowsAll<T>(xs: seq<T>, currentPage: int)
    ensures TotalPages(|xs|, false) == 1
    ensures PageOf(xs, currentPage, false) == xs
  {
  }

  /** Page 0 and every page past the last are empty. */
  lemma PagesOutsideRange<T>(xs: seq<T>, p: int)
    requires p == 0 || p > TotalPages(|xs|, true)
    ensures PageOf(xs, p, true) == []
  {
  }

  /** Pages `p` to `last`, one after the other. */
  function PagesFrom<T>(xs: seq<T>, p: nat, last: nat): seq<T>
    decreases last + 1 - p
  {
    if p == 0 || p > last then [] else PageOf(xs, p, true) + PagesFrom(xs, p + 1, last)
  }

  /** From page `p` on, the pages together are the rest of the list from page `p`'s first
      position. */
  lemma {:induction false} PagesFromRest<T>(xs: seq<T>, p: nat)
    requires 1 <= p <= TotalPages(|xs|, true) + 1
    ensures PagesFrom(xs, p, TotalPages(|xs|, true)) == xs[Min((p - 1) * LinksPerPage, |xs|)..]
    decreases TotalPages(|xs|, true) + 1 - p
  {
    var last := TotalPages(|xs|, true);
    if p <= last {
      PageContents(xs, p);
      PagesFromRest(xs, p + 1);
      var a := Min((p - 1) * LinksPerPage, |xs|);
      var b := Min(p * LinksPerPage, |xs|);
      assert xs[a..b] + xs[b..] == xs[a..];
    }
  }

  /** The pages 1 to `totalPages` together give back the whole filtered list, in order:
      every link is on exactly one page. */
  lemma PagesCoverList<T>(xs: seq<T>)
    ensures PagesFrom(xs, 1, TotalPages(|xs|, true)) == xs
  {
    PagesFromRest(xs, 1);
  }

  /** Twelve links make three pages of five, five and two. */
  lemma TwelveLinks(xs: seq<int>)
    requires |xs| == 12
    ensures TotalPages(|xs|, true) == 3
    ensures PageOf(xs, 1, true) == xs[0..5]
    ensures PageOf(xs, 2, true) == xs[5..10]
    ensures PageOf(xs, 3, true) == xs[10..12]
    ensures PageOf(xs, 4, true) == []
  {
  }
}
