/**
 * `pybb_topic_inline_pagination` of `pybb/templatetags/pybb_tags.py`: the page
 * links shown next to a topic in a topic list.
 */
module Pagination {

  /** One entry of the inline pagination: a page number or the `'...'` gap. */
  datatype PageLink = Page(n: nat) | Ellipsis

  /** `int(math.ceil(post_count / float(page_size)))`, on exact integers. */
  function PageCount(postCount: nat, pageSize: nat): (pages: nat)
    requires pageSize > 0
    ensures pages * pageSize >= postCount
    ensures pages > 0 ==> (pages - 1) * pageSize < postCount
    ensures pages == 0 <==> postCount == 0
  {
    (postCount + pageSize - 1) / pageSize
  }

  /** `range(1, n + 1)`. */
  function PagesUpTo(n: nat): (r: seq<PageLink>)
    ensures |r| == n
    ensures forall i :: 0 <= i < n ==> r[i] == Page(i + 1)
  {
    seq(n, i requires 0 <= i < n => Page(i + 1))
  }

  /** `pybb_topic_inline_pagination`: every page up to five pages, otherwise the
      first four pages, a gap and the last page. */
  function InlinePagination(postCount: nat, pageSize: nat): (r: seq<PageLink>)
    requires pageSize > 0
    ensures PageCount(postCount, pageSize) <= 5 ==>
      |r| == PageCount(postCount, pageSize) && forall i :: 0 <= i < |r| ==> r[i] == Page(i + 1)
    ensures PageCount(postCount, pageSize) > 5 ==>
      r == [Page(1), Page(2), Page(3), Page(4), Ellipsis, Page(PageCount(postCount, pageSize))]
    ensures r == [] <==> postCount == 0
    ensures |r| <= 6
    ensures forall i :: 0 <= i < |r| && r[i].Page? ==> 1 <= r[i].n <= PageCount(postCount, pageSize)
    ensures r != [] ==> r[|r| - 1] == Page(PageCount(postCount, pageSize))
  {
    var pages := PageCount(postCount, pageSize);
    if pages <= 5 then PagesUpTo(pages)
    else PagesUpTo(4) + [Ellipsis, Page(pages)]
  }

  /** `PageCount` is the ceiling of the quotient: the only page count whose
      pages hold every post with none of them empty. */
  lemma PageCountIsCeiling(postCount: nat, pageSize: nat, pages: nat)
    requires pageSize > 0
    requires pages * pageSize >= postCount
    requires pages > 0 ==> (pages - 1) * pageSize < postCount
    ensures pages == PageCount(postCount, pageSize)
  {
    var c := PageCount(postCount, pageSize);
    if pages > c {
      MulMonotone(c, pages - 1, pageSize);
    } else if pages < c {
      MulMonotone(pages, c - 1, pageSize);
    }
  }

  lemma MulMonotone(a: nat, b: nat, d: nat)
    requires a <= b
    ensures a * d <= b * d
  {
  }

  /** Ten posts per page: 95 posts make ten pages, 30 posts three. */
  lemma PaginationExamples()
    ensures InlinePagination(95, 10) == [Page(1), Page(2), Page(3), Page(4), Ellipsis, Page(10)]
    ensures InlinePagination(30, 10) == [Page(1), Page(2), Page(3)]
    ensures InlinePagination(31, 10) == [Page(1), Page(2), Page(3), Page(4)]
    ensures InlinePagination(0, 10) == []
  {
    assert PageCount(30, 10) == 3;
    assert PagesUpTo(3) == [Page(1), Page(2), Page(3)];
    assert PageCount(31, 10) == 4;
    assert PagesUpTo(4) == [Page(1), Page(2), Page(3), Page(4)];
  }
}
