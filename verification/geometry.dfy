/** Pages laid side by side. The only non-linear arithmetic of the project is in here. */
module Geometry {
  lemma ProductBound(a: nat, b: nat, c: nat, d: nat)
    requires a <= c && b < d
    ensures 0 <= a * b <= c * d
  {
    assert a * b <= c * b;
    assert c * b <= c * d;
  }

  function Area(pageSize: nat, pages: nat): nat {
    pageSize * pages
  }

  /** Offset of page `index`: inside the region, the next page right behind it. */
  function PageAt(pageSize: nat, pages: nat, index: nat): (n: nat)
    requires index <= pages
    ensures index < pages ==> n + pageSize <= Area(pageSize, pages)
    ensures index == pages ==> n == Area(pageSize, pages)
    ensures index == 0 ==> n == 0
  {
    ProductBound(pages - index, pageSize, pages - index, pageSize + 1);
    assert pages * pageSize == index * pageSize + (pages - index) * pageSize;
    assert index < pages ==> (pages - index) * pageSize >= pageSize;
    index * pageSize
  }

  lemma NextPage(pageSize: nat, pages: nat, index: nat)
    requires index < pages
    ensures PageAt(pageSize, pages, index + 1) == PageAt(pageSize, pages, index) + pageSize
  {
  }

  lemma {:induction false} PagesApart(pageSize: nat, pages: nat, i: nat, j: nat)
    requires i < j <= pages
    ensures PageAt(pageSize, pages, i) + pageSize <= PageAt(pageSize, pages, j)
  {
    hide PageAt;
    NextPage(pageSize, pages, j - 1);
    if i < j - 1 {
      PagesApart(pageSize, pages, i, j - 1);
    }
  }
}
