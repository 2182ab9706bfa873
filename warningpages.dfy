/**
 * How the list of predefined warnings is packaged for display: 25 warnings
 * to a page, each page labelled with its number and the page count, and each
 * description cut to the 1024 characters a field may hold.
 */
module WarningPages {

  import opened WarningTables

  const FIELD_LIMIT: nat := 1024
  const ELLIPSIS := "..."

  /** A description longer than a field allows keeps its first 1021 characters and gains "...". */
  function Truncate(d: string): (r: string)
    ensures |r| <= FIELD_LIMIT
    ensures |d| <= FIELD_LIMIT ==> r == d
    ensures |d| > FIELD_LIMIT ==>
      && |r| == FIELD_LIMIT
      && r[..FIELD_LIMIT - |ELLIPSIS|] == d[..FIELD_LIMIT - |ELLIPSIS|]
      && r[FIELD_LIMIT - |ELLIPSIS|..] == ELLIPSIS
  {
    if |d| > FIELD_LIMIT then d[..FIELD_LIMIT - |ELLIPSIS|] + ELLIPSIS else d
  }

  /** One field of a page: the warning's id and its (possibly cut) description. */
  datatype Listing = Listing(id: nat, text: string)

  /** One embed: "Page number/total" and its fields. */
  datatype Page = Page(number: nat, total: nat, listings: seq<Listing>)

  function ListingOf(p: Predefined): Listing {
    Listing(p.id, Truncate(p.description))
  }

  /** The fields for a run of warnings, one per warning, in order. */
  function Listings(ps: seq<Predefined>): (r: seq<Listing>)
    ensures |r| == |ps|
    ensures forall k :: 0 <= k < |ps| ==> r[k] == ListingOf(ps[k])
  {
    if ps == [] then [] else [ListingOf(ps[0])] + Listings(ps[1..])
  }

  lemma ListingsAppend(a: seq<Predefined>, b: seq<Predefined>)
    ensures Listings(a + b) == Listings(a) + Listings(b)
  {
    var l, r := Listings(a + b), Listings(a) + Listings(b);
    forall k | 0 <= k < |l| ensures l[k] == r[k] {
      if k < |a| { assert (a + b)[k] == a[k]; } else { assert (a + b)[k] == b[k - |a|]; }
    }
  }

  function Min(a: int, b: int): int { if a <= b then a else b }

  /** `Math.ceil(n / 25)` on a non-negative n. */
  function PageCount(n: nat): (r: nat)
    ensures 25 * r >= n
    ensures r > 0 ==> 25 * (r - 1) < n
  {
    (n + 24) / 25
  }

  /** Exactly one count fits between the two bounds above. */
  lemma PageCountUnique(n: nat, c: nat)
    requires 25 * c >= n
    requires c > 0 ==> 25 * (c - 1) < n
    ensures PageCount(n) == c
  {
  }

  /** `warnings.slice(25 * p, 25 * p + 25)` */
  function Slice(ps: seq<Predefined>, p: nat): seq<Predefined> {
    ps[Min(25 * p, |ps|)..Min(25 * p + 25, |ps|)]
  }

  /** Page p, counting from 0, of the list of ps. */
  function PageAt(ps: seq<Predefined>, p: nat): Page {
    Page(p + 1, PageCount(|ps|), Listings(Slice(ps, p)))
  }

  /** pages is the paginated list of ps: as many pages as the count says, each the right one. */
  predicate IsPagination(pages: seq<Page>, ps: seq<Predefined>) {
    && |pages| == PageCount(|ps|)
    && forall p :: 0 <= p < |pages| ==> pages[p] == PageAt(ps, p)
  }

  /**
   * The loop of `/listwarnings`: step through the table 25 at a time, label
   * each page `ceil(i / 25) + 1` of `ceil(n / 25)` and add one field per
   * warning of the slice.
   */
  method BuildPages(ps: seq<Predefined>) returns (pages: seq<Page>)
    ensures IsPagination(pages, ps)
  {
    pages := [];
    var i := 0;
    while i < |ps|
      invariant i == 25 * |pages|
      invariant |pages| > 0 ==> 25 * (|pages| - 1) < |ps|
      invariant forall p :: 0 <= p < |pages| ==> pages[p] == PageAt(ps, p)
      decreases |ps| - i
    {
      var slice := ps[i..Min(i + 25, |ps|)];
      var listings := AddFields(slice);
      PageCountUnique(i, |pages|);
      var page := Page(PageCount(i) + 1, PageCount(|ps|), listings);
      assert Slice(ps, |pages|) == slice;
      assert page == PageAt(ps, |pages|);
      AppendPage(pages, ps, page);
      pages := pages + [page];
      i := i + 25;
    }
    PageCountUnique(|ps|, |pages|);
  }

  /** Appending the next page keeps every page the right one. */
  lemma AppendPage(pages: seq<Page>, ps: seq<Predefined>, page: Page)
    requires forall p :: 0 <= p < |pages| ==> pages[p] == PageAt(ps, p)
    requires page == PageAt(ps, |pages|)
    ensures forall p :: 0 <= p < |pages| + 1 ==> (pages + [page])[p] == PageAt(ps, p)
  {
  }

  /** The inner loop of `/listwarnings`: one field per warning of the slice, in order. */
  method AddFields(slice: seq<Predefined>) returns (listings: seq<Listing>)
    ensures listings == Listings(slice)
  {
    listings := [];
    var k := 0;
    while k < |slice|
      invariant k <= |slice|
      invariant |listings| == k
      invariant forall m :: 0 <= m < k ==> listings[m] == ListingOf(slice[m])
    {
      listings := listings + [ListingOf(slice[k])];
      k := k + 1;
    }
  }

  /** Every page holds between one and 25 warnings. */
  lemma PagesHoldAtMostPerPage(pages: seq<Page>, ps: seq<Predefined>)
    requires IsPagination(pages, ps)
    ensures forall p :: 0 <= p < |pages| ==> 0 < |pages[p].listings| <= 25
  {
    forall p | 0 <= p < |pages| ensures 0 < |pages[p].listings| <= 25 {
      assert 25 * p <= 25 * (|pages| - 1);
    }
  }

  /** Each page is labelled with its position and the number of pages. */
  lemma PageLabels(pages: seq<Page>, ps: seq<Predefined>)
    requires IsPagination(pages, ps)
    ensures forall p :: 0 <= p < |pages| ==> pages[p].number == p + 1 && pages[p].total == |pages|
  {
  }

  /** An empty table has no pages, and a non-empty one has at least one. */
  lemma NoPagesIffEmpty(pages: seq<Page>, ps: seq<Predefined>)
    requires IsPagination(pages, ps)
    ensures pages == [] <==> ps == []
  {
  }

  /** All the fields of the pages, in page order. */
  function Flatten(pages: seq<Page>): (r: seq<Listing>)
  {
    if pages == [] then [] else Flatten(pages[..|pages| - 1]) + pages[|pages| - 1].listings
  }

  /** One more page read adds the next slice of the table. */
  lemma ConcatenateStep(pages: seq<Page>, ps: seq<Predefined>, q: nat, lo: nat, hi: nat)
    requires q < |pages| && lo <= hi <= |ps|
    requires pages[q].listings == Listings(ps[lo..hi])
    requires Flatten(pages[..q]) == Listings(ps[..lo])
    ensures Flatten(pages[..q + 1]) == Listings(ps[..hi])
  {
    FlattenSnoc(pages, q);
    ListingsOfJoin(ps, lo, hi);
  }

  lemma FlattenSnoc(pages: seq<Page>, q: nat)
    requires q < |pages|
    ensures Flatten(pages[..q + 1]) == Flatten(pages[..q]) + pages[q].listings
  {
    assert pages[..q + 1][..q] == pages[..q];
  }

  lemma ListingsOfJoin(ps: seq<Predefined>, lo: nat, hi: nat)
    requires lo <= hi <= |ps|
    ensures Listings(ps[..hi]) == Listings(ps[..lo]) + Listings(ps[lo..hi])
  {
    assert ps[..hi] == ps[..lo] + ps[lo..hi];
    ListingsAppend(ps[..lo], ps[lo..hi]);
  }

  /** Reading the pages one after another gives every warning of the table, in order. */
  lemma PagesConcatenate(pages: seq<Page>, ps: seq<Predefined>)
    requires IsPagination(pages, ps)
    ensures Flatten(pages) == Listings(ps)
  {
    var q := 0;
    while q < |pages|
      invariant q <= |pages|
      invariant Flatten(pages[..q]) == Listings(ps[..Min(25 * q, |ps|)])
    {
      var lo, hi := Min(25 * q, |ps|), Min(25 * q + 25, |ps|);
      assert pages[q] == PageAt(ps, q);
      ConcatenateStep(pages, ps, q, lo, hi);
      assert 25 * (q + 1) == 25 * q + 25;
      q := q + 1;
    }
    assert pages[..|pages|] == pages;
    assert ps[..Min(25 * |pages|, |ps|)] == ps;
  }
}
