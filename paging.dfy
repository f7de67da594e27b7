/**
 * The compact pagination window `_page_window`, defined identically in
 * teacher_registration/views.py (gap marker "…") and core/views.py (gap
 * marker "&"): the first and last `edges` pages and the pages within
 * `radius` of the current one, in order, with a marker wherever a run of
 * pages is interrupted.
 */
module Paging {

  /** One entry of the window: a page number or the gap marker. */
  datatype Item = Page(n: int) | Gap(marker: string)

  /** The pages the three collecting loops put into the set. */
  predicate InWindow(p: int, total: int, current: int, radius: int, edges: int) {
    1 <= p <= total && (p <= edges || p >= total - edges + 1 || current - radius <= p <= current + radius)
  }

  /** Every gap carries `marker` and sits between two pages more than one apart. */
  predicate GapsBetweenDistantPages(w: seq<Item>, marker: string) {
    forall i :: 0 <= i < |w| && w[i].Gap? ==>
      w[i].marker == marker && 0 < i < |w| - 1 && w[i - 1].Page? && w[i + 1].Page? && w[i + 1].n > w[i - 1].n + 1
  }

  /** Two adjacent pages with no gap between them are consecutive numbers. */
  predicate AdjacentPagesConsecutive(w: seq<Item>) {
    forall i :: 0 <= i < |w| - 1 && w[i].Page? && w[i + 1].Page? ==> w[i + 1].n == w[i].n + 1
  }

  predicate PagesIncreasing(w: seq<Item>) {
    forall i, j :: 0 <= i < j < |w| && w[i].Page? && w[j].Page? ==> w[i].n < w[j].n
  }

  predicate SortedInts(s: seq<int>) {
    forall i, j :: 0 <= i < j < |s| ==> s[i] < s[j]
  }

  /** The three collecting loops of `_page_window`: edge pages, then the pages around the current one. */
  method CollectPages(total: int, current: int, radius: int, edges: int) returns (pages: set<int>)
    ensures forall x :: x in pages <==> InWindow(x, total, current, radius, edges)
  {
    pages := {};
    var p := 1;
    var firstEnd := if edges < total then edges else total;
    while p <= firstEnd
      invariant p == 1 || p <= firstEnd + 1
      invariant forall x :: x in pages <==> 1 <= x < p && x <= firstEnd
    {
      pages := pages + {p};
      p := p + 1;
    }
    p := if 1 < total - edges + 1 then total - edges + 1 else 1;
    ghost var lastStart := p;
    while p <= total
      invariant lastStart <= p && (p == lastStart || p <= total + 1)
      invariant forall x :: x in pages <==> (1 <= x <= firstEnd) || (lastStart <= x < p && x <= total)
    {
      pages := pages + {p};
      p := p + 1;
    }
    p := current - radius;
    while p <= current + radius
      invariant current - radius <= p && (p == current - radius || p <= current + radius + 1)
      invariant forall x :: x in pages <==>
        (1 <= x <= firstEnd) || (lastStart <= x <= total) || (current - radius <= x < p && 1 <= x <= total)
    {
      if 1 <= p <= total {
        pages := pages + {p};
      }
      p := p + 1;
    }
    forall x ensures x in pages <==> InWindow(x, total, current, radius, edges) {
    }
  }

  /** `sorted(pages)`: the set lies within 1..total, so a scan of that range lists it in order. */
  method SortPages(pages: set<int>, total: int) returns (sorted: seq<int>)
    requires forall x :: x in pages ==> 1 <= x <= total
    ensures SortedInts(sorted)
    ensures forall x :: x in sorted <==> x in pages
  {
    sorted := [];
    var p := 1;
    while p <= total
      invariant 1 <= p
      invariant forall x :: x in sorted <==> x in pages && x < p
      invariant SortedInts(sorted)
      invariant forall k :: 0 <= k < |sorted| ==> sorted[k] < p
    {
      if p in pages {
        sorted := sorted + [p];
      }
      p := p + 1;
    }
  }

  /** One turn of the final loop: the gap marker when the run breaks, then the page. */
  function AppendPage(w: seq<Item>, prev: int, q: int, marker: string): (r: seq<Item>)
    ensures |r| > 0 && r[|r| - 1] == Page(q)
    ensures |w| < |r| && r[..|w|] == w
    ensures forall x :: Page(x) in r <==> Page(x) in w || x == q
  {
    var gapped := if prev != 0 && q != prev + 1 then w + [Gap(marker)] else w;
    assert forall x :: Page(x) in gapped <==> Page(x) in w;
    gapped + [Page(q)]
  }

  /** The shape of one loop turn: the old window, maybe a gap, then the new page. */
  lemma AppendPageShape(w: seq<Item>, prev: int, q: int, marker: string)
    ensures var r := AppendPage(w, prev, q, marker);
      (prev != 0 && q != prev + 1 ==> |r| == |w| + 2 && r[|w|] == Gap(marker))
      && (!(prev != 0 && q != prev + 1) ==> |r| == |w| + 1)
      && forall k :: 0 <= k < |w| ==> r[k] == w[k]
  {
    var r := AppendPage(w, prev, q, marker);
    assert forall k :: 0 <= k < |w| ==> r[k] == r[..|w|][k];
  }

  /** Appending a page above every listed page keeps the pages increasing and bounded by the new page. */
  lemma {:induction false} AppendPageKeepsIncreasing(w: seq<Item>, prev: int, q: int, marker: string)
    requires w != [] ==> q > prev
    requires forall k :: 0 <= k < |w| && w[k].Page? ==> w[k].n <= prev
    requires PagesIncreasing(w)
    ensures var r := AppendPage(w, prev, q, marker);
      PagesIncreasing(r) && forall k :: 0 <= k < |r| && r[k].Page? ==> r[k].n <= q
  {
    var r := AppendPage(w, prev, q, marker);
    AppendPageShape(w, prev, q, marker);
    forall i, j | 0 <= i < j < |r| && r[i].Page? && r[j].Page? ensures r[i].n < r[j].n {
      if j >= |w| {
        assert r[i] == w[i];
      }
    }
  }

  /** A gap is only ever inserted between the previous page and a page more than one above it. */
  lemma {:induction false} AppendPageKeepsGaps(w: seq<Item>, prev: int, q: int, marker: string)
    requires (w == [] <==> prev == 0)
    requires w != [] ==> w[|w| - 1] == Page(prev) && q > prev
    requires GapsBetweenDistantPages(w, marker)
    ensures GapsBetweenDistantPages(AppendPage(w, prev, q, marker), marker)
  {
    var r := AppendPage(w, prev, q, marker);
    AppendPageShape(w, prev, q, marker);
    forall i | 0 <= i < |r| && r[i].Gap?
      ensures r[i].marker == marker && 0 < i < |r| - 1 && r[i - 1].Page? && r[i + 1].Page? && r[i + 1].n > r[i - 1].n + 1
    {
      if i < |w| {
        assert r[i - 1] == w[i - 1] && r[i] == w[i];
        assert i + 1 < |w| ==> r[i + 1] == w[i + 1];
      } else {
        assert r[i - 1] == Page(prev);
      }
    }
  }

  /** Without a gap, the new page directly follows the previous one. */
  lemma {:induction false} AppendPageKeepsConsecutive(w: seq<Item>, prev: int, q: int, marker: string)
    requires (w == [] <==> prev == 0)
    requires w != [] ==> w[|w| - 1] == Page(prev)
    requires AdjacentPagesConsecutive(w)
    ensures AdjacentPagesConsecutive(AppendPage(w, prev, q, marker))
  {
    var r := AppendPage(w, prev, q, marker);
    AppendPageShape(w, prev, q, marker);
    forall i | 0 <= i < |r| - 1 && r[i].Page? && r[i + 1].Page? ensures r[i + 1].n == r[i].n + 1 {
      if i + 1 < |w| {
        assert r[i] == w[i] && r[i + 1] == w[i + 1];
      } else {
        assert r[i] == Page(prev);
      }
    }
  }

  /** What the final loop has built after the first `i` sorted pages, the last of them being `prev`. */
  ghost predicate WindowSoFar(window: seq<Item>, prev: int, sorted: seq<int>, i: nat, marker: string)
    requires i <= |sorted|
  {
    (window == [] <==> prev == 0)
    && prev == (if i == 0 then 0 else sorted[i - 1])
    && (window != [] ==> window[|window| - 1] == Page(prev))
    && (forall x :: Page(x) in window <==> x in sorted[..i])
    && (forall k :: 0 <= k < |window| && window[k].Page? ==> window[k].n <= prev)
    && PagesIncreasing(window)
    && GapsBetweenDistantPages(window, marker)
    && AdjacentPagesConsecutive(window)
  }

  /** One turn of the final loop takes the window over the first `i` pages to the window over `i + 1`. */
  lemma AppendKeepsWindow(window: seq<Item>, prev: int, sorted: seq<int>, i: nat, marker: string)
    requires SortedInts(sorted) && forall k :: 0 <= k < |sorted| ==> sorted[k] >= 1
    requires i < |sorted| && WindowSoFar(window, prev, sorted, i, marker)
    ensures WindowSoFar(AppendPage(window, prev, sorted[i], marker), sorted[i], sorted, i + 1, marker)
  {
    var q := sorted[i];
    var r := AppendPage(window, prev, q, marker);
    assert i > 0 ==> q > sorted[i - 1];
    AppendPageKeepsIncreasing(window, prev, q, marker);
    AppendPageKeepsGaps(window, prev, q, marker);
    AppendPageKeepsConsecutive(window, prev, q, marker);
    assert forall x :: Page(x) in r <==> x in sorted[..i + 1] by {
      assert sorted[..i + 1] == sorted[..i] + [q];
    }
  }

  /** The final loop: each page in turn, preceded by `marker` when it does not follow its predecessor. */
  method InsertGaps(sorted: seq<int>, marker: string) returns (window: seq<Item>)
    requires SortedInts(sorted)
    requires forall k :: 0 <= k < |sorted| ==> sorted[k] >= 1
    ensures forall x :: Page(x) in window <==> x in sorted
    ensures PagesIncreasing(window)
    ensures GapsBetweenDistantPages(window, marker)
    ensures AdjacentPagesConsecutive(window)
  {
    window := [];
    var prev := 0;
    var i := 0;
    while i < |sorted|
      invariant 0 <= i <= |sorted|
      invariant WindowSoFar(window, prev, sorted, i, marker)
    {
      AppendKeepsWindow(window, prev, sorted, i, marker);
      window := AppendPage(window, prev, sorted[i], marker);
      prev := sorted[i];
      i := i + 1;
    }
    assert sorted[..i] == sorted;
  }

  /** `_page_window(page_obj, radius, edges)` with the page count, current page and gap marker as inputs. */
  method PageWindow(total: int, current: int, radius: int, edges: int, marker: string) returns (window: seq<Item>)
    ensures PagesIncreasing(window)
    ensures forall p :: Page(p) in window <==> InWindow(p, total, current, radius, edges)
    ensures GapsBetweenDistantPages(window, marker)
    ensures AdjacentPagesConsecutive(window)
  {
    var pages := CollectPages(total, current, radius, edges);
    var sorted := SortPages(pages, total);
    forall k | 0 <= k < |sorted| ensures sorted[k] >= 1 {
      assert sorted[k] in sorted;
    }
    window := InsertGaps(sorted, marker);
  }

  /** The teacher-registration window: radius and edges 2, gap marker "…". */
  method RegistrationPageWindow(total: int, current: int) returns (window: seq<Item>)
    ensures forall p :: Page(p) in window <==>
      1 <= p <= total && (p <= 2 || p >= total - 1 || current - 2 <= p <= current + 2)
    ensures PagesIncreasing(window) && AdjacentPagesConsecutive(window)
    ensures GapsBetweenDistantPages(window, "…")
  {
    window := PageWindow(total, current, 2, 2, "…");
  }

  /** The core list-view window: radius and edges 2, gap marker "&". */
  method CorePageWindow(total: int, current: int) returns (window: seq<Item>)
    ensures forall p :: Page(p) in window <==>
      1 <= p <= total && (p <= 2 || p >= total - 1 || current - 2 <= p <= current + 2)
    ensures PagesIncreasing(window) && AdjacentPagesConsecutive(window)
    ensures GapsBetweenDistantPages(window, "&")
  {
    window := PageWindow(total, current, 2, 2, "&");
  }
}
