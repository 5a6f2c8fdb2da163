/**
 * The pager both display functions share: the page count, the slice each
 * page prints, and the prompt between pages that lets paging go on only on
 * an answer of exactly one space.
 */
module Paging {
  import opened Basics
  import opened Text

  /**
   * `p * page_size`, the index of the first record of page `p`, built up one
   * page at a time so that proofs about slices stay free of multiplication.
   */
  function Offset(p: nat, pageSize: nat): nat
  {
    if p == 0 then 0 else Offset(p - 1, pageSize) + pageSize
  }

  lemma {:induction false} OffsetIsProduct(p: nat, pageSize: nat)
    ensures Offset(p, pageSize) == p * pageSize
  {
    if p > 0 {
      OffsetIsProduct(p - 1, pageSize);
      assert (p - 1) * pageSize + pageSize == p * pageSize;
    }
  }

  lemma {:induction false} OffsetMonotone(a: nat, b: nat, pageSize: nat)
    requires a <= b
    ensures Offset(a, pageSize) <= Offset(b, pageSize)
    decreases b
  {
    if a < b {
      OffsetMonotone(a, b - 1, pageSize);
    }
  }

  /** The number of pages `n` records fill: one full page at a time, then a last, possibly partial one. */
  function PageCount(n: nat, pageSize: nat): (total: nat)
    requires pageSize > 0
    ensures n == 0 <==> total == 0
    ensures total <= n
    decreases n
  {
    if n == 0 then 0 else if n <= pageSize then 1 else PageCount(n - pageSize, pageSize) + 1
  }

  /** No records means no page; otherwise the pages but the last hold fewer than `n` records and all of them at least `n`. */
  lemma {:induction false} PageCountBounds(n: nat, pageSize: nat)
    requires pageSize > 0
    ensures n == 0 <==> PageCount(n, pageSize) == 0
    ensures var total := PageCount(n, pageSize);
      total > 0 ==> Offset(total - 1, pageSize) < n <= Offset(total, pageSize)
    decreases n
  {
    if n > pageSize {
      PageCountBounds(n - pageSize, pageSize);
    }
  }

  lemma MulLe(a: nat, b: nat, d: nat)
    requires a <= b
    ensures a * d <= b * d
  {
    assert b * d == a * d + (b - a) * d;
  }

  lemma MulSucc(a: nat, d: nat)
    ensures (a + 1) * d == a * d + d
  {
  }

  /** The quotient is determined by the interval the dividend falls in. */
  lemma DivBetween(x: nat, d: nat, q: nat)
    requires d > 0 && q * d <= x < q * d + d
    ensures x / d == q
  {
    var r, m := x / d, x % d;
    assert x == r * d + m && 0 <= m < d;
    if r > q {
      MulLe(q + 1, r, d);
      MulSucc(q, d);
    } else if r < q {
      MulLe(r + 1, q, d);
      MulSucc(r, d);
    }
  }

  /**
   * The page count is `(n + page_size - 1) // page_size`, the ceiling of
   * `n / page_size`: the first `total - 1` pages hold fewer than `n`
   * records and `total` pages hold them all.
   */
  lemma PageCountIsCeiling(n: nat, pageSize: nat)
    requires pageSize > 0
    ensures PageCount(n, pageSize) == (n + pageSize - 1) / pageSize
    ensures n == 0 <==> PageCount(n, pageSize) == 0
    ensures var total := PageCount(n, pageSize);
      total > 0 ==> (total - 1) * pageSize < n <= total * pageSize
  {
    var total := PageCount(n, pageSize);
    PageCountBounds(n, pageSize);
    if total == 0 {
      DivBetween(pageSize - 1, pageSize, 0);
    } else {
      OffsetIsProduct(total, pageSize);
      OffsetIsProduct(total - 1, pageSize);
      assert (total - 1) * pageSize + pageSize == total * pageSize;
      DivBetween(n + pageSize - 1, pageSize, total);
    }
  }

  /** The pages put back together, in order. */
  function Flatten<T>(pages: seq<seq<T>>): seq<T>
  {
    if pages == [] then [] else pages[0] + Flatten(pages[1..])
  }

  lemma {:induction false} FlattenAppend<T>(a: seq<seq<T>>, b: seq<seq<T>>)
    ensures Flatten(a + b) == Flatten(a) + Flatten(b)
    decreases |a|
  {
    if a == [] {
      assert a + b == b;
    } else {
      assert (a + b)[1..] == a[1..] + b;
      FlattenAppend(a[1..], b);
    }
  }

  lemma FlattenSnoc<T>(pages: seq<seq<T>>, k: nat)
    requires 0 < k <= |pages|
    ensures Flatten(pages[..k]) == Flatten(pages[..k - 1]) + pages[k - 1]
  {
    assert pages[..k] == pages[..k - 1] + [pages[k - 1]];
    FlattenAppend(pages[..k - 1], [pages[k - 1]]);
    assert Flatten([pages[k - 1]]) == pages[k - 1] + Flatten<T>([]);
  }

  /** Every page of `n` records starts before the last record. */
  lemma PageStartsInside(n: nat, pageSize: nat, p: nat)
    requires pageSize > 0 && p < PageCount(n, pageSize)
    ensures Offset(p, pageSize) < n
  {
    PageCountBounds(n, pageSize);
    OffsetMonotone(p, PageCount(n, pageSize) - 1, pageSize);
  }

  /**
   * Page `p`: the records from `p * page_size` up to `(p + 1) * page_size`,
   * cut short at the end of the list. It is never empty and never longer
   * than a page.
   */
  function Page<T>(items: seq<T>, pageSize: nat, p: nat): (page: seq<T>)
    requires pageSize > 0 && p < PageCount(|items|, pageSize)
    ensures 1 <= |page| <= pageSize
  {
    PageStartsInside(|items|, pageSize, p);
    items[Offset(p, pageSize) .. Min(Offset(p + 1, pageSize), |items|)]
  }

  /** All pages of the records, in order. */
  function Pages<T>(items: seq<T>, pageSize: nat): (pages: seq<seq<T>>)
    requires pageSize > 0
    ensures |pages| == PageCount(|items|, pageSize)
    ensures forall p :: 0 <= p < |pages| ==> pages[p] == Page(items, pageSize, p)
  {
    seq(PageCount(|items|, pageSize), p requires 0 <= p < PageCount(|items|, pageSize) => Page(items, pageSize, p))
  }

  lemma SliceConcat<T>(s: seq<T>, lo: nat, hi: nat)
    requires lo <= hi <= |s|
    ensures s[..Min(lo, |s|)] + s[lo..hi] == s[..hi]
  {
    assert s[..lo] + s[lo..hi] == s[..hi];
  }

  /** The first `k` pages together are the first `min(k * page_size, n)` records: always a prefix. */
  lemma {:induction false} FlattenFirstPages<T>(items: seq<T>, pageSize: nat, k: nat)
    requires pageSize > 0 && k <= PageCount(|items|, pageSize)
    ensures Flatten(Pages(items, pageSize)[..k]) == items[..Min(Offset(k, pageSize), |items|)]
    decreases k
  {
    var pages := Pages(items, pageSize);
    if k == 0 {
      assert pages[..0] == [];
    } else {
      var lo, hi := Offset(k - 1, pageSize), Min(Offset(k, pageSize), |items|);
      FlattenFirstPages(items, pageSize, k - 1);
      PageStartsInside(|items|, pageSize, k - 1);
      assert Flatten(pages[..k - 1]) == items[..Min(lo, |items|)];
      assert pages[k - 1] == items[lo..hi];
      FlattenSnoc(pages, k);
      SliceConcat(items, lo, hi);
    }
  }

  /**
   * The pages partition the records: put back together they are the whole
   * list, in order, and each holds between one and `page_size` records.
   */
  lemma PagesPartition<T>(items: seq<T>, pageSize: nat)
    requires pageSize > 0
    ensures Flatten(Pages(items, pageSize)) == items
    ensures forall p :: 0 <= p < |Pages(items, pageSize)| ==> 1 <= |Pages(items, pageSize)[p]| <= pageSize
  {
    var pages := Pages(items, pageSize);
    FlattenFirstPages(items, pageSize, |pages|);
    PageCountBounds(|items|, pageSize);
    assert pages[..|pages|] == pages;
  }

  // ------------------------------------------------------------ the gate

  /**
   * How a paging session ends: how many pages were printed, how many answers
   * were read, and whether `input()` raised because there were none left.
   */
  datatype Gate = Gate(pages: nat, read: nat, aborted: bool)

  /**
   * The session from the moment page `p` has been printed. Page `p` is the
   * last one: paging ends. Otherwise the prompt reads answer number `p`:
   * none left, `input()` raises; an answer other than " " breaks; " " moves
   * on to page `p + 1`.
   */
  function GateFrom(total: nat, responses: seq<string>, p: nat): (g: Gate)
    requires p < total && p <= |responses|
    ensures p < g.pages <= total && g.read <= |responses|
    ensures g.aborted ==> g.pages < total && g.read == |responses| == g.pages - 1
    ensures !g.aborted && g.pages < total ==> g.read == g.pages && responses[g.pages - 1] != " "
    ensures g.pages == total ==> !g.aborted && g.read == total - 1
    ensures g.pages - 1 <= |responses| && forall i :: p <= i < g.pages - 1 ==> responses[i] == " "
    decreases total - p
  {
    if p == total - 1 then Gate(total, p, false)
    else if p >= |responses| then Gate(p + 1, p, true)
    else if Lower(responses[p]) != " " then
      LowerIsSpace(responses[p]);
      Gate(p + 1, p + 1, false)
    else
      LowerIsSpace(responses[p]);
      var g := GateFrom(total, responses, p + 1);
      assert forall i :: p <= i < g.pages - 1 ==> responses[i] == " " by {
        forall i | p <= i < g.pages - 1 ensures responses[i] == " " {
          if i > p {
            assert p + 1 <= i < g.pages - 1;
          }
        }
      }
      g
  }

  /** The whole session over `total` pages; with no page there is no prompt at all. */
  function Session(total: nat, responses: seq<string>): Gate
  {
    if total == 0 then Gate(0, 0, false) else GateFrom(total, responses, 0)
  }

  /** The first `k` prompts were all answered, each with a single space. */
  predicate SpacesUpTo(responses: seq<string>, k: int)
  {
    k <= |responses| && forall i :: 0 <= i < k ==> responses[i] == " "
  }

  /**
   * Every page is printed exactly when every prompt (one after each page but
   * the last) is answered with a single space.
   */
  lemma AllPagesShownIff(total: nat, responses: seq<string>)
    ensures Session(total, responses).pages == total <==> SpacesUpTo(responses, total - 1)
  {
    if total > 0 {
      var g := GateFrom(total, responses, 0);
      assert Session(total, responses) == g;
      if g.pages < total {
        // the answer that ended the session: missing, or not a single space
        if !g.aborted {
          assert 0 <= g.pages - 1 < total - 1 && responses[g.pages - 1] != " ";
        }
      }
    }
  }

  /** Prompts come only between pages: at most `total - 1` answers are ever read. */
  lemma PromptsOnlyBetweenPages(total: nat, responses: seq<string>)
    ensures var g := Session(total, responses);
      g.pages <= total && g.read <= |responses| && (total <= 1 ==> g.read == 0 && !g.aborted) &&
      (total > 0 ==> g.read < total)
  {
  }

  /**
   * `input()` raises exactly when every answer given was a single space and
   * there were fewer of them than prompts.
   */
  lemma SessionAborts(total: nat, responses: seq<string>)
    ensures Session(total, responses).aborted <==>
            total - 1 > |responses| && forall i :: 0 <= i < |responses| ==> responses[i] == " "
  {
    var g := Session(total, responses);
    AllPagesShownIff(total, responses);
    if total - 1 > |responses| && forall i :: 0 <= i < |responses| ==> responses[i] == " " {
      var missing := |responses|;
      assert 0 <= missing < total - 1 && !(missing < |responses|);
      assert g.pages < total;
    }
  }

  // ------------------------------------------------------- the printed run

  /** What one source prints: its records, the answers it read, and whether it ended in an error. */
  datatype Run<T> = Run(shown: seq<T>, read: nat, aborted: bool)

  /** Paging over `items`: the pages the session reaches, printed in order. */
  function PagedRun<T>(items: seq<T>, pageSize: nat, responses: seq<string>): (r: Run<T>)
    requires pageSize > 0
    ensures r.read <= |responses|
    ensures items == [] ==> r == Run([], 0, false)
  {
    var g := Session(PageCount(|items|, pageSize), responses);
    Run(Flatten(Pages(items, pageSize)[..g.pages]), g.read, g.aborted)
  }

  /** The pages a session reaches, put together, are the first `min(pages * page_size, n)` records. */
  lemma PagedRunShowsWholePages<T>(items: seq<T>, pageSize: nat, responses: seq<string>)
    requires pageSize > 0
    ensures var g := Session(PageCount(|items|, pageSize), responses);
      PagedRun(items, pageSize, responses).shown == items[..Min(Offset(g.pages, pageSize), |items|)]
  {
    var g := Session(PageCount(|items|, pageSize), responses);
    FlattenFirstPages(items, pageSize, g.pages);
  }

  /** A session that stops before the last page leaves records unprinted; one that reaches it prints them all. */
  lemma WholePagesCoverAllIff(n: nat, pageSize: nat, pages: nat)
    requires pageSize > 0 && pages <= PageCount(n, pageSize)
    ensures Min(Offset(pages, pageSize), n) == n <==> pages == PageCount(n, pageSize)
  {
    var total := PageCount(n, pageSize);
    PageCountBounds(n, pageSize);
    if pages < total {
      OffsetMonotone(pages, total - 1, pageSize);
    }
  }

  /** The pager prints every record exactly when the session reaches the last page. */
  lemma PagedRunShowsAll<T>(items: seq<T>, pageSize: nat, responses: seq<string>)
    requires pageSize > 0
    ensures var total := PageCount(|items|, pageSize);
      PagedRun(items, pageSize, responses).shown == items <==> Session(total, responses).pages == total
  {
    var total := PageCount(|items|, pageSize);
    var g := Session(total, responses);
    var cut := Min(Offset(g.pages, pageSize), |items|);
    PagedRunShowsWholePages(items, pageSize, responses);
    WholePagesCoverAllIff(|items|, pageSize, g.pages);
    assert PagedRun(items, pageSize, responses).shown == items[..cut];
    assert cut == |items| ==> items[..cut] == items;
  }

  /**
   * The pager prints a prefix of the records, whole pages at a time; it
   * prints them all exactly when every prompt is answered with a single
   * space, and with no records it prints nothing and asks nothing.
   */
  lemma PagedRunShowsPrefix<T>(items: seq<T>, pageSize: nat, responses: seq<string>)
    requires pageSize > 0
    ensures var run := PagedRun(items, pageSize, responses);
      var g := Session(PageCount(|items|, pageSize), responses);
      run.shown == items[..Min(g.pages * pageSize, |items|)] &&
      (run.shown == items <==>
        SpacesUpTo(responses, PageCount(|items|, pageSize) - 1)) &&
      (items == [] ==> run == Run([], 0, false))
  {
    var total := PageCount(|items|, pageSize);
    var g := Session(total, responses);
    var shown := PagedRun(items, pageSize, responses).shown;
    PagedRunShowsWholePages(items, pageSize, responses);
    OffsetIsProduct(g.pages, pageSize);
    PagedRunShowsAll(items, pageSize, responses);
    AllPagesShownIff(total, responses);
    if items == [] {
      PageCountBounds(0, pageSize);
      assert g == Gate(0, 0, false);
    }
  }

  /**
   * Twenty-five records with the default page size of ten: three pages of
   * ten, ten and five records, in order. Answering both prompts with a
   * space shows all of them; any other first answer stops after the first
   * page.
   */
  lemma TwentyFiveInPagesOfTen<T>(items: seq<T>)
    requires |items| == 25
    ensures Pages(items, 10) == [items[..10], items[10..20], items[20..]]
    ensures PagedRun(items, 10, [" ", " "]) == Run(items, 2, false)
    ensures PagedRun(items, 10, ["n"]) == Run(items[..10], 1, false)
  {
    PageCountIsCeiling(25, 10);
    OffsetIsProduct(1, 10);
    OffsetIsProduct(2, 10);
    OffsetIsProduct(3, 10);
    var pages := Pages(items, 10);
    assert pages[0] == items[..10];
    assert pages[1] == items[10..20];
    assert pages[2] == items[20..];
    LowerIsSpace("n");
    PagedRunShowsPrefix(items, 10, [" ", " "]);
    PagedRunShowsPrefix(items, 10, ["n"]);
    assert items[..25] == items;
  }

  /** Printing one page: the records `items[start..stop]`, one after the other, after what is already shown. */
  method ShowPage<T>(shown: seq<T>, items: seq<T>, start: nat, stop: nat) returns (out: seq<T>)
    requires start <= stop <= |items|
    ensures out == shown + items[start..stop]
  {
    out := shown;
    for i := start to stop
      invariant out == shown + items[start..i]
    {
      out := out + [items[i]];
    }
  }

  /**
   * The pager loop: print page `current_page` record by record, then, unless
   * it was the last page, read an answer and stop unless it is a single
   * space (after folding to lower case).
   */
  method Paginate<T>(items: seq<T>, pageSize: nat, responses: seq<string>) returns (run: Run<T>)
    requires pageSize > 0
    ensures run == PagedRun(items, pageSize, responses)
  {
    var totalPages := (|items| + pageSize - 1) / pageSize;
    PageCountIsCeiling(|items|, pageSize);
    ghost var pages := Pages(items, pageSize);
    var currentPage := 0;
    var shown: seq<T> := [];
    var read := 0;
    while currentPage < totalPages
      invariant totalPages == PageCount(|items|, pageSize) == |pages|
      invariant currentPage <= totalPages && read <= |responses|
      invariant shown == Flatten(pages[..currentPage])
      invariant read == if currentPage == totalPages && totalPages > 0 then currentPage - 1 else currentPage
      invariant currentPage < totalPages ==> Session(totalPages, responses) == GateFrom(totalPages, responses, currentPage)
      invariant currentPage == totalPages > 0 ==> Session(totalPages, responses) == Gate(totalPages, totalPages - 1, false)
    {
      var start := currentPage * pageSize;
      var stop := Min((currentPage + 1) * pageSize, |items|);
      OffsetIsProduct(currentPage, pageSize);
      OffsetIsProduct(currentPage + 1, pageSize);
      PageStartsInside(|items|, pageSize, currentPage);
      assert pages[currentPage] == items[start..stop];
      shown := ShowPage(shown, items, start, stop);
      FlattenSnoc(pages, currentPage + 1);
      assert shown == Flatten(pages[..currentPage + 1]);
      if currentPage < totalPages - 1 {
        if read == |responses| {
          // input() meets the end of input: EOFError
          return Run(shown, read, true);
        }
        var userInput := responses[read];
        read := read + 1;
        if Lower(userInput) != " " {
          break;
        }
      }
      currentPage := currentPage + 1;
    }
    run := Run(shown, read, false);
  }

  /**
   * What a display function prints once its filter has run: an exception in
   * the filter, or a page size of zero (`ZeroDivisionError` in the page
   * count), ends the `try` block before any page; otherwise the pager runs.
   */
  function ShownRun<T>(filtered: Eval<seq<T>>, pageSize: nat, responses: seq<string>): (r: Run<T>)
    ensures r.read <= |responses|
    ensures !r.aborted ==> filtered.Done? && pageSize > 0
  {
    if filtered.Raised? || pageSize == 0 then Run([], 0, true)
    else PagedRun(filtered.value, pageSize, responses)
  }

  /**
   * Whatever happens, the records printed are a prefix of the filtered ones,
   * and an error is reported exactly when the filter raised, the page size
   * was zero, or the answers ran out before the last page.
   */
  lemma ShownRunIsPrefix<T>(filtered: Eval<seq<T>>, pageSize: nat, responses: seq<string>)
    ensures var run := ShownRun(filtered, pageSize, responses);
      (filtered.Raised? || pageSize == 0 ==> run == Run([], 0, true)) &&
      (filtered.Done? ==> run.shown <= filtered.value) &&
      (filtered.Done? && pageSize > 0 ==>
        (run.aborted <==> PageCount(|filtered.value|, pageSize) - 1 > |responses| &&
                          forall i :: 0 <= i < |responses| ==> responses[i] == " "))
  {
    if filtered.Done? && pageSize > 0 {
      var items := filtered.value;
      PagedRunShowsPrefix(items, pageSize, responses);
      SessionAborts(PageCount(|items|, pageSize), responses);
    }
  }
}
