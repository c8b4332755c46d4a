/** Cutting a derivation into export pages, and the checks that put it together again. */
module ClaimPages {
  import opened Sequences

  const MAX_EXPORT_PAGE_SIZE: nat := 256
  const CLAIM_EXPORT_SCHEMA: nat := 1
  const U32: nat := 0x1_0000_0000

  datatype Page<C, S> = Page(schema: nat, claim: C, root: nat, page: nat, total: nat, steps: seq<S>)

  /** An empty derivation still has a page; the count is cut to 32 bits. */
  function TotalPages(n: nat, size: nat): nat
    requires size > 0
  {
    (if n == 0 then 1 else DivCeil(n, size)) % U32
  }

  lemma Product(a: nat, b: nat, size: nat)
    requires a <= b
    ensures a * size <= b * size
  {
  }

  lemma DivCeilBounds(n: nat, size: nat, k: nat)
    requires size > 0
    ensures k < DivCeil(n, size) <==> k * size < n
  {
    var q := DivCeil(n, size);
    assert q * size <= n + size - 1 < (q + 1) * size;
    if k < q {
      Product(k + 1, q, size);
    } else {
      Product(q, k, size);
    }
  }

  /** Page `k` of the derivation. */
  function PageAt<C, S>(claim: C, root: nat, steps: seq<S>, size: nat, k: nat): Page<C, S>
    requires size > 0 && k < (if steps == [] then 1 else DivCeil(|steps|, size))
  {
    assert k * size <= |steps| by { if steps != [] { DivCeilBounds(|steps|, size, k); } }
    Page(CLAIM_EXPORT_SCHEMA, claim, root, k, TotalPages(|steps|, size), steps[k * size..Min((k + 1) * size, |steps|)])
  }

  /** Every page of an export, in order. */
  function Pages<C, S>(claim: C, root: nat, steps: seq<S>, size: nat): seq<Page<C, S>>
    requires size > 0
  {
    seq(if steps == [] then 1 else DivCeil(|steps|, size),
        k requires 0 <= k < (if steps == [] then 1 else DivCeil(|steps|, size)) => PageAt(claim, root, steps, size, k))
  }

  /** A page is a run of the steps. */
  lemma PageIsPart<C, S>(claim: C, root: nat, steps: seq<S>, size: nat, k: nat) returns (a: nat, b: nat)
    requires size > 0 && k < |Pages(claim, root, steps, size)|
    ensures a <= b <= |steps| && Pages(claim, root, steps, size)[k].steps == steps[a..b]
    ensures Pages(claim, root, steps, size)[k] == PageAt(claim, root, steps, size, k)
  {
    hide DivCeil;
    a, b := k * size, Min((k + 1) * size, |steps|);
    if steps != [] { DivCeilBounds(|steps|, size, k); }
    Product(k, k + 1, size);
  }

  function Concat<C, S>(pages: seq<Page<C, S>>): seq<S> {
    if pages == [] then [] else Concat(pages[..|pages| - 1]) + pages[|pages| - 1].steps
  }

  /** What replay asks of page `i`. */
  predicate GoodPage<C(==), S>(pages: seq<Page<C, S>>, i: nat)
    requires i < |pages|
  {
    var first, page := pages[0], pages[i];
    && page.schema == CLAIM_EXPORT_SCHEMA && page.page == i && page.total == first.total
    && page.root == first.root && page.claim == first.claim
    && page.steps != [] && |page.steps| <= MAX_EXPORT_PAGE_SIZE
    && (i + 1 < |pages| ==> |page.steps| == |first.steps|)
    && |page.steps| <= |first.steps|
  }

  predicate WellShaped<C(==), S>(pages: seq<Page<C, S>>) {
    pages != [] && pages[0].total == |pages| && forall i :: 0 <= i < |pages| ==> GoodPage(pages, i)
  }

  /** Pages cut at every `size` steps join to what was cut. */
  lemma {:induction false} ConcatOfPages<C, S>(claim: C, root: nat, steps: seq<S>, size: nat, k: nat)
    requires size > 0 && steps != [] && k <= DivCeil(|steps|, size)
    ensures Min(k * size, |steps|) <= |steps|
    ensures Concat(Pages(claim, root, steps, size)[..k]) == steps[..Min(k * size, |steps|)]
  {
    var pages := Pages(claim, root, steps, size);
    if k > 0 {
      ConcatOfPages(claim, root, steps, size, k - 1);
      DivCeilBounds(|steps|, size, k - 1);
      assert (k - 1) * size + size == k * size;
      var a, b := (k - 1) * size, Min(k * size, |steps|);
      assert pages[k - 1].steps == steps[a..b];
      hide DivCeil, Pages, PageAt;
      assert pages[..k][..k - 1] == pages[..k - 1] && pages[..k][k - 1] == pages[k - 1];
      assert steps[..a] + steps[a..b] == steps[..b];
    }
  }

  /** Every page but the last is full, and the last is not empty. */
  lemma PageLength<C, S>(claim: C, root: nat, steps: seq<S>, size: nat, k: nat)
    requires size > 0 && steps != [] && k < DivCeil(|steps|, size)
    ensures var page := PageAt(claim, root, steps, size, k);
      1 <= |page.steps| <= size && (k + 1 < DivCeil(|steps|, size) ==> |page.steps| == size)
  {
    DivCeilBounds(|steps|, size, k);
    DivCeilBounds(|steps|, size, k + 1);
    assert (k + 1) * size == k * size + size;
  }

  /** What is exported passes the shape checks of replay, and is the derivation again. */
  lemma ExportIsReplayable<C, S>(claim: C, root: nat, steps: seq<S>, size: nat)
    requires 1 <= size <= MAX_EXPORT_PAGE_SIZE && 1 <= |steps| < U32
    ensures var pages := Pages(claim, root, steps, size);
      && WellShaped(pages) && Concat(pages) == steps
      && 0 < |pages| == TotalPages(|steps|, size) <= |steps| && pages[0].root == root && pages[0].claim == claim
  {
    var pages := Pages(claim, root, steps, size);
    var n := DivCeil(|steps|, size);
    DivCeilBounds(|steps|, size, 0);
    DivCeilBounds(|steps|, size, |steps|);
    Product(1, size, |steps|);
    assert n <= |steps| && n % U32 == n;
    forall i | 0 <= i < |pages| ensures GoodPage(pages, i) {
      PageLength(claim, root, steps, size, 0);
      PageLength(claim, root, steps, size, i);
      hide DivCeil;
    }
    ConcatOfPages(claim, root, steps, size, n);
    DivCeilBounds(|steps|, size, n);
    assert pages[..n] == pages && steps[..|steps|] == steps;
  }

  lemma {:induction false} JoinedLength<C, S>(pages: seq<Page<C, S>>, k: nat)
    requires WellShaped(pages) && k <= |pages|
    ensures k < |pages| ==> |Concat(pages[..k])| == k * |pages[0].steps|
    ensures k == |pages| ==> (k - 1) * |pages[0].steps| < |Concat(pages[..k])| <= k * |pages[0].steps|
  {
    if k > 0 {
      JoinedLength(pages, k - 1);
      assert GoodPage(pages, k - 1);
      assert pages[..k][..k - 1] == pages[..k - 1];
      var size := |pages[0].steps|;
      assert (k - 1) * size + size == k * size;
    }
  }

  lemma {:induction false} JoinedPrefix<C, S>(pages: seq<Page<C, S>>, k: nat, m: nat)
    requires k <= m <= |pages|
    ensures Concat(pages[..k]) <= Concat(pages[..m])
  {
    if k < m {
      JoinedPrefix(pages, k, m - 1);
      assert pages[..m][..m - 1] == pages[..m - 1];
    }
  }

  /** Where a page's steps stand in the whole. */
  lemma PageInWhole<C, S>(pages: seq<Page<C, S>>, k: nat)
    requires WellShaped(pages) && k < |pages|
    ensures var size, whole := |pages[0].steps|, Concat(pages);
      k * size <= Min((k + 1) * size, |whole|) <= |whole| && pages[k].steps == whole[k * size..Min((k + 1) * size, |whole|)]
  {
    var size, whole := |pages[0].steps|, Concat(pages);
    JoinedLength(pages, k);
    JoinedLength(pages, k + 1);
    assert pages[..k + 1][..k] == pages[..k] && pages[..|pages|] == pages;
    JoinedPrefix(pages, k + 1, |pages|);
    var upTo := Concat(pages[..k + 1]);
    assert upTo == Concat(pages[..k]) + pages[k].steps;
    assert (k + 1) * size == k * size + size;
    assert |upTo| == Min((k + 1) * size, |whole|);
    assert whole[..|upTo|] == upTo;
    assert whole[k * size..|upTo|] == upTo[k * size..];
  }

  /** Any pages that pass the checks are the export of their own concatenation at the first page's size. */
  lemma ReplayableIsAnExport<C, S>(pages: seq<Page<C, S>>)
    requires WellShaped(pages) && |pages| < U32
    ensures GoodPage(pages, 0) && pages == Pages(pages[0].claim, pages[0].root, Concat(pages), |pages[0].steps|)
  {
    var size, whole, n := |pages[0].steps|, Concat(pages), |pages|;
    assert GoodPage(pages, 0);
    JoinedLength(pages, n);
    assert pages[..n] == pages;
    DivCeilBounds(|whole|, size, n - 1);
    DivCeilBounds(|whole|, size, n);
    assert DivCeil(|whole|, size) == n == TotalPages(|whole|, size);
    hide DivCeil;
    var exported := Pages(pages[0].claim, pages[0].root, whole, size);
    forall k | 0 <= k < n ensures pages[k] == exported[k] {
      assert GoodPage(pages, k);
      PageInWhole(pages, k);
    }
  }
}
