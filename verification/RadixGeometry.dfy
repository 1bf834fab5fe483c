/** The arithmetic of the radix map of guest-physical pages: which pages a node
    and each of its slots stand for, and why the index bits of a page select the
    slot that contains it. */
module RadixGeometry {
  import opened Arithmetic

  const L2_BITS := 9
  const L2_SIZE := 512

  /** Number of levels: (ADDR_SPACE_BITS - TARGET_PAGE_BITS - 1) / L2_BITS + 1 for 64-bit
      addresses and 4 KiB pages. */
  const LEVELS := 6

  /** Pages covered by one slot of a node at the given level. */
  function Span(level: nat): (pages: nat)
    ensures pages > 0
  {
    if level == 0 then 1 else L2_SIZE * Span(level - 1)
  }

  /** Where a node sits: its level, the first page it covers, and the parent slot
      that refers to it (meaningless for the node below the root entry). */
  datatype Site = Site(level: nat, base: nat, up: nat, slot: nat)

  /** First page of slot `k` of a node; slot `k` covers [Lo(s, k), Lo(s, k + 1)). */
  function Lo(s: Site, k: nat): (page: nat)
    ensures page >= s.base
  {
    if k == 0 then s.base else Lo(s, k - 1) + Span(s.level)
  }

  predicate InSlot(s: Site, k: nat, p: nat) {
    Lo(s, k) <= p < Lo(s, k + 1)
  }

  predicate InSite(s: Site, p: nat) {
    s.base <= p < s.base + Span(s.level + 1)
  }

  predicate Aligned(s: Site) {
    s.base % Span(s.level + 1) == 0
  }

  /** The slot selected by the index bits of page `p` at `level`. */
  function Index(level: nat, p: nat): (k: nat)
    ensures k < L2_SIZE
  {
    (p / Span(level)) % L2_SIZE
  }

  lemma {:induction false} LoProduct(s: Site, k: nat)
    ensures Lo(s, k) == s.base + k * Span(s.level)
  {
    if k > 0 {
      LoProduct(s, k - 1);
      assert k * Span(s.level) == (k - 1) * Span(s.level) + Span(s.level);
    }
  }

  lemma {:induction false} LoMonotone(s: Site, j: nat, k: nat)
    requires j <= k
    ensures Lo(s, j) <= Lo(s, k)
    ensures j < k ==> Lo(s, j + 1) <= Lo(s, k)
    decreases k
  {
    if j < k {
      LoMonotone(s, j, k - 1);
    }
  }

  lemma LoEnd(s: Site)
    ensures Lo(s, L2_SIZE) == s.base + Span(s.level + 1)
  {
    LoProduct(s, L2_SIZE);
  }

  lemma SlotInSite(s: Site, k: nat, p: nat)
    requires k < L2_SIZE && InSlot(s, k, p)
    ensures InSite(s, p)
  {
    LoMonotone(s, k + 1, L2_SIZE);
    LoEnd(s);
  }

  lemma SlotUnique(s: Site, j: nat, k: nat, p: nat)
    requires InSlot(s, j, p) && InSlot(s, k, p)
    ensures j == k
  {
    if j < k {
      LoMonotone(s, j + 1, k);
    } else if k < j {
      LoMonotone(s, k + 1, j);
    }
  }

  lemma DivModStep(a: nat, d: nat, span: nat)
    requires span > 0 && d < L2_SIZE * span
    ensures ((a * (L2_SIZE * span) + d) / span) % L2_SIZE == d / span
    ensures d / span < L2_SIZE
    ensures (d / span) * span <= d < (d / span) * span + span
  {
    QuotientBounds(d, span);
    var q := d / span;
    SumOfProducts(a, q, span);
    QuotientIn(a * (L2_SIZE * span) + d, span, a * L2_SIZE + q, q, d - q * span);
  }

  lemma QuotientIn(x: nat, span: nat, n: nat, q: nat, r: nat)
    requires span > 0 && r < span && x == n * span + r && n % L2_SIZE == q
    ensures (x / span) % L2_SIZE == q
  {
    QuotientUnique(x, span, n, r);
  }

  lemma QuotientBounds(d: nat, span: nat)
    requires span > 0 && d < L2_SIZE * span
    ensures d / span < L2_SIZE && (d / span) * span <= d < (d / span) * span + span
  {
    var q := d / span;
    assert d == q * span + d % span;
    FactorOrder(q, L2_SIZE - 1, span);
  }

  lemma SumOfProducts(a: nat, q: nat, span: nat)
    ensures a * (L2_SIZE * span) + q * span == (a * L2_SIZE + q) * span
  {
    assert a * (L2_SIZE * span) == (a * L2_SIZE) * span;
  }

  /** The index bits of a page inside a node pick the slot that covers it. */
  lemma IndexFindsSlot(s: Site, p: nat)
    requires Aligned(s) && InSite(s, p)
    ensures InSlot(s, Index(s.level, p), p)
  {
    var span := Span(s.level);
    var a := s.base / Span(s.level + 1);
    var d := p - s.base;
    assert s.base == a * (L2_SIZE * span);
    DivModStep(a, d, span);
    LoProduct(s, d / span);
    LoProduct(s, d / span + 1);
    assert (d / span + 1) * span == (d / span) * span + span;
  }

  /** Every span divides the larger ones. */
  lemma {:induction false} SpanDivides(i: nat, j: nat, x: nat)
    requires i <= j && x % Span(j) == 0
    ensures x % Span(i) == 0
    decreases j - i
  {
    if i < j {
      var c := x / Span(j);
      var s := Span(j - 1);
      assert x == c * (L2_SIZE * s) == (c * L2_SIZE) * s;
      QuotientUnique(x, s, c * L2_SIZE, 0);
      SpanDivides(i, j - 1, x);
    }
  }

  /** Aligned blocks of two sizes, the larger made of `m` smaller ones, are nested or disjoint. */
  lemma Laminar(small: nat, x: nat, m: nat, y: nat, p: nat, q: nat)
    requires small > 0
    requires x * small <= p < x * small + small
    requires y * m * small <= p < y * m * small + m * small
    requires x * small <= q < x * small + small
    ensures y * m * small <= q < y * m * small + m * small
  {
    FactorOrder(y * m, x, small);
    assert (y * m + m - 1) * small == y * m * small + m * small - small;
    FactorOrder(x, y * m + m - 1, small);
    assert x * small >= y * m * small by { assert (x - y * m) * small == x * small - y * m * small; }
    assert (y * m + m - 1 - x) * small == (y * m + m - 1) * small - x * small;
  }

  lemma LaminarBlocks(small: nat, a: nat, big: nat, b: nat, p: nat, q: nat)
    requires small > 0 && big > 0 && big % small == 0 && a % small == 0 && b % big == 0
    requires a <= p < a + small && b <= p < b + big && a <= q < a + small
    ensures b <= q < b + big
  {
    var x, m, y := a / small, big / small, b / big;
    assert a == x * small;
    assert big == m * small;
    assert b == y * big == y * (m * small) == y * m * small;
    Laminar(small, x, m, y, p, q);
  }

  lemma SpanMultiple(i: nat, j: nat)
    requires i <= j
    ensures Span(j) % Span(i) == 0
  {
    SpanDivides(i, j, Span(j));
  }

  /** The first page of a slot is aligned to the slot's span. */
  lemma SlotAligned(s: Site, k: nat)
    requires Aligned(s)
    ensures Lo(s, k) % Span(s.level) == 0
  {
    LoProduct(s, k);
    SpanDivides(s.level, s.level + 1, s.base);
    hide Span, Lo;
    MultiplesAdd(s.base, k, Span(s.level));
  }

  lemma MultiplesAdd(base: nat, k: nat, span: nat)
    requires span > 0 && base % span == 0
    ensures (base + k * span) % span == 0
  {
    var c := base / span;
    assert base == c * span;
    assert (c + k) * span == c * span + k * span;
    QuotientUnique(base + k * span, span, c + k, 0);
  }

  /** A node one of whose pages lies in a slot of a higher node lies wholly inside that slot. */
  lemma NodeInsideSlot(n: Site, s: Site, k: nat, p: nat, q: nat)
    requires Aligned(n) && Aligned(s) && n.level < s.level
    requires InSite(n, p) && InSlot(s, k, p) && InSite(n, q)
    ensures InSlot(s, k, q)
  {
    SlotAligned(s, k);
    SpanMultiple(n.level + 1, s.level);
    LaminarBlocks(Span(n.level + 1), n.base, Span(s.level), Lo(s, k), p, q);
  }
}
