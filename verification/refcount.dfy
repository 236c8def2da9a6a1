/**
 * Reference-counted buffers (src/misc.c, _refalloc/_refadd/_refrelease):
 * a count kept in front of each block, starting at one, freed when a
 * release brings it to zero. Blocks are named by addresses; `None` is the
 * null pointer.
 */
module RefCount {
  import opened Usuals

  /** The live blocks and their counts; `next` is an address never handed out yet. */
  datatype Heap = Heap(counts: map<nat, nat>, next: nat)

  /** Every live block has a positive count and an address below `next`. */
  predicate Valid(h: Heap)
  {
    forall a :: a in h.counts ==> a < h.next && h.counts[a] >= 1
  }

  /** _refalloc: a fresh block with count 1, or null when `ok` says malloc failed. */
  function RefAlloc(h: Heap, ok: bool): (r: (Heap, Option<nat>))
    requires Valid(h)
    ensures !ok ==> r == (h, None)
    ensures ok ==> r.1.Some? && r.1.value !in h.counts && r.0.counts == h.counts[r.1.value := 1]
    ensures Valid(r.0)
  {
    if !ok then (h, None)
    else (Heap(h.counts[h.next := 1], h.next + 1), Some(h.next))
  }

  /** _refadd: one more reference; returns the same pointer, and null stays null. */
  function RefAdd(h: Heap, p: Option<nat>): (r: (Heap, Option<nat>))
    requires Valid(h) && (p.Some? ==> p.value in h.counts)
    ensures r.1 == p
    ensures p.None? ==> r.0 == h
    ensures p.Some? ==> r.0.counts == h.counts[p.value := h.counts[p.value] + 1] && r.0.next == h.next
    ensures Valid(r.0)
  {
    match p
    case None => (h, None)
    case Some(a) => (h.(counts := h.counts[a := h.counts[a] + 1]), p)
  }

  /** _refrelease: one reference fewer; the block is freed exactly when its count reaches zero. */
  function RefRelease(h: Heap, p: Option<nat>): (r: Heap)
    requires Valid(h) && (p.Some? ==> p.value in h.counts)
    ensures p.None? ==> r == h
    ensures p.Some? && h.counts[p.value] == 1 ==> r.counts == h.counts - {p.value}
    ensures p.Some? && h.counts[p.value] > 1 ==> r.counts == h.counts[p.value := h.counts[p.value] - 1]
    ensures Valid(r)
  {
    match p
    case None => h
    case Some(a) =>
      if h.counts[a] == 1 then h.(counts := h.counts - {a})
      else h.(counts := h.counts[a := h.counts[a] - 1])
  }

  /** Take `n` more references to `a`. */
  function AddTimes(h: Heap, a: nat, n: nat): (r: Heap)
    requires Valid(h) && a in h.counts
    decreases n
    ensures a in r.counts && Valid(r)
  {
    if n == 0 then h else AddTimes(RefAdd(h, Some(a)).0, a, n - 1)
  }

  /** Drop `n` references to `a`, stopping once it is freed. */
  function ReleaseTimes(h: Heap, a: nat, n: nat): (r: Heap)
    requires Valid(h)
    decreases n
    ensures Valid(r)
  {
    if n == 0 || a !in h.counts then h else ReleaseTimes(RefRelease(h, Some(a)), a, n - 1)
  }

  lemma {:induction false} AddTimesCount(h: Heap, a: nat, n: nat)
    requires Valid(h) && a in h.counts
    decreases n
    ensures AddTimes(h, a, n).counts[a] == h.counts[a] + n
    ensures AddTimes(h, a, n).counts - {a} == h.counts - {a}
  {
    if n > 0 {
      var h' := RefAdd(h, Some(a)).0;
      AddTimesCount(h', a, n - 1);
      assert h'.counts - {a} == h.counts - {a};
    }
  }

  /**
   * A block with count `c` survives `c - 1` releases and is freed by the
   * c-th; other blocks are untouched.
   */
  lemma {:induction false} ReleaseTimesFrees(h: Heap, a: nat, n: nat)
    requires Valid(h) && a in h.counts && n <= h.counts[a]
    decreases n
    ensures var r := ReleaseTimes(h, a, n);
            (n < h.counts[a] ==> a in r.counts && r.counts[a] == h.counts[a] - n) &&
            (n == h.counts[a] ==> a !in r.counts) &&
            r.counts - {a} == h.counts - {a}
  {
    if n > 0 {
      var h' := RefRelease(h, Some(a));
      if h.counts[a] > 1 {
        ReleaseTimesFrees(h', a, n - 1);
      } else {
        assert ReleaseTimes(h', a, n - 1) == h';
      }
      assert h'.counts - {a} == h.counts - {a};
    }
  }

  /**
   * The protocol of the buffer users: one allocation, `n` additional
   * references, then one release per reference; the last release frees the
   * block and no earlier one does.
   */
  lemma AllocAddReleaseBalance(h: Heap, n: nat, k: nat)
    requires Valid(h) && k <= n + 1
    ensures var (h1, p) := RefAlloc(h, true);
            var r := ReleaseTimes(AddTimes(h1, p.value, n), p.value, k);
            (p.value in r.counts <==> k <= n) && r.counts - {p.value} == h.counts
  {
    var (h1, p) := RefAlloc(h, true);
    var a := p.value;
    AddTimesCount(h1, a, n);
    ReleaseTimesFrees(AddTimes(h1, a, n), a, k);
    assert h1.counts - {a} == h.counts;
  }
}
