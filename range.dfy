/** Conversion of the byte range `[off, off + len)` of a cachestat() call
    into the inclusive page-index bounds `[first_index, last_index]` that the
    scan walks (mm/cachestat.c, lines 54-60).

    `off` is an `off_t` (signed 64-bit) already known to be non-negative;
    `len` is a `size_t`; the sum `off + len - 1` is computed in unsigned
    64-bit arithmetic and so wraps modulo 2^64. */
module Range {

  const PAGE_SHIFT: nat := 12
  /** `1 << PAGE_SHIFT`; for a non-negative value `x`, `x >> PAGE_SHIFT == x / PAGE_SIZE`. */
  const PAGE_SIZE: nat := 0x1000
  const TWO_64: int := 0x1_0000_0000_0000_0000
  const ULONG_MAX: int := 0xFFFF_FFFF_FFFF_FFFF

  /** `unsigned long`, `size_t`, `pgoff_t`. */
  type u64 = x: int | 0 <= x <= 0xFFFF_FFFF_FFFF_FFFF
  /** `off_t`. */
  type i64 = x: int | -0x8000_0000_0000_0000 <= x <= 0x7FFF_FFFF_FFFF_FFFF

  /** Inclusive bounds on page indices. */
  datatype PageRange = PageRange(first: u64, last: u64)
  {
    predicate Contains(p: int) { first <= p <= last }

    /** Number of page indices in the range (0 when `last < first`). */
    function Size(): int { last - first + 1 }
  }

  /** `(off + len - 1) >> PAGE_SHIFT` before the wrap check (line 57), with
      the addition and the subtraction done modulo 2^64: the page of the last
      byte when the sum does not wrap, the page of the wrapped last byte when
      it does, and for `len == 0` the page of `off - 1`, which at `off == 0`
      is the last page a 64-bit byte offset can reach. */
  function RawLast(off: u64, len: u64): (r: u64)
    ensures 0 < len && off + len <= TWO_64 ==> r * PAGE_SIZE < off + len <= (r + 1) * PAGE_SIZE
    ensures off + len > TWO_64 ==> r * PAGE_SIZE < off + len - TWO_64 <= (r + 1) * PAGE_SIZE
    ensures len == 0 && off > 0 ==> r * PAGE_SIZE < off <= (r + 1) * PAGE_SIZE
    ensures len == 0 && off == 0 ==> r == ULONG_MAX / PAGE_SIZE
  {
    ((off + len - 1) % TWO_64) / PAGE_SIZE
  }

  /** The bounds the scan uses: `first_index = off >> PAGE_SHIFT`,
      `last_index = (off + len - 1) >> PAGE_SHIFT`, and `ULONG_MAX` ("to the
      end of the file") when that falls below `first_index`. The result is
      never empty and never holds 2^64 indices, so every counter fits its
      `__u64` field. */
  function PageBounds(off: i64, len: u64): (r: PageRange)
    requires off >= 0
    ensures r.first <= r.last
    ensures 1 <= r.Size() <= ULONG_MAX
  {
    var first := off / PAGE_SIZE;
    var last := RawLast(off, len);
    if last < first then PageRange(first, ULONG_MAX) else PageRange(first, last)
  }

  /** When `off + len` is at most 2^64 and the range is not empty, the
      bounds hold exactly the pages that share a byte with `[off, off + len)`.
      This includes a sum of exactly 2^64, which wraps to 0; the `- 1` then
      wraps back to `ULONG_MAX`, the last byte of the range. */
  lemma PageBoundsExact(off: i64, len: u64, p: int)
    requires 0 <= off && 0 < len && off + len <= TWO_64
    ensures PageBounds(off, len).Contains(p)
        <==> off < (p + 1) * PAGE_SIZE && p * PAGE_SIZE < off + len
  {
  }

  /** When `off + len` exceeds 2^64, the wrapped last byte lies before
      `off`; if it lies in an earlier page the query runs to the end of the
      file, and otherwise it is the single page holding `off`. */
  lemma PageBoundsWrapped(off: i64, len: u64)
    requires 0 <= off && off + len > TWO_64
    ensures var r := PageBounds(off, len);
      && r.first == off / PAGE_SIZE
      && (r.last == ULONG_MAX || r.last == r.first)
      && (r.last == ULONG_MAX <==> (off + len - 1 - TWO_64) / PAGE_SIZE < off / PAGE_SIZE)
  {
  }

  /** A wrapping sum whose end lands in the page of `off` is not detected:
      `off = 4100`, `len = 2^64 - 2` wraps, yet the query covers only page 1
      rather than running to the end of the file as the doc comment of
      mm/cachestat.c (lines 24-25) describes. */
  lemma WrapWithinStartPage()
    ensures 4100 + (TWO_64 - 2) > TWO_64
    ensures PageBounds(4100, TWO_64 - 2) == PageRange(1, 1)
  {
  }

  /** `len == 0` has no rule of its own: `off - 1` decides. At offset 0 it
      wraps to `ULONG_MAX` and the range is every page a 64-bit byte offset
      can reach; at a page-aligned offset `off > 0` it falls into the
      previous page, so the query runs to the end of the file; elsewhere it
      is the single page holding `off`. */
  lemma PageBoundsZeroLength(off: i64)
    requires off >= 0
    ensures var r := PageBounds(off, 0);
      && (off == 0 ==> r == PageRange(0, ULONG_MAX / PAGE_SIZE))
      && (off > 0 && off % PAGE_SIZE == 0 ==> r == PageRange(off / PAGE_SIZE, ULONG_MAX))
      && (off % PAGE_SIZE != 0 ==> r == PageRange(off / PAGE_SIZE, off / PAGE_SIZE))
  {
  }

  /** A file of `n` whole pages queried from offset 0 over its whole size
      covers exactly the page indices `0 .. n - 1`. */
  lemma WholeFileBounds(n: nat)
    requires 0 < n && n * PAGE_SIZE <= ULONG_MAX
    ensures PageBounds(0, n * PAGE_SIZE) == PageRange(0, n - 1)
  {
  }
}
