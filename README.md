# cachestat() in Dafny

A model of the `cachestat` system call of the Linux kernel
(`mm/cachestat.c`). Given a file and a byte range `[off, off + len)`, the
call reports how many pages of that range are in the page cache, how many of
those are dirty or under writeback, how many have been evicted (an eviction
shadow sits in their slot), and how many of the evicted ones were evicted
recently according to the working-set code.

The model has three modules, following the call's three parts:

- `Range` (`range.dfy`): the conversion of the byte range into inclusive page
  bounds `[first_index, last_index]`. `off + len - 1` is computed modulo 2^64
  as in the source's `size_t` arithmetic; `>> PAGE_SHIFT` on a non-negative
  value is division by `PAGE_SIZE` (4096, `PAGE_SHIFT` 12); a last index
  below the first becomes `ULONG_MAX`.
- `Scan` (`scan.dfy`): the page index as a snapshot, a strictly ascending
  sequence of slots, each holding a retry marker, nothing, an eviction marker
  (an XArray value entry) or a folio with its dirty and writeback flags. The
  function `Tally` states what a scan computes; `ScanRange` is the
  `xas_for_each` loop itself, proved to compute `Tally`; `CountEntry` is the
  loop body for one entry. The lemmas state what the counters mean:
  each counter is the number of entries of its kind in range, the subset
  counters never pass `nrCache` or `nrEvicted`, `nrCache + nrEvicted` is the
  number of present entries in range and never exceeds the number of pages
  in range, and so on.
- `Syscall` (`syscall.dfy`): the entry point with its order of checks and
  error codes (`-EINVAL`, `-EFAULT`, `-EBADF`), and what is stored in user
  memory (nothing, on every error).

Inputs that stand for code outside the core: `fdget(fd)` is an
`Option<AddressSpace>` (its page index and whether `shmem_mapping` holds);
`access_ok` and the success of `copy_to_user` are booleans;
`workingset_test_recent`, `radix_to_swp_entry` and
`get_shadow_from_swap_cache` are the three function fields of `Oracles`.

Where the doc comment and the code disagree, or the code's behaviour may
surprise, the model follows the code:

- The doc comment of `mm/cachestat.c` (lines 24-25) says a wrapping
  `off + len` queries to the end of the file. The code tests
  `last_index < first_index` instead, so a wrap whose end lands in the page
  of `off` queries only that page (`Range.WrapWithinStartPage`:
  `off = 4100`, `len = 2^64 - 2` gives pages `[1, 1]`).
- `len == 0` has no rule of its own; `Range.PageBoundsZeroLength` states
  what the formula gives.
- When the swap-cache lookup of a shmem mapping finds no shadow, the code
  passes NULL to `workingset_test_recent` (lines 78, 84); the model passes
  `NoShadow` to `Oracles.isRecent`.
- After the `ULONG_MAX` adjustment at lines 59-60 the bounds always satisfy
  `first_index <= last_index` (`Range.PageBounds`).

## Model

| member | source | states |
|---|---|---|
| `Range.RawLast` | mm/cachestat.c:57 | `(off + len - 1) >> 12` in 64-bit arithmetic is the page of the last byte when the sum does not wrap, of the wrapped last byte when it does, of `off - 1` when `len == 0`, and `ULONG_MAX >> 12` when both are 0 |
| `Range.PageBounds` | mm/cachestat.c:54-60 | the adjusted bounds always satisfy `first <= last`, and the range holds at least one and fewer than 2^64 pages |
| `Range.PageBoundsExact` | mm/cachestat.c:54-60 | when `off + len` is at most 2^64 and `len > 0`, page `p` is in the bounds exactly when it shares a byte with `[off, off + len)`; this includes a sum of exactly 2^64, which wraps to 0 and, after the `- 1`, gives last page `ULONG_MAX >> 12`, the page of the last byte |
| `Range.PageBoundsWrapped` | mm/cachestat.c:57-60 | when `off + len` exceeds 2^64, the first page is `off >> 12` and the last is `ULONG_MAX` exactly when the wrapped end lies in an earlier page, otherwise it is the first page |
| `Range.WrapWithinStartPage` | mm/cachestat.c:57-60 | `off = 4100`, `len = 2^64 - 2` wraps, yet the bounds are `[1, 1]`, not open-ended |
| `Range.PageBoundsZeroLength` | mm/cachestat.c:57-60 | with `len == 0`: offset 0 gives `[0, ULONG_MAX >> 12]`, a page-aligned `off > 0` runs to `ULONG_MAX`, an unaligned one gives the single page of `off` |
| `Range.WholeFileBounds` | mm/cachestat.c:54-60 | querying `n` whole pages from offset 0 gives exactly the page indices `0 .. n - 1` |
| `Scan.Account` | mm/cachestat.c:64-97 | one entry in range raises each counter by one exactly when that counter counts the entry, so a present entry raises `nrCache + nrEvicted` by one and any other leaves it unchanged |
| `Scan.Tally` | mm/cachestat.c:63-98 | a scan keeps `nrDirty <= nrCache`, `nrWriteback <= nrCache`, `nrRecentlyEvicted <= nrEvicted`, and `nrCache + nrEvicted` equals the number of present entries in range |
| `Scan.TallyCounts` | mm/cachestat.c:67-97 | each counter is the number of in-range positions of its kind: folios, dirty folios, folios under writeback, value entries, value entries whose shadow (the entry, or the swap-cache shadow for shmem) the recency test accepts |
| `Scan.TallyWithinRange` | mm/cachestat.c:63-91 | in an ascending index `nrCache + nrEvicted` never exceeds `last - first + 1` |
| `Scan.CountersFit` | mm/cachestat.c:54-97 | for every query all five counters are at most `ULONG_MAX`, so none wraps its `__u64` field |
| `Scan.TallyFullRange` | mm/cachestat.c:63-91 | when every page of the range holds a present entry, `nrCache + nrEvicted` equals the number of pages in range |
| `Scan.WholeFileCounts` | tools/testing/selftests/cachestat/test_cachestat.c:92-117 | the whole-file query on a file whose `n` pages are all in the index gives `nrCache + nrEvicted == n` |
| `Scan.FreshlyWrittenFile` | mm/cachestat.c:90-97 | a file of `n` resident dirty pages not under writeback reports `n` cached, `n` dirty and nothing else |
| `Scan.TallyFlushed` | tools/testing/selftests/cachestat/test_cachestat.c:120-140 | after every folio is cleaned and its writeback finished, the query reports no dirty and no writeback pages and the same cached, evicted and recently evicted counts |
| `Scan.TallyZero` | mm/cachestat.c:43-65 | all five counters are zero exactly when no present entry lies in range |
| `Scan.TallyObserved` | mm/cachestat.c:63-65 | dropping retry markers, empty slots and slots outside the range changes no counter |
| `Scan.TallyFrame` | mm/cachestat.c:63-65 | two indexes with the same present entries in range give the same counters |
| `Scan.TallyIgnoresSwapCache` | mm/cachestat.c:74-84 | for a non-shmem mapping the swap-entry decoding and swap-cache lookup are never consulted; only the recency test decides |
| `Scan.TallyShmemUsesSwapShadow` | mm/cachestat.c:74-84 | for a shmem mapping the entry itself never reaches the recency test: two environments that agree on the recency of the swap-cache shadow of every decoded entry give the same counters |
| `Scan.Seek` | mm/cachestat.c:55 | the walk starts at the first slot whose page is at or after `first_index`; every earlier slot lies before it |
| `Scan.CountEntry` | mm/cachestat.c:64-97 | one entry's effect on the counters: retry and empty slots nothing, a value entry `nrEvicted` and, if the recency test accepts its shadow, `nrRecentlyEvicted`, a folio `nrCache` and its two flags independently |
| `Scan.ScanRange` | mm/cachestat.c:62-98 | the loop, starting from zeroed counters and visiting slots in ascending order from `first_index` to `last_index`, computes exactly `Tally` of the index over the range |
| `Syscall.Cachestat` | mm/cachestat.c:37-109 | negative `off` gives `-EINVAL`; then an inaccessible buffer `-EFAULT`; then an unresolved descriptor `-EBADF`; then a failed copy `-EFAULT`; otherwise 0 with the scan's counters stored; nothing is stored on any error |

## Left out

- RCU read-side locking (lines 62, 99) and concurrent changes to the index: the model scans one fixed snapshot, so the staleness the doc comment allows does not arise.
- XArray internals: multi-order and sibling entries, node walking, and the restart `xas_retry` performs. A retry marker is skipped; in the source the walk re-reads that slot, which in a snapshot would read the same marker again.
- `fdget`/`fdput` reference counting and the `access_ok`/`copy_to_user` mechanics: inputs or outcomes only. A `copy_to_user` that copies part of the record before failing is modelled as storing nothing.
- `workingset_test_recent`, `radix_to_swp_entry`, `get_shadow_from_swap_cache`, `shmem_mapping`, `folio_test_dirty`, `folio_test_writeback`: their results are parameters or entry fields; their internals and the atomicity of the flag reads are not modelled. The unused `workingset` output of the recency test is dropped.
- Counters are unbounded naturals rather than `__u64`; `Scan.CountersFit` shows none can exceed `ULONG_MAX`.
- `long` is 64 bits and `PAGE_SHIFT` is 12: `ULONG_MAX`, `pgoff_t` and the `size_t` wrap are those of a 64-bit build, and other page sizes are not modelled.
- The selftest's file creation, writing, `fsync` and printing are I/O; only its two assertions are stated, as `Scan.WholeFileCounts` and `Scan.TallyFlushed`.
