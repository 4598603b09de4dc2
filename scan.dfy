/** The classification scan of cachestat() (mm/cachestat.c, lines 63-98):
    a walk, in ascending page order, over the entries of a file's page index
    between `first_index` and `last_index`, accumulating five counters.

    The page index (an XArray in the source) is modelled as one fixed
    snapshot: a strictly ascending sequence of occupied slots. The recency
    test and the swap-cache lookup the scan calls out to are parameters. */
module Scan {
  import opened Range

  /** The word stored in an XArray value entry (an eviction shadow, or, in
      a shmem mapping, a swap location). */
  type Marker = nat
  /** `swp_entry_t`. */
  type SwapEntry = nat

  /** The `void *shadow` handed to the recency test; `NoShadow` is NULL,
      which the swap-cache lookup returns when it finds nothing. */
  datatype Shadow = NoShadow | Shadow(word: nat)

  /** What the walk can find in a slot. */
  datatype Entry =
    | Retry                                  // a retry marker: no information for this slot
    | Null                                   // an empty slot
    | Value(marker: Marker)                  // an evicted page's marker
    | Folio(dirty: bool, writeback: bool)    // a resident folio and its two flags
  {
    /** Entries the scan counts. */
    predicate Present() { Value? || Folio? }
  }

  datatype Slot = Slot(index: u64, entry: Entry)

  ghost predicate Ascending(s: seq<Slot>)
  {
    forall i, j :: 0 <= i < j < |s| ==> s[i].index < s[j].index
  }

  /** A snapshot of `mapping->i_pages`: slots in strictly ascending page order. */
  type PageIndex = s: seq<Slot> | Ascending(s) witness []

  /** The calls the scan makes into other parts of the kernel. */
  datatype Oracles = Oracles(
    isRecent: Shadow -> bool,               // workingset_test_recent(shadow, true, &workingset)
    radixToSwp: Marker -> SwapEntry,        // radix_to_swp_entry
    swapCacheShadow: SwapEntry -> Shadow)   // get_shadow_from_swap_cache

  /** `struct cachestat`. */
  datatype CacheStat = CacheStat(
    nrCache: nat,
    nrDirty: nat,
    nrWriteback: nat,
    nrEvicted: nat,
    nrRecentlyEvicted: nat)

  /** The counters after `memset(&cs, 0, ...)`. */
  const Zero := CacheStat(0, 0, 0, 0, 0)

  /** The shadow the recency test is asked about (lines 74-82): for a shmem
      mapping, the swap-cache shadow of the decoded swap entry, which may be
      NULL; otherwise the entry itself, never NULL. */
  function ShadowOf(shmem: bool, m: Marker, env: Oracles): Shadow
  {
    if shmem then env.swapCacheShadow(env.radixToSwp(m)) else Shadow(m)
  }

  /** What one entry inside the range adds to the counters (lines 64-97):
      each counter grows by one exactly when it counts the entry, so a
      present entry bumps exactly one of `nrCache` and `nrEvicted` and
      anything else leaves the counters alone. */
  function Account(cs: CacheStat, e: Entry, shmem: bool, env: Oracles): (r: CacheStat)
    ensures forall k :: Field(r, k) == Field(cs, k) + if Counts(k, e, shmem, env) then 1 else 0
    ensures r.nrCache + r.nrEvicted == cs.nrCache + cs.nrEvicted + if e.Present() then 1 else 0
  {
    match e
    case Retry => cs
    case Null => cs
    case Value(m) =>
      cs.(nrEvicted := cs.nrEvicted + 1,
          nrRecentlyEvicted := cs.nrRecentlyEvicted + if env.isRecent(ShadowOf(shmem, m, env)) then 1 else 0)
    case Folio(dirty, writeback) =>
      cs.(nrCache := cs.nrCache + 1,
          nrDirty := cs.nrDirty + (if dirty then 1 else 0),
          nrWriteback := cs.nrWriteback + if writeback then 1 else 0)
  }

  /** The present entries of `s` that lie in `r`, in order: the entries the
      scan counts. `PresentCount` is their number and `PagesIn` (below) the
      set of their pages. */
  function Observed(s: seq<Slot>, r: PageRange): (o: seq<Slot>)
    ensures forall j :: 0 <= j < |o| ==> r.Contains(o[j].index) && o[j].entry.Present()
  {
    if s == [] then []
    else
      var x := s[|s| - 1];
      Observed(s[..|s| - 1], r) + if r.Contains(x.index) && x.entry.Present() then [x] else []
  }

  /** Number of present entries of `s` whose page lies in `r`. */
  function PresentCount(s: seq<Slot>, r: PageRange): nat
  {
    |Observed(s, r)|
  }

  /** The counters a scan of `s` over `r` produces, entry by entry in
      ascending order. Each present entry in range bumps exactly one of
      `nrCache` and `nrEvicted`, and the three subset counters never pass
      the counter they refine. */
  function Tally(s: seq<Slot>, r: PageRange, shmem: bool, env: Oracles): (cs: CacheStat)
    ensures cs.nrDirty <= cs.nrCache && cs.nrWriteback <= cs.nrCache
    ensures cs.nrRecentlyEvicted <= cs.nrEvicted
    ensures cs.nrCache + cs.nrEvicted == PresentCount(s, r)
  {
    if s == [] then Zero
    else
      var x := s[|s| - 1];
      var prev := Tally(s[..|s| - 1], r, shmem, env);
      if r.Contains(x.index) then Account(prev, x.entry, shmem, env) else prev
  }

  // ---------------------------------------------------------------------
  // An independent description: each counter as a number of positions.

  datatype Counter = NrCache | NrDirty | NrWriteback | NrEvicted | NrRecentlyEvicted

  function Field(cs: CacheStat, k: Counter): nat
  {
    match k
    case NrCache => cs.nrCache
    case NrDirty => cs.nrDirty
    case NrWriteback => cs.nrWriteback
    case NrEvicted => cs.nrEvicted
    case NrRecentlyEvicted => cs.nrRecentlyEvicted
  }

  /** Whether counter `k` counts entry `e`. */
  predicate Counts(k: Counter, e: Entry, shmem: bool, env: Oracles)
  {
    match k
    case NrCache => e.Folio?
    case NrDirty => e.Folio? && e.dirty
    case NrWriteback => e.Folio? && e.writeback
    case NrEvicted => e.Value?
    case NrRecentlyEvicted => e.Value? && env.isRecent(ShadowOf(shmem, e.marker, env))
  }

  /** The positions of `s` that lie in `r` and that counter `k` counts. */
  ghost function Positions(k: Counter, s: seq<Slot>, r: PageRange, shmem: bool, env: Oracles): set<int>
  {
    set j | 0 <= j < |s| && r.Contains(s[j].index) && Counts(k, s[j].entry, shmem, env)
  }

  lemma PositionsSnoc(k: Counter, s: seq<Slot>, r: PageRange, shmem: bool, env: Oracles)
    requires s != []
    ensures var n := |s| - 1;
      Positions(k, s, r, shmem, env)
        == Positions(k, s[..n], r, shmem, env)
           + if r.Contains(s[n].index) && Counts(k, s[n].entry, shmem, env) then {n} else {}
  {
  }

  /** Every counter equals the number of entries in range of its kind: a
      folio for `nrCache`, a dirty folio for `nrDirty`, a folio under
      writeback for `nrWriteback`, a value entry for `nrEvicted`, and a value
      entry whose shadow the recency test accepts for `nrRecentlyEvicted`. */
  lemma {:induction false} TallyCounts(s: seq<Slot>, r: PageRange, shmem: bool, env: Oracles, k: Counter)
    ensures Field(Tally(s, r, shmem, env), k) == |Positions(k, s, r, shmem, env)|
  {
    if s == [] {
      assert Positions(k, s, r, shmem, env) == {};
    } else {
      var n := |s| - 1;
      var p := s[..n];
      var x := s[n];
      TallyCounts(p, r, shmem, env, k);
      PositionsSnoc(k, s, r, shmem, env);
    }
  }

  // ---------------------------------------------------------------------
  // Counting pages: bounds on nrCache + nrEvicted.

  /** The pages of the present entries of `s`. */
  ghost function Pages(s: seq<Slot>): set<int>
  {
    set j | 0 <= j < |s| && s[j].entry.Present() :: s[j].index
  }

  /** The pages of the present entries of `s` that lie in `r`. */
  ghost function PagesIn(s: seq<Slot>, r: PageRange): (a: set<int>)
    ensures forall q :: q in a ==> r.Contains(q)
  {
    if s == [] then {}
    else
      var x := s[|s| - 1];
      PagesIn(s[..|s| - 1], r) + if r.Contains(x.index) && x.entry.Present() then {x.index} else {}
  }

  lemma {:induction false} PagesInBelow(s: seq<Slot>, r: PageRange, bound: int)
    requires forall j :: 0 <= j < |s| ==> s[j].index < bound
    ensures forall q :: q in PagesIn(s, r) ==> q < bound
  {
    if s != [] {
      PagesInBelow(s[..|s| - 1], r, bound);
    }
  }

  lemma {:induction false} InPagesIn(s: seq<Slot>, r: PageRange, j: nat)
    requires j < |s| && r.Contains(s[j].index) && s[j].entry.Present()
    ensures s[j].index in PagesIn(s, r)
  {
    if j < |s| - 1 {
      InPagesIn(s[..|s| - 1], r, j);
    }
  }

  /** The page indices `lo .. hi`. */
  ghost function Interval(lo: int, hi: int): (a: set<int>)
    ensures forall q :: q in a <==> lo <= q <= hi
    ensures |a| == if lo <= hi then hi - lo + 1 else 0
    decreases hi - lo
  {
    if hi < lo then {} else Interval(lo, hi - 1) + {hi}
  }

  lemma SubsetCard(a: set<int>, b: set<int>)
    requires a <= b
    ensures |a| <= |b|
  {
    assert b == a + (b - a);
    assert a * (b - a) == {};
  }

  /** In an ascending index no two present entries share a page, so the
      pages in range are as many as the present entries in range. */
  lemma {:induction false} PagesInCount(s: seq<Slot>, r: PageRange)
    requires Ascending(s)
    ensures |PagesIn(s, r)| == PresentCount(s, r)
  {
    if s != [] {
      var n := |s| - 1;
      var p := s[..n];
      var x := s[n];
      PagesInCount(p, r);
      PagesInBelow(p, r, x.index);
    }
  }

  /** `nrCache + nrEvicted` never exceeds the number of pages in the range. */
  lemma TallyWithinRange(s: PageIndex, r: PageRange, shmem: bool, env: Oracles)
    requires r.first <= r.last
    ensures var cs := Tally(s, r, shmem, env); cs.nrCache + cs.nrEvicted <= r.Size()
  {
    PagesInCount(s, r);
    SubsetCard(PagesIn(s, r), Interval(r.first, r.last));
  }

  /** For any query, every counter fits the `__u64` field of `struct
      cachestat` it is copied into. */
  lemma CountersFit(s: PageIndex, off: i64, len: u64, shmem: bool, env: Oracles)
    requires off >= 0
    ensures var cs := Tally(s, PageBounds(off, len), shmem, env);
      cs.nrCache <= ULONG_MAX && cs.nrDirty <= ULONG_MAX && cs.nrWriteback <= ULONG_MAX
      && cs.nrEvicted <= ULONG_MAX && cs.nrRecentlyEvicted <= ULONG_MAX
  {
    TallyWithinRange(s, PageBounds(off, len), shmem, env);
  }

  /** When every page of the range holds a present entry, `nrCache +
      nrEvicted` is the number of pages in the range. */
  lemma TallyFullRange(s: PageIndex, r: PageRange, shmem: bool, env: Oracles)
    requires r.first <= r.last
    requires forall q :: r.first <= q <= r.last ==> q in Pages(s)
    ensures var cs := Tally(s, r, shmem, env); cs.nrCache + cs.nrEvicted == r.Size()
  {
    PagesInCount(s, r);
    assert PagesIn(s, r) == Interval(r.first, r.last) by {
      forall q | q in Interval(r.first, r.last) ensures q in PagesIn(s, r) {
        assert q in Pages(s);
        var j :| 0 <= j < |s| && s[j].entry.Present() && s[j].index == q;
        InPagesIn(s, r, j);
      }
    }
  }

  /** The whole-file query on a file whose `n` pages are all in the index,
      resident or evicted, reports `nrCache + nrEvicted == n`. */
  lemma WholeFileCounts(s: PageIndex, n: nat, shmem: bool, env: Oracles)
    requires 0 < n && n * PAGE_SIZE <= ULONG_MAX
    requires forall q :: 0 <= q < n ==> q in Pages(s)
    ensures var cs := Tally(s, PageBounds(0, n * PAGE_SIZE), shmem, env); cs.nrCache + cs.nrEvicted == n
  {
    WholeFileBounds(n);
    TallyFullRange(s, PageRange(0, n - 1), shmem, env);
  }

  /** A freshly written file of `n` pages, every page resident, dirty and not
      under writeback, reports `n` cached and `n` dirty pages and nothing
      else. */
  lemma FreshlyWrittenFile(s: PageIndex, n: nat, shmem: bool, env: Oracles)
    requires 0 < n && n * PAGE_SIZE <= ULONG_MAX
    requires forall q :: 0 <= q < n ==> q in Pages(s)
    requires forall j :: 0 <= j < |s| && s[j].index < n ==> s[j].entry.Present() ==> s[j].entry == Folio(true, false)
    ensures Tally(s, PageBounds(0, n * PAGE_SIZE), shmem, env) == CacheStat(n, n, 0, 0, 0)
  {
    var r := PageBounds(0, n * PAGE_SIZE);
    WholeFileCounts(s, n, shmem, env);
    assert r == PageRange(0, n - 1) by { WholeFileBounds(n); }
    TallyCounts(s, r, shmem, env, NrCache);
    TallyCounts(s, r, shmem, env, NrDirty);
    TallyCounts(s, r, shmem, env, NrWriteback);
    TallyCounts(s, r, shmem, env, NrEvicted);
    assert Positions(NrDirty, s, r, shmem, env) == Positions(NrCache, s, r, shmem, env);
    assert Positions(NrWriteback, s, r, shmem, env) == {};
    assert Positions(NrEvicted, s, r, shmem, env) == {};
  }

  // ---------------------------------------------------------------------
  // What the counters depend on.

  /** All counters are zero exactly when no present entry lies in range. */
  lemma {:induction false} TallyZero(s: seq<Slot>, r: PageRange, shmem: bool, env: Oracles)
    ensures Tally(s, r, shmem, env) == Zero
        <==> forall j :: 0 <= j < |s| && r.Contains(s[j].index) ==> !s[j].entry.Present()
  {
    if s != [] {
      var n := |s| - 1;
      var p := s[..n];
      TallyZero(p, r, shmem, env);
      assert forall j :: 0 <= j < n ==> s[j] == p[j];
    }
  }

  /** Only present entries inside the range are counted: retry markers,
      empty slots and everything outside `r` may be dropped without changing
      any counter. */
  lemma {:induction false} TallyObserved(s: seq<Slot>, r: PageRange, shmem: bool, env: Oracles)
    ensures Tally(s, r, shmem, env) == Tally(Observed(s, r), r, shmem, env)
  {
    if s != [] {
      var n := |s| - 1;
      var x := s[n];
      var o := Observed(s[..n], r);
      TallyObserved(s[..n], r, shmem, env);
      if r.Contains(x.index) && x.entry.Present() {
        assert Observed(s, r) == o + [x];
        assert (o + [x])[..|o|] == o;
        assert Tally(o + [x], r, shmem, env) == Account(Tally(o, r, shmem, env), x.entry, shmem, env);
      } else {
        assert Observed(s, r) == o + [];
        assert o + [] == o;
      }
    }
  }

  /** Two indexes that agree on their present entries in range give the
      same counters. */
  lemma TallyFrame(s: seq<Slot>, t: seq<Slot>, r: PageRange, shmem: bool, env: Oracles)
    requires Observed(s, r) == Observed(t, r)
    ensures Tally(s, r, shmem, env) == Tally(t, r, shmem, env)
  {
    TallyObserved(s, r, shmem, env);
    TallyObserved(t, r, shmem, env);
  }

  /** Entries outside the range at the end of `s` do not count. */
  lemma {:induction false} TallyTrailingOutside(s: seq<Slot>, i: nat, r: PageRange, shmem: bool, env: Oracles)
    requires i <= |s|
    requires forall j :: i <= j < |s| ==> !r.Contains(s[j].index)
    ensures Tally(s, r, shmem, env) == Tally(s[..i], r, shmem, env)
    decreases |s|
  {
    if |s| > i {
      var n := |s| - 1;
      assert s[..n][..i] == s[..i];
      TallyTrailingOutside(s[..n], i, r, shmem, env);
    } else {
      assert s[..i] == s;
    }
  }

  /** For an ordinary (non-shmem) mapping the swap-cache lookups are never
      consulted: only the recency test decides. */
  lemma {:induction false} TallyIgnoresSwapCache(s: seq<Slot>, r: PageRange, e1: Oracles, e2: Oracles)
    requires forall sh :: e1.isRecent(sh) == e2.isRecent(sh)
    ensures Tally(s, r, false, e1) == Tally(s, r, false, e2)
  {
    if s != [] {
      TallyIgnoresSwapCache(s[..|s| - 1], r, e1, e2);
    }
  }

  /** For a shmem mapping the entry itself is never handed to the recency
      test: only the verdict on the swap-cache shadow of its decoded swap
      entry matters, however the decoding and the lookup reach it. */
  lemma {:induction false} TallyShmemUsesSwapShadow(s: seq<Slot>, r: PageRange, e1: Oracles, e2: Oracles)
    requires forall m :: e1.isRecent(e1.swapCacheShadow(e1.radixToSwp(m)))
                      == e2.isRecent(e2.swapCacheShadow(e2.radixToSwp(m)))
    ensures Tally(s, r, true, e1) == Tally(s, r, true, e2)
  {
    if s != [] {
      TallyShmemUsesSwapShadow(s[..|s| - 1], r, e1, e2);
    }
  }

  /** The folio's state after its dirty data has been written back and
      the writeback has finished. */
  function Flushed(e: Entry): Entry
  {
    if e.Folio? then Folio(false, false) else e
  }

  function FlushAll(s: seq<Slot>): (t: seq<Slot>)
    ensures |t| == |s|
  {
    seq(|s|, j requires 0 <= j < |s| => Slot(s[j].index, Flushed(s[j].entry)))
  }

  /** After the whole file has been flushed, the same query reports no
      dirty page and no page under writeback, and the same numbers of
      cached, evicted and recently evicted pages (flushing evicts nothing). */
  lemma {:induction false} TallyFlushed(s: seq<Slot>, r: PageRange, shmem: bool, env: Oracles)
    ensures Tally(FlushAll(s), r, shmem, env) == Tally(s, r, shmem, env).(nrDirty := 0, nrWriteback := 0)
  {
    if s != [] {
      var n := |s| - 1;
      assert FlushAll(s)[..n] == FlushAll(s[..n]);
      TallyFlushed(s[..n], r, shmem, env);
    }
  }

  // ---------------------------------------------------------------------
  // The walk itself.

  /** Visiting one more slot inside the range accounts for its entry. */
  lemma TallyStep(s: seq<Slot>, i: nat, r: PageRange, shmem: bool, env: Oracles)
    requires i < |s| && r.Contains(s[i].index)
    ensures Tally(s[..i + 1], r, shmem, env) == Account(Tally(s[..i], r, shmem, env), s[i].entry, shmem, env)
  {
    assert s[..i + 1][..i] == s[..i];
  }

  /** Where `XA_STATE(xas, &mapping->i_pages, first_index)` starts the
      walk: the first slot at or after page `first`. */
  function Seek(s: seq<Slot>, first: int): (k: nat)
    ensures k <= |s|
    ensures forall j :: 0 <= j < k ==> s[j].index < first
    ensures k < |s| ==> s[k].index >= first
  {
    if s == [] || s[0].index >= first then 0 else 1 + Seek(s[1..], first)
  }

  /** No slot before the walk's start is counted. */
  lemma TallyBeforeStart(s: seq<Slot>, r: PageRange, shmem: bool, env: Oracles)
    ensures Tally(s[..Seek(s, r.first)], r, shmem, env) == Zero
  {
    var k := Seek(s, r.first);
    TallyTrailingOutside(s[..k], 0, r, shmem, env);
    assert s[..k][..0] == [];
  }

  /** A slot the walk visits lies in the range, and is accounted for. */
  lemma WalkStep(s: PageIndex, i: nat, r: PageRange, shmem: bool, env: Oracles)
    requires Seek(s, r.first) <= i < |s| && s[i].index <= r.last
    ensures Tally(s[..i + 1], r, shmem, env) == Account(Tally(s[..i], r, shmem, env), s[i].entry, shmem, env)
  {
    var k := Seek(s, r.first);
    assert s[k].index <= s[i].index;
    TallyStep(s, i, r, shmem, env);
  }

  /** Once the walk passes `r.last`, no later slot is counted. */
  lemma WalkEnd(s: PageIndex, i: nat, r: PageRange, shmem: bool, env: Oracles)
    requires i <= |s| && (i < |s| ==> s[i].index > r.last)
    ensures Tally(s, r, shmem, env) == Tally(s[..i], r, shmem, env)
  {
    TallyTrailingOutside(s, i, r, shmem, env);
  }

  /** The body of the loop for one entry at a page inside the range
      (lines 64-97): a retry marker or an empty slot is skipped; a value
      entry bumps `nrEvicted`, and `nrRecentlyEvicted` when the recency test
      accepts its shadow; a folio bumps `nrCache`, then `nrDirty` and
      `nrWriteback` by its own two flags. */
  method CountEntry(cs0: CacheStat, e: Entry, shmem: bool, env: Oracles) returns (cs: CacheStat)
    ensures cs == Account(cs0, e, shmem, env)
  {
    cs := cs0;
    match e {
      case Retry =>
      case Null =>
      case Value(m) =>
        cs := cs.(nrEvicted := cs.nrEvicted + 1);
        var shadow: Shadow;
        if shmem {
          var swp := env.radixToSwp(m);
          shadow := env.swapCacheShadow(swp);
        } else {
          shadow := Shadow(m);
        }
        if env.isRecent(shadow) {
          cs := cs.(nrRecentlyEvicted := cs.nrRecentlyEvicted + 1);
        }
      case Folio(dirty, writeback) =>
        cs := cs.(nrCache := cs.nrCache + 1);
        if dirty {
          cs := cs.(nrDirty := cs.nrDirty + 1);
        }
        if writeback {
          cs := cs.(nrWriteback := cs.nrWriteback + 1);
        }
    }
  }

  /** The `xas_for_each` loop of lines 63-98: starting from zeroed counters,
      visit every slot from `range.first` up to `range.last` in ascending
      order, skip retry markers and empty slots, and count value entries
      and folios. The index is only read. */
  method ScanRange(index: PageIndex, range: PageRange, shmem: bool, env: Oracles) returns (cs: CacheStat)
    ensures cs == Tally(index, range, shmem, env)
  {
    cs := Zero;
    var start := Seek(index, range.first);
    TallyBeforeStart(index, range, shmem, env);
    var i := start;
    while i < |index| && index[i].index <= range.last
      invariant start <= i <= |index|
      invariant cs == Tally(index[..i], range, shmem, env)
    {
      var slot := index[i];
      WalkStep(index, i, range, shmem, env);
      i := i + 1;
      cs := CountEntry(cs, slot.entry, shmem, env);
    }
    WalkEnd(index, i, range, shmem, env);
  }
}
