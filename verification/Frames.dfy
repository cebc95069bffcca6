/** The reference-counted frame allocator over the tracked physical memory. */
module Frames {
  import opened Wrappers

  type U8 = x: int | 0 <= x < 0x100

  const PAGE_SIZE := 4096
  const ENTRIES_PER_TABLE := 1024
  /** Frames below this number hold the kernel; they are not tracked. */
  const UNPAGED_PAGES := 512
  const PAGING_PAGES := 3584
  /** One past the last frame. */
  const END_PPN := UNPAGED_PAGES + PAGING_PAGES
  const USED := 100

  type Page = p: seq<U8> | |p| == PAGE_SIZE witness seq(PAGE_SIZE, _ => 0)

  function ZeroPage(): (p: Page)
    ensures forall i | 0 <= i < PAGE_SIZE :: p[i] == 0
  {
    seq(PAGE_SIZE, _ => 0)
  }

  /** A page-table entry; of its flags only those the code tests or sets. */
  datatype Pte = Pte(present: bool, writable: bool, dirty: bool, ppn: nat)
  {
    function WithoutWritable(): Pte { this.(writable := false) }
  }

  const NO_PTE := Pte(false, false, false, 0)

  type Table = t: seq<Pte> | |t| == ENTRIES_PER_TABLE witness seq(ENTRIES_PER_TABLE, _ => NO_PTE)

  function ZeroTable(): (t: Table)
    ensures forall k | 0 <= k < ENTRIES_PER_TABLE :: t[k] == NO_PTE
  {
    seq(ENTRIES_PER_TABLE, _ => NO_PTE)
  }

  predicate Tracked(f: nat) { UNPAGED_PAGES <= f < END_PPN }

  function Index(f: nat): nat
    requires Tracked(f)
  {
    f - UNPAGED_PAGES
  }

  /** The run of n free frames that starts at index i. */
  predicate FreeRun(counts: seq<U8>, i: nat, n: nat)
  {
    i + n <= |counts| && forall k | i <= k < i + n :: counts[k] == 0
  }

  /** Counts with n entries from i on set to v. */
  function FilledCounts(counts: seq<U8>, i: nat, n: nat, v: U8): (r: seq<U8>)
    requires i + n <= |counts|
    ensures |r| == |counts|
    ensures forall k | 0 <= k < |r| :: r[k] == if i <= k < i + n then v else counts[k]
  {
    counts[..i] + seq(n, _ => v) + counts[i + n..]
  }

  class FrameAllocator {
    const memMap: array<U8>
    /** The bytes of every frame, and the same frames read as page tables. */
    var pages: map<nat, Page>
    var tables: map<nat, Table>

    ghost predicate Valid()
      reads this
    {
      memMap.Length == PAGING_PAGES
      && (forall f: nat :: f in pages <==> f < END_PPN)
      && (forall f: nat :: f in tables <==> f < END_PPN)
    }

    ghost function Counts(): seq<U8>
      reads this, memMap
    {
      memMap[..]
    }

    /** Frames in [startMem, endMem) become free, all others reserved. */
    constructor Init(startMem: nat, endMem: nat, pages: map<nat, Page>, tables: map<nat, Table>)
      requires 0x20_0000 <= startMem <= endMem <= END_PPN * PAGE_SIZE
      requires forall f: nat :: f in pages <==> f < END_PPN
      requires forall f: nat :: f in tables <==> f < END_PPN
      ensures Valid() && fresh(memMap) && this.pages == pages && this.tables == tables
      ensures forall f: nat | Tracked(f) ::
                Counts()[Index(f)] == if startMem / PAGE_SIZE <= f < endMem / PAGE_SIZE then 0 else USED
    {
      memMap := new U8[PAGING_PAGES](_ => USED);
      this.pages, this.tables := pages, tables;
      new;
      var startNo := startMem / PAGE_SIZE - UNPAGED_PAGES;
      var endNo := endMem / PAGE_SIZE - UNPAGED_PAGES;
      for i := startNo to endNo
        invariant Valid() && this.pages == pages && this.tables == tables
        invariant forall k | 0 <= k < PAGING_PAGES :: memMap[k] == if startNo <= k < i then 0 else USED
      {
        memMap[i] := 0;
      }
    }

    /** Zeroes frame f and counts one handle. */
    method Claim(f: nat)
      requires Valid() && Tracked(f)
      modifies this, memMap
      ensures Valid() && Counts() == old(Counts())[Index(f) := 1]
      ensures pages == old(pages)[f := ZeroPage()] && tables == old(tables)[f := ZeroTable()]
    {
      pages := pages[f := ZeroPage()];
      tables := tables[f := ZeroTable()];
      memMap[Index(f)] := 1;
    }

    /** Allocates the highest free frame, zeroed. */
    method Alloc() returns (r: Option<nat>)
      requires Valid()
      modifies this, memMap
      ensures Valid()
      ensures match r
        case None =>
          && (forall k | 0 <= k < PAGING_PAGES :: old(Counts())[k] != 0)
          && Counts() == old(Counts()) && pages == old(pages) && tables == old(tables)
        case Some(f) =>
          && Tracked(f) && old(Counts())[Index(f)] == 0
          && (forall k | Index(f) < k < PAGING_PAGES :: old(Counts())[k] != 0)
          && Counts() == old(Counts())[Index(f) := 1]
          && pages == old(pages)[f := ZeroPage()] && tables == old(tables)[f := ZeroTable()]
    {
      var i := PAGING_PAGES;
      while i > 0
        invariant 0 <= i <= PAGING_PAGES
        invariant forall k | i <= k < PAGING_PAGES :: memMap[k] != 0
      {
        i := i - 1;
        if memMap[i] == 0 {
          Claim(UNPAGED_PAGES + i);
          return Some(UNPAGED_PAGES + i);
        }
      }
      return None;
    }

    /** Whether n frames from index i on are all free. */
    method AllFree(i: nat, n: nat) returns (r: bool)
      requires Valid() && i + n <= PAGING_PAGES
      ensures r <==> FreeRun(Counts(), i, n)
    {
      for k := i to i + n
        invariant forall j | i <= j < k :: memMap[j] == 0
      {
        if memMap[k] != 0 {
          assert Counts()[k] != 0;
          return false;
        }
      }
      return true;
    }

    /** Allocates the highest run of n free frames, zeroed. */
    method AllocContiguous(n: nat) returns (r: Option<nat>)
      requires Valid()
      modifies this, memMap
      ensures Valid()
      ensures match r
        case None =>
          && (n == 0 || forall i: nat :: !FreeRun(old(Counts()), i, n))
          && Counts() == old(Counts()) && pages == old(pages) && tables == old(tables)
        case Some(f) =>
          && n > 0 && f >= UNPAGED_PAGES && FreeRun(old(Counts()), f - UNPAGED_PAGES, n)
          && (forall i: nat | i > f - UNPAGED_PAGES :: !FreeRun(old(Counts()), i, n))
          && Counts() == FilledCounts(old(Counts()), f - UNPAGED_PAGES, n, 1)
          && (forall g | g in pages :: pages[g] == if f <= g < f + n then ZeroPage() else old(pages)[g])
    {
      if n == 0 || n > PAGING_PAGES {
        return None;
      }
      var start := PAGING_PAGES - n + 1;
      while start > 0
        invariant 0 <= start <= PAGING_PAGES - n + 1
        invariant Valid() && Counts() == old(Counts()) && pages == old(pages) && tables == old(tables)
        invariant forall i: nat | i >= start :: !FreeRun(old(Counts()), i, n)
      {
        start := start - 1;
        var free := AllFree(start, n);
        if free {
          ClaimRun(start, n);
          return Some(UNPAGED_PAGES + start);
        }
      }
      return None;
    }

    method ClaimRun(start: nat, n: nat)
      requires Valid() && start + n <= PAGING_PAGES
      modifies this, memMap
      ensures Valid() && Counts() == FilledCounts(old(Counts()), start, n, 1)
      ensures forall g | g in pages ::
                pages[g] == if UNPAGED_PAGES + start <= g < UNPAGED_PAGES + start + n then ZeroPage() else old(pages)[g]
    {
      for k := 0 to n
        invariant Valid()
        invariant forall j | 0 <= j < PAGING_PAGES :: memMap[j] == if start <= j < start + k then 1 else old(memMap[j])
        invariant forall g | g in pages ::
          pages[g] == if UNPAGED_PAGES + start <= g < UNPAGED_PAGES + start + k then ZeroPage() else old(pages)[g]
      {
        ghost var before := memMap[..];
        Claim(UNPAGED_PAGES + start + k);
        forall j | 0 <= j < PAGING_PAGES
          ensures memMap[j] == if start <= j < start + k + 1 then 1 else old(memMap[j])
        {
          assert memMap[j] == memMap[..][j];
        }
      }
    }

    /** Takes one handle off a frame; frames of the kernel are never freed. */
    method Dealloc(f: nat)
      requires Valid() && f < END_PPN
      requires Tracked(f) ==> Counts()[Index(f)] > 0
      modifies memMap
      ensures Valid()
      ensures Counts() == if Tracked(f) then old(Counts())[Index(f) := old(Counts())[Index(f)] - 1] else old(Counts())
    {
      if f < UNPAGED_PAGES {
        return;
      }
      memMap[Index(f)] := memMap[Index(f)] - 1;
    }

    /** Takes one handle off each frame of a run. */
    method DeallocRange(start: nat, n: nat)
      requires Valid() && UNPAGED_PAGES <= start && start + n <= END_PPN
      requires forall f: nat | start <= f < start + n && Tracked(f) :: Counts()[Index(f)] > 0
      modifies memMap
      ensures Valid()
      ensures forall k | 0 <= k < PAGING_PAGES ::
                (Counts()[k] as int) == (old(Counts())[k] as int) - if start <= UNPAGED_PAGES + k < start + n then 1 else 0
    {
      for i := 0 to n
        invariant forall k | 0 <= k < PAGING_PAGES ::
          (memMap[k] as int) == (old(memMap[k]) as int) - if start <= UNPAGED_PAGES + k < start + i then 1 else 0
      {
        assert old(Counts())[Index(start + i)] == old(memMap[Index(start + i)]);
        assert Counts()[Index(start + i)] == memMap[Index(start + i)];
        ghost var before := memMap[..];
        Dealloc(start + i);
        assert memMap[..] == before[Index(start + i) := before[Index(start + i)] - 1];
        forall k | 0 <= k < PAGING_PAGES
          ensures (memMap[k] as int) == (old(memMap[k]) as int) - if start <= UNPAGED_PAGES + k < start + i + 1 then 1 else 0
        {
          assert memMap[k] == memMap[..][k];
        }
      }
    }

    /** One more handle on a frame in use. */
    method Share(f: nat) returns (g: nat)
      requires Valid() && Tracked(f) && 0 < Counts()[Index(f)] < 255
      modifies memMap
      ensures Valid() && g == f && Counts() == old(Counts())[Index(f) := old(Counts())[Index(f)] + 1]
    {
      memMap[Index(f)] := memMap[Index(f)] + 1;
      return f;
    }

    method RefCount(f: nat) returns (n: U8)
      requires Valid() && f < END_PPN
      ensures n == if Tracked(f) then Counts()[Index(f)] else 255
    {
      if f < UNPAGED_PAGES {
        return 255;
      }
      return memMap[Index(f)];
    }
  }
}
