/** Copy-on-write mappings as a flat state: which page table entries are present, which
    handles on frames are live, and how often each frame is counted. */
module Cow {
  import opened Wrappers
  import opened Frames

  const PDES_PER_PROCESS := 16
  const SLOT_PAGES := 16384
  const TASK0_PAGE_COUNT := 160
  const LINEAR_PAGES := 1048576

  /** Pages of the slots that own their memory; slot 0 maps the kernel. */
  predicate IsUser(lp: nat) { SLOT_PAGES <= lp < LINEAR_PAGES }

  /** Pages whose content the theorems speak about: all user pages, and the kernel
      pages that a fork of task 0 copies. */
  predicate Visible(lp: nat) { lp < TASK0_PAGE_COUNT || IsUser(lp) }

  type Ptes = map<nat, Pte>
  type Handles = map<nat, nat>

  /** `ptes` holds the present entries by linear page; `pageTables` and `dataFrames` the
      handles of all address spaces side by side, by directory index and linear page;
      `loose` the handles that are in no address space. */
  datatype Flat = Flat(counts: seq<U8>, ptes: Ptes, pageTables: Handles, dataFrames: Handles,
                       loose: set<nat>, reserved: set<nat>)

  // ----- the invariant -----

  ghost predicate Shaped(m: Flat)
  {
    && |m.counts| == PAGING_PAGES
    && (forall i | i in m.pageTables :: PDES_PER_PROCESS <= i < ENTRIES_PER_TABLE && Tracked(m.pageTables[i]))
    && (forall lp | lp in m.dataFrames :: IsUser(lp) && Tracked(m.dataFrames[lp]))
    && (forall f | f in m.loose :: Tracked(f))
  }

  /** A frame that is a table, loose or reserved is that alone, and a table once. */
  ghost predicate Roles(pt: Handles, df: Handles, loose: set<nat>, reserved: set<nat>)
  {
    && (forall i, j | i in pt && j in pt && pt[i] == pt[j] :: i == j)
    && (forall i | i in pt :: pt[i] !in loose && pt[i] !in reserved)
    && (forall lp | lp in df :: df[lp] !in loose && df[lp] !in reserved)
    && (forall i, lp | i in pt && lp in df :: pt[i] != df[lp])
    && loose !! reserved
  }

  /** A shared frame sits at the same offset in every space that holds it. */
  ghost predicate Offsets(df: Handles)
  {
    forall a, b | a in df && b in df && df[a] == df[b] :: a % SLOT_PAGES == b % SLOT_PAGES
  }

  ghost function Holders(df: Handles, f: nat): set<nat>
  {
    set lp | lp in df && df[lp] == f
  }

  /** The live handles on a frame, and the mark of a reserved one. */
  ghost function Stakes(pt: Handles, df: Handles, loose: set<nat>, reserved: set<nat>, f: nat): nat
  {
    |Holders(df, f)| + |Holders(pt, f)| + (if f in loose then 1 else 0) + if f in reserved then USED else 0
  }

  ghost predicate Counted(m: Flat)
    requires |m.counts| == PAGING_PAGES
  {
    forall f: nat | Tracked(f) ::
      m.counts[Index(f)] == Stakes(m.pageTables, m.dataFrames, m.loose, m.reserved, f)
  }

  /** A present user entry maps a tracked frame exactly when the space holds a handle for
      that page, and then it maps that frame. */
  ghost predicate Mapped(ptes: Ptes, df: Handles)
  {
    forall lp | lp in ptes ::
      && lp < LINEAR_PAGES && ptes[lp].present && ptes[lp].ppn < END_PPN
      && (IsUser(lp) ==> (Tracked(ptes[lp].ppn) <==> lp in df))
      && (IsUser(lp) && lp in df ==> ptes[lp].ppn == df[lp])
      && (lp < TASK0_PAGE_COUNT ==> !Tracked(ptes[lp].ppn))
  }

  /** A writable user page is the only holder of its frame. */
  ghost predicate Protected(ptes: Ptes, df: Handles)
  {
    forall lp | lp in ptes && IsUser(lp) && ptes[lp].writable ::
      lp in df && forall a | a in df && df[a] == df[lp] :: a == lp
  }

  ghost predicate Inv(m: Flat)
  {
    && Shaped(m)
    && Roles(m.pageTables, m.dataFrames, m.loose, m.reserved)
    && Offsets(m.dataFrames)
    && Counted(m)
    && Mapped(m.ptes, m.dataFrames)
    && Protected(m.ptes, m.dataFrames)
  }

  /** What each visible page reads. */
  ghost function View(ptes: Ptes, pages: map<nat, Page>): map<nat, Page>
  {
    map lp | lp in ptes && Visible(lp) && ptes[lp].ppn in pages :: pages[ptes[lp].ppn]
  }

  /** The indices of the free frames. */
  ghost function FreeFrames(counts: seq<U8>): set<nat>
  {
    set k: nat | k < |counts| && counts[k] == 0
  }

  lemma FrameTaken(counts: seq<U8>, k: nat)
    requires k < |counts| && counts[k] == 0
    ensures |FreeFrames(counts[k := 1])| == |FreeFrames(counts)| - 1
  {
    assert FreeFrames(counts) == FreeFrames(counts[k := 1]) + {k};
  }

  /** At most n frames fewer are free. */
  ghost predicate Spends(counts: seq<U8>, counts': seq<U8>, n: nat)
  {
    |FreeFrames(counts)| <= |FreeFrames(counts')| + n
  }

  lemma CountLowered(counts: seq<U8>, k: nat, c: U8)
    requires k < |counts| && c < counts[k]
    ensures Spends(counts, counts[k := c], 0)
  {
    assert FreeFrames(counts[k := c]) == FreeFrames(counts) + if c == 0 then {k} else {};
  }

  lemma FrameShared(counts: seq<U8>, k: nat)
    requires k < |counts| && 0 < counts[k] < 255
    ensures FreeFrames(counts[k := counts[k] + 1]) == FreeFrames(counts)
  {
  }

  // ----- counting -----

  lemma HoldersAdd(df: Handles, lp: nat, f: nat, g: nat)
    requires lp !in df
    ensures |Holders(df[lp := f], g)| == |Holders(df, g)| + if g == f then 1 else 0
  {
    if g == f {
      assert Holders(df[lp := f], g) == Holders(df, g) + {lp};
    } else {
      assert Holders(df[lp := f], g) == Holders(df, g);
    }
  }

  lemma HoldersDrop(df: Handles, lp: nat, g: nat)
    requires lp in df
    ensures |Holders(df - {lp}, g)| == |Holders(df, g)| - if g == df[lp] then 1 else 0
  {
    assert Holders(df - {lp}, g) == Holders(df, g) - {lp};
    assert lp in Holders(df, g) <==> g == df[lp];
  }

  lemma NoHolders(df: Handles, f: nat)
    requires |Holders(df, f)| == 0
    ensures forall lp | lp in df :: df[lp] != f
  {
    forall lp | lp in df ensures df[lp] != f {
      assert df[lp] == f ==> lp in Holders(df, f);
    }
  }

  lemma OneHolder(df: Handles, f: nat, lp: nat)
    requires |Holders(df, f)| <= 1 && lp in df && df[lp] == f
    ensures forall a | a in df && df[a] == f :: a == lp
  {
    assert lp in Holders(df, f);
    assert |Holders(df, f) - {lp}| == 0;
    forall a | a in df && df[a] == f ensures a == lp {
      assert a in Holders(df, f);
    }
  }

  function SlotOf(lp: nat): nat { lp / SLOT_PAGES }

  lemma {:induction false} ImageSize(s: set<nat>, t: set<nat>)
    requires forall lp | lp in s :: SlotOf(lp) in t
    requires forall a, b | a in s && b in s && SlotOf(a) == SlotOf(b) :: a == b
    ensures |s| <= |t|
    decreases |s|
  {
    if s != {} {
      var a :| a in s;
      ImageSize(s - {a}, t - {SlotOf(a)});
    }
  }

  function SlotsUpTo(n: nat): (r: set<nat>)
    ensures forall x :: x in r <==> 1 <= x < n
    ensures |r| == if n > 0 then n - 1 else 0
  {
    if n <= 1 then {} else SlotsUpTo(n - 1) + {n - 1}
  }

  /** At most one holder in each of the 63 user slots: an 8-bit count cannot overflow. */
  lemma FewHolders(df: Handles, f: nat)
    requires Offsets(df) && forall lp | lp in df :: IsUser(lp)
    ensures |Holders(df, f)| <= 63
  {
    var s := Holders(df, f);
    forall a, b | a in s && b in s && SlotOf(a) == SlotOf(b) ensures a == b {
      assert a % SLOT_PAGES == b % SLOT_PAGES;
    }
    ImageSize(s, SlotsUpTo(64));
  }

  /** ... and one fewer when a given slot holds none. */
  lemma FewerHolders(df: Handles, f: nat, dst: nat)
    requires Offsets(df) && forall lp | lp in df :: IsUser(lp)
    requires dst !in df && IsUser(dst)
    requires forall lp | lp in df && df[lp] == f :: lp % SLOT_PAGES == dst % SLOT_PAGES
    ensures |Holders(df, f)| <= 62
  {
    HoldersAdd(df, dst, f, f);
    FewHolders(df[dst := f], f);
  }

  /** Exactly when a frame's count is 1 has it one handle. */
  lemma CountOne(m: Flat, lp: nat)
    requires Inv(m) && lp in m.dataFrames
    ensures m.counts[Index(m.dataFrames[lp])] == |Holders(m.dataFrames, m.dataFrames[lp])| > 0
  {
    var f := m.dataFrames[lp];
    assert lp in Holders(m.dataFrames, f);
    assert Holders(m.pageTables, f) == {};
  }

  /** A frame with a count above 1 is writable through no user page. */
  lemma WritableAlone(m: Flat, lp: nat)
    requires Inv(m) && lp in m.ptes && IsUser(lp) && m.ptes[lp].writable
    ensures Tracked(m.ptes[lp].ppn) && m.counts[Index(m.ptes[lp].ppn)] == 1
  {
    CountOne(m, lp);
    assert Holders(m.dataFrames, m.dataFrames[lp]) == {lp};
  }

  /** No count of a frame in use passes 64. */
  lemma CountsBounded(m: Flat, f: nat)
    requires Inv(m) && Tracked(f) && f !in m.reserved
    ensures m.counts[Index(f)] <= 64
  {
    if lp :| lp in m.dataFrames && m.dataFrames[lp] == f {
      CountOne(m, lp);
      FewHolders(m.dataFrames, f);
    } else {
      assert Holders(m.dataFrames, f) == {};
      if i :| i in m.pageTables && m.pageTables[i] == f {
        assert Holders(m.pageTables, f) <= {i};
        SubsetCard(Holders(m.pageTables, f), {i});
      } else {
        assert Holders(m.pageTables, f) == {};
      }
    }
  }

  lemma SubsetCard(a: set<nat>, b: set<nat>)
    requires a <= b
    ensures |a| <= |b|
  {
    assert b == a + (b - a);
  }

  // ----- steps -----

  /** A free frame has no handle. */
  lemma FreeUnused(m: Flat, f: nat)
    requires Inv(m) && Tracked(f) && m.counts[Index(f)] == 0
    ensures f !in m.loose && f !in m.reserved
    ensures forall lp | lp in m.dataFrames :: m.dataFrames[lp] != f
    ensures forall i | i in m.pageTables :: m.pageTables[i] != f
    ensures forall lp | lp in m.ptes && Visible(lp) :: m.ptes[lp].ppn != f
  {
    NoHolders(m.dataFrames, f);
    NoHolders(m.pageTables, f);
  }

  /** A frame is allocated. */
  lemma Allocated(m: Flat, f: nat)
    requires Inv(m) && Tracked(f) && m.counts[Index(f)] == 0
    ensures Inv(m.(counts := m.counts[Index(f) := 1], loose := m.loose + {f}))
  {
    FreeUnused(m, f);
  }

  /** A loose handle is dropped. */
  lemma LooseDropped(m: Flat, f: nat)
    requires Inv(m) && f in m.loose
    ensures m.counts[Index(f)] == 1
    ensures Inv(m.(counts := m.counts[Index(f) := 0], loose := m.loose - {f}))
  {
    assert Holders(m.dataFrames, f) == {} && Holders(m.pageTables, f) == {};
  }

  /** A loose frame becomes a page table. */
  lemma TableInstalled(m: Flat, i: nat, t: nat)
    requires Inv(m) && t in m.loose && PDES_PER_PROCESS <= i < ENTRIES_PER_TABLE && i !in m.pageTables
    ensures Inv(m.(pageTables := m.pageTables[i := t], loose := m.loose - {t}))
  {
    var m' := m.(pageTables := m.pageTables[i := t], loose := m.loose - {t});
    forall f: nat | Tracked(f)
      ensures Stakes(m'.pageTables, m'.dataFrames, m'.loose, m'.reserved, f)
           == Stakes(m.pageTables, m.dataFrames, m.loose, m.reserved, f)
    {
      HoldersAdd(m.pageTables, i, t, f);
    }
  }

  /** The entry of a page that was just given a frame of its own. */
  function UserRw(f: nat): Pte { Pte(true, true, false, f) }

  lemma PageMappedCounts(m: Flat, lp: nat, f: nat)
    requires |m.counts| == PAGING_PAGES && Counted(m) && f in m.loose && lp !in m.dataFrames
    ensures Counted(m.(ptes := m.ptes[lp := UserRw(f)], dataFrames := m.dataFrames[lp := f], loose := m.loose - {f}))
  {
    hide Holders;
    forall g: nat | Tracked(g)
      ensures Stakes(m.pageTables, m.dataFrames[lp := f], m.loose - {f}, m.reserved, g)
           == Stakes(m.pageTables, m.dataFrames, m.loose, m.reserved, g)
    {
      HoldersAdd(m.dataFrames, lp, f, g);
    }
  }

  /** A loose frame is mapped at an empty page. */
  lemma PageMapped(m: Flat, lp: nat, f: nat)
    requires Inv(m) && f in m.loose && IsUser(lp) && lp !in m.dataFrames
    ensures Inv(m.(ptes := m.ptes[lp := UserRw(f)], dataFrames := m.dataFrames[lp := f], loose := m.loose - {f}))
  {
    hide Counted;
    PageMappedCounts(m, lp, f);
  }

  lemma SharedCounts(m: Flat, m': Flat, dst: nat, f: nat)
    requires |m.counts| == PAGING_PAGES && Counted(m) && Tracked(f) && dst !in m.dataFrames
    requires m.counts[Index(f)] < 255 && m'.counts == m.counts[Index(f) := m.counts[Index(f)] + 1]
    requires m'.dataFrames == m.dataFrames[dst := f]
    requires m'.pageTables == m.pageTables && m'.loose == m.loose && m'.reserved == m.reserved
    ensures Counted(m')
  {
    hide Holders;
    forall g: nat | Tracked(g)
      ensures Stakes(m'.pageTables, m'.dataFrames, m'.loose, m'.reserved, g)
           == Stakes(m.pageTables, m.dataFrames, m.loose, m.reserved, g) + if g == f then 1 else 0
    {
      HoldersAdd(m.dataFrames, dst, f, g);
    }
  }

  /** Two pages at the same offset can share a tracked frame: where its count may go. */
  lemma RoomToShare(m: Flat, src: nat, dst: nat)
    requires Inv(m) && src in m.dataFrames && IsUser(dst) && dst !in m.dataFrames
    requires src % SLOT_PAGES == dst % SLOT_PAGES
    ensures 0 < m.counts[Index(m.dataFrames[src])] <= 62
  {
    CountOne(m, src);
    FewerHolders(m.dataFrames, m.dataFrames[src], dst);
  }

  /** The state after page dst came to share the tracked frame behind page src. */
  function Shared(m: Flat, src: nat, dst: nat, cow: Pte): Flat
    requires Tracked(cow.ppn) && |m.counts| == PAGING_PAGES && m.counts[Index(cow.ppn)] < 255
  {
    m.(ptes := m.ptes[src := cow][dst := cow], dataFrames := m.dataFrames[dst := cow.ppn],
       counts := m.counts[Index(cow.ppn) := m.counts[Index(cow.ppn)] + 1])
  }

  lemma PageShared(m: Flat, src: nat, dst: nat, cow: Pte)
    requires Inv(m) && src in m.ptes && IsUser(src) && IsUser(dst) && dst !in m.dataFrames && src in m.dataFrames
    requires src % SLOT_PAGES == dst % SLOT_PAGES && cow == m.ptes[src].WithoutWritable()
    ensures Tracked(cow.ppn) && 0 < m.counts[Index(cow.ppn)] <= 62
    ensures Inv(Shared(m, src, dst, cow))
  {
    RoomToShare(m, src, dst);
    SharedCounts(m, Shared(m, src, dst, cow), dst, cow.ppn);
    hide Counted;
    SharedRest(m, src, dst, cow);
  }

  lemma SharedRest(m: Flat, src: nat, dst: nat, cow: Pte)
    requires Shaped(m) && Roles(m.pageTables, m.dataFrames, m.loose, m.reserved) && Offsets(m.dataFrames)
    requires Mapped(m.ptes, m.dataFrames) && Protected(m.ptes, m.dataFrames)
    requires src in m.ptes && IsUser(src) && IsUser(dst) && dst !in m.dataFrames && src in m.dataFrames
    requires src % SLOT_PAGES == dst % SLOT_PAGES && cow == m.ptes[src].WithoutWritable()
    ensures var df := m.dataFrames[dst := cow.ppn];
      && Roles(m.pageTables, df, m.loose, m.reserved) && Offsets(df)
      && Mapped(m.ptes[src := cow][dst := cow], df) && Protected(m.ptes[src := cow][dst := cow], df)
  {
  }

  /** Page dst comes to show an untracked frame of the kernel, read-only. */
  lemma KernelPageShared(m: Flat, dst: nat, cow: Pte)
    requires Inv(m) && IsUser(dst) && dst !in m.dataFrames
    requires cow.present && !cow.writable && cow.ppn < UNPAGED_PAGES
    ensures Inv(m.(ptes := m.ptes[dst := cow]))
  {
    hide Counted;
    SameCounts(m, m.(ptes := m.ptes[dst := cow]));
  }

  lemma SameCounts(m: Flat, m': Flat)
    requires |m.counts| == PAGING_PAGES && Counted(m)
    requires m' == m.(ptes := m'.ptes)
    ensures Counted(m')
  {
  }

  /** The only holder of a frame may write it. */
  lemma MadeWritable(m: Flat, lp: nat, pte: Pte)
    requires Inv(m) && lp in m.ptes && IsUser(lp) && Tracked(m.ptes[lp].ppn)
    requires m.counts[Index(m.ptes[lp].ppn)] == 1
    requires pte == m.ptes[lp].(writable := true)
    ensures Inv(m.(ptes := m.ptes[lp := pte]))
  {
    CountOne(m, lp);
    OneHolder(m.dataFrames, m.dataFrames[lp], lp);
    hide Counted;
    SameCounts(m, m.(ptes := m.ptes[lp := pte]));
  }

  /** The processor marks a written page. */
  lemma Dirtied(m: Flat, lp: nat, pte: Pte)
    requires Inv(m) && lp in m.ptes && pte == m.ptes[lp].(dirty := true)
    ensures Inv(m.(ptes := m.ptes[lp := pte]))
  {
    hide Counted;
    SameCounts(m, m.(ptes := m.ptes[lp := pte]));
  }

  // A write fault on a shared page: the page gets a loose frame and its old handle goes.

  /** The state after page lp moved to the loose frame f. */
  function Replaced(m: Flat, lp: nat, f: nat): Flat
    requires |m.counts| == PAGING_PAGES
    requires lp in m.dataFrames ==> Tracked(m.dataFrames[lp]) && m.counts[Index(m.dataFrames[lp])] > 0
  {
    m.(ptes := m.ptes[lp := UserRw(f)], dataFrames := m.dataFrames[lp := f], loose := m.loose - {f},
       counts := if lp in m.dataFrames then DroppedCount(m.counts, m.dataFrames[lp]) else m.counts)
  }

  function DroppedCount(counts: seq<U8>, f: nat): seq<U8>
    requires |counts| == PAGING_PAGES && Tracked(f) && counts[Index(f)] > 0
  {
    counts[Index(f) := counts[Index(f)] - 1]
  }

  lemma ReplacedCounts(m: Flat, lp: nat, f: nat)
    requires |m.counts| == PAGING_PAGES && Counted(m) && f in m.loose && Tracked(f)
    requires lp in m.dataFrames ==> Tracked(m.dataFrames[lp]) && m.counts[Index(m.dataFrames[lp])] > 0
    ensures Counted(Replaced(m, lp, f))
  {
    hide Holders;
    forall g: nat | Tracked(g)
      ensures Stakes(m.pageTables, m.dataFrames[lp := f], m.loose - {f}, m.reserved, g)
           == Stakes(m.pageTables, m.dataFrames, m.loose, m.reserved, g)
              - if lp in m.dataFrames && g == m.dataFrames[lp] then 1 else 0
    {
      HoldersPut(m.dataFrames, lp, f, g);
    }
  }

  lemma HoldersPut(df: Handles, lp: nat, f: nat, g: nat)
    ensures |Holders(df[lp := f], g)|
         == |Holders(df, g)| + (if g == f then 1 else 0) - if lp in df && df[lp] == g then 1 else 0
  {
    if lp in df {
      HoldersDrop(df, lp, g);
      HoldersAdd(df - {lp}, lp, f, g);
      assert (df - {lp})[lp := f] == df[lp := f];
    } else {
      HoldersAdd(df, lp, f, g);
    }
  }

  lemma PageReplaced(m: Flat, lp: nat, f: nat)
    requires Inv(m) && f in m.loose && lp in m.ptes && IsUser(lp)
    ensures lp in m.dataFrames ==> Tracked(m.dataFrames[lp]) && m.counts[Index(m.dataFrames[lp])] > 0
    ensures Inv(Replaced(m, lp, f))
  {
    if lp in m.dataFrames { CountOne(m, lp); }
    ReplacedCounts(m, lp, f);
    hide Counted;
    ReplacedRest(m, lp, f);
  }

  lemma ReplacedRest(m: Flat, lp: nat, f: nat)
    requires Shaped(m) && Roles(m.pageTables, m.dataFrames, m.loose, m.reserved) && Offsets(m.dataFrames)
    requires Mapped(m.ptes, m.dataFrames) && Protected(m.ptes, m.dataFrames)
    requires f in m.loose && lp in m.ptes && IsUser(lp)
    ensures var df := m.dataFrames[lp := f];
      && Roles(m.pageTables, df, m.loose - {f}, m.reserved) && Offsets(df)
      && Mapped(m.ptes[lp := UserRw(f)], df) && Protected(m.ptes[lp := UserRw(f)], df)
  {
  }

  // Releasing an address space: its directory entries, then its tables, then its frames.

  /** The entries of the table behind directory index i. */
  ghost function Under(ptes: Ptes, i: nat): set<nat>
  {
    set lp | lp in ptes && lp / ENTRIES_PER_TABLE == i
  }

  lemma Unmapped(m: Flat, i: nat)
    requires Inv(m)
    ensures Inv(m.(ptes := m.ptes - Under(m.ptes, i)))
  {
    hide Counted;
    SameCounts(m, m.(ptes := m.ptes - Under(m.ptes, i)));
  }

  lemma TableReleased(m: Flat, i: nat)
    requires Inv(m) && i in m.pageTables
    ensures m.counts[Index(m.pageTables[i])] == 1
    ensures Inv(m.(pageTables := m.pageTables - {i}, counts := DroppedCount(m.counts, m.pageTables[i])))
  {
    var t := m.pageTables[i];
    assert Holders(m.pageTables, t) == {i} && Holders(m.dataFrames, t) == {};
    forall g: nat | Tracked(g)
      ensures Stakes(m.pageTables - {i}, m.dataFrames, m.loose, m.reserved, g)
           == Stakes(m.pageTables, m.dataFrames, m.loose, m.reserved, g) - if g == t then 1 else 0
    {
      HoldersDrop(m.pageTables, i, g);
    }
  }

  lemma FrameReleasedCounts(m: Flat, lp: nat)
    requires |m.counts| == PAGING_PAGES && Counted(m) && lp in m.dataFrames
    requires Tracked(m.dataFrames[lp]) && m.counts[Index(m.dataFrames[lp])] > 0
    ensures Counted(m.(dataFrames := m.dataFrames - {lp}, counts := DroppedCount(m.counts, m.dataFrames[lp])))
  {
    hide Holders;
    forall g: nat | Tracked(g)
      ensures Stakes(m.pageTables, m.dataFrames - {lp}, m.loose, m.reserved, g)
           == Stakes(m.pageTables, m.dataFrames, m.loose, m.reserved, g) - if g == m.dataFrames[lp] then 1 else 0
    {
      HoldersDrop(m.dataFrames, lp, g);
    }
  }

  lemma FrameReleased(m: Flat, lp: nat)
    requires Inv(m) && lp in m.dataFrames && lp !in m.ptes
    ensures Tracked(m.dataFrames[lp]) && m.counts[Index(m.dataFrames[lp])] > 0
    ensures Inv(m.(dataFrames := m.dataFrames - {lp}, counts := DroppedCount(m.counts, m.dataFrames[lp])))
  {
    CountOne(m, lp);
    FrameReleasedCounts(m, lp);
    hide Counted;
  }

  // ----- what pages read -----

  /** Sharing, or splitting with the content copied, leaves every page's reading alone but
      for the page that is new. */
  lemma ViewPut(ptes: Ptes, pages: map<nat, Page>, lp: nat, pte: Pte)
    requires Visible(lp) && pte.ppn in pages
    ensures View(ptes[lp := pte], pages) == View(ptes, pages)[lp := pages[pte.ppn]]
  {
  }

  lemma ViewSame(ptes: Ptes, pages: map<nat, Page>, lp: nat, pte: Pte)
    requires lp in ptes && pte.ppn == ptes[lp].ppn
    ensures View(ptes[lp := pte], pages) == View(ptes, pages)
  {
  }

  /** Writing a frame that no page shows. */
  lemma ViewUnshown(ptes: Ptes, pages: map<nat, Page>, f: nat, page: Page)
    requires f in pages && forall lp | lp in ptes && Visible(lp) :: ptes[lp].ppn != f
    ensures View(ptes, pages[f := page]) == View(ptes, pages)
  {
  }

  /** Writing the frame of a writable page changes that page only. */
  lemma ViewStore(ptes: Ptes, df: Handles, pages: map<nat, Page>, lp: nat, page: Page)
    requires Mapped(ptes, df) && Protected(ptes, df) && lp in ptes && IsUser(lp) && ptes[lp].writable
    requires ptes[lp].ppn in pages
    ensures View(ptes, pages[ptes[lp].ppn := page]) == View(ptes, pages)[lp := page]
  {
  }

  lemma ViewUnmapped(ptes: Ptes, pages: map<nat, Page>, i: nat)
    ensures View(ptes - Under(ptes, i), pages) == View(ptes, pages) - Under(ptes, i)
  {
  }
}
