/** The address spaces of all tasks over one page directory: mapping, sharing, forking
    copy-on-write, splitting on a write fault, and releasing. */
module AddressSpaces {
  import opened Wrappers
  import opened Frames
  import opened Cow

  datatype Errno = NOMEM | EXIST

  const PDES := 1024

  type Tables = map<nat, Table>

  /** The entry for a linear page, through the directory. */
  ghost function PteAt(tables: Tables, pd: Handles, lp: nat): Pte
  {
    if lp / ENTRIES_PER_TABLE in pd && pd[lp / ENTRIES_PER_TABLE] in tables
    then tables[pd[lp / ENTRIES_PER_TABLE]][lp % ENTRIES_PER_TABLE] else NO_PTE
  }

  ghost function PtesOf(tables: Tables, pd: Handles): Ptes
  {
    map lp: nat | lp < LINEAR_PAGES && PteAt(tables, pd, lp).present :: PteAt(tables, pd, lp)
  }

  /** Directory entries of the user slots are the tables those spaces own; those of slot 0
      were set up at boot, in untracked memory. */
  ghost predicate Directory(pd: Handles, pt: Handles)
  {
    forall i | i in pd :: i < PDES && if i < PDES_PER_PROCESS then pd[i] < UNPAGED_PAGES else i in pt && pt[i] == pd[i]
  }

  function WithEntry(tables: Tables, t: nat, k: nat, pte: Pte): Tables
    requires t in tables && k < ENTRIES_PER_TABLE
  {
    tables[t := tables[t][k := pte]]
  }

  /** Only one directory entry leads to a user table. */
  lemma OneDirectoryEntry(m: Flat, pd: Handles, i: nat, j: nat)
    requires Inv(m) && Directory(pd, m.pageTables) && i in pd && j in pd && j >= PDES_PER_PROCESS
    ensures pd[i] == pd[j] <==> i == j
  {
  }

  /** Writing one entry changes one page's mapping. */
  lemma EntryWritten(tables: Tables, pd: Handles, lp: nat, pte: Pte)
    requires lp < LINEAR_PAGES && lp / ENTRIES_PER_TABLE in pd && pd[lp / ENTRIES_PER_TABLE] in tables && pte.present
    requires forall i | i in pd && pd[i] == pd[lp / ENTRIES_PER_TABLE] :: i == lp / ENTRIES_PER_TABLE
    ensures PtesOf(WithEntry(tables, pd[lp / ENTRIES_PER_TABLE], lp % ENTRIES_PER_TABLE, pte), pd)
         == PtesOf(tables, pd)[lp := pte]
  {
    var tables' := WithEntry(tables, pd[lp / ENTRIES_PER_TABLE], lp % ENTRIES_PER_TABLE, pte);
    forall other: nat ensures PteAt(tables', pd, other) == if other == lp then pte else PteAt(tables, pd, other) {
    }
  }

  /** A zeroed frame outside the directory maps nothing, also once it is installed. */
  lemma ZeroedTable(tables: Tables, pd: Handles, t: nat)
    requires forall i | i in pd :: pd[i] != t
    ensures PtesOf(tables[t := ZeroTable()], pd) == PtesOf(tables, pd)
  {
    forall lp: nat ensures PteAt(tables[t := ZeroTable()], pd, lp) == PteAt(tables, pd, lp) {
    }
  }

  lemma InstalledEmpty(tables: Tables, pd: Handles, i: nat, t: nat)
    requires t in tables && tables[t] == ZeroTable() && i !in pd
    ensures PtesOf(tables, pd[i := t]) == PtesOf(tables, pd)
  {
    forall lp: nat ensures PteAt(tables, pd[i := t], lp).present <==> PteAt(tables, pd, lp).present {
    }
  }

  lemma ClearedEntry(tables: Tables, pd: Handles, i: nat)
    ensures PtesOf(tables, pd - {i}) == PtesOf(tables, pd) - Under(PtesOf(tables, pd), i)
  {
  }

  lemma BootedEntries(tables: Tables, kernel: Handles)
    requires forall i | i in kernel :: i < PDES_PER_PROCESS && kernel[i] < UNPAGED_PAGES
    requires forall lp: nat | PteAt(tables, kernel, lp).present ::
               PteAt(tables, kernel, lp).ppn < END_PPN && (lp < TASK0_PAGE_COUNT ==> !Tracked(PteAt(tables, kernel, lp).ppn))
    ensures Directory(kernel, map[]) && Mapped(PtesOf(tables, kernel), map[])
    ensures forall lp | lp in PtesOf(tables, kernel) :: !IsUser(lp)
  {
  }

  /** With no space but the kernel's, every tracked frame is free or reserved. */
  lemma BootedState(counts: seq<U8>, ptes: Ptes, reserved: set<nat>)
    requires |counts| == PAGING_PAGES && Mapped(ptes, map[])
    requires forall lp | lp in ptes :: !IsUser(lp)
    requires forall f: nat | Tracked(f) :: counts[Index(f)] == if f in reserved then USED else 0
    ensures Inv(Flat(counts, ptes, map[], map[], {}, reserved))
  {
    forall f: nat ensures Holders(map[], f) == {} {
    }
  }

  class AddressSpaces {
    const frames: FrameAllocator
    /** The present entries of the shared page directory. */
    var pdir: Handles
    /** Every space's table and page handles, side by side. */
    var pageTables: Handles
    var dataFrames: Handles
    /** Handles outside all spaces, and frames that were never given out. */
    ghost var loose: set<nat>
    ghost var reserved: set<nat>
    /** Whether an entry changed since the last flush. */
    ghost var stale: bool

    ghost function StateWith(pd: Handles, pt: Handles): Flat
      reads this, frames, frames.memMap
    {
      Flat(frames.Counts(), PtesOf(frames.tables, pd), pt, dataFrames, loose, reserved)
    }

    ghost predicate ValidWith(pd: Handles, pt: Handles)
      reads this, frames, frames.memMap
    {
      frames.Valid() && Directory(pd, pt) && Inv(StateWith(pd, pt))
    }

    ghost function Present(): Ptes
      reads this, frames
    {
      PtesOf(frames.tables, pdir)
    }

    /** What every page reads. */
    ghost function Reads(): map<nat, Page>
      reads this, frames
    {
      View(Present(), frames.pages)
    }

    /** No handle is without its mapping. */
    ghost predicate Tied()
      reads this, frames, frames.memMap
    {
      && ValidWith(pdir, pageTables)
      && (forall i | i in pageTables :: i in pdir)
      && (forall lp | lp in dataFrames :: lp in Present())
    }

    /** Between operations: everything is tied, and the TLB is flushed. */
    ghost predicate Valid()
      reads this, frames, frames.memMap
    {
      Tied() && !stale
    }

    /** The machine after boot: the kernel's tables map physical memory for slot 0. */
    constructor Boot(startMem: nat, endMem: nat, pages: map<nat, Page>, tables: Tables, kernel: Handles)
      requires 0x20_0000 <= startMem <= endMem <= END_PPN * PAGE_SIZE
      requires forall f: nat :: f in pages <==> f < END_PPN
      requires forall f: nat :: f in tables <==> f < END_PPN
      requires forall i | i in kernel :: i < PDES_PER_PROCESS && kernel[i] < UNPAGED_PAGES
      requires forall lp: nat | PteAt(tables, kernel, lp).present ::
                 PteAt(tables, kernel, lp).ppn < END_PPN && (lp < TASK0_PAGE_COUNT ==> !Tracked(PteAt(tables, kernel, lp).ppn))
      ensures Valid() && pdir == kernel && dataFrames == map[] && pageTables == map[] && loose == {}
    {
      hide Inv, PteAt, Directory;
      frames := new FrameAllocator.Init(startMem, endMem, pages, tables);
      pdir, pageTables, dataFrames := kernel, map[], map[];
      loose, stale := {}, false;
      reserved := set f: nat | f < END_PPN && Tracked(f) && !(startMem / PAGE_SIZE <= f < endMem / PAGE_SIZE);
      new;
      BootedEntries(frames.tables, kernel);
      BootedState(frames.Counts(), Present(), reserved);
    }

    method InvalidateTlb()
      modifies this`stale
      ensures !stale
    {
      stale := false;
    }

    /** Writes one entry of the table in frame t. */
    method PutEntry(t: nat, k: nat, pte: Pte)
      requires frames.Valid() && t < END_PPN && k < ENTRIES_PER_TABLE
      modifies frames`tables, this`stale
      ensures frames.Valid() && frames.tables == WithEntry(old(frames.tables), t, k, pte) && stale
    {
      frames.tables := frames.tables[t := frames.tables[t][k := pte]];
      stale := true;
    }

    /** Writes the entry of a user page whose table exists. */
    method SetPte(lp: nat, pte: Pte)
      requires ValidWith(pdir, pageTables) && IsUser(lp) && lp / ENTRIES_PER_TABLE in pdir && pte.present
      modifies frames`tables, this`stale
      ensures frames.Valid() && Present() == old(Present())[lp := pte] && stale
    {
      TableOf(lp);
      EntryWritten(frames.tables, pdir, lp, pte);
      PutEntry(pdir[lp / ENTRIES_PER_TABLE], lp % ENTRIES_PER_TABLE, pte);
    }

    lemma TableOf(lp: nat)
      requires ValidWith(pdir, pageTables) && IsUser(lp) && lp / ENTRIES_PER_TABLE in pdir
      ensures pdir[lp / ENTRIES_PER_TABLE] < END_PPN
      ensures forall i | i in pdir && pdir[i] == pdir[lp / ENTRIES_PER_TABLE] :: i == lp / ENTRIES_PER_TABLE
    {
      hide Counted, Mapped, Protected, PtesOf;
    }

    /** The entry of a page of the given slot; none without a table or outside the slot. */
    method GetPte(slot: nat, lp: nat) returns (r: Option<Pte>)
      requires ValidWith(pdir, pageTables)
      ensures r == if lp / SLOT_PAGES == slot && lp / ENTRIES_PER_TABLE in pdir
                   then Some(PteAt(frames.tables, pdir, lp)) else None
    {
      var pde := lp / ENTRIES_PER_TABLE;
      if !(slot * PDES_PER_PROCESS <= pde < slot * PDES_PER_PROCESS + PDES_PER_PROCESS) {
        return None;
      }
      if pde !in pdir {
        return None;
      }
      return Some(frames.tables[pdir[pde]][lp % ENTRIES_PER_TABLE]);
    }

    /** A fresh frame, still outside all spaces. */
    method AllocFrame() returns (r: Option<nat>)
      requires ValidWith(pdir, pageTables)
      modifies this`loose, frames, frames.memMap
      ensures ValidWith(pdir, pageTables) && Present() == old(Present())
      ensures View(Present(), frames.pages) == old(View(Present(), frames.pages))
      ensures match r
        case None =>
          && loose == old(loose) && frames.Counts() == old(frames.Counts()) && frames.pages == old(frames.pages)
          && FreeFrames(old(frames.Counts())) == {}
        case Some(f) =>
          && |FreeFrames(frames.Counts())| == |FreeFrames(old(frames.Counts()))| - 1
          && f !in old(loose) && loose == old(loose) + {f} && frames.pages[f] == ZeroPage() && frames.tables[f] == ZeroTable()
          && Tracked(f)
          && frames.pages == old(frames.pages)[f := ZeroPage()]
          && old(frames.Counts())[Index(f)] == 0 && frames.Counts() == old(frames.Counts())[Index(f) := 1]
    {
      ghost var m := StateWith(pdir, pageTables);
      ghost var tables, pages := frames.tables, frames.pages;
      r := frames.Alloc();
      if r.Some? {
        FreeUnused(m, r.value);
        Allocated(m, r.value);
        loose := loose + {r.value};
        DirectoryAvoids(m, pdir, r.value);
        ZeroedTable(tables, pdir, r.value);
        ViewUnshown(m.ptes, pages, r.value, ZeroPage());
        FrameTaken(m.counts, Index(r.value));
      }
    }

    /** Drops a handle that is outside all spaces. */
    method DropLoose(f: nat)
      requires ValidWith(pdir, pageTables) && f in loose
      modifies this`loose, frames.memMap
      ensures ValidWith(pdir, pageTables) && loose == old(loose) - {f}
      ensures frames.Counts() == old(frames.Counts())[Index(f) := 0]
      ensures Spends(old(frames.Counts()), frames.Counts(), 0)
    {
      LooseDropped(StateWith(pdir, pageTables), f);
      CountLowered(frames.Counts(), Index(f), 0);
      frames.Dealloc(f);
      loose := loose - {f};
    }

    /** Makes sure that a slot has a table for a directory index. */
    method EnsurePageTable(slot: nat, pde: nat) returns (r: Result<Unit, Errno>)
      requires Valid() && 1 <= slot < 64 && pde < PDES
      modifies this, frames, frames.memMap
      ensures Valid() && dataFrames == old(dataFrames) && loose == old(loose) && reserved == old(reserved)
      ensures Present() == old(Present()) && Reads() == old(Reads())
      ensures forall f | f in old(loose) :: frames.pages[f] == old(frames.pages)[f]
      ensures r.Ok? <==> pde in pdir
      ensures r.Err? ==> r.error == NOMEM && pdir == old(pdir) && pageTables == old(pageTables) && frames.Counts() == old(frames.Counts())
      ensures r.Err? && slot * PDES_PER_PROCESS <= pde < slot * PDES_PER_PROCESS + PDES_PER_PROCESS ==> FreeFrames(frames.Counts()) == {}
      ensures Spends(old(frames.Counts()), frames.Counts(), 1)
      ensures r.Ok? ==> pde in old(pdir) || slot * PDES_PER_PROCESS <= pde < slot * PDES_PER_PROCESS + PDES_PER_PROCESS
      ensures Owners(pageTables) <= Owners(old(pageTables)) + {slot}
    {
      hide Inv, FreeFrames, View, PtesOf, Directory;
      if pde in pdir {
        return Ok(Unit);
      }
      if !(slot * PDES_PER_PROCESS <= pde < slot * PDES_PER_PROCESS + PDES_PER_PROCESS) {
        return Err(NOMEM);
      }
      var table := AllocFrame();
      if table.None? {
        return Err(NOMEM);
      }
      InstallTable(pde, table.value);
      return Ok(Unit);
    }

    /** Enters a fresh table into the directory. */
    method InstallTable(pde: nat, t: nat)
      requires ValidWith(pdir, pageTables) && t in loose && t in frames.tables && frames.tables[t] == ZeroTable()
      requires PDES_PER_PROCESS <= pde < PDES && pde !in pdir && pde !in pageTables
      modifies this`pdir, this`pageTables, this`loose
      ensures ValidWith(pdir, pageTables) && Present() == old(Present()) && loose == old(loose) - {t}
      ensures pdir == old(pdir)[pde := t] && pageTables == old(pageTables)[pde := t]
    {
      hide Inv, PtesOf;
      TableInstalled(StateWith(pdir, pageTables), pde, t);
      InstalledEmpty(frames.tables, pdir, pde, t);
      pdir := pdir[pde := t];
      pageTables := pageTables[pde := t];
      loose := loose - {t};
    }

    /** Ensures that a page is mapped, by the given frame or else by a zeroed one. A page
        outside the slot is refused like a lack of memory, unless its table is there, which
        the code excludes. */
    method MapPage(slot: nat, lp: nat, frame: Option<nat>) returns (r: Result<Unit, Errno>)
      requires Valid() && 1 <= slot < 64 && lp < LINEAR_PAGES && (frame.Some? ==> frame.value in loose)
      requires SlotOf(lp) == slot || lp / ENTRIES_PER_TABLE !in pdir
      modifies this, frames, frames.memMap
      ensures Valid()
      ensures loose == old(loose) - (if frame.Some? then {frame.value} else {})
      ensures match r
        case Ok(_) =>
          && SlotOf(lp) == slot
          && if lp in old(Reads()) then frame.None? && Reads() == old(Reads())
             else Reads() == old(Reads())[lp := if frame.Some? then old(frames.pages)[frame.value] else ZeroPage()]
        case Err(EXIST) => frame.Some? && lp in old(Reads()) && Reads() == old(Reads())
        case Err(NOMEM) =>
          && Reads() == old(Reads())
          && (SlotOf(lp) == slot ==> |FreeFrames(old(frames.Counts()))| <= if frame.Some? then 0 else 1)
      ensures Spends(old(frames.Counts()), frames.Counts(), if frame.Some? then 1 else 2)
      ensures Owners(pageTables) <= Owners(old(pageTables)) + {slot}
      ensures SpoilsOnly(old(Present()), Present(), {})
    {
      hide FrameAllocator.Valid, PteAt, Inv, FreeFrames, View, PtesOf, Directory;
      SlotEntries(slot, lp);
      var table := EnsurePageTable(slot, lp / ENTRIES_PER_TABLE);
      if table.Err? {
        Discard(frame);
        return Err(table.error);
      }
      r := MapInTable(slot, lp, frame);
    }

    /** ... once the page has a table. */
    method MapInTable(slot: nat, lp: nat, frame: Option<nat>) returns (r: Result<Unit, Errno>)
      requires Valid() && 1 <= slot < 64 && SlotOf(lp) == slot && (frame.Some? ==> frame.value in loose)
      requires lp / ENTRIES_PER_TABLE in pdir
      modifies this, frames, frames.memMap
      ensures Valid()
      ensures loose == old(loose) - (if frame.Some? then {frame.value} else {})
      ensures match r
        case Ok(_) =>
          if lp in old(Reads()) then frame.None? && Reads() == old(Reads())
          else Reads() == old(Reads())[lp := if frame.Some? then old(frames.pages)[frame.value] else ZeroPage()]
        case Err(EXIST) => frame.Some? && lp in old(Reads()) && Reads() == old(Reads())
        case Err(NOMEM) => Reads() == old(Reads()) && frame.None? && FreeFrames(old(frames.Counts())) == {}
      ensures Spends(old(frames.Counts()), frames.Counts(), if frame.Some? then 0 else 1)
      ensures pageTables == old(pageTables) && SpoilsOnly(old(Present()), Present(), {})
    {
      hide FrameAllocator.Valid, PteAt, Inv, FreeFrames, View, PtesOf, Directory;
      UserPage(slot, lp);
      var pte := GetPte(slot, lp);
      var present := pte.Some? && pte.value.present;
      PresentReads(lp);
      if frame.None? && present {
        return Ok(Unit);
      }
      if frame.Some? && present {
        Discard(frame);
        return Err(EXIST);
      }
      var f;
      if frame.Some? {
        f := frame.value;
      } else {
        var zeroed := AllocFrame();
        if zeroed.None? {
          return Err(NOMEM);
        }
        f := zeroed.value;
      }
      PlacePage(lp, f);
      InvalidateTlb();
      return Ok(Unit);
    }

    /** Drops a frame that was offered but not taken. */
    method Discard(frame: Option<nat>)
      requires Valid() && (frame.Some? ==> frame.value in loose)
      modifies this`loose, frames.memMap
      ensures Valid() && loose == old(loose) - (if frame.Some? then {frame.value} else {})
      ensures Spends(old(frames.Counts()), frames.Counts(), 0)
    {
      hide Inv, FreeFrames, View, PtesOf, Directory;
      if frame.Some? {
        DropLoose(frame.value);
      }
    }

    /** Maps a loose frame at an absent page whose table exists. */
    method PlacePage(lp: nat, f: nat)
      requires ValidWith(pdir, pageTables) && f in loose && IsUser(lp) && lp / ENTRIES_PER_TABLE in pdir
      requires lp !in dataFrames
      modifies this`dataFrames, this`loose, this`stale, frames`tables
      ensures ValidWith(pdir, pageTables) && Present() == old(Present())[lp := UserRw(f)]
      ensures dataFrames == old(dataFrames)[lp := f] && loose == old(loose) - {f}
      ensures Reads() == old(Reads())[lp := frames.pages[f]] && stale
      ensures frames.Counts() == old(frames.Counts()) && SpoilsOnly(old(Present()), Present(), {})
    {
      hide Inv, PtesOf;
      EntrySpoils(Present(), lp, UserRw(f));
      PageMapped(StateWith(pdir, pageTables), lp, f);
      LooseTracked(StateWith(pdir, pageTables), f);
      ViewPut(Present(), frames.pages, lp, UserRw(f));
      SetPte(lp, UserRw(f));
      dataFrames := dataFrames[lp := f];
      loose := loose - {f};
    }

    /** A page lies in a slot exactly when its directory entry does. */
    lemma SlotEntries(slot: nat, lp: nat)
      ensures SlotOf(lp) == slot <==>
              slot * PDES_PER_PROCESS <= lp / ENTRIES_PER_TABLE < slot * PDES_PER_PROCESS + PDES_PER_PROCESS
    {
    }

    lemma UserPage(slot: nat, lp: nat)
      requires 1 <= slot < 64 && SlotOf(lp) == slot
      ensures IsUser(lp) && lp / ENTRIES_PER_TABLE < PDES
      ensures slot * PDES_PER_PROCESS <= lp / ENTRIES_PER_TABLE < slot * PDES_PER_PROCESS + PDES_PER_PROCESS
    {
    }

    lemma EntryTable(lp: nat)
      requires ValidWith(pdir, pageTables) && lp in Present()
      ensures lp / ENTRIES_PER_TABLE in pdir && Present()[lp].ppn < END_PPN && Present()[lp].present
      ensures Present()[lp].ppn in frames.pages && (IsUser(lp) ==> lp in Reads() && Reads()[lp] == frames.pages[Present()[lp].ppn])
    {
      hide Counted, Protected, Roles, Offsets;
    }

    /** A visible page can be read exactly when its entry is present. */
    lemma PresentReads(lp: nat)
      requires ValidWith(pdir, pageTables)
      ensures IsUser(lp) ==> (lp in Reads() <==> lp in Present())
      ensures IsUser(lp) ==> (lp in Present() <==> PteAt(frames.tables, pdir, lp).present)
      ensures lp in Present() ==> Present()[lp] == PteAt(frames.tables, pdir, lp)
      ensures IsUser(lp) && lp in dataFrames && lp in Present() ==> Tracked(dataFrames[lp]) && Present()[lp].ppn == dataFrames[lp]
      ensures IsUser(lp) && lp in Present() && Tracked(Present()[lp].ppn) ==> lp in dataFrames
    {
      hide Counted, Protected, Roles, Offsets;
    }

    /** Makes a present page writable: in place for the only holder of its frame, else on
        a copy. What every page reads stays the same. */
    method EnsurePageWritable(slot: nat, lp: nat) returns (r: Result<Unit, Errno>)
      requires Valid() && 1 <= slot < 64 && SlotOf(lp) == slot && lp in Present()
      modifies this, frames, frames.memMap
      ensures Valid() && Reads() == old(Reads()) && loose == old(loose)
      ensures r.Ok? ==> lp in Present() && Present()[lp].writable
      ensures r.Err? ==> r.error == NOMEM && Present() == old(Present()) && dataFrames == old(dataFrames)
      ensures r.Err? ==> FreeFrames(old(frames.Counts())) == {}
      ensures Spends(old(frames.Counts()), frames.Counts(), 1)
      ensures pageTables == old(pageTables) && SpoilsOnly(old(Present()), Present(), {})
    {
      hide FrameAllocator.Valid, PteAt, Inv, FreeFrames, View, PtesOf, Directory;
      UserPage(slot, lp);
      PresentReads(lp);
      EntryTable(lp);
      var found := GetPte(slot, lp);
      var pte := found.value;
      var oldPpn := pte.ppn;
      if oldPpn >= UNPAGED_PAGES {
        var count := frames.RefCount(oldPpn);
        if count == 1 {
          MakeWritable(lp, pte.(writable := true));
          InvalidateTlb();
          return Ok(Unit);
        }
      }
      r := CopyPage(lp, oldPpn);
    }

    /** Gives a page its own copy of the frame it maps. */
    method CopyPage(lp: nat, oldPpn: nat) returns (r: Result<Unit, Errno>)
      requires Valid() && IsUser(lp) && lp in Present() && Present()[lp].ppn == oldPpn
      modifies this, frames, frames.memMap
      ensures Valid() && Reads() == old(Reads()) && loose == old(loose) && pageTables == old(pageTables)
      ensures r.Ok? ==> lp in Present() && Present()[lp].writable
      ensures r.Err? ==> r.error == NOMEM && Present() == old(Present()) && dataFrames == old(dataFrames)
      ensures r.Err? ==> FreeFrames(old(frames.Counts())) == {}
      ensures Spends(old(frames.Counts()), frames.Counts(), 1) && SpoilsOnly(old(Present()), Present(), {})
    {
      hide FrameAllocator.Valid, PteAt, Inv, FreeFrames, View, PtesOf, Directory;
      PresentReads(lp);
      EntryTable(lp);
      var frame := AllocFrame();
      if frame.None? {
        return Err(NOMEM);
      }
      EntryTable(lp);
      ghost var view := Reads();
      ReplacePage(lp, frame.value);
      InvalidateTlb();
      CopyFrame(lp, oldPpn, frame.value, view);
      return Ok(Unit);
    }

    method MakeWritable(lp: nat, pte: Pte)
      requires ValidWith(pdir, pageTables) && IsUser(lp) && lp in Present() && Tracked(Present()[lp].ppn)
      requires frames.Counts()[Index(Present()[lp].ppn)] == 1 && pte == Present()[lp].(writable := true)
      requires lp / ENTRIES_PER_TABLE in pdir
      modifies frames`tables, this`stale
      ensures ValidWith(pdir, pageTables) && Present() == old(Present())[lp := pte] && Reads() == old(Reads())
      ensures SpoilsOnly(old(Present()), Present(), {})
    {
      EntrySpoils(Present(), lp, pte);
      hide Inv, PtesOf, Directory, View;
      ghost var m := StateWith(pdir, pageTables);
      MadeWritable(m, lp, pte);
      ViewSame(m.ptes, frames.pages, lp, pte);
      PresentEntries(m, lp);
      SetPte(lp, pte);
      assert StateWith(pdir, pageTables) == m.(ptes := m.ptes[lp := pte]);
    }

    /** Points a page at a loose frame and drops the handle it had. */
    method ReplacePage(lp: nat, f: nat)
      requires ValidWith(pdir, pageTables) && f in loose && IsUser(lp) && lp in Present() && lp / ENTRIES_PER_TABLE in pdir
      modifies this`dataFrames, this`loose, this`stale, frames`tables, frames.memMap
      ensures ValidWith(pdir, pageTables) && Present() == old(Present())[lp := UserRw(f)]
      ensures dataFrames == old(dataFrames)[lp := f] && loose == old(loose) - {f}
      ensures Reads() == old(Reads())[lp := frames.pages[f]]
      ensures Spends(old(frames.Counts()), frames.Counts(), 0) && SpoilsOnly(old(Present()), Present(), {})
    {
      EntrySpoils(Present(), lp, UserRw(f));
      hide Inv, PtesOf, Directory;
      PageReplaced(StateWith(pdir, pageTables), lp, f);
      LooseTracked(StateWith(pdir, pageTables), f);
      ViewPut(Present(), frames.pages, lp, UserRw(f));
      SetPte(lp, UserRw(f));
      var had := lp in dataFrames;
      var was := if had then dataFrames[lp] else 0;
      dataFrames := dataFrames[lp := f];
      loose := loose - {f};
      if had {
        CountLowered(frames.Counts(), Index(was), frames.Counts()[Index(was)] - 1);
        frames.Dealloc(was);
      }
    }

    /** Copies the bytes of the old frame into the page's own new one. */
    method CopyFrame(lp: nat, src: nat, dst: nat, ghost view: map<nat, Page>)
      requires ValidWith(pdir, pageTables) && IsUser(lp) && lp in Present() && Present()[lp] == UserRw(dst)
      requires src < END_PPN && dst < END_PPN && src in frames.pages
      requires lp in view && view[lp] == frames.pages[src] && Reads() == view[lp := frames.pages[dst]]
      modifies frames`pages
      ensures ValidWith(pdir, pageTables) && Reads() == view
    {
      hide Inv, PtesOf, Directory;
      StoreKeeps(StateWith(pdir, pageTables), frames.pages, lp, frames.pages[src]);
      frames.pages := frames.pages[dst := frames.pages[src]];
      assert view[lp := frames.pages[dst]][lp := view[lp]] == view;
    }

    // ----- sharing -----

    /** Tries to share one page of another space. It shares exactly a present, clean,
        tracked page into an absent one. */
    method TryShareLocalPageFrom(slot: nat, source: nat, pdeOffset: nat, pteIndex: nat) returns (r: Result<bool, Errno>)
      requires Valid() && 1 <= slot < 64 && 1 <= source < 64 && slot != source
      requires pdeOffset < PDES_PER_PROCESS && pteIndex < ENTRIES_PER_TABLE
      modifies this, frames, frames.memMap
      ensures Valid() && loose == old(loose)
      ensures var src := PageOf(source, pdeOffset, pteIndex); var dst := PageOf(slot, pdeOffset, pteIndex);
        match r
        case Ok(true) =>
          && src in old(Present()) && !old(Present())[src].dirty && Tracked(old(Present())[src].ppn)
          && src in old(Reads()) && dst !in old(Reads()) && Reads() == old(Reads())[dst := old(Reads())[src]]
        case Ok(false) =>
          && Reads() == old(Reads())
          && (src in old(Present()) && !old(Present())[src].dirty && Tracked(old(Present())[src].ppn) ==> dst in old(Reads()))
        case Err(e) => e == NOMEM && Reads() == old(Reads()) && FreeFrames(old(frames.Counts())) == {}
      ensures Spends(old(frames.Counts()), frames.Counts(), 1)
      ensures Owners(pageTables) <= Owners(old(pageTables)) + {slot} && SpoilsOnly(old(Present()), Present(), {})
    {
      hide FrameAllocator.Valid, PteAt, Inv, FreeFrames, View, PtesOf, Directory;
      var sourcePage := PageOf(source, pdeOffset, pteIndex);
      var targetPage := PageOf(slot, pdeOffset, pteIndex);
      PagesOf(slot, source, pdeOffset, pteIndex);
      UserPage(source, sourcePage);
      UserPage(slot, targetPage);
      PresentReads(sourcePage);
      var sourcePte := GetPte(source, sourcePage);
      if sourcePte.None? {
        NoTable(sourcePage);
        return Ok(false);
      }
      if !sourcePte.value.present || sourcePte.value.dirty {
        return Ok(false);
      }
      if sourcePte.value.ppn < UNPAGED_PAGES {
        return Ok(false);
      }
      EntryTable(sourcePage);
      var table := EnsurePageTable(slot, targetPage / ENTRIES_PER_TABLE);
      if table.Err? {
        return Err(NOMEM);
      }
      PresentReads(targetPage);
      PresentReads(sourcePage);
      EntryTable(sourcePage);
      var targetPte := GetPte(slot, targetPage);
      if targetPte.Some? && targetPte.value.present {
        return Ok(false);
      }
      ShareEntries(sourcePage, targetPage, sourcePte.value.WithoutWritable());
      InvalidateTlb();
      return Ok(true);
    }

    /** Write-protects the source entry, copies it to the target and takes a handle. */
    method ShareEntries(src: nat, dst: nat, cow: Pte)
      requires ValidWith(pdir, pageTables) && IsUser(src) && IsUser(dst) && src % SLOT_PAGES == dst % SLOT_PAGES
      requires src in Present() && src in dataFrames && dst !in dataFrames && cow == Present()[src].WithoutWritable()
      requires src / ENTRIES_PER_TABLE in pdir && dst / ENTRIES_PER_TABLE in pdir
      requires src in Reads() && Tracked(cow.ppn)
      modifies this`dataFrames, this`stale, frames`tables, frames.memMap
      ensures ValidWith(pdir, pageTables) && Present() == old(Present())[src := cow][dst := cow]
      ensures dataFrames == old(dataFrames)[dst := cow.ppn]
      ensures Reads() == old(Reads())[dst := old(Reads())[src]]
      ensures Spends(old(frames.Counts()), frames.Counts(), 0)
      ensures !cow.dirty ==> SpoilsOnly(old(Present()), Present(), {})
    {
      hide Inv, PtesOf, Directory, View;
      ghost var m := StateWith(pdir, pageTables);
      if !cow.dirty {
        EntrySpoils(m.ptes, src, cow);
        EntrySpoils(m.ptes[src := cow], dst, cow);
        SpoilsTrans(m.ptes, m.ptes[src := cow], m.ptes[src := cow][dst := cow], {}, {});
      }
      PageShared(m, src, dst, cow);
      PresentEntries(m, src);
      ViewShared(m.ptes, frames.pages, src, dst, cow);
      TableOf(src);
      TableOf(dst);
      EntriesWritten(m, frames.tables, pdir, src, dst, cow);
      PutEntry(pdir[src / ENTRIES_PER_TABLE], src % ENTRIES_PER_TABLE, cow);
      PutEntry(pdir[dst / ENTRIES_PER_TABLE], dst % ENTRIES_PER_TABLE, cow);
      FrameShared(m.counts, Index(cow.ppn));
      var f := frames.Share(cow.ppn);
      dataFrames := dataFrames[dst := f];
      assert StateWith(pdir, pageTables) == Shared(m, src, dst, cow);
    }

    lemma NoTable(lp: nat)
      requires ValidWith(pdir, pageTables) && lp / ENTRIES_PER_TABLE !in pdir
      ensures lp !in Present()
    {
    }

    // ----- fork -----

    /** Copies one entry of the parent into the child's table, which `pd` and `pt` treat
        as installed already. */
    method CopyEntry(ghost pd: Handles, ghost pt: Handles, parentTable: nat, childTable: nat, j: nat, ghost src: nat, dst: nat)
      requires ValidWith(pd, pt) && Visible(src) && IsUser(dst) && src % SLOT_PAGES == dst % SLOT_PAGES
      requires src / ENTRIES_PER_TABLE in pd && pd[src / ENTRIES_PER_TABLE] == parentTable && src % ENTRIES_PER_TABLE == j
      requires dst / ENTRIES_PER_TABLE in pd && pd[dst / ENTRIES_PER_TABLE] == childTable && dst % ENTRIES_PER_TABLE == j
      requires parentTable < END_PPN && childTable < END_PPN
      requires dst !in PtesOf(frames.tables, pd) && dst !in dataFrames
      requires forall lp | lp in dataFrames :: lp in PtesOf(frames.tables, pd)
      modifies this`dataFrames, this`stale, frames`tables, frames.memMap
      ensures ValidWith(pd, pt)
      ensures PtesOf(frames.tables, pd).Keys
           == old(PtesOf(frames.tables, pd)).Keys + (if src in old(PtesOf(frames.tables, pd)) then {dst} else {})
      ensures forall lp | lp in dataFrames :: lp in PtesOf(frames.tables, pd)
      ensures forall lp | lp in dataFrames && lp !in old(dataFrames) :: lp == dst
      ensures forall lp | lp in old(dataFrames) :: lp in dataFrames && dataFrames[lp] == old(dataFrames)[lp]
      ensures View(PtesOf(frames.tables, pd), frames.pages)
           == CopiedPage(old(View(PtesOf(frames.tables, pd), frames.pages)), src, dst)
      ensures SpoilsOnly(old(PtesOf(frames.tables, pd)), PtesOf(frames.tables, pd), {dst})
      ensures FreeFrames(frames.Counts()) == old(FreeFrames(frames.Counts()))
    {
      hide Inv, PtesOf, Directory, View;
      ghost var m, tables := StateWith(pd, pt), frames.tables;
      EntryFacts(m, tables, pd, src, frames.pages);
      var parentPte := frames.tables[parentTable][j];
      if !parentPte.present {
        return;
      }
      var cow := parentPte.WithoutWritable();
      ghost var df := dataFrames;
      if cow.ppn >= UNPAGED_PAGES {
        PageShared(m, src, dst, cow);
        EntriesWritten(m, tables, pd, src, dst, cow);
        ViewShared(m.ptes, frames.pages, src, dst, cow);
        PutEntry(childTable, j, cow);
        PutEntry(parentTable, j, cow);
        FrameShared(m.counts, Index(cow.ppn));
        var f := frames.Share(cow.ppn);
        dataFrames := dataFrames[dst := f];
        assert StateWith(pd, pt) == Shared(m, src, dst, cow);
      } else {
        KernelPageShared(m, dst, cow);
        OneEntryWritten(m, tables, pd, dst, cow);
        ViewPut(m.ptes, frames.pages, dst, cow);
        PutEntry(childTable, j, cow);
        assert StateWith(pd, pt) == m.(ptes := m.ptes[dst := cow]);
      }
    }

    // ----- drop -----

    /** Clears one directory entry of a user slot: its pages are gone. */
    method ClearPde(i: nat)
      requires ValidWith(pdir, pageTables)
      modifies this`pdir, this`stale
      ensures ValidWith(pdir, pageTables) && pdir == old(pdir) - {i} && stale
      ensures Present() == old(Present()) - Under(old(Present()), i)
      ensures Reads() == old(Reads()) - Under(old(Present()), i)
    {
      hide Inv, PtesOf, Under, View;
      Unmapped(StateWith(pdir, pageTables), i);
      ClearedEntry(frames.tables, pdir, i);
      ViewUnmapped(Present(), frames.pages, i);
      pdir := pdir - {i};
      stale := true;
    }

    /** Gives back the frame of a table that the directory no longer names. */
    method ReleaseTable(i: nat)
      requires ValidWith(pdir, pageTables) && i in pageTables && i !in pdir
      modifies this`pageTables, frames.memMap
      ensures ValidWith(pdir, pageTables) && pageTables == old(pageTables) - {i}
      ensures Spends(old(frames.Counts()), frames.Counts(), 0)
    {
      hide Inv, PtesOf;
      ghost var m := StateWith(pdir, pageTables);
      TableReleased(m, i);
      TableTracked(m, i);
      CountLowered(m.counts, Index(pageTables[i]), m.counts[Index(pageTables[i])] - 1);
      frames.Dealloc(pageTables[i]);
      pageTables := pageTables - {i};
      assert StateWith(pdir, pageTables) == m.(pageTables := m.pageTables - {i}, counts := DroppedCount(m.counts, m.pageTables[i]));
    }

    /** Gives back the frame of a page that is no longer mapped. */
    method ReleaseFrame(lp: nat)
      requires ValidWith(pdir, pageTables) && lp in dataFrames && lp !in Present()
      modifies this`dataFrames, frames.memMap
      ensures ValidWith(pdir, pageTables) && dataFrames == old(dataFrames) - {lp}
      ensures Spends(old(frames.Counts()), frames.Counts(), 0)
    {
      hide Inv, PtesOf, Directory;
      ghost var m := StateWith(pdir, pageTables);
      FrameReleased(m, lp);
      CountLowered(m.counts, Index(dataFrames[lp]), m.counts[Index(dataFrames[lp])] - 1);
      frames.Dealloc(dataFrames[lp]);
      dataFrames := dataFrames - {lp};
      assert StateWith(pdir, pageTables) == m.(dataFrames := m.dataFrames - {lp}, counts := DroppedCount(m.counts, m.dataFrames[lp]));
    }

    /** Releases an address space: clears its directory entries, flushes, then gives back
        its tables and its frames. */
    method DropSpace(slot: nat)
      requires Tied() && 1 <= slot < 64
      modifies this`pdir, this`pageTables, this`dataFrames, this`stale, frames.memMap
      ensures Tied()
      ensures Reads() == Others(old(Reads()), slot, SLOT_PAGES)
      ensures dataFrames == Others(old(dataFrames), slot, SLOT_PAGES)
      ensures pageTables == Others(old(pageTables), slot, PDES_PER_PROCESS)
      ensures pdir == Others(old(pdir), slot, PDES_PER_PROCESS)
      ensures stale ==> old(stale) && forall i | i in old(pageTables) :: i / PDES_PER_PROCESS != slot
      ensures Present() == Others(old(Present()), slot, SLOT_PAGES)
      ensures Spends(old(frames.Counts()), frames.Counts(), 0)
    {
      hide Inv, FreeFrames, View, PtesOf, Directory, Under;
      var hasPageTables := OwnsTables(slot);
      if !hasPageTables {
        NothingToDrop(slot);
        NothingPresent(slot);
        return;
      }
      ClearSlot(slot);
      InvalidateTlb();
      ReleaseTables(slot);
      ReleaseFrames(slot);
    }

    method OwnsTables(slot: nat) returns (has: bool)
      ensures has <==> Span(pageTables, slot * PDES_PER_PROCESS, PDES_PER_PROCESS) != {}
    {
      has := false;
      for i := 0 to PDES_PER_PROCESS
        invariant has <==> Span(pageTables, slot * PDES_PER_PROCESS, i) != {}
      {
        SpanStep(pageTables, slot * PDES_PER_PROCESS, i, 1);
        if slot * PDES_PER_PROCESS + i in pageTables {
          has := true;
        }
      }
    }

    lemma NothingToDrop(slot: nat)
      requires Tied() && 1 <= slot < 64
      requires Span(pageTables, slot * PDES_PER_PROCESS, PDES_PER_PROCESS) == {}
      ensures Reads() == Others(Reads(), slot, SLOT_PAGES) && dataFrames == Others(dataFrames, slot, SLOT_PAGES)
      ensures pageTables == Others(pageTables, slot, PDES_PER_PROCESS) && pdir == Others(pdir, slot, PDES_PER_PROCESS)
      ensures forall i | i in pageTables :: i / PDES_PER_PROCESS != slot
    {
      hide Inv;
      forall i | i in pageTables || i in pdir ensures i / PDES_PER_PROCESS != slot {
        InSlot(i, slot, PDES_PER_PROCESS);
        assert i !in Span(pageTables, slot * PDES_PER_PROCESS, PDES_PER_PROCESS);
      }
      forall lp | lp in Present() ensures SlotOf(lp) != slot {
        assert lp / ENTRIES_PER_TABLE in pdir;
      }
    }

    lemma NothingPresent(slot: nat)
      requires ValidWith(pdir, pageTables) && pdir == Others(pdir, slot, PDES_PER_PROCESS)
      ensures Present() == Others(Present(), slot, SLOT_PAGES)
    {
      hide Inv;
      forall lp | lp in Present() ensures SlotOf(lp) != slot {
        assert lp / ENTRIES_PER_TABLE in pdir;
        assert lp / ENTRIES_PER_TABLE in Others(pdir, slot, PDES_PER_PROCESS);
      }
    }

    method ClearSlot(slot: nat)
      requires Tied() && 1 <= slot < 64
      modifies this`pdir, this`stale
      ensures ValidWith(pdir, pageTables)
      ensures pdir == Others(old(pdir), slot, PDES_PER_PROCESS)
      ensures Present() == Others(old(Present()), slot, SLOT_PAGES) && Reads() == Others(old(Reads()), slot, SLOT_PAGES)
    {
      hide Inv, FreeFrames, View, PtesOf, Directory, Under;
      for i := 0 to PDES_PER_PROCESS
        invariant ValidWith(pdir, pageTables)
        invariant pdir == old(pdir) - Span(old(pdir), slot * PDES_PER_PROCESS, i)
        invariant Present() == old(Present()) - Span(old(Present()), slot * SLOT_PAGES, i * ENTRIES_PER_TABLE)
        invariant Reads() == old(Reads()) - Span(old(Present()), slot * SLOT_PAGES, i * ENTRIES_PER_TABLE)
      {
        var pde := slot * PDES_PER_PROCESS + i;
        SpanStep(old(pdir), slot * PDES_PER_PROCESS, i, 1);
        UnderSpan(old(Present()), Present(), slot, i);
        if pde in pageTables {
          ClearPde(pde);
        } else {
          NoEntryThere(pde);
        }
      }
      SpanIsSlot(old(pdir), slot, PDES_PER_PROCESS);
      SpanIsSlot(old(Present()), slot, SLOT_PAGES);
      SpanOfReads(old(Present()), frames.pages, slot);
    }

    lemma NoEntryThere(pde: nat)
      requires ValidWith(pdir, pageTables) && pde !in pageTables && pde >= PDES_PER_PROCESS
      ensures pde !in pdir && Under(Present(), pde) == {}
    {
      hide Inv;
    }

    method ReleaseTables(slot: nat)
      requires ValidWith(pdir, pageTables) && forall i | i in pdir :: i / PDES_PER_PROCESS != slot
      modifies this`pageTables, frames.memMap
      ensures ValidWith(pdir, pageTables) && pageTables == Others(old(pageTables), slot, PDES_PER_PROCESS)
      ensures Present() == old(Present())
      ensures Spends(old(frames.Counts()), frames.Counts(), 0)
    {
      hide Inv, FreeFrames, View, PtesOf, Directory;
      for i := 0 to PDES_PER_PROCESS
        invariant ValidWith(pdir, pageTables)
        invariant pageTables == old(pageTables) - Span(old(pageTables), slot * PDES_PER_PROCESS, i)
        invariant Spends(old(frames.Counts()), frames.Counts(), 0)
      {
        SpanStep(old(pageTables), slot * PDES_PER_PROCESS, i, 1);
        if slot * PDES_PER_PROCESS + i in pageTables {
          ReleaseTable(slot * PDES_PER_PROCESS + i);
        }
      }
      SpanIsSlot(old(pageTables), slot, PDES_PER_PROCESS);
    }

    method ReleaseFrames(slot: nat)
      requires ValidWith(pdir, pageTables) && forall lp | lp in Present() :: SlotOf(lp) != slot
      modifies this`dataFrames, frames.memMap
      ensures ValidWith(pdir, pageTables) && dataFrames == Others(old(dataFrames), slot, SLOT_PAGES)
      ensures Present() == old(Present())
      ensures Spends(old(frames.Counts()), frames.Counts(), 0)
    {
      hide Inv, FreeFrames, View, PtesOf, Directory;
      var mine := set lp | lp in dataFrames && SlotOf(lp) == slot;
      while mine != {}
        invariant ValidWith(pdir, pageTables)
        invariant mine == set lp | lp in dataFrames && SlotOf(lp) == slot
        invariant forall lp | lp in old(dataFrames) && SlotOf(lp) != slot :: lp in dataFrames
        invariant forall lp | lp in dataFrames :: lp in old(dataFrames) && dataFrames[lp] == old(dataFrames)[lp]
        invariant Spends(old(frames.Counts()), frames.Counts(), 0)
        decreases mine
      {
        var lp :| lp in mine;
        ReleaseFrame(lp);
        mine := mine - {lp};
      }
      forall lp | lp in dataFrames ensures SlotOf(lp) != slot {
        assert lp !in mine;
      }
    }

    // ----- fork -----

    /** Copies the entries of one parent table into the child's. */
    method CopyTable(ghost pd: Handles, ghost pt: Handles, parent: nat, child: nat, i: nat, parentTable: nat, childTable: nat, count: nat)
      requires ValidWith(pd, pt) && parent < 64 && 1 <= child < 64 && parent != child && i < PDES_PER_PROCESS
      requires if parent == 0 then count == TASK0_PAGE_COUNT && i == 0 else count == ENTRIES_PER_TABLE
      requires parent * PDES_PER_PROCESS + i in pd && pd[parent * PDES_PER_PROCESS + i] == parentTable
      requires child * PDES_PER_PROCESS + i in pd && pd[child * PDES_PER_PROCESS + i] == childTable
      requires parentTable < END_PPN && childTable < END_PPN
      requires Under(PtesOf(frames.tables, pd), child * PDES_PER_PROCESS + i) == {}
      requires forall lp | lp in dataFrames :: lp in PtesOf(frames.tables, pd)
      modifies this`dataFrames, this`stale, frames`tables, frames.memMap
      ensures ValidWith(pd, pt)
      ensures forall lp | lp in dataFrames :: lp in PtesOf(frames.tables, pd)
      ensures Others(dataFrames, child, SLOT_PAGES) == Others(old(dataFrames), child, SLOT_PAGES)
      ensures View(PtesOf(frames.tables, pd), frames.pages)
           == Copied(old(View(PtesOf(frames.tables, pd), frames.pages)), PageOf(parent, i, 0), PageOf(child, i, 0), count)
      ensures forall k | k in PtesOf(frames.tables, pd) && k !in old(PtesOf(frames.tables, pd)) :: k / ENTRIES_PER_TABLE == child * PDES_PER_PROCESS + i
      ensures SpoilsOnly(old(PtesOf(frames.tables, pd)), PtesOf(frames.tables, pd), SlotPages(child))
      ensures FreeFrames(frames.Counts()) == old(FreeFrames(frames.Counts()))
    {
      hide Inv, FreeFrames, View, PtesOf, Directory, Under, Others, Copied;
      ghost var ptes0, v0, df0 := PtesOf(frames.tables, pd), View(PtesOf(frames.tables, pd), frames.pages), dataFrames;
      NothingCopied(v0, PageOf(parent, i, 0), PageOf(child, i, 0));
      for j := 0 to count
        invariant ValidWith(pd, pt)
        invariant forall lp | lp in dataFrames :: lp in PtesOf(frames.tables, pd)
        invariant Others(dataFrames, child, SLOT_PAGES) == Others(df0, child, SLOT_PAGES)
        invariant View(PtesOf(frames.tables, pd), frames.pages) == Copied(v0, PageOf(parent, i, 0), PageOf(child, i, 0), j)
        invariant SpoilsOnly(ptes0, PtesOf(frames.tables, pd), SlotPages(child))
        invariant forall k | k in PtesOf(frames.tables, pd) && k !in ptes0 :: PageOf(child, i, 0) <= k < PageOf(child, i, 0) + j
        invariant FreeFrames(frames.Counts()) == old(FreeFrames(frames.Counts()))
      {
        PagesOf(parent, child, i, j);
        PagesOf(child, parent, i, j);
        NotYetThere(ptes0, child, i, j);
        ForkPages(parent, child, i, j);
        CopiedStep(v0, PageOf(parent, i, 0), PageOf(child, i, 0), j);
        ghost var df := dataFrames;
        CopyEntry(pd, pt, parentTable, childTable, j, PageOf(parent, i, j), PageOf(child, i, j));
        OnlyChildGrows(df, dataFrames, child, PageOf(child, i, j));
      }
      forall k: nat | PageOf(child, i, 0) <= k < PageOf(child, i, 0) + count ensures k / ENTRIES_PER_TABLE == child * PDES_PER_PROCESS + i {
        InSlot(k, child * PDES_PER_PROCESS + i, ENTRIES_PER_TABLE);
      }
    }

    /** Builds the child's table i from the parent's, in the zeroed frame t, and enters it. */
    method ForkTable(parent: nat, child: nat, i: nat, t: nat)
      requires Tied() && parent < 64 && 1 <= child < 64 && parent != child && i < PDES_PER_PROCESS && (parent == 0 ==> i == 0)
      requires t in loose && t in frames.tables && frames.tables[t] == ZeroTable()
      requires child * PDES_PER_PROCESS + i !in pageTables && parent * PDES_PER_PROCESS + i in pdir
      modifies this`pdir, this`pageTables, this`dataFrames, this`loose, this`stale, frames`tables, frames.memMap
      ensures Tied() && loose == old(loose) - {t}
      ensures pdir == old(pdir)[child * PDES_PER_PROCESS + i := t]
      ensures pageTables == old(pageTables)[child * PDES_PER_PROCESS + i := t]
      ensures Others(dataFrames, child, SLOT_PAGES) == Others(old(dataFrames), child, SLOT_PAGES)
      ensures Reads() == Copied(old(Reads()), PageOf(parent, i, 0), PageOf(child, i, 0), TableEntries(parent))
      ensures SpoilsOnly(old(Present()), Present(), SlotPages(child))
      ensures FreeFrames(frames.Counts()) == old(FreeFrames(frames.Counts()))
    {
      hide Inv, FreeFrames, View, PtesOf, Directory, Under, Others, Copied;
      var entry := child * PDES_PER_PROCESS + i;
      ghost var pd, pt := pdir[entry := t], pageTables[entry := t];
      NoEntryThere(entry);
      TableInstalled(StateWith(pdir, pageTables), entry, t);
      LooseTracked(StateWith(pdir, pageTables), t);
      InstalledEmpty(frames.tables, pdir, entry, t);
      DirectoryGrows(pdir, pageTables, entry, t);
      TablesInMemory(StateWith(pdir, pageTables), pdir, parent * PDES_PER_PROCESS + i);
      loose := loose - {t};
      CopyTable(pd, pt, parent, child, i, pdir[parent * PDES_PER_PROCESS + i], t, TableEntries(parent));
      pdir, pageTables := pdir[entry := t], pageTables[entry := t];
    }

    /** An empty slot reads nothing; only visible pages are read. */
    lemma EmptyReads(slot: nat)
      requires ValidWith(pdir, pageTables) && Empty(slot)
      ensures Reads() == Others(Reads(), slot, SLOT_PAGES) && forall lp | lp in Reads() :: Visible(lp)
      ensures EntriesBelow(pageTables, slot, 0)
    {
      hide Inv;
      forall i | i in pdir ensures i / PDES_PER_PROCESS != slot {
        assert i in Others(pdir, slot, PDES_PER_PROCESS);
      }
      forall lp | lp in Present() ensures SlotOf(lp) != slot {
        assert lp / ENTRIES_PER_TABLE in pdir;
      }
      forall i | i in pageTables ensures i / PDES_PER_PROCESS != slot {
        assert i in Others(pageTables, slot, PDES_PER_PROCESS);
      }
    }

    /** Nobody owns the slot: it has no tables and no pages. */
    ghost predicate Empty(slot: nat)
      reads this
    {
      && pdir == Others(pdir, slot, PDES_PER_PROCESS)
      && pageTables == Others(pageTables, slot, PDES_PER_PROCESS)
      && dataFrames == Others(dataFrames, slot, SLOT_PAGES)
    }

    /** Forks an address space copy-on-write: afterwards the child reads what it would if
        every page of the parent within the limit had been copied, and everyone else
        reads what they did. Without memory for a table nothing is kept. */
    method CowCopy(parent: nat, child: nat, dataLimit: nat) returns (r: Result<Unit, Errno>)
      requires Valid() && parent < 64 && 1 <= child < 64 && parent != child && Empty(child)
      requires parent == 0 ==> dataLimit <= ENTRIES_PER_TABLE * PAGE_SIZE
      modifies this, frames, frames.memMap
      ensures Valid() && loose == old(loose) && reserved == old(reserved)
      ensures r.Ok? ==>
        && Reads() == Copied(old(Reads()), parent * SLOT_PAGES, child * SLOT_PAGES, CopiedTables(dataLimit) * ENTRIES_PER_TABLE)
        && ForkReads(old(Reads()), Reads(), parent, child, dataLimit)
      ensures r.Err? ==>
        && r.error == NOMEM && Reads() == old(Reads()) && pdir == old(pdir) && pageTables == old(pageTables)
        && dataFrames == old(dataFrames) && frames.Counts() == old(frames.Counts())
      ensures r.Ok? <==> |FreeFrames(old(frames.Counts()))| >= |TablesBelow(old(pdir), parent, CopiedTables(dataLimit))|
      ensures Spends(old(frames.Counts()), frames.Counts(), CopiedTables(dataLimit))
      ensures Owners(pageTables) <= Owners(old(pageTables)) + {child}
      ensures SpoilsOnly(old(Present()), Present(), SlotPages(child))
    {
      hide Forked, ForkReads, EntriesBelow, PteAt, SpoilsOnly, SlotPages, Owners, Inv, FreeFrames, TablesBelow, View, PtesOf, Directory, Under, Others, Copied;
      ghost var m, tables, pd, pages := StateWith(pdir, pageTables), frames.tables, pdir, frames.pages;
      ghost var v0 := Reads();
      NothingForked(parent, child);
      EagerForks(v0, parent, child, dataLimit);
      NoTablesBelow(pd, parent);
      var pdeCount := CopiedTables(dataLimit);
      for i := 0 to pdeCount
        invariant Forked(m, pd, v0, parent, child, i) && loose == m.loose && reserved == m.reserved
        invariant |FreeFrames(m.counts)| == |FreeFrames(frames.Counts())| + |TablesBelow(pd, parent, i)|
      {
        TablesStep(pd, parent, i);
        TablesMonotone(pd, parent, i + 1, pdeCount);
        ParentEntry(m, pd, v0, parent, child, i);
        if parent * PDES_PER_PROCESS + i !in pdir {
          SkipTable(tables, pd, pages, parent, child, i);
          TableSkipped(m, pd, v0, parent, child, i);
        } else {
          var made := NextTable(m, pd, v0, parent, child, i);
          if !made {
            Unfork(m, pd, v0, parent, child, i);
            return Err(NOMEM);
          }
        }
      }
      TablesAtMost(pd, parent, pdeCount);
      Complete(m, pd, v0, parent, child, pdeCount);
      return Ok(Unit);
    }

    /** The first i tables of the parent are copied, since the state m with the directory pd,
        in which pages read v0. */
    ghost predicate Forked(m: Flat, pd: Handles, v0: map<nat, Page>, parent: nat, child: nat, i: nat)
      reads this, frames, frames.memMap
    {
      && Inv(m) && v0 == Others(v0, child, SLOT_PAGES) && (forall lp | lp in v0 :: Visible(lp))
      && Tied()
      && Reads() == Copied(v0, parent * SLOT_PAGES, child * SLOT_PAGES, i * ENTRIES_PER_TABLE)
      && Others(pdir, child, PDES_PER_PROCESS) == pd
      && Others(pageTables, child, PDES_PER_PROCESS) == m.pageTables
      && Others(dataFrames, child, SLOT_PAGES) == m.dataFrames
      && EntriesBelow(pageTables, child, i)
      && (stale ==> OwnsATable(pageTables, child))
      && SpoilsOnly(m.ptes, Present(), SlotPages(child))
    }

    lemma NothingForked(parent: nat, child: nat)
      requires Valid() && Empty(child)
      ensures Forked(StateWith(pdir, pageTables), pdir, Reads(), parent, child, 0)
      ensures Reads() == Others(Reads(), child, SLOT_PAGES)
    {
      hide SpoilsOnly, SlotPages, Inv, View, PtesOf, Directory, Under, Copied;
      EmptyReads(child);
      NoneSpoiled(Present(), SlotPages(child));
      NothingCopied(Reads(), parent * SLOT_PAGES, child * SLOT_PAGES);
    }

    /** The parent's entries are as they were, and the child's next one is free. */
    lemma ParentEntry(m: Flat, pd: Handles, v0: map<nat, Page>, parent: nat, child: nat, i: nat)
      requires Forked(m, pd, v0, parent, child, i) && parent != child && i < PDES_PER_PROCESS
      ensures parent * PDES_PER_PROCESS + i in pd <==> parent * PDES_PER_PROCESS + i in pdir
      ensures child * PDES_PER_PROCESS + i !in pageTables
    {
      hide SpoilsOnly, SlotPages, Inv, View, PtesOf, Directory, Under, Copied;
      SameParentEntry(pdir, pd, parent, child, i);
      FreshEntry(pageTables, child, i);
    }

    lemma TableSkipped(m: Flat, pd: Handles, v0: map<nat, Page>, parent: nat, child: nat, i: nat)
      requires Forked(m, pd, v0, parent, child, i)
      requires Copied(v0, parent * SLOT_PAGES, child * SLOT_PAGES, (i + 1) * ENTRIES_PER_TABLE)
            == Copied(v0, parent * SLOT_PAGES, child * SLOT_PAGES, i * ENTRIES_PER_TABLE)
      ensures Forked(m, pd, v0, parent, child, i + 1)
    {
      hide SpoilsOnly, SlotPages, Inv, View, PtesOf, Directory, Under, Others, Copied;
      EntriesRelaxed(pageTables, child, i);
    }

    /** Copies one more table, if there is a frame for it. */
    method NextTable(ghost m: Flat, ghost pd: Handles, ghost v0: map<nat, Page>, parent: nat, child: nat, i: nat) returns (made: bool)
      requires Forked(m, pd, v0, parent, child, i)
      requires parent < 64 && 1 <= child < 64 && parent != child && i < PDES_PER_PROCESS && (parent == 0 ==> i == 0)
      requires child * PDES_PER_PROCESS + i !in pageTables && parent * PDES_PER_PROCESS + i in pdir
      modifies this, frames, frames.memMap
      ensures loose == old(loose) && reserved == old(reserved)
      ensures Forked(m, pd, v0, parent, child, if made then i + 1 else i)
      ensures if made then |FreeFrames(old(frames.Counts()))| == |FreeFrames(frames.Counts())| + 1
              else FreeFrames(old(frames.Counts())) == {} && frames.Counts() == old(frames.Counts())
    {
      hide EntriesBelow, PteAt, SpoilsOnly, SlotPages, Inv, FreeFrames, View, PtesOf, Directory, Under, Others, Copied;
      var table := AllocFrame();
      if table.None? {
        return false;
      }
      ghost var pd', pt', ptes' := pdir, pageTables, Present();
      ForkTable(parent, child, i, table.value);
      SpoilsTrans(m.ptes, ptes', Present(), SlotPages(child), SlotPages(child));
      TableJoins(v0, parent, child, i);
      OthersKeep(pd', child, i, table.value);
      OthersKeep(pt', child, i, table.value);
      TableEntered(pt', child, i, table.value);
      return true;
    }

    /** Gives back what a fork has made so far. */
    method Unfork(ghost m: Flat, ghost pd: Handles, ghost v0: map<nat, Page>, parent: nat, child: nat, ghost i: nat)
      requires Forked(m, pd, v0, parent, child, i) && 1 <= child < 64 && loose == m.loose && reserved == m.reserved
      requires i <= PDES_PER_PROCESS
      modifies this, frames.memMap
      ensures Valid() && loose == old(loose) && reserved == old(reserved)
      ensures Reads() == v0 && pdir == pd && pageTables == m.pageTables && dataFrames == m.dataFrames
      ensures frames.Counts() == m.counts && SpoilsOnly(m.ptes, Present(), SlotPages(child))
    {
      hide EntriesBelow, PteAt, SpoilsOnly, SlotPages, Inv, FreeFrames, View, PtesOf, Directory, Under, Others, Copied;
      OthersSpoil(m.ptes, Present(), child, SlotPages(child));
      DropSpace(child);
      Undone(v0, parent, child, i * ENTRIES_PER_TABLE);
      CountsDetermined(m, StateWith(pdir, pageTables));
    }

    /** Flushes after the last table. */
    method Complete(ghost m: Flat, ghost pd: Handles, ghost v0: map<nat, Page>, ghost parent: nat, ghost child: nat, ghost n: nat)
      requires Forked(m, pd, v0, parent, child, n)
      modifies this`stale
      ensures Valid() && Reads() == Copied(v0, parent * SLOT_PAGES, child * SLOT_PAGES, n * ENTRIES_PER_TABLE)
      ensures Owners(pageTables) <= Owners(m.pageTables) + {child} && SpoilsOnly(m.ptes, Present(), SlotPages(child))
    {
      hide EntriesBelow, PteAt, SpoilsOnly, SlotPages, Owners, Inv, FreeFrames, View, PtesOf, Directory, Under, Others, Copied;
      OneMoreOwner(pageTables, child);
      InvalidateTlb();
    }

    // ----- runs -----

    /** A user instruction writes a page: a write-protected page faults and is made
        writable first; an absent page is left to the other fault handler. */
    method Store(slot: nat, lp: nat, page: Page) returns (done: bool)
      requires Valid() && 1 <= slot < 64 && SlotOf(lp) == slot
      modifies this, frames, frames.memMap
      ensures Valid() && loose == old(loose)
      ensures Reads() == if done then old(Reads())[lp := page] else old(Reads())
      ensures done ==> lp in old(Reads()) && lp in Present() && Present()[lp].dirty
      ensures !done ==> lp !in old(Reads()) || FreeFrames(old(frames.Counts())) == {}
      ensures Spends(old(frames.Counts()), frames.Counts(), 1)
      ensures pageTables == old(pageTables) && SpoilsOnly(old(Present()), Present(), {lp})
    {
      hide Inv, FreeFrames, View, PtesOf, Directory;
      UserPage(slot, lp);
      PresentReads(lp);
      var pte := GetPte(slot, lp);
      if pte.None? {
        NoTable(lp);
        return false;
      }
      if !pte.value.present {
        return false;
      }
      if !pte.value.writable {
        var split := EnsurePageWritable(slot, lp);
        if split.Err? {
          return false;
        }
      }
      EntryTable(lp);
      WriteThrough(lp, page);
      return true;
    }

    /** The processor writes through a writable entry and marks it. */
    method WriteThrough(lp: nat, page: Page)
      requires Valid() && IsUser(lp) && lp in Present() && Present()[lp].writable && lp / ENTRIES_PER_TABLE in pdir
      modifies frames`pages, frames`tables
      ensures Valid() && Reads() == old(Reads())[lp := page] && frames.Counts() == old(frames.Counts())
      ensures lp in Present() && Present()[lp].dirty
      ensures SpoilsOnly(old(Present()), Present(), {lp})
    {
      hide Inv, PtesOf, Directory, View;
      ghost var m := StateWith(pdir, pageTables);
      var t, k := pdir[lp / ENTRIES_PER_TABLE], lp % ENTRIES_PER_TABLE;
      TableOf(lp);
      EntryTable(lp);
      EntryIs(lp);
      var pte := frames.tables[t][k].(dirty := true);
      Dirtied(m, lp, pte);
      OneEntryWritten(m, frames.tables, pdir, lp, pte);
      ViewSame(m.ptes, frames.pages, lp, pte);
      StoreKeeps(m.(ptes := m.ptes[lp := pte]), frames.pages, lp, page);
      frames.pages := frames.pages[pte.ppn := page];
      frames.tables := frames.tables[t := frames.tables[t][k := pte]];
      assert StateWith(pdir, pageTables) == m.(ptes := m.ptes[lp := pte]);
    }

    lemma EntryIs(lp: nat)
      requires ValidWith(pdir, pageTables) && lp in Present()
      ensures lp / ENTRIES_PER_TABLE in pdir && pdir[lp / ENTRIES_PER_TABLE] in frames.tables
      ensures Present()[lp] == frames.tables[pdir[lp / ENTRIES_PER_TABLE]][lp % ENTRIES_PER_TABLE]
    {
      hide Inv;
    }

    /** Demand-loads a page: a frame is filled first and then mapped. */
    method LoadPage(slot: nat, lp: nat, page: Page) returns (done: bool)
      requires Valid() && 1 <= slot < 64 && SlotOf(lp) == slot
      modifies this, frames, frames.memMap
      ensures Valid() && loose == old(loose)
      ensures Reads() == if done then old(Reads())[lp := page] else old(Reads())
      ensures done ==> lp !in old(Reads())
      ensures !done ==> lp in old(Reads()) || |FreeFrames(old(frames.Counts()))| <= 1
      ensures Spends(old(frames.Counts()), frames.Counts(), 2)
      ensures Owners(pageTables) <= Owners(old(pageTables)) + {slot} && SpoilsOnly(old(Present()), Present(), {})
    {
      hide Inv, FreeFrames, View, PtesOf, Directory;
      var frame := AllocFrame();
      if frame.None? {
        return false;
      }
      FillLoose(frame.value, page);
      var mapped := MapPage(slot, lp, frame);
      return mapped.Ok?;
    }

    method FillLoose(f: nat, page: Page)
      requires Valid() && f in loose
      modifies frames`pages
      ensures Valid() && Reads() == old(Reads()) && frames.pages == old(frames.pages)[f := page]
      ensures Present() == old(Present()) && frames.Counts() == old(frames.Counts())
    {
      hide Inv, PtesOf, Directory, View;
      LooseUnshown(StateWith(pdir, pageTables), f);
      ViewUnshown(Present(), frames.pages, f, page);
      frames.pages := frames.pages[f := page];
    }

    /** Why an operation is not carried out: too few free frames, a page that is there
        already, or nothing that could be shared or written. */
    ghost predicate Refused(op: Op)
      reads this, frames, frames.memMap
    {
      var free := |FreeFrames(frames.Counts())|;
      match op
      case Zero(_, _) => free <= 1
      case Load(_, lp, _) => lp in Reads() || free <= 1
      case Fork(parent, child, limit) =>
        || Span(pageTables, child * PDES_PER_PROCESS, PDES_PER_PROCESS) != {}
        || free < |TablesBelow(pdir, parent, CopiedTables(limit))|
      case Share(slot, source, i, k) =>
        var src := PageOf(source, i, k);
        || src !in Present() || Present()[src].dirty || !Tracked(Present()[src].ppn)
        || PageOf(slot, i, k) in Reads() || free == 0
      case Write(_, lp, _) => lp !in Reads() || free == 0
      case Drop(_) => false
    }

    method Step(op: Op) returns (done: bool)
      requires Valid() && op.Possible()
      modifies this, frames, frames.memMap
      ensures Valid() && loose == old(loose)
      ensures Reads() == if done then Eager(old(Reads()), op) else old(Reads())
      ensures !done ==> old(Refused(op))
      ensures Moves(op, old(Books()), Books())
    {
      hide Inv, FreeFrames, View, PtesOf, Directory, Copied, Others;
      match op {
        case Zero(slot, lp) =>
          var r := MapPage(slot, lp, None);
          return r.Ok?;
        case Load(slot, lp, page) =>
          done := LoadPage(slot, lp, page);
        case Fork(parent, child, limit) =>
          var taken := OwnsTables(child);
          if taken {
            return false;
          }
          NothingToDrop(child);
          var r := CowCopy(parent, child, limit);
          return r.Ok?;
        case Share(slot, source, i, k) =>
          var r := TryShareLocalPageFrom(slot, source, i, k);
          return r == Ok(true);
        case Write(slot, lp, page) =>
          done := Store(slot, lp, page);
        case Drop(slot) =>
          OwnersLeft(pageTables, slot);
          SpoiledLeft(Present(), slot);
          DropSpace(slot);
          return true;
      }
    }

    /** What refusals depend on, besides what the pages read. */
    ghost function Books(): Ledger
      reads this, frames, frames.memMap
    {
      Ledger(|FreeFrames(frames.Counts())|, Owners(pageTables), SpoiledPages(Present()))
    }

    lemma RefusedByBooks(op: Op)
      requires Valid() && op.Possible() && Refused(op)
      ensures Refuses(op, Reads(), Books())
    {
      hide Inv, FreeFrames, View, PtesOf, Directory, TablesBelow;
      match op
      case Fork(parent, child, limit) =>
        TablesAtMost(pdir, parent, CopiedTables(limit));
        SpanOwner(pageTables, child);
      case Share(slot, source, i, k) =>
        PagesOf(source, slot, i, k);
        UserPage(source, PageOf(source, i, k));
        PresentReads(PageOf(source, i, k));
      case _ =>
    }

    /** Over every run, each page reads exactly what it would if forks and shares had copied
        every page, and an operation is refused only for a cause, be it in what the pages
        read or in books that start as they are and move with the operations. */
    method Run(ops: seq<Op>) returns (done: seq<bool>, ghost books: seq<Ledger>)
      requires Valid() && forall i | 0 <= i < |ops| :: ops[i].Possible()
      modifies this, frames, frames.memMap
      ensures Valid() && |done| == |ops|
      ensures Reads() == EagerRun(old(Reads()), ops, done)
      ensures Kept(ops, books) && books[0] == old(Books()) && books[|ops|] == Books()
      ensures forall i | 0 <= i < |ops| && !done[i] ::
                Refuses(ops[i], EagerRun(old(Reads()), ops[..i], done[..i]), books[i])
    {
      hide Inv, FreeFrames, View, PtesOf, Directory, Eager, Refused, Refuses, Moves, Books, EagerRun;
      NoOps(Reads());
      done, books := [], [Books()];
      for i := 0 to |ops|
        invariant Valid() && |done| == i && |books| == i + 1
        invariant Reads() == EagerRun(old(Reads()), ops[..i], done)
        invariant books[0] == old(Books()) && books[i] == Books()
        invariant forall j | 0 <= j < i :: Moves(ops[j], books[j], books[j + 1])
        invariant forall j | 0 <= j < i && !done[j] ::
                    Refuses(ops[j], EagerRun(old(Reads()), ops[..j], done[..j]), books[j])
      {
        if Refused(ops[i]) { RefusedByBooks(ops[i]); }
        var d := Step(ops[i]);
        RunStep(old(Reads()), ops[..i], done, ops[i], d);
        assert ops[..i + 1] == ops[..i] + [ops[i]];
        assert (done + [d])[..i] == done;
        assert forall j | 0 <= j < i :: (done + [d])[..j] == done[..j];
        done, books := done + [d], books + [Books()];
      }
      assert ops[..|ops|] == ops;
    }
  }

  /** What can happen to the user pages. */
  datatype Op =
    | Zero(slot: nat, lp: nat)
    | Load(slot: nat, lp: nat, page: Page)
    | Fork(parent: nat, child: nat, limit: nat)
    | Share(slot: nat, source: nat, pdeOffset: nat, pteIndex: nat)
    | Write(slot: nat, lp: nat, page: Page)
    | Drop(slot: nat)
  {
    /** The slots are those of tasks, and pages lie in their slot. */
    predicate Possible() {
      match this
      case Zero(slot, lp) => 1 <= slot < 64 && SlotOf(lp) == slot
      case Load(slot, lp, _) => 1 <= slot < 64 && SlotOf(lp) == slot
      case Fork(parent, child, limit) =>
        parent < 64 && 1 <= child < 64 && parent != child && (parent == 0 ==> limit <= ENTRIES_PER_TABLE * PAGE_SIZE)
      case Share(slot, source, i, k) =>
        1 <= slot < 64 && 1 <= source < 64 && slot != source && i < PDES_PER_PROCESS && k < ENTRIES_PER_TABLE
      case Write(slot, lp, _) => 1 <= slot < 64 && SlotOf(lp) == slot
      case Drop(slot) => 1 <= slot < 64
    }
  }

  /** What a completed operation does in a kernel that copies pages at once. */
  ghost function Eager(view: map<nat, Page>, op: Op): map<nat, Page>
  {
    match op
    case Zero(_, lp) => if lp in view then view else view[lp := ZeroPage()]
    case Load(_, lp, page) => view[lp := page]
    case Fork(parent, child, limit) =>
      Copied(view, parent * SLOT_PAGES, child * SLOT_PAGES, CopiedTables(limit) * ENTRIES_PER_TABLE)
    case Share(slot, source, i, k) => CopiedPage(view, PageOf(source, i, k), PageOf(slot, i, k))
    case Write(_, lp, page) => view[lp := page]
    case Drop(slot) => Others(view, slot, SLOT_PAGES)
  }

  ghost function EagerRun(view: map<nat, Page>, ops: seq<Op>, done: seq<bool>): map<nat, Page>
    requires |done| == |ops|
    decreases |ops|
  {
    if ops == [] then view
    else EagerRun(if done[0] then Eager(view, ops[0]) else view, ops[1..], done[1..])
  }

  lemma NoOps(view: map<nat, Page>)
    ensures EagerRun(view, [], []) == view
  {
  }

  /** The free frames, the slots that own tables, and the pages that are not shared. */
  datatype Ledger = Ledger(free: nat, owners: set<nat>, spoiled: set<nat>)

  /** How many frames an operation takes at most. */
  function FramesOf(op: Op): nat
  {
    match op
    case Zero(_, _) => 2
    case Load(_, _, _) => 2
    case Fork(_, _, limit) => CopiedTables(limit)
    case Share(_, _, _, _) => 1
    case Write(_, _, _) => 1
    case Drop(_) => 0
  }

  /** How far the books can move, whether the operation is carried out or refused. */
  ghost predicate Moves(op: Op, b: Ledger, b': Ledger)
  {
    && b.free <= b'.free + FramesOf(op)
    && b'.owners <= (match op
                     case Zero(slot, _) => b.owners + {slot}
                     case Load(slot, _, _) => b.owners + {slot}
                     case Fork(_, child, _) => b.owners + {child}
                     case Share(slot, _, _, _) => b.owners + {slot}
                     case Write(_, _, _) => b.owners
                     case Drop(slot) => b.owners - {slot})
    && b'.spoiled <= (match op
                      case Write(_, lp, _) => b.spoiled + {lp}
                      case Fork(_, child, _) => b.spoiled + SlotPages(child)
                      case Drop(slot) => b.spoiled - SlotPages(slot)
                      case _ => b.spoiled)
  }

  /** Books that move with the operations of a run. */
  ghost predicate Kept(ops: seq<Op>, books: seq<Ledger>)
  {
    |books| == |ops| + 1 && forall i | 0 <= i < |ops| :: Moves(ops[i], books[i], books[i + 1])
  }

  /** The causes for which an operation is refused: too few free frames, or what it asks
      for is there already, or missing, or not to be shared. */
  ghost predicate Refuses(op: Op, view: map<nat, Page>, b: Ledger)
  {
    || b.free < FramesOf(op)
    || match op
       case Load(_, lp, _) => lp in view
       case Fork(_, child, _) => child in b.owners
       case Share(slot, source, i, k) =>
         PageOf(source, i, k) !in view || PageOf(source, i, k) in b.spoiled || PageOf(slot, i, k) in view
       case Write(_, lp, _) => lp !in view
       case _ => false
  }

  /** The frames that operations take at most together. */
  function FramesOfAll(ops: seq<Op>): nat
  {
    if ops == [] then 0 else FramesOfAll(ops[..|ops| - 1]) + FramesOf(ops[|ops| - 1])
  }

  /** With that many free frames at the start no operation is refused for lack of memory. */
  lemma {:induction false} NeverShortOfFrames(ops: seq<Op>, books: seq<Ledger>)
    requires Kept(ops, books) && books[0].free >= FramesOfAll(ops)
    ensures forall i | 0 <= i < |ops| :: books[i].free >= FramesOf(ops[i])
    ensures books[|ops|].free + FramesOfAll(ops) >= books[0].free
  {
    if ops != [] {
      var k := |ops| - 1;
      NeverShortOfFrames(ops[..k], books[..k + 1]);
      assert Moves(ops[k], books[k], books[k + 1]);
      forall i | 0 <= i < k ensures books[i].free >= FramesOf(ops[i]) {
        assert ops[..k][i] == ops[i] && books[..k + 1][i] == books[i];
      }
    }
  }

  lemma {:induction false} RunStep(view: map<nat, Page>, ops: seq<Op>, done: seq<bool>, op: Op, d: bool)
    requires |done| == |ops|
    ensures EagerRun(view, ops + [op], done + [d])
         == if d then Eager(EagerRun(view, ops, done), op) else EagerRun(view, ops, done)
    decreases |ops|
  {
    hide Eager;
    if ops == [] {
      assert (ops + [op])[1..] == [] && (done + [d])[1..] == [];
    } else {
      assert (ops + [op])[1..] == ops[1..] + [op] && (done + [d])[1..] == done[1..] + [d];
      RunStep(if done[0] then Eager(view, ops[0]) else view, ops[1..], done[1..], op, d);
    }
  }

  // ----- what sharing looks at -----

  /** The slots that own tables. */
  ghost function Owners(pt: Handles): set<nat> { set i | i in pt :: i / PDES_PER_PROCESS }

  /** An entry that is not shared: a dirty one, or one of memory that is not tracked. */
  predicate Spoiled(pte: Pte) { pte.dirty || !Tracked(pte.ppn) }

  /** The present pages with such an entry. */
  ghost function SpoiledPages(ptes: Ptes): set<nat> { set lp | lp in ptes && Spoiled(ptes[lp]) }

  /** No page but the given ones has come to have such an entry. */
  ghost predicate SpoilsOnly(ptes: Ptes, ptes': Ptes, lps: set<nat>) { SpoiledPages(ptes') <= SpoiledPages(ptes) + lps }

  ghost function SlotPages(slot: nat): set<nat> { set lp | 0 <= lp < LINEAR_PAGES && SlotOf(lp) == slot }

  lemma EntrySpoils(ptes: Ptes, lp: nat, pte: Pte)
    ensures SpoilsOnly(ptes, ptes[lp := pte], {lp})
    ensures !Spoiled(pte) || (lp in ptes && Spoiled(ptes[lp])) ==> SpoilsOnly(ptes, ptes[lp := pte], {})
  {
  }

  lemma NoneSpoiled(ptes: Ptes, lps: set<nat>)
    ensures SpoilsOnly(ptes, ptes, lps)
  {
  }

  lemma OthersSpoil(ptes: Ptes, ptes': Ptes, slot: nat, lps: set<nat>)
    requires SpoilsOnly(ptes, ptes', lps)
    ensures SpoilsOnly(ptes, Others(ptes', slot, SLOT_PAGES), lps)
  {
  }

  lemma OwnersLeft(pt: Handles, slot: nat)
    ensures Owners(Others(pt, slot, PDES_PER_PROCESS)) <= Owners(pt) - {slot}
  {
  }

  lemma SpoiledLeft(ptes: Ptes, slot: nat)
    ensures SpoiledPages(Others(ptes, slot, SLOT_PAGES)) <= SpoiledPages(ptes) - SlotPages(slot)
  {
  }

  lemma SpanOwner(pt: Handles, slot: nat)
    ensures Span(pt, slot * PDES_PER_PROCESS, PDES_PER_PROCESS) != {} ==> slot in Owners(pt)
  {
    if i :| i in Span(pt, slot * PDES_PER_PROCESS, PDES_PER_PROCESS) { InSlot(i, slot, PDES_PER_PROCESS); }
  }

  lemma OneMoreOwner(pt: Handles, slot: nat)
    ensures Owners(pt) <= Owners(Others(pt, slot, PDES_PER_PROCESS)) + {slot}
  {
    forall i | i in pt && i / PDES_PER_PROCESS != slot
      ensures i / PDES_PER_PROCESS in Owners(Others(pt, slot, PDES_PER_PROCESS))
    {
      assert i in Others(pt, slot, PDES_PER_PROCESS);
    }
  }

  lemma SpoilsTrans(ptes: Ptes, ptes': Ptes, ptes'': Ptes, lps: set<nat>, more: set<nat>)
    requires SpoilsOnly(ptes, ptes', more) && SpoilsOnly(ptes', ptes'', lps) && more <= lps
    ensures SpoilsOnly(ptes, ptes'', lps)
  {
  }

  lemma LooseUnshown(m: Flat, f: nat)
    requires Inv(m) && f in m.loose
    ensures Tracked(f) && forall lp | lp in m.ptes && Visible(lp) :: m.ptes[lp].ppn != f
  {
  }

  /** How many page tables a fork copies for a data limit. */
  function CopiedTables(dataLimit: nat): (n: nat)
    ensures n <= PDES_PER_PROCESS
  {
    Min((dataLimit + 0x3F_FFFF) / 0x40_0000, PDES_PER_PROCESS)
  }

  /** How many entries of each table a fork copies: task 0 gives its first 640 KB. */
  function TableEntries(parent: nat): nat
  {
    if parent == 0 then TASK0_PAGE_COUNT else ENTRIES_PER_TABLE
  }

  ghost predicate OwnsATable(pt: Handles, slot: nat)
  {
    exists i :: i in pt && i / PDES_PER_PROCESS == slot
  }

  /** The slot's tables are among its first n. */
  ghost predicate EntriesBelow(pt: Handles, slot: nat, n: nat)
  {
    forall i | i in pt && i / PDES_PER_PROCESS == slot :: i < slot * PDES_PER_PROCESS + n
  }

  /** The tables a slot has among its first n entries: each costs a fork one frame. */
  ghost function TablesBelow(pd: Handles, slot: nat, n: nat): set<nat>
  {
    set i: nat | i < n && HasTable(pd, slot, i)
  }

  predicate HasTable(pd: Handles, slot: nat, i: nat) { slot * PDES_PER_PROCESS + i in pd }

  lemma TablesStep(pd: Handles, slot: nat, n: nat)
    ensures |TablesBelow(pd, slot, n + 1)|
         == |TablesBelow(pd, slot, n)| + if slot * PDES_PER_PROCESS + n in pd then 1 else 0
  {
    assert TablesBelow(pd, slot, n + 1)
        == TablesBelow(pd, slot, n) + if slot * PDES_PER_PROCESS + n in pd then {n} else {};
  }

  lemma TablesMonotone(pd: Handles, slot: nat, n: nat, m: nat)
    requires n <= m
    ensures |TablesBelow(pd, slot, n)| <= |TablesBelow(pd, slot, m)|
  {
    SubsetCard(TablesBelow(pd, slot, n), TablesBelow(pd, slot, m));
  }

  lemma {:induction false} TablesAtMost(pd: Handles, slot: nat, n: nat)
    ensures |TablesBelow(pd, slot, n)| <= n
  {
    if n == 0 {
      NoTablesBelow(pd, slot);
    } else {
      TablesStep(pd, slot, n - 1);
      TablesAtMost(pd, slot, n - 1);
    }
  }

  lemma NoTablesBelow(pd: Handles, slot: nat)
    ensures |TablesBelow(pd, slot, 0)| == 0
  {
  }

  lemma EntriesRelaxed(pt: Handles, slot: nat, n: nat)
    requires EntriesBelow(pt, slot, n)
    ensures EntriesBelow(pt, slot, n + 1)
  {
  }

  lemma FreshEntry(pt: Handles, child: nat, i: nat)
    requires EntriesBelow(pt, child, i) && i < PDES_PER_PROCESS
    ensures child * PDES_PER_PROCESS + i !in pt
  {
    assert (child * PDES_PER_PROCESS + i) / PDES_PER_PROCESS == child;
  }

  /** Entering the child's table i. */
  lemma TableEntered(pt: Handles, child: nat, i: nat, t: nat)
    requires EntriesBelow(pt, child, i) && i < PDES_PER_PROCESS
    ensures var pt' := pt[child * PDES_PER_PROCESS + i := t];
      && EntriesBelow(pt', child, i + 1) && OwnsATable(pt', child)
  {
    var entry := child * PDES_PER_PROCESS + i;
    assert entry / PDES_PER_PROCESS == child && entry in pt[entry := t];
  }

  /** ... changes nothing of the other slots. */
  lemma OthersKeep(pd: Handles, child: nat, i: nat, t: nat)
    requires i < PDES_PER_PROCESS
    ensures Others(pd[child * PDES_PER_PROCESS + i := t], child, PDES_PER_PROCESS) == Others(pd, child, PDES_PER_PROCESS)
  {
    assert (child * PDES_PER_PROCESS + i) / PDES_PER_PROCESS == child;
  }

  lemma SameParentEntry(pd: Handles, pd0: Handles, parent: nat, child: nat, i: nat)
    requires Others(pd, child, PDES_PER_PROCESS) == pd0 && parent != child && i < PDES_PER_PROCESS
    ensures parent * PDES_PER_PROCESS + i in pd <==> parent * PDES_PER_PROCESS + i in pd0
  {
    assert (parent * PDES_PER_PROCESS + i) / PDES_PER_PROCESS == parent;
  }

  lemma DirectoryGrows(pd: Handles, pt: Handles, i: nat, t: nat)
    requires Directory(pd, pt) && PDES_PER_PROCESS <= i < PDES
    ensures Directory(pd[i := t], pt[i := t])
  {
  }

  lemma TablesInMemory(m: Flat, pd: Handles, i: nat)
    requires Inv(m) && Directory(pd, m.pageTables) && i in pd
    ensures pd[i] < END_PPN
  {
  }

  lemma NoTableNoPage(tables: Tables, pd: Handles, pages: map<nat, Page>, lp: nat)
    requires lp / ENTRIES_PER_TABLE !in pd
    ensures lp !in View(PtesOf(tables, pd), pages)
  {
  }

  /** A table the parent lacks holds no pages to copy. */
  lemma SkipTable(tables: Tables, pd: Handles, pages: map<nat, Page>, parent: nat, child: nat, i: nat)
    requires parent * PDES_PER_PROCESS + i !in pd
    ensures var v := View(PtesOf(tables, pd), pages);
      Copied(v, parent * SLOT_PAGES, child * SLOT_PAGES, (i + 1) * ENTRIES_PER_TABLE)
        == Copied(v, parent * SLOT_PAGES, child * SLOT_PAGES, i * ENTRIES_PER_TABLE)
  {
    hide View, PtesOf, Copied;
    var v := View(PtesOf(tables, pd), pages);
    var lo := parent * SLOT_PAGES + i * ENTRIES_PER_TABLE;
    forall lp: nat | lo <= lp < lo + ENTRIES_PER_TABLE ensures lp !in v {
      InSlot(lp, parent * PDES_PER_PROCESS + i, ENTRIES_PER_TABLE);
      NoTableNoPage(tables, pd, pages, lp);
    }
    CopiedSkip(v, parent * SLOT_PAGES, child * SLOT_PAGES, i * ENTRIES_PER_TABLE, ENTRIES_PER_TABLE);
  }

  /** The copies of one more table join those made before. */
  lemma TableJoins(view: map<nat, Page>, parent: nat, child: nat, i: nat)
    requires parent < 64 && 1 <= child < 64 && parent != child && i < PDES_PER_PROCESS && (parent == 0 ==> i == 0)
    requires forall lp | lp in view :: Visible(lp)
    ensures Copied(Copied(view, parent * SLOT_PAGES, child * SLOT_PAGES, i * ENTRIES_PER_TABLE),
                   PageOf(parent, i, 0), PageOf(child, i, 0), TableEntries(parent))
         == Copied(view, parent * SLOT_PAGES, child * SLOT_PAGES, (i + 1) * ENTRIES_PER_TABLE)
  {
    hide Copied;
    var src, dst, n := parent * SLOT_PAGES, child * SLOT_PAGES, i * ENTRIES_PER_TABLE;
    assert PageOf(parent, i, 0) == src + n && PageOf(child, i, 0) == dst + n;
    CopiedTwice(view, src, dst, n, TableEntries(parent));
    if parent == 0 {
      CopiedSkip(view, src, dst, TASK0_PAGE_COUNT, ENTRIES_PER_TABLE - TASK0_PAGE_COUNT);
    }
  }

  /** Without the child's pages everything reads as before. */
  lemma Undone(view: map<nat, Page>, parent: nat, child: nat, n: nat)
    requires view == Others(view, child, SLOT_PAGES) && n <= SLOT_PAGES
    ensures Others(Copied(view, parent * SLOT_PAGES, child * SLOT_PAGES, n), child, SLOT_PAGES) == view
  {
    var v := Copied(view, parent * SLOT_PAGES, child * SLOT_PAGES, n);
    forall lp: nat | IsCopy(view, parent * SLOT_PAGES, child * SLOT_PAGES, n, lp) ensures lp / SLOT_PAGES == child {
      InSlot(lp, child, SLOT_PAGES);
    }
    assert forall k | k in Others(view, child, SLOT_PAGES) :: k / SLOT_PAGES != child;
  }

  /** The handles determine the counts. */
  lemma CountsDetermined(m: Flat, m': Flat)
    requires Inv(m) && Inv(m') && m'.pageTables == m.pageTables && m'.dataFrames == m.dataFrames
    requires m'.loose == m.loose && m'.reserved == m.reserved
    ensures m'.counts == m.counts
  {
    forall k | 0 <= k < PAGING_PAGES ensures m'.counts[k] == m.counts[k] {
      assert Tracked(k + UNPAGED_PAGES) && Index(k + UNPAGED_PAGES) == k;
    }
  }

  /** Page lp is the copy of a page that can be read, n pages from src on going to dst. */
  ghost predicate IsCopy(view: map<nat, Page>, src: nat, dst: nat, n: nat, lp: nat)
  {
    dst <= lp < dst + n && lp - dst + src in view
  }

  ghost function Copies(view: map<nat, Page>, src: nat, dst: nat, n: nat): (r: set<nat>)
    ensures forall lp: nat :: lp in r <==> IsCopy(view, src, dst, n, lp)
  {
    set lp: nat | lp < dst + n && IsCopy(view, src, dst, n, lp)
  }

  /** What is read once n pages from dst on show copies of those from src on. */
  ghost function Copied(view: map<nat, Page>, src: nat, dst: nat, n: nat): map<nat, Page>
  {
    map lp | lp in view.Keys + Copies(view, src, dst, n) ::
      if IsCopy(view, src, dst, n, lp) then view[lp - dst + src] else view[lp]
  }

  /** A fork as its pages show it. The child has exactly those pages of the parent that lie in
      a stretch of 4 MB which begins below the limit, each reading as the parent's did; the
      pages of all other slots are as they were. */
  ghost predicate ForkReads(view: map<nat, Page>, view': map<nat, Page>, parent: nat, child: nat, limit: nat)
  {
    && (forall lp: nat | lp / SLOT_PAGES != child :: SamePage(view, view', lp))
    && (forall j: nat | j < SLOT_PAGES :: ForkedPage(view, view', parent * SLOT_PAGES + j, child * SLOT_PAGES + j, j / 1024 * 0x40_0000 < limit))
  }

  predicate SamePage(view: map<nat, Page>, view': map<nat, Page>, lp: nat)
  {
    (lp in view' <==> lp in view) && (lp in view ==> view'[lp] == view[lp])
  }

  predicate ForkedPage(view: map<nat, Page>, view': map<nat, Page>, from: nat, to: nat, within: bool)
  {
    (to in view' <==> from in view && within) && (to in view' ==> view'[to] == view[from])
  }

  /** Every page of the parent below the limit is among them. */
  lemma ForkedBelowLimit(view: map<nat, Page>, view': map<nat, Page>, parent: nat, child: nat, limit: nat, j: nat)
    requires ForkReads(view, view', parent, child, limit) && j < SLOT_PAGES && j * PAGE_SIZE < limit
    requires parent * SLOT_PAGES + j in view
    ensures child * SLOT_PAGES + j in view' && view'[child * SLOT_PAGES + j] == view[parent * SLOT_PAGES + j]
  {
    assert ForkedPage(view, view', parent * SLOT_PAGES + j, child * SLOT_PAGES + j, j / 1024 * 0x40_0000 < limit);
  }

  /** What the other operations do to each page. */
  lemma EagerActs(view: map<nat, Page>, op: Op, lp: nat)
    requires op.Possible() && !op.Fork?
    ensures var view' := Eager(view, op);
      match op
      case Zero(_, p) =>
        if lp == p && p !in view then p in view' && forall i | 0 <= i < PAGE_SIZE :: view'[p][i] == 0 else SamePage(view, view', lp)
      case Load(_, p, page) => if lp == p then p in view' && view'[p] == page else SamePage(view, view', lp)
      case Write(_, p, page) => if lp == p then p in view' && view'[p] == page else SamePage(view, view', lp)
      case Share(slot, source, i, k) =>
        var from, to := source * SLOT_PAGES + i * 1024 + k, slot * SLOT_PAGES + i * 1024 + k;
        if lp == to && from in view then to in view' && view'[to] == view[from] else SamePage(view, view', lp)
      case Drop(slot) => if lp / SLOT_PAGES == slot then lp !in view' else SamePage(view, view', lp)
      case Fork(_, _, _) => true
  {
    if op.Share? { PagesOf(op.slot, op.source, op.pdeOffset, op.pteIndex); PagesOf(op.source, op.slot, op.pdeOffset, op.pteIndex); }
  }

  /** Copying at once into an empty slot does the same. */
  lemma EagerForks(view: map<nat, Page>, parent: nat, child: nat, limit: nat)
    requires view == Others(view, child, SLOT_PAGES)
    ensures ForkReads(view, Eager(view, Fork(parent, child, limit)), parent, child, limit)
  {
    hide Copied, Others;
    var view' := Eager(view, Fork(parent, child, limit));
    forall lp: nat | lp / SLOT_PAGES != child ensures SamePage(view, view', lp) {
      ElsewhereSame(view, parent, child, limit, lp);
    }
    forall j: nat | j < SLOT_PAGES
      ensures ForkedPage(view, view', parent * SLOT_PAGES + j, child * SLOT_PAGES + j, j / 1024 * 0x40_0000 < limit)
    {
      PageForked(view, parent, child, limit, j);
    }
  }

  lemma ElsewhereSame(view: map<nat, Page>, parent: nat, child: nat, limit: nat, lp: nat)
    requires lp / SLOT_PAGES != child
    ensures SamePage(view, Eager(view, Fork(parent, child, limit)), lp)
  {
    var dst := child * SLOT_PAGES;
    if dst <= lp < dst + CopiedTables(limit) * ENTRIES_PER_TABLE { InSlot(lp, child, SLOT_PAGES); }
    assert !IsCopy(view, parent * SLOT_PAGES, dst, CopiedTables(limit) * ENTRIES_PER_TABLE, lp);
  }

  lemma PageForked(view: map<nat, Page>, parent: nat, child: nat, limit: nat, j: nat)
    requires view == Others(view, child, SLOT_PAGES) && j < SLOT_PAGES
    ensures ForkedPage(view, Eager(view, Fork(parent, child, limit)), parent * SLOT_PAGES + j, child * SLOT_PAGES + j,
                       j / 1024 * 0x40_0000 < limit)
  {
    var src, dst, n := parent * SLOT_PAGES, child * SLOT_PAGES, CopiedTables(limit) * ENTRIES_PER_TABLE;
    InSlot(dst + j, child, SLOT_PAGES);
    TablesCover(limit, j);
    assert dst + j !in view;
    assert IsCopy(view, src, dst, n, dst + j) <==> src + j in view && j < n;
  }

  lemma TablesCover(limit: nat, j: nat)
    requires j < SLOT_PAGES
    ensures j < CopiedTables(limit) * ENTRIES_PER_TABLE <==> j / 1024 * 0x40_0000 < limit
  {
  }

  lemma NothingCopied(view: map<nat, Page>, src: nat, dst: nat)
    ensures Copied(view, src, dst, 0) == view
  {
  }

  lemma CopiedStep(view: map<nat, Page>, src: nat, dst: nat, n: nat)
    requires src + n < dst || dst + n <= src
    ensures Copied(view, src, dst, n + 1) == CopiedPage(Copied(view, src, dst, n), src + n, dst + n)
  {
  }

  lemma CopiedSkip(view: map<nat, Page>, src: nat, dst: nat, n: nat, more: nat)
    requires forall lp: nat | src + n <= lp < src + n + more :: lp !in view
    ensures Copied(view, src, dst, n + more) == Copied(view, src, dst, n)
  {
  }

  lemma CopiedTwice(view: map<nat, Page>, src: nat, dst: nat, n: nat, more: nat)
    requires src + n + more <= dst || dst + n + more <= src
    ensures Copied(Copied(view, src, dst, n), src + n, dst + n, more) == Copied(view, src, dst, n + more)
  {
    var v := Copied(view, src, dst, n);
    forall lp: nat {:trigger IsCopy(v, src + n, dst + n, more, lp)}
      ensures IsCopy(v, src + n, dst + n, more, lp) <==> dst + n <= lp < dst + n + more && lp - dst + src in view
    {
    }
  }

  lemma NotYetThere(ptes: Ptes, child: nat, i: nat, j: nat)
    requires i < PDES_PER_PROCESS && j < ENTRIES_PER_TABLE && Under(ptes, child * PDES_PER_PROCESS + i) == {}
    ensures PageOf(child, i, j) !in ptes
  {
    PagesOf(child, child, i, j);
    assert PageOf(child, i, j) !in Under(ptes, child * PDES_PER_PROCESS + i);
  }

  lemma ForkPages(parent: nat, child: nat, i: nat, j: nat)
    requires parent < 64 && 1 <= child < 64 && parent != child && i < PDES_PER_PROCESS && j < ENTRIES_PER_TABLE
    requires parent == 0 ==> i == 0 && j < TASK0_PAGE_COUNT
    ensures Visible(PageOf(parent, i, j)) && IsUser(PageOf(child, i, j))
    ensures PageOf(parent, i, 0) + j < PageOf(child, i, 0) || PageOf(child, i, 0) + j <= PageOf(parent, i, 0)
    ensures PageOf(parent, i, j) == PageOf(parent, i, 0) + j && PageOf(child, i, j) == PageOf(child, i, 0) + j
  {
  }

  lemma OnlyChildGrows(df: Handles, df': Handles, child: nat, dst: nat)
    requires SlotOf(dst) == child
    requires forall lp | lp in df' && lp !in df :: lp == dst
    requires forall lp | lp in df :: lp in df' && df'[lp] == df[lp]
    ensures Others(df', child, SLOT_PAGES) == Others(df, child, SLOT_PAGES)
  {
  }

  /** The part of a map whose keys lie in other slots. */
  ghost function Others<V>(m: map<nat, V>, slot: nat, size: nat): map<nat, V>
    requires size > 0
  {
    map k | k in m && k / size != slot :: m[k]
  }

  /** The keys of n consecutive numbers from lo on. */
  ghost function Span<V>(m: map<nat, V>, lo: nat, n: nat): set<nat>
  {
    set k | k in m && lo <= k < lo + n
  }

  lemma SpanStep<V>(m: map<nat, V>, lo: nat, n: nat, step: nat)
    requires step == 1
    ensures Span(m, lo, n + 1) == Span(m, lo, n) + (if lo + n in m then {lo + n} else {})
    ensures m - Span(m, lo, n) - {lo + n} == m - Span(m, lo, n + 1)
    ensures lo + n !in m ==> m - Span(m, lo, n) == m - Span(m, lo, n + 1)
  {
  }

  lemma SpanIsSlot<V>(m: map<nat, V>, slot: nat, size: nat)
    requires size > 0
    ensures m - Span(m, slot * size, size) == Others(m, slot, size)
  {
    forall k: nat ensures slot * size <= k < slot * size + size <==> k / size == slot {
      InSlot(k, slot, size);
    }
  }

  lemma InSlot(k: nat, slot: nat, size: nat)
    requires size > 0
    ensures slot * size <= k < slot * size + size <==> k / size == slot
  {
    assert k == k / size * size + k % size;
    if k / size < slot { assert (k / size + 1) * size <= slot * size; }
    if k / size > slot { assert (slot + 1) * size <= k / size * size; }
  }

  /** The entries of a slot's table i, among those still mapped. */
  lemma UnderSpan(all: Ptes, now: Ptes, slot: nat, i: nat)
    requires i < PDES_PER_PROCESS && now == all - Span(all, slot * SLOT_PAGES, i * ENTRIES_PER_TABLE)
    ensures now - Under(now, slot * PDES_PER_PROCESS + i) == all - Span(all, slot * SLOT_PAGES, (i + 1) * ENTRIES_PER_TABLE)
    ensures Span(all, slot * SLOT_PAGES, i * ENTRIES_PER_TABLE) + Under(now, slot * PDES_PER_PROCESS + i)
         == Span(all, slot * SLOT_PAGES, (i + 1) * ENTRIES_PER_TABLE)
  {
    var pde := slot * PDES_PER_PROCESS + i;
    forall lp: nat ensures lp / ENTRIES_PER_TABLE == pde <==>
      slot * SLOT_PAGES + i * ENTRIES_PER_TABLE <= lp < slot * SLOT_PAGES + (i + 1) * ENTRIES_PER_TABLE
    {
      InSlot(lp, pde, ENTRIES_PER_TABLE);
    }
  }

  lemma SpanOfReads(ptes: Ptes, pages: map<nat, Page>, slot: nat)
    ensures View(ptes, pages) - Span(ptes, slot * SLOT_PAGES, SLOT_PAGES) == Others(View(ptes, pages), slot, SLOT_PAGES)
  {
    SpanIsSlot(ptes, slot, SLOT_PAGES);
    forall k: nat ensures slot * SLOT_PAGES <= k < slot * SLOT_PAGES + SLOT_PAGES <==> k / SLOT_PAGES == slot {
      InSlot(k, slot, SLOT_PAGES);
    }
  }

  lemma TableTracked(m: Flat, i: nat)
    requires Inv(m) && i in m.pageTables
    ensures Tracked(m.pageTables[i])
  {
  }

  /** What is read once page dst shows a copy of page src, if there is one. */
  ghost function CopiedPage(view: map<nat, Page>, src: nat, dst: nat): map<nat, Page>
  {
    if src in view then view[dst := view[src]] else view
  }

  lemma EntryFacts(m: Flat, tables: Tables, pd: Handles, lp: nat, pages: map<nat, Page>)
    requires Inv(m) && m.ptes == PtesOf(tables, pd) && Visible(lp) && forall f: nat :: f in pages <==> f < END_PPN
    requires lp / ENTRIES_PER_TABLE in pd && pd[lp / ENTRIES_PER_TABLE] in tables
    ensures var pte := tables[pd[lp / ENTRIES_PER_TABLE]][lp % ENTRIES_PER_TABLE];
      && (pte.present <==> lp in m.ptes) && (pte.present <==> lp in View(m.ptes, pages))
      && (pte.present ==> m.ptes[lp] == pte && pte.ppn in pages && View(m.ptes, pages)[lp] == pages[pte.ppn])
      && (pte.present && Tracked(pte.ppn) ==> IsUser(lp) && lp in m.dataFrames)
      && (pte.present ==> pte.ppn < END_PPN)
  {
    hide Counted, Protected, Roles, Offsets;
  }

  lemma OneEntryWritten(m: Flat, tables: Tables, pd: Handles, lp: nat, pte: Pte)
    requires Inv(m) && Directory(pd, m.pageTables) && m.ptes == PtesOf(tables, pd) && pte.present
    requires IsUser(lp) && lp / ENTRIES_PER_TABLE in pd && pd[lp / ENTRIES_PER_TABLE] in tables
    ensures PtesOf(WithEntry(tables, pd[lp / ENTRIES_PER_TABLE], lp % ENTRIES_PER_TABLE, pte), pd) == m.ptes[lp := pte]
  {
    hide PtesOf, Inv;
    forall i | i in pd ensures pd[i] == pd[lp / ENTRIES_PER_TABLE] ==> i == lp / ENTRIES_PER_TABLE {
      OneDirectoryEntry(m, pd, i, lp / ENTRIES_PER_TABLE);
    }
    EntryWritten(tables, pd, lp, pte);
  }

  /** The linear page at a local position of a slot. */
  function PageOf(slot: nat, pdeOffset: nat, pteIndex: nat): nat
  {
    (slot * PDES_PER_PROCESS + pdeOffset) * ENTRIES_PER_TABLE + pteIndex
  }

  lemma PagesOf(a: nat, b: nat, i: nat, j: nat)
    requires i < PDES_PER_PROCESS && j < ENTRIES_PER_TABLE
    ensures SlotOf(PageOf(a, i, j)) == a && SlotOf(PageOf(b, i, j)) == b
    ensures PageOf(a, i, j) % SLOT_PAGES == PageOf(b, i, j) % SLOT_PAGES
    ensures PageOf(a, i, j) / ENTRIES_PER_TABLE == a * PDES_PER_PROCESS + i && PageOf(a, i, j) % ENTRIES_PER_TABLE == j
    ensures PageOf(a, i, j) == a * SLOT_PAGES + (i * ENTRIES_PER_TABLE + j)
  {
    var lo := i * ENTRIES_PER_TABLE + j;
    assert PageOf(a, i, j) == a * SLOT_PAGES + lo && PageOf(b, i, j) == b * SLOT_PAGES + lo;
    assert lo < SLOT_PAGES;
  }

  lemma ViewShared(ptes: Ptes, pages: map<nat, Page>, src: nat, dst: nat, cow: Pte)
    requires src in ptes && cow == ptes[src].WithoutWritable() && cow.ppn in pages && Visible(src) && Visible(dst)
    ensures src in View(ptes, pages)
    ensures View(ptes[src := cow][dst := cow], pages) == View(ptes, pages)[dst := View(ptes, pages)[src]]
  {
    ViewSame(ptes, pages, src, cow);
    ViewPut(ptes[src := cow], pages, dst, cow);
  }

  /** Two entries written through the directory, in either order. */
  lemma EntriesWritten(m: Flat, tables: Tables, pd: Handles, src: nat, dst: nat, cow: Pte)
    requires Inv(m) && Directory(pd, m.pageTables) && m.ptes == PtesOf(tables, pd) && cow.present
    requires IsUser(src) && IsUser(dst) && src / ENTRIES_PER_TABLE in pd && dst / ENTRIES_PER_TABLE in pd
    requires pd[src / ENTRIES_PER_TABLE] in tables && pd[dst / ENTRIES_PER_TABLE] in tables
    ensures var t, u := pd[src / ENTRIES_PER_TABLE], pd[dst / ENTRIES_PER_TABLE];
      && PtesOf(WithEntry(WithEntry(tables, t, src % ENTRIES_PER_TABLE, cow), u, dst % ENTRIES_PER_TABLE, cow), pd)
         == m.ptes[src := cow][dst := cow]
      && PtesOf(WithEntry(WithEntry(tables, u, dst % ENTRIES_PER_TABLE, cow), t, src % ENTRIES_PER_TABLE, cow), pd)
         == m.ptes[src := cow][dst := cow]
  {
    hide PtesOf, Inv;
    var t, u := pd[src / ENTRIES_PER_TABLE], pd[dst / ENTRIES_PER_TABLE];
    forall i | i in pd
      ensures pd[i] == t ==> i == src / ENTRIES_PER_TABLE
      ensures pd[i] == u ==> i == dst / ENTRIES_PER_TABLE
    {
      OneDirectoryEntry(m, pd, i, src / ENTRIES_PER_TABLE);
      OneDirectoryEntry(m, pd, i, dst / ENTRIES_PER_TABLE);
    }
    EntryWritten(tables, pd, src, cow);
    EntryWritten(WithEntry(tables, t, src % ENTRIES_PER_TABLE, cow), pd, dst, cow);
    EntryWritten(tables, pd, dst, cow);
    EntryWritten(WithEntry(tables, u, dst % ENTRIES_PER_TABLE, cow), pd, src, cow);
    assert m.ptes[src := cow][dst := cow] == m.ptes[dst := cow][src := cow];
  }

  lemma PresentEntries(m: Flat, lp: nat)
    requires Inv(m) && lp in m.ptes
    ensures m.ptes[lp].present && m.ptes[lp].ppn < END_PPN
  {
  }

  /** Writing the frame of a writable page is seen through that page alone. */
  lemma StoreKeeps(m: Flat, pages: map<nat, Page>, lp: nat, page: Page)
    requires Inv(m) && lp in m.ptes && IsUser(lp) && m.ptes[lp].writable && m.ptes[lp].ppn in pages
    ensures View(m.ptes, pages[m.ptes[lp].ppn := page]) == View(m.ptes, pages)[lp := page]
  {
    ViewStore(m.ptes, m.dataFrames, pages, lp, page);
  }

  lemma LooseTracked(m: Flat, f: nat)
    requires Inv(m) && f in m.loose
    ensures Tracked(f)
  {
  }

  lemma DirectoryAvoids(m: Flat, pd: Handles, f: nat)
    requires Directory(pd, m.pageTables) && Tracked(f)
    requires forall i | i in m.pageTables :: m.pageTables[i] != f
    ensures forall i | i in pd :: pd[i] != f
  {
  }
}
