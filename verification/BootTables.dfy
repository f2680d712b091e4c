/**
 The first page tables, built by boot/boot.c before the kernel runs.  All addresses are
 physical and page-aligned; tables are named by frame number.
 */
module BootTables {
  import opened Options
  import opened PhysicalMemory
  import opened Radix
  import opened Translation

  /** Where the firmware placed the tables: first frames of the regions of BootMain. */
  datatype Layout = Layout(pml4: nat, pdp: nat, pageDir: nat, actualDir: nat, actualDir2: nat,
                           kernelPdp: nat, kernelPdp2: nat, kernelDir: nat, kernelTable: nat)

  /** The i-th region, as first frame and number of pages, in the order of allocation. */
  function Region(l: Layout, i: nat): (r: (nat, nat))
    requires i < 9
    ensures r.1 >= 1
  {
    match i
    case 0 => (l.pml4, 1)
    case 1 => (l.pdp, 1)
    case 2 => (l.pageDir, 128)
    case 3 => (l.actualDir, 128)
    case 4 => (l.actualDir2, 512)
    case 5 => (l.kernelPdp, 1)
    case 6 => (l.kernelPdp2, 1)
    case 7 => (l.kernelDir, 1)
    case _ => (l.kernelTable, 16)
  }

  predicate InRegion(l: Layout, i: nat, f: nat)
    requires i < 9
  {
    Region(l, i).0 <= f < Region(l, i).0 + Region(l, i).1
  }

  /** The regions are RAM below 2^40 frames and pairwise disjoint. */
  ghost predicate Placed(mem: Memory, l: Layout)
  {
    && (forall i, f: nat :: 0 <= i < 9 && InRegion(l, i, f) ==> f in mem && f < 0x100_0000_0000)
    && (forall i, j, f: nat :: 0 <= i < 9 && 0 <= j < 9 && InRegion(l, i, f) && InRegion(l, j, f) ==> i == j)
  }

  /** An entry that points to a table or a 4 KB page: present, writable, supervisor. */
  function Link(f: nat): Word
    requires f < 0x100_0000_0000
  {
    Word(true, true, false, 0, false, 0, f, 0)
  }

  /** An entry that maps a 2 MB page. */
  function Huge(f: nat): Word
    requires f < 0x100_0000_0000
  {
    Word(true, true, false, 0, true, 0, f, 0)
  }

  /** The numbers the code stores, `address | 0x003` and `address | 0x083`, as entries. */
  lemma EntryWords(f: nat)
    requires f < 0x100_0000_0000
    ensures 4096 * f + 0x83 < TWO64
    ensures FromValue(4096 * f + 0x003) == Link(f) && FromValue(4096 * f + 0x083) == Huge(f)
  {
    FromValueOfValue(Link(f));
    FromValueOfValue(Huge(f));
    assert Value(Link(f)) == 4096 * f + 0x003;
    assert Value(Huge(f)) == 4096 * f + 0x083;
  }

  /** What entry i of the table in frame f must hold. */
  function BootWord(l: Layout, f: nat, i: nat): Word
    requires i < ENTRIES
  {
    if f == l.pml4 then
      if i == 0 then Entry(l.pdp) else if i == 256 then Entry(l.kernelPdp)
      else if i == 257 then Entry(l.kernelPdp2) else ZERO
    else if f == l.pdp then if i < 128 then Entry(l.pageDir + i) else ZERO
    else if InRegion(l, 2, f) then HugeEntry(262144 * (f - l.pageDir) + 512 * i)
    else if f == l.kernelPdp then
      if i == 0 then Entry(l.kernelDir) else if i >= 384 then Entry(l.actualDir + (i - 384)) else ZERO
    else if f == l.kernelDir then if i < 16 then Entry(l.kernelTable + i) else ZERO
    else if InRegion(l, 8, f) then Entry(0x100 + 512 * (f - l.kernelTable) + i)
    else if InRegion(l, 3, f) then HugeEntry(262144 * (f - l.actualDir) + 512 * i)
    else if f == l.kernelPdp2 then Entry(l.actualDir2 + i)
    else HugeEntry(262144 * 128 + 262144 * (f - l.actualDir2) + 512 * i)
  }

  function Entry(f: int): Word
  {
    if 0 <= f < 0x100_0000_0000 then Link(f) else ZERO
  }

  function HugeEntry(f: int): Word
  {
    if 0 <= f < 0x100_0000_0000 then Huge(f) else ZERO
  }

  predicate InTables(l: Layout, f: nat)
  {
    exists i :: 0 <= i < 9 && InRegion(l, i, f)
  }

  /** All tables hold what they must, the rest of memory is as it was. */
  ghost predicate TablesBuilt(mem0: Memory, mem: Memory, l: Layout)
  {
    && mem.Keys == mem0.Keys
    && (forall f: nat, i: nat :: i < ENTRIES && InTables(l, f) ==> Load(mem, f, i) == BootWord(l, f, i))
    && (forall f: nat, i: nat :: i < ENTRIES && !InTables(l, f) ==> Load(mem, f, i) == Load(mem0, f, i))
  }

  // ---- the intended address space -----------------------------------------------------------

  /** The frame of 0x100000. */
  const KERNEL_FRAME: nat := 0x100

  /** The three windows of the comments in boot/boot.c. */
  function BootMap(w: nat): Option<Mapping>
  {
    if w < IDENTITY_PAGES then Some(Mapping(w, true, false))
    else if KERNEL_PAGE <= w < KERNEL_PAGE + KERNEL_PAGES then
      Some(Mapping(KERNEL_FRAME + (w - KERNEL_PAGE), true, false))
    else if DIRECT_PAGE <= w < DIRECT_PAGE + DIRECT_PAGES then Some(Mapping(w - DIRECT_PAGE, true, false))
    else None
  }

  /** A page number by its four digits. */
  function Digits(a: nat, b: nat, c: nat, d: nat): nat
  {
    512 * (512 * (512 * a + b) + c) + d
  }

  lemma DigitsOf(w: nat)
    ensures w == Digits(Prefix(w, 3), Part(w, 3), Part(w, 2), Part(w, 1))
    ensures w < 0x10_0000_0000 ==> Prefix(w, 3) == Part(w, 4)
    ensures w - First(Prefix(w, 1), 1) == Part(w, 1)
    ensures Prefix(w, 1) == 512 * (512 * Prefix(w, 3) + Part(w, 3)) + Part(w, 2)
  {
    assert Prefix(w, 0) == 512 * Prefix(w, 1) + Part(w, 1);
    assert Prefix(w, 1) == 512 * Prefix(w, 2) + Part(w, 2);
    assert Prefix(w, 2) == 512 * Prefix(w, 3) + Part(w, 3);
    assert Prefix(w, 3) == 512 * Prefix(w, 4) + Part(w, 4);
    assert First(Prefix(w, 1), 1) == First(512 * Prefix(w, 1), 0);
  }

  /** Walking a table of 2 MB pages. */
  lemma HugeWalk(mem: Memory, t: nat, w: nat, f: nat)
    requires f < 0x100_0000_0000 && Load(mem, t, Part(w, 2)) == Huge(f)
    ensures Walk(mem, t, 2, w) == Some(Mapping(f + Part(w, 1), true, false))
  {
    DigitsOf(w);
  }

  lemma LinkWalk(mem: Memory, t: nat, L: nat, w: nat, f: nat)
    requires L >= 2 && f < 0x100_0000_0000 && Load(mem, t, Part(w, L)) == Link(f)
    ensures Walk(mem, t, L, w) == Restrict(Walk(mem, f, L - 1, w), Link(f))
  {
  }

  lemma ZeroWalk(mem: Memory, t: nat, L: nat, w: nat)
    requires L >= 1 && Load(mem, t, Part(w, L)) == ZERO
    ensures Walk(mem, t, L, w) == None
  {
  }

  /** A frame of region k is in no other region. */
  lemma OnlyRegion(mem: Memory, l: Layout, k: nat, f: nat)
    requires Placed(mem, l) && k < 9 && InRegion(l, k, f)
    ensures InTables(l, f) && f in mem && f < 0x100_0000_0000
    ensures f == l.pml4 <==> k == 0
    ensures f == l.pdp <==> k == 1
    ensures InRegion(l, 2, f) <==> k == 2
    ensures InRegion(l, 3, f) <==> k == 3
    ensures InRegion(l, 4, f) <==> k == 4
    ensures f == l.kernelPdp <==> k == 5
    ensures f == l.kernelPdp2 <==> k == 6
    ensures f == l.kernelDir <==> k == 7
    ensures InRegion(l, 8, f) <==> k == 8
  {
    assert InRegion(l, 0, f) <==> f == l.pml4;
    assert InRegion(l, 1, f) <==> f == l.pdp;
    assert InRegion(l, 5, f) <==> f == l.kernelPdp;
    assert InRegion(l, 6, f) <==> f == l.kernelPdp2;
    assert InRegion(l, 7, f) <==> f == l.kernelDir;
  }

  /** All tables but the PML4 hold what they must. */
  ghost predicate TablesBelow(mem: Memory, l: Layout)
  {
    forall f: nat, i: nat :: i < ENTRIES && InTables(l, f) && f != l.pml4 ==> Load(mem, f, i) == BootWord(l, f, i)
  }

  /** Below the identity window. */
  lemma IdentityWalk(mem0: Memory, mem: Memory, l: Layout, w: nat)
    requires Placed(mem0, l) && TablesBelow(mem, l)
    ensures Walk(mem, l.pdp, 3, w) ==
              if Part(w, 3) < 128 then Some(Mapping(262144 * Part(w, 3) + 512 * Part(w, 2) + Part(w, 1), true, false))
              else None
  {
    hide Walk, Placed, InTables, Part;
    var b := Part(w, 3);
    OnlyRegion(mem0, l, 1, l.pdp);
    if b < 128 {
      OnlyRegion(mem0, l, 2, l.pageDir + b);
      HugeWalk(mem, l.pageDir + b, w, 262144 * b + 512 * Part(w, 2));
      LinkWalk(mem, l.pdp, 3, w, l.pageDir + b);
    } else {
      ZeroWalk(mem, l.pdp, 3, w);
    }
  }

  lemma TableWalk(mem: Memory, t: nat, w: nat, f: nat)
    requires f < 0x100_0000_0000 && Load(mem, t, Part(w, 1)) == Link(f)
    ensures Walk(mem, t, 1, w) == Some(Mapping(f, true, false))
  {
  }

  /** Below PML4 entry 256: the kernel window and the first 128 GB of the direct map. */
  lemma KernelWalk(mem0: Memory, mem: Memory, l: Layout, w: nat)
    requires Placed(mem0, l) && TablesBelow(mem, l)
    ensures Walk(mem, l.kernelPdp, 3, w) ==
              if Part(w, 3) == 0 && Part(w, 2) < 16 then
                Some(Mapping(KERNEL_FRAME + 512 * Part(w, 2) + Part(w, 1), true, false))
              else if Part(w, 3) >= 384 then
                Some(Mapping(262144 * (Part(w, 3) - 384) + 512 * Part(w, 2) + Part(w, 1), true, false))
              else None
  {
    hide Walk, Placed, InTables, Part;
    var b, c := Part(w, 3), Part(w, 2);
    OnlyRegion(mem0, l, 5, l.kernelPdp);
    if b == 0 {
      OnlyRegion(mem0, l, 7, l.kernelDir);
      LinkWalk(mem, l.kernelPdp, 3, w, l.kernelDir);
      KernelDirWalk(mem0, mem, l, w);
    } else if b >= 384 {
      OnlyRegion(mem0, l, 3, l.actualDir + (b - 384));
      HugeWalk(mem, l.actualDir + (b - 384), w, 262144 * (b - 384) + 512 * c);
      LinkWalk(mem, l.kernelPdp, 3, w, l.actualDir + (b - 384));
    } else {
      ZeroWalk(mem, l.kernelPdp, 3, w);
    }
  }

  /** The 32 MB of 4 KB pages. */
  lemma KernelDirWalk(mem0: Memory, mem: Memory, l: Layout, w: nat)
    requires Placed(mem0, l) && TablesBelow(mem, l)
    ensures Walk(mem, l.kernelDir, 2, w) ==
              if Part(w, 2) < 16 then Some(Mapping(KERNEL_FRAME + 512 * Part(w, 2) + Part(w, 1), true, false)) else None
  {
    hide Walk, Placed, InTables, Part;
    var c := Part(w, 2);
    OnlyRegion(mem0, l, 7, l.kernelDir);
    if c < 16 {
      OnlyRegion(mem0, l, 8, l.kernelTable + c);
      TableWalk(mem, l.kernelTable + c, w, KERNEL_FRAME + 512 * c + Part(w, 1));
      LinkWalk(mem, l.kernelDir, 2, w, l.kernelTable + c);
    } else {
      ZeroWalk(mem, l.kernelDir, 2, w);
    }
  }

  /** Below PML4 entry 257: the rest of the direct map. */
  lemma DirectWalk(mem0: Memory, mem: Memory, l: Layout, w: nat)
    requires Placed(mem0, l) && TablesBelow(mem, l)
    ensures Walk(mem, l.kernelPdp2, 3, w) ==
              Some(Mapping(262144 * 128 + 262144 * Part(w, 3) + 512 * Part(w, 2) + Part(w, 1), true, false))
  {
    hide Walk, Placed, InTables, Part;
    var b := Part(w, 3);
    OnlyRegion(mem0, l, 6, l.kernelPdp2);
    OnlyRegion(mem0, l, 4, l.actualDir2 + b);
    HugeWalk(mem, l.actualDir2 + b, w, 262144 * 128 + 262144 * b + 512 * Part(w, 2));
    LinkWalk(mem, l.kernelPdp2, 3, w, l.actualDir2 + b);
  }

  /** Below an entry of the PML4 that holds what it must. */
  lemma SlotWalk(mem0: Memory, mem: Memory, l: Layout, w: nat)
    requires Placed(mem0, l) && TablesBelow(mem, l) && w < 0x10_0000_0000
    requires Load(mem, l.pml4, Part(w, 4)) == BootWord(l, l.pml4, Part(w, 4))
    ensures Walk(mem, l.pml4, 4, w) == BootMap(w)
  {
    hide Walk, Placed, TablesBelow, InTables, Part;
    DigitsOf(w);
    OnlyRegion(mem0, l, 0, l.pml4);
    var a := Part(w, 4);
    if a == 0 {
      OnlyRegion(mem0, l, 1, l.pdp);
      IdentityWalk(mem0, mem, l, w);
      LinkWalk(mem, l.pml4, 4, w, l.pdp);
    } else if a == 256 {
      OnlyRegion(mem0, l, 5, l.kernelPdp);
      KernelWalk(mem0, mem, l, w);
      LinkWalk(mem, l.pml4, 4, w, l.kernelPdp);
    } else if a == 257 {
      OnlyRegion(mem0, l, 6, l.kernelPdp2);
      DirectWalk(mem0, mem, l, w);
      LinkWalk(mem, l.pml4, 4, w, l.kernelPdp2);
    } else {
      ZeroWalk(mem, l.pml4, 4, w);
    }
  }

  /** The boot tables translate every page exactly as the three windows say. */
  lemma BootWalk(mem0: Memory, mem: Memory, l: Layout, w: nat)
    requires Placed(mem0, l) && TablesBuilt(mem0, mem, l) && w < 0x10_0000_0000
    ensures Walk(mem, l.pml4, 4, w) == BootMap(w)
  {
    hide Walk, Placed, Part;
    OnlyRegion(mem0, l, 0, l.pml4);
    SlotWalk(mem0, mem, l, w);
  }

  // ---- the code -----------------------------------------------------------------------------

  /** The frame that entry j of the k-th table of a window maps, in 2 MB or 4 KB steps. */
  function Target(base: nat, huge: bool, k: nat, j: nat): nat
  {
    if huge then base + 262144 * k + 512 * j else base + 512 * k + j
  }

  function Mapped(huge: bool, f: nat): Word
    requires f < 0x100_0000_0000
  {
    if huge then Huge(f) else Link(f)
  }

  /** The loops that fill a window: `tables` consecutive tables from frame dir on, linked from
      consecutive entries of `parent` from `first` on, mapping memory from frame base on. */
  datatype Window = Window(parent: nat, first: nat, dir: nat, tables: nat, base: nat, huge: bool)

  predicate WindowOk(x: Window, ram: set<nat>)
  {
    && x.first + x.tables <= ENTRIES && x.dir + x.tables <= 0x100_0000_0000
    && Target(x.base, x.huge, x.tables, 0) <= 0x100_0000_0000
    && x.parent in ram && !(x.dir <= x.parent < x.dir + x.tables)
    && forall f: nat :: x.dir <= f < x.dir + x.tables ==> f in ram
  }

  /** Entry i of frame f once `links` links, k whole tables and j entries of the next are written. */
  function WindowWord(x: Window, links: nat, k: nat, j: nat, f: nat, i: nat, before: Word): Word
  {
    if x.dir <= f < x.dir + k || (f == x.dir + k && i < j) then
      var target := Target(x.base, x.huge, f - x.dir, i);
      if target < 0x100_0000_0000 then Mapped(x.huge, target) else ZERO
    else if f == x.parent && x.first <= i < x.first + links && x.dir + (i - x.first) < 0x100_0000_0000 then
      Link(x.dir + (i - x.first))
    else before
  }

  ghost predicate Written(mem0: Memory, mem: Memory, x: Window, links: nat, k: nat, j: nat)
  {
    && mem.Keys == mem0.Keys
    && forall f: nat, i: nat :: i < ENTRIES ==> Load(mem, f, i) == WindowWord(x, links, k, j, f, i, Load(mem0, f, i))
  }

  /** Physical memory while the firmware's identity mapping is in force. */
  class Loader {
    var mem: Memory

    /** `memset((void *)addr, 0, 4096 * n)` */
    method ClearPages(f: nat, n: nat)
      modifies this
      ensures mem.Keys == old(mem).Keys
      ensures forall g: nat, i: nat :: i < ENTRIES
                ==> Load(mem, g, i) == if f <= g < f + n then ZERO else Load(old(mem), g, i)
    {
      for k := 0 to n
        invariant mem.Keys == old(mem).Keys
        invariant forall g: nat, i: nat :: i < ENTRIES
                    ==> Load(mem, g, i) == if f <= g < f + k then ZERO else Load(old(mem), g, i)
      {
        mem := Clear(mem, f + k);
      }
    }

    /** The nested loops of one window. */
    method FillWindow(x: Window)
      requires WindowOk(x, mem.Keys)
      modifies this
      ensures mem.Keys == old(mem).Keys
      ensures Written(old(mem), mem, x, x.tables, x.tables, 0)
    {
      hide FromValue, Link, Huge, WindowWord;
      NothingWritten(mem, x);
      for k := 0 to x.tables
        invariant Written(old(mem), mem, x, k, k, 0)
      {
        LinkStep(old(mem), mem, x, k);
        mem := Store(mem, x.parent, x.first + k, FromValue(4096 * (x.dir + k) + 0x003));
        for j := 0 to ENTRIES
          invariant Written(old(mem), mem, x, k + 1, k, j)
        {
          var frame := Target(x.base, x.huge, k, j);
          EntryStep(old(mem), mem, x, k, j);
          mem := Store(mem, x.dir + k, j, FromValue(4096 * frame + if x.huge then 0x083 else 0x003));
        }
        TableDone(old(mem), mem, x, k);
      }
    }

    /** `table[i] = child | 0x003` */
    method StoreLink(table: nat, i: nat, child: nat)
      requires i < ENTRIES && child < 0x100_0000_0000
      modifies this
      ensures mem == Store(old(mem), table, i, Link(child)) && mem.Keys == old(mem).Keys
    {
      EntryWords(child);
      mem := Store(mem, table, i, FromValue(4096 * child + 0x003));
    }

    /** The table construction of BootMain: clear all regions, then fill them. */
    method BuildTables(l: Layout)
      requires Placed(mem, l)
      modifies this
      ensures TablesBuilt(old(mem), mem, l)
    {
      hide FromValue, Link, Huge, Placed, Written, BootWord, Store, Load, Cleared, WindowOk;
      ghost var m0 := mem;
      ClearRegions(l);
      ghost var m1 := mem;
      FrameBounds(m0, l);
      StoreLink(l.pml4, 0, l.pdp);
      StoreLink(l.pml4, 256, l.kernelPdp);
      StoreLink(l.pml4, 257, l.kernelPdp2);
      ghost var m2 := mem;
      // physical mapping (128 GB)
      WindowsOk(m0, l);
      FillWindow(IdentityWindow(l));
      ghost var m3 := mem;
      // kernel mapping (32 MB)
      StoreLink(l.kernelPdp, 0, l.kernelDir);
      ghost var m4 := mem;
      FillWindow(KernelWindow(l));
      ghost var m5 := mem;
      // physical address mapping (640 GB)
      FillWindow(DirectWindow(l));
      ghost var m6 := mem;
      FillWindow(DirectWindow2(l));
      Assemble(m0, m1, m2, m3, m4, m5, m6, mem, l);
    }

    /** The memset calls after each AllocatePages. */
    method ClearRegions(l: Layout)
      modifies this
      ensures Cleared(old(mem), mem, l) && mem.Keys == old(mem).Keys
    {
      hide InTables, Load;
      ClearFirst(l);
      ClearPages(l.kernelPdp, 1);
      ClearPages(l.kernelPdp2, 1);
      ClearPages(l.kernelDir, 1);
      ClearPages(l.kernelTable, 16);
      AnyRegion(l);
    }

    method ClearFirst(l: Layout)
      modifies this
      ensures mem.Keys == old(mem).Keys
      ensures forall f: nat, i: nat :: i < ENTRIES ==>
                (Load(mem, f, i) == if f == l.pml4 || f == l.pdp || l.pageDir <= f < l.pageDir + 128
                                      || l.actualDir <= f < l.actualDir + 128
                                       || l.actualDir2 <= f < l.actualDir2 + 512 then ZERO else Load(old(mem), f, i))
    {
      hide Load;
      ClearPages(l.pml4, 1);
      ClearPages(l.pdp, 1);
      ClearPages(l.pageDir, 128);
      ClearPages(l.actualDir, 128);
      ClearPages(l.actualDir2, 512);
    }
  }

  /** Tables are zero, the rest of memory is as it was. */
  ghost predicate Cleared(mem0: Memory, mem: Memory, l: Layout)
  {
    && mem.Keys == mem0.Keys
    && forall f: nat, i: nat :: i < ENTRIES ==> Load(mem, f, i) == if InTables(l, f) then ZERO else Load(mem0, f, i)
  }

  lemma AnyRegion(l: Layout)
    ensures forall f: nat :: InTables(l, f) <==>
              (f == l.pml4 || f == l.pdp || l.pageDir <= f < l.pageDir + 128 || l.actualDir <= f < l.actualDir + 128
               || l.actualDir2 <= f < l.actualDir2 + 512 || f == l.kernelPdp || f == l.kernelPdp2 || f == l.kernelDir
               || l.kernelTable <= f < l.kernelTable + 16)
  {
    forall f: nat
      ensures InTables(l, f) <==>
              (InRegion(l, 0, f) || InRegion(l, 1, f) || InRegion(l, 2, f) || InRegion(l, 3, f) || InRegion(l, 4, f)
               || InRegion(l, 5, f) || InRegion(l, 6, f) || InRegion(l, 7, f) || InRegion(l, 8, f))
    {
    }
  }

  function IdentityWindow(l: Layout): Window
  {
    Window(l.pdp, 0, l.pageDir, 128, 0, true)
  }

  function KernelWindow(l: Layout): Window
  {
    Window(l.kernelDir, 0, l.kernelTable, 16, KERNEL_FRAME, false)
  }

  function DirectWindow(l: Layout): Window
  {
    Window(l.kernelPdp, 384, l.actualDir, 128, 0, true)
  }

  function DirectWindow2(l: Layout): Window
  {
    Window(l.kernelPdp2, 0, l.actualDir2, 512, 262144 * 128, true)
  }

  lemma FrameBounds(mem: Memory, l: Layout)
    requires Placed(mem, l)
    ensures l.pdp < 0x100_0000_0000 && l.kernelPdp < 0x100_0000_0000 && l.kernelPdp2 < 0x100_0000_0000
    ensures l.kernelDir < 0x100_0000_0000
  {
    assert InRegion(l, 1, l.pdp) && InRegion(l, 5, l.kernelPdp) && InRegion(l, 6, l.kernelPdp2)
             && InRegion(l, 7, l.kernelDir);
  }

  lemma WindowsOk(mem: Memory, l: Layout)
    requires Placed(mem, l)
    ensures WindowOk(IdentityWindow(l), mem.Keys) && WindowOk(KernelWindow(l), mem.Keys)
    ensures WindowOk(DirectWindow(l), mem.Keys) && WindowOk(DirectWindow2(l), mem.Keys)
  {
    hide Placed;
    WindowAt(mem, l, 1, 2);
    WindowAt(mem, l, 7, 8);
    WindowAt(mem, l, 5, 3);
    WindowAt(mem, l, 6, 4);
  }

  lemma WindowAt(mem: Memory, l: Layout, p: nat, d: nat)
    requires Placed(mem, l) && p < 9 && d < 9 && p != d
    ensures var (parent, dir, n) := (Region(l, p).0, Region(l, d).0, Region(l, d).1);
            && parent in mem.Keys && !(dir <= parent < dir + n) && dir + n <= 0x100_0000_0000
            && forall f: nat :: dir <= f < dir + n ==> f in mem.Keys
  {
    assert InRegion(l, p, Region(l, p).0) && !InRegion(l, d, Region(l, p).0);
    assert InRegion(l, d, Region(l, d).0 + Region(l, d).1 - 1);
    forall f: nat | Region(l, d).0 <= f < Region(l, d).0 + Region(l, d).1
      ensures f in mem.Keys
    {
      assert InRegion(l, d, f);
    }
  }

  /** What the stores of BuildTables leave in entry i of frame f, which held `before`. */
  function Stored(l: Layout, f: nat, i: nat, before: Word): Word
    requires l.pdp < 0x100_0000_0000 && l.kernelPdp < 0x100_0000_0000 && l.kernelPdp2 < 0x100_0000_0000
    requires l.kernelDir < 0x100_0000_0000
  {
    var w2 := if f != l.pml4 then before
              else if i == 0 then Link(l.pdp) else if i == 256 then Link(l.kernelPdp)
              else if i == 257 then Link(l.kernelPdp2) else before;
    var w3 := WindowWord(IdentityWindow(l), 128, 128, 0, f, i, w2);
    var w4 := if f == l.kernelPdp && i == 0 then Link(l.kernelDir) else w3;
    var w5 := WindowWord(KernelWindow(l), 16, 16, 0, f, i, w4);
    var w6 := WindowWord(DirectWindow(l), 128, 128, 0, f, i, w5);
    WindowWord(DirectWindow2(l), 512, 512, 0, f, i, w6)
  }

  lemma StoredIsBootWord(mem: Memory, l: Layout, f: nat, i: nat, before: Word)
    requires Placed(mem, l) && i < ENTRIES
    requires l.pdp < 0x100_0000_0000 && l.kernelPdp < 0x100_0000_0000 && l.kernelPdp2 < 0x100_0000_0000
    requires l.kernelDir < 0x100_0000_0000
    ensures InTables(l, f) ==> Stored(l, f, i, ZERO) == BootWord(l, f, i)
    ensures !InTables(l, f) ==> Stored(l, f, i, before) == before
  {
    hide Link, Huge, Placed, InTables;
    if InTables(l, f) {
      var r := RegionOf(l, f);
      OnlyRegion(mem, l, r, f);
    } else {
      AnyRegion(l);
    }
  }

  lemma Assemble(m0: Memory, m1: Memory, m2: Memory, m3: Memory, m4: Memory, m5: Memory, m6: Memory, mem: Memory,
                 l: Layout)
    requires Placed(m0, l) && Cleared(m0, m1, l)
    requires l.pdp < 0x100_0000_0000 && l.kernelPdp < 0x100_0000_0000 && l.kernelPdp2 < 0x100_0000_0000
    requires l.kernelDir < 0x100_0000_0000
    requires m2 == Store(Store(Store(m1, l.pml4, 0, Link(l.pdp)), l.pml4, 256, Link(l.kernelPdp)), l.pml4, 257,
                         Link(l.kernelPdp2))
    requires Written(m2, m3, IdentityWindow(l), 128, 128, 0) && m4 == Store(m3, l.kernelPdp, 0, Link(l.kernelDir))
    requires Written(m4, m5, KernelWindow(l), 16, 16, 0) && Written(m5, m6, DirectWindow(l), 128, 128, 0)
    requires Written(m6, mem, DirectWindow2(l), 512, 512, 0)
    ensures TablesBuilt(m0, mem, l)
  {
    hide Link, Huge, Placed, InTables, WindowWord, BootWord;
    TopInRam(m0, l);
    forall f: nat, i: nat | i < ENTRIES
      ensures Load(mem, f, i) == if InTables(l, f) then BootWord(l, f, i) else Load(m0, f, i)
    {
      StoredIsBootWord(m0, l, f, i, Load(m0, f, i));
      assert Load(mem, f, i) == Stored(l, f, i, Load(m1, f, i));
    }
  }

  lemma TopInRam(mem: Memory, l: Layout)
    requires Placed(mem, l)
    ensures l.pml4 in mem && l.kernelPdp in mem
  {
    assert InRegion(l, 0, l.pml4) && InRegion(l, 5, l.kernelPdp);
  }

  lemma RegionOf(l: Layout, f: nat) returns (r: nat)
    requires InTables(l, f)
    ensures r < 9 && InRegion(l, r, f)
  {
    r :| 0 <= r < 9 && InRegion(l, r, f);
  }

  lemma NothingWritten(mem: Memory, x: Window)
    ensures Written(mem, mem, x, 0, 0, 0)
  {
  }

  lemma LinkStep(mem0: Memory, mem: Memory, x: Window, k: nat)
    requires WindowOk(x, mem0.Keys) && k < x.tables && Written(mem0, mem, x, k, k, 0)
    ensures 4096 * (x.dir + k) + 0x003 < TWO64
    ensures Written(mem0, Store(mem, x.parent, x.first + k, FromValue(4096 * (x.dir + k) + 0x003)), x, k + 1, k, 0)
  {
    hide FromValue, Link, Huge;
    EntryWords(x.dir + k);
  }

  lemma EntryStep(mem0: Memory, mem: Memory, x: Window, k: nat, j: nat)
    requires WindowOk(x, mem0.Keys) && k < x.tables && j < ENTRIES && Written(mem0, mem, x, k + 1, k, j)
    ensures var n := 4096 * Target(x.base, x.huge, k, j) + if x.huge then 0x083 else 0x003;
            n < TWO64 && Written(mem0, Store(mem, x.dir + k, j, FromValue(n)), x, k + 1, k, j + 1)
  {
    hide FromValue, Link, Huge;
    EntryWords(Target(x.base, x.huge, k, j));
  }

  lemma TableDone(mem0: Memory, mem: Memory, x: Window, k: nat)
    requires Written(mem0, mem, x, k + 1, k, ENTRIES)
    ensures Written(mem0, mem, x, k + 1, k + 1, 0)
  {
    hide Link, Huge, Target;
  }
}
