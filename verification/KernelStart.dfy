/**
 From the boot tables to a running kernel: `actual_init_paging` and `_v2p` of kernel/paging.c,
 then `init_mem`, and what the tables still translate after any run of the kernel.
 */
module KernelStart {
  import opened Options
  import opened PhysicalMemory
  import opened Radix
  import opened Translation
  import opened FreeList
  import opened MemoryInit
  import opened Paging
  import opened PageSupply
  import opened PageFaults
  import opened BootTables

  const KERNEL_MAPPING: nat := 0xffff_8000_0000_0000

  /** 64-bit unsigned arithmetic. */
  function U64(x: int): (n: nat)
    ensures n < TWO64
  {
    x % TWO64
  }

  /** `_v2p` */
  function V2P(v: nat): nat
  {
    if U64(v - PAGE_OFFSET) < v then U64(v - PAGE_OFFSET) else U64(v - KERNEL_MAPPING + 0x100000)
  }

  function P2V(p: nat): nat
  {
    U64(PAGE_OFFSET + p)
  }

  /** An address whose bits 47 to 63 are equal. */
  predicate CanonicalAddress(v: nat)
  {
    v < 0x8000_0000_0000 || 0xffff_8000_0000_0000 <= v < TWO64
  }

  function PageOf(v: nat): (w: nat)
    ensures w < PAGES
  {
    v / 4096 % PAGES
  }

  /** The tables after `pml4[0] = 0`. */
  function Unmapped(mem: Memory, l: Layout): (r: Memory)
    ensures r.Keys == mem.Keys
  {
    Store(mem, l.pml4, 0, ZERO)
  }

  /** The two windows that are left. */
  function KernelMap(w: nat): Option<Mapping>
  {
    if w < KERNEL_PAGE then None else BootMap(w)
  }

  lemma UnmappedWord(mem0: Memory, mem: Memory, l: Layout, f: nat, i: nat)
    requires Placed(mem0, l) && TablesBuilt(mem0, mem, l) && i < ENTRIES
    ensures InTables(l, f) ==> Load(Unmapped(mem, l), f, i) == if f == l.pml4 && i == 0 then ZERO else BootWord(l, f, i)
    ensures !InTables(l, f) ==> Load(Unmapped(mem, l), f, i) == Load(mem0, f, i)
  {
    hide InTables, BootWord;
    assert InRegion(l, 0, l.pml4);
    OnlyRegion(mem0, l, 0, l.pml4);
  }

  /** Clearing entry 0 removes exactly the identity window. */
  lemma UnmappedWalk(mem0: Memory, mem: Memory, l: Layout, w: nat)
    requires Placed(mem0, l) && TablesBuilt(mem0, mem, l) && w < PAGES
    ensures Walk(Unmapped(mem, l), l.pml4, 4, w) == KernelMap(w)
  {
    hide Placed, InTables, BootWord, Part, Walk;
    DigitsOf(w);
    var mem' := Unmapped(mem, l);
    OnlyRegion(mem0, l, 0, l.pml4);
    if Part(w, 4) == 0 {
      ZeroWalk(mem', l.pml4, 4, w);
    } else {
      SlotWalk(mem0, mem', l, w);
    }
  }

  /** An address of the kernel half is its page number and offset. */
  lemma KernelAddress(v: nat)
    requires CanonicalAddress(v) && PageOf(v) >= KERNEL_PAGE
    ensures v == 0xffff_0000_0000_0000 + 4096 * PageOf(v) + v % 4096
  {
    var q := v / 4096;
    assert v == 4096 * q + v % 4096;
    if v >= 0x8000_0000_0000 {
      assert 0xf_fff8_0000_0000 <= q < 0x10_0000_0000_0000;
      assert q == 0xf_fff0_0000_0000 + (q - 0xf_fff0_0000_0000);
      assert q % PAGES == q - 0xf_fff0_0000_0000;
    }
  }

  lemma V2POfWindow(w: nat, offset: nat)
    requires KernelMap(w).Some? && w < PAGES && offset < 4096
    ensures V2P(0xffff_0000_0000_0000 + 4096 * w + offset) == 4096 * KernelMap(w).value.frame + offset
  {
    var v := 0xffff_0000_0000_0000 + 4096 * w + offset;
    if w < DIRECT_PAGE {
      assert U64(v - PAGE_OFFSET) == v - PAGE_OFFSET + TWO64;
    }
  }

  /** After that `_v2p` is the translation: for every address that is mapped it gives the
      physical address that the processor gives. */
  lemma V2PIsTranslation(mem0: Memory, mem: Memory, l: Layout, v: nat)
    requires Placed(mem0, l) && TablesBuilt(mem0, mem, l) && CanonicalAddress(v)
    requires Walk(Unmapped(mem, l), l.pml4, 4, PageOf(v)).Some?
    ensures V2P(v) == 4096 * Walk(Unmapped(mem, l), l.pml4, 4, PageOf(v)).value.frame + v % 4096
  {
    hide Placed, TablesBuilt, Walk, V2P, KernelMap, CanonicalAddress;
    UnmappedWalk(mem0, mem, l, PageOf(v));
    OnlyKernelPages(PageOf(v));
    KernelAddress(v);
    V2POfWindow(PageOf(v), v % 4096);
  }

  lemma OnlyKernelPages(w: nat)
    ensures KernelMap(w).Some? ==> w >= KERNEL_PAGE
  {
  }

  lemma V2POfP2V(p: nat)
    requires p < 4096 * FRAME_LIMIT
    ensures P2V(p) == PAGE_OFFSET + p && V2P(P2V(p)) == p
  {
  }

  lemma PageOfP2V(p: nat)
    requires p < 4096 * DIRECT_PAGES
    ensures PageOf(PAGE_OFFSET + p) == DIRECT_PAGE + p / 4096
  {
    assert (PAGE_OFFSET + p) / 4096 == PAGE_OFFSET / 4096 + p / 4096;
  }

  /** `_v2p` inverts `P2V` on all addresses below the end of the direct map's 2^64, and the
      first 640 GB of them are mapped where P2V says. */
  lemma P2VRoundTrip(mem0: Memory, mem: Memory, l: Layout, p: nat)
    requires Placed(mem0, l) && TablesBuilt(mem0, mem, l) && p < 4096 * FRAME_LIMIT
    ensures V2P(P2V(p)) == p
    ensures p < 4096 * DIRECT_PAGES ==>
              Walk(Unmapped(mem, l), l.pml4, 4, PageOf(P2V(p))) == Some(Mapping(p / 4096, true, false))
  {
    hide Placed, TablesBuilt, Walk, P2V, V2P, PageOf, Unmapped;
    V2POfP2V(p);
    if p < 4096 * DIRECT_PAGES {
      PageOfP2V(p);
      UnmappedWalk(mem0, mem, l, PageOf(P2V(p)));
    }
  }

  // ---- the tables that survive -----------------------------------------------------------

  /** PML4 slot of the direct map behind 128 GB.  Its table `kernel_pdp2` was allocated as
      EfiLoaderData, so that init_mem may list its frame as free. */
  const LOADER_SLOT: nat := 257

  /** Positions of the tables of the kernel half that the kernel never overwrites: those allocated
      as EfiUnusableMemory; with `all`, when kernel_pdp2 is not listed, that table and the
      tables below it too. */
  ghost function BootOwners(l: Layout, all: bool): (own: Owners)
  {
    var kept := {l.pml4, l.kernelPdp, l.kernelDir} + Frames(l.kernelTable, 16) + Frames(l.actualDir, 128);
    map f | f in kept + LoaderTables(l, all)
      :: PosOf(l, f)
  }

  ghost function LoaderTables(l: Layout, all: bool): set<nat>
  {
    if all then {l.kernelPdp2} + Frames(l.actualDir2, 512) else {}
  }

  /** The PML4 slots whose tables may be lost. */
  function Exempt(all: bool): set<nat>
  {
    if all then {} else {LOADER_SLOT}
  }

  /** Where the tables of the kernel half stand: level and prefix. */
  function PosOf(l: Layout, f: nat): Pos
  {
    if f == l.pml4 then Pos(4, 0)
    else if f == l.kernelPdp then Pos(3, 256)
    else if f == l.kernelDir then Pos(2, 131072)
    else if l.kernelTable <= f < l.kernelTable + 16 then Pos(1, 67108864 + (f - l.kernelTable))
    else if f == l.kernelPdp2 then Pos(3, 257)
    else if l.actualDir2 <= f < l.actualDir2 + 512 then Pos(2, 131584 + (f - l.actualDir2))
    else Pos(2, 131456 + if f < l.actualDir then 0 else f - l.actualDir)
  }

  /** The regions of the tables that survive. */
  predicate Surviving(r: nat, all: bool)
  {
    r in {0, 3, 5, 7, 8} || (all && r in {4, 6})
  }

  /** The position of a table of region r. */
  predicate Stands(l: Layout, r: nat, f: nat, p: Pos)
  {
    p == match r
      case 0 => Pos(4, 0)
      case 5 => Pos(3, 256)
      case 6 => Pos(3, 257)
      case 7 => Pos(2, 131072)
      case 8 => Pos(1, 67108864 + (if f < l.kernelTable then 0 else f - l.kernelTable))
      case 4 => Pos(2, 131584 + (if f < l.actualDir2 then 0 else f - l.actualDir2))
      case _ => Pos(2, 131456 + (if f < l.actualDir then 0 else f - l.actualDir))
  }

  /** The region of a table that survives. */
  lemma OwnedRegion(mem: Memory, l: Layout, all: bool, f: nat) returns (r: nat)
    requires Placed(mem, l) && f in BootOwners(l, all)
    ensures r < 9 && Surviving(r, all) && InRegion(l, r, f) && InTables(l, f) && f in mem && f < 0x100_0000_0000
    ensures Stands(l, r, f, BootOwners(l, all)[f])
  {
    hide Placed, InTables;
    r := if f == l.pml4 then 0 else if f == l.kernelPdp then 5 else if f == l.kernelDir then 7
         else if l.kernelTable <= f < l.kernelTable + 16 then 8 else if all && f == l.kernelPdp2 then 6
         else if all && l.actualDir2 <= f < l.actualDir2 + 512 then 4 else 3;
    OnlyRegion(mem, l, r, f);
  }

  /** A frame of such a region is a table that survives. */
  lemma OwnedChild(mem: Memory, l: Layout, all: bool, r: nat, f: nat)
    requires Placed(mem, l) && r < 9 && Surviving(r, all) && InRegion(l, r, f)
    ensures f in BootOwners(l, all) && f < 0x100_0000_0000 && Stands(l, r, f, BootOwners(l, all)[f])
  {
    hide Placed, InTables;
    OnlyRegion(mem, l, r, f);
  }

  /** The tables as init_mem leaves them. */
  ghost predicate TablesKept(mem: Memory, l: Layout, all: bool)
  {
    forall f, i: nat :: f in BootOwners(l, all) && i < ENTRIES
      ==> Load(mem, f, i) == if f == l.pml4 && i == 0 then ZERO else BootWord(l, f, i)
  }

  lemma BootLink(mem0: Memory, mem: Memory, l: Layout, all: bool, f: nat, i: nat)
    requires Placed(mem0, l) && TablesKept(mem, l, all) && f in BootOwners(l, all) && i < ENTRIES
    requires !(BootOwners(l, all)[f].level == 4 && i in Exempt(all))
    ensures LinkOk(BootOwners(l, all), BootOwners(l, all)[f], i, Load(mem, f, i))
    ensures UserPos(BootOwners(l, all)[f], i) ==>
              UserEntryOk(BootOwners(l, all), BootOwners(l, all)[f], i, Load(mem, f, i))
  {
    hide Placed, InTables, First, BootOwners;
    var r := OwnedRegion(mem0, l, all, f);
    OnlyRegion(mem0, l, r, f);
    UserConstants();
    match r
    case 0 =>
      if i == 256 {
        OwnedChild(mem0, l, all, 5, l.kernelPdp);
      } else if i == 257 {
        OwnedChild(mem0, l, all, 6, l.kernelPdp2);
      }
    case 5 =>
      if i == 0 {
        OwnedChild(mem0, l, all, 7, l.kernelDir);
      } else if i >= 384 {
        OwnedChild(mem0, l, all, 3, l.actualDir + (i - 384));
      }
    case 6 =>
      OwnedChild(mem0, l, all, 4, l.actualDir2 + i);
    case 7 =>
      if i < 16 {
        OwnedChild(mem0, l, all, 8, l.kernelTable + i);
      }
    case _ =>
  }

  lemma UserConstants()
    ensures First(256, 0) == 256 && First(256, 1) == 131072 && First(256, 2) == 67108864 && First(256, 3) == 34359738368
  {
    assert First(256, 1) == First(131072, 0);
    assert First(256, 2) == First(131072, 1) == First(67108864, 0);
    assert First(256, 3) == First(131072, 2) == First(67108864, 1) == First(34359738368, 0);
  }

  lemma OwnedReferenced(mem0: Memory, mem: Memory, l: Layout, all: bool, f: nat)
    requires Placed(mem0, l) && TablesKept(mem, l, all) && f in BootOwners(l, all) && f != l.pml4
    ensures Referenced(mem, BootOwners(l, all), f)
  {
    hide Placed, InTables, BootOwners;
    var r := OwnedRegion(mem0, l, all, f);
    OnlyRegion(mem0, l, r, f);
    var p := if r == 5 || r == 6 then l.pml4 else if r == 8 then l.kernelDir
             else if r == 4 then l.kernelPdp2 else l.kernelPdp;
    var i := if r == 5 then 256 else if r == 6 then 257 else if r == 7 then 0 else if r == 8 then f - l.kernelTable
             else if r == 4 then f - l.actualDir2 else 384 + (f - l.actualDir);
    var q := if r == 5 || r == 6 then 0 else if r == 8 then 7 else if r == 4 then 6 else 5;
    OwnedChild(mem0, l, all, q, p);
    OnlyRegion(mem0, l, q, p);
    assert Below(BootOwners(l, all), BootOwners(l, all)[p], i, f);
  }

  /** No user page is mapped, and the kernel half is closed to user mode. */
  lemma NothingForUsers(mem0: Memory, mem: Memory, l: Layout, all: bool, free: seq<Block>)
    requires Placed(mem0, l) && TablesKept(mem, l, all)
    ensures var k := Kernel(Machine(mem, free), l.pml4, {});
            AllWritable(k) && KernelPrivate(k) && forall w :: 0 <= w < USER_PAGES ==> View(k, w) == None
  {
    hide Placed, InTables, Walk, First, Prefix, Part, BootOwners;
    OnlyRegion(mem0, l, 0, l.pml4);
    OwnedChild(mem0, l, all, 0, l.pml4);
    forall w | 0 <= w < USER_PAGES
      ensures Walk(mem, l.pml4, 4, w) == None
    {
      UserPage(w, 4);
      ZeroWalk(mem, l.pml4, 4, w);
    }
  }

  lemma KeptTree(mem0: Memory, mem: Memory, l: Layout, all: bool)
    requires Placed(mem0, l) && TablesKept(mem, l, all)
    ensures TreeOk(mem, BootOwners(l, all), Exempt(all)) && UserTree(mem, BootOwners(l, all))
  {
    hide Placed, BootOwners, UserPos, UserEntryOk, LinkOk, TablesKept;
    var own := BootOwners(l, all);
    forall t, i | t in own && 0 <= i < ENTRIES
      ensures !(own[t].level == 4 && i in Exempt(all)) ==> LinkOk(own, own[t], i, Load(mem, t, i))
      ensures UserPos(own[t], i) ==> UserEntryOk(own, own[t], i, Load(mem, t, i))
    {
      if own[t].level == 4 && i in Exempt(all) {
        assert !UserPos(own[t], i) by { SlotIsKernel(mem0, l, all, t); }
      } else {
        BootLink(mem0, mem, l, all, t, i);
      }
    }
  }

  lemma SlotIsKernel(mem: Memory, l: Layout, all: bool, t: nat)
    requires Placed(mem, l) && t in BootOwners(l, all) && BootOwners(l, all)[t].level == 4
    ensures !UserPos(BootOwners(l, all)[t], LOADER_SLOT)
  {
    hide Placed, BootOwners;
    UserConstants();
    var r := OwnedRegion(mem, l, all, t);
  }

  /** None of these tables is used in the sense of `Used` but the PML4. */
  lemma OnlyRootUsed(mem: Memory, l: Layout, all: bool, t: nat)
    requires Placed(mem, l) && t in BootOwners(l, all)
    ensures !InUserHalf(BootOwners(l, all)[t])
  {
    hide Placed, BootOwners;
    UserConstants();
    var r := OwnedRegion(mem, l, all, t);
  }

  // ---- the start --------------------------------------------------------------------------

  /** The firmware reports no table as usable memory but the ones it allocated as EfiLoaderData. */
  ghost predicate Reserved(l: Layout, ds: seq<Descriptor>)
  {
    forall f, i :: f in BootOwners(l, true) && f != l.kernelPdp2 && 0 <= i < |ds| && Usable(ds[i])
      ==> !InDescriptor(ds[i], f)
  }

  /** init_mem will not list kernel_pdp2. */
  ghost predicate LoaderKept(l: Layout, ds: seq<Descriptor>)
  {
    !TakenPage(ds, 0, Closed(ds), l.kernelPdp2)
  }

  /** The PML4 and all usable memory lie in the part of the direct map that lasts: 640 GB, or 128 GB
      if kernel_pdp2 is going to be listed. */
  ghost predicate InReach(l: Layout, ds: seq<Descriptor>)
  {
    var limit := if LoaderKept(l, ds) then DIRECT_PAGES else IDENTITY_PAGES;
    l.pml4 < limit && forall i :: 0 <= i < |ds| && Usable(ds[i]) ==> End(ds[i]) <= limit
  }

  lemma TablesUntaken(mem0: Memory, l: Layout, ds: seq<Descriptor>, f: nat)
    requires Placed(mem0, l) && Reserved(l, ds) && MapOk(ds) && f in BootOwners(l, LoaderKept(l, ds))
    ensures f in mem0 && !TakenPage(ds, 0, Closed(ds), f) && BootOwners(l, LoaderKept(l, ds))[f].level <= 4
  {
    hide Placed, BootOwners, TakenPage;
    ListedPages(ds);
    var r := OwnedRegion(mem0, l, LoaderKept(l, ds), f);
    OnlyRegion(mem0, l, r, f);
    OwnedChild(mem0, l, true, r, f);
  }

  lemma KeptByUnmapping(mem0: Memory, built: Memory, l: Layout, all: bool)
    requires Placed(mem0, l) && TablesBuilt(mem0, built, l)
    ensures TablesKept(Unmapped(built, l), l, all)
  {
    hide Placed, TablesBuilt, BootOwners;
    forall f, i: nat | f in BootOwners(l, all) && i < ENTRIES
      ensures Load(Unmapped(built, l), f, i) == if f == l.pml4 && i == 0 then ZERO else BootWord(l, f, i)
    {
      var r := OwnedRegion(mem0, l, all, f);
      UnmappedWord(mem0, built, l, f, i);
    }
  }

  lemma KernelWalks(mem0: Memory, built: Memory, mem: Memory, l: Layout, all: bool, w: nat)
    requires Placed(mem0, l) && TablesBuilt(mem0, built, l) && w < PAGES && Part(w, 4) !in Exempt(all)
    requires forall f :: f in BootOwners(l, all) ==> f in mem && f in built && mem[f] == Unmapped(built, l)[f]
    ensures Walk(mem, l.pml4, 4, w) == KernelMap(w)
  {
    hide Placed, TablesBuilt, BootOwners, Walk, First, Prefix, Part;
    KeptByUnmapping(mem0, built, l, all);
    KeptTree(mem0, Unmapped(built, l), l, all);
    OnlyRegion(mem0, l, 0, l.pml4);
    OwnedChild(mem0, l, all, 0, l.pml4);
    PagesIsEnd();
    Galois(w, 1, 4);
    WalkFrame(Unmapped(built, l), mem, BootOwners(l, all), Exempt(all), l.pml4, 4, w);
    UnmappedWalk(mem0, built, l, w);
  }

  /** Memory that differs from the tables as built at most in pages that get listed. */
  ghost predicate OnlyTaken(built: Memory, mem: Memory, l: Layout, ds: seq<Descriptor>)
  {
    && mem.Keys == built.Keys
    && forall f: nat :: f in mem && !TakenPage(ds, 0, Closed(ds), f) ==> mem[f] == Unmapped(built, l)[f]
  }

  lemma TablesIntact(mem0: Memory, built: Memory, mem: Memory, l: Layout, ds: seq<Descriptor>, f: nat)
    requires Placed(mem0, l) && TablesBuilt(mem0, built, l) && Reserved(l, ds) && MapOk(ds)
    requires OnlyTaken(built, mem, l, ds)
    requires f in BootOwners(l, LoaderKept(l, ds))
    ensures f in mem && f in built && mem[f] == Unmapped(built, l)[f]
  {
    hide Placed, TablesBuilt, BootOwners, TakenPage, MapOk, Reserved, LoaderKept;
    TablesUntaken(mem0, l, ds, f);
    BuiltKeys(mem0, built, l);
    assert f in mem0.Keys && f in mem.Keys;
  }

  /** The address of a frame of the direct map. */
  lemma DirectSlot(f: nat)
    requires f < DIRECT_PAGES
    ensures DIRECT_PAGE + f < PAGES && Part(DIRECT_PAGE + f, 4) == if f < IDENTITY_PAGES then 256 else 257
    ensures KernelMap(DIRECT_PAGE + f) == Some(Mapping(f, true, false))
  {
    DigitsOf(DIRECT_PAGE + f);
  }

  /** While init_mem runs and afterwards the direct map translates all pages that get listed. */
  lemma StartReach(mem0: Memory, built: Memory, mem: Memory, l: Layout, ds: seq<Descriptor>, f: nat)
    requires Placed(mem0, l) && TablesBuilt(mem0, built, l) && Reserved(l, ds) && MapOk(ds)
    requires OnlyTaken(built, mem, l, ds)
    requires InReach(l, ds) && (f == l.pml4 || TakenPage(ds, 0, Closed(ds), f))
    ensures DirectMapped(mem, l.pml4, f) && Part(DIRECT_PAGE + f, 4) !in Exempt(LoaderKept(l, ds))
  {
    hide Placed, TablesBuilt, BootOwners, Reserved, OnlyTaken, Walk, Part, LoaderKept;
    var all := LoaderKept(l, ds);
    var limit := if all then DIRECT_PAGES else IDENTITY_PAGES;
    assert f < limit by { TakenBelow(l, ds, f, limit); }
    DirectSlot(f);
    forall g | g in BootOwners(l, all)
      ensures g in mem && g in built && mem[g] == Unmapped(built, l)[g]
    {
      TablesIntact(mem0, built, mem, l, ds, g);
    }
    KernelWalks(mem0, built, mem, l, all, DIRECT_PAGE + f);
  }

  lemma TakenBelow(l: Layout, ds: seq<Descriptor>, f: nat, limit: nat)
    requires f == l.pml4 || TakenPage(ds, 0, Closed(ds), f)
    requires l.pml4 < limit && forall i :: 0 <= i < |ds| && Usable(ds[i]) ==> End(ds[i]) <= limit
    ensures f < limit
  {
    hide Closed;
  }

  /** What the start of memory management leaves, up to the reach of the direct map. */
  ghost predicate Poised(k: Kernel, l: Layout)
  {
    var all := !Listed(k.s.free, l.kernelPdp2);
    && Consistent(k, BootOwners(l, all), Exempt(all)) && k.root == l.pml4 && k.held == {}
    && l.kernelPdp2 in k.s.mem && l.kernelPdp2 < 0x100_0000_0000
         && Load(k.s.mem, l.pml4, LOADER_SLOT) == Link(l.kernelPdp2)
    && forall w :: USER_PAGES <= w < PAGES && Part(w, 4) !in Exempt(all) ==> Walk(k.s.mem, l.pml4, 4, w) == KernelMap(w)
  }

  /** ... and with the direct map translating all used frames. */
  ghost predicate Started(k: Kernel, l: Layout)
  {
    var all := !Listed(k.s.free, l.kernelPdp2);
    Poised(k, l) && DirectOk(k, BootOwners(l, all), Exempt(all))
  }

  lemma StartConsistent(mem0: Memory, built: Memory, mem: Memory, head: Ptr, free: seq<Block>, l: Layout,
                        ds: seq<Descriptor>)
    requires Placed(mem0, l) && TablesBuilt(mem0, built, l) && Reserved(l, ds) && MapOk(ds)
    requires FreeListOk(mem, head, free) && OnlyTaken(built, mem, l, ds)
    requires forall f: nat :: Listed(free, f) <==> TakenPage(ds, 0, Closed(ds), f)
    ensures head == PtrAt(free, 0)
    ensures var k, all := Kernel(Machine(mem, free), l.pml4, {}), LoaderKept(l, ds);
            Consistent(k, BootOwners(l, all), Exempt(all)) && forall w :: 0 <= w < USER_PAGES ==> View(k, w) == None
  {
    hide Placed, TablesBuilt, BootOwners, Walk, Listed, TakenPage, MapOk, Reserved, TreeOk, UserTree, AllWritable;
    hide KernelPrivate;
    hide Referenced, View, LoaderKept;
    var all := LoaderKept(l, ds);
    var own := BootOwners(l, all);
    KeptByUnmapping(mem0, built, l, all);
    forall f | f in own
      ensures f in mem && !Listed(free, f) && own[f].level <= 4 && mem[f] == Unmapped(built, l)[f]
    {
      TablesUntaken(mem0, l, ds, f);
      TablesIntact(mem0, built, mem, l, ds, f);
    }
    assert TablesKept(mem, l, all) by { SameKept(built, mem, l, all); }
    KeptTree(mem0, mem, l, all);
    NothingForUsers(mem0, mem, l, all, free);
    forall f | f in own && f != l.pml4
      ensures Referenced(mem, own, f)
    {
      OwnedReferenced(mem0, mem, l, all, f);
    }
    OnlyRegion(mem0, l, 0, l.pml4);
    OwnedChild(mem0, l, all, 0, l.pml4);
  }

  lemma SameKept(built: Memory, mem: Memory, l: Layout, all: bool)
    requires TablesKept(Unmapped(built, l), l, all)
    requires forall f :: f in BootOwners(l, all)
               ==> f in mem && f in Unmapped(built, l) && mem[f] == Unmapped(built, l)[f]
    ensures TablesKept(mem, l, all)
  {
    hide BootOwners, BootWord;
    forall f, i: nat | f in BootOwners(l, all) && i < ENTRIES
      ensures Load(mem, f, i) == Load(Unmapped(built, l), f, i)
    {
    }
  }

  lemma StartOk(mem0: Memory, built: Memory, mem: Memory, head: Ptr, free: seq<Block>, l: Layout, ds: seq<Descriptor>)
    requires Placed(mem0, l) && TablesBuilt(mem0, built, l) && Reserved(l, ds) && MapOk(ds) && InReach(l, ds)
    requires FreeListOk(mem, head, free) && OnlyTaken(built, mem, l, ds)
    requires forall f: nat :: Listed(free, f) <==> TakenPage(ds, 0, Closed(ds), f)
    ensures head == PtrAt(free, 0) && Started(Kernel(Machine(mem, free), l.pml4, {}), l)
    ensures forall w :: 0 <= w < USER_PAGES ==> View(Kernel(Machine(mem, free), l.pml4, {}), w) == None
  {
    hide Placed, TablesBuilt, BootOwners, Walk, Part, Listed, TakenPage, MapOk, Reserved, View, InReach, Consistent;
    hide DirectMapped, KernelMap, FreeListOk;
    hide InUserHalf;
    var k, all := Kernel(Machine(mem, free), l.pml4, {}), LoaderKept(l, ds);
    var own := BootOwners(l, all);
    StartConsistent(mem0, built, mem, head, free, l, ds);
    forall f | f in own
      ensures f in mem && f in built && mem[f] == Unmapped(built, l)[f]
    {
      TablesIntact(mem0, built, mem, l, ds, f);
    }
    forall w | USER_PAGES <= w < PAGES && Part(w, 4) !in Exempt(all)
      ensures Walk(mem, l.pml4, 4, w) == KernelMap(w)
    {
      KernelWalks(mem0, built, mem, l, all, w);
    }
    forall f: nat | Used(k, own, f)
      ensures DirectMapped(mem, l.pml4, f) && Part(DIRECT_PAGE + f, 4) !in Exempt(all)
    {
      if f in own {
        OnlyRootUsed(mem0, l, all, f);
      }
      StartReach(mem0, built, mem, l, ds, f);
    }
    LoaderLink(mem0, built, mem, l, all);
  }

  lemma LoaderLink(mem0: Memory, built: Memory, mem: Memory, l: Layout, all: bool)
    requires Placed(mem0, l) && TablesBuilt(mem0, built, l) && mem.Keys == built.Keys
    requires forall f :: f in BootOwners(l, all) ==> f in mem && f in built && mem[f] == Unmapped(built, l)[f]
    ensures l.kernelPdp2 in mem && l.kernelPdp2 < 0x100_0000_0000
    ensures Load(mem, l.pml4, LOADER_SLOT) == Link(l.kernelPdp2)
  {
    hide Placed, BootOwners, InTables;
    OnlyRegion(mem0, l, 6, l.kernelPdp2);
    OnlyRegion(mem0, l, 0, l.pml4);
    OwnedChild(mem0, l, all, 0, l.pml4);
    UnmappedWord(mem0, built, l, l.pml4, LOADER_SLOT);
    assert l.kernelPdp2 in mem0.Keys && l.kernelPdp2 in mem.Keys;
  }

  lemma BuiltKeys(mem0: Memory, mem: Memory, l: Layout)
    requires TablesBuilt(mem0, mem, l)
    ensures mem.Keys == mem0.Keys
  {
  }

  /** The start of the kernel's memory management: `actual_init_paging`, then `init_mem`.  Each
      header store of init_mem goes through a direct map that translates it, and the end is a
      state from which `RunRefines` holds for every run, with no user page mapped. */
  method Start(a: Allocator, l: Layout, ds: seq<Descriptor>, ghost mem0: Memory)
    returns (ghost stores: seq<(Memory, nat)>)
    requires Placed(mem0, l) && TablesBuilt(mem0, a.mem, l)
    requires MapOk(ds) && UsableInRam(ds, a.mem) && Reserved(l, ds) && InReach(l, ds) && a.head == Null && a.count == 0
    modifies a
    ensures a.head == PtrAt(a.free, 0) && Started(KernelOf(a, l.pml4, {}), l)
    ensures forall f: nat :: Listed(a.free, f) <==> TakenPage(ds, 0, Closed(ds), f)
    ensures forall i :: 0 <= i < |stores| ==> DirectMapped(stores[i].0, l.pml4, stores[i].1)
    ensures OnlyTaken(old(a.mem), a.mem, l, ds)
    ensures forall w :: 0 <= w < USER_PAGES ==> View(KernelOf(a, l.pml4, {}), w) == None
  {
    hide Placed, TablesBuilt, Reserved, InReach, MapOk, Started, DirectMapped, View, TakenPage, Walk, FreeListOk;
    ghost var built := a.mem;
    a.mem := Store(a.mem, l.pml4, 0, ZERO);
    ghost var unmapped := a.mem;
    stores := InitMem(a, ds);
    StartOk(mem0, built, a.mem, a.head, a.free, l, ds);
    forall i | 0 <= i < |stores|
      ensures DirectMapped(stores[i].0, l.pml4, stores[i].1)
    {
      assert HeaderStore(ds, unmapped, stores[i].0, stores[i].1);
      StartReach(mem0, built, stores[i].0, l, ds, stores[i].1);
    }
  }

  // ---- runs -------------------------------------------------------------------------------

  /** Over every run the kernel window and the first 128 GB of the direct map translate exactly as
      boot/boot.c set them up, and so do all other pages of the kernel half outside the
      exempt slots. */
  lemma WindowsSurvive(k: Kernel, l: Layout, es: seq<Event>)
    requires Started(k, l) && RunEnabled(k, es)
    ensures var all := !Listed(k.s.free, l.kernelPdp2);
            forall w :: USER_PAGES <= w < PAGES && Part(w, 4) !in Exempt(all)
              ==> Walk(Run(k, es).s.mem, l.pml4, 4, w) == KernelMap(w)
    ensures forall w :: KERNEL_PAGE <= w < KERNEL_PAGE + KERNEL_PAGES || DIRECT_PAGE <= w < DIRECT_PAGE + IDENTITY_PAGES
              ==> Walk(Run(k, es).s.mem, l.pml4, 4, w) == BootMap(w)
  {
    hide Consistent, DirectOk, Walk, Part, BootMap, Step, Listed, BootOwners;
    var all := !Listed(k.s.free, l.kernelPdp2);
    var own' := RunRefines(k, BootOwners(l, all), Exempt(all), es);
    forall w | KERNEL_PAGE <= w < KERNEL_PAGE + KERNEL_PAGES || DIRECT_PAGE <= w < DIRECT_PAGE + IDENTITY_PAGES
      ensures Part(w, 4) == 256
    {
      DigitsOf(w);
    }
  }

  /** A run that gets hold of kernel_pdp2 once it is listed, by requests for single pages, and
      clears one of its entries. */
  lemma {:induction false} LoseEntry(k: Kernel, own: Owners, exempt: set<nat>, l: Layout, i: nat)
    returns (es: seq<Event>)
    requires Consistent(k, own, exempt) && k.root == l.pml4 && Listed(k.s.free, l.kernelPdp2) && i < ENTRIES
    requires l.kernelPdp2 < 0x100_0000_0000 && Load(k.s.mem, l.pml4, LOADER_SLOT) == Link(l.kernelPdp2)
    ensures RunEnabled(k, es)
    ensures var mem := Run(k, es).s.mem;
            Load(mem, l.pml4, LOADER_SLOT) == Link(l.kernelPdp2) && Load(mem, l.kernelPdp2, i) == ZERO
    decreases BlockPages(k.s.free)
  {
    hide Consistent, Listed, AllocMemory, AllocBlocks, Canonical, BlockPages, Link;
    var k1 := Step(k, Allocate(1));
    FirstPage(k, own, exempt, l.kernelPdp2);
    AllocateKeeps(k, own, exempt, 1);
    SameRoot(k, own, exempt, k1);
    if k.s.free[0].start == l.kernelPdp2 {
      var e := Write(l.kernelPdp2, i, ZERO);
      es := [Allocate(1), e];
      assert l.kernelPdp2 in k1.held;
      assert es[1..] == [e] && [e][1..] == [];
      var k2 := Step(k1, e);
      assert RunEnabled(k2, []) && RunEnabled(k1, [e]) && Run(k1, [e]) == Run(k2, []);
    } else {
      var rest := LoseEntry(k1, own, exempt, l, i);
      es := [Allocate(1)] + rest;
      assert es[1..] == rest;
    }
  }

  /** A request for one page takes the first listed page, and only this. */
  lemma FirstPage(k: Kernel, own: Owners, exempt: set<nat>, f: nat)
    requires Consistent(k, own, exempt) && Listed(k.s.free, f)
    ensures k.s.free != [] && f in k.s.mem && f != k.root
    ensures AllocPtr(k.s.free, 1) == At(k.s.free[0].start)
    ensures f != k.s.free[0].start ==> Listed(AllocBlocks(k.s.free, 1), f)
    ensures BlockPages(AllocBlocks(k.s.free, 1)) == BlockPages(k.s.free) - 1 >= 0
  {
    hide AllocBlocks, UserTree, HeldOk, AllReferenced, AllWritable, KernelPrivate, TreeOk, BlockPages;
    assert Sized(k.s.free[0]);
    assert FirstFit(k.s.free, 1) == 0;
    AllocConserves(k.s.free, 1, f);
    OneLess(k.s.free);
  }

  lemma SameRoot(k: Kernel, own: Owners, exempt: set<nat>, k1: Kernel)
    requires Consistent(k, own, exempt) && k1.s.mem.Keys == k.s.mem.Keys
    requires forall f :: f in own ==> k1.s.mem[f] == k.s.mem[f]
    ensures Load(k1.s.mem, k.root, LOADER_SLOT) == Load(k.s.mem, k.root, LOADER_SLOT)
  {
    hide UserTree, HeldOk, AllReferenced, AllWritable, KernelPrivate, TreeOk, FreeListOk;
  }

  /** So once kernel_pdp2 is listed a run exists after which any given page of slot 257 is unmapped. */
  lemma PageLost(k: Kernel, l: Layout, w: nat) returns (es: seq<Event>)
    requires Poised(k, l) && Listed(k.s.free, l.kernelPdp2) && w < PAGES && Part(w, 4) == LOADER_SLOT
    ensures RunEnabled(k, es) && Walk(Run(k, es).s.mem, l.pml4, 4, w) == None
  {
    hide Consistent, Listed, BootOwners, Walk, Part, Link;
    es := LoseEntry(k, BootOwners(l, false), Exempt(false), l, Part(w, 3));
    var mem := Run(k, es).s.mem;
    ZeroWalk(mem, l.kernelPdp2, 3, w);
    LinkWalk(mem, l.pml4, 4, w, l.kernelPdp2);
  }

  /** All 640 GB of the direct map translate as built. */
  ghost predicate DirectMapWhole(mem: Memory, l: Layout)
  {
    forall w :: DIRECT_PAGE <= w < DIRECT_PAGE + DIRECT_PAGES ==> Walk(mem, l.pml4, 4, w) == KernelMap(w)
  }

  /** The direct map stays whole over every run if and only if init_mem has not listed kernel_pdp2. */
  lemma DirectMapSurvivesIff(k: Kernel, l: Layout)
    requires Started(k, l)
    ensures (forall es :: RunEnabled(k, es) ==> DirectMapWhole(Run(k, es).s.mem, l))
              <==> !Listed(k.s.free, l.kernelPdp2)
  {
    hide Consistent, DirectOk, Walk, Part, Listed, BootOwners, KernelMap;
    if Listed(k.s.free, l.kernelPdp2) {
      var w := DIRECT_PAGE + IDENTITY_PAGES;
      DirectSlot(IDENTITY_PAGES);
      var es := PageLost(k, l, w);
      assert !DirectMapWhole(Run(k, es).s.mem, l);
    } else {
      forall es | RunEnabled(k, es)
        ensures DirectMapWhole(Run(k, es).s.mem, l)
      {
        WindowsSurvive(k, l, es);
      }
    }
  }

  /** The frames in use at the start; they stay in use. */
  ghost predicate InUse(k: Kernel, l: Layout, f: nat)
  {
    Used(k, BootOwners(l, !Listed(k.s.free, l.kernelPdp2)), f)
  }

  ghost predicate InUseBelow(k: Kernel, l: Layout, limit: nat)
  {
    forall f: nat :: InUse(k, l, f) ==> f < limit
  }

  /** The direct map translates the frames in use. */
  ghost predicate InReachAfter(k: Kernel, l: Layout, es: seq<Event>)
    requires RunEnabled(k, es)
  {
    forall f: nat :: InUse(k, l, f) ==> DirectMapped(Run(k, es).s.mem, l.pml4, f)
  }

  /** No frame behind 640 GB has an address in the direct map. */
  lemma BeyondReach(k: Kernel, l: Layout, f: nat)
    requires Poised(k, l) && f >= DIRECT_PAGES
    ensures !DirectMapped(k.s.mem, l.pml4, f)
  {
    hide Consistent, Walk, Part, Listed, BootOwners;
    if DIRECT_PAGE + f < PAGES {
      DigitsOf(DIRECT_PAGE + f);
    }
  }

  /** The kernel can reach all memory it manages, after every run, if and only if all of it lies below
      640 GB and kernel_pdp2 is not listed, or all of it lies below 128 GB. */
  lemma ReachIff(k: Kernel, l: Layout)
    requires Poised(k, l)
    ensures (forall es :: RunEnabled(k, es) ==> InReachAfter(k, l, es))
       <==> (!Listed(k.s.free, l.kernelPdp2) && InUseBelow(k, l, DIRECT_PAGES)) || InUseBelow(k, l, IDENTITY_PAGES)
  {
    hide Consistent, Walk, Part, Listed, BootOwners, KernelMap, InUse, BootMap, DirectMapped;
    if !InUseBelow(k, l, DIRECT_PAGES) {
      var f: nat :| InUse(k, l, f) && f >= DIRECT_PAGES;
      BeyondReach(k, l, f);
      assert RunEnabled(k, []) && !InReachAfter(k, l, []);
    } else if Listed(k.s.free, l.kernelPdp2) && !InUseBelow(k, l, IDENTITY_PAGES) {
      var f: nat :| InUse(k, l, f) && f >= IDENTITY_PAGES;
      var es := FrameLost(k, l, f);
      assert !InReachAfter(k, l, es);
    } else {
      ReachStarted(k, l);
      forall es | RunEnabled(k, es)
        ensures InReachAfter(k, l, es)
      {
        ReachKept(k, l, es);
      }
    }
  }

  lemma FrameLost(k: Kernel, l: Layout, f: nat) returns (es: seq<Event>)
    requires Poised(k, l) && Listed(k.s.free, l.kernelPdp2) && IDENTITY_PAGES <= f < DIRECT_PAGES
    ensures RunEnabled(k, es) && !DirectMapped(Run(k, es).s.mem, l.pml4, f)
  {
    hide Poised, Walk, Part, Listed, KernelMap;
    DirectSlot(f);
    es := PageLost(k, l, DIRECT_PAGE + f);
  }

  lemma ReachStarted(k: Kernel, l: Layout)
    requires Poised(k, l) && InUseBelow(k, l, DIRECT_PAGES)
    requires Listed(k.s.free, l.kernelPdp2) ==> InUseBelow(k, l, IDENTITY_PAGES)
    ensures Started(k, l)
  {
    hide Consistent, Walk, Part, Listed, BootOwners, KernelMap, Used;
    var all := !Listed(k.s.free, l.kernelPdp2);
    forall f: nat | Used(k, BootOwners(l, all), f)
      ensures DirectMapped(k.s.mem, l.pml4, f) && Part(DIRECT_PAGE + f, 4) !in Exempt(all)
    {
      assert InUse(k, l, f);
      DirectSlot(f);
    }
  }

  lemma ReachKept(k: Kernel, l: Layout, es: seq<Event>)
    requires Started(k, l) && InUseBelow(k, l, DIRECT_PAGES) && RunEnabled(k, es)
    ensures InReachAfter(k, l, es)
  {
    hide Consistent, Walk, Part, Listed, BootOwners, KernelMap, Used, BootMap;
    var all := !Listed(k.s.free, l.kernelPdp2);
    WindowsSurvive(k, l, es);
    forall f: nat | InUse(k, l, f)
      ensures DirectMapped(Run(k, es).s.mem, l.pml4, f)
    {
      assert Used(k, BootOwners(l, all), f);
      DirectSlot(f);
    }
  }
}
