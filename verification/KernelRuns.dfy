/**
 From power-on to any later moment: loading the image, building the tables, starting memory
 management, and then every run.  Pages that the firmware keeps apart, such as those of the
 kernel image, are never touched, so the kernel is found at its addresses for good.
 */
module KernelRuns {
  import opened PhysicalMemory
  import opened Radix
  import opened Translation
  import opened FreeList
  import opened MemoryInit
  import opened Paging
  import opened PageFaults
  import opened BootTables
  import opened KernelStart
  import opened KernelImage

  /** A page of RAM that is neither in the tree nor listed nor held. */
  ghost predicate SetApart(k: Kernel, own: Owners, f: nat)
  {
    f in k.s.mem && f !in own && !Listed(k.s.free, f) && f !in k.held
  }

  /** Pages apart stay apart and keep their content. */
  ghost predicate ApartKept(k: Kernel, own: Owners, k': Kernel, own': Owners)
  {
    forall f :: SetApart(k, own, f) ==> SetApart(k', own', f) && k'.s.mem[f] == k.s.mem[f]
  }

  lemma AllocateApart(k: Kernel, own: Owners, exempt: set<nat>, n: nat)
    requires Consistent(k, own, exempt) && n < WRAP
    ensures ApartKept(k, own, Step(k, Allocate(n)), own)
  {
    hide AllocMemory, AllocBlocks, Canonical, Linked, Listed, FirstFit, UserTree, TreeOk, AllReferenced, AllWritable;
    hide KernelPrivate;
    var k' := Step(k, Allocate(n));
    forall f | SetApart(k, own, f)
      ensures SetApart(k', own, f) && k'.s.mem[f] == k.s.mem[f]
    {
      AllocConserves(k.s.free, n, f);
      AllocWritesListed(k.s.mem, k.s.free, n, f);
    }
  }

  lemma FaultApart(k: Kernel, own: Owners, k': Kernel, own': Owners)
    requires Grows(k.s, own, k'.s, own') && k'.held == k.held
    ensures ApartKept(k, own, k', own')
  {
    hide Listed, Referenced;
  }

  lemma StoreApart(k: Kernel, own: Owners, f: nat, i: nat, w: Word)
    requires i < ENTRIES && !SetApart(k, own, f)
    ensures ApartKept(k, own, k.(s := k.s.(mem := Store(k.s.mem, f, i, w))), own)
  {
    hide Listed;
  }

  lemma StepKeepsApart(k: Kernel, own: Owners, exempt: set<nat>, e: Event) returns (own': Owners)
    requires Consistent(k, own, exempt) && Enabled(k, e)
    ensures Consistent(Step(k, e), own', exempt) && ApartKept(k, own, Step(k, e), own')
  {
    hide Consistent, SetupPageMap, Walk, AllocMemory, AllocBlocks, Grows, ApartKept, Listed, Store;
    own' := own;
    assert ApartKept(k, own, k, own) by { NothingDone(k, own); }
    match e
    case Allocate(n) =>
      AllocateKeeps(k, own, exempt, n);
      AllocateApart(k, own, exempt, n);
    case Write(f, i, x) =>
      HeldFrame(k, own, exempt, f);
      StoreKeeps(k, own, exempt, f, i, x);
      StoreApart(k, own, f, i, x);
    case Fault(error, cr2, brk) =>
      if Serves(error, cr2, brk) {
        own' := FaultKeeps(k, own, exempt, cr2 / 4096);
        FaultApart(k, own, Step(k, e), own');
      }
    case UserWrite(v, i, x) =>
      if UserWritable(Walk(k.s.mem, k.root, 4, v)) {
        var f := Walk(k.s.mem, k.root, 4, v).value.frame;
        WritablePage(k, own, exempt, v);
        StoreKeeps(k, own, exempt, f, i, x);
        StoreApart(k, own, f, i, x);
      }
  }

  lemma NothingDone(k: Kernel, own: Owners)
    ensures ApartKept(k, own, k, own)
  {
  }

  lemma ApartTwice(k: Kernel, own: Owners, k1: Kernel, own1: Owners, k2: Kernel, own2: Owners)
    requires ApartKept(k, own, k1, own1) && ApartKept(k1, own1, k2, own2)
    ensures ApartKept(k, own, k2, own2)
  {
    hide SetApart;
  }

  lemma {:induction false} ApartOverRun(k: Kernel, own: Owners, exempt: set<nat>, es: seq<Event>) returns (own': Owners)
    requires Consistent(k, own, exempt) && RunEnabled(k, es)
    ensures ApartKept(k, own, Run(k, es), own')
    decreases |es|
  {
    hide Consistent, Step, ApartKept, Enabled;
    own' := own;
    NothingDone(k, own);
    if es != [] {
      var k1 := Step(k, es[0]);
      var own1 := StepKeepsApart(k, own, exempt, es[0]);
      own' := ApartOverRun(k1, own1, exempt, es[1..]);
      ApartTwice(k, own, k1, own1, Run(k, es), own');
    }
  }

  /** No run touches a page apart; all stores of a run go where the direct map puts them. */
  lemma RunKeepsApart(k: Kernel, own: Owners, exempt: set<nat>, es: seq<Event>) returns (own': Owners)
    requires KernelOk(k, own, exempt) && RunEnabled(k, es)
    ensures ApartKept(k, own, Run(k, es), own')
  {
    hide Consistent, DirectOk, ApartKept, Run;
    own' := ApartOverRun(k, own, exempt, es);
  }

  // ---- the kernel image -------------------------------------------------------------------------

  /** The firmware reports no page of the image as usable. */
  ghost predicate ImageReserved(segs: seq<Segment>, ds: seq<Descriptor>)
  {
    forall i, x: nat, j :: 0 <= i < |segs| && InSegment(segs[i], x) && 0 <= j < |ds| && Usable(ds[j])
      ==> !InDescriptor(ds[j], x / 4096)
  }

  /** The image is in place, apart from all that the kernel manages. */
  ghost predicate ImageReady(k: Kernel, l: Layout, segs: seq<Segment>, file: seq<Octet>)
  {
    && Started(k, l) && AllReadable(k.s.mem, l.pml4, segs, file)
    && forall i, x: nat :: 0 <= i < |segs| && InSegment(segs[i], x) ==> SetApart(k, StartOwners(k, l), x / 4096)
  }

  ghost function StartOwners(k: Kernel, l: Layout): Owners
  {
    BootOwners(l, !Listed(k.s.free, l.kernelPdp2))
  }

  /** A byte of the image in its page. */
  lemma SameImageByte(mem: Memory, mem': Memory, x: nat)
    requires x / 4096 in mem && x / 4096 in mem' && mem'[x / 4096] == mem[x / 4096]
    ensures LoadByte(mem', x) == LoadByte(mem, x)
  {
    hide Byte, Value;
  }

  lemma OneByteSurvives(k: Kernel, k': Kernel, own': Owners, l: Layout, segs: seq<Segment>, file: seq<Octet>, i: nat,
                        v: nat)
    requires ImageOk(segs, file) && ImageReady(k, l, segs, file) && ApartKept(k, StartOwners(k, l), k', own')
    requires Walk(k'.s.mem, l.pml4, 4, PageOf(v)) == Walk(k.s.mem, l.pml4, 4, PageOf(v)) == KernelMap(PageOf(v))
    requires i < |segs| && Loads(segs[i]) && segs[i].vaddr <= v < segs[i].vaddr + segs[i].memsz
    ensures Readable(k'.s.mem, l.pml4, segs[i], file, v)
  {
    hide Started, Walk, LoadByte, Physical, Intended, Loads, BootMap, KernelMap, Listed, StartOwners;
    NoWrap(segs, file, i);
    KernelPage(v);
    PhysicalSegment(segs, file, i, v);
    var x := Physical(v);
    assert SetApart(k, StartOwners(k, l), x / 4096);
    SameImageByte(k.s.mem, k'.s.mem, x);
    LoadsType(segs[i]);
    assert Readable(k.s.mem, l.pml4, segs[i], file, v);
  }

  lemma KernelSlot(w: nat)
    requires KERNEL_PAGE <= w < KERNEL_PAGE + KERNEL_PAGES
    ensures Part(w, 4) == 256
  {
    DigitsOf(w);
  }

  /** After any run of allocations, stores, faults and user programs, each address of the kernel
      image still reads, through the tables, as the byte of the file or the zero fill. */
  lemma ImageSurvives(k: Kernel, l: Layout, segs: seq<Segment>, file: seq<Octet>, es: seq<Event>)
    requires ImageOk(segs, file) && ImageReady(k, l, segs, file) && RunEnabled(k, es)
    ensures AllReadable(Run(k, es).s.mem, l.pml4, segs, file)
  {
    hide Consistent, DirectOk, Walk, Part, Loads, ApartKept, BootOwners, Readable, KernelMap, BootMap, ImageOk;
    hide InSegment, SetApart, Listed;
    var all := !Listed(k.s.free, l.kernelPdp2);
    var own' := RunKeepsApart(k, StartOwners(k, l), Exempt(all), es);
    var k' := Run(k, es);
    forall i, v: nat | 0 <= i < |segs| && segs[i].kind % 0x1_0000 == 1
                       && segs[i].vaddr <= v < segs[i].vaddr + segs[i].memsz
      ensures Readable(k'.s.mem, l.pml4, segs[i], file, v)
    {
      LoadsType(segs[i]);
      NoWrap(segs, file, i);
      KernelPage(v);
      KernelSlot(PageOf(v));
      WindowsSurvive(k, l, es);
      OneByteSurvives(k, k', own', l, segs, file, i, v);
    }
  }

  // ---- from power-on ------------------------------------------------------------------------------

  /** The pages of the image are apart when memory management starts. */
  lemma ImageSetApart(loaded: Memory, k: Kernel, l: Layout, segs: seq<Segment>, ds: seq<Descriptor>, i: nat, x: nat)
    requires Placed(loaded, l) && ImageInRam(segs, loaded) && ImageApart(segs, l) && ImageReserved(segs, ds)
    requires MapOk(ds)
    requires k.s.mem.Keys == loaded.Keys && k.held == {} && i < |segs| && InSegment(segs[i], x)
    requires forall f: nat :: Listed(k.s.free, f) <==> TakenPage(ds, 0, Closed(ds), f)
    ensures SetApart(k, StartOwners(k, l), x / 4096)
  {
    hide Placed, BootOwners, Listed, TakenPage, InTables, InSegment;
    ListedPages(ds);
    if x / 4096 in StartOwners(k, l) {
      var r := OwnedRegion(loaded, l, !Listed(k.s.free, l.kernelPdp2), x / 4096);
      assert false;
    }
    assert x / 4096 in loaded.Keys;
  }

  /** What is readable through the tables as built is readable once they are in use. */
  lemma StartReadable(loaded: Memory, built: Memory, mem: Memory, l: Layout, segs: seq<Segment>, file: seq<Octet>,
                      i: nat, v: nat)
    requires ImageOk(segs, file) && Placed(loaded, l) && TablesBuilt(loaded, built, l)
    requires i < |segs| && Loads(segs[i]) && segs[i].vaddr <= v < segs[i].vaddr + segs[i].memsz
    requires Readable(Unmapped(built, l), l.pml4, segs[i], file, v)
    requires var f := Physical(v) / 4096; f in mem && f in built && mem[f] == Unmapped(built, l)[f]
    requires Walk(mem, l.pml4, 4, PageOf(v)) == KernelMap(PageOf(v))
    ensures Readable(mem, l.pml4, segs[i], file, v)
  {
    hide Placed, TablesBuilt, Walk, LoadByte, Physical, Intended, Loads, BootMap, KernelMap, Unmapped;
    NoWrap(segs, file, i);
    KernelPage(v);
    UnmappedWalk(loaded, built, l, PageOf(v));
    SameImageByte(Unmapped(built, l), mem, Physical(v));
  }

  lemma BootReady(loaded: Memory, built: Memory, k: Kernel, l: Layout, segs: seq<Segment>, file: seq<Octet>,
                  ds: seq<Descriptor>)
    requires ImageOk(segs, file) && ImageInRam(segs, loaded) && ImageApart(segs, l) && ImageReserved(segs, ds)
    requires MapOk(ds)
    requires Placed(loaded, l) && TablesBuilt(loaded, built, l) && AllReadable(Unmapped(built, l), l.pml4, segs, file)
    requires Started(k, l) && OnlyTaken(built, k.s.mem, l, ds)
    requires forall f: nat :: Listed(k.s.free, f) <==> TakenPage(ds, 0, Closed(ds), f)
    ensures ImageReady(k, l, segs, file)
  {
    hide Placed, TablesBuilt, ImageOk, ImageInRam, ImageApart, Loads, MapOk, ImageReserved, Consistent, DirectOk, Walk;
    hide Part, InSegment, Readable, StartOwners;
    hide Listed, TakenPage, Physical, KernelMap;
    BuiltKeys(loaded, built, l);
    forall i, x: nat | 0 <= i < |segs| && InSegment(segs[i], x)
      ensures SetApart(k, StartOwners(k, l), x / 4096)
    {
      ImageSetApart(loaded, k, l, segs, ds, i, x);
    }
    forall i, v: nat | 0 <= i < |segs| && segs[i].kind % 0x1_0000 == 1
                       && segs[i].vaddr <= v < segs[i].vaddr + segs[i].memsz
      ensures Readable(k.s.mem, l.pml4, segs[i], file, v)
    {
      LoadsType(segs[i]);
      PhysicalSegment(segs, file, i, v);
      NoWrap(segs, file, i);
      KernelPage(v);
      KernelSlot(PageOf(v));
      ImageSetApart(loaded, k, l, segs, ds, i, Physical(v));
      assert Physical(v) / 4096 in k.s.mem.Keys;
      StartReadable(loaded, built, k.s.mem, l, segs, file, i, v);
    }
  }

  /** Loading the kernel, building the tables, and the start of memory management, one after the
      other: they end in a state from which `ImageSurvives` and `RunRefines` hold for every run. */
  method Boot(m: Loader, a: Allocator, segs: seq<Segment>, file: seq<Octet>, l: Layout, ds: seq<Descriptor>)
    requires ImageOk(segs, file) && |file| < TWO64 && ImageInRam(segs, m.mem) && Disjoint(segs) && Fits(segs)
    requires ImageApart(segs, l)
    requires Placed(m.mem, l) && MapOk(ds) && UsableInRam(ds, m.mem) && Reserved(l, ds) && InReach(l, ds)
    requires ImageReserved(segs, ds)
    requires a.head == Null && a.count == 0
    modifies m, a
    ensures a.head == PtrAt(a.free, 0) && ImageReady(KernelOf(a, l.pml4, {}), l, segs, file)
  {
    hide Placed, TablesBuilt, ImageOk, ImageInRam, ImageApart, Disjoint, Fits, Loads, MapOk, UsableInRam, Reserved;
    hide InReach, ImageReserved;
    hide Started, AllReadable, Walk, Part, Listed, TakenPage, BootOwners, Unmapped, ImageReady;
    ghost var mem0 := m.mem;
    ghost var loaded;
    var start, pages;
    start, pages, loaded := LoadKernel(m, segs, file, l);
    SameRam(mem0, loaded, m.mem, l, segs, ds);
    a.mem := m.mem;
    ghost var built := m.mem;
    ghost var _ := Start(a, l, ds, loaded);
    BootReady(loaded, built, KernelOf(a, l.pml4, {}), l, segs, file, ds);
  }

  lemma SameRam(mem0: Memory, loaded: Memory, built: Memory, l: Layout, segs: seq<Segment>, ds: seq<Descriptor>)
    requires loaded.Keys == mem0.Keys && TablesBuilt(loaded, built, l) && UsableInRam(ds, mem0)
    requires ImageInRam(segs, mem0)
    ensures UsableInRam(ds, built) && ImageInRam(segs, loaded)
  {
    forall f | f in mem0
      ensures f in built && f in loaded
    {
      assert f in mem0.Keys;
    }
  }
}
