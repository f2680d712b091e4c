/**
 `init_mem` of kernel/mem.c: the free list is built from the UEFI memory map.  A run of
 adjacent usable descriptors becomes one block when an unusable descriptor ends it.
 Addresses are frame numbers: UEFI reports 4096-byte aligned regions.
 */
module MemoryInit {
  import opened PhysicalMemory
  import opened FreeList

  datatype Descriptor = Descriptor(kind: nat, start: nat, pages: nat)

  /** `isUsableMemType`, which takes 16 bits of the type: EfiLoaderCode, EfiLoaderData,
      EfiBootServicesCode, EfiBootServicesData and EfiConventionalMemory. */
  predicate Usable(d: Descriptor)
  {
    d.kind % 0x1_0000 in {1, 2, 3, 4, 7}
  }

  function End(d: Descriptor): nat
  {
    d.start + d.pages
  }

  function UsablePages(ds: seq<Descriptor>): nat
  {
    if ds == [] then 0
    else UsablePages(ds[..|ds| - 1]) + if Usable(ds[|ds| - 1]) then ds[|ds| - 1].pages else 0
  }

  /** A memory map in address order without overlaps or empty regions, with fewer than 2^32 usable
      pages, all of them in the 640 GB of the direct map. */
  ghost predicate MapOk(ds: seq<Descriptor>)
  {
    && (forall i :: 0 <= i < |ds| ==> ds[i].pages > 0)
    && (forall i :: 0 <= i < |ds| && Usable(ds[i]) ==> End(ds[i]) <= DIRECT_PAGES)
    && (forall i, j :: 0 <= i < j < |ds| ==> End(ds[i]) <= ds[j].start)
    && UsablePages(ds) < TWO32
  }

  /** Descriptor i is taken into a run: it opens one, because the descriptor before it is
      unusable or is dropped for starting at address 0, or it follows without a gap. */
  predicate Taken(ds: seq<Descriptor>, i: nat)
    requires i < |ds|
  {
    && Usable(ds[i]) && ds[i].start != 0
    && (i == 0 || !Usable(ds[i - 1]) || ds[i - 1].start == 0 || (Taken(ds, i - 1) && End(ds[i - 1]) == ds[i].start))
  }

  predicate InDescriptor(d: Descriptor, f: nat)
  {
    d.start <= f < End(d)
  }

  /** f is a page of a descriptor taken among those numbered lo to hi - 1. */
  ghost predicate TakenPage(ds: seq<Descriptor>, lo: nat, hi: nat, f: nat)
    requires hi <= |ds|
  {
    exists k :: lo <= k < hi && Taken(ds, k) && InDescriptor(ds[k], f)
  }

  /** One past the last unusable descriptor. */
  function Closed(ds: seq<Descriptor>): (u: nat)
    ensures u <= |ds|
    ensures u > 0 ==> !Usable(ds[u - 1])
    ensures forall k :: u <= k < |ds| ==> Usable(ds[k])
  {
    if ds == [] then 0
    else if !Usable(ds[|ds| - 1]) then |ds|
    else Closed(ds[..|ds| - 1])
  }

  lemma {:induction false} UsablePagesPrefix(ds: seq<Descriptor>, i: nat)
    requires i <= |ds|
    ensures UsablePages(ds[..i]) <= UsablePages(ds)
    decreases |ds|
  {
    if i < |ds| {
      UsablePagesPrefix(ds[..|ds| - 1], i);
      assert ds[..|ds| - 1][..i] == ds[..i];
    } else {
      assert ds[..i] == ds;
    }
  }

  /** A block linked in behind the last one. */
  lemma AppendLinked(mem: Memory, head: Ptr, bs: seq<Block>, b: Block)
    requires Linked(mem, head, bs) && b.start in mem && Canonical(bs) && Sized(b) && b.pages < TWO32
    requires forall i :: 0 <= i < |bs| ==> Apart(bs[i], b)
    ensures var m1 := SetHeader(mem, b.start, Null, b.pages);
            var m2 := if bs == [] then m1 else SetNext(m1, bs[|bs| - 1].start, At(b.start));
            Linked(m2, if bs == [] then At(b.start) else head, bs + [b])
  {
    hide Next, Count, SetNext, SetHeader;
    var m1 := SetHeader(mem, b.start, Null, b.pages);
    SetHeaderEffect(mem, b.start, Null, b.pages);
    var m2 := if bs == [] then m1 else SetNext(m1, bs[|bs| - 1].start, At(b.start));
    forall i | 0 <= i < |bs| + 1
      ensures Node(m2, bs + [b], i)
    {
      if i < |bs| {
        assert Node(mem, bs, i);
        SameHeader(mem, m1, bs[i].start);
        if i == |bs| - 1 {
          SetNextEffect(m1, bs[i].start, At(b.start));
        } else {
          assert Apart(bs[i], bs[|bs| - 1]);
          SameHeader(m1, m2, bs[i].start);
        }
      } else if bs != [] {
        assert Apart(bs[|bs| - 1], b);
        SameHeader(m1, m2, b.start);
      }
    }
  }

  /** The open run after i descriptors, (0, _) if there is none; u descriptors are closed. */
  ghost predicate OpenRun(ds: seq<Descriptor>, i: nat, u: nat, start: nat, pages: nat)
    requires u <= i <= |ds|
  {
    && (start != 0 <==> i > 0 && Usable(ds[i - 1]) && ds[i - 1].start != 0)
    && (start != 0 ==>
          && pages > 0 && start + pages <= End(ds[i - 1])
          && (Taken(ds, i - 1) <==> start + pages == End(ds[i - 1])))
    && (forall f: nat :: TakenPage(ds, u, i, f) <==> start != 0 && start <= f < start + pages)
  }

  lemma TakenPageSnoc(ds: seq<Descriptor>, lo: nat, i: nat, f: nat)
    requires lo <= i < |ds|
    ensures TakenPage(ds, lo, i + 1, f) <==> TakenPage(ds, lo, i, f) || (Taken(ds, i) && InDescriptor(ds[i], f))
  {
    hide Taken;
  }

  /** A usable descriptor opens a run, extends it, or is dropped. */
  lemma UsableStep(ds: seq<Descriptor>, i: nat, u: nat, start: nat, pages: nat)
    requires MapOk(ds) && u <= i < |ds| && OpenRun(ds, i, u, start, pages) && Usable(ds[i])
    ensures var d := ds[i];
            var (start1, pages1) := if start == 0 then (d.start, d.pages) else (start, pages);
            OpenRun(ds, i + 1, u, start1, if start1 + pages1 == d.start then pages1 + d.pages else pages1)
  {
    hide TakenPage, UsablePages;
    var d, i1 := ds[i], i + 1;
    assert i > 0 ==> End(ds[i - 1]) <= d.start;
    var (start1, pages1) := if start == 0 then (d.start, d.pages) else (start, pages);
    var pages2 := if start1 + pages1 == d.start then pages1 + d.pages else pages1;
    assert Taken(ds, i) <==> start1 != 0 && start1 + pages2 == End(d);
    forall f: nat
      ensures TakenPage(ds, u, i1, f) <==> start1 != 0 && start1 <= f < start1 + pages2
    {
      TakenPageSnoc(ds, u, i, f);
    }
  }

  /** The blocks closed after i descriptors, with (start, pages) still open. */
  ghost predicate Built(ds: seq<Descriptor>, i: nat, u: nat, bs: seq<Block>, start: nat, pages: nat)
    requires u <= i <= |ds|
  {
    && Canonical(bs)
    && (bs != [] ==> i > 0 && bs[|bs| - 1].start + bs[|bs| - 1].pages < if start != 0 then start else End(ds[i - 1]))
    && (forall f: nat :: Listed(bs, f) <==> TakenPage(ds, 0, u, f))
    && BlockPages(bs) + (if start != 0 then pages else 0) <= UsablePages(ds[..i])
  }

  lemma UsablePagesNext(ds: seq<Descriptor>, i: nat)
    requires i < |ds|
    ensures UsablePages(ds[..i + 1]) == UsablePages(ds[..i]) + if Usable(ds[i]) then ds[i].pages else 0
  {
    assert ds[..i + 1][..i] == ds[..i];
  }

  lemma UsableBuilt(ds: seq<Descriptor>, i: nat, u: nat, bs: seq<Block>, start: nat, pages: nat)
    requires MapOk(ds) && u <= i < |ds| && OpenRun(ds, i, u, start, pages) && Built(ds, i, u, bs, start, pages)
    requires Usable(ds[i])
    ensures var d := ds[i];
            var (start1, pages1) := if start == 0 then (d.start, d.pages) else (start, pages);
            Built(ds, i + 1, u, bs, start1, if start1 + pages1 == d.start then pages1 + d.pages else pages1)
  {
    hide TakenPage, UsablePages, Taken, Listed, BlockPages;
    UsablePagesNext(ds, i);
    assert i > 0 ==> End(ds[i - 1]) <= ds[i].start;
  }

  lemma AppendCanonical(bs: seq<Block>, b: Block)
    requires Canonical(bs) && Sized(b) && (bs != [] ==> Apart(bs[|bs| - 1], b))
    ensures Canonical(bs + [b]) && forall k :: 0 <= k < |bs| ==> Apart(bs[k], b)
  {
    forall k | 0 <= k < |bs|
      ensures Apart(bs[k], b)
    {
      assert k < |bs| - 1 ==> Apart(bs[k], bs[|bs| - 1]);
    }
  }

  /** Closing a run at an unusable descriptor makes all taken pages listed pages. */
  lemma ClosedPages(ds: seq<Descriptor>, i: nat, u: nat, bs: seq<Block>, run: seq<Block>)
    requires u <= i < |ds| && !Usable(ds[i])
    requires forall f: nat :: Listed(bs, f) <==> TakenPage(ds, 0, u, f)
    requires forall f: nat :: Listed(run, f) <==> TakenPage(ds, u, i, f)
    ensures forall f: nat :: Listed(bs + run, f) <==> TakenPage(ds, 0, i + 1, f)
  {
    forall f: nat
      ensures Listed(bs + run, f) <==> TakenPage(ds, 0, i + 1, f)
    {
      ListedConcat(bs, run, f);
      TakenPageSnoc(ds, 0, i, f);
      assert !Taken(ds, i);
      hide Taken, Listed;
      assert TakenPage(ds, 0, i, f) <==> TakenPage(ds, 0, u, f) || TakenPage(ds, u, i, f);
    }
  }

  function RunBlocks(start: nat, pages: nat): seq<Block>
  {
    if start != 0 then [Block(start, pages)] else []
  }

  /** An unusable descriptor closes the open run, if there is one. */
  lemma UnusableBuilt(ds: seq<Descriptor>, i: nat, u: nat, bs: seq<Block>, start: nat, pages: nat)
    requires MapOk(ds) && u <= i < |ds| && OpenRun(ds, i, u, start, pages) && Built(ds, i, u, bs, start, pages)
    requires !Usable(ds[i])
    ensures start != 0 ==> Sized(Block(start, pages)) && forall k :: 0 <= k < |bs| ==> Apart(bs[k], Block(start, pages))
    ensures OpenRun(ds, i + 1, i + 1, 0, pages) && Built(ds, i + 1, i + 1, bs + RunBlocks(start, pages), 0, pages)
  {
    hide UsablePages, Taken, Listed, TakenPage, Canonical;
    UsablePagesNext(ds, i);
    UsablePagesPrefix(ds, i);
    assert i > 0 ==> End(ds[i - 1]) <= ds[i].start;
    var run := RunBlocks(start, pages);
    assert bs + [] == bs;
    assert (bs + [Block(start, pages)])[..|bs|] == bs;
    if start != 0 {
      AppendCanonical(bs, Block(start, pages));
    }
    forall f: nat
      ensures Listed(run, f) <==> TakenPage(ds, u, i, f)
    {
      RunListed(start, pages, f);
    }
    ClosedPages(ds, i, u, bs, run);
    NoPages(ds, i + 1);
  }

  lemma RunListed(start: nat, pages: nat, f: nat)
    ensures Listed(RunBlocks(start, pages), f) <==> start != 0 && start <= f < start + pages
  {
    if start != 0 {
      assert Listed([Block(start, pages)], f) <==> Covers([Block(start, pages)][0], f);
    }
  }

  lemma NoPages(ds: seq<Descriptor>, i: nat)
    requires i <= |ds|
    ensures forall f: nat :: !TakenPage(ds, i, i, f)
  {
  }

  /** All usable pages are RAM. */
  ghost predicate UsableInRam(ds: seq<Descriptor>, mem: Memory)
  {
    forall i, f :: 0 <= i < |ds| && Usable(ds[i]) && InDescriptor(ds[i], f) ==> f in mem
  }

  lemma NothingBuilt(ds: seq<Descriptor>, mem: Memory)
    ensures OpenRun(ds, 0, 0, 0, 0) && Built(ds, 0, 0, [], 0, 0) && Linked(mem, Null, [])
    ensures Closed(ds[..0]) == 0 && BlockPages([]) == 0
  {
  }

  /** What is known of the list after i descriptors. */
  lemma BuiltFacts(ds: seq<Descriptor>, i: nat, u: nat, bs: seq<Block>, start: nat, pages: nat, mem: Memory)
    requires MapOk(ds) && u <= i <= |ds| && Built(ds, i, u, bs, start, pages) && UsableInRam(ds, mem)
    ensures Canonical(bs) && (forall f :: Listed(bs, f) ==> f in mem)
    ensures (forall f: nat :: Listed(bs, f) <==> TakenPage(ds, 0, u, f))
    ensures BlockPages(bs) < TWO32
    ensures bs != [] ==> var b := bs[|bs| - 1]; b.start in mem && BlockPages(bs) == BlockPages(bs[..|bs| - 1]) + b.pages
  {
    hide UsablePages;
    UsablePagesPrefix(ds, i);
    if bs != [] {
      assert Sized(bs[|bs| - 1]) && Covers(bs[|bs| - 1], bs[|bs| - 1].start) && Listed(bs, bs[|bs| - 1].start);
    }
  }

  /** The stores that close a run; `cur` is the last block of the list. */
  method CloseRun(a: Allocator, cur: Ptr, start: nat, pages: nat)
    requires Canonical(a.free) && Linked(a.mem, a.head, a.free) && start in a.mem && Sized(Block(start, pages))
    requires forall k :: 0 <= k < |a.free| ==> Apart(a.free[k], Block(start, pages))
    requires cur == if a.free == [] then Null else At(a.free[|a.free| - 1].start)
    requires a.count == BlockPages(a.free) && a.count + pages < TWO32
    modifies a
    ensures a.free == old(a.free) + [Block(start, pages)] && a.mem.Keys == old(a.mem).Keys
    ensures Linked(a.mem, a.head, a.free) && a.count == BlockPages(a.free)
    ensures forall f :: f in a.mem && f != start && (cur.At? ==> f != cur.frame) ==> a.mem[f] == old(a.mem)[f]
  {
    hide Next, Count, SetHeader, SetNext, Linked, Canonical;
    AppendLinked(a.mem, a.head, a.free, Block(start, pages));
    assert (a.free + [Block(start, pages)])[..|a.free|] == a.free;
    a.mem := SetHeader(a.mem, start, Null, pages % TWO32);
    a.count := (a.count + pages) % TWO32;
    a.SetNextOf(cur, At(start));
    a.free := a.free + [Block(start, pages)];
  }

  /** A list one block longer lists the old pages and both of its last headers. */
  lemma HeadersListed(bs: seq<Block>, bs': seq<Block>)
    requires bs' != [] && Canonical(bs') && bs'[..|bs'| - 1] == bs
    ensures Listed(bs', bs'[|bs|].start) && (bs != [] ==> Listed(bs', bs[|bs| - 1].start))
    ensures forall f :: Listed(bs, f) ==> Listed(bs', f)
  {
    assert Sized(bs'[|bs|]) && Covers(bs'[|bs|], bs'[|bs|].start);
    if bs != [] {
      assert bs[|bs| - 1] == bs'[|bs| - 1];
      assert Sized(bs'[|bs| - 1]) && Covers(bs'[|bs| - 1], bs'[|bs| - 1].start);
    }
    forall f | Listed(bs, f)
      ensures Listed(bs', f)
    {
      var i :| 0 <= i < |bs| && Covers(bs[i], f);
      assert bs'[i] == bs[i];
    }
  }

  /** The types of memory that the kernel may take over, by the numbers of the UEFI specification
      (section 7.2, EFI_MEMORY_TYPE): loader code and data, boot services code and data,
      conventional memory.  The source compares 16 bits of the type. */
  predicate FreeType(kind: nat)
  {
    var t := kind % 65536;
    t == 1 || t == 2 || t == 3 || t == 4 || t == 7
  }

  /** Pages of descriptors of other types are never taken, pages taken are of these types. */
  lemma TakenTypes(ds: seq<Descriptor>, f: nat)
    requires MapOk(ds)
    ensures TakenPage(ds, 0, Closed(ds), f) ==>
              exists i :: 0 <= i < |ds| && ds[i].start <= f < ds[i].start + ds[i].pages && FreeType(ds[i].kind)
    ensures forall i :: 0 <= i < |ds| && ds[i].start <= f < ds[i].start + ds[i].pages && !FreeType(ds[i].kind)
              ==> !TakenPage(ds, 0, Closed(ds), f)
  {
    hide UsablePages, Closed;
    forall i | 0 <= i < |ds| && ds[i].start <= f < ds[i].start + ds[i].pages && !FreeType(ds[i].kind)
      ensures !TakenPage(ds, 0, Closed(ds), f)
    {
      if TakenPage(ds, 0, Closed(ds), f) {
        var k :| 0 <= k < Closed(ds) && Taken(ds, k) && InDescriptor(ds[k], f);
        OwnPage(ds, i, k, f);
      }
    }
  }

  /** Descriptors lo to hi are a whole run of free types up to hi: none starts at address 0, each ends
      where the next begins, and no descriptor of a free type precedes them. */
  predicate FreeRun(ds: seq<Descriptor>, lo: nat, hi: nat)
    requires lo <= hi < |ds|
  {
    && (forall i :: lo <= i <= hi ==> FreeType(ds[i].kind) && ds[i].start != 0)
    && (forall i :: lo <= i < hi ==> ds[i].start + ds[i].pages == ds[i + 1].start)
    && (lo == 0 || !FreeType(ds[lo - 1].kind))
  }

  lemma {:induction false} FreeRunTaken(ds: seq<Descriptor>, lo: nat, hi: nat)
    requires lo <= hi < |ds| && FreeRun(ds, lo, hi)
    ensures Taken(ds, hi)
    decreases hi - lo
  {
    if lo < hi {
      FreeRunTaken(ds, lo, hi - 1);
    }
  }

  /** All pages of such a run are taken if a descriptor of another type follows somewhere. */
  lemma FreeRunListed(ds: seq<Descriptor>, lo: nat, hi: nat, j: nat, f: nat)
    requires lo <= hi < j < |ds| && FreeRun(ds, lo, hi) && !FreeType(ds[j].kind)
    requires ds[hi].start <= f < ds[hi].start + ds[hi].pages
    ensures TakenPage(ds, 0, Closed(ds), f)
  {
    FreeRunTaken(ds, lo, hi);
    assert InDescriptor(ds[hi], f);
  }

  /** A moment before init_mem stores a header into frame f: memory differs from `ram` at most in
      pages that end up listed, and f is one of these. */
  ghost predicate HeaderStore(ds: seq<Descriptor>, ram: Memory, mem: Memory, f: nat)
  {
    && mem.Keys == ram.Keys && TakenPage(ds, 0, Closed(ds), f)
    && forall g: nat :: g in ram && !TakenPage(ds, 0, Closed(ds), g) ==> mem[g] == ram[g]
  }

  lemma TakenGrows(ds: seq<Descriptor>, u: nat, f: nat)
    requires 0 < u <= |ds| && !Usable(ds[u - 1]) && TakenPage(ds, 0, u, f)
    ensures TakenPage(ds, 0, Closed(ds), f)
  {
    hide Taken, Usable;
  }

  /** Closing a run stores headers into its first page and into the block before it. */
  lemma ClosingStores(ds: seq<Descriptor>, ram: Memory, mem: Memory, u: nat, bs: seq<Block>, start: nat, cur: Ptr)
    requires 0 < u <= |ds| && !Usable(ds[u - 1]) && mem.Keys == ram.Keys
    requires forall f: nat :: Listed(bs, f) <==> TakenPage(ds, 0, u, f)
    requires Listed(bs, start) && (cur.At? ==> Listed(bs, cur.frame))
    requires forall f :: f in ram && !Listed(bs, f) ==> mem[f] == ram[f]
    ensures HeaderStore(ds, ram, mem, start) && (cur.At? ==> HeaderStore(ds, ram, mem, cur.frame))
  {
    hide Taken, Usable, Listed, TakenPage;
    forall f: nat | Listed(bs, f)
      ensures TakenPage(ds, 0, Closed(ds), f)
    {
      TakenGrows(ds, u, f);
    }
  }

  /** `init_mem` on the freshly loaded kernel, whose list head and page count are zero.
      The list is canonical, and a page is on it exactly if its descriptor is taken into a
      run and an unusable descriptor follows; the count is the sum of the blocks.  `stores` are
      the frames it stores headers into, each with memory as it is just before. */
  method InitMem(a: Allocator, ds: seq<Descriptor>) returns (ghost stores: seq<(Memory, nat)>)
    requires MapOk(ds) && a.head == Null && a.count == 0
    requires UsableInRam(ds, a.mem)
    modifies a
    ensures a.Valid() && a.mem.Keys == old(a.mem).Keys
    ensures forall f :: f in a.mem && !Listed(a.free, f) ==> a.mem[f] == old(a.mem)[f]
    ensures forall f: nat :: Listed(a.free, f) <==> TakenPage(ds, 0, Closed(ds), f)
    ensures a.count == BlockPages(a.free)
    ensures forall f: nat :: Listed(a.free, f) ==>
              exists i :: 0 <= i < |ds| && ds[i].start <= f < ds[i].start + ds[i].pages && FreeType(ds[i].kind)
    ensures forall f: nat, i :: 0 <= i < |ds| && ds[i].start <= f < ds[i].start + ds[i].pages && !FreeType(ds[i].kind)
              ==> !Listed(a.free, f)
    ensures forall lo: nat, hi: nat, j: nat, f: nat ::
              (lo <= hi < j < |ds| && FreeRun(ds, lo, hi) && !FreeType(ds[j].kind)
               && ds[hi].start <= f < ds[hi].start + ds[hi].pages)
              ==> Listed(a.free, f)
    ensures forall i :: 0 <= i < |stores| ==> HeaderStore(ds, old(a.mem), stores[i].0, stores[i].1)
  {
    stores := [];
    hide HeaderStore, MapOk, Usable, TakenPage, UsableInRam, OpenRun, Built, BlockPages, Next, Count, SetHeader;
    hide SetNext, Linked, Canonical, Listed;
    var start: nat, pages: nat, i: nat := 0, 0, 0;
    var cur := Null;
    ghost var u: nat := 0;
    ghost var ram := a.mem;
    a.free := [];
    NothingBuilt(ds, a.mem);
    while i < |ds|
      invariant u <= i <= |ds| && OpenRun(ds, i, u, start, pages) && Built(ds, i, u, a.free, start, pages)
      invariant Linked(a.mem, a.head, a.free) && a.mem.Keys == old(a.mem).Keys
      invariant cur == if a.free == [] then Null else At(a.free[|a.free| - 1].start)
      invariant forall f :: f in ram && !Listed(a.free, f) ==> a.mem[f] == ram[f]
      invariant a.count == BlockPages(a.free)
      invariant forall i :: 0 <= i < |stores| ==> HeaderStore(ds, ram, stores[i].0, stores[i].1)
      invariant (u > 0 ==> !Usable(ds[u - 1])) && (forall k :: u <= k < i ==> Usable(ds[k]))
    {
      var d := ds[i];
      if Usable(d) {
        UsableStep(ds, i, u, start, pages);
        UsableBuilt(ds, i, u, a.free, start, pages);
        if start == 0 {
          start, pages := d.start, d.pages;
        }
        if start + pages == d.start {
          pages := pages + d.pages;
        }
      } else {
        UnusableBuilt(ds, i, u, a.free, start, pages);
        ghost var bs := a.free + RunBlocks(start, pages);
        BuiltFacts(ds, i, u, a.free, start, pages, ram);
        BuiltFacts(ds, i + 1, i + 1, bs, 0, pages, ram);
        u := i + 1;
        if start != 0 {
          assert bs[..|bs| - 1] == a.free;
          HeadersListed(a.free, bs);
          ClosingStores(ds, ram, a.mem, u, bs, start, cur);
          stores := stores + [(a.mem, start)] + if cur.At? then [(a.mem, cur.frame)] else [];
          CloseRun(a, cur, start, pages);
          cur := At(start);
          start := 0;
        } else {
          assert bs == a.free;
        }
      }
      i := i + 1;
    }
    assert u == Closed(ds);
    BuiltFacts(ds, i, u, a.free, start, pages, ram);
    TypesListed(ds, a.free);
  }

  /** In numbers of the specification: what is listed and what is not. */
  lemma TypesListed(ds: seq<Descriptor>, bs: seq<Block>)
    requires MapOk(ds) && forall f: nat :: Listed(bs, f) <==> TakenPage(ds, 0, Closed(ds), f)
    ensures forall f: nat :: Listed(bs, f) ==>
              exists i :: 0 <= i < |ds| && ds[i].start <= f < ds[i].start + ds[i].pages && FreeType(ds[i].kind)
    ensures forall f: nat, i :: 0 <= i < |ds| && ds[i].start <= f < ds[i].start + ds[i].pages && !FreeType(ds[i].kind)
              ==> !Listed(bs, f)
    ensures forall lo: nat, hi: nat, j: nat, f: nat ::
              (lo <= hi < j < |ds| && FreeRun(ds, lo, hi) && !FreeType(ds[j].kind)
               && ds[hi].start <= f < ds[hi].start + ds[hi].pages)
              ==> Listed(bs, f)
  {
    hide MapOk, Listed, TakenPage, FreeRun, FreeType;
    forall f: nat
      ensures Listed(bs, f) ==>
                exists i :: 0 <= i < |ds| && ds[i].start <= f < ds[i].start + ds[i].pages && FreeType(ds[i].kind)
      ensures forall i :: 0 <= i < |ds| && ds[i].start <= f < ds[i].start + ds[i].pages && !FreeType(ds[i].kind)
                ==> !Listed(bs, f)
    {
      TakenTypes(ds, f);
    }
    forall lo: nat, hi: nat, j: nat, f: nat | lo <= hi < j < |ds| && FreeRun(ds, lo, hi) && !FreeType(ds[j].kind)
                                              && ds[hi].start <= f < ds[hi].start + ds[hi].pages
      ensures Listed(bs, f)
    {
      FreeRunListed(ds, lo, hi, j, f);
    }
  }

  // ---- which usable pages are lost ------------------------------------------------------

  /** What the memory map must look like for no usable page to be lost. */
  predicate Gapless(ds: seq<Descriptor>)
  {
    forall i :: 0 <= i < |ds| && Usable(ds[i])
      ==> ds[i].start != 0 && i + 1 < |ds| && (Usable(ds[i + 1]) ==> End(ds[i]) == ds[i + 1].start)
  }

  lemma {:induction false} GaplessTaken(ds: seq<Descriptor>, i: nat)
    requires Gapless(ds) && i < |ds| && Usable(ds[i])
    ensures Taken(ds, i)
  {
    if i > 0 && Usable(ds[i - 1]) {
      GaplessTaken(ds, i - 1);
    }
  }

  /** Taken pages lie in usable descriptors; all usable pages are listed exactly if no usable
      region starts at address 0, none is the last of the map, and adjacent usable
      descriptors leave no gap. */
  lemma ListedPages(ds: seq<Descriptor>)
    requires MapOk(ds)
    ensures forall f: nat :: TakenPage(ds, 0, Closed(ds), f)
              ==> exists i :: 0 <= i < |ds| && Usable(ds[i]) && InDescriptor(ds[i], f)
    ensures Gapless(ds) <==> forall i, f: nat :: 0 <= i < |ds| && Usable(ds[i]) && InDescriptor(ds[i], f)
                               ==> TakenPage(ds, 0, Closed(ds), f)
  {
    hide UsablePages;
    if Gapless(ds) {
      forall i, f: nat | 0 <= i < |ds| && Usable(ds[i]) && InDescriptor(ds[i], f)
        ensures TakenPage(ds, 0, Closed(ds), f)
      {
        GaplessTaken(ds, i);
        assert i < Closed(ds);
      }
    } else {
      var i :| 0 <= i < |ds| && Usable(ds[i])
               && !(ds[i].start != 0 && i + 1 < |ds| && (Usable(ds[i + 1]) ==> End(ds[i]) == ds[i + 1].start));
      LostPage(ds, i);
    }
  }

  /** A page that lies in no other descriptor. */
  lemma OwnPage(ds: seq<Descriptor>, i: nat, k: nat, f: nat)
    requires MapOk(ds) && i < |ds| && k < |ds| && InDescriptor(ds[i], f) && InDescriptor(ds[k], f)
    ensures i == k
  {
  }

  lemma LostPage(ds: seq<Descriptor>, i: nat)
    requires MapOk(ds) && i < |ds| && Usable(ds[i])
    requires !(ds[i].start != 0 && i + 1 < |ds| && (Usable(ds[i + 1]) ==> End(ds[i]) == ds[i + 1].start))
    ensures exists k, f: nat :: 0 <= k < |ds| && Usable(ds[k]) && InDescriptor(ds[k], f)
              && !TakenPage(ds, 0, Closed(ds), f)
  {
    hide UsablePages;
    var k := if ds[i].start == 0 || i + 1 == |ds| then i else i + 1;
    var f := ds[k].start;
    assert InDescriptor(ds[k], f);
    if k == i + 1 {
      assert !Taken(ds, k);
    }
    if TakenPage(ds, 0, Closed(ds), f) {
      var j :| 0 <= j < Closed(ds) && Taken(ds, j) && InDescriptor(ds[j], f);
      OwnPage(ds, j, k, f);
    }
  }
}
