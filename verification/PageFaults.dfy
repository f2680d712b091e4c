/**
 Runs of the kernel after boot: `alloc_mem` calls, writes of the kernel into pages it
 allocated, page faults (kernel/exception.c) and writes of user programs through the tables.
 The main result is `StepConsistent`: seen through the tables, user memory is a plain map from
 page numbers to pages that only faults on unmapped pages extend and only user writes change.
 */
module PageFaults {
  import opened Options
  import opened PhysicalMemory
  import opened Radix
  import opened Translation
  import opened FreeList
  import opened Paging
  import opened PageTables
  import opened PageSupply

  /** Machine, frame of the PML4 in CR3, and the frames that alloc_mem handed to the kernel. */
  datatype Kernel = Kernel(s: Machine, root: nat, held: set<nat>)

  /** The last address for which do_page_fault maps a page. */
  const START_STACK: nat := 0x7fff_ffff_e000

  /** Number of pages of the user half, PML4 slots 0 to 255. */
  const USER_PAGES: nat := 0x8_0000_0000

  datatype Event =
    | Allocate(pages: nat)
    | Write(frame: nat, i: nat, w: Word)
    | Fault(error: nat, cr2: nat, brk: nat)
    | UserWrite(page: nat, i: nat, w: Word)

  predicate Enabled(k: Kernel, e: Event)
  {
    match e
    case Allocate(n) => n < WRAP
    case Write(f, i, w) => f in k.held && i < ENTRIES
    case Fault(_, _, _) => true
    case UserWrite(v, i, w) => v < PAGES && i < ENTRIES
  }

  /** `do_page_fault`: a protection fault changes nothing (the code loops forever), an address
      outside brk to START_STACK is ignored, any other gets a writable page. */
  predicate Serves(error: nat, cr2: nat, brk: nat)
  {
    error % 2 == 0 && brk <= cr2 <= START_STACK
  }

  predicate UserWritable(m: Option<Mapping>)
  {
    m.Some? && m.value.us && m.value.rw
  }

  function Step(k: Kernel, e: Event): Kernel
    requires Enabled(k, e)
  {
    match e
    case Allocate(n) =>
      var p := AllocPtr(k.s.free, n);
      Kernel(Machine(AllocMemory(k.s.mem, k.s.free, n), AllocBlocks(k.s.free, n)), k.root,
             if p.At? then k.held + Frames(p.frame, n) else k.held)
    case Write(f, i, w) => k.(s := k.s.(mem := Store(k.s.mem, f, i, w)))
    case Fault(error, cr2, brk) =>
      if Serves(error, cr2, brk) then k.(s := SetupPageMap(k.s, k.root, 4, cr2 / 4096, 1, true).s) else k
    case UserWrite(v, i, w) =>
      var m := Walk(k.s.mem, k.root, 4, v);
      if UserWritable(m) then k.(s := k.s.(mem := Store(k.s.mem, m.value.frame, i, w))) else k
  }

  // ---- the invariant ----------------------------------------------------------------

  /** Entry i of a table at p translates pages of the user half. */
  predicate UserPos(p: Pos, i: nat)
  {
    1 <= p.level <= 4 && 512 * p.prefix + i < First(256, 4 - p.level)
  }

  /** A user entry: no large page, and present only with a frame of the tree below it. */
  predicate UserEntryOk(own: Owners, p: Pos, i: nat, e: Word)
  {
    !Large(p.level, e) && (e.p ==> Below(own, p, i, e.frame))
  }

  ghost predicate UserTree(mem: Memory, own: Owners)
  {
    forall t, i :: t in own && 0 <= i < ENTRIES && UserPos(own[t], i) ==> UserEntryOk(own, own[t], i, Load(mem, t, i))
  }

  /** Pages the kernel holds are RAM, off the list and outside the tree. */
  ghost predicate HeldOk(k: Kernel, own: Owners)
  {
    forall f :: f in k.held ==> f in k.s.mem && f !in own && !Listed(k.s.free, f)
  }

  /** Every frame of the tree but the root hangs below an entry. */
  ghost predicate AllReferenced(k: Kernel, own: Owners)
  {
    forall f :: f in own && f != k.root ==> Referenced(k.s.mem, own, f)
  }

  /** All user pages are mapped writable for user mode. */
  ghost predicate AllWritable(k: Kernel)
  {
    forall w :: 0 <= w < USER_PAGES ==> Walk(k.s.mem, k.root, 4, w).Some? ==> UserWritable(Walk(k.s.mem, k.root, 4, w))
  }

  /** No page of the kernel half is open to user mode. */
  ghost predicate KernelPrivate(k: Kernel)
  {
    forall i :: 256 <= i < ENTRIES ==> !Load(k.s.mem, k.root, i).us
  }

  ghost predicate Consistent(k: Kernel, own: Owners, exempt: set<nat>)
  {
    && Inv(k.s, own, exempt) && (forall x :: x in exempt ==> x >= 256)
    && k.root in own && own[k.root] == Pos(4, 0)
    && UserTree(k.s.mem, own) && HeldOk(k, own) && AllReferenced(k, own) && AllWritable(k) && KernelPrivate(k)
  }

  /** A table or page of the user half. */
  predicate InUserHalf(p: Pos)
  {
    p.level <= 3 && p.prefix < First(256, 3 - p.level)
  }

  /** The frames that the kernel reads and writes while it runs: listed pages, pages it holds,
      the PML4, and tables and pages of the user half. */
  ghost predicate Used(k: Kernel, own: Owners, f: nat)
  {
    Listed(k.s.free, f) || f in k.held || f == k.root || (f in own && InUserHalf(own[f]))
  }

  /** The kernel reaches frames through P2V only: the address of f is mapped to f, writable. */
  predicate DirectMapped(mem: Memory, root: nat, f: nat)
  {
    && DIRECT_PAGE + f < PAGES
    && Walk(mem, root, 4, DIRECT_PAGE + f).Some?
    && Walk(mem, root, 4, DIRECT_PAGE + f).value.frame == f && Walk(mem, root, 4, DIRECT_PAGE + f).value.rw
  }

  /** The direct map translates all used frames, by tables outside the exempt slots. */
  ghost predicate DirectOk(k: Kernel, own: Owners, exempt: set<nat>)
  {
    forall f: nat :: Used(k, own, f) ==> DirectMapped(k.s.mem, k.root, f) && Part(DIRECT_PAGE + f, 4) !in exempt
  }

  /** The invariant: memory management is consistent and can reach all memory it uses. */
  ghost predicate KernelOk(k: Kernel, own: Owners, exempt: set<nat>)
  {
    Consistent(k, own, exempt) && DirectOk(k, own, exempt)
  }

  // ---- positions of user pages ---------------------------------------------------------

  lemma {:induction false} FirstCompose(x: nat, a: nat, b: nat)
    ensures First(First(x, a), b) == First(x, a + b)
    decreases a
  {
    if a > 0 {
      FirstCompose(512 * x, a - 1, b);
    }
  }

  lemma UserEnd()
    ensures First(256, 3) == USER_PAGES
  {
    assert First(256, 3) == First(512 * 256, 2) == First(512 * 512 * 256, 1);
  }

  lemma UserPage(w: nat, L: nat)
    requires w < USER_PAGES && 1 <= L <= 4
    ensures UserPos(Pos(L, Prefix(w, L)), Part(w, L))
    ensures L == 4 ==> Prefix(w, 4) == 0 && Part(w, 4) < 256
  {
    UserEnd();
    FirstCompose(256, 4 - L, L - 1);
    Galois(w, First(256, 4 - L), L - 1);
    if L == 4 {
      assert Prefix(w, 3) == 512 * Prefix(w, 4) + Part(w, 4);
    }
  }

  /** The frame behind a user page belongs to that page in the tree. */
  lemma {:induction false} UserFrame(mem: Memory, own: Owners, t: nat, L: nat, w: nat)
    requires UserTree(mem, own) && w < USER_PAGES
    requires 1 <= L <= 4 && t in own && own[t] == Pos(L, Prefix(w, L)) && Walk(mem, t, L, w).Some?
    ensures var f := Walk(mem, t, L, w).value.frame;
            f in own && own[f] == Pos(0, w)
    decreases L
  {
    var i := Part(w, L);
    UserPage(w, L);
    assert UserEntryOk(own, own[t], i, Load(mem, t, i));
    if L > 1 {
      UserFrame(mem, own, Load(mem, t, i).frame, L - 1, w);
    }
  }

  // ---- steps that leave the tables alone ------------------------------------------------

  /** The tables are as before. */
  ghost predicate SameTables(mem: Memory, mem': Memory, own: Owners)
  {
    forall t :: t in own && own[t].level >= 1 ==> forall i :: 0 <= i < ENTRIES ==> Load(mem', t, i) == Load(mem, t, i)
  }

  lemma SameWalk(k: Kernel, own: Owners, exempt: set<nat>, mem': Memory, w: nat)
    requires Consistent(k, own, exempt) && SameTables(k.s.mem, mem', own) && w < PAGES && Part(w, 4) !in exempt
    ensures Walk(mem', k.root, 4, w) == Walk(k.s.mem, k.root, 4, w)
  {
    hide Walk;
    PagesIsEnd();
    Galois(w, 1, 4);
    WalkFrame(k.s.mem, mem', own, exempt, k.root, 4, w);
  }

  lemma SameTrees(mem: Memory, mem': Memory, own: Owners, exempt: set<nat>)
    requires SameTables(mem, mem', own)
    ensures TreeOk(mem, own, exempt) ==> TreeOk(mem', own, exempt)
    ensures UserTree(mem, own) ==> UserTree(mem', own)
  {
    hide First;
    if TreeOk(mem, own, exempt) {
      forall t, i | t in own && 0 <= i < ENTRIES && !(own[t].level == 4 && i in exempt)
        ensures LinkOk(own, own[t], i, Load(mem', t, i))
      {
        assert LinkOk(own, own[t], i, Load(mem, t, i));
      }
    }
    if UserTree(mem, own) {
      forall t, i | t in own && 0 <= i < ENTRIES && UserPos(own[t], i)
        ensures UserEntryOk(own, own[t], i, Load(mem', t, i))
      {
        assert UserEntryOk(own, own[t], i, Load(mem, t, i));
      }
    }
  }

  lemma SameReferences(mem: Memory, mem': Memory, own: Owners, f: nat)
    requires SameTables(mem, mem', own) && Referenced(mem, own, f)
    ensures Referenced(mem', own, f)
  {
    var t, i :| t in own && 0 <= i < ENTRIES && Load(mem, t, i).p && Load(mem, t, i).frame == f
          && Below(own, own[t], i, f);
    assert Load(mem', t, i) == Load(mem, t, i);
  }

  lemma SameWritable(k: Kernel, own: Owners, exempt: set<nat>, k': Kernel)
    requires Consistent(k, own, exempt) && SameTables(k.s.mem, k'.s.mem, own) && k'.root == k.root
    ensures AllWritable(k') && KernelPrivate(k')
  {
    hide Inv, UserTree, HeldOk, AllReferenced, Walk, First, Prefix, Part;
    forall w | 0 <= w < USER_PAGES && Walk(k'.s.mem, k.root, 4, w).Some?
      ensures UserWritable(Walk(k'.s.mem, k.root, 4, w))
    {
      UserPage(w, 4);
      SameWalk(k, own, exempt, k'.s.mem, w);
    }
  }

  /** A step that keeps the tables, takes nothing from the tree and only shrinks the list. */
  lemma KeepsTables(k: Kernel, own: Owners, exempt: set<nat>, k': Kernel)
    requires Consistent(k, own, exempt) && SameTables(k.s.mem, k'.s.mem, own)
    requires k'.root == k.root && k'.s.mem.Keys == k.s.mem.Keys && FreeListOk(k'.s.mem, PtrAt(k'.s.free, 0), k'.s.free)
    requires forall f :: Listed(k'.s.free, f) ==> Listed(k.s.free, f)
    requires HeldOk(k', own)
    ensures Consistent(k', own, exempt)
  {
    hide FreeListOk, Listed, TreeOk, UserTree, AllWritable, KernelPrivate, HeldOk, Referenced;
    SameTrees(k.s.mem, k'.s.mem, own, exempt);
    SameWritable(k, own, exempt, k');
    forall f | f in own && f != k.root
      ensures Referenced(k'.s.mem, own, f)
    {
      SameReferences(k.s.mem, k'.s.mem, own, f);
    }
  }

  // ---- the steps ------------------------------------------------------------------------

  lemma AllocateKeeps(k: Kernel, own: Owners, exempt: set<nat>, n: nat)
    requires Consistent(k, own, exempt) && n < WRAP
    ensures Consistent(Step(k, Allocate(n)), own, exempt)
    ensures forall f :: f in own ==> Step(k, Allocate(n)).s.mem[f] == k.s.mem[f]
  {
    hide AllocMemory, AllocBlocks, Canonical, Linked, Listed, FirstFit, UserTree, TreeOk, AllReferenced, AllWritable;
    hide KernelPrivate;
    var k' := Step(k, Allocate(n));
    AllocKeepsList(k.s.mem, k.s.free, n);
    forall f
      ensures Listed(k.s.free, f) <==> Listed(k'.s.free, f) || Handed(k.s.free, n, f)
      ensures !(Listed(k'.s.free, f) && Handed(k.s.free, n, f))
    {
      AllocConserves(k.s.free, n, f);
    }
    forall f | f in k.s.mem && !Listed(k'.s.free, f)
      ensures k'.s.mem[f] == k.s.mem[f]
    {
      AllocWritesListed(k.s.mem, k.s.free, n, f);
    }
    assert forall f :: f in k'.held ==> f in k.held || Handed(k.s.free, n, f);
    KeepsTables(k, own, exempt, k');
  }

  /** A store into a page that is neither listed nor a table. */
  lemma StoreKeeps(k: Kernel, own: Owners, exempt: set<nat>, f: nat, i: nat, w: Word)
    requires Consistent(k, own, exempt) && i < ENTRIES && !Listed(k.s.free, f) && (f in own ==> own[f].level == 0)
    ensures Consistent(k.(s := k.s.(mem := Store(k.s.mem, f, i, w))), own, exempt)
  {
    hide Canonical, Linked, Listed, UserTree, TreeOk, AllReferenced, AllWritable, KernelPrivate;
    var k' := k.(s := k.s.(mem := Store(k.s.mem, f, i, w)));
    FreeListFrame(k.s.mem, k'.s.mem, PtrAt(k.s.free, 0), k.s.free);
    KeepsTables(k, own, exempt, k');
  }

  lemma UserNoLarge(mem: Memory, own: Owners, v: nat)
    requires UserTree(mem, own) && v < USER_PAGES
    ensures NoLarge(mem, own, v, v)
  {
    hide Prefix, First, Large;
    forall t, i | t in own && 0 <= i < ENTRIES && Spans(own[t], i, 3, v, v)
      ensures !Large(own[t].level, Load(mem, t, i))
    {
      UserPage(v, own[t].level);
      assert UserEntryOk(own, own[t], i, Load(mem, t, i));
    }
  }

  lemma FaultCallable(k: Kernel, own: Owners, exempt: set<nat>, v: nat)
    requires Consistent(k, own, exempt) && v < USER_PAGES
    ensures Callable(k.s, own, exempt, k.root, 4, v, 1)
  {
    hide Inv, Prefix, First, UserTree, HeldOk, AllReferenced, AllWritable, KernelPrivate, NoLarge;
    UserPage(v, 4);
    UserNoLarge(k.s.mem, own, v);
    assert Prefix(v, 3) == 512 * Prefix(v, 4) + Part(v, 4);
  }

  lemma GrownUserTree(s: Machine, own: Owners, s': Machine, own': Owners)
    requires UserTree(s.mem, own) && Grows(s, own, s', own')
    ensures UserTree(s'.mem, own')
  {
    hide Listed, First, Referenced;
    forall t, i | t in own' && 0 <= i < ENTRIES && UserPos(own'[t], i)
      ensures UserEntryOk(own', own'[t], i, Load(s'.mem, t, i))
    {
      if t in own {
        assert UserEntryOk(own, own[t], i, Load(s.mem, t, i));
        assert EntryGrows(own, own', own[t], i, Load(s.mem, t, i), Load(s'.mem, t, i));
      } else {
        assert EntryFresh(own, own', own'[t], i, Load(s'.mem, t, i));
      }
    }
  }

  lemma GrownReferences(s: Machine, own: Owners, s': Machine, own': Owners, f: nat)
    requires Grows(s, own, s', own') && f in own' && (f in own ==> Referenced(s.mem, own, f))
    ensures Referenced(s'.mem, own', f)
  {
    hide Listed;
    if f in own {
      var t, i :| t in own && 0 <= i < ENTRIES && Load(s.mem, t, i).p && Load(s.mem, t, i).frame == f
            && Below(own, own[t], i, f);
      assert EntryGrows(own, own', own[t], i, Load(s.mem, t, i), Load(s'.mem, t, i));
      assert Below(own', own'[t], i, f);
    }
  }

  /** What a served fault on page v does to the translation of a user page. */
  lemma FaultWalk(k: Kernel, own: Owners, exempt: set<nat>, v: nat, w: nat)
    requires Consistent(k, own, exempt) && v < USER_PAGES && w < USER_PAGES
    ensures var r := SetupPageMap(k.s, k.root, 4, v, 1, true);
            var before, after := Walk(k.s.mem, k.root, 4, w), Walk(r.s.mem, k.root, 4, w);
            && (before.Some? ==> after == before)
            && (before.None? ==> if w == v && r.remaining != -1 then UserWritable(after) else after.None?)
  {
    hide Walk, SetupPageMap, First, Prefix, Part, Inv, UserTree, HeldOk, AllReferenced;
    FaultCallable(k, own, exempt, v);
    var own' := SetupGrows(k.s, own, exempt, k.root, 4, v, 1, true);
    UserPage(v, 4);
    UserPage(w, 4);
    SetupWalk(k.s, own, exempt, k.root, 4, v, 1, true, w);
  }

  lemma OnePage(r: Outcome, v: nat)
    requires Progress(r, 4, v, 1)
    ensures LastTouched(r) == v
  {
    hide First, Prefix;
  }

  /** Changes to the entries of one user page leave the kernel half of the PML4 alone. */
  lemma KernelHalf(mem: Memory, mem': Memory, own: Owners, root: nat, v: nat, i: nat)
    requires Within(mem, mem', own, 4, v, v) && root in own && own[root] == Pos(4, 0) && v < USER_PAGES
    requires 256 <= i < ENTRIES
    ensures Load(mem', root, i) == Load(mem, root, i)
  {
    hide Prefix, Part;
    UserPage(v, 4);
    assert Prefix(v, 3) == 512 * Prefix(v, 4) + Part(v, 4);
  }

  lemma FaultPrivate(k: Kernel, own: Owners, exempt: set<nat>, v: nat)
    requires Consistent(k, own, exempt) && v < USER_PAGES
    ensures KernelPrivate(k.(s := SetupPageMap(k.s, k.root, 4, v, 1, true).s))
  {
    hide SetupPageMap, Prefix, First, Inv, UserTree, HeldOk, AllReferenced, AllWritable, Within, Grows, Progress;
    FaultCallable(k, own, exempt, v);
    var own' := SetupGrows(k.s, own, exempt, k.root, 4, v, 1, true);
    var r := SetupPageMap(k.s, k.root, 4, v, 1, true);
    OnePage(r, v);
    forall i | 256 <= i < ENTRIES
      ensures !Load(r.s.mem, k.root, i).us
    {
      KernelHalf(k.s.mem, r.s.mem, own, k.root, v, i);
    }
  }

  lemma GrownHeld(k: Kernel, own: Owners, s': Machine, own': Owners)
    requires HeldOk(k, own) && Grows(k.s, own, s', own')
    ensures HeldOk(k.(s := s'), own')
    ensures forall f :: f in k.held ==> s'.mem[f] == k.s.mem[f]
  {
    hide Listed;
  }

  /** A page fault keeps the invariant; the tree only grows. */
  lemma FaultKeeps(k: Kernel, own: Owners, exempt: set<nat>, v: nat) returns (own': Owners)
    requires Consistent(k, own, exempt) && v < USER_PAGES
    ensures var k' := k.(s := SetupPageMap(k.s, k.root, 4, v, 1, true).s);
            Consistent(k', own', exempt) && Grows(k.s, own, k'.s, own')
  {
    hide SetupPageMap, First, Prefix, Part, Inv, UserTree, HeldOk, UserWritable, Walk, Grows, KernelPrivate, Referenced;
    FaultCallable(k, own, exempt, v);
    own' := SetupGrows(k.s, own, exempt, k.root, 4, v, 1, true);
    var k' := k.(s := SetupPageMap(k.s, k.root, 4, v, 1, true).s);
    GrownUserTree(k.s, own, k'.s, own');
    GrownHeld(k, own, k'.s, own');
    FaultPrivate(k, own, exempt, v);
    ExtendsOf(k.s, own, k'.s, own');
    forall f | f in own' && f != k.root
      ensures Referenced(k'.s.mem, own', f)
    {
      GrownReferences(k.s, own, k'.s, own', f);
    }
    forall w | 0 <= w < USER_PAGES && Walk(k'.s.mem, k.root, 4, w).Some?
      ensures UserWritable(Walk(k'.s.mem, k.root, 4, w))
    {
      FaultWalk(k, own, exempt, v, w);
    }
  }

  // ---- user memory as a map of pages ------------------------------------------------------

  /** What user page w holds, seen through the tables. */
  function View(k: Kernel, w: nat): Option<Page>
  {
    match Walk(k.s.mem, k.root, 4, w)
    case None => None
    case Some(m) => if m.frame in k.s.mem then Some(k.s.mem[m.frame]) else None
  }

  /** Whether a step runs out of memory while it serves a fault. */
  predicate OutOfMemory(k: Kernel, e: Event)
  {
    e.Fault? && SetupPageMap(k.s, k.root, 4, e.cr2 / 4096, 1, true).remaining == -1
  }

  /** The specification of one step for one user page: served faults add a zero page where none
      is mapped, unless memory runs out; user writes to a mapped page change one word;
      nothing else is visible. */
  function Expected(k: Kernel, e: Event, w: nat): Option<Page>
    requires Enabled(k, e)
  {
    var page := View(k, w);
    match e
    case Fault(error, cr2, brk) =>
      if Serves(error, cr2, brk) && w == cr2 / 4096 && page.None? && !OutOfMemory(k, e) then Some(ZeroPage()) else page
    case UserWrite(v, i, x) => if v == w && page.Some? then Some(page.value[i := x]) else page
    case _ => page
  }

  /** The frame of a mapped user page. */
  lemma MappedFrame(k: Kernel, own: Owners, exempt: set<nat>, w: nat)
    requires Consistent(k, own, exempt) && w < USER_PAGES && Walk(k.s.mem, k.root, 4, w).Some?
    ensures var m := Walk(k.s.mem, k.root, 4, w).value;
            && m.rw && m.us && m.frame in own && own[m.frame] == Pos(0, w) && m.frame in k.s.mem
            && !Listed(k.s.free, m.frame) && m.frame !in k.held
  {
    hide FreeListOk, Walk, TreeOk, Listed, AllReferenced;
    UserPage(w, 4);
    UserFrame(k.s.mem, own, k.root, 4, w);
  }

  lemma PageContent(mem: Memory, f: nat, page: Page)
    requires f in mem && forall j :: 0 <= j < ENTRIES ==> Load(mem, f, j) == page[j]
    ensures mem[f] == page
  {
    forall j | 0 <= j < ENTRIES
      ensures mem[f][j] == page[j]
    {
      assert Load(mem, f, j) == page[j];
    }
  }

  lemma FaultView(k: Kernel, own: Owners, exempt: set<nat>, v: nat, w: nat, own': Owners)
    requires Consistent(k, own, exempt) && v < USER_PAGES && w < USER_PAGES
    requires var k' := k.(s := SetupPageMap(k.s, k.root, 4, v, 1, true).s);
               Consistent(k', own', exempt) && Grows(k.s, own, k'.s, own')
    ensures var r := SetupPageMap(k.s, k.root, 4, v, 1, true);
            View(k.(s := r.s), w) ==
            if w == v && View(k, w).None? && r.remaining != -1 then Some(ZeroPage()) else View(k, w)
  {
    hide SetupPageMap, Walk, TreeOk, UserTree, FreeListOk, Listed, Prefix, First, AllReferenced, AllWritable, HeldOk;
    hide KernelPrivate;
    var k' := k.(s := SetupPageMap(k.s, k.root, 4, v, 1, true).s);
    FaultWalk(k, own, exempt, v, w);
    var before, after := Walk(k.s.mem, k.root, 4, w), Walk(k'.s.mem, k.root, 4, w);
    if before.Some? {
      MappedFrame(k, own, exempt, w);
      var f := before.value.frame;
      assert forall j :: 0 <= j < ENTRIES ==> EntryGrows(own, own', own[f], j, Load(k.s.mem, f, j),
                                                         Load(k'.s.mem, f, j));
      PageContent(k'.s.mem, f, k.s.mem[f]);
    } else if after.Some? {
      MappedFrame(k', own', exempt, w);
      UserPage(w, 4);
      NewPageIsFresh(k.s, own, exempt, k'.s, own', k.root, 4, w);
      PageContent(k'.s.mem, after.value.frame, ZeroPage());
    }
  }

  /** No frame comes into use. */
  ghost predicate UsedWithin(k: Kernel, own: Owners, k': Kernel, own': Owners)
  {
    forall f: nat :: Used(k', own', f) ==> Used(k, own, f)
  }

  lemma AllocateUsed(k: Kernel, own: Owners, n: nat)
    requires Canonical(k.s.free) && n < WRAP
    ensures UsedWithin(k, own, Step(k, Allocate(n)), own)
  {
    hide AllocMemory, AllocBlocks, Canonical, Listed, FirstFit, First;
    var k' := Step(k, Allocate(n));
    forall f: nat | Used(k', own, f)
      ensures Used(k, own, f)
    {
      AllocConserves(k.s.free, n, f);
    }
  }

  lemma StoreUsed(k: Kernel, own: Owners, mem': Memory)
    ensures UsedWithin(k, own, k.(s := k.s.(mem := mem')), own)
  {
    hide Listed, First;
  }

  lemma FaultUsed(k: Kernel, own: Owners, s': Machine, own': Owners)
    requires Grows(k.s, own, s', own')
    ensures UsedWithin(k, own, k.(s := s'), own')
  {
    hide Listed, First, Referenced;
  }

  /** One step: consistency is kept, the tree only grows, no frame comes into use, and user
      memory changes exactly as specified. */
  lemma StepConsistent(k: Kernel, own: Owners, exempt: set<nat>, e: Event) returns (own': Owners)
    requires Consistent(k, own, exempt) && Enabled(k, e)
    ensures Consistent(Step(k, e), own', exempt) && (forall t :: t in own ==> t in own' && own'[t] == own[t])
    ensures forall w :: 0 <= w < USER_PAGES ==> View(Step(k, e), w) == Expected(k, e, w)
    ensures UsedWithin(k, own, Step(k, e), own')
  {
    hide Consistent, UsedWithin, SetupPageMap, Walk, AllocMemory, AllocBlocks, Grows, ZeroPage, First;
    own' := own;
    var k' := Step(k, e);
    StoreUsed(k, own, k'.s.mem);
    match e
    case Allocate(n) =>
      AllocateKeeps(k, own, exempt, n);
      assert Canonical(k.s.free) by { ListCanonical(k, own, exempt); }
      AllocateUsed(k, own, n);
      forall w | 0 <= w < USER_PAGES
        ensures View(k', w) == View(k, w)
      {
        SameView(k, own, exempt, k', w);
      }
    case Write(f, i, x) =>
      HeldFrame(k, own, exempt, f);
      StoreKeeps(k, own, exempt, f, i, x);
      forall w | 0 <= w < USER_PAGES
        ensures View(k', w) == View(k, w)
      {
        SameView(k, own, exempt, k', w);
      }
    case Fault(error, cr2, brk) =>
      if Serves(error, cr2, brk) {
        own' := FaultKeeps(k, own, exempt, cr2 / 4096);
        ExtendsOf(k.s, own, k'.s, own');
        FaultUsed(k, own, k'.s, own');
        forall w | 0 <= w < USER_PAGES
          ensures View(k', w) == Expected(k, e, w)
        {
          FaultView(k, own, exempt, cr2 / 4096, w, own');
        }
      }
    case UserWrite(v, i, x) =>
      if UserWritable(Walk(k.s.mem, k.root, 4, v)) {
        WritablePage(k, own, exempt, v);
        StoreKeeps(k, own, exempt, Walk(k.s.mem, k.root, 4, v).value.frame, i, x);
      }
      forall w | 0 <= w < USER_PAGES
        ensures View(k', w) == Expected(k, e, w)
      {
        UserWriteView(k, own, exempt, v, i, x, w);
      }
  }

  lemma ListCanonical(k: Kernel, own: Owners, exempt: set<nat>)
    requires Consistent(k, own, exempt)
    ensures Canonical(k.s.free)
  {
  }

  lemma HeldFrame(k: Kernel, own: Owners, exempt: set<nat>, f: nat)
    requires Consistent(k, own, exempt) && f in k.held
    ensures f !in own && !Listed(k.s.free, f)
  {
  }

  lemma SupervisorOnly(mem: Memory, root: nat, v: nat)
    requires !Load(mem, root, Part(v, 4)).us
    ensures !UserWritable(Walk(mem, root, 4, v))
  {
    hide Part;
    var e := Load(mem, root, Part(v, 4));
    assert Walk(mem, root, 4, v).Some? ==> Walk(mem, root, 4, v) == Restrict(Walk(mem, e.frame, 3, v), e);
  }

  /** User mode can write only to user pages. */
  lemma WritablePage(k: Kernel, own: Owners, exempt: set<nat>, v: nat)
    requires Consistent(k, own, exempt) && v < PAGES && UserWritable(Walk(k.s.mem, k.root, 4, v))
    ensures v < USER_PAGES
    ensures var f := Walk(k.s.mem, k.root, 4, v).value.frame;
            f in own && own[f] == Pos(0, v) && f in k.s.mem && !Listed(k.s.free, f)
  {
    hide Inv, UserTree, AllReferenced, AllWritable, HeldOk, First, Prefix, Part;
    UserEnd();
    PagesIsEnd();
    Galois(v, 1, 4);
    Galois(v, 256, 3);
    assert Prefix(v, 3) == 512 * Prefix(v, 4) + Part(v, 4);
    if v >= USER_PAGES {
      assert !Load(k.s.mem, k.root, Part(v, 4)).us;
      SupervisorOnly(k.s.mem, k.root, v);
      assert false;
    }
    MappedFrame(k, own, exempt, v);
  }

  lemma SameView(k: Kernel, own: Owners, exempt: set<nat>, k': Kernel, w: nat)
    requires Consistent(k, own, exempt) && w < USER_PAGES && k'.root == k.root && k'.s.mem.Keys == k.s.mem.Keys
    requires forall f :: f in own ==> k'.s.mem[f] == k.s.mem[f]
    ensures View(k', w) == View(k, w)
  {
    hide Inv, UserTree, AllReferenced, AllWritable, HeldOk, First, Prefix, Walk;
    UserPage(w, 4);
    assert SameTables(k.s.mem, k'.s.mem, own);
    SameWalk(k, own, exempt, k'.s.mem, w);
    if Walk(k.s.mem, k.root, 4, w).Some? {
      MappedFrame(k, own, exempt, w);
    }
  }

  lemma UserWriteView(k: Kernel, own: Owners, exempt: set<nat>, v: nat, i: nat, x: Word, w: nat)
    requires Consistent(k, own, exempt) && v < PAGES && i < ENTRIES && w < USER_PAGES
    ensures View(Step(k, UserWrite(v, i, x)), w) == Expected(k, UserWrite(v, i, x), w)
  {
    hide Inv, UserTree, AllReferenced, AllWritable, HeldOk, First, Prefix, Walk, KernelPrivate;
    var k', m := Step(k, UserWrite(v, i, x)), Walk(k.s.mem, k.root, 4, v);
    if UserWritable(m) {
      WritablePage(k, own, exempt, v);
      UserPage(w, 4);
      assert SameTables(k.s.mem, k'.s.mem, own);
      SameWalk(k, own, exempt, k'.s.mem, w);
    }
    if Walk(k.s.mem, k.root, 4, w).Some? {
      MappedFrame(k, own, exempt, w);
    }
  }

  // ---- the kernel half ----------------------------------------------------------------------

  lemma FaultKernelWalk(k: Kernel, own: Owners, exempt: set<nat>, v: nat, w: nat)
    requires Consistent(k, own, exempt) && v < USER_PAGES && USER_PAGES <= w < PAGES && Part(w, 4) !in exempt
    ensures Walk(SetupPageMap(k.s, k.root, 4, v, 1, true).s.mem, k.root, 4, w) == Walk(k.s.mem, k.root, 4, w)
  {
    hide SetupPageMap, Walk, First, Prefix, Part, UserTree, HeldOk, AllReferenced, AllWritable, KernelPrivate, Within;
    hide Grows, Progress, FreeListOk;
    FaultCallable(k, own, exempt, v);
    var own' := SetupGrows(k.s, own, exempt, k.root, 4, v, 1, true);
    var r := SetupPageMap(k.s, k.root, 4, v, 1, true);
    OnePage(r, v);
    UserEnd();
    PagesIsEnd();
    Galois(w, 1, 4);
    Galois(v, 256, 3);
    Galois(w, 256, 3);
    PathSameOutside(k.s.mem, r.s.mem, own, 4, v, v, 3, 4, w);
    WalkFrame(k.s.mem, r.s.mem, own, exempt, k.root, 4, w);
  }

  /** No step changes the translation of a page of the kernel half, except below the PML4
      slots in exempt. */
  lemma StepKeepsKernelHalf(k: Kernel, own: Owners, exempt: set<nat>, e: Event, w: nat)
    requires Consistent(k, own, exempt) && Enabled(k, e) && USER_PAGES <= w < PAGES && Part(w, 4) !in exempt
    ensures Walk(Step(k, e).s.mem, k.root, 4, w) == Walk(k.s.mem, k.root, 4, w)
  {
    hide Consistent, SetupPageMap, Walk, AllocMemory, AllocBlocks, First, Prefix, Part;
    match e
    case Allocate(n) =>
      AllocateKeeps(k, own, exempt, n);
      SameWalk(k, own, exempt, Step(k, e).s.mem, w);
    case Write(f, i, x) =>
      HeldFrame(k, own, exempt, f);
      SameWalk(k, own, exempt, Step(k, e).s.mem, w);
    case Fault(error, cr2, brk) =>
      if Serves(error, cr2, brk) {
        FaultKernelWalk(k, own, exempt, cr2 / 4096, w);
      }
    case UserWrite(v, i, x) =>
      if UserWritable(Walk(k.s.mem, k.root, 4, v)) {
        WritablePage(k, own, exempt, v);
        SameWalk(k, own, exempt, Step(k, e).s.mem, w);
      }
  }

  /** Refinement, one step: the invariant is kept, so that the direct map still translates all used
      frames; the tree only grows, and user memory changes exactly as specified. */
  lemma StepRefines(k: Kernel, own: Owners, exempt: set<nat>, e: Event) returns (own': Owners)
    requires KernelOk(k, own, exempt) && Enabled(k, e)
    ensures KernelOk(Step(k, e), own', exempt) && UsedWithin(k, own, Step(k, e), own')
    ensures forall t :: t in own ==> t in own' && own'[t] == own[t]
    ensures forall w :: 0 <= w < USER_PAGES ==> View(Step(k, e), w) == Expected(k, e, w)
  {
    hide Consistent, Step, Walk, Part, Used, View, Expected;
    own' := StepConsistent(k, own, exempt, e);
    var k' := Step(k, e);
    StepRoot(k, e);
    forall f: nat | Used(k', own', f)
      ensures DirectMapped(k'.s.mem, k.root, f) && Part(DIRECT_PAGE + f, 4) !in exempt
    {
      assert Used(k, own, f);
      StepKeepsKernelHalf(k, own, exempt, e, DIRECT_PAGE + f);
    }
  }

  lemma StepRoot(k: Kernel, e: Event)
    requires Enabled(k, e)
    ensures Step(k, e).root == k.root
  {
    hide SetupPageMap, Walk, AllocMemory, AllocBlocks;
  }

  /** All that a step stores goes to used frames, which the direct map translates, or through the
      tables of the user half to pages mapped there. */
  lemma StepStoresUsed(k: Kernel, own: Owners, exempt: set<nat>, e: Event, f: nat)
    requires KernelOk(k, own, exempt) && Enabled(k, e)
    requires f in k.s.mem && f in Step(k, e).s.mem && Step(k, e).s.mem[f] != k.s.mem[f]
    ensures Used(k, own, f) && DirectMapped(k.s.mem, k.root, f)
  {
    hide Consistent, DirectMapped, SetupPageMap, Walk, AllocMemory, AllocBlocks, First, Prefix, Part;
    match e
    case Allocate(n) =>
      AllocateStores(k, own, exempt, n, f);
    case Write(g, i, x) =>
    case Fault(error, cr2, brk) =>
      if Serves(error, cr2, brk) {
        FaultStores(k, own, exempt, cr2 / 4096, f);
      }
    case UserWrite(v, i, x) =>
      if UserWritable(Walk(k.s.mem, k.root, 4, v)) {
        WritablePage(k, own, exempt, v);
        LeafInUserHalf(v);
      }
  }

  lemma LeafInUserHalf(v: nat)
    requires v < USER_PAGES
    ensures InUserHalf(Pos(0, v))
  {
    UserEnd();
  }

  lemma AllocateStores(k: Kernel, own: Owners, exempt: set<nat>, n: nat, f: nat)
    requires Consistent(k, own, exempt) && n < WRAP
    requires f in k.s.mem && f in Step(k, Allocate(n)).s.mem && Step(k, Allocate(n)).s.mem[f] != k.s.mem[f]
    ensures Listed(k.s.free, f)
  {
    hide AllocMemory, AllocBlocks, Listed, First, UserTree, TreeOk, AllReferenced, AllWritable, KernelPrivate, HeldOk;
    AllocConserves(k.s.free, n, f);
    if !Listed(AllocBlocks(k.s.free, n), f) {
      AllocWritesListed(k.s.mem, k.s.free, n, f);
    }
  }

  /** A fault stores into listed frames, which become tables and pages, and into the tables on the
      path of its page. */
  lemma FaultStores(k: Kernel, own: Owners, exempt: set<nat>, v: nat, f: nat)
    requires Consistent(k, own, exempt) && v < USER_PAGES
    requires var mem' := SetupPageMap(k.s, k.root, 4, v, 1, true).s.mem;
               f in k.s.mem && f in mem' && mem'[f] != k.s.mem[f]
    ensures Used(k, own, f)
  {
    hide SetupPageMap, Listed, First, Prefix, Part, UserTree, HeldOk, AllReferenced, AllWritable, KernelPrivate, Inv;
    hide Referenced, Progress;
    FaultCallable(k, own, exempt, v);
    var own' := SetupGrows(k.s, own, exempt, k.root, 4, v, 1, true);
    var r := SetupPageMap(k.s, k.root, 4, v, 1, true);
    OnePage(r, v);
    if f in own {
      var i :| 0 <= i < ENTRIES && r.s.mem[f][i] != k.s.mem[f][i];
      assert Load(r.s.mem, f, i) != Load(k.s.mem, f, i);
      assert Spans(own[f], i, 4, v, v);
      PathInUserHalf(v, own[f], i);
      if own[f].level == 4 {
        PositionsUnique(k, own, exempt, f, k.root);
      }
    }
  }

  /** A table on the path of a user page is the PML4 or in the user half. */
  lemma PathInUserHalf(v: nat, p: Pos, i: nat)
    requires v < USER_PAGES && i < ENTRIES && Spans(p, i, 4, v, v)
    ensures if p.level == 4 then p == Pos(4, 0) else InUserHalf(p)
  {
    hide First;
    var L := p.level;
    assert Prefix(v, L - 1) == 512 * Prefix(v, L) + Part(v, L);
    assert p.prefix == Prefix(v, L);
    UserEnd();
    if L == 4 {
      UserPage(v, 4);
    } else {
      FirstCompose(256, 3 - L, L);
      Galois(v, First(256, 3 - L), L);
    }
  }

  // ---- runs -----------------------------------------------------------------------------------

  predicate RunEnabled(k: Kernel, es: seq<Event>)
    decreases |es|
  {
    es == [] || (Enabled(k, es[0]) && RunEnabled(Step(k, es[0]), es[1..]))
  }

  function Run(k: Kernel, es: seq<Event>): Kernel
    requires RunEnabled(k, es)
    decreases |es|
  {
    if es == [] then k else Run(Step(k, es[0]), es[1..])
  }

  /** User page w over a run, computed without memory, tables or free list: all that is taken
      from the machine is which faults ran out of memory. */
  function Replay(page: Option<Page>, w: nat, es: seq<Event>, failed: seq<bool>): Option<Page>
    requires |failed| == |es| && forall i :: 0 <= i < |es| && es[i].UserWrite? ==> es[i].i < ENTRIES
    decreases |es|
  {
    if es == [] then page
    else
      var page' := match es[0]
        case Fault(error, cr2, brk) =>
          if Serves(error, cr2, brk) && w == cr2 / 4096 && page.None? && !failed[0] then Some(ZeroPage()) else page
        case UserWrite(v, i, x) => if v == w && page.Some? then Some(page.value[i := x]) else page
        case _ => page;
      Replay(page', w, es[1..], failed[1..])
  }

  function Failures(k: Kernel, es: seq<Event>): (r: seq<bool>)
    requires RunEnabled(k, es)
    ensures |r| == |es|
    decreases |es|
  {
    if es == [] then [] else [OutOfMemory(k, es[0])] + Failures(Step(k, es[0]), es[1..])
  }

  lemma {:induction false} RunIndices(k: Kernel, es: seq<Event>)
    requires RunEnabled(k, es)
    ensures forall i :: 0 <= i < |es| && es[i].UserWrite? ==> es[i].i < ENTRIES
    decreases |es|
  {
    if es != [] {
      RunIndices(Step(k, es[0]), es[1..]);
      assert forall i :: 0 < i < |es| ==> es[i] == es[1..][i - 1];
    }
  }

  /** Refinement, whole runs: after any run the invariant holds, with the direct map in
      place for all used frames; every page of the kernel half
      outside the exempt slots translates as before, and each user page holds what `Replay`
      computes from its content at the start. */
  lemma {:induction false} RunRefines(k: Kernel, own: Owners, exempt: set<nat>, es: seq<Event>) returns (own': Owners)
    requires KernelOk(k, own, exempt) && RunEnabled(k, es)
    ensures KernelOk(Run(k, es), own', exempt) && Run(k, es).root == k.root
    ensures forall w :: USER_PAGES <= w < PAGES && Part(w, 4) !in exempt
              ==> Walk(Run(k, es).s.mem, k.root, 4, w) == Walk(k.s.mem, k.root, 4, w)
    ensures forall i :: 0 <= i < |es| && es[i].UserWrite? ==> es[i].i < ENTRIES
    ensures forall w :: 0 <= w < USER_PAGES ==> View(Run(k, es), w) == Replay(View(k, w), w, es, Failures(k, es))
    decreases |es|
  {
    hide Consistent, DirectOk, Step, Walk, View, Part, ZeroPage, Serves, OutOfMemory;
    RunIndices(k, es);
    own' := own;
    if es != [] {
      var k1 := Step(k, es[0]);
      StepRoot(k, es[0]);
      var own1 := StepRefines(k, own, exempt, es[0]);
      own' := RunRefines(k1, own1, exempt, es[1..]);
      forall w | USER_PAGES <= w < PAGES && Part(w, 4) !in exempt
        ensures Walk(Run(k, es).s.mem, k.root, 4, w) == Walk(k.s.mem, k.root, 4, w)
      {
        StepKeepsKernelHalf(k, own, exempt, es[0], w);
      }
      assert Failures(k, es)[1..] == Failures(k1, es[1..]);
      forall w | 0 <= w < USER_PAGES
        ensures View(Run(k, es), w) == Replay(View(k, w), w, es, Failures(k, es))
      {
        assert View(k1, w) == Expected(k, es[0], w);
      }
    }
  }

  // ---- one entry for each frame -----------------------------------------------------------------

  /** The entries above two frames of the tree. */
  lemma ParentEntry(k: Kernel, own: Owners, exempt: set<nat>, t: nat, u: nat) returns (p: nat, q: nat, i: nat, j: nat)
    requires Consistent(k, own, exempt) && t in own && u in own && t != k.root && u != k.root
    ensures p in own && i < ENTRIES && Load(k.s.mem, p, i).frame == t && Below(own, own[p], i, t)
    ensures q in own && j < ENTRIES && Load(k.s.mem, q, j).frame == u && Below(own, own[q], j, u)
  {
    hide UserTree, HeldOk, AllWritable, KernelPrivate, TreeOk, FreeListOk;
    assert Referenced(k.s.mem, own, t) && Referenced(k.s.mem, own, u);
    p, i :| p in own && 0 <= i < ENTRIES && Load(k.s.mem, p, i).p && Load(k.s.mem, p, i).frame == t
            && Below(own, own[p], i, t);
    q, j :| q in own && 0 <= j < ENTRIES && Load(k.s.mem, q, j).p && Load(k.s.mem, q, j).frame == u
            && Below(own, own[q], j, u);
  }

  /** No two frames of the tree stand at the same position. */
  lemma {:induction false} PositionsUnique(k: Kernel, own: Owners, exempt: set<nat>, t: nat, u: nat)
    requires Consistent(k, own, exempt) && t in own && u in own && own[t] == own[u]
    ensures t == u
    decreases 4 - own[t].level
  {
    hide Consistent, Load;
    if t != k.root && u != k.root {
      var p, q, i, j := ParentEntry(k, own, exempt, t, u);
      TopLevel(k, own, exempt, p);
      PositionsUnique(k, own, exempt, p, q);
    } else if t != u {
      RootIsTop(k, own, exempt, if t == k.root then u else t);
    }
  }

  lemma TopLevel(k: Kernel, own: Owners, exempt: set<nat>, f: nat)
    requires Consistent(k, own, exempt) && f in own
    ensures own[f].level <= 4
  {
    hide UserTree, HeldOk, AllWritable, KernelPrivate, TreeOk, FreeListOk;
  }

  lemma RootIsTop(k: Kernel, own: Owners, exempt: set<nat>, f: nat)
    requires Consistent(k, own, exempt) && f in own && f != k.root
    ensures own[f].level < 4 && own[k.root].level == 4
  {
    hide UserTree, HeldOk, AllWritable, KernelPrivate, TreeOk, FreeListOk;
    assert Referenced(k.s.mem, own, f);
  }

  /** Each table and each page of the user half is referenced by exactly one entry: frames of
      the tree have an entry, and no two user entries lead to the same frame. */
  lemma OneReference(k: Kernel, own: Owners, exempt: set<nat>, t: nat, i: nat, u: nat, j: nat)
    requires Consistent(k, own, exempt) && t in own && u in own && i < ENTRIES && j < ENTRIES
    requires UserPos(own[t], i) && UserPos(own[u], j) && Load(k.s.mem, t, i).p && Load(k.s.mem, u, j).p
    ensures Load(k.s.mem, t, i).frame == Load(k.s.mem, u, j).frame <==> t == u && i == j
  {
    hide Inv, HeldOk, AllWritable, KernelPrivate, First, AllReferenced;
    assert UserEntryOk(own, own[t], i, Load(k.s.mem, t, i)) && UserEntryOk(own, own[u], j, Load(k.s.mem, u, j));
    if Load(k.s.mem, t, i).frame == Load(k.s.mem, u, j).frame {
      PositionsUnique(k, own, exempt, t, u);
    }
  }

  /** Distinct user pages never share a frame. */
  lemma OneFramePerPage(k: Kernel, own: Owners, exempt: set<nat>, v: nat, w: nat)
    requires Consistent(k, own, exempt) && v < USER_PAGES && w < USER_PAGES
    requires Walk(k.s.mem, k.root, 4, v).Some? && Walk(k.s.mem, k.root, 4, w).Some?
    ensures Walk(k.s.mem, k.root, 4, v).value.frame == Walk(k.s.mem, k.root, 4, w).value.frame <==> v == w
  {
    hide Consistent, Walk;
    MappedFrame(k, own, exempt, v);
    MappedFrame(k, own, exempt, w);
  }

  // ---- when memory runs out -----------------------------------------------------------------------

  /** A served fault runs out of memory exactly if fewer pages are free than entries on the path
      of its page are absent. */
  lemma OutOfMemoryIff(k: Kernel, own: Owners, exempt: set<nat>, error: nat, cr2: nat, brk: nat)
    requires Consistent(k, own, exempt) && Serves(error, cr2, brk)
    ensures var v := cr2 / 4096;
            OutOfMemory(k, Fault(error, cr2, brk)) <==> BlockPages(k.s.free) < Absent(k.s.mem, Some(k.root), 4, v, v)
  {
    hide Consistent, SetupPageMap, Absent;
    FaultCallable(k, own, exempt, cr2 / 4096);
    UserEnd();
    FailsIff(k.s, own, exempt, k.root, cr2 / 4096, 1, true);
  }

  // ---- which faults are served ----------------------------------------------------------------------

  /** Page v is provided: if enough pages are free it ends up mapped, writable for user mode; a page
      that was mapped stays as it is, a new one reads as zero everywhere, and the other user
      pages do not change. */
  ghost predicate PageProvided(k: Kernel, k': Kernel, v: nat)
  {
    var before, after := Walk(k.s.mem, k.root, 4, v), Walk(k'.s.mem, k.root, 4, v);
    && (Absent(k.s.mem, Some(k.root), 4, v, v) <= BlockPages(k.s.free) ==>
          after.Some? && after.value.us && after.value.rw)
    && (before.Some? ==> after == before && View(k', v) == View(k, v))
    && (before.None? && after.Some? ==>
          after.value.frame in k'.s.mem
          && forall j :: 0 <= j < ENTRIES ==> Value(k'.s.mem[after.value.frame][j]) == 0)
    && forall w :: 0 <= w < 0x8_0000_0000 && w != v ==> View(k', w) == View(k, w)
  }

  /** A page fault is served exactly if it is no protection fault and its address lies from brk to the
      stack. */
  lemma FaultProvides(k: Kernel, own: Owners, exempt: set<nat>, error: nat, cr2: nat, brk: nat)
    requires Consistent(k, own, exempt)
    ensures error % 2 == 1 || cr2 < brk || cr2 > 0x7fff_ffff_e000 ==> Step(k, Fault(error, cr2, brk)) == k
    ensures error % 2 == 0 && brk <= cr2 <= 0x7fff_ffff_e000
            ==> PageProvided(k, Step(k, Fault(error, cr2, brk)), cr2 / 4096)
  {
    hide Consistent, SetupPageMap, Absent, Walk, BlockPages;
    if error % 2 == 0 && brk <= cr2 <= 0x7fff_ffff_e000 {
      var e, v := Fault(error, cr2, brk), cr2 / 4096;
      var k' := Step(k, e);
      OutOfMemoryIff(k, own, exempt, error, cr2, brk);
      var own' := StepConsistent(k, own, exempt, e);
      FaultWalk(k, own, exempt, v, v);
      if Walk(k.s.mem, k.root, 4, v).Some? {
        MappedFrame(k, own, exempt, v);
      } else if Walk(k'.s.mem, k.root, 4, v).Some? {
        MappedFrame(k', own', exempt, v);
        assert View(k', v) == Expected(k, e, v) == Some(ZeroPage());
      }
      assert forall w :: 0 <= w < USER_PAGES && w != v ==> View(k', w) == Expected(k, e, w) == View(k, w);
    }
  }

  // ---- the code ---------------------------------------------------------------------------------------

  /** The machine whose tables hang off `root`. */
  ghost function KernelOf(a: Allocator, root: nat, held: set<nat>): Kernel
    reads a
  {
    Kernel(Machine(a.mem, a.free), root, held)
  }

  /** `do_page_fault`; it does not return for a protection fault. */
  method DoPageFault(a: Allocator, ghost own: Owners, ghost exempt: set<nat>, root: nat, ghost held: set<nat>,
                     error: nat, cr2: nat, brk: nat)
    returns (halts: bool, ghost own': Owners)
    requires a.head == PtrAt(a.free, 0) && KernelOk(KernelOf(a, root, held), own, exempt)
    modifies a
    ensures halts <==> error % 2 == 1
    ensures KernelOf(a, root, held) == Step(old(KernelOf(a, root, held)), Fault(error, cr2, brk))
    ensures error % 2 == 1 || cr2 < brk || cr2 > 0x7fff_ffff_e000
            ==> a.mem == old(a.mem) && a.free == old(a.free)
    ensures error % 2 == 0 && brk <= cr2 <= 0x7fff_ffff_e000
            ==> PageProvided(old(KernelOf(a, root, held)), KernelOf(a, root, held), cr2 / 4096)
    ensures a.head == PtrAt(a.free, 0) && KernelOk(KernelOf(a, root, held), own', exempt)
  {
    hide Consistent, DirectOk, SetupPageMap, Inv, PageProvided;
    own' := StepRefines(KernelOf(a, root, held), own, exempt, Fault(error, cr2, brk));
    FaultProvides(KernelOf(a, root, held), own, exempt, error, cr2, brk);
    if error % 2 == 1 {
      return true, own';
    }
    if brk <= cr2 && cr2 <= START_STACK {
      ghost var k := KernelOf(a, root, held);
      FaultCallable(k, own, exempt, cr2 / 4096);
      assert Inv(k.s, own, exempt) by { KernelInv(k, own, exempt); }
      var addr := new LinearAddress(cr2 / 4096);
      var _, _ := SetupMap(a, own, exempt, root, 4, addr, 1, true);
    }
    halts := false;
  }

  lemma KernelInv(k: Kernel, own: Owners, exempt: set<nat>)
    requires Consistent(k, own, exempt)
    ensures Inv(k.s, own, exempt)
  {
  }
}
