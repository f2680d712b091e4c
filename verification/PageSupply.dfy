/**
 When `setupPageMap` of kernel/paging.c runs out of memory: what a request needs is a count
 over the tables before the call, and it fails exactly if fewer pages are free.
 */
module PageSupply {
  import opened Options
  import opened PhysicalMemory
  import opened Radix
  import opened Translation
  import opened FreeList
  import opened Paging

  // ---- free pages -------------------------------------------------------------------------

  lemma {:induction false} BlockPagesConcat(a: seq<Block>, b: seq<Block>)
    ensures BlockPages(a + b) == BlockPages(a) + BlockPages(b)
    decreases |b|
  {
    if b == [] {
      assert a + b == a;
    } else {
      assert (a + b)[..|a + b| - 1] == a + b[..|b| - 1];
      BlockPagesConcat(a, b[..|b| - 1]);
    }
  }

  lemma OneLess(bs: seq<Block>)
    requires Canonical(bs) && bs != []
    ensures BlockPages(AllocBlocks(bs, 1)) == BlockPages(bs) - 1
  {
    hide Canonical;
    assert Sized(bs[0]) by { FirstSized(bs); }
    assert FirstFit(bs, 1) == 0;
    assert bs == [bs[0]] + bs[1..];
    BlockPagesConcat([bs[0]], bs[1..]);
    var rest := Block(bs[0].start + 1, bs[0].pages - 1);
    BlockPagesConcat([rest], bs[1..]);
    OneBlock(bs[0]);
    OneBlock(rest);
    if bs[0].pages == 1 {
      assert AllocBlocks(bs, 1) == bs[1..];
    } else {
      assert AllocBlocks(bs, 1) == [rest] + bs[1..];
    }
  }

  lemma FirstSized(bs: seq<Block>)
    requires Canonical(bs) && bs != []
    ensures Sized(bs[0])
  {
  }

  lemma OneBlock(b: Block)
    ensures BlockPages([b]) == b.pages
  {
    assert [b][..0] == [];
  }

  /** Frames a touch takes off the list. */
  lemma TouchFree(s: Machine, t: nat, i: nat, rw: bool)
    requires i < ENTRIES
    ensures Load(s.mem, t, i).p ==> Touch(s, t, i, rw).1.At? && Touch(s, t, i, rw).0.free == s.free
    ensures !Load(s.mem, t, i).p && Touch(s, t, i, rw).1.At? ==>
              Touch(s, t, i, rw).0.free == AllocBlocks(s.free, 1) && s.free != []
  {
    hide AllocBlocks, AllocMemory;
  }

  lemma InvCanonical(s: Machine, own: Owners, exempt: set<nat>)
    requires Inv(s, own, exempt)
    ensures Canonical(s.free)
  {
  }

  // ---- absent entries ---------------------------------------------------------------------

  /** The last of the pages lo to hi under the entry of lo in a table of the given level. */
  function LastUnder(lo: nat, level: nat, hi: nat): (h: nat)
    requires 1 <= level && lo <= hi
    ensures lo <= h <= hi
    ensures h == if hi < NextEntry(lo, level) then hi else NextEntry(lo, level) - 1
  {
    if hi < NextEntry(lo, level) then hi else NextEntry(lo, level) - 1
  }

  /** The number of absent entries on the paths of pages lo to hi, below a table of the given
      level in frame t; all entries of an absent table are absent. */
  function Absent(mem: Memory, t: Option<nat>, level: nat, lo: nat, hi: nat): nat
    requires 1 <= level && lo <= hi
    decreases level, hi - lo, 1
  {
    var h := LastUnder(lo, level, hi);
    AbsentUnder(mem, t, level, lo, h) + if h < hi then Absent(mem, t, level, h + 1, hi) else 0
  }

  /** The same for pages under one entry: the entry itself and what is below it. */
  function AbsentUnder(mem: Memory, t: Option<nat>, level: nat, lo: nat, h: nat): nat
    requires 1 <= level && lo <= h
    decreases level, h - lo, 0
  {
    var e := if t.Some? then Load(mem, t.value, Part(lo, level)) else ZERO;
    (if e.p then 0 else 1)
    + if level == 1 then 0 else Absent(mem, if e.p then Some(e.frame) else None, level - 1, lo, h)
  }

  /** An empty table lacks as much as an absent one. */
  lemma {:induction false} EmptyTable(mem: Memory, mem': Memory, t: nat, level: nat, lo: nat, hi: nat)
    requires 1 <= level && lo <= hi && forall i :: 0 <= i < ENTRIES ==> Load(mem, t, i) == ZERO
    ensures Absent(mem, Some(t), level, lo, hi) == Absent(mem', None, level, lo, hi)
    decreases level, hi - lo
  {
    hide Prefix, First, Part, NextEntry, LastUnder;
    var h := LastUnder(lo, level, hi);
    if level > 1 {
      AbsentTable(mem, mem', level - 1, lo, h);
    }
    if h < hi {
      EmptyTable(mem, mem', t, level, h + 1, hi);
    }
  }

  lemma {:induction false} AbsentTable(mem: Memory, mem': Memory, level: nat, lo: nat, hi: nat)
    requires 1 <= level && lo <= hi
    ensures Absent(mem, None, level, lo, hi) == Absent(mem', None, level, lo, hi)
    decreases level, hi - lo
  {
    hide Prefix, First, Part, NextEntry, LastUnder;
    var h := LastUnder(lo, level, hi);
    if level > 1 {
      AbsentTable(mem, mem', level - 1, lo, h);
    }
    if h < hi {
      AbsentTable(mem, mem', level, h + 1, hi);
    }
  }

  /** Pages up to the end of the entry of lo share its prefix. */
  lemma UnderPrefix(lo: nat, level: nat, hi: nat, w: nat)
    requires 1 <= level && lo <= hi && lo <= w <= LastUnder(lo, level, hi)
    ensures Prefix(w, level - 1) == Prefix(lo, level - 1)
  {
    PrefixMonotone(lo, w, level - 1);
    Galois(w, Prefix(lo, level - 1) + 1, level - 1);
  }

  /** The count depends only on the entries on the paths of its pages. */
  lemma {:induction false} AbsentFrame(mem: Memory, mem': Memory, own: Owners, exempt: set<nat>, t: nat, L: nat,
                                       lo: nat, hi: nat)
    requires TreeOk(mem, own, exempt) && NoLarge(mem, own, lo, hi) && lo <= hi
    requires forall w :: lo <= w <= hi ==> PathSame(mem, mem', own, L, w)
    requires 1 <= L <= 4 && t in own && own[t] == Pos(L, Prefix(lo, L)) && Prefix(hi, L) == Prefix(lo, L)
    requires L == 4 ==> Prefix(lo, 4) == 0 && Avoids(exempt, lo, hi)
    ensures Absent(mem', Some(t), L, lo, hi) == Absent(mem, Some(t), L, lo, hi)
    decreases L, hi - lo
  {
    hide Prefix, First, Part, NextEntry;
    var h := LastUnder(lo, L, hi);
    AbsentUnderFrame(mem, mem', own, exempt, t, L, lo, hi);
    if h < hi {
      PrefixMonotone(lo, h + 1, L);
      PrefixMonotone(h + 1, hi, L);
      NoLargeNarrow(mem, own, lo, h + 1, hi);
      PrefixMonotone(lo, h + 1, 3);
      AbsentFrame(mem, mem', own, exempt, t, L, h + 1, hi);
    }
  }

  lemma {:induction false} AbsentUnderFrame(mem: Memory, mem': Memory, own: Owners, exempt: set<nat>, t: nat, L: nat,
                                            lo: nat, hi: nat)
    requires TreeOk(mem, own, exempt) && NoLarge(mem, own, lo, hi) && lo <= hi
    requires forall w :: lo <= w <= hi ==> PathSame(mem, mem', own, L, w)
    requires 1 <= L <= 4 && t in own && own[t] == Pos(L, Prefix(lo, L)) && Prefix(hi, L) == Prefix(lo, L)
    requires L == 4 ==> Prefix(lo, 4) == 0 && Avoids(exempt, lo, hi)
    ensures var h := LastUnder(lo, L, hi); AbsentUnder(mem', Some(t), L, lo, h) == AbsentUnder(mem, Some(t), L, lo, h)
    decreases L, hi - lo, 0
  {
    hide Prefix, First, Part, NextEntry, Absent;
    var h, e, k := LastUnder(lo, L, hi), Load(mem, t, Part(lo, L)), L - 1;
    assert PathSame(mem, mem', own, L, lo);
    if L > 1 {
      if e.p {
        EntryLink(mem, own, exempt, t, L, lo, hi);
        UnderPrefix(lo, L, hi, h);
        NoLargeShrink(mem, own, lo, h, hi);
        forall w | lo <= w <= h
          ensures PathSame(mem, mem', own, k, w)
        {
          assert PathSame(mem, mem', own, L, w);
        }
        AbsentFrame(mem, mem', own, exempt, e.frame, L - 1, lo, h);
      } else {
        AbsentTable(mem, mem', L - 1, lo, h);
      }
    }
  }

  /** A present entry on the path of lo links to the table below it. */
  lemma EntryLink(mem: Memory, own: Owners, exempt: set<nat>, t: nat, L: nat, lo: nat, hi: nat)
    requires TreeOk(mem, own, exempt) && NoLarge(mem, own, lo, hi) && lo <= hi
    requires 2 <= L <= 4 && t in own && own[t] == Pos(L, Prefix(lo, L))
    requires (L == 4 ==> Prefix(lo, 4) == 0 && Avoids(exempt, lo, hi))
    requires Load(mem, t, Part(lo, L)).p
    ensures var f := Load(mem, t, Part(lo, L)).frame; f in own && own[f] == Pos(L - 1, Prefix(lo, L - 1))
  {
    var i := Part(lo, L);
    PrefixMonotone(lo, hi, L - 1);
    assert L == 4 ==> Prefix(lo, 3) == Part(lo, 4);
    assert L < 4 ==> Spans(own[t], i, 3, lo, hi);
    assert LinkOk(own, own[t], i, Load(mem, t, i));
  }

  lemma NoLargeShrink(mem: Memory, own: Owners, lo: nat, hi': nat, hi: nat)
    requires NoLarge(mem, own, lo, hi) && lo <= hi' <= hi
    ensures NoLarge(mem, own, lo, hi')
  {
    forall t, i | t in own && 0 <= i < ENTRIES && Spans(own[t], i, 3, lo, hi')
      ensures !Large(own[t].level, Load(mem, t, i))
    {
      PrefixMonotone(hi', hi, own[t].level - 1);
      assert Spans(own[t], i, 3, lo, hi);
    }
  }

  // ---- one turn of the loop ---------------------------------------------------------------

  /** What a touch takes off the list, and what is missing below its entry afterwards. */
  lemma TouchNeeds(s: Machine, own: Owners, exempt: set<nat>, s1: Machine, own1: Owners, t: nat, L: nat, v: nat,
                   n: nat, rw: bool, c: nat)
    requires Callable(s, own, exempt, t, L, v, n) && n > 0
    requires Touch(s, t, Part(v, L), rw) == (s1, At(c)) && Touched(s, own, s1, own1, t, Part(v, L), rw, c)
    ensures var e := Load(s.mem, t, Part(v, L));
            var h := LastUnder(v, L, v + n - 1);
            && BlockPages(s.free) - BlockPages(s1.free) == (if e.p then 0 else 1)
            && (L >= 2 ==>
                  var below := if e.p then Some(e.frame) else None;
                  Absent(s1.mem, Some(c), L - 1, v, h) == Absent(s.mem, below, L - 1, v, h))
  {
    hide Touch, AllocBlocks, FreeListOk, Prefix, Part, BlockPages, NoLarge, Listed, Absent, First, NextEntry;
    var e, h := Load(s.mem, t, Part(v, L)), LastUnder(v, L, v + n - 1);
    TouchFree(s, t, Part(v, L), rw);
    if e.p {
      if L >= 2 {
        ChildNeeds(s, own, exempt, s1, own1, t, L, v, n, rw, c);
      }
    } else {
      assert Canonical(s.free) by { InvCanonical(s, own, exempt); }
      OneLess(s.free);
      if L >= 2 {
        EmptyTable(s1.mem, s.mem, c, L - 1, v, h);
      }
    }
  }

  lemma ChildNeeds(s: Machine, own: Owners, exempt: set<nat>, s1: Machine, own1: Owners, t: nat, L: nat, v: nat,
                   n: nat, rw: bool, c: nat)
    requires Callable(s, own, exempt, t, L, v, n) && n > 0 && L >= 2
    requires Touched(s, own, s1, own1, t, Part(v, L), rw, c) && Load(s.mem, t, Part(v, L)).p
    ensures var h := LastUnder(v, L, v + n - 1);
            Absent(s1.mem, Some(c), L - 1, v, h) == Absent(s.mem, Some(c), L - 1, v, h)
  {
    hide FreeListOk, Prefix, Part, NoLarge, Listed, Absent, First, NextEntry;
    var hi, k := v + n - 1, L - 1;
    var h := LastUnder(v, L, hi);
    EntryLink(s.mem, own, exempt, t, L, v, hi);
    UnderPrefix(v, L, hi, h);
    NoLargeShrink(s.mem, own, v, h, hi);
    forall w | v <= w <= h
      ensures PathSame(s.mem, s1.mem, own, k, w)
    {
    }
    AbsentFrame(s.mem, s1.mem, own, exempt, c, k, v, h);
  }

  // ---- whole calls --------------------------------------------------------------------------

  /** A call that needs `need` pages: it fails exactly if fewer are free, and takes just these. */
  predicate Supplied(s: Machine, r: Outcome, need: nat)
  {
    && (r.remaining == -1 <==> BlockPages(s.free) < need)
    && (r.remaining >= 0 ==> BlockPages(r.s.free) == BlockPages(s.free) - need)
  }

  lemma {:induction false} EntrySupplied(s: Machine, own: Owners, exempt: set<nat>, t: nat, L: nat, v: nat, n: nat,
                                         rw: bool)
    requires Callable(s, own, exempt, t, L, v, n) && n > 0
    ensures Supplied(s, FirstEntry(s, t, L, v, n, rw), AbsentUnder(s.mem, Some(t), L, v, LastUnder(v, L, v + n - 1)))
    decreases L, ENTRIES - Part(v, L), 0
  {
    hide Inv, Grows, Within, NoLarge, Touch, Touched, Prefix, First, Part, NextEntry, AllocBlocks, BlockPages, Absent;
    var own1 := FirstTurn(s, own, exempt, t, L, v, n, rw);
    TouchFree(s, t, Part(v, L), rw);
    var (s1, c) := Touch(s, t, Part(v, L), rw);
    if c.Null? {
      NothingFree();
    } else {
      TouchNeeds(s, own, exempt, s1, own1, t, L, v, n, rw, c.frame);
      if L > 1 {
        SetupSupplied(s1, own1, exempt, c.frame, L - 1, v, n, rw);
        SameLast(v, L, v + n - 1);
      }
    }
  }

  lemma NothingFree()
    ensures BlockPages([]) == 0
  {
  }

  /** The end of a table's child is the end of the entry above it. */
  lemma SameLast(v: nat, L: nat, hi: nat)
    requires L >= 1 && v <= hi
    ensures var end := First(Prefix(v, L - 1) + 1, L - 1); LastUnder(v, L, hi) == if hi < end then hi else end - 1
  {
  }

  /** `setupPageMap` on a table of any level. */
  lemma {:induction false} SetupSupplied(s: Machine, own: Owners, exempt: set<nat>, t: nat, L: nat, v: nat, n: nat,
                                         rw: bool)
    requires Callable(s, own, exempt, t, L, v, n) && n > 0
    ensures Supplied(s, SetupPageMap(s, t, L, v, n, rw), Absent(s.mem, Some(t), L, v, LastUnder(v, L + 1, v + n - 1)))
    decreases L, ENTRIES - Part(v, L), 1
  {
    hide Inv, Grows, Within, NoLarge, Touch, Touched, Prefix, First, Part, NextEntry, BlockPages, AbsentUnder;
    EntrySupplied(s, own, exempt, t, L, v, n, rw);
    var own2 := EntryGrowsTree(s, own, exempt, t, L, v, n, rw);
    var r1 := FirstEntry(s, t, L, v, n, rw);
    EndOfEntry(v, L);
    SameLast(v, L, v + n - 1);
    SameLast(v, L + 1, v + n - 1);
    if r1.remaining > 0 && Part(v, L) != 511 {
      var v2, s2 := NextEntry(v, L), r1.s;
      NextTurn(s, own, exempt, s2, own2, t, L, v, n, r1.remaining);
      SetupSupplied(s2, own2, exempt, t, L, v2, r1.remaining, rw);
      RestFrame(s, own, exempt, r1, own2, t, L, v, n);
    }
  }

  lemma RestFrame(s: Machine, own: Owners, exempt: set<nat>, r1: Outcome, own2: Owners, t: nat, L: nat, v: nat, n: nat)
    requires Callable(s, own, exempt, t, L, v, n) && n > 0 && Part(v, L) < 511
    requires Progress(r1, L - 1, v, n) && GrowsWithin(s, own, exempt, r1, own2, L, v) && r1.remaining > 0
    ensures var v2, hi := NextEntry(v, L), LastUnder(v, L + 1, v + n - 1);
            && LastUnder(v, L, v + n - 1) == v2 - 1 < hi
            && LastUnder(v, L, hi) == v2 - 1
            && LastUnder(v2, L + 1, v2 + r1.remaining - 1) == hi
            && Absent(r1.s.mem, Some(t), L, v2, hi) == Absent(s.mem, Some(t), L, v2, hi)
  {
    hide FreeListOk, Prefix, Part, NoLarge, Listed, Absent, First, Grows;
    var v2, last := NextEntry(v, L), v + n - 1;
    var hi := LastUnder(v, L + 1, last);
    NextEntryPrefix(v, L);
    Galois(v2, Prefix(v, L) + 1, L);
    UnderPrefix(v, L + 1, last, hi);
    NoLargeNarrow(s.mem, own, v, v2, last);
    NoLargeShrink(s.mem, own, v2, hi, last);
    PrefixMonotone(v, v2, 3);
    PrefixMonotone(hi, last, 3);
    forall w | v2 <= w <= hi
      ensures PathSame(s.mem, r1.s.mem, own, L, w)
    {
      Galois(v2 - 1, Prefix(v, L - 1) + 1, L - 1);
      PrefixMonotone(v2, w, L - 1);
      PathSameOutside(s.mem, r1.s.mem, own, L, v, v2 - 1, L - 1, L, w);
    }
    TreeOf(s, own, exempt);
    AbsentFrame(s.mem, r1.s.mem, own, exempt, t, L, v2, hi);
  }

  // ---- main results ---------------------------------------------------------------------------

  /** The last page of a request that lies in the address space. */
  function LastPage(v: nat, n: nat): nat
    requires n > 0 && v < PAGES
  {
    if v + n <= PAGES then v + n - 1 else PAGES - 1
  }

  lemma LastPageUnder(v: nat, n: nat)
    requires n > 0 && v < PAGES
    ensures Prefix(v, 4) == 0 && LastUnder(v, 5, v + n - 1) == LastPage(v, n)
  {
    PagesIsEnd();
    Galois(v, 1, 4);
  }

  /** `setupPageMaps` runs out of memory if and only if fewer pages are free than entries on the
      paths of the requested pages are absent; otherwise it takes just that many. */
  lemma FailsIff(s: Machine, own: Owners, exempt: set<nat>, root: nat, v: nat, n: nat, rw: bool)
    requires Callable(s, own, exempt, root, 4, v, n) && n > 0 && v < PAGES
    ensures var r, need := SetupPageMap(s, root, 4, v, n, rw), Absent(s.mem, Some(root), 4, v, LastPage(v, n));
            && (r.remaining == -1 <==> BlockPages(s.free) < need)
            && (r.remaining != -1 ==> BlockPages(r.s.free) == BlockPages(s.free) - need)
  {
    hide Absent, SetupPageMap, Callable, Prefix, Part;
    SetupSupplied(s, own, exempt, root, 4, v, n, rw);
    var own' := SetupGrows(s, own, exempt, root, 4, v, n, rw);
    LastPageUnder(v, n);
  }

  /** A read-only request for which memory suffices takes write permission from other pages too:
      a writable page stays writable if and only if it is under none of the PML4 entries above
      the requested pages. */
  lemma ReadOnlyReach(s: Machine, own: Owners, exempt: set<nat>, root: nat, v: nat, n: nat, w: nat)
    requires Callable(s, own, exempt, root, 4, v, n) && n > 0 && v < PAGES
    requires BlockPages(s.free) >= Absent(s.mem, Some(root), 4, v, LastPage(v, n))
    requires w < PAGES && Part(w, 4) !in exempt
    requires Walk(s.mem, root, 4, w).Some? && Walk(s.mem, root, 4, w).value.rw
    ensures var after := Walk(SetupPageMap(s, root, 4, v, n, false).s.mem, root, 4, w);
            && after.Some?
            && (after.value.rw <==> !(Prefix(v, 3) <= Prefix(w, 3) <= Prefix(LastPage(v, n), 3)))
  {
    hide Absent, SetupPageMap, Callable, Prefix, Part, Walk, GrowsWithin;
    FailsIff(s, own, exempt, root, v, n, false);
    var own' := SetupGrows(s, own, exempt, root, 4, v, n, false);
    LastPageUnder(v, n);
    PagesIsEnd();
    ReadOnlyTouched(s, own, exempt, root, v, n, w);
  }

  // ---- the user bit ---------------------------------------------------------------------------

  /** Each entry on the path of w has the user bit or is on the path of one of the pages lo to hi. */
  predicate UserPath(mem: Memory, t: nat, level: nat, w: nat, lo: nat, hi: nat)
    requires 1 <= level
    decreases level
  {
    var e := Load(mem, t, Part(w, level));
    && (e.us || Prefix(lo, level - 1) <= Prefix(w, level - 1) <= Prefix(hi, level - 1))
    && (level == 1 || Large(level, e) || UserPath(mem, e.frame, level - 1, w, lo, hi))
  }

  /** A page of lo to hi under the same entry as w. */
  lemma PageUnder(w: nat, lo: nat, hi: nat, k: nat) returns (u: nat)
    requires lo <= hi && Prefix(lo, k) <= Prefix(w, k) <= Prefix(hi, k)
    ensures lo <= u <= hi && Prefix(u, k) == Prefix(w, k)
  {
    if Prefix(lo, k) == Prefix(w, k) {
      u := lo;
    } else {
      u := First(Prefix(w, k), k);
      PrefixOfFirst(Prefix(w, k), k);
      Galois(lo, Prefix(w, k), k);
      Galois(hi, Prefix(w, k), k);
    }
  }

  /** The pages lo to hi below table t are open to user mode. */
  ghost predicate OpenBelow(mem: Memory, t: nat, L: nat, w: nat, lo: nat, hi: nat)
    requires 1 <= L
  {
    forall u :: lo <= u <= hi && Prefix(u, L) == Prefix(w, L)
      ==> Walk(mem, t, L, u).Some? && Walk(mem, t, L, u).value.us
  }

  /** A call changes the user bit of the entry on the path of w exactly if it touches the entry. */
  lemma UserEntry(s: Machine, own: Owners, s': Machine, own': Owners, t: nat, L: nat, w: nat, lo: nat, hi: nat)
    requires Grows(s, own, s', own') && Within(s.mem, s'.mem, own, 4, lo, hi) && lo <= hi
    requires 1 <= L <= 4 && t in own && own[t] == Pos(L, Prefix(w, L)) && Load(s.mem, t, Part(w, L)).p
    requires OpenBelow(s'.mem, t, L, w, lo, hi)
    ensures var e, e' := Load(s.mem, t, Part(w, L)), Load(s'.mem, t, Part(w, L));
            && e'.p && e'.frame == e.frame && e'.ps == e.ps
            && (e'.us <==> e.us || Prefix(lo, L - 1) <= Prefix(w, L - 1) <= Prefix(hi, L - 1))
  {
    hide Prefix, Part, Listed, Referenced, First;
    var i := Part(w, L);
    assert EntryGrows(own, own', own[t], i, Load(s.mem, t, i), Load(s'.mem, t, i));
    if Prefix(lo, L - 1) <= Prefix(w, L - 1) <= Prefix(hi, L - 1) {
      var u := PageUnder(w, lo, hi, L - 1);
      SamePlace(u, w, L);
      assert Walk(s'.mem, t, L, u).value.us;
    } else {
      assert !Spans(own[t], i, 4, lo, hi);
    }
  }

  lemma SamePlace(u: nat, w: nat, L: nat)
    requires L >= 1 && Prefix(u, L - 1) == Prefix(w, L - 1)
    ensures Prefix(u, L) == Prefix(w, L) && Part(u, L) == Part(w, L)
  {
  }

  lemma {:induction false} UserWalk(s: Machine, own: Owners, exempt: set<nat>, s': Machine, own': Owners, t: nat,
                                    L: nat, w: nat, lo: nat, hi: nat)
    requires TreeOk(s.mem, own, exempt) && Grows(s, own, s', own') && Within(s.mem, s'.mem, own, 4, lo, hi) && lo <= hi
    requires 1 <= L <= 4 && t in own && own[t] == Pos(L, Prefix(w, L)) && (L == 4 ==> Part(w, 4) !in exempt)
    requires Walk(s.mem, t, L, w).Some? && OpenBelow(s'.mem, t, L, w, lo, hi)
    ensures Walk(s'.mem, t, L, w).Some?
    ensures Walk(s'.mem, t, L, w).value.us <==> UserPath(s.mem, t, L, w, lo, hi)
    decreases L
  {
    hide Prefix, Part, Grows, Within, First;
    var i := Part(w, L);
    var e, e' := Load(s.mem, t, i), Load(s'.mem, t, i);
    UserEntry(s, own, s', own', t, L, w, lo, hi);
    if L > 1 && !Large(L, e) {
      assert LinkOk(own, own[t], i, e);
      var k, c := L - 1, e.frame;
      assert 512 * Prefix(w, L) + i == Prefix(w, k);
      forall u | lo <= u <= hi && Prefix(u, k) == Prefix(w, k)
        ensures Walk(s'.mem, c, k, u).Some? && Walk(s'.mem, c, k, u).value.us
      {
        SamePlace(u, w, L);
        assert Walk(s'.mem, t, L, u) == Restrict(Walk(s'.mem, c, k, u), e');
      }
      UserWalk(s, own, exempt, s', own', c, k, w, lo, hi);
    }
  }

  /** When memory suffices, an earlier page is open to user mode afterwards if and only if each entry
      on its path was, or is shared with the path of a requested page. */
  lemma UserReach(s: Machine, own: Owners, exempt: set<nat>, root: nat, v: nat, n: nat, rw: bool, w: nat)
    requires Callable(s, own, exempt, root, 4, v, n) && n > 0 && v < PAGES
    requires BlockPages(s.free) >= Absent(s.mem, Some(root), 4, v, LastPage(v, n))
    requires w < PAGES && Part(w, 4) !in exempt && Walk(s.mem, root, 4, w).Some?
    ensures var after := Walk(SetupPageMap(s, root, 4, v, n, rw).s.mem, root, 4, w);
            after.Some? && (after.value.us <==> UserPath(s.mem, root, 4, w, v, LastPage(v, n)))
  {
    hide Absent, SetupPageMap, Prefix, Part, Walk, Grows, Within, NoLarge, First, UserPath;
    FailsIff(s, own, exempt, root, v, n, rw);
    var own' := SetupGrows(s, own, exempt, root, 4, v, n, rw);
    var r, last := SetupPageMap(s, root, 4, v, n, rw), LastPage(v, n);
    LastPageUnder(v, n);
    PagesIsEnd();
    Galois(w, 1, 4);
    TreeOf(s, own, exempt);
    forall u | v <= u <= last && Prefix(u, 4) == Prefix(w, 4)
      ensures Walk(r.s.mem, root, 4, u).Some? && Walk(r.s.mem, root, 4, u).value.us
    {
      RequestedSlot(exempt, v, v + n - 1, u);
      SetupWalk(s, own, exempt, root, 4, v, n, rw, u);
    }
    UserWalk(s, own, exempt, r.s, own', root, 4, w, v, last);
  }

  /** The PML4 entry of a requested page is none of the exempt ones. */
  lemma RequestedSlot(exempt: set<nat>, lo: nat, hi: nat, u: nat)
    requires Avoids(exempt, lo, hi) && lo <= u <= hi && Prefix(u, 4) == 0
    ensures Part(u, 4) !in exempt
  {
    PrefixMonotone(lo, u, 3);
    PrefixMonotone(u, hi, 3);
    assert Prefix(u, 3) == 512 * Prefix(u, 4) + Part(u, 4);
  }
}
