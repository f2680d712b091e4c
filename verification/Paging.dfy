/**
 kernel/paging.c: growing the page tables by a recursive walk.  The state is physical
 memory together with the free list threaded through it; `SetupPageMap` is the source's
 loop and recursion as one function of that state.
 */
module Paging {
  import opened Options
  import opened PhysicalMemory
  import opened Radix
  import opened Translation
  import opened FreeList

  datatype Machine = Machine(mem: Memory, free: seq<Block>)

  /** `newPageMap`: one page off the free list, cleared. */
  function NewPageMap(s: Machine): (Machine, Ptr)
  {
    var p := AllocPtr(s.free, 1);
    if p.Null? then (s, Null)
    else (Machine(Clear(AllocMemory(s.mem, s.free, 1), p.frame), AllocBlocks(s.free, 1)), p)
  }

  /** `setNewPageMapIfNotPresent` on entry i of table t; `setPointer` keeps 40 bits. */
  function EnsureChild(s: Machine, t: nat, i: nat): (Machine, Ptr)
    requires i < ENTRIES
  {
    if Load(s.mem, t, i).p then (s, At(Load(s.mem, t, i).frame))
    else
      var (s1, p) := NewPageMap(s);
      if p.Null? then (s1, Null)
      else
        var e := Load(s1.mem, t, i);
        (s1.(mem := Store(s1.mem, t, i, e.(frame := p.frame % 0x100_0000_0000, p := true))), p)
  }

  /** One turn of the loop of `setupPageMap` up to the descent: the entry points to a
      child and carries the requested permission. */
  function Touch(s: Machine, t: nat, i: nat, rw: bool): (Machine, Ptr)
    requires i < ENTRIES
  {
    var (s1, p) := EnsureChild(s, t, i);
    if p.Null? then (s1, Null)
    else (s1.(mem := Store(s1.mem, t, i, Load(s1.mem, t, i).(rw := rw, us := true))), p)
  }

  /** What a call leaves behind; `remaining` is the returned value, -1 when memory ran out,
      and `reached` the first page of the request that was not mapped. */
  datatype Outcome = Outcome(s: Machine, remaining: int, reached: nat)

  /** The page at which the loop continues after the entry of v: `setPart` moves to the next
      entry and clears the lower parts. */
  function NextEntry(v: nat, level: nat): (w: nat)
    requires 1 <= level
    ensures Prefix(w, level - 1) == Prefix(v, level - 1) + 1
    ensures Part(v, level) < 511 ==> Part(w, level) == Part(v, level) + 1
    ensures v < w
  {
    PrefixOfFirst(Prefix(v, level - 1) + 1, level - 1);
    Galois(v, Prefix(v, level - 1) + 1, level - 1);
    First(Prefix(v, level - 1) + 1, level - 1)
  }

  /** `setupPageMap(page_map = t, page_map_level = level, addr = v, num_pages = n, rw)` */
  function SetupPageMap(s: Machine, t: nat, level: nat, v: nat, n: nat, rw: bool): Outcome
    requires 1 <= level
    decreases level, ENTRIES - Part(v, level)
  {
    if n == 0 then Outcome(s, 0, v)
    else
      var i := Part(v, level);
      var (s1, child) := Touch(s, t, i, rw);
      if child.Null? then Outcome(s1, -1, v)
      else
        var r := if level == 1 then Outcome(s1, n - 1, v + 1)
                 else SetupPageMap(s1, child.frame, level - 1, v, n, rw);
        if r.remaining < 0 || r.remaining == 0 || i == 511 then r
        else SetupPageMap(r.s, t, level, NextEntry(v, level), r.remaining, rw)
  }

  // ---- positions ------------------------------------------------------------------

  /** A table of the given level whose pages share the prefix; level 0 is a mapped page. */
  datatype Pos = Pos(level: nat, prefix: nat)

  /** The frames of the tree and where in the address space each one stands. */
  type Owners = map<nat, Pos>

  function ChildPos(p: Pos, i: nat): Pos
    requires p.level >= 1
  {
    Pos(p.level - 1, 512 * p.prefix + i)
  }

  /** f is a frame of the tree standing right below entry i of a table at p. */
  predicate Below(own: Owners, p: Pos, i: nat, f: nat)
  {
    p.level >= 1 && f in own && own[f] == ChildPos(p, i)
  }

  /** A present entry that is not a leaf points to the table that belongs below it. */
  predicate LinkOk(own: Owners, p: Pos, i: nat, e: Word)
  {
    p.level >= 2 && e.p && !Large(p.level, e) ==> Below(own, p, i, e.frame)
  }

  /** The tables in own form a tree, except below the PML4 slots in `exempt`. */
  ghost predicate TreeOk(mem: Memory, own: Owners, exempt: set<nat>)
  {
    forall t, i :: t in own && 0 <= i < ENTRIES && !(own[t].level == 4 && i in exempt)
      ==> LinkOk(own, own[t], i, Load(mem, t, i))
  }

  /** Tree and free list are disjoint parts of RAM, each intact. */
  ghost predicate Inv(s: Machine, own: Owners, exempt: set<nat>)
  {
    && FreeListOk(s.mem, PtrAt(s.free, 0), s.free)
    && (forall t :: t in own ==> t in s.mem && !Listed(s.free, t) && own[t].level <= 4)
    && TreeOk(s.mem, own, exempt)
  }

  // ---- growth ---------------------------------------------------------------------

  /** How an entry of a tree frame may change: a present entry keeps its target, an absent
      one may get a new frame below it; PS never changes, mapped pages are not written. */
  predicate EntryGrows(own: Owners, own': Owners, p: Pos, i: nat, e: Word, e': Word)
  {
    && e'.ps == e.ps
    && (p.level == 0 ==> e' == e)
    && (e.p ==> e'.p && e'.frame == e.frame)
    && (!e.p && e'.p ==> !Large(p.level, e') && e'.frame !in own && Below(own', p, i, e'.frame))
  }

  /** What an entry of a frame added to the tree looks like. */
  predicate EntryFresh(own: Owners, own': Owners, p: Pos, i: nat, e': Word)
  {
    EntryGrows(own, own', p, i, ZERO, e')
  }

  /** Some entry that belongs above frame f points to it. */
  ghost predicate Referenced(mem: Memory, own: Owners, f: nat)
  {
    exists t, i :: t in own && 0 <= i < ENTRIES && Load(mem, t, i).p && Load(mem, t, i).frame == f
      && Below(own, own[t], i, f)
  }

  /** s' is s with frames moved from the free list into the tree: each moved frame was
      cleared, hangs below exactly the entry its position names, and nothing else of
      memory changed. */
  ghost predicate Grows(s: Machine, own: Owners, s': Machine, own': Owners)
  {
    && s'.mem.Keys == s.mem.Keys
    && (forall t :: t in own ==> t in own' && own'[t] == own[t])
    && (forall f :: Listed(s.free, f) <==> Listed(s'.free, f) || (f in own' && f !in own))
    && (forall t, i :: t in own && 0 <= i < ENTRIES
          ==> EntryGrows(own, own', own[t], i, Load(s.mem, t, i), Load(s'.mem, t, i)))
    && (forall t, i :: t in own' && t !in own && 0 <= i < ENTRIES
          ==> EntryFresh(own, own', own'[t], i, Load(s'.mem, t, i)))
    && (forall f :: f in own' && f !in own ==> Referenced(s'.mem, own', f))
    && (forall f :: f in s.mem && f !in own && !Listed(s.free, f) ==> s'.mem[f] == s.mem[f])
  }

  lemma GrowsReflexive(s: Machine, own: Owners)
    ensures Grows(s, own, s, own)
  {
  }

  lemma GrowsTransitive(s: Machine, own: Owners, s1: Machine, own1: Owners, s2: Machine, own2: Owners)
    requires Grows(s, own, s1, own1) && Grows(s1, own1, s2, own2)
    ensures Grows(s, own, s2, own2)
  {
    forall t, i | t in own && 0 <= i < ENTRIES
      ensures EntryGrows(own, own2, own[t], i, Load(s.mem, t, i), Load(s2.mem, t, i))
    {
      assert EntryGrows(own, own1, own[t], i, Load(s.mem, t, i), Load(s1.mem, t, i));
      assert EntryGrows(own1, own2, own1[t], i, Load(s1.mem, t, i), Load(s2.mem, t, i));
    }
    forall t, i | t in own2 && t !in own && 0 <= i < ENTRIES
      ensures EntryFresh(own, own2, own2[t], i, Load(s2.mem, t, i))
    {
      if t in own1 {
        assert EntryFresh(own, own1, own1[t], i, Load(s1.mem, t, i));
        assert EntryGrows(own1, own2, own1[t], i, Load(s1.mem, t, i), Load(s2.mem, t, i));
      }
    }
    forall f | f in own1
      ensures Referenced(s1.mem, own1, f) ==> Referenced(s2.mem, own2, f)
    {
      if Referenced(s1.mem, own1, f) {
        var t, i :| t in own1 && 0 <= i < ENTRIES && Load(s1.mem, t, i).p && Load(s1.mem, t, i).frame == f
              && Below(own1, own1[t], i, f);
        assert EntryGrows(own1, own2, own1[t], i, Load(s1.mem, t, i), Load(s2.mem, t, i));
        assert Below(own2, own2[t], i, f);
      }
    }
  }

  // ---- one entry ------------------------------------------------------------------

  lemma NewPageMapSpec(s: Machine)
    requires FreeListOk(s.mem, PtrAt(s.free, 0), s.free)
    ensures var (s1, p) := NewPageMap(s);
            && (p.Null? <==> s.free == [])
            && (p.Null? ==> s1 == s)
            && (p.At? ==>
                  && s1.mem.Keys == s.mem.Keys && p.frame in s.mem && p.frame < FRAME_LIMIT
                  && FreeListOk(s1.mem, PtrAt(s1.free, 0), s1.free)
                  && (forall g :: Listed(s.free, g) <==> Listed(s1.free, g) || g == p.frame)
                  && !Listed(s1.free, p.frame)
                  && (forall j :: 0 <= j < ENTRIES ==> Load(s1.mem, p.frame, j) == ZERO)
                  && (forall g :: g in s.mem && g != p.frame && !Listed(s1.free, g) ==> s1.mem[g] == s.mem[g]))
  {
    hide AllocMemory, AllocBlocks, Linked;
    if s.free != [] {
      assert Sized(s.free[0]);
      assert FirstFit(s.free, 1) == 0;
      var f, free', mem1 := s.free[0].start, AllocBlocks(s.free, 1), AllocMemory(s.mem, s.free, 1);
      AllocKeepsList(s.mem, s.free, 1);
      forall g
        ensures Listed(s.free, g) <==> Listed(free', g) || g == f
        ensures g == f ==> !Listed(free', g)
      {
        AllocConserves(s.free, 1, g);
      }
      forall g | g in s.mem && !Listed(free', g)
        ensures mem1[g] == s.mem[g]
      {
        AllocWritesListed(s.mem, s.free, 1, g);
      }
      FreeListFrame(mem1, Clear(mem1, f), PtrAt(free', 0), free');
    }
  }

  /** The effect of `Touch` on the tree: entry i of t leads to frame c with the requested
      permission; c is new and empty if the entry was absent. */
  ghost predicate Touched(s: Machine, own: Owners, s': Machine, own': Owners, t: nat, i: nat, rw: bool, c: nat)
    requires t in own && own[t].level >= 1 && i < ENTRIES
  {
    && Load(s'.mem, t, i) == Load(s.mem, t, i).(p := true, frame := Load(s'.mem, t, i).frame, rw := rw, us := true)
    && Load(s'.mem, t, i).frame == c
    && (forall u, j :: u in own && 0 <= j < ENTRIES && (u != t || j != i) ==> Load(s'.mem, u, j) == Load(s.mem, u, j))
    && if Load(s.mem, t, i).p then own' == own && c == Load(s.mem, t, i).frame
       else c !in own && own' == own[c := ChildPos(own[t], i)] && c in s'.mem
            && forall j :: 0 <= j < ENTRIES ==> Load(s'.mem, c, j) == ZERO
  }

  ghost predicate Touchable(s: Machine, own: Owners, exempt: set<nat>, t: nat, i: nat)
  {
    && Inv(s, own, exempt)
    && t in own && own[t].level >= 1 && i < ENTRIES
    && !(own[t].level == 4 && i in exempt)
    && !Large(own[t].level, Load(s.mem, t, i))
  }

  lemma TouchPresent(s: Machine, own: Owners, exempt: set<nat>, t: nat, i: nat, rw: bool)
    requires Touchable(s, own, exempt, t, i) && Load(s.mem, t, i).p
    ensures var (s', c) := Touch(s, t, i, rw);
            && c.At? && s'.free == s.free && Inv(s', own, exempt) && Grows(s, own, s', own)
            && Touched(s, own, s', own, t, i, rw, c.frame)
  {
    var (s', c) := Touch(s, t, i, rw);
    FreeListFrame(s.mem, s'.mem, PtrAt(s.free, 0), s.free);
    forall u, j | u in own && 0 <= j < ENTRIES && !(own[u].level == 4 && j in exempt)
      ensures LinkOk(own, own[u], j, Load(s'.mem, u, j))
    {
      assert LinkOk(own, own[u], j, Load(s.mem, u, j));
    }
  }

  /** Entry i of t after a new frame f was attached with permission rw. */
  function Attached(s1: Machine, t: nat, i: nat, f: nat, rw: bool): Machine
    requires i < ENTRIES
  {
    s1.(mem := Store(s1.mem, t, i, Load(s1.mem, t, i).(frame := f % 0x100_0000_0000, p := true, rw := rw, us := true)))
  }

  lemma TouchIsAttached(s: Machine, t: nat, i: nat, rw: bool)
    requires i < ENTRIES && !Load(s.mem, t, i).p && NewPageMap(s).1.At? && t in NewPageMap(s).0.mem
    ensures Touch(s, t, i, rw) == (Attached(NewPageMap(s).0, t, i, NewPageMap(s).1.frame, rw), NewPageMap(s).1)
  {
    hide NewPageMap;
    var (s1, c) := NewPageMap(s);
    var s2 := Touch(s, t, i, rw).0;
    assert s2.mem[t] == Attached(s1, t, i, c.frame, rw).mem[t];
    assert s2.mem == Attached(s1, t, i, c.frame, rw).mem;
  }

  lemma TouchAbsent(s: Machine, own: Owners, exempt: set<nat>, t: nat, i: nat, rw: bool) returns (own': Owners)
    requires Touchable(s, own, exempt, t, i) && !Load(s.mem, t, i).p
    ensures var (s', c) := Touch(s, t, i, rw);
            && (c.Null? <==> s.free == [])
            && (c.Null? ==> s' == s && own' == own)
            && (c.At? ==>
                  Inv(s', own', exempt) && Grows(s, own, s', own') && Touched(s, own, s', own', t, i, rw, c.frame))
  {
    hide NewPageMap, Listed, Canonical, Linked, TreeOk;
    own' := own;
    NewPageMapSpec(s);
    var (s1, c) := NewPageMap(s);
    if c.At? {
      var f := c.frame;
      own' := own[f := ChildPos(own[t], i)];
      TouchIsAttached(s, t, i, rw);
      var s' := Attached(s1, t, i, f, rw);
      assert Listed(s.free, f);
      assert forall u :: u in own ==> u != f && s1.mem[u] == s.mem[u];
      FreeListFrame(s1.mem, s'.mem, PtrAt(s1.free, 0), s1.free);
      AttachedTree(s, own, exempt, s1, t, i, f, rw);
      TouchedGrows(s, own, s', own', t, i, rw, f);
    }
  }

  lemma TouchedGrows(s: Machine, own: Owners, s': Machine, own': Owners, t: nat, i: nat, rw: bool, c: nat)
    requires t in own && own[t].level >= 1 && i < ENTRIES && !Large(own[t].level, Load(s.mem, t, i))
    requires Touched(s, own, s', own', t, i, rw, c)
    requires s'.mem.Keys == s.mem.Keys
    requires forall f :: Listed(s.free, f) <==> Listed(s'.free, f) || (f in own' && f !in own)
    requires forall f :: f in s.mem && f !in own && !Listed(s.free, f) ==> s'.mem[f] == s.mem[f]
    ensures Grows(s, own, s', own')
  {
    hide Listed;
    if !Load(s.mem, t, i).p {
      assert own'[t] == own[t] && Below(own', own'[t], i, c);
      assert Referenced(s'.mem, own', c);
    }
  }

  lemma AttachedTree(s: Machine, own: Owners, exempt: set<nat>, s1: Machine, t: nat, i: nat, f: nat, rw: bool)
    requires Touchable(s, own, exempt, t, i) && !Load(s.mem, t, i).p
    requires f in s.mem && f < FRAME_LIMIT && s1.mem.Keys == s.mem.Keys
    requires forall u :: u in own ==> u != f && s1.mem[u] == s.mem[u]
    requires forall j :: 0 <= j < ENTRIES ==> Load(s1.mem, f, j) == ZERO
    ensures var s', own' := Attached(s1, t, i, f, rw), own[f := ChildPos(own[t], i)];
            TreeOk(s'.mem, own', exempt) && Touched(s, own, s', own', t, i, rw, f)
  {
    var s', own' := Attached(s1, t, i, f, rw), own[f := ChildPos(own[t], i)];
    forall u, j | u in own' && 0 <= j < ENTRIES && !(own'[u].level == 4 && j in exempt)
      ensures LinkOk(own', own'[u], j, Load(s'.mem, u, j))
    {
      if u in own {
        assert LinkOk(own, own[u], j, Load(s.mem, u, j));
      }
    }
  }

  // ---- a whole call: what changes ---------------------------------------------------

  /** Entry i of a table at p translates some page of [lo, hi], and the table has level at most L. */
  predicate Spans(p: Pos, i: nat, L: nat, lo: nat, hi: nat)
  {
    1 <= p.level <= L && Prefix(lo, p.level - 1) <= 512 * p.prefix + i <= Prefix(hi, p.level - 1)
  }

  /** Of the old tree only entries that translate pages of [lo, hi] changed. */
  ghost predicate Within(mem: Memory, mem': Memory, own: Owners, L: nat, lo: nat, hi: nat)
  {
    forall t, i :: t in own && 0 <= i < ENTRIES && !Spans(own[t], i, L, lo, hi) ==> Load(mem', t, i) == Load(mem, t, i)
  }

  /** No entry over [lo, hi] has PS set at level 2 or 3. */
  ghost predicate NoLarge(mem: Memory, own: Owners, lo: nat, hi: nat)
  {
    forall t, i :: t in own && 0 <= i < ENTRIES && Spans(own[t], i, 3, lo, hi) ==> !Large(own[t].level, Load(mem, t, i))
  }

  predicate Avoids(exempt: set<nat>, lo: nat, hi: nat)
  {
    forall x :: x in exempt ==> !(Prefix(lo, 3) <= x <= Prefix(hi, 3))
  }

  /** A call for n pages from v on the table t of level L, which covers v. */
  ghost predicate Callable(s: Machine, own: Owners, exempt: set<nat>, t: nat, L: nat, v: nat, n: nat)
  {
    && Inv(s, own, exempt)
    && 1 <= L <= 4 && t in own && own[t] == Pos(L, Prefix(v, L))
    && (n > 0 ==> NoLarge(s.mem, own, v, v + n - 1))
    && (n > 0 && L == 4 ==> Prefix(v, 4) == 0 && Avoids(exempt, v, v + n - 1))
  }

  /** The last page whose entries a call changed. */
  function LastTouched(r: Outcome): int
  {
    if r.remaining == -1 then r.reached else r.reached - 1
  }

  /** How far a call got: to the end of the request or of the table, or to the page for which
      no frame was left. */
  predicate Progress(r: Outcome, L: nat, v: nat, n: nat)
  {
    var end := First(Prefix(v, L) + 1, L);
    if r.remaining == -1 then v <= r.reached < v + n && r.reached < end && r.s.free == []
    else
      && r.remaining >= 0 && r.reached + r.remaining == v + n && r.reached <= end
      && (r.remaining > 0 ==> r.reached == end)
      && (n > 0 ==> r.reached > v)
  }

  lemma NoLargeGrows(s: Machine, own: Owners, s': Machine, own': Owners, lo: nat, hi: nat)
    requires Grows(s, own, s', own') && NoLarge(s.mem, own, lo, hi)
    ensures NoLarge(s'.mem, own', lo, hi)
  {
    hide Spans, Listed;
    forall t, i | t in own' && 0 <= i < ENTRIES && Spans(own'[t], i, 3, lo, hi)
      ensures !Large(own'[t].level, Load(s'.mem, t, i))
    {
      if t in own {
        assert EntryGrows(own, own', own[t], i, Load(s.mem, t, i), Load(s'.mem, t, i));
      } else {
        assert EntryFresh(own, own', own'[t], i, Load(s'.mem, t, i));
      }
    }
  }

  lemma NoLargeNarrow(mem: Memory, own: Owners, lo: nat, lo': nat, hi: nat)
    requires NoLarge(mem, own, lo, hi) && lo <= lo'
    ensures NoLarge(mem, own, lo', hi)
  {
    forall t, i | t in own && 0 <= i < ENTRIES && Spans(own[t], i, 3, lo', hi)
      ensures !Large(own[t].level, Load(mem, t, i))
    {
      PrefixMonotone(lo, lo', own[t].level - 1);
      assert Spans(own[t], i, 3, lo, hi);
    }
  }

  lemma WithinJoin(m0: Memory, m1: Memory, m2: Memory, own: Owners, own1: Owners, L: nat, L1: nat, L2: nat,
                   lo: nat, hi1: nat, lo2: nat, hi: nat)
    requires Within(m0, m1, own, L1, lo, hi1) && Within(m1, m2, own1, L2, lo2, hi)
    requires forall t :: t in own ==> t in own1 && own1[t] == own[t]
    requires L1 <= L && L2 <= L && lo <= lo2 && hi1 <= hi
    ensures Within(m0, m2, own, L, lo, hi)
  {
    forall t, i | t in own && 0 <= i < ENTRIES && !Spans(own[t], i, L, lo, hi)
      ensures Load(m2, t, i) == Load(m0, t, i)
    {
      if 1 <= own[t].level {
        PrefixMonotone(lo, lo2, own[t].level - 1);
        PrefixMonotone(hi1, hi, own[t].level - 1);
      }
      assert !Spans(own[t], i, L1, lo, hi1) && !Spans(own1[t], i, L2, lo2, hi);
    }
  }

  /** The first turn of the loop may touch the entry of v, and its child covers v. */
  lemma EntryOf(s: Machine, own: Owners, exempt: set<nat>, t: nat, L: nat, v: nat, n: nat)
    requires Callable(s, own, exempt, t, L, v, n) && n > 0
    ensures Touchable(s, own, exempt, t, Part(v, L))
    ensures ChildPos(own[t], Part(v, L)) == Pos(L - 1, Prefix(v, L - 1))
    ensures Spans(own[t], Part(v, L), L, v, v + n - 1)
  {
    PrefixMonotone(v, v + n - 1, L - 1);
    if L == 4 {
      assert Prefix(v, 3) == Part(v, 4);
    } else {
      assert Spans(own[t], Part(v, L), 3, v, v + n - 1);
    }
  }

  /** The first turn of the loop up to the descent. */
  lemma FirstTurn(s: Machine, own: Owners, exempt: set<nat>, t: nat, L: nat, v: nat, n: nat, rw: bool)
    returns (own1: Owners)
    requires Callable(s, own, exempt, t, L, v, n) && n > 0
    ensures Touchable(s, own, exempt, t, Part(v, L))
    ensures var (s1, c) := Touch(s, t, Part(v, L), rw);
            && (c.Null? ==> s1 == s && own1 == own && s.free == [])
            && (c.At? ==>
                  && Inv(s1, own1, exempt) && Grows(s, own, s1, own1) && Within(s.mem, s1.mem, own, L, v, v)
                  && Touched(s, own, s1, own1, t, Part(v, L), rw, c.frame)
                  && (L >= 2 ==> Callable(s1, own1, exempt, c.frame, L - 1, v, n)))
  {
    hide Listed, FreeListOk, Grows, NoLarge, Touch;
    var i := Part(v, L);
    EntryOf(s, own, exempt, t, L, v, n);
    if Load(s.mem, t, i).p {
      TouchPresent(s, own, exempt, t, i, rw);
      assert LinkOk(own, own[t], i, Load(s.mem, t, i));
      own1 := own;
    } else {
      own1 := TouchAbsent(s, own, exempt, t, i, rw);
    }
    var (s1, c) := Touch(s, t, i, rw);
    if c.At? {
      NoLargeGrows(s, own, s1, own1, v, v + n - 1);
    }
  }

  /** The loop continues at the next entry of the same table. */
  lemma NextTurn(s: Machine, own: Owners, exempt: set<nat>, s2: Machine, own2: Owners, t: nat, L: nat, v: nat, n: nat,
                 n2: nat)
    requires Callable(s, own, exempt, t, L, v, n) && Part(v, L) < 511
    requires Inv(s2, own2, exempt) && Grows(s, own, s2, own2)
    requires 0 < n2 <= n && NextEntry(v, L) + n2 == v + n
    ensures Callable(s2, own2, exempt, t, L, NextEntry(v, L), n2)
    ensures Prefix(NextEntry(v, L), L) == Prefix(v, L)
  {
    hide Listed, FreeListOk, NoLarge, TreeOk, Prefix, Part, NextEntry, Within, EntryGrows;
    var v2 := NextEntry(v, L);
    NextEntryPrefix(v, L);
    ExtendsOf(s, own, s2, own2);
    NoLargeGrows(s, own, s2, own2, v, v + n - 1);
    NoLargeNarrow(s2.mem, own2, v, v2, v + n - 1);
    PrefixMonotone(v, v2, 3);
  }

  lemma NextEntryPrefix(v: nat, level: nat)
    requires 1 <= level && Part(v, level) < 511
    ensures Prefix(NextEntry(v, level), level) == Prefix(v, level)
  {
    var w := NextEntry(v, level);
    assert Prefix(w, level - 1) == 512 * Prefix(w, level) + Part(w, level);
    assert Prefix(v, level - 1) == 512 * Prefix(v, level) + Part(v, level);
  }

  /** The end of an entry is the end of its table exactly for the last entry. */
  lemma EndOfEntry(v: nat, L: nat)
    requires 1 <= L
    ensures First(Prefix(v, L - 1) + 1, L - 1) <= First(Prefix(v, L) + 1, L)
    ensures Part(v, L) == 511 ==> First(Prefix(v, L - 1) + 1, L - 1) == First(Prefix(v, L) + 1, L)
  {
    FirstMonotoneLe(Prefix(v, L - 1) + 1, 512 * (Prefix(v, L) + 1), L - 1);
  }

  /** The first turn of the loop with its descent. */
  function FirstEntry(s: Machine, t: nat, L: nat, v: nat, n: nat, rw: bool): Outcome
    requires 1 <= L && n > 0
  {
    var (s1, c) := Touch(s, t, Part(v, L), rw);
    if c.Null? then Outcome(s1, -1, v)
    else if L == 1 then Outcome(s1, n - 1, v + 1)
    else SetupPageMap(s1, c.frame, L - 1, v, n, rw)
  }

  /** What a call leaves of the machine: tree and free list intact, frames only moved from the
      list into the tree, no entry changed that does not translate a page it reached. */
  ghost predicate GrowsWithin(s: Machine, own: Owners, exempt: set<nat>, r: Outcome, own': Owners, L: nat, v: nat)
    requires LastTouched(r) >= 0
  {
    Inv(r.s, own', exempt) && Grows(s, own, r.s, own') && Within(s.mem, r.s.mem, own, L, v, LastTouched(r))
  }

  lemma {:induction false} EntryGrowsTree(s: Machine, own: Owners, exempt: set<nat>, t: nat, L: nat, v: nat, n: nat,
                                          rw: bool)
    returns (own': Owners)
    requires Callable(s, own, exempt, t, L, v, n) && n > 0
    ensures var r := FirstEntry(s, t, L, v, n, rw);
            Progress(r, L - 1, v, n) && GrowsWithin(s, own, exempt, r, own', L, v)
    decreases L, ENTRIES - Part(v, L), 0
  {
    hide Inv, Grows, Within, NoLarge, Touch, Touched, Prefix, First, Part;
    own' := FirstTurn(s, own, exempt, t, L, v, n, rw);
    var (s1, c) := Touch(s, t, Part(v, L), rw);
    Galois(v, Prefix(v, L - 1) + 1, L - 1);
    if c.Null? {
      GrowsReflexive(s, own);
      WithinReflexive(s.mem, own, L, v);
      assert Inv(s, own, exempt);
    } else if L == 1 {
      ProgressLeaf(Outcome(s1, n - 1, v + 1), v, n);
    } else {
      var own1 := own';
      var r := SetupPageMap(s1, c.frame, L - 1, v, n, rw);
      own' := SetupGrows(s1, own1, exempt, c.frame, L - 1, v, n, rw);
      GrowsTransitive(s, own, s1, own1, r.s, own');
      ExtendsOf(s, own, s1, own1);
      WithinJoin(s.mem, s1.mem, r.s.mem, own, own1, L, L, L - 1, v, v, v, LastTouched(r));
    }
  }

  /** A call keeps tree and free list intact, only moves frames from the list into the tree,
      and changes no entry that does not translate a page it reached; it stops at the end of
      the request, at the end of the table, or when the free list is empty. */
  lemma {:induction false} SetupGrows(s: Machine, own: Owners, exempt: set<nat>, t: nat, L: nat, v: nat, n: nat,
                                      rw: bool)
    returns (own': Owners)
    requires Callable(s, own, exempt, t, L, v, n) && n > 0
    ensures var r := SetupPageMap(s, t, L, v, n, rw);
            Progress(r, L, v, n) && GrowsWithin(s, own, exempt, r, own', L, v)
    decreases L, ENTRIES - Part(v, L), 1
  {
    hide Inv, Grows, Within, NoLarge, Touch, Touched, Prefix, First, Part;
    own' := EntryGrowsTree(s, own, exempt, t, L, v, n, rw);
    var r1 := FirstEntry(s, t, L, v, n, rw);
    EndOfEntry(v, L);
    if r1.remaining > 0 && Part(v, L) != 511 {
      var v2, s2, own2 := NextEntry(v, L), r1.s, own';
      NextTurn(s, own, exempt, s2, own2, t, L, v, n, r1.remaining);
      own' := SetupGrows(s2, own2, exempt, t, L, v2, r1.remaining, rw);
      var r := SetupPageMap(s2, t, L, v2, r1.remaining, rw);
      GrowsTransitive(s, own, s2, own2, r.s, own');
      ExtendsOf(s, own, s2, own2);
      WithinJoin(s.mem, s2.mem, r.s.mem, own, own2, L, L, L, v, LastTouched(r1), v2, LastTouched(r));
    }
  }

  lemma ProgressLeaf(r: Outcome, v: nat, n: nat)
    requires r.remaining == n - 1 >= 0 && r.reached == v + 1
    ensures Progress(r, 0, v, n)
  {
  }

  lemma ExtendsOf(s: Machine, own: Owners, s': Machine, own': Owners)
    requires Grows(s, own, s', own')
    ensures forall t :: t in own ==> t in own' && own'[t] == own[t]
  {
  }

  lemma WithinReflexive(mem: Memory, own: Owners, L: nat, v: nat)
    ensures Within(mem, mem, own, L, v, v)
  {
  }

  // ---- a whole call: what each page translates to -------------------------------------

  /** The entries that the walk of page w can read below level L are unchanged. */
  ghost predicate PathSame(mem: Memory, mem': Memory, own: Owners, L: nat, w: nat)
  {
    forall u :: u in own && 1 <= own[u].level <= L && own[u].prefix == Prefix(w, own[u].level)
      ==> Load(mem', u, Part(w, own[u].level)) == Load(mem, u, Part(w, own[u].level))
  }

  lemma {:induction false} WalkFrame(mem: Memory, mem': Memory, own: Owners, exempt: set<nat>, t: nat, L: nat, w: nat)
    requires TreeOk(mem, own, exempt) && PathSame(mem, mem', own, L, w)
    requires 1 <= L <= 4 && t in own && own[t] == Pos(L, Prefix(w, L))
    requires L == 4 ==> Part(w, 4) !in exempt
    ensures Walk(mem', t, L, w) == Walk(mem, t, L, w)
    decreases L
  {
    var e := Load(mem, t, Part(w, L));
    assert LinkOk(own, own[t], Part(w, L), e);
    if L > 1 && e.p && !Large(L, e) {
      assert Below(own, own[t], Part(w, L), e.frame);
      WalkFrame(mem, mem', own, exempt, e.frame, L - 1, w);
    }
  }

  /** Changes confined to [lo, hi] leave the path of w alone if w lies under another entry. */
  lemma PathSameOutside(mem: Memory, mem': Memory, own: Owners, L': nat, lo: nat, hi: nat, m: nat, L: nat, w: nat)
    requires Within(mem, mem', own, L', lo, hi) && L' <= m + 1
    requires !(Prefix(lo, m) <= Prefix(w, m) <= Prefix(hi, m))
    ensures PathSame(mem, mem', own, L, w)
  {
    hide Prefix, Part;
    forall u | u in own && 1 <= own[u].level <= L && own[u].prefix == Prefix(w, own[u].level)
      ensures Load(mem', u, Part(w, own[u].level)) == Load(mem, u, Part(w, own[u].level))
    {
      var k, i := own[u].level, Part(w, own[u].level);
      assert 512 * own[u].prefix + i == Prefix(w, k - 1);
      if Spans(own[u], i, L', lo, hi) {
        PrefixBetween(lo, w, hi, k - 1, m);
        assert false;
      }
    }
  }

  /** How a call changes the translation of one page.  A requested page ends up mapped for
      user mode with exactly the requested permission; every page keeps its frame; with
      rw set no page loses a permission. */
  predicate PageAfter(before: Option<Mapping>, after: Option<Mapping>, requested: bool, rw: bool)
  {
    && (after.Some? <==> before.Some? || requested)
    && (before.Some? ==> after.value.frame == before.value.frame && (before.value.us ==> after.value.us)
                         && (rw && before.value.rw ==> after.value.rw))
    && (requested ==> after.value.rw == rw && after.value.us)
  }

  lemma PageAfterSame(x: Option<Mapping>, rw: bool)
    ensures PageAfter(x, x, false, rw)
  {
  }

  /** Walk through an entry after its child has been filled. */
  lemma PageAfterRestrict(before: Option<Mapping>, after: Option<Mapping>, requested: bool, rw: bool, e: Word, e': Word)
    requires PageAfter(before, after, requested, rw) && e'.rw == rw && e'.us
    ensures PageAfter(Restrict(before, e), Restrict(after, e'), requested, rw)
  {
  }

  /** `SetupWalk` for the pages under the entry that the first turn descends into. */
  lemma DescentWalk(s: Machine, own: Owners, exempt: set<nat>, s1: Machine, own1: Owners, s2: Machine, t: nat, c: nat,
                    L: nat, v: nat, last: nat, rw: bool, w: nat, requested: bool)
    requires 2 <= L <= 4 && t in own && own[t] == Pos(L, Prefix(w, L)) && Prefix(w, L - 1) == Prefix(v, L - 1)
    requires Touchable(s, own, exempt, t, Part(w, L))
    requires Touched(s, own, s1, own1, t, Part(w, L), rw, c) && Grows(s, own, s1, own1)
    requires Within(s1.mem, s2.mem, own1, L - 1, v, last)
    requires PageAfter(Walk(s1.mem, c, L - 1, w), Walk(s2.mem, c, L - 1, w), requested, rw)
    ensures PageAfter(Walk(s.mem, t, L, w), Walk(s2.mem, t, L, w), requested, rw)
  {
    hide Grows, FreeListOk, Prefix;
    var i := Part(w, L);
    var e, e' := Load(s.mem, t, i), Load(s1.mem, t, i);
    ExtendsOf(s, own, s1, own1);
    assert !Spans(own1[t], i, L - 1, v, last);
    assert Load(s2.mem, t, i) == e';
    assert Walk(s2.mem, t, L, w) == Restrict(Walk(s2.mem, c, L - 1, w), e');
    if e.p {
      assert LinkOk(own, own[t], i, e);
      assert PathSame(s.mem, s1.mem, own, L - 1, w);
      WalkFrame(s.mem, s1.mem, own, exempt, c, L - 1, w);
      PageAfterRestrict(Walk(s1.mem, c, L - 1, w), Walk(s2.mem, c, L - 1, w), requested, rw, e, e');
    } else {
      assert Walk(s1.mem, c, L - 1, w) == None;
    }
  }

  /** Pages under another entry than v: untouched by the first turn and not requested by it. */
  lemma OtherEntry(v: nat, w: nat, m: nat, last: nat)
    requires Prefix(w, m) != Prefix(v, m) && v <= last < First(Prefix(v, m) + 1, m)
    ensures !(Prefix(v, m) <= Prefix(w, m) <= Prefix(last, m))
    ensures !(v <= w < First(Prefix(v, m) + 1, m))
  {
    Galois(last, Prefix(v, m) + 1, m);
    Galois(w, Prefix(v, m) + 1, m);
    if v <= w {
      PrefixMonotone(v, w, m);
    }
  }

  ghost predicate PageChecked(s: Machine, s': Machine, t: nat, L: nat, w: nat, requested: bool, rw: bool)
    requires 1 <= L
  {
    PageAfter(Walk(s.mem, t, L, w), Walk(s'.mem, t, L, w), requested, rw)
  }

  lemma {:induction false} EntryWalk(s: Machine, own: Owners, exempt: set<nat>, t: nat, L: nat, v: nat, n: nat,
                                     rw: bool, w: nat)
    requires Callable(s, own, exempt, t, L, v, n) && n > 0
    requires Prefix(w, L) == Prefix(v, L) && (L == 4 ==> Part(w, 4) !in exempt)
    ensures var r := FirstEntry(s, t, L, v, n, rw);
            PageChecked(s, r.s, t, L, w, v <= w < r.reached, rw)
    decreases L, ENTRIES - Part(v, L), 0
  {
    hide Inv, Grows, Within, NoLarge, Touch, Touched, TreeOk, Walk, Prefix, First, Part, PageAfter;
    var r := FirstEntry(s, t, L, v, n, rw);
    if Prefix(w, L - 1) != Prefix(v, L - 1) {
      var own' := EntryGrowsTree(s, own, exempt, t, L, v, n, rw);
      OtherEntry(v, w, L - 1, LastTouched(r));
      PathSameOutside(s.mem, r.s.mem, own, L, v, LastTouched(r), L - 1, L, w);
      TreeOf(s, own, exempt);
      WalkFrame(s.mem, r.s.mem, own, exempt, t, L, w);
      PageAfterSame(Walk(s.mem, t, L, w), rw);
    } else {
      var own1 := FirstTurn(s, own, exempt, t, L, v, n, rw);
      var (s1, c) := Touch(s, t, Part(v, L), rw);
      if c.Null? {
        PageAfterSame(Walk(s.mem, t, L, w), rw);
      } else if L == 1 {
        LeafWalk(s, own, s1, own1, t, c.frame, v, w, rw);
      } else {
        SetupWalk(s1, own1, exempt, c.frame, L - 1, v, n, rw, w);
        var own' := SetupGrows(s1, own1, exempt, c.frame, L - 1, v, n, rw);
        SameEntry(v, w, L);
        DescentWalk(s, own, exempt, s1, own1, r.s, t, c.frame, L, v, LastTouched(r), rw, w, v <= w < r.reached);
      }
    }
  }

  lemma TreeOf(s: Machine, own: Owners, exempt: set<nat>)
    requires Inv(s, own, exempt)
    ensures TreeOk(s.mem, own, exempt)
  {
  }

  lemma SameEntry(v: nat, w: nat, L: nat)
    requires L >= 1 && Prefix(w, L - 1) == Prefix(v, L - 1)
    ensures Part(w, L) == Part(v, L)
  {
  }

  lemma LeafWalk(s: Machine, own: Owners, s1: Machine, own1: Owners, t: nat, c: nat, v: nat, w: nat, rw: bool)
    requires t in own && own[t].level == 1 && Prefix(w, 0) == Prefix(v, 0)
    requires Touched(s, own, s1, own1, t, Part(v, 1), rw, c)
    ensures PageChecked(s, s1, t, 1, w, v <= w < v + 1, rw)
  {
  }

  /** The translation of one page after a call on a table of any level. */
  lemma {:induction false} SetupWalk(s: Machine, own: Owners, exempt: set<nat>, t: nat, L: nat, v: nat, n: nat,
                                     rw: bool, w: nat)
    requires Callable(s, own, exempt, t, L, v, n) && n > 0
    requires Prefix(w, L) == Prefix(v, L) && (L == 4 ==> Part(w, 4) !in exempt)
    ensures var r := SetupPageMap(s, t, L, v, n, rw);
            PageChecked(s, r.s, t, L, w, v <= w < r.reached, rw)
    decreases L, ENTRIES - Part(v, L), 1
  {
    hide Inv, Grows, Within, NoLarge, Touch, TreeOk, Walk, Prefix, First, Part, PageAfter;
    EntryWalk(s, own, exempt, t, L, v, n, rw, w);
    var own2 := EntryGrowsTree(s, own, exempt, t, L, v, n, rw);
    var r1 := FirstEntry(s, t, L, v, n, rw);
    if r1.remaining > 0 && Part(v, L) != 511 {
      var v2, s2 := NextEntry(v, L), r1.s;
      NextTurn(s, own, exempt, s2, own2, t, L, v, n, r1.remaining);
      var r := SetupPageMap(s2, t, L, v2, r1.remaining, rw);
      Galois(w, Prefix(v, L - 1) + 1, L - 1);
      if w < v2 {
        var own' := SetupGrows(s2, own2, exempt, t, L, v2, r1.remaining, rw);
        PathSameOutside(s2.mem, r.s.mem, own2, L, v2, LastTouched(r), L - 1, L, w);
        TreeOf(s2, own2, exempt);
        WalkFrame(s2.mem, r.s.mem, own2, exempt, t, L, w);
      } else {
        SetupWalk(s2, own2, exempt, t, L, v2, r1.remaining, rw, w);
        PageAfterTransitive(Walk(s.mem, t, L, w), Walk(s2.mem, t, L, w), Walk(r.s.mem, t, L, w), v2 <= w < r.reached,
                            rw);
      }
    }
  }

  lemma PageAfterTransitive(a: Option<Mapping>, b: Option<Mapping>, c: Option<Mapping>, requested: bool, rw: bool)
    requires PageAfter(a, b, false, rw) && PageAfter(b, c, requested, rw)
    ensures PageAfter(a, c, requested, rw)
  {
  }

  // ---- main results -------------------------------------------------------------------

  /** Pages of the whole 48-bit address space. */
  const PAGES: nat := 0x10_0000_0000

  lemma PagesIsEnd()
    ensures First(1, 4) == PAGES
  {
    assert First(1, 4) == First(512, 3) == First(512 * 512, 2) == First(512 * 512 * 512, 1);
  }

  /** `setupPageMaps` with enough memory: exactly the pages from v up to the end of the request
      or of the address space become user pages with the given permission; every page keeps
      the frame it had; no other page becomes mapped; the part beyond the address space is
      returned. */
  lemma SetupPageMapsCorrect(s: Machine, own: Owners, exempt: set<nat>, root: nat, v: nat, n: nat, rw: bool)
    requires Callable(s, own, exempt, root, 4, v, n) && n > 0
    requires SetupPageMap(s, root, 4, v, n, rw).remaining != -1
    ensures var r := SetupPageMap(s, root, 4, v, n, rw);
            var end := if v + n <= PAGES then v + n else PAGES;
            && r.remaining == v + n - end
            && forall w :: 0 <= w < PAGES && Part(w, 4) !in exempt
                 ==> PageAfter(Walk(s.mem, root, 4, w), Walk(r.s.mem, root, 4, w), v <= w < end, rw)
  {
    var own' := SetupGrows(s, own, exempt, root, 4, v, n, rw);
    PagesIsEnd();
    forall w | 0 <= w < PAGES && Part(w, 4) !in exempt
      ensures PageChecked(s, SetupPageMap(s, root, 4, v, n, rw).s, root, 4, w,
                          v <= w < SetupPageMap(s, root, 4, v, n, rw).reached, rw)
    {
      Galois(w, 1, 4);
      SetupWalk(s, own, exempt, root, 4, v, n, rw, w);
    }
  }

  /** `setupPageMaps` when memory runs out: -1, the free list is empty, and the pages mapped
      are an initial segment of the request; nothing mapped before is lost. */
  lemma SetupPageMapsFailure(s: Machine, own: Owners, exempt: set<nat>, root: nat, v: nat, n: nat, rw: bool)
    returns (own': Owners)
    requires Callable(s, own, exempt, root, 4, v, n) && n > 0
    requires SetupPageMap(s, root, 4, v, n, rw).remaining == -1
    ensures var r := SetupPageMap(s, root, 4, v, n, rw);
            && r.s.free == [] && v <= r.reached < v + n && r.reached < PAGES && Inv(r.s, own', exempt)
            && (forall w :: 0 <= w < PAGES && Part(w, 4) !in exempt
                 ==> PageAfter(Walk(s.mem, root, 4, w), Walk(r.s.mem, root, 4, w), v <= w < r.reached, rw))
  {
    own' := SetupGrows(s, own, exempt, root, 4, v, n, rw);
    PagesIsEnd();
    forall w | 0 <= w < PAGES && Part(w, 4) !in exempt
      ensures PageChecked(s, SetupPageMap(s, root, 4, v, n, rw).s, root, 4, w,
                          v <= w < SetupPageMap(s, root, 4, v, n, rw).reached, rw)
    {
      Galois(w, 1, 4);
      SetupWalk(s, own, exempt, root, 4, v, n, rw, w);
    }
  }

  /** A page that growth newly maps gets a frame of its own: taken off the free list, all
      zero, and standing in the tree for exactly this page. */
  lemma {:induction false} NewPageIsFresh(s: Machine, own: Owners, exempt: set<nat>, s': Machine, own': Owners,
                                          t: nat, L: nat, w: nat)
    requires Inv(s, own, exempt) && Inv(s', own', exempt) && Grows(s, own, s', own')
    requires 1 <= L <= 4 && t in own' && own'[t] == Pos(L, Prefix(w, L)) && (L == 4 ==> Part(w, 4) !in exempt)
    requires t in own ==> Walk(s.mem, t, L, w).None?
    requires Walk(s'.mem, t, L, w).Some?
    ensures var f := Walk(s'.mem, t, L, w).value.frame;
            && Listed(s.free, f) && !Listed(s'.free, f) && f in own' && own'[f] == Pos(0, w)
            && forall j :: 0 <= j < ENTRIES ==> Load(s'.mem, f, j) == ZERO
    decreases L
  {
    hide Listed, FreeListOk, Referenced;
    var i := Part(w, L);
    var e, e' := Load(s.mem, t, i), Load(s'.mem, t, i);
    assert t in own ==> EntryGrows(own, own', own[t], i, e, e');
    assert t !in own ==> EntryFresh(own, own', own'[t], i, e');
    assert LinkOk(own', own'[t], i, e');
    assert t in own ==> LinkOk(own, own[t], i, e);
    if L == 1 {
      assert Prefix(w, 0) == w;
      assert forall j :: 0 <= j < ENTRIES ==> EntryFresh(own, own', own'[e'.frame], j, Load(s'.mem, e'.frame, j));
    } else {
      assert !Large(L, e');
      NewPageIsFresh(s, own, exempt, s', own', e'.frame, L - 1, w);
    }
  }

  lemma FirstEntryFlags(s: Machine, own: Owners, exempt: set<nat>, t: nat, L: nat, v: nat, n: nat, rw: bool)
    requires Callable(s, own, exempt, t, L, v, n) && n > 0
    ensures var e := Load(FirstEntry(s, t, L, v, n, rw).s.mem, t, Part(v, L));
            e.p ==> e.rw == rw
  {
    hide Inv, Grows, NoLarge, Touch, Prefix, First, Part;
    var i, r := Part(v, L), FirstEntry(s, t, L, v, n, rw);
    if Load(s.mem, t, i).p {
      EntryOf(s, own, exempt, t, L, v, n);
      TouchPresent(s, own, exempt, t, i, rw);
    }
    var own1 := FirstTurn(s, own, exempt, t, L, v, n, rw);
    var (s1, c) := Touch(s, t, i, rw);
    if c.At? && L > 1 {
      var own2 := SetupGrows(s1, own1, exempt, c.frame, L - 1, v, n, rw);
      ExtendsOf(s, own, s1, own1);
      assert !Spans(own1[t], i, L - 1, v, LastTouched(r));
    }
  }

  /** The permission of a call reaches every entry of its own table that it touched. */
  lemma {:induction false} TouchedEntries(s: Machine, own: Owners, exempt: set<nat>, t: nat, L: nat, v: nat, n: nat,
                                          rw: bool, i: nat)
    requires Callable(s, own, exempt, t, L, v, n) && n > 0 && i < ENTRIES
    requires var r := SetupPageMap(s, t, L, v, n, rw);
             LastTouched(r) >= 0 && Spans(own[t], i, L, v, LastTouched(r))
    ensures var e := Load(SetupPageMap(s, t, L, v, n, rw).s.mem, t, i);
            e.p ==> e.rw == rw
    decreases ENTRIES - Part(v, L)
  {
    hide Inv, Grows, NoLarge, Touch, Prefix, First, Part;
    FirstEntryFlags(s, own, exempt, t, L, v, n, rw);
    var own2 := EntryGrowsTree(s, own, exempt, t, L, v, n, rw);
    var r1 := FirstEntry(s, t, L, v, n, rw);
    Galois(LastTouched(r1), Prefix(v, L - 1) + 1, L - 1);
    PrefixMonotone(v, LastTouched(r1), L - 1);
    if r1.remaining > 0 && Part(v, L) != 511 {
      var v2, s2 := NextEntry(v, L), r1.s;
      NextTurn(s, own, exempt, s2, own2, t, L, v, n, r1.remaining);
      var own' := SetupGrows(s2, own2, exempt, t, L, v2, r1.remaining, rw);
      var r := SetupPageMap(s2, t, L, v2, r1.remaining, rw);
      if i == Part(v, L) {
        assert !Spans(own2[t], i, L, v2, LastTouched(r));
      } else {
        assert Spans(own2[t], i, L, v2, LastTouched(r));
        TouchedEntries(s2, own2, exempt, t, L, v2, r1.remaining, rw, i);
      }
    }
  }

  /** A read-only request takes write permission from other pages too: all pages under the PML4
      entries that it touches lose it, all others keep it. */
  lemma ReadOnlyTouched(s: Machine, own: Owners, exempt: set<nat>, root: nat, v: nat, n: nat, w: nat)
    requires Callable(s, own, exempt, root, 4, v, n) && n > 0
    requires w < PAGES && Part(w, 4) !in exempt
    requires Walk(s.mem, root, 4, w).Some? && Walk(s.mem, root, 4, w).value.rw
    ensures var r := SetupPageMap(s, root, 4, v, n, false);
            && LastTouched(r) >= v
            && Walk(r.s.mem, root, 4, w).Some?
            && (Walk(r.s.mem, root, 4, w).value.rw <==> !(Prefix(v, 3) <= Prefix(w, 3) <= Prefix(LastTouched(r), 3)))
  {
    hide NoLarge, Touch, Prefix, First, Part, FreeListOk, Listed;
    var r := SetupPageMap(s, root, 4, v, n, false);
    var own' := SetupGrows(s, own, exempt, root, 4, v, n, false);
    PagesIsEnd();
    Galois(w, 1, 4);
    SetupWalk(s, own, exempt, root, 4, v, n, false, w);
    if Prefix(v, 3) <= Prefix(w, 3) <= Prefix(LastTouched(r), 3) {
      TouchedEntries(s, own, exempt, root, 4, v, n, false, Part(w, 4));
    } else {
      PathSameOutside(s.mem, r.s.mem, own, 4, v, LastTouched(r), 3, 4, w);
      WalkFrame(s.mem, r.s.mem, own, exempt, root, 4, w);
    }
  }
}
