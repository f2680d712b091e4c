/**
 The code of kernel/paging.c that changes page tables in place.  Each method is proved to do
 what its function in module `Paging` says.
 */
module PageTables {
  import opened PhysicalMemory
  import opened Radix
  import opened FreeList
  import opened Paging

  /** A `LinearAddress4L` in memory, as the page number it denotes. */
  class LinearAddress {
    var page: nat

    constructor (page: nat)
      ensures this.page == page
    {
      this.page := page;
    }

    /** The loop body's step to the next entry: `setPart` of one level and a loop that clears
        the levels below. */
    method Advance(level: nat)
      requires 1 <= level && Part(page, level) < 511
      modifies this
      ensures page == NextEntry(old(page), level)
    {
      ghost var x := Prefix(page, level - 1) + 1;
      page := WithPart(page, level, Part(page, level) + 1);
      var k := level - 1;
      while k >= 1
        invariant 0 <= k < level && Prefix(page, k) == First(x, level - 1 - k)
      {
        page := WithPart(page, k, 0);
        FirstTimes(x, level - 1 - k);
        k := k - 1;
      }
    }
  }

  lemma ValidHead(a: Allocator)
    requires a.Valid()
    ensures a.head == PtrAt(a.free, 0)
  {
  }

  method NewMap(a: Allocator) returns (p: Ptr)
    requires a.Valid()
    modifies a
    ensures (Machine(a.mem, a.free), p) == NewPageMap(old(Machine(a.mem, a.free)))
    ensures a.Valid() && a.count == old(a.count)
  {
    hide FreeListOk, FirstFit;
    ValidHead(a);
    NewPageMapSpec(Machine(a.mem, a.free));
    p := a.AllocMem(1);
    if p.At? {
      a.mem := Clear(a.mem, p.frame);
    }
  }

  /** Two stores to one word leave the second. */
  lemma StoreTwice(mem: Memory, t: nat, i: nat, w: Word, w': Word)
    requires i < ENTRIES
    ensures Store(Store(mem, t, i, w), t, i, w') == Store(mem, t, i, w')
    ensures t !in mem ==> Store(mem, t, i, w) == mem
  {
    if t in mem {
      assert mem[t][i := w][i := w'] == mem[t][i := w'];
    }
  }

  /** `setNewPageMapIfNotPresent(&page_map[i])` */
  method NewMapIfNotPresent(a: Allocator, t: nat, i: nat) returns (p: Ptr)
    requires a.Valid() && i < ENTRIES
    modifies a
    ensures (Machine(a.mem, a.free), p) == EnsureChild(old(Machine(a.mem, a.free)), t, i)
    ensures a.head == PtrAt(a.free, 0) && a.count == old(a.count)
  {
    hide NewPageMap, FreeListOk;
    ValidHead(a);
    if Load(a.mem, t, i).p {
      return At(Load(a.mem, t, i).frame);
    }
    p := NewMap(a);
    ValidHead(a);
    if p.At? {
      ghost var w := Load(a.mem, t, i).(frame := p.frame % 0x100_0000_0000);
      StoreTwice(a.mem, t, i, w, w.(p := true));
      a.mem := Store(a.mem, t, i, Load(a.mem, t, i).(frame := p.frame % 0x100_0000_0000));
      a.mem := Store(a.mem, t, i, Load(a.mem, t, i).(p := true));
    }
  }

  /** The tables and the free list as the methods below find and leave them. */
  ghost predicate Ready(a: Allocator, own: Owners, exempt: set<nat>)
    reads a
  {
    a.head == PtrAt(a.free, 0) && Inv(Machine(a.mem, a.free), own, exempt)
  }

  /** One turn of the loop of `setupPageMap` up to the descent. */
  method TouchEntry(a: Allocator, ghost own: Owners, ghost exempt: set<nat>, t: nat, level: nat, v: nat, ghost n: nat,
                    rw: bool)
    returns (child: Ptr, ghost own1: Owners)
    requires 1 <= level && Ready(a, own, exempt) && Callable(Machine(a.mem, a.free), own, exempt, t, level, v, n)
    requires n > 0
    modifies a
    ensures (Machine(a.mem, a.free), child) == Touch(old(Machine(a.mem, a.free)), t, Part(v, level), rw)
    ensures Ready(a, own1, exempt) && a.count == old(a.count)
    ensures child.At? && level >= 2 ==> Callable(Machine(a.mem, a.free), own1, exempt, child.frame, level - 1, v, n)
  {
    hide Inv, EnsureChild, Callable, Grows, Within, Touched, FreeListOk;
    own1 := FirstTurn(Machine(a.mem, a.free), own, exempt, t, level, v, n, rw);
    var i := Part(v, level);
    assert a.Valid() by { InvParts(Machine(a.mem, a.free), own, exempt); }
    child := NewMapIfNotPresent(a, t, i);
    if child.At? {
      ghost var w := Load(a.mem, t, i).(rw := rw);
      StoreTwice(a.mem, t, i, w, w.(us := true));
      a.mem := Store(a.mem, t, i, Load(a.mem, t, i).(rw := rw));
      a.mem := Store(a.mem, t, i, Load(a.mem, t, i).(us := true));
    }
  }

  lemma InvParts(s: Machine, own: Owners, exempt: set<nat>)
    requires Inv(s, own, exempt)
    ensures FreeListOk(s.mem, PtrAt(s.free, 0), s.free)
  {
  }

  /** A page count of 32 bits as the `int` that it is returned in; -1 stays. */
  function ToInt(x: int): int
  {
    if x < 0x8000_0000 then x else x - TWO32
  }

  /** Assigned back to a `size_t` of 32 bits it is the count again; no count left over reads as -1. */
  lemma CountBack(x: int, n: nat)
    requires -1 <= x < n < TWO32
    ensures ToInt(x) == -1 <==> x == -1
    ensures x >= 0 ==> ToInt(x) % TWO32 == x
  {
  }

  /** What a whole turn of the loop leaves, and how the call goes on from there. */
  lemma WholeTurn(s: Machine, own: Owners, exempt: set<nat>, t: nat, L: nat, v: nat, n: nat, rw: bool)
    returns (own2: Owners)
    requires Callable(s, own, exempt, t, L, v, n) && n > 0
    ensures var r := FirstEntry(s, t, L, v, n, rw);
            && Inv(r.s, own2, exempt) && -1 <= r.remaining < n
            && (r.remaining <= 0 || Part(v, L) == 511 ==> SetupPageMap(s, t, L, v, n, rw) == r)
            && (r.remaining >= 0 && Part(v, L) < 511 ==>
                  && Callable(r.s, own2, exempt, t, L, NextEntry(v, L), r.remaining)
                  && Prefix(NextEntry(v, L), L) == Prefix(v, L)
                  && (r.remaining > 0 ==> SetupPageMap(s, t, L, v, n, rw) == SetupPageMap(r.s, t, L, NextEntry(v, L),
                                                                                          r.remaining, rw)))
  {
    hide Inv, NoLarge, Within, Touch, First, Prefix, Part;
    own2 := EntryGrowsTree(s, own, exempt, t, L, v, n, rw);
    var r := FirstEntry(s, t, L, v, n, rw);
    if r.remaining >= 0 && Part(v, L) < 511 {
      NextEntryPrefix(v, L);
      ExtendsOf(s, own, r.s, own2);
      if r.remaining > 0 {
        NextTurn(s, own, exempt, r.s, own2, t, L, v, n, r.remaining);
      }
    }
  }

  lemma SamePart(v: nat, w: nat, L: nat)
    requires 1 <= L && Prefix(w, L - 1) == Prefix(v, L - 1)
    ensures Part(w, L) == Part(v, L) && Prefix(w, L) == Prefix(v, L) && NextEntry(w, L) == NextEntry(v, L)
  {
  }

  lemma SetupNothing(s: Machine, t: nat, L: nat, v: nat, rw: bool)
    requires 1 <= L
    ensures SetupPageMap(s, t, L, v, 0, rw) == Outcome(s, 0, v)
  {
  }

  /** `setupPageMap`: the code's loop and recursion over the tables and the address in place do
      what the function `SetupPageMap` says, although the count left over is returned as an `int`. */
  method SetupMap(a: Allocator, ghost own: Owners, ghost exempt: set<nat>, t: nat, level: nat, addr: LinearAddress,
                  num: nat, rw: bool)
    returns (remaining: int, ghost own': Owners)
    requires 1 <= level && Ready(a, own, exempt) && num < TWO32
    requires Callable(Machine(a.mem, a.free), own, exempt, t, level, addr.page, num)
    modifies a, addr
    ensures var r := SetupPageMap(old(Machine(a.mem, a.free)), t, level, old(addr.page), num, rw);
            Machine(a.mem, a.free) == r.s && remaining == ToInt(r.remaining) && (remaining == -1 <==> r.remaining == -1)
    ensures Ready(a, own', exempt) && a.count == old(a.count)
    ensures Prefix(addr.page, level) == Prefix(old(addr.page), level)
    decreases level
  {
    hide Inv, Callable, Touch, First, Prefix, Part, SetupPageMap, NextEntry;
    var n: nat := num;
    own' := own;
    SetupNothing(Machine(a.mem, a.free), t, level, addr.page, rw);
    ghost var v0 := addr.page;
    ghost var target := SetupPageMap(Machine(a.mem, a.free), t, level, v0, num, rw);
    while n > 0
      invariant n <= num && Ready(a, own', exempt) && a.count == old(a.count)
      invariant Callable(Machine(a.mem, a.free), own', exempt, t, level, addr.page, n)
      invariant n > 0 ==> SetupPageMap(Machine(a.mem, a.free), t, level, addr.page, n, rw) == target
      invariant n == 0 ==> target.s == Machine(a.mem, a.free) && target.remaining == 0
      invariant Prefix(addr.page, level) == Prefix(v0, level)
      decreases ENTRIES - Part(addr.page, level)
    {
      ghost var v := addr.page;
      ghost var r := FirstEntry(Machine(a.mem, a.free), t, level, v, n, rw);
      ghost var own2 := WholeTurn(Machine(a.mem, a.free), own', exempt, t, level, v, n, rw);
      var i := Part(addr.page, level);
      var child;
      child, own' := TouchEntry(a, own', exempt, t, level, addr.page, n, rw);
      if child.Null? {
        return -1, own';
      }
      if level == 1 {
        n := n - 1;
      } else {
        var rest;
        rest, own' := SetupMap(a, own', exempt, child.frame, level - 1, addr, n, rw);
        SamePart(v, addr.page, level);
        CountBack(r.remaining, n);
        if rest == -1 {
          return -1, own';
        }
        n := rest % TWO32;
      }
      own' := own2;
      if i == 511 {
        break;
      }
      addr.Advance(level);
    }
    remaining := ToInt(n);
  }
}
