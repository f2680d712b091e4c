/**
 `free_mem` of kernel/mem.c: one pass over the list that inserts the freed range, merges it
 with its neighbours, and goes on to the end.  The pass is right for some lists and ranges
 only; `Restores` says for which, and `FreeMem` proves that it is exactly these.
 */
module FreeMem {
  import opened PhysicalMemory
  import opened FreeList

  /** The list head and the memory the headers live in. */
  datatype Heap = Heap(mem: Memory, head: Ptr)

  /** `p->next`, where NULL stands for the static list head. */
  function NextOf(h: Heap, p: Ptr): Ptr
  {
    if p.Null? then h.head else Next(h.mem, p.frame)
  }

  function WithNext(h: Heap, p: Ptr, q: Ptr): Heap
  {
    if p.Null? then h.(head := q) else h.(mem := SetNext(h.mem, p.frame, q))
  }

  function WithCount32(h: Heap, f: nat, n: nat): Heap
  {
    h.(mem := SetCount(h.mem, f, n))
  }

  datatype Turn = Crash | Go(h: Heap, prev: Ptr, m: Ptr)

  /** "not merged any block (before all memlists)" */
  function InsertFront(h: Heap, prev: Ptr, m: nat, ptr: nat, n: nat): (Heap, nat)
  {
    if prev.Null? && ptr < m then
      (WithCount32(WithNext(WithNext(h, prev, At(ptr)), At(ptr), At(m)), ptr, n), ptr)
    else (h, m)
  }

  /** "not merged any block" */
  function InsertAfter(h: Heap, prev: Ptr, m: nat, ptr: nat, n: nat): (Heap, nat)
  {
    if prev.At? && prev.frame + Count(h.mem, prev.frame) % WRAP < ptr then
      (WithCount32(WithNext(WithNext(h, At(ptr), NextOf(h, prev)), prev, At(ptr)), ptr, n), ptr)
    else (h, m)
  }

  /** "merge next block"; the new m is prev->next and may be NULL. */
  function MergeNext(h: Heap, prev: Ptr, m: nat, ptr: nat, n: nat): (Heap, Ptr)
  {
    if ptr + n % WRAP == m then
      var h1 := WithNext(h, prev, At(ptr));
      var h2 := WithNext(h1, At(ptr), Next(h1.mem, m));
      var h3 := WithCount32(h2, ptr, n + Count(h2.mem, m));
      (h3, NextOf(h3, prev))
    else (h, At(m))
  }

  /** "merge prev block" */
  function MergePrev(h: Heap, m: nat, ptr: nat, n: nat): Heap
  {
    if m + Count(h.mem, m) % WRAP == ptr then WithCount32(h, m, Count(h.mem, m) + n) else h
  }

  /** One turn of the loop, with the step `prev = m, m = m->next` at its end. */
  function OneTurn(h: Heap, prev: Ptr, m: nat, ptr: nat, n: nat): Turn
  {
    var (h1, m1) := InsertFront(h, prev, m, ptr, n);
    var (h2, m2) := InsertAfter(h1, prev, m1, ptr, n);
    var (h3, m3) := MergeNext(h2, prev, m2, ptr, n);
    if m3.Null? then Crash
    else
      var h4 := MergePrev(h3, m3.frame, ptr, n);
      Go(h4, m3, Next(h4.mem, m3.frame))
  }

  // ---- header updates seen through Next and Count ------------------------------------

  ghost predicate NextSet(mem: Memory, mem': Memory, f: nat, p: Ptr)
  {
    && mem'.Keys == mem.Keys
    && forall g :: g in mem ==> Next(mem', g) == (if g == f then p else Next(mem, g)) && Count(mem', g) == Count(mem, g)
  }

  ghost predicate CountSet(mem: Memory, mem': Memory, f: nat, n: nat)
  {
    && mem'.Keys == mem.Keys
    && forall g :: g in mem ==> Count(mem', g) == (if g == f then n else Count(mem, g)) && Next(mem', g) == Next(mem, g)
  }

  lemma SetNextView(mem: Memory, f: nat, p: Ptr)
    requires f in mem && Addressable(p)
    ensures NextSet(mem, SetNext(mem, f, p), f, p)
  {
    hide Next, Count, SetNext;
    SetNextEffect(mem, f, p);
    forall g | g in mem && g != f
      ensures Next(SetNext(mem, f, p), g) == Next(mem, g) && Count(SetNext(mem, f, p), g) == Count(mem, g)
    {
      SameHeader(mem, SetNext(mem, f, p), g);
    }
  }

  lemma SetCountView(mem: Memory, f: nat, n: nat)
    requires f in mem
    ensures CountSet(mem, SetCount(mem, f, n), f, n % TWO32)
  {
    hide Next, Count, WithCount;
    assert SetCount(mem, f, n) == SetCount(mem, f, n % TWO32);
    hide SetCount;
    SetCountEffect(mem, f, n % TWO32);
    forall g | g in mem && g != f
      ensures Next(SetCount(mem, f, n), g) == Next(mem, g) && Count(SetCount(mem, f, n), g) == Count(mem, g)
    {
      SameHeader(mem, SetCount(mem, f, n), g);
    }
  }

  // ---- the lists that a pass can leave -----------------------------------------------

  /** The freed range [ptr, ptr + n) is free of the blocks of bs. */
  predicate Freed(bs: seq<Block>, ptr: nat, n: nat)
  {
    && Canonical(bs) && 1 <= n < WRAP && ptr + n < FRAME_LIMIT
    && forall i :: 0 <= i < |bs| ==> bs[i].start + bs[i].pages <= ptr || ptr + n <= bs[i].start
  }

  /** Every header the pass can touch is in RAM. */
  predicate InRam(mem: Memory, bs: seq<Block>, ptr: nat)
  {
    ptr in mem && forall i :: 0 <= i < |bs| ==> bs[i].start in mem
  }

  function Inserted(bs: seq<Block>, k: nat, ptr: nat, n: nat): seq<Block>
    requires k <= |bs|
  {
    bs[..k] + [Block(ptr, n)] + bs[k..]
  }

  function MergedNext(bs: seq<Block>, k: nat, ptr: nat, n: nat): seq<Block>
    requires k < |bs|
  {
    bs[..k] + [Block(ptr, (n + bs[k].pages) % TWO32)] + bs[k + 1..]
  }

  function Extended(bs: seq<Block>, n: nat): seq<Block>
    requires bs != []
  {
    [Block(bs[0].start, (bs[0].pages + n) % TWO32)] + bs[1..]
  }

  // ---- the first turn -----------------------------------------------------------------

  lemma FrontTurn(h: Heap, bs: seq<Block>, ptr: nat, n: nat)
    requires Freed(bs, ptr, n) && InRam(h.mem, bs, ptr) && Linked(h.mem, h.head, bs)
    requires bs != [] && ptr < bs[0].start
    ensures var r := OneTurn(h, Null, bs[0].start, ptr, n);
            && r.Go? && r.h.mem.Keys == h.mem.Keys && r.prev == At(ptr) && r.m == PtrAt(bs, 0)
            && Linked(r.h.mem, r.h.head, Inserted(bs, 0, ptr, n))
  {
    hide Next, Count, SetNext, SetCount;
    var m0 := h.mem;
    var m1 := SetNext(m0, ptr, At(bs[0].start));
    SetNextView(m0, ptr, At(bs[0].start));
    var m2 := SetCount(m1, ptr, n);
    SetCountView(m1, ptr, n);
    var list := Inserted(bs, 0, ptr, n);
    forall i | 0 <= i < |list|
      ensures Node(m2, list, i)
    {
      if i > 0 {
        assert list[i] == bs[i - 1] && Node(m0, bs, i - 1);
      }
    }
    assert InsertFront(h, Null, bs[0].start, ptr, n) == (Heap(m2, At(ptr)), ptr);
  }

  /** Adjacent to the first block as the 32-bit arithmetic sees it. */
  predicate TouchesFirst(bs: seq<Block>, ptr: nat)
    requires bs != []
  {
    bs[0].start + bs[0].pages % WRAP == ptr
  }

  function AfterFirst(bs: seq<Block>, ptr: nat, n: nat): seq<Block>
    requires bs != []
  {
    if TouchesFirst(bs, ptr) then Extended(bs, n) else bs
  }

  lemma PastFirstTurn(h: Heap, bs: seq<Block>, ptr: nat, n: nat)
    requires Freed(bs, ptr, n) && InRam(h.mem, bs, ptr) && Linked(h.mem, h.head, bs)
    requires bs != [] && bs[0].start < ptr
    ensures var r := OneTurn(h, Null, bs[0].start, ptr, n);
            && r.Go? && r.h.mem.Keys == h.mem.Keys && r.prev == At(bs[0].start) && r.m == PtrAt(bs, 1)
            && Linked(r.h.mem, r.h.head, AfterFirst(bs, ptr, n))
  {
    hide Next, Count, SetNext, SetCount;
    assert Node(h.mem, bs, 0) && Sized(bs[0]);
    if TouchesFirst(bs, ptr) {
      var m1 := SetCount(h.mem, bs[0].start, bs[0].pages + n);
      SetCountView(h.mem, bs[0].start, bs[0].pages + n);
      var list := Extended(bs, n);
      forall i | 0 <= i < |list|
        ensures Node(m1, list, i)
      {
        assert Node(h.mem, bs, i);
        assert i > 0 ==> Apart(bs[0], bs[i]);
      }
      assert MergePrev(h, bs[0].start, ptr, n) == Heap(m1, h.head);
    }
  }

  // ---- later turns --------------------------------------------------------------------

  /** From entry idx - 1 on the pass has nothing more to do. */
  predicate Quiet(list: seq<Block>, idx: nat, ptr: nat, n: nat)
  {
    && 1 <= idx <= |list|
    && list[idx - 1].start + list[idx - 1].pages % WRAP >= ptr
    && forall i :: idx <= i < |list| ==> list[i].start > ptr && list[i].start != ptr + n
  }

  lemma QuietTurn(h: Heap, list: seq<Block>, idx: nat, ptr: nat, n: nat)
    requires Linked(h.mem, h.head, list) && Quiet(list, idx, ptr, n) && idx < |list| && 1 <= n < WRAP
    ensures OneTurn(h, At(list[idx - 1].start), list[idx].start, ptr, n) ==
              Go(h, At(list[idx].start), PtrAt(list, idx + 1))
    ensures Quiet(list, idx + 1, ptr, n)
  {
    hide Next, Count, SetNext, SetCount;
    assert Node(h.mem, list, idx - 1) && Node(h.mem, list, idx);
  }

  /** Inserted before block k without touching it, the range needs no further work. */
  lemma InsertedQuiet(bs: seq<Block>, k: nat, ptr: nat, n: nat)
    requires Freed(bs, ptr, n) && k < |bs| && ptr < bs[k].start && ptr + n != bs[k].start
    ensures Quiet(Inserted(bs, k, ptr, n), k + 1, ptr, n)
  {
    var list := Inserted(bs, k, ptr, n);
    forall i | k + 1 <= i < |list|
      ensures list[i].start > ptr && list[i].start != ptr + n
    {
      assert list[i] == bs[i - 1];
      assert i - 1 > k ==> Apart(bs[k], bs[i - 1]);
    }
  }

  lemma MergedQuiet(bs: seq<Block>, k: nat, ptr: nat, n: nat)
    requires Freed(bs, ptr, n) && k + 1 < |bs| && ptr + n == bs[k].start
    ensures Quiet(MergedNext(bs, k, ptr, n), k + 2, ptr, n)
  {
    var list := MergedNext(bs, k, ptr, n);
    forall i | k + 1 <= i < |list|
      ensures list[i].start > ptr && list[i].start != ptr + n
    {
      assert list[i] == bs[i] && Apart(bs[k], bs[i]);
    }
  }

  /** The turn after an insertion right before block k: the two become one block, and the pass
      goes on behind it; if there is no block behind it, line 83 reads through NULL. */
  lemma MergeTurn(h: Heap, bs: seq<Block>, k: nat, ptr: nat, n: nat)
    requires Freed(bs, ptr, n) && InRam(h.mem, bs, ptr) && k < |bs| && ptr + n == bs[k].start
    requires Linked(h.mem, h.head, Inserted(bs, k, ptr, n))
    ensures var r := OneTurn(h, At(ptr), bs[k].start, ptr, n);
            if k + 1 == |bs| then r.Crash?
            else
              && r.Go? && r.h.mem.Keys == h.mem.Keys && r.prev == PtrAt(bs, k + 1) && r.m == PtrAt(bs, k + 2)
              && Linked(r.h.mem, r.h.head, MergedNext(bs, k, ptr, n))
  {
    hide Next, Count, SetNext, SetCount, Canonical, Linked;
    var h' := MergeMemory(h, bs, k, ptr, n);
    if k + 1 < |bs| {
      MergedNode(h', bs, k, ptr, n);
    }
  }

  lemma MergeMemory(h: Heap, bs: seq<Block>, k: nat, ptr: nat, n: nat) returns (h': Heap)
    requires Freed(bs, ptr, n) && InRam(h.mem, bs, ptr) && k < |bs| && ptr + n == bs[k].start
    requires Linked(h.mem, h.head, Inserted(bs, k, ptr, n))
    ensures InsertAfter(h, At(ptr), bs[k].start, ptr, n) == (h, bs[k].start)
    ensures MergeNext(h, At(ptr), bs[k].start, ptr, n) == (h', PtrAt(bs, k + 1))
    ensures h'.mem.Keys == h.mem.Keys && Linked(h'.mem, h'.head, MergedNext(bs, k, ptr, n))
  {
    hide Next, Count, SetNext, SetCount;
    var list := Inserted(bs, k, ptr, n);
    assert Node(h.mem, list, k) && Node(h.mem, list, k + 1);
    assert list[k + 1] == bs[k] && Sized(bs[k]) && (k + 1 < |bs| ==> Sized(bs[k + 1]));
    var m1 := SetNext(h.mem, ptr, At(ptr));
    SetNextView(h.mem, ptr, At(ptr));
    var m2 := SetNext(m1, ptr, PtrAt(bs, k + 1));
    SetNextView(m1, ptr, PtrAt(bs, k + 1));
    var m3 := SetCount(m2, ptr, n + bs[k].pages);
    SetCountView(m2, ptr, n + bs[k].pages);
    MergedLinked(h.mem, h.head, m3, bs, k, ptr, n);
    h' := Heap(m3, h.head);
  }

  lemma MergedNode(h: Heap, bs: seq<Block>, k: nat, ptr: nat, n: nat)
    requires Freed(bs, ptr, n) && k + 1 < |bs| && ptr < bs[k].start && Linked(h.mem, h.head, MergedNext(bs, k, ptr, n))
    ensures MergePrev(h, bs[k + 1].start, ptr, n) == h && Next(h.mem, bs[k + 1].start) == PtrAt(bs, k + 2)
  {
    hide Next, Count;
    var list := MergedNext(bs, k, ptr, n);
    assert list[k + 1] == bs[k + 1] && Node(h.mem, list, k + 1) && Apart(bs[k], bs[k + 1]);
  }

  lemma MergedLinked(mem: Memory, head: Ptr, mem': Memory, bs: seq<Block>, k: nat, ptr: nat, n: nat)
    requires Freed(bs, ptr, n) && k < |bs| && Linked(mem, head, Inserted(bs, k, ptr, n))
    requires mem'.Keys == mem.Keys
    requires forall g :: g in mem && g != ptr ==> Next(mem', g) == Next(mem, g) && Count(mem', g) == Count(mem, g)
    requires ptr in mem && Next(mem', ptr) == PtrAt(bs, k + 1) && Count(mem', ptr) == (n + bs[k].pages) % TWO32
    ensures Linked(mem', head, MergedNext(bs, k, ptr, n))
  {
    hide Next, Count;
    var list, list' := Inserted(bs, k, ptr, n), MergedNext(bs, k, ptr, n);
    forall i | 0 <= i < |list'|
      ensures Node(mem', list', i)
    {
      var j := if i < k then i else i + 1;
      assert Node(mem, list, j);
      if i < k {
        assert list'[i] == list[i] == bs[i] && Sized(bs[i]);
      } else if i > k {
        assert list'[i] == list[i + 1] == bs[i] && Sized(bs[i]);
      }
    }
  }

  /** The second turn when the freed range is not merged with the first block: it is linked in
      after the first block, wherever it lies. */
  lemma SecondTurnInserts(h: Heap, bs: seq<Block>, list: seq<Block>, ptr: nat, n: nat)
    requires Freed(bs, ptr, n) && InRam(h.mem, bs, ptr) && |bs| >= 2 && |list| == |bs|
    requires Linked(h.mem, h.head, list) && list[0].start == bs[0].start && list[1..] == bs[1..]
    requires bs[0].start + list[0].pages % WRAP < ptr
    ensures var r := OneTurn(h, At(bs[0].start), bs[1].start, ptr, n);
            && r.Go? && r.h.mem.Keys == h.mem.Keys && r.prev == At(ptr) && r.m == PtrAt(bs, 1)
            && Linked(r.h.mem, r.h.head, [list[0], Block(ptr, n)] + list[1..])
  {
    hide Next, Count, SetNext, SetCount;
    assert Node(h.mem, list, 0) && Sized(bs[0]) && Sized(bs[1]);
    assert list[1] == list[1..][0] == bs[1];
    var m1 := SetNext(h.mem, ptr, At(bs[1].start));
    SetNextView(h.mem, ptr, At(bs[1].start));
    var m2 := SetNext(m1, bs[0].start, At(ptr));
    SetNextView(m1, bs[0].start, At(ptr));
    var m3 := SetCount(m2, ptr, n);
    SetCountView(m2, ptr, n);
    assert InsertAfter(h, At(bs[0].start), bs[1].start, ptr, n) == (Heap(m3, h.head), ptr);
    assert Next(m3, ptr) == At(bs[1].start) && Count(m3, ptr) == n;
    LinkedSecond(h.mem, h.head, m3, bs, list, ptr, n);
  }

  lemma LinkedSecond(mem: Memory, head: Ptr, mem': Memory, bs: seq<Block>, list: seq<Block>, ptr: nat, n: nat)
    requires Freed(bs, ptr, n) && |bs| >= 2 && |list| == |bs| && ptr in mem
    requires Linked(mem, head, list) && list[0].start == bs[0].start && list[1..] == bs[1..]
    requires mem'.Keys == mem.Keys
    requires forall g :: g in mem && g != ptr && g != bs[0].start
               ==> Next(mem', g) == Next(mem, g) && Count(mem', g) == Count(mem, g)
    requires Next(mem', bs[0].start) == At(ptr) && Count(mem', bs[0].start) == Count(mem, bs[0].start)
    requires Next(mem', ptr) == At(bs[1].start) && Count(mem', ptr) == n
    ensures Linked(mem', head, [list[0], Block(ptr, n)] + list[1..])
  {
    hide Next, Count;
    var list' := [list[0], Block(ptr, n)] + list[1..];
    assert Node(mem, list, 0);
    forall i | 0 <= i < |list'|
      ensures Node(mem', list', i)
    {
      if i >= 1 {
        assert list[1..][0] == bs[1];
      }
      if i >= 2 {
        assert Node(mem, list, i - 1);
        assert list'[i] == list[i - 1] == list[1..][i - 2] == bs[i - 1];
        assert Apart(bs[0], bs[i - 1]) && Sized(bs[i - 1]);
      }
    }
  }

  // ---- passes that go wrong -----------------------------------------------------------

  predicate Hop(mem: Memory, bs: seq<Block>, i: nat)
    requires i < |bs|
  {
    Next(mem, bs[i].start) == PtrAt(bs, i + 1)
  }

  /** The list starts with the first block followed by the freed range, although the first
      block overlaps or touches the range, or the second block should come in between. */
  predicate Spoiled(h: Heap, bs: seq<Block>, ptr: nat)
    requires bs != []
  {
    && h.head == At(bs[0].start)
    && Next(h.mem, bs[0].start) == At(ptr)
    && (|| bs[0].start + Count(h.mem, bs[0].start) >= ptr
        || (|bs| >= 2 && bs[1].start < ptr && Count(h.mem, bs[0].start) == bs[0].pages))
  }

  /** A spoiled list, with the pass at block j of the old one. */
  predicate Broken(h: Heap, bs: seq<Block>, ptr: nat, prev: Ptr, m: Ptr, j: nat)
  {
    && bs != [] && InRam(h.mem, bs, ptr) && Spoiled(h, bs, ptr)
    && 1 <= j <= |bs| && m == PtrAt(bs, j)
    && (prev == At(ptr) || (2 <= j && prev == At(bs[j - 1].start) && Hop(h.mem, bs, j - 1)))
    && forall i :: j <= i < |bs| ==> Hop(h.mem, bs, i)
  }

  function Left(bs: seq<Block>, ptr: nat, prev: Ptr, j: nat): int
  {
    2 * (|bs| - j) + if prev == At(ptr) then 0 else 1
  }

  /** Only the headers of the freed range and of blocks from number 1 on were written. */
  ghost predicate SpareFirst(h: Heap, h': Heap, bs: seq<Block>, j: nat)
    requires bs != []
  {
    && h'.head == h.head && h'.mem.Keys == h.mem.Keys
    && Next(h'.mem, bs[0].start) == Next(h.mem, bs[0].start) && Count(h'.mem, bs[0].start) == Count(h.mem, bs[0].start)
    && forall i :: j <= i < |bs| ==> (Hop(h'.mem, bs, i) <==> Hop(h.mem, bs, i))
  }

  lemma SparedNext(h: Heap, mem': Memory, bs: seq<Block>, f: nat, p: Ptr, j: nat)
    requires bs != [] && InRam(h.mem, bs, f) && NextSet(h.mem, mem', f, p)
    requires f != bs[0].start && forall i :: j <= i < |bs| ==> f != bs[i].start
    ensures SpareFirst(h, Heap(mem', h.head), bs, j)
  {
    hide Next, Count;
  }

  lemma SparedCount(h: Heap, mem': Memory, bs: seq<Block>, f: nat, n: nat, j: nat)
    requires bs != [] && InRam(h.mem, bs, f) && CountSet(h.mem, mem', f, n) && f != bs[0].start
    ensures SpareFirst(h, Heap(mem', h.head), bs, j)
  {
    hide Next, Count;
  }

  lemma Distinct(bs: seq<Block>, ptr: nat, n: nat, i: nat)
    requires Freed(bs, ptr, n) && i < |bs|
    ensures bs[i].start != ptr && Sized(bs[i])
    ensures forall k :: 0 <= k < |bs| && k != i ==> bs[k].start != bs[i].start
  {
    assert Sized(bs[i]);
    forall k | 0 <= k < |bs| && k != i
      ensures bs[k].start != bs[i].start
    {
      assert k < i ==> Apart(bs[k], bs[i]);
      assert i < k ==> Apart(bs[i], bs[k]);
    }
  }

  /** `prev->next = ml`, where prev is the freed range or block j - 1. */
  lemma PrevSpared(h: Heap, bs: seq<Block>, ptr: nat, n: nat, prev: Ptr, m: Ptr, j: nat, q: Ptr)
    requires Freed(bs, ptr, n) && Broken(h, bs, ptr, prev, m, j) && Addressable(q)
    ensures var h' := WithNext(h, prev, q);
            SpareFirst(h, h', bs, j) && NextSet(h.mem, h'.mem, prev.frame, q)
  {
    hide Next, Count, SetNext, Canonical;
    SetNextView(h.mem, prev.frame, q);
    if prev == At(ptr) {
      assert forall i :: 0 <= i < |bs| ==> bs[i].start != ptr by {
        forall i | 0 <= i < |bs| ensures bs[i].start != ptr { Distinct(bs, ptr, n, i); }
      }
      SparedNext(h, SetNext(h.mem, prev.frame, q), bs, ptr, q, j);
    } else {
      Distinct(bs, ptr, n, j - 1);
      SparedNext(h, SetNext(h.mem, prev.frame, q), bs, bs[j - 1].start, q, j);
    }
  }

  lemma SpareTransitive(a: Heap, b: Heap, c: Heap, bs: seq<Block>, j: nat)
    requires bs != [] && SpareFirst(a, b, bs, j) && SpareFirst(b, c, bs, j)
    ensures SpareFirst(a, c, bs, j)
  {
    hide Hop;
  }

  /** The two stores to the freed range's own header. */
  lemma RangeSpared(h: Heap, bs: seq<Block>, ptr: nat, n: nat, q: Ptr, c: nat, j: nat)
    requires Freed(bs, ptr, n) && bs != [] && InRam(h.mem, bs, ptr) && Addressable(q)
    ensures var h1 := WithNext(h, At(ptr), q);
            var h2 := WithCount32(h1, ptr, c);
            && SpareFirst(h, h1, bs, j) && SpareFirst(h, h2, bs, j)
            && NextSet(h.mem, h1.mem, ptr, q) && CountSet(h1.mem, h2.mem, ptr, c % TWO32)
  {
    hide Next, Count, SetNext, SetCount, Canonical;
    var h1 := WithNext(h, At(ptr), q);
    SetNextView(h.mem, ptr, q);
    SetCountView(h1.mem, ptr, c);
    forall i | 0 <= i < |bs| ensures bs[i].start != ptr { Distinct(bs, ptr, n, i); }
    assert bs[0].start != ptr;
    SparedNext(h, h1.mem, bs, ptr, q, j);
    SparedCount(h1, SetCount(h1.mem, ptr, c), bs, ptr, c % TWO32, j);
    SpareTransitive(h, h1, WithCount32(h1, ptr, c), bs, j);
  }

  lemma StillBroken(h: Heap, h': Heap, bs: seq<Block>, ptr: nat, prev: Ptr, m: Ptr, j: nat, prev': Ptr, j': nat)
    requires Broken(h, bs, ptr, prev, m, j) && SpareFirst(h, h', bs, j)
    requires j <= j' <= |bs| && (prev' == At(ptr) || (j' > j && prev' == At(bs[j' - 1].start)))
    ensures Broken(h', bs, ptr, prev', PtrAt(bs, j'), j')
  {
    hide Next, Count;
    forall i | j <= i < |bs|
      ensures Hop(h'.mem, bs, i)
    {
      assert Hop(h.mem, bs, i);
    }
  }

  /** Insertion after block j - 1 a second time. */
  lemma BrokenInsert(h: Heap, bs: seq<Block>, ptr: nat, n: nat, prev: Ptr, j: nat)
    requires Freed(bs, ptr, n) && j < |bs| && Broken(h, bs, ptr, prev, PtrAt(bs, j), j)
    requires prev != At(ptr) && prev.frame + Count(h.mem, prev.frame) % WRAP < ptr
    ensures var r := OneTurn(h, prev, bs[j].start, ptr, n);
            && r.Go? && Broken(r.h, bs, ptr, r.prev, r.m, j) && Left(bs, ptr, r.prev, j) < Left(bs, ptr, prev, j)
  {
    hide Next, Count, SetNext, SetCount, Canonical;
    Distinct(bs, ptr, n, j);
    Distinct(bs, ptr, n, j - 1);
    assert Hop(h.mem, bs, j - 1);
    RangeSpared(h, bs, ptr, n, At(bs[j].start), n, j);
    var h1 := WithNext(h, At(ptr), At(bs[j].start));
    StillBrokenAt(h, h1, bs, ptr, n, prev, j);
    PrevSpared(h1, bs, ptr, n, prev, PtrAt(bs, j), j, At(ptr));
    var h2 := WithNext(h1, prev, At(ptr));
    SpareTransitive(h, h1, h2, bs, j);
    SetCountView(h2.mem, ptr, n);
    var h3 := WithCount32(h2, ptr, n);
    Distinct(bs, ptr, n, 0);
    SparedCount(h2, h3.mem, bs, ptr, n % TWO32, j);
    SpareTransitive(h, h2, h3, bs, j);
    assert InsertAfter(h, prev, bs[j].start, ptr, n) == (h3, ptr);
    assert Next(h3.mem, ptr) == At(bs[j].start) && Count(h3.mem, ptr) == n;
    StillBroken(h, h3, bs, ptr, prev, PtrAt(bs, j), j, At(ptr), j);
  }

  lemma StillBrokenAt(h: Heap, h': Heap, bs: seq<Block>, ptr: nat, n: nat, prev: Ptr, j: nat)
    requires Freed(bs, ptr, n) && j < |bs| && Broken(h, bs, ptr, prev, PtrAt(bs, j), j)
    requires SpareFirst(h, h', bs, j) && prev != At(ptr) && Next(h'.mem, prev.frame) == Next(h.mem, prev.frame)
    ensures Broken(h', bs, ptr, prev, PtrAt(bs, j), j)
  {
    hide Next, Count;
    forall i | j <= i < |bs|
      ensures Hop(h'.mem, bs, i)
    {
      assert Hop(h.mem, bs, i);
    }
  }

  /** Merging with block j. */
  lemma BrokenMerge(h: Heap, bs: seq<Block>, ptr: nat, n: nat, prev: Ptr, j: nat) returns (h3: Heap)
    requires Freed(bs, ptr, n) && j < |bs| && Broken(h, bs, ptr, prev, PtrAt(bs, j), j) && ptr + n == bs[j].start
    ensures MergeNext(h, prev, bs[j].start, ptr, n) == (h3, if prev == At(ptr) then PtrAt(bs, j + 1) else At(ptr))
    ensures SpareFirst(h, h3, bs, j) && h3.mem.Keys == h.mem.Keys && Next(h3.mem, ptr) == PtrAt(bs, j + 1)
  {
    hide Next, Count, SetNext, SetCount, Canonical;
    Distinct(bs, ptr, n, j);
    assert Hop(h.mem, bs, j);
    PrevSpared(h, bs, ptr, n, prev, PtrAt(bs, j), j, At(ptr));
    var h1 := WithNext(h, prev, At(ptr));
    assert Next(h1.mem, bs[j].start) == PtrAt(bs, j + 1);
    if j + 1 < |bs| {
      Distinct(bs, ptr, n, j + 1);
    }
    var h2 := WithNext(h1, At(ptr), PtrAt(bs, j + 1));
    h3 := WithCount32(h2, ptr, n + Count(h2.mem, bs[j].start));
    RangeSpared(h1, bs, ptr, n, PtrAt(bs, j + 1), n + Count(h2.mem, bs[j].start), j);
    SpareTransitive(h, h1, h3, bs, j);
  }

  lemma MergePrevSpared(h: Heap, bs: seq<Block>, x: nat, ptr: nat, n: nat, j: nat)
    requires bs != [] && InRam(h.mem, bs, x) && x != bs[0].start
    ensures var h' := MergePrev(h, x, ptr, n);
            SpareFirst(h, h', bs, j) && Next(h'.mem, x) == Next(h.mem, x)
  {
    hide Next, Count, SetCount;
    if x + Count(h.mem, x) % WRAP == ptr {
      var c := Count(h.mem, x) + n;
      SetCountView(h.mem, x, c);
      SparedCount(h, SetCount(h.mem, x, c), bs, x, c % TWO32, j);
    }
  }

  /** The end of a turn of a broken pass. */
  lemma BrokenEnd(h: Heap, h3: Heap, bs: seq<Block>, ptr: nat, n: nat, prev: Ptr, m3: nat, j: nat, j': nat)
    requires Freed(bs, ptr, n) && j < |bs| && Broken(h, bs, ptr, prev, PtrAt(bs, j), j) && SpareFirst(h, h3, bs, j)
    requires j < j' <= |bs|
    requires (m3 == ptr && Next(h3.mem, ptr) == PtrAt(bs, j')) || m3 == bs[j' - 1].start
    ensures var h4 := MergePrev(h3, m3, ptr, n);
            Broken(h4, bs, ptr, At(m3), Next(h4.mem, m3), j')
  {
    hide Next, Count, Canonical, Spoiled;
    Distinct(bs, ptr, n, 0);
    Distinct(bs, ptr, n, j' - 1);
    assert InRam(h3.mem, bs, m3);
    MergePrevSpared(h3, bs, m3, ptr, n, j);
    var h4 := MergePrev(h3, m3, ptr, n);
    SpareTransitive(h, h3, h4, bs, j);
    StillBroken(h, h4, bs, ptr, prev, PtrAt(bs, j), j, At(m3), j');
    assert m3 != ptr ==> Hop(h.mem, bs, j' - 1) && Hop(h4.mem, bs, j' - 1);
  }

  lemma BrokenMergeTurn(h: Heap, bs: seq<Block>, ptr: nat, n: nat, prev: Ptr, j: nat) returns (j': nat)
    requires Freed(bs, ptr, n) && j < |bs| && Broken(h, bs, ptr, prev, PtrAt(bs, j), j) && ptr + n == bs[j].start
    requires prev == At(ptr) || prev.frame + Count(h.mem, prev.frame) % WRAP >= ptr
    ensures var r := OneTurn(h, prev, bs[j].start, ptr, n);
            r.Go? ==> Broken(r.h, bs, ptr, r.prev, r.m, j') && Left(bs, ptr, r.prev, j') < Left(bs, ptr, prev, j)
  {
    hide Next, Count, Canonical, Broken, SpareFirst, Freed, MergeNext, MergePrev;
    j' := j + 1;
    var h3 := BrokenMerge(h, bs, ptr, n, prev, j);
    BrokenPrev(h, bs, ptr, n, prev, j);
    if prev != At(ptr) {
      BrokenEnd(h, h3, bs, ptr, n, prev, ptr, j, j + 1);
    } else if j + 1 < |bs| {
      j' := j + 2;
      BrokenEnd(h, h3, bs, ptr, n, prev, bs[j + 1].start, j, j + 2);
    }
  }

  lemma BrokenPrev(h: Heap, bs: seq<Block>, ptr: nat, n: nat, prev: Ptr, j: nat)
    requires Freed(bs, ptr, n) && Broken(h, bs, ptr, prev, PtrAt(bs, j), j)
    ensures prev.At? && (j < |bs| ==> bs[j].start != ptr) && (j + 1 < |bs| ==> bs[j + 1].start != ptr)
  {
    if j < |bs| {
      Distinct(bs, ptr, n, j);
    }
    if j + 1 < |bs| {
      Distinct(bs, ptr, n, j + 1);
    }
  }

  /** A broken pass stays broken, and comes closer to its end or crashes. */
  lemma BrokenTurn(h: Heap, bs: seq<Block>, ptr: nat, n: nat, prev: Ptr, j: nat) returns (j': nat)
    requires Freed(bs, ptr, n) && j < |bs| && Broken(h, bs, ptr, prev, PtrAt(bs, j), j)
    ensures var r := OneTurn(h, prev, bs[j].start, ptr, n);
            r.Go? ==> Broken(r.h, bs, ptr, r.prev, r.m, j') && Left(bs, ptr, r.prev, j') < Left(bs, ptr, prev, j)
  {
    hide Next, Count, Canonical, Broken, SpareFirst, Freed, MergePrev;
    BrokenPrev(h, bs, ptr, n, prev, j);
    if prev != At(ptr) && prev.frame + Count(h.mem, prev.frame) % WRAP < ptr {
      j' := j;
      BrokenInsert(h, bs, ptr, n, prev, j);
    } else if ptr + n == bs[j].start {
      j' := BrokenMergeTurn(h, bs, ptr, n, prev, j);
    } else {
      j' := j + 1;
      FreedSmall(bs, ptr, n);
      BrokenEnd2(h, bs, ptr, n, prev, j);
    }
  }

  lemma FreedSmall(bs: seq<Block>, ptr: nat, n: nat)
    requires Freed(bs, ptr, n)
    ensures 1 <= n < WRAP && n % WRAP == n
  {
  }

  lemma BrokenEnd2(h: Heap, bs: seq<Block>, ptr: nat, n: nat, prev: Ptr, j: nat)
    requires Freed(bs, ptr, n) && j < |bs| && Broken(h, bs, ptr, prev, PtrAt(bs, j), j)
    ensures var h4 := MergePrev(h, bs[j].start, ptr, n);
            Broken(h4, bs, ptr, At(bs[j].start), Next(h4.mem, bs[j].start), j + 1)
  {
    hide Next, Count, Broken, Freed;
    assert bs != [];
    SpareRefl(h, bs, j);
    BrokenEnd(h, h, bs, ptr, n, prev, bs[j].start, j, j + 1);
  }

  lemma SpareRefl(h: Heap, bs: seq<Block>, j: nat)
    requires bs != []
    ensures SpareFirst(h, h, bs, j)
  {
  }

  /** No canonical list with the right pages can be read from a spoiled heap. */
  lemma SpoiledIsWrong(h: Heap, bs: seq<Block>, ptr: nat, n: nat, list: seq<Block>)
    requires Freed(bs, ptr, n) && bs != [] && Spoiled(h, bs, ptr)
    requires Linked(h.mem, h.head, list) && Canonical(list)
    ensures exists f :: Listed(list, f) != (Listed(bs, f) || Covers(Block(ptr, n), f))
  {
    hide Next, Count;
    assert Node(h.mem, list, 0);
    assert Apart(list[0], list[1]);
    var f := bs[1].start;
    assert Sized(bs[1]) && Covers(bs[1], f) && Listed(bs, f);
    assert Apart(bs[0], bs[1]);
    forall i | 0 <= i < |list|
      ensures !Covers(list[i], f)
    {
      assert i > 1 ==> Apart(list[1], list[i]);
    }
  }

  /** A range that fills the gap between the first two blocks: it was merged with the first,
      and is now linked in again as the head of the second. */
  lemma BridgeTurn(h: Heap, bs: seq<Block>, ptr: nat, n: nat)
    requires Freed(bs, ptr, n) && InRam(h.mem, bs, ptr) && |bs| >= 2 && ptr + n == bs[1].start
    requires Linked(h.mem, h.head, Extended(bs, n)) && bs[0].start + bs[0].pages == ptr && bs[0].pages + n < WRAP
    ensures var r := OneTurn(h, At(bs[0].start), bs[1].start, ptr, n);
            r.Go? && Broken(r.h, bs, ptr, r.prev, r.m, 2)
  {
    hide Next, Count, MergeNext, Linked, Canonical;
    var h3 := BridgeMemory(h, bs, ptr, n);
    Distinct(bs, ptr, n, 0);
    MergePrevSpared(h3, bs, ptr, ptr, n, 2);
    StillBroken(h3, MergePrev(h3, ptr, ptr, n), bs, ptr, At(ptr), PtrAt(bs, 2), 2, At(ptr), 2);
  }

  /** The stores of "merge next block" when prev is another block. */
  lemma MergeStores(h: Heap, p: nat, m: nat, ptr: nat, n: nat) returns (h3: Heap)
    requires p in h.mem && m in h.mem && ptr in h.mem && p != m && p != ptr && m != ptr && ptr + n % WRAP == m
    requires Addressable(At(ptr)) && Addressable(Next(h.mem, m))
    ensures MergeNext(h, At(p), m, ptr, n) == (h3, At(ptr))
    ensures h3.head == h.head && h3.mem.Keys == h.mem.Keys
    ensures Next(h3.mem, p) == At(ptr) && Next(h3.mem, ptr) == Next(h.mem, m) && Count(h3.mem, p) == Count(h.mem, p)
    ensures forall g :: g in h.mem && g != p && g != ptr ==> Next(h3.mem, g) == Next(h.mem, g)
  {
    hide Next, Count, SetNext, SetCount;
    var m1 := SetNext(h.mem, p, At(ptr));
    SetNextView(h.mem, p, At(ptr));
    var m2 := SetNext(m1, ptr, Next(h.mem, m));
    SetNextView(m1, ptr, Next(h.mem, m));
    var c := n + Count(m2, m);
    SetCountView(m2, ptr, c);
    h3 := Heap(SetCount(m2, ptr, c), h.head);
  }

  lemma BridgeMemory(h: Heap, bs: seq<Block>, ptr: nat, n: nat) returns (h3: Heap)
    requires Freed(bs, ptr, n) && InRam(h.mem, bs, ptr) && |bs| >= 2 && ptr + n == bs[1].start
    requires Linked(h.mem, h.head, Extended(bs, n)) && bs[0].start + bs[0].pages == ptr && bs[0].pages + n < WRAP
    ensures InsertAfter(h, At(bs[0].start), bs[1].start, ptr, n) == (h, bs[1].start)
    ensures MergeNext(h, At(bs[0].start), bs[1].start, ptr, n) == (h3, At(ptr))
    ensures Next(h3.mem, ptr) == PtrAt(bs, 2) && Broken(h3, bs, ptr, At(ptr), PtrAt(bs, 2), 2)
  {
    hide Next, Count, Broken, Canonical, MergeNext, SetNext, SetCount;
    var list := Extended(bs, n);
    Distinct(bs, ptr, n, 0);
    Distinct(bs, ptr, n, 1);
    if |bs| > 2 {
      Distinct(bs, ptr, n, 2);
    }
    assert Node(h.mem, list, 0) && Node(h.mem, list, 1) && list[1] == bs[1];
    assert Count(h.mem, bs[0].start) == bs[0].pages + n;
    h3 := MergeStores(h, bs[0].start, bs[1].start, ptr, n);
    BridgeBroken(h, h3, bs, ptr, n);
  }

  lemma BridgeBroken(h: Heap, h3: Heap, bs: seq<Block>, ptr: nat, n: nat)
    requires Freed(bs, ptr, n) && |bs| >= 2 && InRam(h3.mem, bs, ptr) && h3.mem.Keys == h.mem.Keys && h3.head == h.head
    requires Linked(h.mem, h.head, Extended(bs, n)) && bs[0].start + bs[0].pages == ptr && bs[0].pages + n < WRAP
    requires Next(h3.mem, bs[0].start) == At(ptr) && Count(h3.mem, bs[0].start) == Count(h.mem, bs[0].start)
    requires forall g :: g in h.mem && g != ptr && g != bs[0].start ==> Next(h3.mem, g) == Next(h.mem, g)
    ensures Broken(h3, bs, ptr, At(ptr), PtrAt(bs, 2), 2)
  {
    hide Next, Count;
    var list := Extended(bs, n);
    assert Node(h.mem, list, 0);
    forall i | 2 <= i < |bs|
      ensures Hop(h3.mem, bs, i)
    {
      assert Node(h.mem, list, i) && list[i] == bs[i];
      Distinct(bs, ptr, n, i);
    }
  }

  /** A range linked in after the first block where it does not belong. */
  lemma MisplacedBroken(h: Heap, bs: seq<Block>, first: Block, ptr: nat, n: nat)
    requires Freed(bs, ptr, n) && InRam(h.mem, bs, ptr) && |bs| >= 2 && first.start == bs[0].start
    requires Linked(h.mem, h.head, [first, Block(ptr, n)] + bs[1..])
    requires first.start + first.pages >= ptr || (bs[1].start < ptr && first.pages == bs[0].pages)
    ensures Broken(h, bs, ptr, At(ptr), PtrAt(bs, 1), 1)
  {
    hide Next, Count;
    var list := [first, Block(ptr, n)] + bs[1..];
    assert Node(h.mem, list, 0);
    forall i | 1 <= i < |bs|
      ensures Hop(h.mem, bs, i)
    {
      assert Node(h.mem, list, i + 1) && list[i + 1] == bs[i];
    }
  }

  // ---- which lists are right ----------------------------------------------------------

  predicate Added(bs: seq<Block>, ptr: nat, n: nat, f: nat)
  {
    Listed(bs, f) || Covers(Block(ptr, n), f)
  }

  /** list is canonical and lists exactly the pages of bs and the freed range. */
  ghost predicate RightList(list: seq<Block>, bs: seq<Block>, ptr: nat, n: nat)
  {
    Canonical(list) && forall f :: Listed(list, f) <==> Added(bs, ptr, n, f)
  }

  lemma InsertedRight(bs: seq<Block>, k: nat, ptr: nat, n: nat)
    requires Freed(bs, ptr, n) && k <= |bs|
    requires k > 0 ==> bs[k - 1].start + bs[k - 1].pages < ptr
    requires k < |bs| ==> ptr + n < bs[k].start
    ensures RightList(Inserted(bs, k, ptr, n), bs, ptr, n)
  {
    hide Canonical, Listed;
    InsertedCanonical(bs, k, ptr, n);
    forall f
      ensures Listed(Inserted(bs, k, ptr, n), f) <==> Added(bs, ptr, n, f)
    {
      ListedSplit(bs[..k], Block(ptr, n), bs[k..], f);
      ListedConcat(bs[..k], bs[k..], f);
      assert bs == bs[..k] + bs[k..];
    }
  }

  lemma InsertedCanonical(bs: seq<Block>, k: nat, ptr: nat, n: nat)
    requires Freed(bs, ptr, n) && k <= |bs|
    requires k > 0 ==> bs[k - 1].start + bs[k - 1].pages < ptr
    requires k < |bs| ==> ptr + n < bs[k].start
    ensures Canonical(Inserted(bs, k, ptr, n))
  {
    var list := Inserted(bs, k, ptr, n);
    assert Sized(list[k]);
    forall i | 0 <= i < |list| && i != k
      ensures list[i] == bs[if i < k then i else i - 1] && Sized(list[i])
    {
      assert Sized(bs[if i < k then i else i - 1]);
    }
    forall i, j | 0 <= i < j < |list|
      ensures Apart(list[i], list[j])
    {
      var i', j' := if i < k then i else i - 1, if j < k then j else j - 1;
      assert i != k && j != k ==> Apart(bs[i'], bs[j']);
      assert j == k && i < k - 1 ==> Apart(bs[i], bs[k - 1]);
      assert i == k && j > k + 1 ==> Apart(bs[k], bs[j - 1]);
    }
  }

  lemma MergedRight(bs: seq<Block>, k: nat, ptr: nat, n: nat)
    requires Freed(bs, ptr, n) && k < |bs| && ptr + n == bs[k].start && n + bs[k].pages < TWO32
    requires k > 0 ==> bs[k - 1].start + bs[k - 1].pages < ptr
    ensures RightList(MergedNext(bs, k, ptr, n), bs, ptr, n)
  {
    hide Canonical, Listed, Freed;
    MergedCanonical(bs, k, ptr, n);
    var b := Block(ptr, n + bs[k].pages);
    forall f
      ensures Listed(MergedNext(bs, k, ptr, n), f) <==> Added(bs, ptr, n, f)
    {
      ListedSplit(bs[..k], b, bs[k + 1..], f);
      ListedSplit(bs[..k], bs[k], bs[k + 1..], f);
      assert bs == bs[..k] + [bs[k]] + bs[k + 1..];
    }
  }

  lemma MergedCanonical(bs: seq<Block>, k: nat, ptr: nat, n: nat)
    requires Freed(bs, ptr, n) && k < |bs| && ptr + n == bs[k].start && n + bs[k].pages < TWO32
    requires k > 0 ==> bs[k - 1].start + bs[k - 1].pages < ptr
    ensures Canonical(MergedNext(bs, k, ptr, n))
  {
    var list := MergedNext(bs, k, ptr, n);
    assert Sized(bs[k]) && list[k] == Block(ptr, n + bs[k].pages);
    assert forall i :: 0 <= i < |list| && i != k ==> list[i] == bs[i];
    forall i, j | 0 <= i < j < |list|
      ensures Apart(list[i], list[j])
    {
      assert Apart(bs[i], bs[j]);
      assert j == k && i < k - 1 ==> Apart(bs[i], bs[k - 1]);
    }
  }

  /** The page count of the merged block overflows 32 bits: its last page is lost. */
  lemma MergedWrong(bs: seq<Block>, k: nat, ptr: nat, n: nat)
    requires Freed(bs, ptr, n) && k < |bs| && ptr + n == bs[k].start && n + bs[k].pages >= TWO32
    ensures !RightList(MergedNext(bs, k, ptr, n), bs, ptr, n)
  {
    var list, f := MergedNext(bs, k, ptr, n), bs[k].start + bs[k].pages - 1;
    assert Sized(bs[k]) && Covers(bs[k], f) && Added(bs, ptr, n, f);
    forall i | 0 <= i < |list|
      ensures !Covers(list[i], f)
    {
      if i != k {
        assert list[i] == bs[i];
        assert if i < k then Apart(bs[i], bs[k]) else Apart(bs[k], bs[i]);
      }
    }
  }

  lemma ExtendedRight(bs: seq<Block>, ptr: nat, n: nat)
    requires Freed(bs, ptr, n) && bs != [] && bs[0].start + bs[0].pages == ptr && bs[0].pages + n < TWO32
    requires |bs| > 1 ==> ptr + n < bs[1].start
    ensures RightList(Extended(bs, n), bs, ptr, n)
  {
    var list, b := Extended(bs, n), Block(bs[0].start, bs[0].pages + n);
    forall i | 0 <= i < |list|
      ensures Sized(list[i])
    {
      assert Sized(bs[i]);
    }
    forall i, j | 0 <= i < j < |list|
      ensures Apart(list[i], list[j])
    {
      assert Apart(bs[i], bs[j]);
      assert i == 0 && j > 1 ==> Apart(bs[1], bs[j]);
    }
    forall f
      ensures Listed(list, f) <==> Added(bs, ptr, n, f)
    {
      ListedSplit([], b, bs[1..], f);
      ListedSplit([], bs[0], bs[1..], f);
      assert [] + [b] + bs[1..] == list && [] + [bs[0]] + bs[1..] == bs;
    }
  }

  lemma UnchangedWrong(bs: seq<Block>, ptr: nat, n: nat)
    requires Freed(bs, ptr, n)
    ensures !RightList(bs, bs, ptr, n)
  {
    assert Added(bs, ptr, n, ptr);
    forall i | 0 <= i < |bs|
      ensures !Covers(bs[i], ptr)
    {
      assert Sized(bs[i]);
    }
  }

  // ---- the exact condition ------------------------------------------------------------

  /** The ranges that `free_mem` returns to the list correctly.  The list must not be empty.
      Before the first block: merging with it needs a block behind it.  Between the first and
      the second block: the range may touch one of the two but not both, touching the first
      needs a merged size below 2^20 pages, touching the second needs a third block; a range
      behind the only block must touch it.  Never behind the second block. */
  predicate Restores(bs: seq<Block>, ptr: nat, n: nat)
  {
    && bs != []
    && if ptr < bs[0].start then
         ptr + n == bs[0].start ==> |bs| > 1 && n + bs[0].pages < TWO32
       else if |bs| == 1 || ptr < bs[1].start then
         if bs[0].start + bs[0].pages == ptr then
           bs[0].pages < WRAP && (|bs| == 1 || (bs[0].pages + n < WRAP && ptr + n != bs[1].start))
         else
           |bs| > 1 && (ptr + n == bs[1].start ==> |bs| > 2 && n + bs[1].pages < TWO32)
       else false
  }

  /** Where a pass stands. */
  datatype Mode =
    | Begin
    | Past
    | Merging(k: nat)
    | Settled(list: seq<Block>, idx: nat)
    | Lost(j: nat)

  ghost predicate Holds(mode: Mode, h: Heap, bs: seq<Block>, ptr: nat, n: nat, prev: Ptr, m: Ptr)
  {
    match mode
    case Begin => Linked(h.mem, h.head, bs) && prev == Null && m == PtrAt(bs, 0)
    case Past =>
      && bs != [] && bs[0].start < ptr && prev == At(bs[0].start) && m == PtrAt(bs, 1)
      && Linked(h.mem, h.head, AfterFirst(bs, ptr, n))
    case Merging(k) =>
      && k < |bs| && k <= 1 && ptr + n == bs[k].start && (k == 1 ==> bs[0].start + bs[0].pages < ptr)
      && prev == At(ptr) && m == PtrAt(bs, k) && Linked(h.mem, h.head, Inserted(bs, k, ptr, n))
    case Settled(list, idx) =>
      && Linked(h.mem, h.head, list) && Quiet(list, idx, ptr, n) && |list| <= |bs| + 1
      && prev == At(list[idx - 1].start) && m == PtrAt(list, idx)
      && (Restores(bs, ptr, n) <==> RightList(list, bs, ptr, n))
    case Lost(j) => !Restores(bs, ptr, n) && Broken(h, bs, ptr, prev, m, j)
  }

  function Rank(mode: Mode, bs: seq<Block>, ptr: nat, prev: Ptr): int
  {
    match mode
    case Begin => 2 * |bs| + 9
    case Past => 2 * |bs| + 8
    case Merging(_) => 2 * |bs| + 7
    case Settled(list, idx) => |list| - idx
    case Lost(j) => Left(bs, ptr, prev, j)
  }

  lemma BeginMode(h: Heap, bs: seq<Block>, ptr: nat, n: nat) returns (mode: Mode)
    requires Freed(bs, ptr, n) && InRam(h.mem, bs, ptr) && bs != [] && Linked(h.mem, h.head, bs)
    ensures var r := OneTurn(h, Null, bs[0].start, ptr, n);
            && r.Go? && r.h.mem.Keys == h.mem.Keys && Holds(mode, r.h, bs, ptr, n, r.prev, r.m)
            && Rank(mode, bs, ptr, r.prev) < Rank(Begin, bs, ptr, Null)
  {
    hide OneTurn, Linked, Canonical;
    Distinct(bs, ptr, n, 0);
    if bs[0].start < ptr {
      PastFirstTurn(h, bs, ptr, n);
      mode := Past;
    } else {
      FrontTurn(h, bs, ptr, n);
      if ptr + n == bs[0].start {
        mode := Merging(0);
      } else {
        mode := Settled(Inserted(bs, 0, ptr, n), 1);
        InsertedQuiet(bs, 0, ptr, n);
        InsertedRight(bs, 0, ptr, n);
      }
    }
  }

  lemma MergingMode(h: Heap, bs: seq<Block>, ptr: nat, n: nat, k: nat) returns (mode: Mode)
    requires Freed(bs, ptr, n) && InRam(h.mem, bs, ptr) && Holds(Merging(k), h, bs, ptr, n, At(ptr), PtrAt(bs, k))
    ensures var r := OneTurn(h, At(ptr), bs[k].start, ptr, n);
            && (r.Crash? ==> !Restores(bs, ptr, n))
            && (r.Go? ==> r.h.mem.Keys == h.mem.Keys && Holds(mode, r.h, bs, ptr, n, r.prev, r.m)
                          && Rank(mode, bs, ptr, r.prev) < Rank(Merging(k), bs, ptr, At(ptr)))
  {
    hide OneTurn, Linked, Canonical;
    mode := Begin;
    MergeTurn(h, bs, k, ptr, n);
    if k + 1 < |bs| {
      mode := Settled(MergedNext(bs, k, ptr, n), k + 2);
      MergedQuiet(bs, k, ptr, n);
      assert MergedNext(bs, k, ptr, n)[k + 1] == bs[k + 1];
      if n + bs[k].pages < TWO32 {
        MergedRight(bs, k, ptr, n);
      } else {
        MergedWrong(bs, k, ptr, n);
      }
    }
  }

  /** Merged with the first block by the turn before. */
  lemma ExtendedMode(h: Heap, bs: seq<Block>, ptr: nat, n: nat) returns (mode: Mode)
    requires Freed(bs, ptr, n) && InRam(h.mem, bs, ptr) && |bs| >= 2 && TouchesFirst(bs, ptr)
    requires Linked(h.mem, h.head, Extended(bs, n)) && bs[0].start + bs[0].pages == ptr && bs[0].pages < WRAP
    ensures var r := OneTurn(h, At(bs[0].start), bs[1].start, ptr, n);
            && r.Go? && InRam(r.h.mem, bs, ptr) && Holds(mode, r.h, bs, ptr, n, r.prev, r.m)
            && Rank(mode, bs, ptr, r.prev) < Rank(Past, bs, ptr, At(bs[0].start))
  {
    hide OneTurn, Linked, Canonical, Spoiled, Hop;
    var list, c := Extended(bs, n), bs[0].pages + n;
    Distinct(bs, ptr, n, 1);
    assert Apart(bs[0], bs[1]) by { FirstTwo(bs); }
    assert list[0].pages == c && list[1..] == bs[1..];
    if c >= WRAP {
      SecondTurnInserts(h, bs, list, ptr, n);
      MisplacedBroken(OneTurn(h, At(bs[0].start), bs[1].start, ptr, n).h, bs, list[0], ptr, n);
      mode := Lost(1);
    } else if ptr + n == bs[1].start {
      BridgeTurn(h, bs, ptr, n);
      mode := Lost(2);
    } else {
      ExtendedQuiet(bs, ptr, n);
      QuietTurn(h, list, 1, ptr, n);
      ExtendedRight(bs, ptr, n);
      mode := Settled(list, 2);
    }
  }

  lemma FirstTwo(bs: seq<Block>)
    requires Canonical(bs) && |bs| >= 2
    ensures Apart(bs[0], bs[1])
  {
  }

  lemma ExtendedQuiet(bs: seq<Block>, ptr: nat, n: nat)
    requires Freed(bs, ptr, n) && |bs| >= 2 && bs[0].start + bs[0].pages == ptr && bs[0].pages + n < WRAP
    requires ptr + n != bs[1].start
    ensures Quiet(Extended(bs, n), 1, ptr, n)
  {
    forall i | 1 <= i < |bs|
      ensures bs[i].start > ptr && bs[i].start != ptr + n
    {
      assert Apart(bs[0], bs[i]);
      assert i > 1 ==> Apart(bs[1], bs[i]);
    }
  }

  lemma PastMode(h: Heap, bs: seq<Block>, ptr: nat, n: nat) returns (mode: Mode)
    requires Freed(bs, ptr, n) && InRam(h.mem, bs, ptr) && |bs| >= 2
    requires Holds(Past, h, bs, ptr, n, At(bs[0].start), PtrAt(bs, 1))
    ensures var r := OneTurn(h, At(bs[0].start), bs[1].start, ptr, n);
            && r.Go? && InRam(r.h.mem, bs, ptr) && Holds(mode, r.h, bs, ptr, n, r.prev, r.m)
            && Rank(mode, bs, ptr, r.prev) < Rank(Past, bs, ptr, At(bs[0].start))
  {
    hide OneTurn, Linked, Canonical, Spoiled, Hop;
    Distinct(bs, ptr, n, 1);
    if TouchesFirst(bs, ptr) {
      mode := ExtendedMode(h, bs, ptr, n);
      return;
    }
    assert Apart(bs[0], bs[1]) by { FirstTwo(bs); }
    SecondTurnInserts(h, bs, bs, ptr, n);
    var r := OneTurn(h, At(bs[0].start), bs[1].start, ptr, n);
    assert [bs[0], Block(ptr, n)] + bs[1..] == Inserted(bs, 1, ptr, n);
    if bs[0].start + bs[0].pages == ptr || bs[1].start < ptr {
      MisplacedBroken(r.h, bs, bs[0], ptr, n);
      mode := Lost(1);
    } else if ptr + n == bs[1].start {
      mode := Merging(1);
    } else {
      InsertedQuiet(bs, 1, ptr, n);
      InsertedRight(bs, 1, ptr, n);
      mode := Settled(Inserted(bs, 1, ptr, n), 2);
    }
  }

  /** Every turn keeps the account of the pass and brings it closer to its end; a crash only
      happens where `Restores` does not hold. */
  lemma ModeTurn(mode: Mode, h: Heap, bs: seq<Block>, ptr: nat, n: nat, prev: Ptr, m: nat) returns (mode': Mode)
    requires Freed(bs, ptr, n) && InRam(h.mem, bs, ptr) && Holds(mode, h, bs, ptr, n, prev, At(m))
    ensures var r := OneTurn(h, prev, m, ptr, n);
            && (r.Crash? ==> !Restores(bs, ptr, n))
            && (r.Go? ==> InRam(r.h.mem, bs, ptr) && Holds(mode', r.h, bs, ptr, n, r.prev, r.m)
                          && 0 <= Rank(mode', bs, ptr, r.prev) < Rank(mode, bs, ptr, prev))
  {
    hide OneTurn, Linked, Restores, RightList, Canonical, Spoiled, Hop;
    match mode
    case Begin => mode' := BeginMode(h, bs, ptr, n);
    case Past => mode' := PastMode(h, bs, ptr, n);
    case Merging(k) => mode' := MergingMode(h, bs, ptr, n, k);
    case Settled(list, idx) =>
      QuietTurn(h, list, idx, ptr, n);
      mode' := Settled(list, idx + 1);
    case Lost(j) =>
      var j' := BrokenTurn(h, bs, ptr, n, prev, j);
      mode' := Lost(j');
  }

  // ---- the end of a pass ----------------------------------------------------------------

  /** A heap spells out one list only. */
  lemma {:induction false} LinkedUnique(mem: Memory, head: Ptr, a: seq<Block>, b: seq<Block>, i: nat)
    requires Linked(mem, head, a) && Linked(mem, head, b) && i <= |a| && i <= |b|
    requires PtrAt(a, i) == PtrAt(b, i)
    ensures a[i..] == b[i..]
    decreases |a| - i
  {
    hide Next, Count;
    if i < |a| {
      assert Node(mem, a, i) && Node(mem, b, i);
      LinkedUnique(mem, head, a, b, i + 1);
      assert a[i] == b[i];
      assert a[i..] == [a[i]] + a[i + 1..] && b[i..] == [b[i]] + b[i + 1..];
    }
  }

  /** The heap holds a canonical list of the old pages and the freed range. */
  ghost predicate Right(h: Heap, bs: seq<Block>, ptr: nat, n: nat)
  {
    exists list :: Linked(h.mem, h.head, list) && RightList(list, bs, ptr, n)
  }

  lemma RightIff(h: Heap, bs: seq<Block>, ptr: nat, n: nat, list: seq<Block>)
    requires Linked(h.mem, h.head, list)
    ensures Right(h, bs, ptr, n) <==> RightList(list, bs, ptr, n)
  {
    hide Linked, RightList;
    if Right(h, bs, ptr, n) {
      var other :| Linked(h.mem, h.head, other) && RightList(other, bs, ptr, n);
      assert PtrAt(other, 0) == PtrAt(list, 0) by { HeadOf(h, other); HeadOf(h, list); }
      LinkedUnique(h.mem, h.head, list, other, 0);
      assert list == list[0..] && other == other[0..];
    }
  }

  lemma HeadOf(h: Heap, list: seq<Block>)
    requires Linked(h.mem, h.head, list)
    ensures h.head == PtrAt(list, 0)
  {
  }

  /** At the end of a pass the heap is right exactly if `Restores` held at its start. */
  lemma PassVerdict(mode: Mode, h: Heap, bs: seq<Block>, ptr: nat, n: nat, prev: Ptr) returns (list: seq<Block>)
    requires Freed(bs, ptr, n) && Holds(mode, h, bs, ptr, n, prev, Null)
    ensures Restores(bs, ptr, n) <==> Right(h, bs, ptr, n)
    ensures Restores(bs, ptr, n) ==> Linked(h.mem, h.head, list) && RightList(list, bs, ptr, n)
  {
    hide Linked, Canonical, Listed, Hop;
    list := bs;
    match mode
    case Begin =>
      UnchangedWrong(bs, ptr, n);
      RightIff(h, bs, ptr, n, bs);
    case Past =>
      list := AfterFirst(bs, ptr, n);
      RightIff(h, bs, ptr, n, list);
      Distinct(bs, ptr, n, 0);
      if TouchesFirst(bs, ptr) {
        ExtendedRight(bs, ptr, n);
      } else {
        UnchangedWrong(bs, ptr, n);
      }
    case Merging(k) =>
    case Settled(final, idx) =>
      list := final;
      RightIff(h, bs, ptr, n, final);
    case Lost(j) =>
      forall other | Linked(h.mem, h.head, other)
        ensures !RightList(other, bs, ptr, n)
      {
        if Canonical(other) {
          SpoiledIsWrong(h, bs, ptr, n, other);
        }
      }
  }

  /** The two insertions of the loop body. */
  method InsertStep(a: Allocator, prev: Ptr, m: nat, ptr: nat, pages: nat) returns (cur: nat)
    modifies a
    ensures a.free == old(a.free)
    ensures var (h1, m1) := InsertFront(Heap(old(a.mem), old(a.head)), prev, m, ptr, pages);
            InsertAfter(h1, prev, m1, ptr, pages) == (Heap(a.mem, a.head), cur)
  {
    hide Next, Count, SetNext, SetCount;
    cur := m;
    // not merged any block (before all memlists)
    if prev.Null? && ptr < cur {
      a.SetNextOf(prev, At(ptr));
      a.mem := SetNext(a.mem, ptr, At(cur));
      a.mem := SetCount(a.mem, ptr, pages);
      cur := ptr;
    }
    // not merged any block
    if prev.At? && prev.frame + Count(a.mem, prev.frame) % WRAP < ptr {
      a.mem := SetNext(a.mem, ptr, Next(a.mem, prev.frame));
      a.SetNextOf(prev, At(ptr));
      a.mem := SetCount(a.mem, ptr, pages);
      cur := ptr;
    }
  }

  /** The two merges of the loop body; `crashed` reports the NULL dereference at line 83. */
  method MergeStep(a: Allocator, prev: Ptr, cur: nat, ptr: nat, pages: nat) returns (crashed: bool, m: Ptr)
    modifies a
    ensures a.free == old(a.free)
    ensures var (h3, m3) := MergeNext(Heap(old(a.mem), old(a.head)), prev, cur, ptr, pages);
            && crashed == m3.Null? && m == m3
            && (m3.At? ==> MergePrev(h3, m3.frame, ptr, pages) == Heap(a.mem, a.head))
  {
    hide Next, Count, SetNext, SetCount;
    m := At(cur);
    // merge next block
    if ptr + pages % WRAP == cur {
      a.SetNextOf(prev, At(ptr));
      a.mem := SetNext(a.mem, ptr, Next(a.mem, cur));
      a.mem := SetCount(a.mem, ptr, pages + Count(a.mem, cur));
      m := if prev.Null? then a.head else Next(a.mem, prev.frame);
    }
    crashed := m.Null?;
    // merge prev block
    if m.At? && m.frame + Count(a.mem, m.frame) % WRAP == ptr {
      a.mem := SetCount(a.mem, m.frame, Count(a.mem, m.frame) + pages);
    }
  }

  /** `free_mem(ptr, pages)`: it returns the range to the list correctly exactly if `Restores`
      holds; otherwise it crashes or leaves a list that is out of order, uncoalesced or has
      the wrong pages.  A crash is the NULL dereference at line 83, before init_interrupt; with
      the page fault handler in place it reads a fresh zero page at address 0 instead and the
      pass goes on, outside this model. */
  method FreeMem(a: Allocator, ptr: nat, pages: nat) returns (crashed: bool)
    requires a.Valid() && Freed(a.free, ptr, pages)
    requires forall f :: ptr <= f < ptr + pages ==> f in a.mem
    modifies a
    ensures Restores(old(a.free), ptr, pages) <==> !crashed && Right(Heap(a.mem, a.head), old(a.free), ptr, pages)
    ensures Restores(old(a.free), ptr, pages) ==> a.Valid() && RightList(a.free, old(a.free), ptr, pages)
  {
    hide Holds, Rank, Restores, Linked, Canonical, Listed, RightList, Right, InsertFront, InsertAfter, MergeNext;
    hide MergePrev, Next;
    var prev, m := Null, a.head;
    ghost var mode := Begin;
    ghost var bs := a.free;
    FreedStart(bs, ptr, pages);
    StartOf(a.mem, a.head, bs, ptr, pages);
    while m.At?
      invariant a.free == bs && InRam(a.mem, bs, ptr) && a.mem.Keys == old(a.mem).Keys
      invariant Holds(mode, Heap(a.mem, a.head), bs, ptr, pages, prev, m)
      invariant 0 <= Rank(mode, bs, ptr, prev)
      decreases Rank(mode, bs, ptr, prev)
    {
      ghost var turn := OneTurn(Heap(a.mem, a.head), prev, m.frame, ptr, pages);
      TurnKeys(Heap(a.mem, a.head), prev, m.frame, ptr, pages);
      mode := ModeTurn(mode, Heap(a.mem, a.head), bs, ptr, pages, prev, m.frame);
      var cur := InsertStep(a, prev, m.frame, ptr, pages);
      crashed, m := MergeStep(a, prev, cur, ptr, pages);
      if crashed {
        return;
      }
      prev, m := m, Next(a.mem, m.frame);
      assert turn == Go(Heap(a.mem, a.head), prev, m);
    }
    crashed := false;
    ghost var list := PassVerdict(mode, Heap(a.mem, a.head), bs, ptr, pages, prev);
    if Restores(bs, ptr, pages) {
      a.free := list;
      ListInRam(old(a.mem), old(a.head), bs, a.mem, a.head, list, ptr, pages);
    }
  }

  lemma TurnKeys(h: Heap, prev: Ptr, m: nat, ptr: nat, n: nat)
    ensures var r := OneTurn(h, prev, m, ptr, n);
            r.Go? ==> r.h.mem.Keys == h.mem.Keys
  {
    hide Next, Count, SetNext, SetCount;
  }

  lemma FreedStart(bs: seq<Block>, ptr: nat, n: nat)
    requires Freed(bs, ptr, n)
    ensures Covers(Block(ptr, n), ptr)
  {
  }

  lemma StartOf(mem: Memory, head: Ptr, bs: seq<Block>, ptr: nat, n: nat)
    requires FreeListOk(mem, head, bs) && ptr in mem
    ensures InRam(mem, bs, ptr) && Holds(Begin, Heap(mem, head), bs, ptr, n, Null, head)
    ensures 0 <= Rank(Begin, bs, ptr, Null)
  {
    hide Next, Count;
    forall i | 0 <= i < |bs|
      ensures bs[i].start in mem
    {
      assert Node(mem, bs, i);
    }
  }

  lemma ListInRam(mem: Memory, head: Ptr, bs: seq<Block>, mem': Memory, head': Ptr, list: seq<Block>, ptr: nat, n: nat)
    requires FreeListOk(mem, head, bs) && mem'.Keys == mem.Keys && Linked(mem', head', list)
    requires RightList(list, bs, ptr, n) && forall f :: ptr <= f < ptr + n ==> f in mem
    ensures FreeListOk(mem', head', list)
  {
    hide Listed;
  }

  // ---- freeing what was allocated -------------------------------------------------------

  /** The first block of a canonical list is determined by the pages it lists. */
  lemma FirstBlockUnique(a: seq<Block>, b: seq<Block>)
    requires Canonical(a) && Canonical(b) && a != [] && forall f :: Listed(a, f) <==> Listed(b, f)
    ensures b != [] && a[0].start == b[0].start && a[0].pages <= b[0].pages
  {
    assert Sized(a[0]) && Covers(a[0], a[0].start);
    FirstLowest(a, b);
    assert Sized(b[0]) && Covers(b[0], b[0].start);
    FirstLowest(b, a);
    assert b[0].pages < a[0].pages ==> Covers(a[0], b[0].start + b[0].pages);
    FirstEnd(b);
  }

  lemma FirstLowest(a: seq<Block>, b: seq<Block>)
    requires Canonical(a) && Canonical(b) && a != [] && Listed(b, a[0].start)
    ensures b != [] && b[0].start <= a[0].start
  {
    var j :| 0 <= j < |b| && Covers(b[j], a[0].start);
    assert j > 0 ==> Apart(b[0], b[j]);
  }

  /** The page behind the first block is not listed. */
  lemma FirstEnd(b: seq<Block>)
    requires Canonical(b) && b != []
    ensures !Listed(b, b[0].start + b[0].pages)
  {
    forall i | 0 <= i < |b|
      ensures !Covers(b[i], b[0].start + b[0].pages)
    {
      assert i > 0 ==> Apart(b[0], b[i]);
    }
  }

  lemma TailListed(a: seq<Block>, f: nat)
    requires Canonical(a) && a != []
    ensures Canonical(a[1..]) && (Listed(a[1..], f) <==> Listed(a, f) && !Covers(a[0], f))
  {
    assert a == [a[0]] + a[1..];
    ListedConcat([a[0]], a[1..], f);
    assert Listed([a[0]], f) <==> Covers([a[0]][0], f);
    NotListedAround(a, 0, f);
  }

  /** A canonical list is determined by the set of pages it lists. */
  lemma {:induction false} CanonicalUnique(a: seq<Block>, b: seq<Block>)
    requires Canonical(a) && Canonical(b) && forall f :: Listed(a, f) <==> Listed(b, f)
    ensures a == b
    decreases |a|
  {
    if a != [] {
      FirstBlockUnique(a, b);
      FirstBlockUnique(b, a);
      forall f
        ensures Listed(a[1..], f) <==> Listed(b[1..], f)
      {
        TailListed(a, f);
        TailListed(b, f);
      }
      TailListed(a, 0);
      TailListed(b, 0);
      CanonicalUnique(a[1..], b[1..]);
      assert a == [a[0]] + a[1..] && b == [b[0]] + b[1..];
    } else if b != [] {
      FirstBlockUnique(b, a);
    }
  }

  /** Freeing what alloc_mem(n) just returned gives back the old list exactly if the request
      was served from the first or second block and another block follows that one. */
  lemma AllocFreeRoundTrip(bs: seq<Block>, n: nat)
    requires Canonical(bs) && 1 <= n < WRAP && FirstFit(bs, n) < |bs|
    ensures var k := FirstFit(bs, n);
            && Freed(AllocBlocks(bs, n), bs[k].start, n)
            && (Restores(AllocBlocks(bs, n), bs[k].start, n) <==> k <= 1 && k + 1 < |bs|)
            && forall list :: RightList(list, AllocBlocks(bs, n), bs[k].start, n) ==> list == bs
  {
    hide FirstFit, Listed;
    var k, bs' := FirstFit(bs, n), AllocBlocks(bs, n);
    AllocCanonical(bs, n);
    assert Sized(bs[k]);
    var shift := |bs| - |bs'|;
    forall i | 0 <= i < |bs'|
      ensures bs'[i].start + bs'[i].pages <= bs[k].start || bs[k].start + n <= bs'[i].start
    {
      assert i < k ==> bs'[i] == bs[i] && Apart(bs[i], bs[k]);
      assert i + shift > k ==> bs'[i] == bs[i + shift] && Apart(bs[k], bs[i + shift]);
    }
    RoundTripRestores(bs, n, k);
    forall list | RightList(list, bs', bs[k].start, n)
      ensures list == bs
    {
      forall f
        ensures Listed(list, f) <==> Listed(bs, f)
      {
        AllocConserves(bs, n, f);
        assert Listed(list, f) <==> Added(bs', bs[k].start, n, f);
      }
      CanonicalUnique(list, bs);
    }
  }

  lemma RoundTripRestores(bs: seq<Block>, n: nat, k: nat)
    requires Canonical(bs) && 1 <= n < WRAP && k == FirstFit(bs, n) < |bs|
    ensures Restores(AllocBlocks(bs, n), bs[k].start, n) <==> k <= 1 && k + 1 < |bs|
  {
    hide FirstFit;
    var bs' := AllocBlocks(bs, n);
    assert Sized(bs[k]);
    assert k + 1 < |bs| ==> Apart(bs[k], bs[k + 1]);
    assert k > 0 ==> Apart(bs[0], bs[k]) && bs'[0] == bs[0];
    assert k > 1 ==> Apart(bs[1], bs[k]) && bs'[1] == bs[1] && Sized(bs[1]);
    if bs[k].pages == n {
      assert k + 1 < |bs| ==> bs'[k] == bs[k + 1];
    }
  }

  // ---- runs of alloc_mem and free_mem -----------------------------------------------------

  /** The list that `free_mem` leaves when `Restores` holds. */
  ghost function GivenBack(bs: seq<Block>, ptr: nat, n: nat): (list: seq<Block>)
    requires Freed(bs, ptr, n) && Restores(bs, ptr, n)
    ensures RightList(list, bs, ptr, n)
  {
    if ptr < bs[0].start then
      if ptr + n == bs[0].start then
        MergedRight(bs, 0, ptr, n);
        MergedNext(bs, 0, ptr, n)
      else
        InsertedRight(bs, 0, ptr, n);
        Inserted(bs, 0, ptr, n)
    else if bs[0].start + bs[0].pages == ptr then
      ExtendedRight(bs, ptr, n);
      Extended(bs, n)
    else if ptr + n == bs[1].start then
      MergedRight(bs, 1, ptr, n);
      MergedNext(bs, 1, ptr, n)
    else
      InsertedRight(bs, 1, ptr, n);
      Inserted(bs, 1, ptr, n)
  }

  /** It is the only right one, so the one that `FreeMem` ends with. */
  lemma GivenBackUnique(bs: seq<Block>, ptr: nat, n: nat, list: seq<Block>)
    requires Freed(bs, ptr, n) && Restores(bs, ptr, n) && RightList(list, bs, ptr, n)
    ensures list == GivenBack(bs, ptr, n)
  {
    hide Canonical, Listed;
    CanonicalUnique(list, GivenBack(bs, ptr, n));
  }

  datatype Request = Take(pages: nat) | Give(ptr: nat, pages: nat)

  /** The pages held after a request, by whoever asked for them. */
  function HeldAfter(bs: seq<Block>, held: set<nat>, r: Request): set<nat>
  {
    match r
    case Take(n) => if AllocPtr(bs, n).At? then held + Frames(AllocPtr(bs, n).frame, n) else held
    case Give(ptr, n) => held - Frames(ptr, n)
  }

  /** Requests of fewer than 2^20 pages; what is given back is held, and `Restores` holds. */
  ghost predicate Allowed(bs: seq<Block>, held: set<nat>, r: Request)
  {
    match r
    case Take(n) => n < WRAP
    case Give(ptr, n) => Freed(bs, ptr, n) && Restores(bs, ptr, n) && Frames(ptr, n) <= held
  }

  ghost function ListAfter(bs: seq<Block>, held: set<nat>, r: Request): seq<Block>
    requires Allowed(bs, held, r)
  {
    match r
    case Take(n) => AllocBlocks(bs, n)
    case Give(ptr, n) => GivenBack(bs, ptr, n)
  }

  ghost predicate AllAllowed(bs: seq<Block>, held: set<nat>, rs: seq<Request>)
    decreases |rs|
  {
    rs == [] || (Allowed(bs, held, rs[0])
                 && AllAllowed(ListAfter(bs, held, rs[0]), HeldAfter(bs, held, rs[0]), rs[1..]))
  }

  ghost function AfterAll(bs: seq<Block>, held: set<nat>, rs: seq<Request>): (seq<Block>, set<nat>)
    requires AllAllowed(bs, held, rs)
    decreases |rs|
  {
    if rs == [] then (bs, held)
    else AfterAll(ListAfter(bs, held, rs[0]), HeldAfter(bs, held, rs[0]), rs[1..])
  }

  /** Each page is listed or held, and never both. */
  ghost predicate Accounted(bs: seq<Block>, held: set<nat>, all: iset<nat>)
  {
    && Canonical(bs)
    && forall f: nat :: (f in all <==> Listed(bs, f) || f in held) && !(Listed(bs, f) && f in held)
  }

  lemma RequestAccounts(bs: seq<Block>, held: set<nat>, r: Request, all: iset<nat>)
    requires Accounted(bs, held, all) && Allowed(bs, held, r)
    ensures Accounted(ListAfter(bs, held, r), HeldAfter(bs, held, r), all)
  {
    hide Canonical, Listed, FirstFit, AllocBlocks, Restores;
    match r
    case Take(n) =>
      AllocCanonical(bs, n);
      forall f: nat
        ensures Listed(bs, f) <==> Listed(AllocBlocks(bs, n), f) || Handed(bs, n, f)
        ensures !(Listed(AllocBlocks(bs, n), f) && Handed(bs, n, f))
        ensures Handed(bs, n, f) <==> AllocPtr(bs, n).At? && f in Frames(AllocPtr(bs, n).frame, n)
      {
        AllocConserves(bs, n, f);
      }
    case Give(ptr, n) =>
      var list := GivenBack(bs, ptr, n);
      forall f: nat
        ensures Listed(list, f) <==> Listed(bs, f) || f in Frames(ptr, n)
      {
        assert Listed(list, f) <==> Added(bs, ptr, n, f);
      }
  }

  /** Over every run of requests, with pages given back in any order that `Restores` allows, the list
      stays canonical and each page of the start is listed or held, never both. */
  lemma {:induction false} RequestsConserve(bs: seq<Block>, held: set<nat>, rs: seq<Request>, all: iset<nat>)
    requires Accounted(bs, held, all) && AllAllowed(bs, held, rs)
    ensures Accounted(AfterAll(bs, held, rs).0, AfterAll(bs, held, rs).1, all)
    decreases |rs|
  {
    hide Accounted, Allowed, ListAfter, HeldAfter;
    if rs != [] {
      RequestAccounts(bs, held, rs[0], all);
      RequestsConserve(ListAfter(bs, held, rs[0]), HeldAfter(bs, held, rs[0]), rs[1..], all);
    }
  }

  /** The sequence of kernel/kernel.c:38-50 on a machine with one block of more than 1099 pages:
      after alloc_mem of 100, 919, 30 and 50 pages and free_mem of the first, freeing the
      50 pages right before the last block does not restore the list. */
  lemma MemoryTestFails(start: nat, pages: nat)
    requires 1099 < pages < TWO32 && start + pages < FRAME_LIMIT
    ensures var bs := AfterRun([Block(start, pages)], [100, 919, 30, 50]);
            && bs == [Block(start + 1099, pages - 1099)]
            && Restores(bs, start, 100) && RightList([Block(start, 100)] + bs, bs, start, 100)
            && Freed([Block(start, 100)] + bs, start + 1049, 50)
                 && !Restores([Block(start, 100)] + bs, start + 1049, 50)
  {
    var b0 := [Block(start, pages)];
    var b1, b2 := [Block(start + 100, pages - 100)], [Block(start + 1019, pages - 1019)];
    var b3, b4 := [Block(start + 1049, pages - 1049)], [Block(start + 1099, pages - 1099)];
    assert AllocBlocks(b0, 100) == b1 && AllocBlocks(b1, 919) == b2 && AllocBlocks(b2, 30) == b3
             && AllocBlocks(b3, 50) == b4;
    assert AfterRun(b0, [100, 919, 30, 50]) == AfterRun(b1, [919, 30, 50]) == AfterRun(b2, [30, 50]);
    assert AfterRun(b2, [30, 50]) == AfterRun(b3, [50]) == AfterRun(b4, []);
    InsertedRight(b4, 0, start, 100);
    assert Inserted(b4, 0, start, 100) == [Block(start, 100)] + b4;
  }
}
