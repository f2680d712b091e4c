/**
 The page allocator of kernel/mem.c: an intrusive, address-ordered first-fit list whose
 headers (`struct memlist`) live in the first words of the free pages themselves.
 Addresses are frame numbers: the direct map gives frame f the pointer P2V(4096 * f).
 */
module FreeList {
  import opened PhysicalMemory

  const PAGE_OFFSET: nat := 0xffff_8060_0000_0000
  /** P2V has addresses for the frames before this one, whose address would be 2^64. */
  const FRAME_LIMIT: nat := 0x7_fa00_0000
  const TWO32: nat := 0x1_0000_0000
  /** `4096 * pages` is computed in 32 bits, so a page count acts modulo 2^20. */
  const WRAP: nat := 0x10_0000

  datatype Ptr = Null | At(frame: nat)

  datatype Block = Block(start: nat, pages: nat)

  // ---- headers in memory ----------------------------------------------------------

  predicate Addressable(p: Ptr)
  {
    p.At? ==> p.frame < FRAME_LIMIT
  }

  /** Bits 12 to 51 of PAGE_OFFSET; bits 52 to 63 are all ones. */
  const OFFSET_FRAME: nat := 0xf8_0600_0000

  function PtrWord(p: Ptr): Word
  {
    if p.Null? then ZERO else Word(false, false, false, 0, false, 0, (OFFSET_FRAME + p.frame) % 0x100_0000_0000, 0xfff)
  }

  /** As a number the word is the direct-map address P2V(4096 * frame), or 0 for NULL. */
  lemma PtrWordValue(p: Ptr)
    requires Addressable(p)
    ensures Value(PtrWord(p)) == if p.Null? then 0 else PAGE_OFFSET + 4096 * p.frame
  {
  }

  /** Reads a pointer; a word that is no direct-map address counts as NULL. */
  function WordPtr(w: Word): Ptr
  {
    if w.high == 0xfff && w.frame >= OFFSET_FRAME then At(w.frame - OFFSET_FRAME) else Null
  }

  /** `m->next` */
  function Next(mem: Memory, f: nat): Ptr
  {
    WordPtr(Load(mem, f, 0))
  }

  function Low32(w: Word): (n: nat)
    ensures n < TWO32
  {
    Value(w) % TWO32
  }

  /** `m->pages`, the low half of the second word. */
  function Count(mem: Memory, f: nat): nat
  {
    Low32(Load(mem, f, 1))
  }

  /** All frames but f are untouched. */
  ghost predicate OnlyFrame(mem: Memory, mem': Memory, f: nat)
  {
    && mem'.Keys == mem.Keys
    && forall g :: g in mem && g != f ==> mem'[g] == mem[g]
  }

  /** `m->next = p` */
  function SetNext(mem: Memory, f: nat, p: Ptr): (r: Memory)
    ensures OnlyFrame(mem, r, f)
  {
    if f in mem then mem[f := mem[f][0 := PtrWord(p)]] else mem
  }

  lemma Halves(v: nat, n: nat)
    requires v < TWO64 && n < TWO32
    ensures v / TWO32 * TWO32 + n < TWO64
    ensures (v / TWO32 * TWO32 + n) % TWO32 == n
  {
    assert v / TWO32 < TWO32;
  }

  /** The padding above the page count keeps its value. */
  function WithCount(w: Word, n: nat): Word
    requires n < TWO32
  {
    var v := Value(w);
    Halves(v, n);
    FromValue(v / TWO32 * TWO32 + n)
  }

  /** `m->pages = n` */
  function SetCount(mem: Memory, f: nat, n: nat): (r: Memory)
    ensures OnlyFrame(mem, r, f)
  {
    if f in mem then mem[f := mem[f][1 := WithCount(mem[f][1], n % TWO32)]] else mem
  }

  /** A whole header, written in the order of the source. */
  function SetHeader(mem: Memory, f: nat, p: Ptr, n: nat): (r: Memory)
    ensures OnlyFrame(mem, r, f)
  {
    SetCount(SetNext(mem, f, p), f, n)
  }

  lemma SameHeader(mem: Memory, mem': Memory, f: nat)
    requires f in mem && f in mem' && mem'[f] == mem[f]
    ensures Next(mem', f) == Next(mem, f) && Count(mem', f) == Count(mem, f)
  {
    hide Low32;
  }

  lemma WithCountLow32(w: Word, n: nat)
    requires n < TWO32
    ensures Low32(WithCount(w, n)) == n
  {
    hide Value, FromValue;
    Halves(Value(w), n);
    ValueOfFromValue(Value(w) / TWO32 * TWO32 + n);
  }

  lemma SetNextEffect(mem: Memory, f: nat, p: Ptr)
    requires f in mem && Addressable(p)
    ensures Next(SetNext(mem, f, p), f) == p && Count(SetNext(mem, f, p), f) == Count(mem, f)
  {
    hide Low32;
  }

  lemma SetCountEffect(mem: Memory, f: nat, n: nat)
    requires f in mem && n < TWO32
    ensures Next(SetCount(mem, f, n), f) == Next(mem, f) && Count(SetCount(mem, f, n), f) == n
  {
    hide Low32, WithCount;
    WithCountLow32(mem[f][1], n);
  }

  lemma SetHeaderEffect(mem: Memory, f: nat, p: Ptr, n: nat)
    requires f in mem && Addressable(p) && n < TWO32
    ensures Next(SetHeader(mem, f, p, n), f) == p && Count(SetHeader(mem, f, p, n), f) == n
  {
    hide Next, Count, SetNext, SetCount;
    SetNextEffect(mem, f, p);
    SetCountEffect(SetNext(mem, f, p), f, n);
  }

  // ---- the list as a sequence of blocks -------------------------------------------

  function PtrAt(bs: seq<Block>, i: nat): Ptr
  {
    if i < |bs| then At(bs[i].start) else Null
  }

  predicate Sized(b: Block)
  {
    1 <= b.pages < TWO32 && b.start + b.pages < FRAME_LIMIT
  }

  /** a ends before b starts, with at least one page between them. */
  predicate Apart(a: Block, b: Block)
  {
    a.start + a.pages < b.start
  }

  /** Address order with a gap between blocks: sorted, disjoint and coalesced. */
  predicate Canonical(bs: seq<Block>)
  {
    && (forall i :: 0 <= i < |bs| ==> Sized(bs[i]))
    && (forall i, j :: 0 <= i < j < |bs| ==> Apart(bs[i], bs[j]))
  }

  predicate Covers(b: Block, f: nat)
  {
    b.start <= f < b.start + b.pages
  }

  /** The frames of n pages from f on. */
  function Frames(f: nat, n: nat): (fs: set<nat>)
    ensures forall x :: x in fs <==> f <= x < f + n
  {
    if n == 0 then {} else Frames(f, n - 1) + {f + n - 1}
  }

  predicate Listed(bs: seq<Block>, f: nat)
  {
    exists i :: 0 <= i < |bs| && Covers(bs[i], f)
  }

  /** Number of pages in all blocks. */
  function BlockPages(bs: seq<Block>): nat
  {
    if bs == [] then 0 else BlockPages(bs[..|bs| - 1]) + bs[|bs| - 1].pages
  }

  /** The header of block i is in memory and leads to block i + 1. */
  predicate Node(mem: Memory, bs: seq<Block>, i: nat)
    requires i < |bs|
  {
    && bs[i].start in mem
    && Next(mem, bs[i].start) == PtrAt(bs, i + 1)
    && Count(mem, bs[i].start) == bs[i].pages
  }

  /** The headers found from `head` spell out bs. */
  predicate Linked(mem: Memory, head: Ptr, bs: seq<Block>)
  {
    && head == PtrAt(bs, 0)
    && forall i :: 0 <= i < |bs| ==> Node(mem, bs, i)
  }

  /** The free list proper: canonical, spelled out in memory, all of it RAM. */
  ghost predicate FreeListOk(mem: Memory, head: Ptr, bs: seq<Block>)
  {
    && Canonical(bs)
    && Linked(mem, head, bs)
    && forall f :: Listed(bs, f) ==> f in mem
  }

  // ---- alloc_mem ------------------------------------------------------------------

  /** Index of the first block of at least n pages, or |bs|. */
  function FirstFit(bs: seq<Block>, n: nat): (k: nat)
    ensures k <= |bs|
    ensures forall i :: 0 <= i < k ==> bs[i].pages < n
    ensures k < |bs| ==> bs[k].pages >= n
  {
    if bs == [] || bs[0].pages >= n then 0 else 1 + FirstFit(bs[1..], n)
  }

  function AllocPtr(bs: seq<Block>, n: nat): Ptr
  {
    PtrAt(bs, FirstFit(bs, n))
  }

  function Without(bs: seq<Block>, k: nat): seq<Block>
    requires k < |bs|
  {
    bs[..k] + bs[k + 1..]
  }

  function Trimmed(bs: seq<Block>, k: nat, n: nat): seq<Block>
    requires k < |bs| && n <= bs[k].pages
  {
    bs[..k] + [Block(bs[k].start + n % WRAP, bs[k].pages - n)] + bs[k + 1..]
  }

  /** The list after a request for n pages: the block is unlinked or loses its first n pages. */
  function AllocBlocks(bs: seq<Block>, n: nat): seq<Block>
  {
    var k := FirstFit(bs, n);
    if k == |bs| then bs
    else if bs[k].pages == n then Without(bs, k)
    else Trimmed(bs, k, n)
  }

  /** `prev->next = p`, where prev is the block before index k or the list head (not in memory). */
  function SetPrevNext(mem: Memory, bs: seq<Block>, k: nat, p: Ptr): (r: Memory)
    requires k <= |bs|
    ensures r.Keys == mem.Keys
    ensures forall f :: f in mem && (k == 0 || f != bs[k - 1].start) ==> r[f] == mem[f]
  {
    if k == 0 then mem else SetNext(mem, bs[k - 1].start, p)
  }

  /** The remainder of block k after its first n pages, relinked in its place. */
  function Carve(mem: Memory, bs: seq<Block>, k: nat, n: nat): (r: Memory)
    requires k < |bs| && n <= bs[k].pages
    ensures r.Keys == mem.Keys
    ensures forall f :: f in mem && f != bs[k].start + n % WRAP && (k == 0 || f != bs[k - 1].start) ==> r[f] == mem[f]
  {
    var rest := bs[k].start + n % WRAP;
    SetHeader(SetPrevNext(mem, bs, k, At(rest)), rest, PtrAt(bs, k + 1), bs[k].pages - n)
  }

  /** The header stores of alloc_mem. */
  function AllocMemory(mem: Memory, bs: seq<Block>, n: nat): (r: Memory)
    ensures r.Keys == mem.Keys
  {
    var k := FirstFit(bs, n);
    if k == |bs| then mem
    else if bs[k].pages == n then SetPrevNext(mem, bs, k, PtrAt(bs, k + 1))
    else Carve(mem, bs, k, n)
  }

  lemma AllocCanonical(bs: seq<Block>, n: nat)
    requires Canonical(bs) && n < WRAP
    ensures Canonical(AllocBlocks(bs, n))
  {
    hide FirstFit;
    var k, bs' := FirstFit(bs, n), AllocBlocks(bs, n);
    if k < |bs| {
      var shift := |bs| - |bs'|;
      forall i, j | 0 <= i < j < |bs'|
        ensures Apart(bs'[i], bs'[j])
      {
        assert Apart(bs[if i < k then i else i + shift], bs[if j < k then j else j + shift]);
      }
    }
  }

  /** The page range handed out for a request of n pages. */
  predicate Handed(bs: seq<Block>, n: nat, f: nat)
  {
    var k := FirstFit(bs, n);
    k < |bs| && Covers(Block(bs[k].start, n), f)
  }

  lemma ListedConcat(a: seq<Block>, b: seq<Block>, f: nat)
    ensures Listed(a + b, f) <==> Listed(a, f) || Listed(b, f)
  {
    if Listed(a + b, f) {
      var i :| 0 <= i < |a + b| && Covers((a + b)[i], f);
      assert if i < |a| then Covers(a[i], f) else Covers(b[i - |a|], f);
    }
    if Listed(a, f) {
      var i :| 0 <= i < |a| && Covers(a[i], f);
      assert Covers((a + b)[i], f);
    }
    if Listed(b, f) {
      var i :| 0 <= i < |b| && Covers(b[i], f);
      assert Covers((a + b)[|a| + i], f);
    }
  }

  /** Splits a list at one of its blocks. */
  lemma ListedSplit(a: seq<Block>, b: Block, c: seq<Block>, f: nat)
    ensures Listed(a + [b] + c, f) <==> Listed(a, f) || Covers(b, f) || Listed(c, f)
  {
    ListedConcat(a + [b], c, f);
    ListedConcat(a, [b], f);
    assert Listed([b], f) <==> Covers([b][0], f);
  }

  /** Conservation: each page listed before is listed after or handed out, never both. */
  lemma AllocConserves(bs: seq<Block>, n: nat, f: nat)
    requires Canonical(bs) && n < WRAP
    ensures Listed(bs, f) <==> Listed(AllocBlocks(bs, n), f) || Handed(bs, n, f)
    ensures !(Listed(AllocBlocks(bs, n), f) && Handed(bs, n, f))
  {
    hide FirstFit;
    var k := FirstFit(bs, n);
    if k < |bs| {
      var a, b, c := bs[..k], bs[k], bs[k + 1..];
      assert bs == a + [b] + c;
      ListedSplit(a, b, c, f);
      NotListedAround(bs, k, f);
      if b.pages == n {
        ListedConcat(a, c, f);
      } else {
        ListedSplit(a, Block(b.start + n, b.pages - n), c, f);
      }
    }
  }

  /** A page of block k is in no other block. */
  lemma NotListedAround(bs: seq<Block>, k: nat, f: nat)
    requires Canonical(bs) && k < |bs|
    ensures Covers(bs[k], f) ==> !Listed(bs[..k], f) && !Listed(bs[k + 1..], f)
  {
  }

  lemma UnlinkLinked(mem: Memory, bs: seq<Block>, k: nat)
    requires Canonical(bs) && Linked(mem, PtrAt(bs, 0), bs) && k < |bs|
    ensures Linked(SetPrevNext(mem, bs, k, PtrAt(bs, k + 1)), PtrAt(Without(bs, k), 0), Without(bs, k))
  {
    hide Next, Count, SetNext;
    var bs', mem' := Without(bs, k), SetPrevNext(mem, bs, k, PtrAt(bs, k + 1));
    forall i | 0 <= i < |bs'|
      ensures Node(mem', bs', i)
    {
      var j := if i < k then i else i + 1;
      assert bs'[i] == bs[j] && Node(mem, bs, j);
      if j + 1 == k {
        SetNextEffect(mem, bs[j].start, PtrAt(bs, k + 1));
      } else {
        SameHeader(mem, mem', bs[j].start);
      }
    }
  }

  lemma CarveLinked(mem: Memory, bs: seq<Block>, k: nat, n: nat)
    requires Canonical(bs) && Linked(mem, PtrAt(bs, 0), bs) && k < |bs| && n < bs[k].pages && n < WRAP
    requires bs[k].start + n in mem
    ensures Linked(Carve(mem, bs, k, n), PtrAt(Trimmed(bs, k, n), 0), Trimmed(bs, k, n))
  {
    hide Next, Count, SetHeader, SetNext;
    var rest := bs[k].start + n;
    assert n % WRAP == n;
    var bs', mem' := Trimmed(bs, k, n), Carve(mem, bs, k, n);
    var m1 := SetPrevNext(mem, bs, k, At(rest));
    SetHeaderEffect(m1, rest, PtrAt(bs, k + 1), bs[k].pages - n);
    forall i | 0 <= i < |bs'|
      ensures Node(mem', bs', i)
    {
      assert Node(mem, bs, i);
      if i != k {
        SameHeader(m1, mem', bs[i].start);
        if i + 1 == k {
          SetNextEffect(mem, bs[i].start, At(rest));
        } else {
          SameHeader(mem, m1, bs[i].start);
        }
      }
    }
  }

  lemma AllocLinked(mem: Memory, bs: seq<Block>, n: nat)
    requires FreeListOk(mem, PtrAt(bs, 0), bs) && n < WRAP
    ensures Linked(AllocMemory(mem, bs, n), PtrAt(AllocBlocks(bs, n), 0), AllocBlocks(bs, n))
  {
    hide Linked, SetPrevNext, Carve, FirstFit, Without, Trimmed;
    var k := FirstFit(bs, n);
    if k < |bs| {
      if bs[k].pages == n {
        UnlinkLinked(mem, bs, k);
      } else {
        assert Covers(bs[k], bs[k].start + n) && Listed(bs, bs[k].start + n);
        CarveLinked(mem, bs, k, n);
      }
    }
  }

  /** alloc_mem stores only into pages that stay on the list. */
  lemma AllocWritesListed(mem: Memory, bs: seq<Block>, n: nat, f: nat)
    requires FreeListOk(mem, PtrAt(bs, 0), bs) && n < WRAP
    requires f in mem && !Listed(AllocBlocks(bs, n), f)
    ensures AllocMemory(mem, bs, n)[f] == mem[f]
  {
    hide FirstFit;
    var k, bs' := FirstFit(bs, n), AllocBlocks(bs, n);
    if k < |bs| {
      if k > 0 {
        assert bs'[k - 1] == bs[k - 1] && Covers(bs'[k - 1], bs[k - 1].start);
      }
      if bs[k].pages != n {
        assert Covers(bs'[k], bs[k].start + n);
      }
    }
  }

  /** A request of fewer than 2^20 pages leaves a free list. */
  lemma AllocKeepsList(mem: Memory, bs: seq<Block>, n: nat)
    requires FreeListOk(mem, PtrAt(bs, 0), bs) && n < WRAP
    ensures FreeListOk(AllocMemory(mem, bs, n), PtrAt(AllocBlocks(bs, n), 0), AllocBlocks(bs, n))
  {
    AllocCanonical(bs, n);
    AllocLinked(mem, bs, n);
    forall f | Listed(AllocBlocks(bs, n), f)
      ensures f in mem
    {
      AllocConserves(bs, n, f);
    }
  }

  /** Stores outside the listed pages do not disturb the list. */
  lemma FreeListFrame(mem: Memory, mem': Memory, head: Ptr, bs: seq<Block>)
    requires FreeListOk(mem, head, bs) && mem'.Keys == mem.Keys
    requires forall f :: f in mem && Listed(bs, f) ==> mem'[f] == mem[f]
    ensures FreeListOk(mem', head, bs)
  {
    hide Next, Count;
    forall i | 0 <= i < |bs|
      ensures Node(mem', bs, i)
    {
      assert Node(mem, bs, i);
      assert Sized(bs[i]) && Covers(bs[i], bs[i].start) && Listed(bs, bs[i].start);
      SameHeader(mem, mem', bs[i].start);
    }
  }

  // ---- what a request may not be ------------------------------------------------------

  /** The 32-bit product `4096 * pages` in pages. */
  lemma PageBytes(n: nat)
    ensures 4096 * n % 0x1_0000_0000 == 4096 * (n % WRAP)
  {
  }

  /** Exactly which non-empty requests keep handed-out pages off the list: all but those of
      2^20 pages or more that are cut from a larger block, where 4096 * pages wraps. */
  lemma AllocDisjointIff(bs: seq<Block>, n: nat)
    requires Canonical(bs) && 1 <= n < TWO32
    ensures (forall f :: !(Listed(AllocBlocks(bs, n), f) && Handed(bs, n, f)))
       <==> (n < WRAP || FirstFit(bs, n) == |bs| || bs[FirstFit(bs, n)].pages == n)
  {
    hide FirstFit;
    var k := FirstFit(bs, n);
    if n < WRAP {
      forall f ensures !(Listed(AllocBlocks(bs, n), f) && Handed(bs, n, f)) {
        AllocConserves(bs, n, f);
      }
    } else if k < |bs| && bs[k].pages == n {
      forall f ensures !(Listed(AllocBlocks(bs, n), f) && Handed(bs, n, f)) {
        NotListedAround(bs, k, f);
        ListedConcat(bs[..k], bs[k + 1..], f);
      }
    } else if k < |bs| {
      var f := bs[k].start + n % WRAP;
      assert Covers(AllocBlocks(bs, n)[k], f);
      assert Listed(AllocBlocks(bs, n), f) && Handed(bs, n, f);
    }
  }

  /** A request for no pages is answered with the first listed page, which stays listed. */
  lemma AllocNothing(bs: seq<Block>)
    requires Canonical(bs) && bs != []
    ensures AllocPtr(bs, 0) == At(bs[0].start) && AllocBlocks(bs, 0) == bs && Listed(AllocBlocks(bs, 0), bs[0].start)
  {
    assert Sized(bs[0]) && Covers(bs[0], bs[0].start);
    assert FirstFit(bs, 0) == 0;
    assert AllocBlocks(bs, 0) == [bs[0]] + bs[1..];
  }

  // ---- runs of alloc_mem --------------------------------------------------------------

  /** The blocks handed out, in order, by a sequence of requests; failed requests give none. */
  function Grants(bs: seq<Block>, requests: seq<nat>): seq<Block>
    decreases |requests|
  {
    if requests == [] then []
    else
      var p, n := AllocPtr(bs, requests[0]), requests[0];
      (if p.At? then [Block(p.frame, n)] else []) + Grants(AllocBlocks(bs, n), requests[1..])
  }

  function AfterRun(bs: seq<Block>, requests: seq<nat>): seq<Block>
    decreases |requests|
  {
    if requests == [] then bs else AfterRun(AllocBlocks(bs, requests[0]), requests[1..])
  }

  /** Over any run of requests of fewer than 2^20 pages: the list stays canonical, listed plus
      granted pages are exactly the pages listed at the start, and no page is both. */
  lemma {:induction false} RunConserves(bs: seq<Block>, requests: seq<nat>, f: nat)
    requires Canonical(bs) && forall i :: 0 <= i < |requests| ==> requests[i] < WRAP
    ensures Canonical(AfterRun(bs, requests))
    ensures Listed(bs, f) <==> Listed(AfterRun(bs, requests), f) || Listed(Grants(bs, requests), f)
    ensures !(Listed(AfterRun(bs, requests), f) && Listed(Grants(bs, requests), f))
    decreases |requests|
  {
    hide FirstFit, AllocBlocks;
    if requests != [] {
      var n := requests[0];
      AllocCanonical(bs, n);
      AllocConserves(bs, n, f);
      RunConserves(AllocBlocks(bs, n), requests[1..], f);
      var g: seq<Block> := if AllocPtr(bs, n).At? then [Block(AllocPtr(bs, n).frame, n)] else [];
      ListedConcat(g, Grants(AllocBlocks(bs, n), requests[1..]), f);
      assert Listed(g, f) <==> g != [] && Covers(g[0], f);
    }
  }

  /** ... and the granted blocks are pairwise disjoint. */
  lemma {:induction false} RunGrantsDisjoint(bs: seq<Block>, requests: seq<nat>, i: nat, j: nat, f: nat)
    requires Canonical(bs) && forall k :: 0 <= k < |requests| ==> requests[k] < WRAP
    requires i < j < |Grants(bs, requests)|
    ensures !(Covers(Grants(bs, requests)[i], f) && Covers(Grants(bs, requests)[j], f))
    decreases |requests|
  {
    hide FirstFit, AllocBlocks;
    var n := requests[0];
    var rest := Grants(AllocBlocks(bs, n), requests[1..]);
    AllocCanonical(bs, n);
    if AllocPtr(bs, n).Null? {
      RunGrantsDisjoint(AllocBlocks(bs, n), requests[1..], i, j, f);
    } else if i > 0 {
      RunGrantsDisjoint(AllocBlocks(bs, n), requests[1..], i - 1, j - 1, f);
    } else {
      assert Grants(bs, requests)[j] == rest[j - 1];
      AllocConserves(bs, n, f);
      RunConserves(AllocBlocks(bs, n), requests[1..], f);
      if Covers(rest[j - 1], f) {
        assert Listed(rest, f);
      }
    }
  }

  /** First fit: NULL exactly when no block is large enough, otherwise the lowest such block. */
  lemma AllocFirstFit(bs: seq<Block>, n: nat)
    requires Canonical(bs)
    ensures AllocPtr(bs, n).Null? <==> forall i :: 0 <= i < |bs| ==> bs[i].pages < n
    ensures AllocPtr(bs, n).At? ==>
              exists k :: 0 <= k < |bs| && bs[k].start == AllocPtr(bs, n).frame && bs[k].pages >= n
                          && forall i :: 0 <= i < |bs| && bs[i].pages >= n ==> bs[k].start <= bs[i].start
  {
    hide FirstFit;
    var k := FirstFit(bs, n);
    if k < |bs| {
      assert bs[k].pages >= n;
      forall i | 0 <= i < |bs| && bs[i].pages >= n
        ensures bs[k].start <= bs[i].start
      {
        assert i >= k;
        assert i > k ==> Apart(bs[k], bs[i]);
      }
    }
  }

  /** Where the list head points after a request. */
  lemma AllocHead(bs: seq<Block>, n: nat)
    ensures var k := FirstFit(bs, n);
            PtrAt(AllocBlocks(bs, n), 0) ==
              if k != 0 || bs == [] then PtrAt(bs, 0)
              else if bs[0].pages == n then PtrAt(bs, 1)
              else At(bs[0].start + n % WRAP)
  {
    hide FirstFit;
  }

  // ---- the code -----------------------------------------------------------------------

  /** The static `memlist` of kernel/mem.c and the memory its list runs through. */
  class Allocator {
    var mem: Memory
    var head: Ptr
    /** `memlist.pages`, counted once by init_mem. */
    var count: nat
    ghost var free: seq<Block>

    ghost predicate Valid()
      reads this
    {
      FreeListOk(mem, head, free)
    }

    /** `prev->next = p`; NULL stands for the static list head. */
    method SetNextOf(prev: Ptr, p: Ptr)
      modifies `mem, `head
      ensures mem == if prev.Null? then old(mem) else SetNext(old(mem), prev.frame, p)
      ensures head == if prev.Null? then p else old(head)
    {
      if prev.Null? {
        head := p;
      } else {
        mem := SetNext(mem, prev.frame, p);
      }
    }

    method AllocMem(pages: nat) returns (ptr: Ptr)
      requires Valid() && pages < TWO32
      modifies this
      ensures ptr == AllocPtr(old(free), pages)
      ensures free == AllocBlocks(old(free), pages) && mem == AllocMemory(old(mem), old(free), pages)
      ensures head == PtrAt(free, 0) && count == old(count)
      ensures pages < WRAP ==> Valid()
    {
      hide Next, Count, SetNext, SetHeader, FirstFit, Canonical, Listed, Without, Trimmed;
      var prev, m := Null, head;
      ptr := Null;
      ghost var k := 0;
      while m.At?
        invariant k <= |free| && m == PtrAt(free, k) && prev == (if k == 0 then Null else At(free[k - 1].start))
        invariant forall i :: 0 <= i < k ==> free[i].pages < pages
        invariant ptr == Null && Valid() && free == old(free) && mem == old(mem) && head == old(head)
        invariant count == old(count)
        decreases |free| - k
      {
        assert Node(mem, free, k);
        if Count(mem, m.frame) == pages {
          ptr := m;
          SetNextOf(prev, Next(mem, m.frame));
          break;
        } else if Count(mem, m.frame) >= pages {
          ptr := m;
          var ml := m.frame + pages % WRAP;
          var next, count := Next(mem, m.frame), Count(mem, m.frame);
          SetNextOf(prev, At(ml));
          mem := SetHeader(mem, ml, next, count - pages);
          break;
        }
        prev, m, k := m, Next(mem, m.frame), k + 1;
      }
      assert FirstFit(free, pages) == k;
      AllocHead(free, pages);
      free := AllocBlocks(free, pages);
      if pages < WRAP {
        AllocKeepsList(old(mem), old(free), pages);
      }
    }
  }
}
