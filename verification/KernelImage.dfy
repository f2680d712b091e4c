/**
 Loading the kernel: `CalcLoadAddressRange` and `CopyLoadSegments` of boot/boot.c, and what the
 kernel then finds at its virtual addresses.  The words of physical memory are read and
 written byte by byte here, least significant byte first.
 */
module KernelImage {
  import opened Options
  import opened PhysicalMemory
  import opened Translation
  import opened BootTables
  import opened KernelStart

  type Octet = n: nat | n < 256

  // ---- bytes of words -----------------------------------------------------------------------

  /** Byte k of a number. */
  function Byte(v: nat, k: nat): Octet
    decreases k
  {
    if k == 0 then v % 256 else Byte(v / 256, k - 1)
  }

  function WithByte(v: nat, k: nat, b: Octet): nat
    decreases k
  {
    if k == 0 then v - v % 256 + b else 256 * WithByte(v / 256, k - 1, b) + v % 256
  }

  function Pow256(k: nat): nat
  {
    if k == 0 then 1 else 256 * Pow256(k - 1)
  }

  lemma {:induction false} ByteOfWithByte(v: nat, k: nat, b: Octet, j: nat)
    ensures Byte(WithByte(v, k, b), j) == if j == k then b else Byte(v, j)
    decreases k
  {
    if k == 0 {
      assert (v - v % 256 + b) / 256 == v / 256 && (v - v % 256 + b) % 256 == b;
    } else {
      var w := WithByte(v / 256, k - 1, b);
      assert (256 * w + v % 256) / 256 == w && (256 * w + v % 256) % 256 == v % 256;
      if j > 0 {
        ByteOfWithByte(v / 256, k - 1, b, j - 1);
      }
    }
  }

  lemma {:induction false} WithByteBound(v: nat, k: nat, b: Octet, n: nat)
    requires k < n && v < Pow256(n)
    ensures WithByte(v, k, b) < Pow256(n)
    decreases k
  {
    if k > 0 {
      WithByteBound(v / 256, k - 1, b, n - 1);
    } else {
      assert v / 256 < Pow256(n - 1);
    }
  }

  function LoadByte(mem: Memory, a: nat): Octet
  {
    Byte(Value(Load(mem, a / 4096, a % 4096 / 8)), a % 4096 % 8)
  }

  function StoreByte(mem: Memory, a: nat, b: Octet): (r: Memory)
    ensures r.Keys == mem.Keys
  {
    var w := Load(mem, a / 4096, a % 4096 / 8);
    WithByteBound(Value(w), a % 4096 % 8, b, 8);
    assert Pow256(8) == TWO64;
    Store(mem, a / 4096, a % 4096 / 8, FromValue(WithByte(Value(w), a % 4096 % 8, b)))
  }

  lemma AddressParts(a: nat, x: nat)
    requires a / 4096 == x / 4096 && a % 4096 / 8 == x % 4096 / 8 && a % 4096 % 8 == x % 4096 % 8
    ensures a == x
  {
  }

  lemma StoreByteEffect(mem: Memory, a: nat, b: Octet, x: nat)
    requires a / 4096 in mem
    ensures LoadByte(StoreByte(mem, a, b), x) == if x == a then b else LoadByte(mem, x)
  {
    hide Value, FromValue, Byte, WithByte;
    var w := Load(mem, a / 4096, a % 4096 / 8);
    WithByteBound(Value(w), a % 4096 % 8, b, 8);
    assert Pow256(8) == TWO64;
    ValueOfFromValue(WithByte(Value(w), a % 4096 % 8, b));
    ByteOfWithByte(Value(w), a % 4096 % 8, b, x % 4096 % 8);
    if x / 4096 == a / 4096 && x % 4096 / 8 == a % 4096 / 8 && x % 4096 % 8 == a % 4096 % 8 {
      AddressParts(a, x);
    }
  }

  // ---- the program headers --------------------------------------------------------------------

  /** The fields of a program header that are used; `kind` is the 32-bit p_type of the file, of
      which `Elf_Phdr` reads 16 bits. */
  datatype Segment = Segment(kind: nat, offset: nat, vaddr: nat, filesz: nat, memsz: nat)

  predicate Loads(p: Segment)
  {
    p.kind % 0x1_0000 == 1
  }

  /** PT_LOAD is 1. */
  lemma LoadsType(p: Segment)
    ensures Loads(p) <==> p.kind % 0x1_0000 == 1
  {
  }

  /** The address a kernel address is loaded to, in 64-bit arithmetic. */
  function Physical(v: int): (r: nat)
    ensures r < TWO64
  {
    U64(U64(v - KERNEL_MAPPING) + 0x100000)
  }

  /** A segment inside the 32 MB that the boot tables map for the kernel, its bytes in the file. */
  predicate InWindow(p: Segment, file: seq<Octet>)
  {
    KERNEL_MAPPING <= p.vaddr && p.vaddr + p.memsz <= KERNEL_MAPPING + 4096 * KERNEL_PAGES
      && p.offset + p.filesz <= |file| < TWO64
  }

  predicate ImageOk(segs: seq<Segment>, file: seq<Octet>)
  {
    forall i :: 0 <= i < |segs| && Loads(segs[i]) ==> InWindow(segs[i], file)
  }

  lemma PhysicalInWindow(v: nat)
    requires KERNEL_MAPPING <= v <= KERNEL_MAPPING + 4096 * KERNEL_PAGES
    ensures Physical(v) == v - KERNEL_MAPPING + 0x100000
  {
  }

  /** The smallest start and the largest end of the first n segments to load. */
  function Lowest(segs: seq<Segment>, n: nat): (r: nat)
    requires n <= |segs|
    ensures forall i :: 0 <= i < n && Loads(segs[i]) ==> r <= segs[i].vaddr
    ensures r == TWO64 - 1 || exists i :: 0 <= i < n && Loads(segs[i]) && segs[i].vaddr == r
  {
    if n == 0 then TWO64 - 1
    else if Loads(segs[n - 1]) && segs[n - 1].vaddr < Lowest(segs, n - 1) then segs[n - 1].vaddr
    else Lowest(segs, n - 1)
  }

  function Highest(segs: seq<Segment>, n: nat): (r: nat)
    requires n <= |segs|
    ensures forall i :: 0 <= i < n && Loads(segs[i]) ==> U64(segs[i].vaddr + segs[i].memsz) <= r
    ensures r == 0 || exists i :: 0 <= i < n && Loads(segs[i]) && U64(segs[i].vaddr + segs[i].memsz) == r
  {
    if n == 0 then 0
    else
      var stop := U64(segs[n - 1].vaddr + segs[n - 1].memsz);
      if Loads(segs[n - 1]) && stop > Highest(segs, n - 1) then stop else Highest(segs, n - 1)
  }

  lemma RangeStep(segs: seq<Segment>, n: nat)
    requires n <= |segs|
    ensures n == 0 ==> Lowest(segs, n) == TWO64 - 1 && Highest(segs, n) == 0
    ensures n > 0 ==>
              var p, stop := segs[n - 1], U64(segs[n - 1].vaddr + segs[n - 1].memsz);
              && Lowest(segs, n) == (if Loads(p) && p.vaddr < Lowest(segs, n - 1) then p.vaddr else Lowest(segs, n - 1))
              && Highest(segs, n) == if Loads(p) && stop > Highest(segs, n - 1) then stop else Highest(segs, n - 1)
  {
    hide U64, Loads;
  }

  /** `CalcLoadAddressRange` */
  method CalcLoadAddressRange(segs: seq<Segment>) returns (start: nat, end: nat)
    ensures start == Physical(Lowest(segs, |segs|)) && end == Physical(Highest(segs, |segs|))
  {
    hide Lowest, Highest, U64, Loads;
    RangeStep(segs, 0);
    start, end := TWO64 - 1, 0;
    for i := 0 to |segs|
      invariant start == Lowest(segs, i) && end == Highest(segs, i)
    {
      RangeStep(segs, i + 1);
      if !Loads(segs[i]) {
        continue;
      }
      start := if start > segs[i].vaddr then segs[i].vaddr else start;
      var stop := U64(segs[i].vaddr + segs[i].memsz);
      end := if end > stop then end else stop;
    }
    start, end := U64(start - KERNEL_MAPPING), U64(end - KERNEL_MAPPING);
    start, end := U64(start + 0x100000), U64(end + 0x100000);
  }

  /** The pages requested for the kernel: `(end - start + 0xfff) >> 12`. */
  function LoadPages(start: nat, end: nat): nat
  {
    U64(U64(end - start) + 0xfff) / 4096
  }

  predicate Allocated(segs: seq<Segment>, x: int)
  {
    var start, end := Physical(Lowest(segs, |segs|)), Physical(Highest(segs, |segs|));
    start <= x < start + 4096 * LoadPages(start, end)
  }

  // ---- the segments in memory -----------------------------------------------------------------

  /** Physical address x belongs to a segment. */
  predicate InSegment(p: Segment, x: nat)
  {
    Loads(p) && Physical(p.vaddr) <= x < Physical(p.vaddr) + p.memsz
  }

  /** x is one of the n bytes from address a on; addresses are 64 bits wide. */
  predicate InRange(a: nat, n: nat, x: nat)
  {
    U64(x - a) < n
  }

  /** The bytes that memcpy writes for a segment, and those that memset clears; the length of the
      zero fill is computed in 64 bits. */
  predicate CopyRange(p: Segment, x: nat)
  {
    InRange(Physical(p.vaddr), p.filesz, x)
  }

  predicate ZeroRange(p: Segment, x: nat)
  {
    InRange(U64(Physical(p.vaddr) + p.filesz), U64(p.memsz - p.filesz), x)
  }

  /** The addresses written for a segment. */
  predicate Writes(p: Segment, x: nat)
  {
    CopyRange(p, x) || ZeroRange(p, x)
  }

  /** The bytes of the segments lie in the file. */
  predicate FileOk(segs: seq<Segment>, file: seq<Octet>)
  {
    |file| < TWO64 && forall i :: 0 <= i < |segs| && Loads(segs[i]) ==> segs[i].offset + segs[i].filesz <= |file|
  }

  /** No segment is longer in the file than in memory. */
  predicate Fits(segs: seq<Segment>)
  {
    forall i :: 0 <= i < |segs| && Loads(segs[i]) ==> segs[i].filesz <= segs[i].memsz
  }

  lemma ImageInFile(segs: seq<Segment>, file: seq<Octet>)
    requires ImageOk(segs, file) && |file| < TWO64
    ensures FileOk(segs, file)
  {
    hide Loads;
  }

  /** What the first n segments leave at x: of the last one that writes there, zero or the byte of
      the file. */
  function Image(segs: seq<Segment>, file: seq<Octet>, n: nat, x: nat): Option<Octet>
    requires n <= |segs| && FileOk(segs, file)
  {
    if n == 0 then None
    else
      var p := segs[n - 1];
      if Loads(p) && ZeroRange(p, x) then Some(0)
      else if Loads(p) && CopyRange(p, x) then Some(file[p.offset + U64(x - Physical(p.vaddr))])
      else Image(segs, file, n - 1, x)
  }

  /** The given bytes are in place from a on, all others are as before. */
  ghost predicate Filled(mem0: Memory, mem: Memory, a: nat, bytes: seq<Octet>)
  {
    && mem.Keys == mem0.Keys
    && forall x: nat :: x < TWO64 ==>
         LoadByte(mem, x) == if InRange(a, |bytes|, x) then bytes[U64(x - a)] else LoadByte(mem0, x)
  }

  lemma U64Sum(a: nat, n: nat, x: nat)
    requires a < TWO64 && n < TWO64 && x < TWO64
    ensures U64(x - a) == n <==> x == U64(a + n)
  {
  }

  lemma FilledNext(mem0: Memory, mem: Memory, a: nat, bytes: seq<Octet>, b: Octet)
    requires Filled(mem0, mem, a, bytes) && a < TWO64 && |bytes| < TWO64 && U64(a + |bytes|) / 4096 in mem0
    ensures Filled(mem0, StoreByte(mem, U64(a + |bytes|), b), a, bytes + [b])
  {
    hide LoadByte, Byte, WithByte, Value, FromValue, Store, U64;
    var at, more := U64(a + |bytes|), bytes + [b];
    var mem' := StoreByte(mem, at, b);
    forall x: nat | x < TWO64
      ensures LoadByte(mem', x) == if InRange(a, |more|, x) then more[U64(x - a)] else LoadByte(mem0, x)
    {
      U64Sum(a, |bytes|, x);
      StoreByteEffect(mem, at, b, x);
      assert LoadByte(mem, x) == if InRange(a, |bytes|, x) then bytes[U64(x - a)] else LoadByte(mem0, x);
    }
  }

  /** The range is RAM. */
  ghost predicate RangeInRam(a: nat, n: nat, mem: Memory)
  {
    forall x: nat :: x < TWO64 && InRange(a, n, x) ==> x / 4096 in mem
  }

  lemma RamAt(a: nat, n: nat, mem: Memory, i: nat)
    requires RangeInRam(a, n, mem) && a < TWO64 && i < n <= TWO64
    ensures U64(a + i) / 4096 in mem
  {
    U64Sum(a, i, U64(a + i));
  }

  /** `memcpy` of boot/boot.c */
  method CopyMemory(m: Loader, dst: nat, bytes: seq<Octet>)
    requires dst < TWO64 && |bytes| <= TWO64 && RangeInRam(dst, |bytes|, m.mem)
    modifies m
    ensures Filled(old(m.mem), m.mem, dst, bytes)
  {
    hide Filled, StoreByte, LoadByte, U64, RangeInRam;
    assert Filled(m.mem, m.mem, dst, []) by { NothingFilled(m.mem, dst); }
    for i := 0 to |bytes|
      invariant m.mem.Keys == old(m.mem).Keys && Filled(old(m.mem), m.mem, dst, bytes[..i])
    {
      RamAt(dst, |bytes|, old(m.mem), i);
      FilledNext(old(m.mem), m.mem, dst, bytes[..i], bytes[i]);
      assert bytes[..i] + [bytes[i]] == bytes[..i + 1];
      m.mem := StoreByte(m.mem, U64(dst + i), bytes[i]);
    }
    assert bytes[..|bytes|] == bytes;
  }

  lemma NothingFilled(mem: Memory, a: nat)
    ensures Filled(mem, mem, a, [])
  {
  }

  function Zeros(n: nat): (r: seq<Octet>)
    ensures |r| == n
  {
    seq(n, _ => 0)
  }

  /** `memset(addr, 0, n)` of boot/boot.c */
  method ClearMemory(m: Loader, addr: nat, n: nat)
    requires addr < TWO64 && n <= TWO64 && RangeInRam(addr, n, m.mem)
    modifies m
    ensures Filled(old(m.mem), m.mem, addr, Zeros(n))
  {
    hide Filled, StoreByte, LoadByte, U64, RangeInRam;
    assert Filled(m.mem, m.mem, addr, []) by { NothingFilled(m.mem, addr); }
    for i := 0 to n
      invariant m.mem.Keys == old(m.mem).Keys && Filled(old(m.mem), m.mem, addr, Zeros(i))
    {
      RamAt(addr, n, old(m.mem), i);
      FilledNext(old(m.mem), m.mem, addr, Zeros(i), 0);
      assert Zeros(i) + [0] == Zeros(i + 1);
      m.mem := StoreByte(m.mem, U64(addr + i), 0);
    }
  }

  /** Memory after one segment: cleared, else copied, else as before. */
  ghost predicate SegmentWritten(mem0: Memory, mem: Memory, p: Segment, file: seq<Octet>)
    requires p.offset + p.filesz <= |file|
  {
    && mem.Keys == mem0.Keys
    && forall x: nat | x < TWO64 :: LoadByte(mem, x) == if ZeroRange(p, x) then 0
         else if CopyRange(p, x) then file[p.offset + U64(x - Physical(p.vaddr))] else LoadByte(mem0, x)
  }

  /** The loop body of `CopyLoadSegments`, whatever the two lengths. */
  method CopySegment(m: Loader, p: Segment, file: seq<Octet>)
    requires p.offset + p.filesz <= |file| < TWO64 && forall x: nat :: x < TWO64 && Writes(p, x) ==> x / 4096 in m.mem
    modifies m
    ensures SegmentWritten(old(m.mem), m.mem, p, file)
  {
    hide LoadByte, U64, InRange, Filled, Physical;
    var addr := Physical(p.vaddr);
    CopyMemory(m, addr, file[p.offset..p.offset + p.filesz]);
    ghost var m1 := m.mem;
    FilledKeys(old(m.mem), m1, addr, file[p.offset..p.offset + p.filesz]);
    ClearMemory(m, U64(addr + p.filesz), U64(p.memsz - p.filesz));
    TwiceFilled(old(m.mem), m1, m.mem, p, file);
  }

  lemma TwiceFilled(mem0: Memory, mem1: Memory, mem2: Memory, p: Segment, file: seq<Octet>)
    requires p.offset + p.filesz <= |file|
    requires Filled(mem0, mem1, Physical(p.vaddr), file[p.offset..p.offset + p.filesz])
    requires Filled(mem1, mem2, U64(Physical(p.vaddr) + p.filesz), Zeros(U64(p.memsz - p.filesz)))
    ensures SegmentWritten(mem0, mem2, p, file)
  {
    hide LoadByte, U64, Physical;
  }

  lemma FilledKeys(mem0: Memory, mem: Memory, a: nat, bytes: seq<Octet>)
    requires Filled(mem0, mem, a, bytes)
    ensures mem.Keys == mem0.Keys
  {
  }

  /** Memory after the first n segments. */
  ghost predicate Copied(mem0: Memory, mem: Memory, segs: seq<Segment>, file: seq<Octet>, n: nat)
    requires n <= |segs| && FileOk(segs, file)
  {
    && mem.Keys == mem0.Keys
    && forall x: nat :: x < TWO64 ==>
         LoadByte(mem, x) == match Image(segs, file, n, x) case Some(b) => b case None => LoadByte(mem0, x)
  }

  lemma SegmentCopied(mem0: Memory, m0: Memory, m1: Memory, segs: seq<Segment>, file: seq<Octet>, i: nat)
    requires i < |segs| && FileOk(segs, file) && Copied(mem0, m0, segs, file, i) && Loads(segs[i])
    requires SegmentWritten(m0, m1, segs[i], file)
    ensures Copied(mem0, m1, segs, file, i + 1)
  {
    hide LoadByte, Physical, U64, ZeroRange, CopyRange, Loads;
  }

  /** Without overlength the two ranges are the segment, split at the length in the file. */
  lemma SegmentRanges(segs: seq<Segment>, file: seq<Octet>, i: nat, x: nat)
    requires ImageOk(segs, file) && i < |segs| && Loads(segs[i]) && segs[i].filesz <= segs[i].memsz && x < TWO64
    ensures var p := segs[i];
            && (ZeroRange(p, x) <==> InSegment(p, x) && x - Physical(p.vaddr) >= p.filesz)
            && (CopyRange(p, x) <==> InSegment(p, x) && x - Physical(p.vaddr) < p.filesz)
            && (CopyRange(p, x) ==> U64(x - Physical(p.vaddr)) == x - Physical(p.vaddr))
  {
    hide Loads, Physical, U64;
    var p := segs[i];
    NoWrap(segs, file, i);
    PhysicalInWindow(p.vaddr);
    var a := Physical(p.vaddr);
    U64Of(x - a);
    U64Of(p.memsz - p.filesz);
    U64Of(a + p.filesz);
    U64Of(x - (a + p.filesz));
  }

  /** The memory of the segments is RAM. */
  ghost predicate ImageInRam(segs: seq<Segment>, mem: Memory)
  {
    forall i, x: nat :: 0 <= i < |segs| && InSegment(segs[i], x) ==> x / 4096 in mem
  }

  /** All that is written is RAM. */
  ghost predicate WritesInRam(segs: seq<Segment>, mem: Memory)
  {
    forall i, x: nat :: 0 <= i < |segs| && Loads(segs[i]) && x < TWO64 && Writes(segs[i], x) ==> x / 4096 in mem
  }

  /** `CopyLoadSegments` */
  method CopyLoadSegments(m: Loader, segs: seq<Segment>, file: seq<Octet>)
    requires FileOk(segs, file) && WritesInRam(segs, m.mem)
    modifies m
    ensures Copied(old(m.mem), m.mem, segs, file, |segs|)
  {
    hide Copied, SegmentWritten, Writes, LoadByte, Physical, Loads;
    ghost var mem0 := m.mem;
    assert Copied(mem0, mem0, segs, file, 0) by { NothingCopied(mem0, segs, file); }
    for i := 0 to |segs|
      invariant m.mem.Keys == mem0.Keys && Copied(mem0, m.mem, segs, file, i)
    {
      var p := segs[i];
      if !Loads(p) {
        SkippedCopied(mem0, m.mem, segs, file, i);
        continue;
      }
      ghost var m0 := m.mem;
      CopySegment(m, p, file);
      assert m.mem.Keys == m0.Keys by { WrittenKeys(m0, m.mem, p, file); }
      SegmentCopied(mem0, m0, m.mem, segs, file, i);
    }
  }

  /** Segments that fit write no more than their own memory. */
  lemma FitsInRam(segs: seq<Segment>, file: seq<Octet>, mem: Memory)
    requires ImageOk(segs, file) && Fits(segs) && ImageInRam(segs, mem)
    ensures WritesInRam(segs, mem)
  {
    hide Loads, ZeroRange, CopyRange, InSegment;
    forall i, x: nat | 0 <= i < |segs| && Loads(segs[i]) && x < TWO64 && Writes(segs[i], x)
      ensures x / 4096 in mem
    {
      SegmentRanges(segs, file, i, x);
    }
  }

  lemma WrittenKeys(mem0: Memory, mem: Memory, p: Segment, file: seq<Octet>)
    requires p.offset + p.filesz <= |file| && SegmentWritten(mem0, mem, p, file)
    ensures mem.Keys == mem0.Keys
  {
  }

  lemma NothingCopied(mem: Memory, segs: seq<Segment>, file: seq<Octet>)
    requires FileOk(segs, file)
    ensures Copied(mem, mem, segs, file, 0)
  {
  }

  lemma SkippedCopied(mem0: Memory, mem: Memory, segs: seq<Segment>, file: seq<Octet>, i: nat)
    requires i < |segs| && FileOk(segs, file) && Copied(mem0, mem, segs, file, i) && !Loads(segs[i])
    ensures Copied(mem0, mem, segs, file, i + 1)
  {
    hide LoadByte, Physical, U64, ZeroRange, CopyRange;
  }

  // ---- what is written where ------------------------------------------------------------------

  /** What is written is one run of bytes, which covers all of memory if the zero fill wraps. */
  lemma WritesRun(p: Segment, x: nat)
    requires p.filesz < TWO64 && x < TWO64
    ensures Writes(p, x) <==> U64(x - Physical(p.vaddr)) < p.filesz + U64(p.memsz - p.filesz)
  {
    hide Physical, U64;
    var a := Physical(p.vaddr);
    var u := U64(x - a);
    U64Shift(x, a, p.filesz);
    U64Of(u - p.filesz);
  }

  lemma U64Shift(x: nat, a: nat, n: nat)
    ensures U64(x - U64(a + n)) == U64(U64(x - a) - n)
  {
    var q, r := (a + n) / TWO64, (x - a) / TWO64;
    assert x - U64(a + n) == x - a - n + q * TWO64;
    assert U64(x - a) - n == x - a - n - r * TWO64;
    U64Multiple(x - a - n, q);
    U64Multiple(x - a - n, -r);
  }

  lemma U64Multiple(d: int, k: int)
    ensures U64(d + k * TWO64) == U64(d)
  {
  }

  /** The range of a kernel image: in the window, in order. */
  lemma ImageRange(segs: seq<Segment>, file: seq<Octet>, i: nat)
    requires ImageOk(segs, file) && i < |segs| && Loads(segs[i])
    ensures var n, p := |segs|, segs[i];
            && KERNEL_MAPPING <= Lowest(segs, n) <= p.vaddr
                 && p.vaddr + p.memsz <= Highest(segs, n) <= KERNEL_MAPPING + 4096 * KERNEL_PAGES
            && Physical(Lowest(segs, n)) == Lowest(segs, n) - KERNEL_MAPPING + 0x100000
            && Physical(Highest(segs, n)) == Highest(segs, n) - KERNEL_MAPPING + 0x100000
            && Physical(p.vaddr) == p.vaddr - KERNEL_MAPPING + 0x100000
  {
    hide Loads, U64;
    var n := |segs|;
    NoWrap(segs, file, i);
    forall j | 0 <= j < n && Loads(segs[j])
      ensures InWindow(segs[j], file) && U64(segs[j].vaddr + segs[j].memsz) == segs[j].vaddr + segs[j].memsz
    {
      NoWrap(segs, file, j);
    }
    PhysicalInWindow(Lowest(segs, n));
    PhysicalInWindow(Highest(segs, n));
    PhysicalInWindow(segs[i].vaddr);
  }

  lemma NoWrap(segs: seq<Segment>, file: seq<Octet>, i: nat)
    requires ImageOk(segs, file) && i < |segs| && Loads(segs[i])
    ensures InWindow(segs[i], file) && U64(segs[i].vaddr + segs[i].memsz) == segs[i].vaddr + segs[i].memsz
  {
  }

  lemma PagesCover(start: nat, end: nat)
    requires start <= end < start + 0x1_0000_0000
    ensures end <= start + 4096 * LoadPages(start, end) < end + 4096
  {
  }

  /** Every byte of a segment lies in the pages allocated for the kernel. */
  lemma SegmentAllocated(segs: seq<Segment>, file: seq<Octet>, i: nat, x: nat)
    requires ImageOk(segs, file) && i < |segs| && InSegment(segs[i], x)
    ensures Allocated(segs, x)
  {
    hide Physical, Lowest, Highest, LoadPages;
    ImageRange(segs, file, i);
    PagesCover(Physical(Lowest(segs, |segs|)), Physical(Highest(segs, |segs|)));
  }

  /** CopyLoadSegments stays inside the pages allocated for the kernel if and only if no segment
      is longer in the file than in memory; otherwise the zero fill runs through all memory. */
  lemma StaysInsideIff(segs: seq<Segment>, file: seq<Octet>)
    requires ImageOk(segs, file)
    ensures (forall i, x: nat :: 0 <= i < |segs| && Loads(segs[i]) && x < TWO64 && Writes(segs[i], x)
               ==> Allocated(segs, x))
       <==> Fits(segs)
  {
    hide Loads, Writes, Allocated;
    if i :| 0 <= i < |segs| && Loads(segs[i]) && segs[i].filesz > segs[i].memsz {
      OverlongWrites(segs, file, i);
    } else {
      forall i, x: nat | 0 <= i < |segs| && Loads(segs[i]) && x < TWO64 && Writes(segs[i], x)
        ensures Allocated(segs, x)
      {
        WritesInSegment(segs, file, i, x);
        SegmentAllocated(segs, file, i, x);
      }
    }
  }

  lemma WritesInSegment(segs: seq<Segment>, file: seq<Octet>, i: nat, x: nat)
    requires ImageOk(segs, file) && i < |segs| && Loads(segs[i]) && segs[i].filesz <= segs[i].memsz && x < TWO64
    ensures Writes(segs[i], x) <==> InSegment(segs[i], x)
  {
    hide ZeroRange, CopyRange, InSegment, Loads;
    SegmentRanges(segs, file, i, x);
  }

  lemma U64Of(d: int)
    requires 0 <= d + TWO64 && d < TWO64
    ensures U64(d) == if d >= 0 then d else d + TWO64
  {
  }

  lemma OverlongWrites(segs: seq<Segment>, file: seq<Octet>, i: nat)
    requires ImageOk(segs, file) && i < |segs| && Loads(segs[i]) && segs[i].filesz > segs[i].memsz
    ensures exists x: nat :: x < TWO64 && Writes(segs[i], x) && !Allocated(segs, x)
  {
    hide Lowest, Highest;
    ImageRange(segs, file, i);
    var x: nat, p := Physical(Lowest(segs, |segs|)) - 1, segs[i];
    hide Physical, U64;
    NoWrap(segs, file, i);
    U64Of(p.memsz - p.filesz);
    WritesRun(p, x);
    assert !Allocated(segs, x);
  }

  // ---- the image through the tables -------------------------------------------------------------

  /** No two segments overlap. */
  predicate Disjoint(segs: seq<Segment>)
  {
    forall i, j :: 0 <= i < j < |segs| && Loads(segs[i]) && Loads(segs[j]) ==>
      segs[i].vaddr + segs[i].memsz <= segs[j].vaddr || segs[j].vaddr + segs[j].memsz <= segs[i].vaddr
  }

  /** What the program expects at address v of a segment. */
  function Intended(p: Segment, file: seq<Octet>, v: nat): Octet
    requires p.vaddr <= v && p.offset + p.filesz <= |file|
  {
    if v - p.vaddr < p.filesz then file[p.offset + (v - p.vaddr)] else 0
  }

  lemma {:induction false} ImageOfSegment(segs: seq<Segment>, file: seq<Octet>, n: nat, i: nat, v: nat)
    requires ImageOk(segs, file) && FileOk(segs, file) && Fits(segs) && Disjoint(segs) && i < n <= |segs|
    requires Loads(segs[i])
    requires segs[i].vaddr <= v < segs[i].vaddr + segs[i].memsz
    ensures InWindow(segs[i], file) && Image(segs, file, n, Physical(v)) == Some(Intended(segs[i], file, v))
    decreases n
  {
    hide Loads, ZeroRange, CopyRange;
    NoWrap(segs, file, i);
    PhysicalInWindow(segs[i].vaddr);
    PhysicalInWindow(v);
    if Loads(segs[n - 1]) {
      NoWrap(segs, file, n - 1);
      PhysicalInWindow(segs[n - 1].vaddr);
      SegmentRanges(segs, file, n - 1, Physical(v));
    }
    if i + 1 < n {
      ImageOfSegment(segs, file, n - 1, i, v);
    }
  }

  /** The physical address of a kernel address by the tables is the one it was loaded to. */
  lemma KernelPage(v: nat)
    requires KERNEL_MAPPING <= v < KERNEL_MAPPING + 4096 * KERNEL_PAGES
    ensures KERNEL_PAGE <= PageOf(v) < KERNEL_PAGE + KERNEL_PAGES
    ensures KernelMap(PageOf(v)).Some? && BootMap(PageOf(v)) == KernelMap(PageOf(v))
    ensures 4096 * KernelMap(PageOf(v)).value.frame + v % 4096 == Physical(v)
  {
    var k := v - KERNEL_MAPPING;
    assert v / 4096 == 0xf_fff8_0000_0000 + k / 4096;
    assert v % 4096 == k % 4096;
    PhysicalInWindow(v);
  }

  /** The pages of the kernel are none of the tables: the firmware handed them out separately. */
  ghost predicate ImageApart(segs: seq<Segment>, l: Layout)
  {
    forall i, x: nat :: 0 <= i < |segs| && InSegment(segs[i], x) ==> !InTables(l, x / 4096)
  }

  /** Translating v by the given tables and reading the byte there. */
  function ReadVirtual(mem: Memory, root: nat, v: nat): Option<Octet>
  {
    match Walk(mem, root, 4, PageOf(v))
    case None => None
    case Some(m) => Some(LoadByte(mem, 4096 * m.frame + v % 4096))
  }

  /** Reading any address of a segment through the boot tables, before and after their first
      entry is cleared, yields the byte of the file or the zero fill. */
  lemma ImageThroughTables(mem0: Memory, mem1: Memory, mem2: Memory, l: Layout, segs: seq<Segment>, file: seq<Octet>,
                           i: nat, v: nat)
    requires ImageOk(segs, file) && FileOk(segs, file) && Fits(segs) && Disjoint(segs)
    requires Copied(mem0, mem1, segs, file, |segs|)
    requires Placed(mem1, l) && TablesBuilt(mem1, mem2, l) && ImageApart(segs, l)
    requires i < |segs| && Loads(segs[i]) && segs[i].vaddr <= v < segs[i].vaddr + segs[i].memsz
    ensures Readable(mem2, l.pml4, segs[i], file, v) && Readable(Unmapped(mem2, l), l.pml4, segs[i], file, v)
  {
    hide Walk, LoadByte, Placed, TablesBuilt, InTables, Physical, Intended, Loads, BootMap, KernelMap;
    NoWrap(segs, file, i);
    KernelPage(v);
    ImageOfSegment(segs, file, |segs|, i, v);
    var x := Physical(v);
    assert LoadByte(mem1, x) == Intended(segs[i], file, v);
    BootWalk(mem1, mem2, l, PageOf(v));
    UnmappedWalk(mem1, mem2, l, PageOf(v));
    assert !InTables(l, x / 4096) by { PhysicalSegment(segs, file, i, v); }
    SameByte(mem1, mem2, l, x);
  }

  lemma PhysicalSegment(segs: seq<Segment>, file: seq<Octet>, i: nat, v: nat)
    requires ImageOk(segs, file) && i < |segs| && Loads(segs[i]) && segs[i].vaddr <= v < segs[i].vaddr + segs[i].memsz
    ensures InSegment(segs[i], Physical(v))
  {
    NoWrap(segs, file, i);
    PhysicalInWindow(segs[i].vaddr);
    PhysicalInWindow(v);
  }

  lemma SameByte(mem1: Memory, mem2: Memory, l: Layout, x: nat)
    requires Placed(mem1, l) && TablesBuilt(mem1, mem2, l) && !InTables(l, x / 4096)
    ensures LoadByte(mem2, x) == LoadByte(mem1, x) && LoadByte(Unmapped(mem2, l), x) == LoadByte(mem1, x)
  {
    hide Placed, InTables, Byte, Value;
    UnmappedWord(mem1, mem2, l, x / 4096, x % 4096 / 8);
  }

  /** All bytes of all segments lie in the pages from start on. */
  ghost predicate AllAllocated(segs: seq<Segment>, start: nat, pages: nat)
  {
    forall i :: 0 <= i < |segs| && segs[i].kind % 0x1_0000 == 1 && segs[i].memsz > 0 ==>
      start <= segs[i].vaddr - KERNEL_MAPPING + 0x100000 <= start + 4096 * pages - segs[i].memsz
  }

  /** Physical address x is outside all segments. */
  predicate Elsewhere(segs: seq<Segment>, x: nat)
  {
    forall i :: 0 <= i < |segs| && segs[i].kind % 0x1_0000 == 1 ==>
      !(segs[i].vaddr <= x + KERNEL_MAPPING - 0x100000 < segs[i].vaddr + segs[i].memsz)
  }

  lemma {:induction false} ImageElsewhere(segs: seq<Segment>, file: seq<Octet>, n: nat, x: nat)
    requires ImageOk(segs, file) && FileOk(segs, file) && Fits(segs) && n <= |segs| && x < TWO64 && Elsewhere(segs, x)
    ensures Image(segs, file, n, x) == None
    decreases n
  {
    hide Loads, ZeroRange, CopyRange, Physical;
    if n > 0 {
      ImageElsewhere(segs, file, n - 1, x);
      LoadsType(segs[n - 1]);
      if Loads(segs[n - 1]) {
        NoWrap(segs, file, n - 1);
        PhysicalInWindow(segs[n - 1].vaddr);
        SegmentRanges(segs, file, n - 1, x);
      }
    }
  }

  /** Outside the segments and the tables all bytes are as before. */
  ghost predicate OthersKept(mem0: Memory, mem: Memory, segs: seq<Segment>, l: Layout)
  {
    forall x: nat :: x < TWO64 && Elsewhere(segs, x) && !InTables(l, x / 4096) ==> LoadByte(mem, x) == LoadByte(mem0, x)
  }

  lemma LoadedOthers(mem0: Memory, mem1: Memory, mem2: Memory, l: Layout, segs: seq<Segment>, file: seq<Octet>)
    requires ImageOk(segs, file) && FileOk(segs, file) && Fits(segs)
    requires Copied(mem0, mem1, segs, file, |segs|) && Placed(mem1, l) && TablesBuilt(mem1, mem2, l)
    ensures OthersKept(mem0, mem2, segs, l)
  {
    hide ImageOk, FileOk, Fits, Elsewhere, InTables, LoadByte, Placed, TablesBuilt, Image;
    forall x: nat | x < TWO64 && Elsewhere(segs, x) && !InTables(l, x / 4096)
      ensures LoadByte(mem2, x) == LoadByte(mem0, x)
    {
      ImageElsewhere(segs, file, |segs|, x);
      SameByte(mem1, mem2, l, x);
    }
  }

  /** Reading address v of segment p through the tables gives what the program expects there. */
  predicate Readable(mem: Memory, root: nat, p: Segment, file: seq<Octet>, v: nat)
  {
    InWindow(p, file) && p.vaddr <= v && ReadVirtual(mem, root, v) == Some(Intended(p, file, v))
  }

  ghost predicate AllReadable(mem: Memory, root: nat, segs: seq<Segment>, file: seq<Octet>)
  {
    forall i, v: nat :: 0 <= i < |segs| && segs[i].kind % 0x1_0000 == 1
                        && segs[i].vaddr <= v < segs[i].vaddr + segs[i].memsz
      ==> Readable(mem, root, segs[i], file, v)
  }

  lemma AllThroughTables(mem0: Memory, mem1: Memory, mem2: Memory, l: Layout, segs: seq<Segment>, file: seq<Octet>)
    requires ImageOk(segs, file) && FileOk(segs, file) && Fits(segs) && Disjoint(segs)
    requires Copied(mem0, mem1, segs, file, |segs|)
    requires Placed(mem1, l) && TablesBuilt(mem1, mem2, l) && ImageApart(segs, l)
    ensures AllReadable(mem2, l.pml4, segs, file) && AllReadable(Unmapped(mem2, l), l.pml4, segs, file)
  {
    hide Copied, Placed, TablesBuilt, InSegment, Loads, ImageApart, ImageOk, FileOk, Fits, Readable, Unmapped, Disjoint;
    hide Physical, LoadPages, Lowest, Highest;
    forall i, v: nat | 0 <= i < |segs| && segs[i].kind % 0x1_0000 == 1
                       && segs[i].vaddr <= v < segs[i].vaddr + segs[i].memsz
      ensures Readable(mem2, l.pml4, segs[i], file, v) && Readable(Unmapped(mem2, l), l.pml4, segs[i], file, v)
    {
      LoadsType(segs[i]);
      ImageThroughTables(mem0, mem1, mem2, l, segs, file, i, v);
    }
  }

  lemma AllInside(segs: seq<Segment>, file: seq<Octet>, start: nat, end: nat)
    requires ImageOk(segs, file) && start == Physical(Lowest(segs, |segs|)) && end == Physical(Highest(segs, |segs|))
    ensures AllAllocated(segs, start, LoadPages(start, end))
  {
    hide ImageOk, Physical, LoadPages, Lowest, Highest, Loads;
    forall i | 0 <= i < |segs| && segs[i].kind % 0x1_0000 == 1 && segs[i].memsz > 0
      ensures start <= segs[i].vaddr - KERNEL_MAPPING + 0x100000
              <= start + 4096 * LoadPages(start, end) - segs[i].memsz
    {
      LoadsType(segs[i]);
      ByteAllocated(segs, file, i, segs[i].vaddr);
      ByteAllocated(segs, file, i, segs[i].vaddr + segs[i].memsz - 1);
    }
  }

  lemma ByteAllocated(segs: seq<Segment>, file: seq<Octet>, i: nat, v: nat)
    requires ImageOk(segs, file) && i < |segs| && Loads(segs[i]) && segs[i].vaddr <= v < segs[i].vaddr + segs[i].memsz
    ensures Allocated(segs, v - KERNEL_MAPPING + 0x100000)
  {
    hide Allocated, Physical, Loads;
    NoWrap(segs, file, i);
    PhysicalSegment(segs, file, i, v);
    PhysicalInWindow(v);
    SegmentAllocated(segs, file, i, Physical(v));
  }

  /** The part of `BootMain` that loads the kernel and builds the tables: everything loaded lies
      in the pages requested for it and is found at its kernel address. */
  method LoadKernel(m: Loader, segs: seq<Segment>, file: seq<Octet>, l: Layout)
    returns (start: nat, pages: nat, ghost loaded: Memory)
    requires ImageOk(segs, file) && |file| < TWO64 && ImageInRam(segs, m.mem) && Disjoint(segs) && Fits(segs)
    requires Placed(m.mem, l) && ImageApart(segs, l)
    modifies m
    ensures AllAllocated(segs, start, pages)
    ensures AllReadable(m.mem, l.pml4, segs, file) && AllReadable(Unmapped(m.mem, l), l.pml4, segs, file)
    ensures OthersKept(old(m.mem), m.mem, segs, l)
    ensures loaded.Keys == old(m.mem).Keys && Placed(loaded, l) && TablesBuilt(loaded, m.mem, l)
  {
    hide Copied, Placed, TablesBuilt, Loads, ImageInRam, ImageApart, ImageOk, FileOk, Fits, WritesInRam, AllAllocated;
    hide AllReadable, Disjoint, Physical, LoadPages, OthersKept;
    var end;
    start, end := CalcLoadAddressRange(segs);
    pages := LoadPages(start, end);
    AllInside(segs, file, start, end);
    ghost var mem0 := m.mem;
    ImageInFile(segs, file);
    FitsInRam(segs, file, m.mem);
    CopyLoadSegments(m, segs, file);
    loaded := m.mem;
    CopiedKeys(mem0, loaded, segs, file);
    PlacedKeys(mem0, loaded, l);
    m.BuildTables(l);
    AllThroughTables(mem0, loaded, m.mem, l, segs, file);
    LoadedOthers(mem0, loaded, m.mem, l, segs, file);
  }

  lemma CopiedKeys(mem0: Memory, mem: Memory, segs: seq<Segment>, file: seq<Octet>)
    requires FileOk(segs, file) && Copied(mem0, mem, segs, file, |segs|)
    ensures mem.Keys == mem0.Keys
  {
  }

  lemma PlacedKeys(mem0: Memory, mem: Memory, l: Layout)
    requires Placed(mem0, l) && mem.Keys == mem0.Keys
    ensures Placed(mem, l)
  {
    forall f | f in mem0
      ensures f in mem
    {
      assert f in mem0.Keys;
    }
  }
}
