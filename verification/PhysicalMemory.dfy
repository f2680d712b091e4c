/**
 Physical memory as the kernel sees it: 4096-byte frames of 512 machine words.
 A word is the union `PML4E` of include/paging.h: one 64-bit number that can also
 be read as the bit fields of a page-table entry.  The same words hold page tables,
 the headers of the free list and plain data.
 */
module PhysicalMemory {

  type Bits4 = n: nat | n < 0x10
  type Bits12 = n: nat | n < 0x1000
  type Bits40 = n: nat | n < 0x100_0000_0000

  const TWO64: nat := 0x1_0000_0000_0000_0000
  const ENTRIES: nat := 512

  /** Sizes of the windows of boot/boot.c in pages: 128 GB of identity mapping, 32 MB for the
      kernel, 640 GB of direct map. */
  const IDENTITY_PAGES: nat := 0x200_0000
  const KERNEL_PAGES: nat := 0x2000
  const DIRECT_PAGES: nat := 0xa00_0000

  /** The bit-field view of a 64-bit word, least significant field first.
      `low` is bits 3-6, `ps` bit 7, `mid` bits 8-11, `frame` bits 12-51, `high` bits 52-63. */
  datatype Word = Word(p: bool, rw: bool, us: bool, low: Bits4, ps: bool, mid: Bits4, frame: Bits40, high: Bits12)

  const ZERO: Word := Word(false, false, false, 0, false, 0, 0, 0)

  function Bit(b: bool): (n: nat)
    ensures n < 2
  {
    if b then 1 else 0
  }

  /** The numeric view of a word (`data` in the union). */
  function Value(w: Word): (n: nat)
    ensures n < TWO64
  {
    Bit(w.p) + 2 * (Bit(w.rw) + 2 * (Bit(w.us) + 2 * (w.low + 16 * (Bit(w.ps) + 2 * (w.mid + 16 *
    (w.frame + 0x100_0000_0000 * w.high))))))
  }

  /** The bit-field view of a number. */
  function FromValue(n: nat): (w: Word)
    requires n < TWO64
  {
    var n1 := n / 2;
    var n2 := n1 / 2;
    var n3 := n2 / 2;
    var n7 := n3 / 16;
    var n8 := n7 / 2;
    var n12 := n8 / 16;
    Word(n % 2 == 1, n1 % 2 == 1, n2 % 2 == 1, n3 % 16, n7 % 2 == 1, n8 % 16, n12 % 0x100_0000_0000,
         n12 / 0x100_0000_0000)
  }

  /** The two views of the union agree: a word is determined by its number ... */
  lemma FromValueOfValue(w: Word)
    ensures FromValue(Value(w)) == w
  {
    var n12 := w.frame + 0x100_0000_0000 * w.high;
    var n8 := w.mid + 16 * n12;
    var n7 := Bit(w.ps) + 2 * n8;
    var n3 := w.low + 16 * n7;
    var n2 := Bit(w.us) + 2 * n3;
    var n1 := Bit(w.rw) + 2 * n2;
    assert Value(w) == Bit(w.p) + 2 * n1;
    assert Value(w) / 2 == n1;
    assert n1 / 2 == n2;
    assert n2 / 2 == n3;
    assert n3 / 16 == n7;
    assert n7 / 2 == n8;
    assert n8 / 16 == n12;
  }

  /** ... and every 64-bit number is the number of its word. */
  lemma ValueOfFromValue(n: nat)
    requires n < TWO64
    ensures Value(FromValue(n)) == n
  {
  }

  type Page = p: seq<Word> | |p| == ENTRIES witness seq(ENTRIES, _ => ZERO)

  function ZeroPage(): (p: Page)
    ensures forall i :: 0 <= i < ENTRIES ==> p[i] == ZERO
  {
    seq(ENTRIES, _ => ZERO)
  }

  /** Memory content by frame number; frames outside the map are not RAM. */
  type Memory = map<nat, Page>

  /** A load; loads from outside RAM read zero. */
  function Load(mem: Memory, f: nat, i: nat): Word
    requires i < ENTRIES
  {
    if f in mem then mem[f][i] else ZERO
  }

  /** A store; stores outside RAM are lost. */
  function Store(mem: Memory, f: nat, i: nat, w: Word): (r: Memory)
    requires i < ENTRIES
    ensures r.Keys == mem.Keys
    ensures forall g: nat, j: nat :: j < ENTRIES
              ==> Load(r, g, j) == (if g == f && j == i && f in mem then w else Load(mem, g, j))
  {
    if f in mem then mem[f := mem[f][i := w]] else mem
  }

  /** `memset(frame, 0, 4096)`. */
  function Clear(mem: Memory, f: nat): (r: Memory)
    ensures r.Keys == mem.Keys
    ensures forall g: nat, j: nat :: j < ENTRIES ==> Load(r, g, j) == (if g == f then ZERO else Load(mem, g, j))
  {
    if f in mem then mem[f := ZeroPage()] else mem
  }
}
