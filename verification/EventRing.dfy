/**
 The consumer side of the xHCI event ring: `getTRB`, `write_event_ring`, `er_isQueued` and
 `get_eventring` of kernel/xhci.c, on the ring and the two halves of ERDP.
 */
module EventRing {
  import opened TransferRing
  import opened RingProtocol

  /** TRBs in the one segment of the event ring. */
  const EVENTS: nat := 256
  const TWO32: nat := 0x1_0000_0000

  /** A pointer as written to ERDP, with the event handler busy flag. */
  function ErdpLo(p: nat): Dword
  {
    var d := p % TWO32;
    if d / 8 % 2 == 1 || d + 8 >= TWO32 then d else d + 8
  }

  function ErdpHi(p: nat): Dword
  {
    p / TWO32 % TWO32
  }

  /** Where `write_event_ring` moves the pointer. */
  function NextErdp(base: Base, p: nat): nat
  {
    if p + 16 == base + 4096 then base else p + 16
  }

  // ---- the code -----------------------------------------------------------------------------

  /** `event_ring` and the ERDP registers; `writes` records the register writes in order. */
  class Consumer {
    const buf: array<Dword>
    const base: Base
    var cycle: bool
    var erdpLo: Dword
    var erdpHi: Dword
    ghost var writes: seq<Dword>

    /** ERDP points into the ring. */
    ghost predicate Valid()
      reads this
    {
      buf.Length == DWORDS && base <= Pointer(erdpLo, erdpHi) < base + 4096 && Pointer(erdpLo, erdpHi) % 16 == 0
    }

    /** `new_ring(&event_ring)` and the first value of ERDP. */
    constructor (base: Base)
      ensures Valid() && fresh(buf) && this.base == base
      ensures cycle && Pointer(erdpLo, erdpHi) == base && buf[..] == seq(DWORDS, _ => 0) && writes == []
    {
      hide Pointer;
      PointerOfBase(base);
      assert base % 4096 == 0;
      Aligned(base / 4096);
      buf := new Dword[DWORDS](_ => 0);
      this.base := base;
      cycle, erdpLo, erdpHi, writes := true, base % TWO32, base / TWO32, [];
    }

    /** `getTRB` */
    method GetTrb() returns (trb: nat)
      ensures trb == Pointer(erdpLo, erdpHi)
    {
      trb := erdpLo - erdpLo % 16 + TWO32 * erdpHi;
    }

    /** `er_isQueued` */
    method IsQueued() returns (queued: bool)
      requires Valid()
      ensures queued <==> CycleBit(buf[(Pointer(erdpLo, erdpHi) - base) / 4 + 3]) == cycle
    {
      hide Pointer;
      var trb := GetTrb();
      queued := CycleBit(buf[(trb - base) / 4 + 3]) == cycle;
    }

    /** `write_event_ring`: ERDP moves to the next TRB, back to the first behind the last; only
        then the cycle bit flips. */
    method Advance()
      requires Valid()
      modifies this
      ensures Valid() && var p := old(Pointer(erdpLo, erdpHi));
              && Pointer(erdpLo, erdpHi) == NextErdp(base, p)
              && cycle == (if p + 16 == base + 4096 then !old(cycle) else old(cycle))
              && writes == old(writes) + [ErdpLo(NextErdp(base, p)), ErdpHi(NextErdp(base, p))]
    {
      hide Pointer, ErdpLo, ErdpHi;
      ghost var p := Pointer(erdpLo, erdpHi);
      NextInRing(base, p);
      WrittenErdp(base, NextErdp(base, p));
      var trb := GetTrb();
      trb := trb + 16;
      if trb == base + 4096 {
        cycle := !cycle;
        erdpLo := ErdpLo(base);
        erdpHi := ErdpHi(base);
      } else {
        erdpLo := ErdpLo(trb);
        erdpHi := ErdpHi(trb);
      }
      writes := writes + [erdpLo, erdpHi];
    }

    /** `get_eventring`, once an event is there: it returns the address of the event. */
    method GetEvent() returns (trb: nat)
      requires Valid() && CycleBit(buf[(Pointer(erdpLo, erdpHi) - base) / 4 + 3]) == cycle
      modifies this
      ensures Valid() && trb == old(Pointer(erdpLo, erdpHi)) && Pointer(erdpLo, erdpHi) == NextErdp(base, trb)
      ensures cycle == (if trb + 16 == base + 4096 then !old(cycle) else old(cycle))
      ensures writes == old(writes) + [ErdpLo(NextErdp(base, trb)), ErdpHi(NextErdp(base, trb))]
    {
      hide Pointer, ErdpLo, ErdpHi;
      trb := GetTrb();
      Advance();
    }
  }

  lemma NextInRing(base: Base, p: nat)
    requires base <= p < base + 4096 && p % 16 == 0
    ensures base <= NextErdp(base, p) < base + 4096 && NextErdp(base, p) % 16 == 0
  {
    var i, b := p / 16, base / 4096;
    assert p == 16 * i && base == 4096 * b;
    assert i < 256 * b + 256;
    Sixteenth(i + 1);
    Sixteenth(256 * b);
  }

  lemma Sixteenth(i: int)
    ensures 16 * i % 16 == 0 && 16 * i / 16 == i
  {
  }

  lemma DivUnique(p: nat, q: nat, r: nat)
    requires p == TWO32 * q + r && r < TWO32
    ensures p / TWO32 == q && p % TWO32 == r
  {
  }

  /** Reading ERDP back gives the pointer written, with the event handler busy flag set. */
  lemma WrittenErdp(base: Base, p: nat)
    requires base <= p < base + 4096 && p % 16 == 0
    ensures Pointer(ErdpLo(p), ErdpHi(p)) == p && ErdpHi(p) == base / TWO32
    ensures ErdpLo(p) / 8 % 2 == 1 && ErdpLo(p) == p % 0x1_0000_0000 + 8
  {
    SamePage(base, p);
    FlagDropped(p % TWO32);
  }

  lemma FlagDropped(d: nat)
    requires d < TWO32 && d % 16 == 0
    ensures d + 8 < TWO32 && (d + 8) - (d + 8) % 16 == d && d / 8 % 2 == 0
  {
  }

  /** All addresses of a page agree in their upper 32 bits. */
  lemma SamePage(base: Base, p: nat)
    requires base <= p < base + 4096
    ensures p / TWO32 == base / TWO32 && p % TWO32 == base % TWO32 + (p - base) && (p % 16 == 0 ==> p % TWO32 % 16 == 0)
    ensures p / TWO32 < TWO32
  {
    var q, r, b := base / TWO32, base % TWO32, base / 4096;
    assert base == TWO32 * q + r && base == 4096 * b && q < TWO32;
    var k := b - 0x10_0000 * q;
    assert r == 4096 * k;
    assert k < 0x10_0000;
    DivUnique(p, q, r + (p - base));
    if p % 16 == 0 {
      var i := p / 16;
      assert p == 16 * i;
      Sixteenth(i - 0x1000_0000 * q);
    }
  }
}
