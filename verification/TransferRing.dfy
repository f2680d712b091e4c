/**
 The producer side of an xHCI ring: `new_ring`, `write_ring_static` and `write_ring` of
 kernel/xhci.c, and the 32-bit stores they make, in order.
 */
module TransferRing {

  type Dword = n: nat | n < 0x1_0000_0000

  /** The physical address of a page. */
  type Base = n: nat | n < 0x1_0000_0000_0000_0000 && n % 4096 == 0

  datatype Trb = Trb(d0: Dword, d1: Dword, d2: Dword, d3: Dword)

  /** Dwords in the ring, and the slot of the Link TRB (`ring_size - 1`). */
  const DWORDS: nat := 1024
  const LAST: nat := 255

  /** `d3 | cycle_bit` */
  function WithCycle(d3: Dword, cycle: bool): (r: Dword)
    ensures cycle ==> r % 2 == 1
    ensures r / 2 == d3 / 2
  {
    if cycle && d3 % 2 == 0 then d3 + 1 else d3
  }

  function CycleBit(d3: Dword): bool
  {
    d3 % 2 == 1
  }

  /** The field `type` of a TRB. */
  function Type(d3: Dword): nat
  {
    d3 / 1024 % 64
  }

  const LINK: nat := 6

  /** A TRB as callers of write_ring build it: cycle bit clear, no Link TRB. */
  predicate Template(t: Trb)
  {
    t.d3 % 2 == 0 && Type(t.d3) != LINK
  }

  /** The Link TRB back to the start, with the toggle-cycle flag. */
  function LinkTrb(base: Base): Trb
  {
    Trb(base % 0x1_0000_0000, base / 0x1_0000_0000, 0, LINK * 1024 + 2)
  }

  /** Dword i of a TRB as it is stored. */
  function Stored(t: Trb, cycle: bool, i: nat): Dword
    requires i < 4
  {
    match i
    case 0 => t.d0
    case 1 => t.d1
    case 2 => t.d2
    case _ => WithCycle(t.d3, cycle)
  }

  // ---- the stores of write_ring -----------------------------------------------------------

  /** One 32-bit store; `pos` counts dwords from the start of the ring. */
  datatype Store = Store(pos: nat, value: Dword)

  /** `write_ring_static`: the dword with the cycle bit comes last. */
  function TrbStores(index: nat, t: Trb, cycle: bool): (r: seq<Store>)
    ensures |r| == 4 && forall i :: 0 <= i < 4 ==> r[i].pos == 4 * index + i
  {
    seq(4, i requires 0 <= i < 4 => Store(4 * index + i, Stored(t, cycle, i)))
  }

  /** `write_ring`: the TRB, and the Link TRB when the last free slot was filled. */
  function WriteStores(index: nat, cycle: bool, base: Base, t: Trb): (r: seq<Store>)
    ensures |r| == if index + 1 == LAST then 8 else 4
  {
    TrbStores(index, t, cycle) + if index + 1 == LAST then TrbStores(LAST, LinkTrb(base), cycle) else []
  }

  function Apply(mem: seq<Dword>, stores: seq<Store>): (r: seq<Dword>)
    requires forall i :: 0 <= i < |stores| ==> stores[i].pos < |mem|
    ensures |r| == |mem|
    decreases |stores|
  {
    if stores == [] then mem else Apply(mem[stores[0].pos := stores[0].value], stores[1..])
  }

  lemma {:induction false} ApplySnoc(mem: seq<Dword>, stores: seq<Store>, x: Store)
    requires forall i :: 0 <= i < |stores| ==> stores[i].pos < |mem|
    requires x.pos < |mem|
    ensures Apply(mem, stores + [x]) == Apply(mem, stores)[x.pos := x.value]
    decreases |stores|
  {
    if stores == [] {
      assert (stores + [x])[1..] == [];
    } else {
      assert (stores + [x])[1..] == stores[1..] + [x];
      ApplySnoc(mem[stores[0].pos := stores[0].value], stores[1..], x);
    }
  }

  lemma {:induction false} ApplyConcat(mem: seq<Dword>, a: seq<Store>, b: seq<Store>)
    requires forall i :: 0 <= i < |a| ==> a[i].pos < |mem|
    requires forall i :: 0 <= i < |b| ==> b[i].pos < |mem|
    ensures Apply(mem, a + b) == Apply(Apply(mem, a), b)
    decreases |a|
  {
    if a == [] {
      assert a + b == b;
    } else {
      assert (a + b)[1..] == a[1..] + b;
      ApplyConcat(mem[a[0].pos := a[0].value], a[1..], b);
    }
  }

  /** `struct ring` with its buffer; `log` records the stores in order. */
  class Ring {
    const buf: array<Dword>
    /** V2P(buf) */
    const base: Base
    var index: nat
    var cycle: bool
    ghost var log: seq<Store>

    ghost predicate Valid()
      reads this
    {
      buf.Length == DWORDS && index < LAST
    }

    /** `new_ring` */
    constructor (base: Base)
        ensures Valid() && fresh(buf) && this.base == base
      ensures index == 0 && cycle && log == [] && buf[..] == seq(DWORDS, _ => 0)
    {
      buf := new Dword[DWORDS](_ => 0);
      this.base := base;
      index, cycle, log := 0, true, [];
    }

    /** `write_ring_static` */
    method WriteStatic(at: nat, t: Trb, cycleBit: bool)
      requires buf.Length == DWORDS && at <= LAST
      modifies buf, `log
      ensures log == old(log) + TrbStores(at, t, cycleBit)
      ensures buf[..] == Apply(old(buf[..]), TrbStores(at, t, cycleBit))
    {
      ghost var stores := TrbStores(at, t, cycleBit);
      for i := 0 to 3
        invariant log == old(log) + stores[..i]
        invariant buf[..] == Apply(old(buf[..]), stores[..i])
      {
        assert stores[i] == Store(4 * at + i, Stored(t, cycleBit, i));
        ApplySnoc(old(buf[..]), stores[..i], stores[i]);
        assert stores[..i + 1] == stores[..i] + [stores[i]];
        buf[4 * at + i] := Stored(t, cycleBit, i);
        log := log + [stores[i]];
      }
      ApplySnoc(old(buf[..]), stores[..3], stores[3]);
      assert stores == stores[..3] + [stores[3]];
      buf[4 * at + 3] := WithCycle(t.d3, cycleBit);
      log := log + [stores[3]];
    }

    /** `write_ring`: exactly the stores of `WriteStores`, in that order. */
    method Write(t: Trb)
      requires Valid()
      modifies this, buf
      ensures Valid() && log == old(log) + WriteStores(old(index), old(cycle), base, t)
      ensures buf[..] == Apply(old(buf[..]), WriteStores(old(index), old(cycle), base, t))
      ensures index == if old(index) + 1 == LAST then 0 else old(index) + 1
      ensures cycle == if old(index) + 1 == LAST then !old(cycle) else old(cycle)
    {
      ghost var first := TrbStores(index, t, cycle);
      WriteStatic(index, t, cycle);
      index := index + 1;
      assert first + [] == first;
      if index == LAST {
        ghost var second := TrbStores(LAST, LinkTrb(base), cycle);
        ApplyConcat(old(buf[..]), first, second);
        WriteStatic(LAST, LinkTrb(base), cycle);
        index := 0;
        cycle := !cycle;
      }
    }
  }
}
