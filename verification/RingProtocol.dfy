/**
 A ring shared by `write_ring` and a controller that follows the cycle bit and the Link TRB
 (section 4.9.2 of the xHCI specification, revision 1.2).  Every 32-bit store of the kernel
 and every 32-bit load of the controller is a step of its own, in any interleaving.
 */
module RingProtocol {
  import opened TransferRing

  /** The controller's side: the address it reads next, its cycle state, and the dwords of the
      TRB at that address read so far, the one with the cycle bit first. */
  datatype Controller = Controller(dequeue: nat, cycle: bool, got: seq<Dword>)

  /** `pending` are the stores of write_ring that are still to come; `written` and `fetched` are
      the TRBs passed to write_ring and taken by the controller so far. */
  datatype System = System(base: Base, mem: seq<Dword>, index: nat, cycle: bool, pending: seq<Store>,
                           c: Controller, written: seq<Trb>, fetched: seq<Trb>)

  datatype Action = Begin(t: Trb) | Put | Read

  /** A new ring, handed to the controller with its cycle state set (CRCR, or tr_pointer). */
  function Initial(base: Base): System
  {
    System(base, seq(DWORDS, _ => 0), 0, true, [], Controller(base, true, []), [], [])
  }

  function DwordAt(s: System, addr: nat): Dword
  {
    if s.base <= addr && (addr - s.base) / 4 < |s.mem| then s.mem[(addr - s.base) / 4] else 0
  }

  function Outstanding(s: System): int
  {
    |s.written| - |s.fetched|
  }

  /** write_ring is called with at most bound TRBs outstanding afterwards. */
  predicate Enabled(bound: nat, s: System, a: Action)
  {
    match a
    case Begin(t) => s.pending == [] && Template(t) && Outstanding(s) < bound
    case Put => s.pending != []
    case Read => true
  }

  /** The cycle bit at the controller's position says that the TRB there is for it. */
  predicate Ready(s: System)
  {
    s.c.got != [] || CycleBit(DwordAt(s, s.c.dequeue + 12)) == s.c.cycle
  }

  /** The 16-byte aligned address in the first two dwords of a Link TRB. */
  function Pointer(d0: nat, d1: nat): nat
  {
    d0 - d0 % 16 + 0x1_0000_0000 * d1
  }

  /** The controller reads the dword with the cycle bit, then the others; a Link TRB moves it
      and, with the toggle flag, flips its cycle state; any other TRB is taken. */
  function ReadStep(s: System): System
  {
    if s.c.got == [] then
      if Ready(s) then s.(c := s.c.(got := [DwordAt(s, s.c.dequeue + 12)])) else s
    else if |s.c.got| < 3 then
      s.(c := s.c.(got := s.c.got + [DwordAt(s, s.c.dequeue + 4 * (|s.c.got| - 1))]))
    else
      var d3, d0, d1, d2 := s.c.got[0], s.c.got[1], s.c.got[2], DwordAt(s, s.c.dequeue + 8);
      if Type(d3) == LINK then
        s.(c := Controller(Pointer(d0, d1), if d3 / 2 % 2 == 1 then !s.c.cycle else s.c.cycle, []))
      else
        s.(c := Controller(s.c.dequeue + 16, s.c.cycle, []), fetched := s.fetched + [Trb(d0, d1, d2, d3 - d3 % 2)])
  }

  function Step(s: System, a: Action): System
  {
    match a
    case Begin(t) =>
      s.(pending := WriteStores(s.index, s.cycle, s.base, t), written := s.written + [t],
         index := if s.index + 1 == LAST then 0 else s.index + 1,
         cycle := if s.index + 1 == LAST then !s.cycle else s.cycle)
    case Put =>
      if s.pending == [] || s.pending[0].pos >= |s.mem| then s
      else s.(mem := s.mem[s.pending[0].pos := s.pending[0].value], pending := s.pending[1..])
    case Read => ReadStep(s)
  }

  predicate RunEnabled(bound: nat, s: System, acts: seq<Action>)
    decreases |acts|
  {
    acts == [] || (Enabled(bound, s, acts[0]) && RunEnabled(bound, Step(s, acts[0]), acts[1..]))
  }

  function Run(s: System, acts: seq<Action>): System
    decreases |acts|
  {
    if acts == [] then s else Run(Step(s, acts[0]), acts[1..])
  }

  // ---- laps and slots -----------------------------------------------------------------------

  /** The slot and the lap of the t-th TRB, and the cycle bit of a lap. */
  function Slot(t: nat): (r: nat)
    ensures r < LAST
  {
    t % LAST
  }

  function Lap(t: nat): nat
  {
    t / LAST
  }

  predicate Cyc(lap: int)
  {
    lap % 2 == 0
  }

  lemma NextSlot(t: nat)
    ensures Slot(t) == LAST - 1 ==> Slot(t + 1) == 0 && Lap(t + 1) == Lap(t) + 1
    ensures Slot(t) != LAST - 1 ==> Slot(t + 1) == Slot(t) + 1 && Lap(t + 1) == Lap(t)
    ensures Slot(t + LAST) == Slot(t) && Lap(t + LAST) == Lap(t) + 1
    ensures t == LAST * Lap(t) + Slot(t)
    ensures Cyc(Lap(t) + 1) == !Cyc(Lap(t))
  {
  }

  lemma SlotsDiffer(t: nat, u: nat)
    requires t < u < t + LAST
    ensures Slot(t) != Slot(u)
  {
  }

  // ---- the invariant ------------------------------------------------------------------------

  /** Number of stores for the Link TRB in the write of the n-th TRB. */
  function LinkPart(n: nat): nat
  {
    if n > 0 && Slot(n) == 0 then 4 else 0
  }

  /** TRBs whose cycle bit is stored. */
  function Committed(s: System): int
  {
    if |s.pending| > LinkPart(|s.written|) then |s.written| - 1 else |s.written|
  }

  /** How often the Link TRB's cycle bit was stored. */
  function Links(s: System): int
  {
    if LinkPart(|s.written|) > 0 && s.pending != [] then Lap(|s.written|) - 1 else Lap(|s.written|)
  }

  /** Stores already made by the call in progress. */
  function Done(s: System): int
  {
    4 + LinkPart(|s.written|) - |s.pending|
  }

  predicate ProducerOk(s: System)
  {
    var n := |s.written|;
    && s.index == Slot(n) && s.cycle == Cyc(Lap(n))
    && (forall t :: 0 <= t < n ==> Template(s.written[t]))
    && (s.pending != [] ==>
          && n > 0 && 0 <= Done(s)
          && s.pending == WriteStores(Slot(n - 1), Cyc(Lap(n - 1)), s.base, s.written[n - 1])[Done(s)..])
  }

  /** The first k dwords of the slot hold the TRB. */
  predicate Holds(mem: seq<Dword>, slot: nat, t: Trb, cycle: bool, k: nat)
    requires |mem| == DWORDS && slot <= LAST && k <= 4
  {
    forall i :: 0 <= i < k ==> mem[4 * slot + i] == Stored(t, cycle, i)
  }

  /** The TRBs of the last lap are in their slots, the slot after them is not for the controller,
      and a TRB being written is there without its cycle bit. */
  predicate SlotsOk(s: System)
    requires 0 <= Committed(s) && 0 <= Done(s) && |s.mem| == DWORDS
  {
    var n, done := |s.written|, Committed(s);
    && (forall t :: 0 <= t < done && n - LAST <= t ==> Holds(s.mem, Slot(t), s.written[t], Cyc(Lap(t)), 4))
    && CycleBit(s.mem[4 * Slot(done) + 3]) != Cyc(Lap(done))
    && (forall j :: done <= j < LAST ==> s.mem[4 * j + 3] == 0)
    && (done < n ==> Done(s) < 4 && Holds(s.mem, Slot(done), s.written[done], Cyc(Lap(done)), Done(s)))
  }

  /** The Link TRB carries the cycle bit of the last lap that was closed. */
  predicate LinkOk(s: System)
    requires 0 <= Links(s) && 0 <= Done(s) && |s.mem| == DWORDS
  {
    && (if Links(s) == 0 then s.mem[4 * LAST + 3] == 0 else Holds(s.mem, LAST, LinkTrb(s.base), Cyc(Links(s) - 1), 4))
    && (s.pending != [] && Done(s) >= 4 ==>
          Done(s) < 8 && Holds(s.mem, LAST, LinkTrb(s.base), Cyc(Links(s)), Done(s) - 4))
  }

  predicate MemoryOk(s: System)
    requires 0 <= Committed(s) && 0 <= Done(s) && 0 <= Links(s)
  {
    |s.mem| == DWORDS && SlotsOk(s) && LinkOk(s)
  }

  /** The dwords read so far belong to the TRB as stored with the given cycle bit. */
  predicate Reading(got: seq<Dword>, t: Trb, cycle: bool)
  {
    && |got| <= 3
    && (|got| >= 1 ==> got[0] == Stored(t, cycle, 3))
    && (|got| >= 2 ==> got[1] == Stored(t, cycle, 0))
    && (|got| >= 3 ==> got[2] == Stored(t, cycle, 1))
  }

  /** The controller stands on the Link TRB, or on the slot of the next TRB. */
  predicate AtLink(s: System)
  {
    s.c.dequeue == s.base + 16 * LAST
  }

  predicate ControllerOk(s: System)
    requires 0 <= Links(s)
  {
    var m := |s.fetched|;
    && m <= Committed(s) && Outstanding(s) <= LAST && s.fetched == s.written[..m]
    && if AtLink(s) then
         && m > 0 && Slot(m) == 0 && s.c.cycle == Cyc(Lap(m) - 1)
         && (s.c.got != [] ==> Links(s) > 0 && Reading(s.c.got, LinkTrb(s.base), s.c.cycle))
       else
         && s.c.dequeue == s.base + 16 * Slot(m) && s.c.cycle == Cyc(Lap(m))
         && (s.c.got != [] ==> m < Committed(s) && Reading(s.c.got, s.written[m], s.c.cycle))
  }

  predicate Inv(s: System)
  {
    && 0 <= Committed(s) && 0 <= Done(s) && 0 <= Links(s)
    && ProducerOk(s) && MemoryOk(s) && ControllerOk(s)
  }

  lemma InitialOk(base: Base)
    ensures Inv(Initial(base))
  {
  }

  lemma BeginKeeps(s: System, t: Trb)
    requires Inv(s) && Enabled(LAST, s, Begin(t))
    ensures Inv(Step(s, Begin(t)))
  {
    hide Slot, Lap, Cyc;
    var n := |s.written|;
    NextSlot(n);
  }

  /** The store that comes next. */
  lemma NextStore(s: System)
    requires 0 <= Committed(s) && 0 <= Done(s) && ProducerOk(s) && s.pending != [] && |s.mem| == DWORDS
    ensures var n, k := |s.written|, Done(s);
            s.pending[0] == if k < 4 then Store(4 * Slot(n - 1) + k, Stored(s.written[n - 1], Cyc(Lap(n - 1)), k))
                            else Store(4 * LAST + (k - 4), Stored(LinkTrb(s.base), Cyc(Lap(n - 1)), k - 4))
    ensures Done(s) < 4 <==> Committed(s) < |s.written|
    ensures LinkPart(|s.written|) > 0 <==> Slot(|s.written| - 1) == LAST - 1
    ensures ProducerOk(Step(s, Put)) && Done(Step(s, Put)) == Done(s) + 1
  {
    hide Slot, Lap, Cyc, Stored;
    var n, k := |s.written|, Done(s);
    NextSlot(n - 1);
    var stores := WriteStores(Slot(n - 1), Cyc(Lap(n - 1)), s.base, s.written[n - 1]);
    assert s.pending[0] == stores[k];
    assert s.pending[1..] == stores[k + 1..];
  }

  /** A store into one slot changes no other slot. */
  lemma OtherSlot(mem: seq<Dword>, slot: nat, k: nat, v: Dword, other: nat, t: Trb, cycle: bool, j: nat)
    requires |mem| == DWORDS && slot <= LAST && other <= LAST && slot != other && k < 4 && j <= 4
    ensures Holds(mem[4 * slot + k := v], other, t, cycle, j) == Holds(mem, other, t, cycle, j)
    ensures mem[4 * slot + k := v][4 * other + 3] == mem[4 * other + 3]
  {
    var mem', q := mem[4 * slot + k := v], 4 * other;
    assert mem'[q] == mem[q] && mem'[q + 1] == mem[q + 1] && mem'[q + 2] == mem[q + 2];
  }

  /** Storing the next dword of a TRB. */
  lemma OneMore(mem: seq<Dword>, slot: nat, k: nat, t: Trb, cycle: bool)
    requires |mem| == DWORDS && slot <= LAST && k < 4 && Holds(mem, slot, t, cycle, k)
    ensures Holds(mem[4 * slot + k := Stored(t, cycle, k)], slot, t, cycle, k + 1)
    ensures k < 3 ==> mem[4 * slot + k := Stored(t, cycle, k)][4 * slot + 3] == mem[4 * slot + 3]
  {
    hide Stored;
  }

  /** The TRBs of the last lap stay in memory. */
  lemma WindowKept(s: System)
    requires Inv(s) && s.pending != []
    ensures forall t :: 0 <= t < Committed(s) && |s.written| - LAST <= t
              ==> Holds(Step(s, Put).mem, Slot(t), s.written[t], Cyc(Lap(t)), 4)
  {
    hide Slot, Lap, Cyc, Stored, Holds;
    var n, k := |s.written|, Done(s);
    NextStore(s);
    NextSlot(n - 1);
    forall t | 0 <= t < Committed(s) && n - LAST <= t
      ensures Holds(Step(s, Put).mem, Slot(t), s.written[t], Cyc(Lap(t)), 4)
    {
      if k < 4 {
        SlotsDiffer(t, n - 1);
        OtherSlot(s.mem, Slot(n - 1), k, s.pending[0].value, Slot(t), s.written[t], Cyc(Lap(t)), 4);
      } else {
        OtherSlot(s.mem, LAST, k - 4, s.pending[0].value, Slot(t), s.written[t], Cyc(Lap(t)), 4);
      }
    }
  }

  lemma CountsAfterPut(s: System)
    requires Inv(s) && s.pending != []
    ensures var s' := Step(s, Put);
            && Done(s') == Done(s) + 1 && Committed(s') == (if Done(s) == 3 then |s.written| else Committed(s))
            && Links(s') == (if Done(s) == 7 then Links(s) + 1 else Links(s))
            && (Done(s) == 7 ==> Links(s) == Lap(|s.written| - 1))
            && 0 <= Committed(s') && 0 <= Links(s')
  {
    hide Slot, Lap, Cyc, Stored, Holds;
    NextStore(s);
    NextSlot(|s.written| - 1);
  }

  /** Stores into the slot of a TRB leave the Link TRB alone. */
  lemma LinkUntouched(s: System)
    requires Inv(s) && s.pending != [] && Done(s) < 4
    ensures 0 <= Links(Step(s, Put)) && 0 <= Done(Step(s, Put)) && LinkOk(Step(s, Put))
  {
    hide Slot, Lap, Cyc, Stored, SlotsOk;
    NextStore(s);
    CountsAfterPut(s);
    OtherSlot(s.mem, Slot(|s.written| - 1), Done(s), s.pending[0].value, LAST, LinkTrb(s.base), Cyc(Links(s) - 1), 4);
  }

  /** Until its last dword is stored no cycle bit changes. */
  lemma CycleBitsKept(s: System)
    requires Inv(s) && s.pending != [] && Done(s) < 3
    ensures var mem' := Step(s, Put).mem;
            |mem'| == DWORDS && forall j :: 0 <= j < LAST ==> mem'[4 * j + 3] == s.mem[4 * j + 3]
  {
    hide Slot, Lap, Cyc, Stored, Holds, LinkOk, SlotsOk;
    NextStore(s);
  }

  lemma PutTrbSlots(s: System)
    requires Inv(s) && s.pending != [] && Done(s) < 3
    ensures SlotsOk(Step(s, Put))
  {
    hide Slot, Lap, Cyc, Stored, Holds, LinkOk;
    var n, k := |s.written|, Done(s);
    NextStore(s);
    CountsAfterPut(s);
    CycleBitsKept(s);
    WindowKept(s);
    OneMore(s.mem, Slot(n - 1), k, s.written[n - 1], Cyc(Lap(n - 1)));
  }

  /** The store that hands a TRB to the controller. */
  lemma PutCycleSlots(s: System)
    requires Inv(s) && s.pending != [] && Done(s) == 3
    ensures SlotsOk(Step(s, Put))
  {
    hide Slot, Lap, Cyc, Stored, Holds, LinkOk;
    var n, mem' := |s.written|, Step(s, Put).mem;
    NextStore(s);
    CountsAfterPut(s);
    NextSlot(n - 1);
    WindowKept(s);
    OneMore(s.mem, Slot(n - 1), 3, s.written[n - 1], Cyc(Lap(n - 1)));
    NextIsFree(s);
  }

  lemma FirstLap(n: nat)
    requires n < LAST
    ensures Slot(n) == n && Lap(n) == 0 && Cyc(Lap(n))
  {
  }

  lemma HeldCycle(mem: seq<Dword>, slot: nat, t: Trb, cycle: bool)
    requires |mem| == DWORDS && slot <= LAST && Holds(mem, slot, t, cycle, 4) && t.d3 % 2 == 0
    ensures CycleBit(mem[4 * slot + 3]) == cycle
  {
    assert mem[4 * slot + 3] == Stored(t, cycle, 3);
  }

  /** After that store the next slot still carries the cycle bit of the lap before. */
  lemma NextIsFree(s: System)
    requires Inv(s) && s.pending != [] && Done(s) == 3
    ensures var n, mem' := |s.written|, Step(s, Put).mem;
            (forall j :: n <= j < LAST ==> mem'[4 * j + 3] == 0) && CycleBit(mem'[4 * Slot(n) + 3]) != Cyc(Lap(n))
  {
    hide Slot, Lap, Cyc, Stored, Holds, LinkOk;
    var n, mem' := |s.written|, Step(s, Put).mem;
    NextStore(s);
    WindowKept(s);
    if n >= LAST {
      NextSlot(n - LAST);
      HeldCycle(mem', Slot(n - LAST), s.written[n - LAST], Cyc(Lap(n - LAST)));
    } else {
      FirstLap(n - 1);
      FirstLap(n);
    }
  }

  lemma PutLinkSlots(s: System)
    requires Inv(s) && s.pending != [] && Done(s) >= 4
    ensures SlotsOk(Step(s, Put))
  {
    hide Slot, Lap, Cyc, Stored, Holds, LinkOk;
    NextStore(s);
    CountsAfterPut(s);
    WindowKept(s);
  }

  /** The dwords of the Link TRB other than the last are the same in every lap. */
  lemma SameLink(mem: seq<Dword>, k: nat, base: Base, cycle: bool, cycle': bool)
    requires |mem| == DWORDS && k < 3 && Holds(mem, LAST, LinkTrb(base), cycle, 4)
    ensures Holds(mem[4 * LAST + k := Stored(LinkTrb(base), cycle', k)], LAST, LinkTrb(base), cycle, 4)
  {
  }

  lemma PutLinkLink(s: System)
    requires Inv(s) && s.pending != [] && Done(s) >= 4
    ensures 0 <= Links(Step(s, Put)) && 0 <= Done(Step(s, Put)) && LinkOk(Step(s, Put))
  {
    hide Slot, Lap, Cyc, Stored, Holds, SlotsOk;
    var k := Done(s) - 4;
    NextStore(s);
    CountsAfterPut(s);
    NextSlot(|s.written| - 1);
    OneMore(s.mem, LAST, k, LinkTrb(s.base), Cyc(Links(s)));
    if k < 3 && Links(s) > 0 {
      SameLink(s.mem, k, s.base, Cyc(Links(s) - 1), Cyc(Links(s)));
    }
  }

  lemma PutKeeps(s: System)
    requires Inv(s) && s.pending != []
    ensures Inv(Step(s, Put))
  {
    hide Slot, Lap, Cyc, Stored, Holds, LinkOk, SlotsOk;
    NextStore(s);
    CountsAfterPut(s);
    if Done(s) < 3 {
      PutTrbSlots(s);
      LinkUntouched(s);
    } else if Done(s) == 3 {
      PutCycleSlots(s);
      LinkUntouched(s);
    } else {
      PutLinkSlots(s);
      PutLinkLink(s);
    }
  }

  // ---- the controller -------------------------------------------------------------------------

  /** What the controller sees of the cycle bit at its position. */
  lemma ReadyIff(s: System)
    requires Inv(s) && s.c.got == []
    ensures Ready(s) <==> if AtLink(s) then Links(s) == Lap(|s.fetched|) else |s.fetched| < Committed(s)
    ensures AtLink(s) ==> Lap(|s.fetched|) - 1 <= Links(s) <= Lap(|s.fetched|) + 1
  {
    hide Holds, Stored, Slot, Lap, Cyc;
    var m := |s.fetched|;
    if AtLink(s) {
      assert DwordAt(s, s.c.dequeue + 12) == s.mem[4 * LAST + 3] by { Slot16(s, LAST, 3); }
      LinksBetween(s);
      LinkLap(m);
      CycParity(Links(s) - 1, Lap(m) - 1);
      if Links(s) > 0 {
        LinkCycle(s.mem, s.base, Cyc(Links(s) - 1));
      }
    } else {
      assert DwordAt(s, s.c.dequeue + 12) == s.mem[4 * Slot(m) + 3] by { Slot16(s, Slot(m), 3); }
      if m < Committed(s) {
        HeldCycle(s.mem, Slot(m), s.written[m], Cyc(Lap(m)));
      }
    }
  }

  lemma CycParity(a: int, b: int)
    requires b - 1 <= a <= b + 1
    ensures Cyc(a) == Cyc(b) <==> a == b
    ensures !Cyc(-1)
  {
  }

  /** The controller is at most one Link TRB behind. */
  lemma LinksBetween(s: System)
    requires Inv(s) && AtLink(s)
    ensures Lap(|s.fetched|) - 1 <= Links(s) <= Lap(|s.fetched|) + 1
  {
    hide Holds, Stored, ProducerOk, MemoryOk, Cyc;
  }

  lemma LinkLap(m: nat)
    requires m > 0 && Slot(m) == 0
    ensures Lap(m) > 0 && Cyc(Lap(m)) == !Cyc(Lap(m) - 1)
  {
  }

  lemma LinkCycle(mem: seq<Dword>, base: Base, cycle: bool)
    requires |mem| == DWORDS && Holds(mem, LAST, LinkTrb(base), cycle, 4)
    ensures CycleBit(mem[4 * LAST + 3]) == cycle
  {
    assert mem[4 * LAST + 3] == Stored(LinkTrb(base), cycle, 3);
  }

  /** The TRB at the controller's position, as the controller finds it there. */
  lemma Slot16(s: System, slot: nat, i: nat)
    requires |s.mem| == DWORDS && slot <= LAST && i < 4
    ensures DwordAt(s, s.base + 16 * slot + 4 * i) == s.mem[4 * slot + i]
  {
    assert (16 * slot + 4 * i) / 4 == 4 * slot + i;
  }

  lemma Aligned(k: int)
    ensures 4096 * k % 16 == 0
  {
  }

  /** Splitting the ring's address into two dwords loses nothing. */
  lemma PointerOfBase(base: Base)
    ensures Pointer(base % 0x1_0000_0000, base / 0x1_0000_0000) == base
  {
    var q, r, j := base / 0x1_0000_0000, base % 0x1_0000_0000, base / 4096;
    assert base == 0x1_0000_0000 * q + r;
    assert base == 4096 * j;
    assert r == 4096 * (j - 0x10_0000 * q);
    Aligned(j - 0x10_0000 * q);
  }

  /** The Link TRB as stored: pointer to the start of the ring, type 6, toggle cycle, cycle bit. */
  lemma LinkReads(base: Base, cycle: bool)
    ensures var t := LinkTrb(base);
            Pointer(Stored(t, cycle, 0), Stored(t, cycle, 1)) == base && Type(Stored(t, cycle, 3)) == LINK
              && Stored(t, cycle, 3) / 2 % 2 == 1
              && Stored(t, cycle, 0) + 0x1_0000_0000 * Stored(t, cycle, 1) == base && Stored(t, cycle, 2) == 0
              && Stored(t, cycle, 3) == 6 * 0x400 + 2 + if cycle then 1 else 0
  {
    hide Pointer;
    PointerOfBase(base);
  }

  lemma TrbReads(t: Trb, cycle: bool)
    requires Template(t)
    ensures var d3 := Stored(t, cycle, 3);
            Type(d3) != LINK && Trb(Stored(t, cycle, 0), Stored(t, cycle, 1), Stored(t, cycle, 2), d3 - d3 % 2) == t
  {
    var d3 := Stored(t, cycle, 3);
    assert d3 / 2 == t.d3 / 2;
    assert d3 / 1024 == d3 / 2 / 512 && t.d3 / 1024 == t.d3 / 2 / 512;
  }

  /** Loads change nothing but the controller and what it fetched. */
  lemma ReadFrame(s: System)
    ensures ReadStep(s) == s.(c := ReadStep(s).c, fetched := ReadStep(s).fetched)
  {
    hide Type, DwordAt, Pointer;
  }

  lemma FrameOk(s: System, c: Controller, fetched: seq<Trb>)
    requires 0 <= Committed(s) && 0 <= Done(s) && 0 <= Links(s) && ProducerOk(s) && MemoryOk(s)
    ensures var s' := s.(c := c, fetched := fetched);
            Committed(s') == Committed(s) && Links(s') == Links(s) && Done(s') == Done(s) && ProducerOk(s')
              && MemoryOk(s')
  {
    hide Slot, Lap, Cyc, Stored, Holds, Template;
    var s' := s.(c := c, fetched := fetched);
    assert SlotsOk(s');
    assert LinkOk(s');
  }

  /** The TRB that the controller is to read next. */
  lemma TrbInPlace(s: System)
    requires Inv(s) && !AtLink(s) && |s.fetched| < Committed(s)
    ensures var m := |s.fetched|;
            && Template(s.written[m])
            && forall i :: 0 <= i < 4 ==> DwordAt(s, s.c.dequeue + 4 * i) == Stored(s.written[m], s.c.cycle, i)
  {
    hide Slot, Lap, Cyc, LinkOk, Stored, Template;
    var m := |s.fetched|;
    assert Holds(s.mem, Slot(m), s.written[m], Cyc(Lap(m)), 4);
    forall i | 0 <= i < 4
      ensures DwordAt(s, s.c.dequeue + 4 * i) == Stored(s.written[m], s.c.cycle, i)
    {
      Slot16(s, Slot(m), i);
    }
  }

  /** Dword i of the Link TRB at the controller's position. */
  lemma LinkInPlace(s: System, i: nat)
    requires Inv(s) && AtLink(s) && Links(s) > 0 && i < 4
    ensures var cycle := if i < 3 then s.c.cycle else Cyc(Links(s) - 1);
            DwordAt(s, s.c.dequeue + 4 * i) == Stored(LinkTrb(s.base), cycle, i)
  {
    hide Slot, Lap, Cyc, SlotsOk, ProducerOk, ControllerOk;
    Slot16(s, LAST, i);
    assert Holds(s.mem, LAST, LinkTrb(s.base), Cyc(Links(s) - 1), 4);
    assert s.mem[4 * LAST + i] == Stored(LinkTrb(s.base), Cyc(Links(s) - 1), i);
  }

  /** A load of the controller from the slot of the next TRB. */
  lemma ReadTrbKeeps(s: System)
    requires Inv(s) && !AtLink(s)
    ensures Inv(ReadStep(s))
    ensures |s.c.got| == 3 ==> ReadStep(s).fetched == s.fetched + [s.written[|s.fetched|]]
  {
    hide Slot, Lap, Cyc, ProducerOk, MemoryOk, Stored, Type, Pointer, DwordAt;
    var m := |s.fetched|;
    ReadFrame(s);
    FrameOk(s, ReadStep(s).c, ReadStep(s).fetched);
    if s.c.got == [] {
      ReadyIff(s);
    }
    if Ready(s) {
      TrbInPlace(s);
      TrbReads(s.written[m], s.c.cycle);
      NextSlot(m);
      assert DwordAt(s, s.c.dequeue + 4 * 3) == Stored(s.written[m], s.c.cycle, 3);
    }
  }

  /** A load of the controller from the Link TRB. */
  lemma ReadLinkKeeps(s: System)
    requires Inv(s) && AtLink(s)
    ensures Inv(ReadStep(s)) && ReadStep(s).fetched == s.fetched
    ensures |s.c.got| == 3 ==> !AtLink(ReadStep(s))
  {
    hide Slot, Lap, Cyc, ProducerOk, MemoryOk, Stored, Type, Pointer, DwordAt;
    ReadFrame(s);
    FrameOk(s, ReadStep(s).c, ReadStep(s).fetched);
    if Ready(s) {
      if s.c.got == [] {
        LinkLatched(s);
      } else {
        LinkInPlace(s, |s.c.got| - 1);
        LinkReads(s.base, s.c.cycle);
        LinkLap(|s.fetched|);
      }
    }
  }

  lemma LinkLatched(s: System)
    requires Inv(s) && AtLink(s) && s.c.got == [] && Ready(s)
    ensures Links(s) > 0 && DwordAt(s, s.c.dequeue + 12) == Stored(LinkTrb(s.base), s.c.cycle, 3)
  {
    hide Slot, Lap, Cyc, ProducerOk, MemoryOk, Stored, DwordAt;
    ReadyIff(s);
    LinkLap(|s.fetched|);
    LinkInPlace(s, 3);
  }

  lemma StepKeeps(bound: nat, s: System, a: Action)
    requires bound <= LAST && Inv(s) && Enabled(bound, s, a)
    ensures Inv(Step(s, a)) && |s.fetched| <= |Step(s, a).fetched|
  {
    hide Inv, ReadStep, Slot, Lap, Cyc;
    match a
    case Begin(t) =>
      BeginKeeps(s, t);
    case Put =>
      PutKeeps(s);
    case Read =>
      if AtLink(s) {
        ReadLinkKeeps(s);
      } else {
        ReadTrbKeeps(s);
        assert ReadStep(s).fetched == s.fetched
                 || ReadStep(s).fetched == s.fetched + [s.written[|s.fetched|]] by { ReadGrows(s); }
      }
  }

  lemma ReadGrows(s: System)
    requires Inv(s) && !AtLink(s)
    ensures |s.c.got| < 3 ==> ReadStep(s).fetched == s.fetched
    ensures |s.c.got| == 3 ==> |s.fetched| < |s.written| && ReadStep(s).fetched == s.fetched + [s.written[|s.fetched|]]
    ensures |s.c.got| <= 3
    ensures Ready(s) ==> ReadStep(s).c.dequeue == (if |s.c.got| == 3 then s.c.dequeue + 16 else s.c.dequeue)
    ensures Ready(s) ==> |ReadStep(s).c.got| == if |s.c.got| == 3 then 0 else |s.c.got| + 1
  {
    hide Slot, Lap, Cyc, ProducerOk, MemoryOk, Stored;
    if |s.c.got| == 3 {
      ReadTrbKeeps(s);
    }
  }

  lemma {:induction false} RunKeeps(bound: nat, s: System, acts: seq<Action>)
    requires bound <= LAST && Inv(s) && RunEnabled(bound, s, acts)
    ensures Inv(Run(s, acts))
    decreases |acts|
  {
    hide Inv, Step, Enabled;
    if acts != [] {
      StepKeeps(bound, s, acts[0]);
      RunKeeps(bound, Step(s, acts[0]), acts[1..]);
    }
  }

  // ---- main results -----------------------------------------------------------------------------

  /** The TRBs passed to write_ring in a run. */
  function Begun(acts: seq<Action>): seq<Trb>
    decreases |acts|
  {
    if acts == [] then [] else (if acts[0].Begin? then [acts[0].t] else []) + Begun(acts[1..])
  }

  lemma {:induction false} BegunWritten(s: System, acts: seq<Action>)
    ensures Run(s, acts).written == s.written + Begun(acts)
    decreases |acts|
  {
    hide Step;
    if acts != [] {
      StepWritten(s, acts[0]);
      BegunWritten(Step(s, acts[0]), acts[1..]);
    }
  }

  lemma StepWritten(s: System, a: Action)
    ensures Step(s, a).written == s.written + if a.Begin? then [a.t] else []
  {
    hide ReadStep;
    ReadFrame(s);
  }

  /** With at most 255 TRBs outstanding, in every interleaving, the controller fetches the TRBs
      passed to write_ring, in order, once each and whole, and none before its cycle bit is stored. */
  lemma Delivery(bound: nat, base: Base, acts: seq<Action>)
    requires bound <= LAST && RunEnabled(bound, Initial(base), acts)
    ensures var s := Run(Initial(base), acts);
            |s.fetched| <= Committed(s) <= |Begun(acts)| && s.fetched == Begun(acts)[..|s.fetched|]
  {
    hide Step, Enabled, ProducerOk, MemoryOk;
    InitialOk(base);
    RunKeeps(bound, Initial(base), acts);
    BegunWritten(Initial(base), acts);
  }

  /** Between two calls of write_ring with TRBs outstanding, the controller waits if and only if
      255 are outstanding and it has yet to read the Link TRB, which was rewritten under it. */
  lemma WaitsIff(s: System)
    requires Inv(s) && s.pending == [] && Outstanding(s) > 0
    ensures !Ready(s) <==> AtLink(s) && s.c.got == [] && Outstanding(s) == LAST
  {
    hide ProducerOk, MemoryOk, Cyc;
    if s.c.got == [] {
      ReadyIff(s);
      if AtLink(s) {
        NextSlot(|s.fetched|);
        LapOf(|s.fetched|, |s.written|);
      }
    }
  }

  lemma LapOf(m: nat, n: nat)
    requires Slot(m) == 0 && m < n <= m + LAST
    ensures Lap(n) == if n == m + LAST then Lap(m) + 1 else Lap(m)
  {
  }

  function Reads(k: nat): seq<Action>
  {
    seq(k, _ => Read)
  }

  lemma ReadFirst(s: System, k: nat)
    ensures Run(s, Reads(k + 1)) == Run(ReadStep(s), Reads(k))
    ensures Run(s, Reads(0)) == s
  {
    hide ReadStep;
    assert Reads(k + 1)[1..] == Reads(k);
  }

  /** The controller finishes the TRB it stands on. */
  lemma {:induction false} FinishIn(s: System) returns (k: nat)
    requires Inv(s) && !AtLink(s) && Ready(s)
    ensures |s.c.got| <= 3 && k == 4 - |s.c.got|
    ensures |s.fetched| < |s.written| && Run(s, Reads(k)).fetched == s.fetched + [s.written[|s.fetched|]]
    ensures var s' := Run(s, Reads(k));
            Inv(s') && s' == s.(c := s'.c, fetched := s'.fetched) && s'.c.got == [] && s'.c.dequeue == s.c.dequeue + 16
    decreases 4 - |s.c.got|
  {
    hide Inv, DwordAt, Pointer;
    ReadGrows(s);
    ReadTrbKeeps(s);
    ReadFrame(s);
    if |s.c.got| == 3 {
      ReadFirst(s, 0);
      ReadFirst(ReadStep(s), 0);
      k := 1;
    } else {
      var j := FinishIn(ReadStep(s));
      ReadFirst(s, j);
      k := j + 1;
    }
  }

  /** The controller follows the Link TRB. */
  lemma {:induction false} LeaveLink(s: System) returns (k: nat)
    requires Inv(s) && AtLink(s) && Ready(s)
    ensures k <= 4
    ensures var s' := Run(s, Reads(k));
            Inv(s') && !AtLink(s') && s'.c.got == [] && s' == s.(c := s'.c)
    decreases 4 - |s.c.got|
  {
    hide ProducerOk, MemoryOk, DwordAt, Pointer, Type;
    k := LeaveIn(s);
  }

  lemma {:induction false} LeaveIn(s: System) returns (k: nat)
    requires Inv(s) && AtLink(s) && Ready(s)
    ensures |s.c.got| <= 3 && k == 4 - |s.c.got|
    ensures var s' := Run(s, Reads(k));
            Inv(s') && !AtLink(s') && s'.c.got == [] && s' == s.(c := s'.c)
    decreases 4 - |s.c.got|
  {
    hide Inv, DwordAt, Pointer;
    ReadLinkKeeps(s);
    ReadFrame(s);
    LinkGrows(s);
    if |s.c.got| == 3 {
      ReadFirst(s, 0);
      ReadFirst(ReadStep(s), 0);
      k := 1;
    } else {
      var j := LeaveIn(ReadStep(s));
      ReadFirst(s, j);
      k := j + 1;
    }
  }

  lemma LinkGrows(s: System)
    requires Inv(s) && AtLink(s) && Ready(s)
    ensures |s.c.got| < 3 ==> AtLink(ReadStep(s)) && |ReadStep(s).c.got| == |s.c.got| + 1
    ensures |s.c.got| == 3 ==> ReadStep(s).c.got == []
    ensures |s.c.got| <= 3
  {
    hide Slot, Lap, Cyc, ProducerOk, MemoryOk, Stored;
  }

  lemma {:induction false} RunConcat(s: System, a: seq<Action>, b: seq<Action>)
    ensures Run(s, a + b) == Run(Run(s, a), b)
    ensures forall bound: nat :: RunEnabled(bound, s, a) && RunEnabled(bound, Run(s, a), b)
              ==> RunEnabled(bound, s, a + b)
    decreases |a|
  {
    hide Step, Enabled;
    if a == [] {
      assert a + b == b;
    } else {
      assert (a + b)[1..] == a[1..] + b && (a + b)[0] == a[0];
      RunConcat(Step(s, a[0]), a[1..], b);
    }
  }

  /** Otherwise it goes on: the next TRB is fetched within eight loads. */
  lemma Delivers(s: System) returns (k: nat)
    requires Inv(s) && s.pending == [] && Outstanding(s) > 0 && Ready(s)
    ensures k <= 8 && Run(s, Reads(k)).fetched == s.fetched + [s.written[|s.fetched|]]
  {
    hide ProducerOk, MemoryOk, ReadStep;
    if AtLink(s) {
      var i := LeaveLink(s);
      var s1 := Run(s, Reads(i));
      ReadyIff(s1);
      var j := FinishIn(s1);
      RunConcat(s, Reads(i), Reads(j));
      assert Reads(i) + Reads(j) == Reads(i + j);
      k := i + j;
    } else {
      k := FinishIn(s);
    }
  }

  /** With at most ring_size - 2 = 254 outstanding TRBs no run ever stalls: whenever write_ring
      has returned and a TRB is outstanding, the controller fetches the next one. */
  lemma NeverStalls(base: Base, acts: seq<Action>) returns (k: nat)
    requires RunEnabled(LAST - 1, Initial(base), acts)
    requires var s := Run(Initial(base), acts); s.pending == [] && Outstanding(s) > 0
    ensures var s := Run(Initial(base), acts);
            Outstanding(s) < LAST && k <= 8 && Run(s, Reads(k)).fetched == s.fetched + [s.written[|s.fetched|]]
  {
    hide Inv, Step, Ready, ReadStep;
    InitialOk(base);
    RunKeeps(LAST - 1, Initial(base), acts);
    RunBounded(LAST - 1, Initial(base), acts);
    var s := Run(Initial(base), acts);
    WaitsIff(s);
    k := Delivers(s);
  }

  lemma {:induction false} RunBounded(bound: nat, s: System, acts: seq<Action>)
    requires bound <= LAST && Inv(s) && RunEnabled(bound, s, acts) && Outstanding(s) <= bound
    ensures Outstanding(Run(s, acts)) <= bound
    decreases |acts|
  {
    hide Inv, ReadStep;
    if acts != [] {
      StepKeeps(bound, s, acts[0]);
      ReadFrame(s);
      RunBounded(bound, Step(s, acts[0]), acts[1..]);
    }
  }

  // ---- the stall ----------------------------------------------------------------------------------

  predicate Stuck(s: System)
  {
    s.pending == [] && Outstanding(s) == LAST && !Ready(s)
  }

  /** Once stuck, nothing can happen any more. */
  lemma {:induction false} StuckForever(s: System, acts: seq<Action>)
    requires Stuck(s) && RunEnabled(LAST, s, acts)
    ensures Run(s, acts) == s
    decreases |acts|
  {
    if acts != [] {
      StuckForever(s, acts[1..]);
    }
  }

  function Puts(k: nat): seq<Action>
  {
    seq(k, _ => Put)
  }

  /** Carrying out the pending stores one after the other. */
  lemma {:induction false} PutAll(s: System)
    requires forall i :: 0 <= i < |s.pending| ==> s.pending[i].pos < |s.mem|
    ensures Run(s, Puts(|s.pending|)) == s.(mem := Apply(s.mem, s.pending), pending := [])
    ensures forall bound: nat :: RunEnabled(bound, s, Puts(|s.pending|))
    decreases |s.pending|
  {
    if s.pending != [] {
      assert Puts(|s.pending|)[1..] == Puts(|s.pending| - 1);
      PutAll(Step(s, Put));
    }
  }

  /** An undisturbed call of write_ring, as a sequence of steps: it does to the ring what
      `Ring.Write` does. */
  lemma WriteIsSteps(s: System, t: Trb)
    requires s.pending == [] && |s.mem| == DWORDS && s.index < LAST
    ensures var stores := WriteStores(s.index, s.cycle, s.base, t);
            && (forall i :: 0 <= i < |stores| ==> stores[i].pos < |s.mem|)
            && Run(s, [Begin(t)] + Puts(|stores|)) ==
               s.(mem := Apply(s.mem, stores), written := s.written + [t],
                  index := if s.index + 1 == LAST then 0 else s.index + 1,
                  cycle := if s.index + 1 == LAST then !s.cycle else s.cycle)
            && forall bound: nat :: Enabled(bound, s, Begin(t)) ==> RunEnabled(bound, s, [Begin(t)] + Puts(|stores|))
  {
    var stores := WriteStores(s.index, s.cycle, s.base, t);
    var s1, acts := Step(s, Begin(t)), [Begin(t)] + Puts(|stores|);
    assert acts[1..] == Puts(|stores|);
    PutAll(s1);
  }

  /** k calls of write_ring while the controller rests. */
  lemma {:induction false} WriteMany(s: System, t: Trb, k: nat) returns (acts: seq<Action>)
    requires Inv(s) && s.pending == [] && Template(t) && Outstanding(s) + k <= LAST
    ensures RunEnabled(LAST, s, acts)
    ensures var s' := Run(s, acts);
            Inv(s') && s'.pending == [] && |s'.written| == |s.written| + k && s'.c == s.c && s'.fetched == s.fetched
            && s'.base == s.base
    decreases k
  {
    hide Step, Apply, WriteStores;
    if k == 0 {
      acts := [];
    } else {
      var first := [Begin(t)] + Puts(|WriteStores(s.index, s.cycle, s.base, t)|);
      assert s.index < LAST && |s.mem| == DWORDS;
      hide Inv;
      WriteIsSteps(s, t);
      RunKeeps(LAST, s, first);
      var rest := WriteMany(Run(s, first), t, k - 1);
      acts := first + rest;
      RunConcat(s, first, rest);
    }
  }

  /** k TRBs of one lap are fetched. */
  lemma {:induction false} FetchMany(s: System, k: nat)
    requires Inv(s) && s.pending == [] && s.c.got == [] && k <= Outstanding(s) && !AtLink(s)
    requires Slot(|s.fetched|) + k <= LAST
    ensures RunEnabled(LAST, s, Reads(4 * k))
    ensures var s' := Run(s, Reads(4 * k));
            Inv(s') && s' == s.(c := s'.c, fetched := s'.fetched) && |s'.fetched| == |s.fetched| + k
            && s'.c.got == [] && s'.c.dequeue == s.c.dequeue + 16 * k
    decreases k
  {
    hide ReadStep, Inv;
    ReadsEnabled(s, 4 * k);
    if k > 0 {
      FetchOne(s);
      assert Reads(4) + Reads(4 * (k - 1)) == Reads(4 * k);
      RunConcat(s, Reads(4), Reads(4 * (k - 1)));
      if k > 1 {
        FetchMany(Run(s, Reads(4)), k - 1);
      }
    }
  }

  lemma {:induction false} ReadsEnabled(s: System, k: nat)
    ensures RunEnabled(LAST, s, Reads(k))
    decreases k
  {
    if k > 0 {
      assert Reads(k)[1..] == Reads(k - 1);
      ReadsEnabled(ReadStep(s), k - 1);
    }
  }

  lemma FetchOne(s: System)
    requires Inv(s) && s.pending == [] && s.c.got == [] && Outstanding(s) > 0 && !AtLink(s)
    ensures var s', m := Run(s, Reads(4)), |s.fetched|;
            && Inv(s') && s' == s.(c := s'.c, fetched := s'.fetched) && |s'.fetched| == m + 1
            && s'.c.got == [] && s'.c.dequeue == s.c.dequeue + 16
            && (Slot(m) + 1 < LAST ==> !AtLink(s') && Slot(m + 1) == Slot(m) + 1)
  {
    hide Inv, ReadStep, Ready;
    OnTrb(s);
    var k := FinishIn(s);
    NextSlot(|s.fetched|);
  }

  lemma OnTrb(s: System)
    requires Inv(s) && s.pending == [] && s.c.got == [] && Outstanding(s) > 0 && !AtLink(s)
    ensures Ready(s) && s.c.dequeue == s.base + 16 * Slot(|s.fetched|)
  {
    ReadyIff(s);
  }

  /** With 255 a run exists that ends stuck: one lap is written and fetched, and while the
      controller pauses before the Link TRB the next lap is written. */
  lemma StallRun(base: Base, t: Trb) returns (acts: seq<Action>)
    requires Template(t)
    ensures RunEnabled(LAST, Initial(base), acts) && Stuck(Run(Initial(base), acts))
  {
    hide Inv, ReadStep, Step, Ready;
    InitialOk(base);
    var s0 := Initial(base);
    var a := WriteMany(s0, t, LAST);
    var s1 := Run(s0, a);
    FetchMany(s1, LAST);
    var s2 := Run(s1, Reads(4 * LAST));
    var b := WriteMany(s2, t, LAST);
    var s3 := Run(s2, b);
    assert Stuck(s3) by { WaitsIff(s3); }
    RunConcat(s1, Reads(4 * LAST), b);
    assert RunEnabled(LAST, s1, Reads(4 * LAST) + b);
    RunConcat(s0, a, Reads(4 * LAST) + b);
    acts := a + (Reads(4 * LAST) + b);
  }
}
