/**
 The event ring shared by `get_eventring` and a controller that follows section 4.9.4 of the
 xHCI specification, revision 1.2: it posts events in order, cycle bit last, and not while
 advancing would bring its enqueue pointer onto ERDP.  Every 32-bit store to the ring or to
 ERDP is a step of its own, in any interleaving.
 */
module EventProtocol {
  import opened TransferRing
  import opened RingProtocol
  import opened EventRing

  /** `posting` are the stores of the event being posted that are still to come, `erdpWrites`
      the register writes of write_event_ring that are still to come; `current` is the address
      get_eventring returned last.  `posted` and `taken` are the events of the run so far. */
  datatype Events = Events(base: Base, mem: seq<Dword>, enqueue: nat, pcs: bool, posting: seq<Store>,
                           cycle: bool, lo: Dword, hi: Dword, erdpWrites: seq<Dword>, current: nat,
                           posted: seq<Trb>, taken: seq<Trb>)

  datatype Move = Post(event: Trb) | PutDword | Flags(bits: nat) | Take | WriteErdp

  function Fresh(base: Base): Events
  {
    Events(base, seq(DWORDS, _ => 0), 0, true, [], true, base % TWO32, base / TWO32, [], base, [], [])
  }

  function Dequeue(s: Events): nat
  {
    Pointer(s.lo, s.hi)
  }

  function Dword3(s: Events, addr: nat): Dword
  {
    var i := (addr - s.base) / 4 + 3;
    if s.base <= addr && i < |s.mem| then s.mem[i] else 0
  }

  /** `er_isQueued` */
  predicate Queued(s: Events)
  {
    CycleBit(Dword3(s, Dequeue(s))) == s.cycle
  }

  /** The TRB at an address, without its cycle bit. */
  function EventAt(s: Events, addr: nat): Trb
  {
    var i := (addr - s.base) / 4;
    if s.base <= addr && i + 3 < |s.mem| then Trb(s.mem[i], s.mem[i + 1], s.mem[i + 2], s.mem[i + 3] - s.mem[i + 3] % 2)
    else Trb(0, 0, 0, 0)
  }

  predicate Enabled(s: Events, a: Move)
  {
    match a
    case Post(e) => s.posting == [] && e.d3 % 2 == 0 && s.base + 16 * ((s.enqueue + 1) % EVENTS) != Dequeue(s)
    case PutDword => s.posting != []
    case Flags(bits) => bits < 16
    case Take => s.erdpWrites == [] && Queued(s)
    case WriteErdp => s.erdpWrites != []
  }

  function Step(s: Events, a: Move): Events
  {
    match a
    case Post(e) =>
      s.(posting := TrbStores(s.enqueue, e, s.pcs), posted := s.posted + [e], enqueue := (s.enqueue + 1) % EVENTS,
         pcs := if s.enqueue + 1 == EVENTS then !s.pcs else s.pcs)
    case PutDword =>
      if s.posting == [] || s.posting[0].pos >= |s.mem| then s
      else s.(mem := s.mem[s.posting[0].pos := s.posting[0].value], posting := s.posting[1..])
    case Flags(bits) => if bits < 16 then s.(lo := s.lo - s.lo % 16 + bits) else s
    case Take =>
      var p := Dequeue(s);
      s.(current := p, taken := s.taken + [EventAt(s, p)],
         cycle := if p + 16 == s.base + 4096 then !s.cycle else s.cycle,
         erdpWrites := [ErdpLo(NextErdp(s.base, p)), ErdpHi(NextErdp(s.base, p))])
    case WriteErdp =>
      if |s.erdpWrites| == 2 then s.(lo := s.erdpWrites[0], erdpWrites := s.erdpWrites[1..])
      else if |s.erdpWrites| == 1 then s.(hi := s.erdpWrites[0], erdpWrites := [])
      else s
  }

  predicate RunEnabled(s: Events, acts: seq<Move>)
    decreases |acts|
  {
    acts == [] || (Enabled(s, acts[0]) && RunEnabled(Step(s, acts[0]), acts[1..]))
  }

  function Run(s: Events, acts: seq<Move>): Events
    decreases |acts|
  {
    if acts == [] then s else Run(Step(s, acts[0]), acts[1..])
  }

  // ---- the invariant ------------------------------------------------------------------------

  function Place(t: nat): (r: nat)
    ensures r < EVENTS
  {
    t % EVENTS
  }

  function Turn(t: nat): nat
  {
    t / EVENTS
  }

  lemma NextPlace(t: nat)
    ensures Place(t) == EVENTS - 1 ==> Place(t + 1) == 0 && Turn(t + 1) == Turn(t) + 1
    ensures Place(t) != EVENTS - 1 ==> Place(t + 1) == Place(t) + 1 && Turn(t + 1) == Turn(t)
    ensures Place(t + 1) == (Place(t) + 1) % EVENTS
    ensures Place(t + EVENTS) == Place(t) && Turn(t + EVENTS) == Turn(t) + 1
    ensures Cyc(Turn(t) + 1) == !Cyc(Turn(t))
  {
  }

  lemma PlacesDiffer(t: nat, u: nat)
    requires t < u < t + EVENTS
    ensures Place(t) != Place(u)
  {
  }

  /** Events whose cycle bit is stored. */
  function Complete(s: Events): int
  {
    if s.posting != [] then |s.posted| - 1 else |s.posted|
  }

  /** Events that ERDP counts as taken: the last one not before the low half is written. */
  function Released(s: Events): int
  {
    if |s.erdpWrites| == 2 then |s.taken| - 1 else |s.taken|
  }

  predicate PosterOk(s: Events)
  {
    var n := |s.posted|;
    && s.enqueue == Place(n) && s.pcs == Cyc(Turn(n)) && n - Released(s) < EVENTS
    && (forall t :: 0 <= t < n ==> s.posted[t].d3 % 2 == 0)
    && |s.posting| <= 4
    && (s.posting != [] ==>
          n > 0 && s.posting == TrbStores(Place(n - 1), s.posted[n - 1], Cyc(Turn(n - 1)))[4 - |s.posting|..])
  }

  /** The last 256 events are in their places, the place after them is not yet to be taken. */
  predicate RingOk(s: Events)
    requires 0 <= Complete(s)
  {
    var n, done := |s.posted|, Complete(s);
    && |s.mem| == DWORDS
    && (forall t :: 0 <= t < done && n - EVENTS <= t ==> Holds(s.mem, Place(t), s.posted[t], Cyc(Turn(t)), 4))
    && CycleBit(s.mem[4 * Place(done) + 3]) != Cyc(Turn(done))
    && (forall j :: done <= j < EVENTS ==> s.mem[4 * j + 3] == 0)
    && (done < n && |s.posting| <= 4 ==> Holds(s.mem, Place(done), s.posted[done], Cyc(Turn(done)), 4 - |s.posting|))
  }

  /** What the consumer knows: its cycle bit is that of the next event, and ERDP points to the
      next event as soon as the low half is written. */
  predicate ConsumerOk(s: Events)
    requires 0 <= Released(s)
  {
    var m := |s.taken|;
    && m <= Complete(s) && s.taken == s.posted[..m] && s.cycle == Cyc(Turn(m))
    && s.hi == s.base / TWO32 && Dequeue(s) == s.base + 16 * Place(Released(s))
    && |s.erdpWrites| <= 2
    && (|s.erdpWrites| == 2 ==> s.erdpWrites[0] == ErdpLo(s.base + 16 * Place(m)))
    && (|s.erdpWrites| > 0 ==> s.erdpWrites[|s.erdpWrites| - 1] == s.base / TWO32)
    && (m > 0 ==> s.current == s.base + 16 * Place(m - 1))
  }

  predicate Inv(s: Events)
  {
    0 <= Complete(s) && 0 <= Released(s) && PosterOk(s) && RingOk(s) && ConsumerOk(s)
  }

  lemma FreshOk(base: Base)
    ensures Inv(Fresh(base))
  {
    hide Pointer;
    PointerOfBase(base);
    FirstTurn(0);
  }

  // ---- the controller's steps -----------------------------------------------------------------

  lemma PostKeeps(s: Events, e: Trb)
    requires Inv(s) && Enabled(s, Post(e))
    ensures Inv(Step(s, Post(e)))
  {
    hide Place, Turn, Cyc, Pointer, RingOk, ErdpLo;
    var n := |s.posted|;
    NextPlace(n);
    PostRing(s, e);
    NotFull(s, n);
  }

  lemma PostRing(s: Events, e: Trb)
    requires Inv(s) && s.posting == []
    ensures 0 <= Complete(Step(s, Post(e))) && RingOk(Step(s, Post(e)))
  {
    hide Place, Turn, Cyc, Pointer, PosterOk, ConsumerOk, Stored;
  }

  /** The guard on ERDP bounds the events not yet released. */
  lemma NotFull(s: Events, n: nat)
    requires 0 <= Released(s) <= n && n - Released(s) < EVENTS && s.enqueue == Place(n)
    requires Dequeue(s) == s.base + 16 * Place(Released(s)) && s.base + 16 * ((s.enqueue + 1) % EVENTS) != Dequeue(s)
    ensures n + 1 - Released(s) < EVENTS
  {
    hide Pointer;
    if n + 1 == Released(s) + EVENTS {
      NextPlace(n);
      NextPlace(Released(s));
      assert false;
    }
  }

  lemma NextDword(s: Events)
    requires Inv(s) && s.posting != []
    ensures var n, k := |s.posted|, 4 - |s.posting|;
            && 0 <= k < 4 && s.posting[0] == Store(4 * Place(n - 1) + k, Stored(s.posted[n - 1], Cyc(Turn(n - 1)), k))
            && PosterOk(Step(s, PutDword)) && Complete(Step(s, PutDword)) == if k == 3 then n else n - 1
  {
    hide Place, Turn, Cyc, Stored, RingOk, ConsumerOk;
    InRing(s);
    var n, k := |s.posted|, 4 - |s.posting|;
    var s' := Step(s, PutDword);
    assert s' == s.(mem := s'.mem, posting := s.posting[1..]);
    hide Step;
    var stores := TrbStores(Place(n - 1), s.posted[n - 1], Cyc(Turn(n - 1)));
    assert s.posting[0] == stores[k];
    assert s.posting[1..] == stores[k + 1..];
  }

  lemma InRing(s: Events)
    requires Inv(s)
    ensures |s.mem| == DWORDS
  {
  }

  lemma EventsKept(s: Events)
    requires Inv(s) && s.posting != []
    ensures forall t :: 0 <= t < Complete(s) && |s.posted| - EVENTS <= t
              ==> Holds(Step(s, PutDword).mem, Place(t), s.posted[t], Cyc(Turn(t)), 4)
  {
    hide Place, Turn, Cyc, Stored, Holds, ConsumerOk, PosterOk;
    var n, k := |s.posted|, 4 - |s.posting|;
    NextDword(s);
    forall t | 0 <= t < Complete(s) && n - EVENTS <= t
      ensures Holds(Step(s, PutDword).mem, Place(t), s.posted[t], Cyc(Turn(t)), 4)
    {
      PlacesDiffer(t, n - 1);
      OtherSlot(s.mem, Place(n - 1), k, s.posting[0].value, Place(t), s.posted[t], Cyc(Turn(t)), 4);
    }
  }

  lemma FirstTurn(n: nat)
    requires n < EVENTS
    ensures Place(n) == n && Turn(n) == 0 && Cyc(Turn(n))
  {
  }

  lemma NextIsOpen(s: Events)
    requires Inv(s) && |s.posting| == 1
    ensures var n, mem' := |s.posted|, Step(s, PutDword).mem;
            (forall j :: n <= j < EVENTS ==> mem'[4 * j + 3] == 0) && CycleBit(mem'[4 * Place(n) + 3]) != Cyc(Turn(n))
  {
    hide Place, Turn, Cyc, Stored, Holds, ConsumerOk;
    var n, mem' := |s.posted|, Step(s, PutDword).mem;
    NextDword(s);
    EventsKept(s);
    if n >= EVENTS {
      NextPlace(n - EVENTS);
      HeldCycle(mem', Place(n - EVENTS), s.posted[n - EVENTS], Cyc(Turn(n - EVENTS)));
    } else {
      FirstTurn(n - 1);
      FirstTurn(n);
    }
  }

  lemma PutDwordRing(s: Events)
    requires Inv(s) && s.posting != []
    ensures 0 <= Complete(Step(s, PutDword)) && RingOk(Step(s, PutDword))
  {
    hide Place, Turn, Cyc, Stored, Holds, ConsumerOk, PosterOk;
    var n, k := |s.posted|, 4 - |s.posting|;
    NextDword(s);
    EventsKept(s);
    OneMore(s.mem, Place(n - 1), k, s.posted[n - 1], Cyc(Turn(n - 1)));
    if k == 3 {
      NextIsOpen(s);
    }
  }

  lemma PutDwordKeeps(s: Events)
    requires Inv(s) && s.posting != []
    ensures Inv(Step(s, PutDword))
  {
    hide Place, Turn, Cyc, Pointer, RingOk, PosterOk, ErdpLo;
    NextDword(s);
    PutDwordRing(s);
    InRing(s);
  }

  // ---- the kernel's steps -----------------------------------------------------------------------

  lemma EventIndex(s: Events, place: nat)
    requires |s.mem| == DWORDS && place < EVENTS
    ensures var i := 4 * place;
            && Dword3(s, s.base + 16 * place) == s.mem[i + 3]
            && EventAt(s, s.base + 16 * place) == Trb(s.mem[i], s.mem[i + 1], s.mem[i + 2],
                                                      s.mem[i + 3] - s.mem[i + 3] % 2)
  {
    assert 16 * place / 4 == 4 * place;
  }

  /** A TRB in its place reads as the event posted. */
  lemma HeldEvent(s: Events, t: nat)
    requires Inv(s) && t < Complete(s) && |s.posted| - EVENTS <= t
    ensures EventAt(s, s.base + 16 * Place(t)) == s.posted[t]
  {
    hide Place, Turn, Cyc, Pointer, ConsumerOk;
    var i, e, c := 4 * Place(t), s.posted[t], Cyc(Turn(t));
    EventIndex(s, Place(t));
    assert Holds(s.mem, Place(t), e, c, 4);
    assert s.mem[i + 0] == Stored(e, c, 0) && s.mem[i + 1] == Stored(e, c, 1) && s.mem[i + 2] == Stored(e, c, 2)
             && s.mem[i + 3] == Stored(e, c, 3);
  }

  /** er_isQueued is right: it answers yes exactly if an event is posted to its last dword and
      not taken. */
  lemma QueuedIff(s: Events)
    requires Inv(s) && s.erdpWrites == []
    ensures Queued(s) <==> |s.taken| < Complete(s)
  {
    hide Place, Turn, Cyc, Pointer, Holds, Stored;
    var m := |s.taken|;
    EventIndex(s, Place(m));
    if m < Complete(s) {
      HeldCycle(s.mem, Place(m), s.posted[m], Cyc(Turn(m)));
    }
  }

  lemma NextErdpIs(s: Events, m: nat)
    ensures NextErdp(s.base, s.base + 16 * Place(m)) == s.base + 16 * Place(m + 1)
    ensures s.base + 16 * Place(m) + 16 == s.base + 4096 <==> Turn(m + 1) != Turn(m)
    ensures Cyc(Turn(m + 1)) == if Turn(m + 1) != Turn(m) then !Cyc(Turn(m)) else Cyc(Turn(m))
  {
    NextPlace(m);
  }

  lemma ErdpHalves(base: Base, place: nat)
    requires place < EVENTS
    ensures ErdpHi(base + 16 * place) == base / TWO32
    ensures Pointer(ErdpLo(base + 16 * place), base / TWO32) == base + 16 * place
  {
    hide Pointer, ErdpLo, ErdpHi;
    assert base == 4096 * (base / 4096);
    Sixteen(base / 4096, place);
    WrittenErdp(base, base + 16 * place);
  }

  lemma Sixteen(j: nat, place: nat)
    ensures (4096 * j + 16 * place) % 16 == 0
  {
    assert 4096 * j + 16 * place == 16 * (256 * j + place);
  }

  lemma TakeKeeps(s: Events)
    requires Inv(s) && Enabled(s, Take)
    ensures Inv(Step(s, Take)) && Step(s, Take).taken == s.taken + [s.posted[|s.taken|]]
  {
    hide Place, Turn, Cyc, Pointer, Holds, Stored, ErdpLo, ErdpHi, NextErdp, PosterOk;
    var m, s' := |s.taken|, Step(s, Take);
    QueuedIff(s);
    TakenHeld(s);
    HeldEvent(s, m);
    NextErdpIs(s, m);
    ErdpHalves(s.base, Place(m + 1));
    assert PosterOk(s') && RingOk(s') by { KernelFrame(s, s'); }
  }

  lemma TakenHeld(s: Events)
    requires Inv(s) && s.erdpWrites == []
    ensures |s.posted| - EVENTS < |s.taken|
  {
  }

  /** Steps of the kernel do not concern the events in the ring. */
  lemma KernelFrame(s: Events, s': Events)
    requires 0 <= Complete(s) && PosterOk(s) && RingOk(s)
    requires s'.base == s.base && s'.mem == s.mem && s'.enqueue == s.enqueue && s'.pcs == s.pcs
    requires s'.posting == s.posting && s'.posted == s.posted
    requires Released(s') >= Released(s)
    ensures Complete(s') == Complete(s) && PosterOk(s') && RingOk(s')
  {
    hide Place, Turn, Cyc, Pointer, Holds, Stored, TrbStores;
  }

  lemma WriteErdpKeeps(s: Events)
    requires Inv(s) && s.erdpWrites != []
    ensures Inv(Step(s, WriteErdp)) && Step(s, WriteErdp).taken == s.taken
  {
    hide Place, Turn, Cyc, Pointer, RingOk, PosterOk, ErdpLo, ErdpHi;
    ErdpHalves(s.base, Place(|s.taken|));
    var s' := Step(s, WriteErdp);
    assert PosterOk(s') && RingOk(s') by { KernelFrame(s, s'); }
  }

  lemma FlagsKeep(s: Events, bits: nat)
    requires Inv(s) && bits < 16
    ensures Inv(Step(s, Flags(bits)))
  {
    hide Place, Turn, Cyc, Holds, Stored, ErdpLo, ErdpHi, RingOk, PosterOk;
    var s' := Step(s, Flags(bits));
    assert PosterOk(s') && RingOk(s') by { KernelFrame(s, s'); }
    LowBits(s.lo, bits);
  }

  lemma LowBits(lo: Dword, bits: nat)
    requires bits < 16
    ensures var lo' := lo - lo % 16 + bits; lo' < TWO32 && lo' - lo' % 16 == lo - lo % 16
  {
  }

  // ---- runs -----------------------------------------------------------------------------------

  lemma StepKeeps(s: Events, a: Move)
    requires Inv(s) && Enabled(s, a)
    ensures Inv(Step(s, a))
  {
    hide Inv, Step, Queued;
    match a
    case Post(e) => PostKeeps(s, e);
    case PutDword => PutDwordKeeps(s);
    case Flags(bits) => FlagsKeep(s, bits);
    case Take => TakeKeeps(s);
    case WriteErdp => WriteErdpKeeps(s);
  }

  lemma {:induction false} RunKeeps(s: Events, acts: seq<Move>)
    requires Inv(s) && RunEnabled(s, acts)
    ensures Inv(Run(s, acts))
    decreases |acts|
  {
    hide Inv, Step, Enabled;
    if acts != [] {
      StepKeeps(s, acts[0]);
      RunKeeps(Step(s, acts[0]), acts[1..]);
    }
  }

  function Posts(acts: seq<Move>): seq<Trb>
    decreases |acts|
  {
    if acts == [] then [] else (if acts[0].Post? then [acts[0].event] else []) + Posts(acts[1..])
  }

  function Takes(acts: seq<Move>): nat
    decreases |acts|
  {
    if acts == [] then 0 else (if acts[0].Take? then 1 else 0) + Takes(acts[1..])
  }

  lemma {:induction false} RunCounts(s: Events, acts: seq<Move>)
    ensures Run(s, acts).posted == s.posted + Posts(acts) && |Run(s, acts).taken| == |s.taken| + Takes(acts)
    ensures Run(s, acts).base == s.base
    decreases |acts|
  {
    if acts != [] {
      StepCounts(s, acts[0]);
      RunCounts(Step(s, acts[0]), acts[1..]);
    }
  }

  lemma StepCounts(s: Events, a: Move)
    ensures Step(s, a).posted == s.posted + (if a.Post? then [a.event] else [])
    ensures |Step(s, a).taken| == |s.taken| + (if a.Take? then 1 else 0)
    ensures Step(s, a).base == s.base
  {
  }

  /** In every interleaving the k-th call of get_eventring delivers the k-th posted event, whole;
      between calls er_isQueued answers yes exactly if another event is complete; ERDP points
      into the ring to the event of its number, and the consumer's cycle bit has flipped once
      for each 256 events taken. */
  lemma EventDelivery(base: Base, acts: seq<Move>)
    requires RunEnabled(Fresh(base), acts)
    ensures var s, m := Run(Fresh(base), acts), Takes(acts);
            && m <= |Posts(acts)| && s.taken == Posts(acts)[..m]
            && s.cycle == (m / EVENTS % 2 == 0)
            && base <= Dequeue(s) < base + 4096 && Dequeue(s) % 16 == 0
            && (s.erdpWrites == [] ==> Dequeue(s) == base + 16 * (m % EVENTS) && (Queued(s) <==> m < Complete(s)))
  {
    hide Step, Enabled, PosterOk, RingOk, Queued, Pointer;
    FreshOk(base);
    RunKeeps(Fresh(base), acts);
    RunCounts(Fresh(base), acts);
    var s := Run(Fresh(base), acts);
    Sixteen(base / 4096, Place(Released(s)));
    if s.erdpWrites == [] {
      QueuedIff(s);
    }
  }

  /** The TRB that get_eventring returned stays as it was until the next call, although ERDP has
      already moved past it. */
  lemma ReturnedEventStays(base: Base, acts: seq<Move>)
    requires RunEnabled(Fresh(base), acts) && Takes(acts) > 0
    ensures Takes(acts) <= |Posts(acts)|
    ensures var s := Run(Fresh(base), acts); EventAt(s, s.current) == Posts(acts)[Takes(acts) - 1]
  {
    hide Step, Enabled, RingOk, Queued, Pointer, Place;
    FreshOk(base);
    RunKeeps(Fresh(base), acts);
    RunCounts(Fresh(base), acts);
    HeldEvent(Run(Fresh(base), acts), Takes(acts) - 1);
  }
}
