/**
 The enumeration of USB ports in kernel/xhci.c: `handle_enable_slot` and the event loop of
 `usb_process_events`, as a step function of variables, command ring and controller, and as
 code in place.  A completion event names the slot of its command, and the handler reads the
 type of the command from there.
 */
module Enumeration {

  import opened Options

  datatype Status = Reset | WaitEnableSlot | EnableSlot | AddressDevice | GetDescriptor | EndOfInitialize

  /** Commands on the command ring; the last kind stands for Evaluate Context and Configure
      Endpoint, whose completions change nothing. */
  datatype Command = EnableSlotCommand | AddressDeviceCommand(slot: nat) | OtherCommand(slot: nat)

  const PORTS: nat := 255

  /** Slots of the command ring before its Link TRB. */
  const RING: nat := 255

  /** `current` is current_port; `contexts` gives the root hub port recorded in the slot context
      of each slot with an entry in device_contexts; `rings` are the ports with a transfer ring;
      `ring` is what the slots of the command ring hold and `written` counts the commands
      written to it.  On the controller's side: the commands not completed, in order, and
      the slot ids handed out. */
  datatype Bus = Bus(current: int, status: seq<Status>, contexts: map<nat, nat>, rings: set<nat>,
                     commands: seq<Command>, slots: set<nat>, ring: seq<Option<Command>>, written: nat)

  /** The speed of a device; a full-speed device is asked for its descriptor at once, and Evaluate
      Context is sent if it reports a packet size. */
  datatype Device = OtherSpeed | FullSpeed(evaluate: bool)

  /** `beyond`: what the scan for a waiting port reads as the status of entry 255, one past the
      end of device_status; any value but that of a waiting port counts as not waiting.
      `configs` and `configured`: the configurations in the device descriptor, and those with
      a keyboard that are set. */
  datatype Event =
    | CommandCompletion(slot: nat, device: Device, beyond: Status)
    | PortStatusChange(port: nat, enabled: bool)
    | TransferDone(slot: nat, code: nat, configs: nat, configured: nat)

  /** `Wild` stands for a store outside device_status, a lookup outside it, or an access through a
      missing ring or context. */
  datatype Result = Running(bus: Bus) | Wild

  function Initial(): Bus
  {
    Bus(-1, seq(PORTS, _ => Reset), map[], {}, [], {}, seq(RING, _ => None), 0)
  }

  predicate Formed(b: Bus)
  {
    |b.status| == PORTS && |b.ring| == RING && |b.commands| <= b.written
  }

  /** What the controller may report: completions in order, a fresh slot for each Enable Slot
      command, transfers for slots that have a context. */
  predicate Enabled(b: Bus, e: Event)
  {
    match e
    case CommandCompletion(slot, _, _) =>
      && b.commands != []
      && (match b.commands[0]
          case EnableSlotCommand => 1 <= slot <= 255 && slot !in b.slots
          case AddressDeviceCommand(s) => slot == s
          case OtherCommand(s) => slot == s)
    case PortStatusChange(port, _) => 1 <= port <= PORTS
    case TransferDone(slot, _, configs, configured) => slot in b.contexts && configured <= configs < 256
  }

  /** The slot of the oldest command that has not completed: `event->ptr` of its completion. */
  function Oldest(b: Bus): (at: nat)
    requires Formed(b)
    ensures at < RING
  {
    (b.written - |b.commands|) % RING
  }

  /** `write_ring(&cmd_ring, ...)` for each command in turn, with no check for a full ring. */
  function Issue(b: Bus, cs: seq<Command>): (r: Bus)
    requires |b.ring| == RING
    ensures |r.ring| == RING
    ensures r == b.(commands := b.commands + cs, ring := r.ring, written := b.written + |cs|)
    decreases |cs|
  {
    if cs == [] then b
    else
      var b1 := b.(commands := b.commands + [cs[0]], ring := b.ring[b.written % RING := Some(cs[0])],
                   written := b.written + 1);
      assert [cs[0]] + cs[1..] == cs;
      assert b.commands + cs == b1.commands + cs[1..];
      Issue(b1, cs[1..])
  }

  predicate IsPort(p: int)
  {
    1 <= p <= PORTS
  }

  function StatusOf(b: Bus, p: int): Status
    requires IsPort(p) && |b.status| == PORTS
  {
    b.status[p - 1]
  }

  /** `port_id`: the port recorded for the slot, or current_port. */
  function PortId(b: Bus, slot: nat): int
  {
    if slot in b.contexts then b.contexts[slot] else b.current
  }

  /** The highest waiting port among the first n, or -1. */
  function LastWaiting(status: seq<Status>, n: nat): (p: int)
    requires n <= |status|
    ensures p == -1 || (1 <= p <= n && status[p - 1] == WaitEnableSlot)
    ensures forall i :: (if p == -1 then 0 else p) <= i < n ==> status[i] != WaitEnableSlot
  {
    if n == 0 then -1 else if status[n - 1] == WaitEnableSlot then n else LastWaiting(status, n - 1)
  }

  /** `handle_enable_slot`: context and ring for the current port, then Address Device. */
  function EnabledSlot(b: Bus, slot: nat, device: Device): (r: Bus)
    requires IsPort(b.current) && Formed(b)
    ensures Formed(r) && r.current == b.current && r.status == b.status[b.current - 1 := AddressDevice]
  {
    Issue(b.(contexts := b.contexts[slot := b.current], rings := b.rings + {b.current}),
          [AddressDeviceCommand(slot)] + if device == FullSpeed(true) then [OtherCommand(slot)] else [])
      .(status := b.status[b.current - 1 := AddressDevice])
  }

  /** The current port has its address; the next waiting port becomes the current one.  The scan
      covers 256 entries; if it ends with the one beyond the array, the status of this entry is
      written. */
  function Addressed(b: Bus, beyond: Status): Result
    requires IsPort(b.current) && Formed(b)
  {
    var status := b.status[b.current - 1 := GetDescriptor];
    var next := LastWaiting(status + [beyond], PORTS + 1);
    if next == -1 then Running(b.(status := status, current := -1))
    else if next == PORTS + 1 then Wild
    else Running(Issue(b.(status := status[next - 1 := EnableSlot], current := next), [EnableSlotCommand]))
  }

  /** The first test of the handler: the TRB in slot `at` is an Enable Slot command and the current
      port waits for it. */
  function EnablingTest(b: Bus, read: Option<Command>, slot: nat, port: int, device: Device): (r: Result)
    requires Formed(b)
    ensures r.Running? ==> Formed(r.bus) && r.bus.current == b.current
  {
    if read != Some(EnableSlotCommand) then Running(b)
    else if !IsPort(b.current) then Wild
    else if StatusOf(b, b.current) != EnableSlot then Running(b)
    else if device.FullSpeed? && port !in b.rings + {b.current} then Wild
    else Running(EnabledSlot(b, slot, device))
  }

  /** The second test: it is an Address Device command and the current port waits for that. */
  function AddressingTest(b: Bus, read: Option<Command>, port: int, beyond: Status): Result
    requires Formed(b)
  {
    if !(read.Some? && read.value.AddressDeviceCommand?) then Running(b)
    else if !IsPort(b.current) then Wild
    else if StatusOf(b, b.current) != AddressDevice then Running(b)
    else if port !in b.rings then Wild
    else Addressed(b, beyond)
  }

  /** The controller has completed its oldest command. */
  function Retired(b: Bus, slot: nat): Bus
    requires b.commands != []
  {
    b.(commands := b.commands[1..], slots := if b.commands[0] == EnableSlotCommand then b.slots + {slot} else b.slots)
  }

  /** A command completion event.  Each test reads the type of the command from the ring, the
      second after the first has written to it. */
  function Completed(b: Bus, slot: nat, device: Device, beyond: Status): Result
    requires b.commands != [] && Formed(b)
  {
    var at, port := Oldest(b), PortId(b, slot);
    match EnablingTest(Retired(b, slot), b.ring[at], slot, port, device)
    case Wild => Wild
    case Running(b1) => AddressingTest(b1, b1.ring[at], port, beyond)
  }

  function Step(b: Bus, e: Event): Result
    requires Formed(b) && Enabled(b, e)
  {
    match e
    case CommandCompletion(slot, device, beyond) => Completed(b, slot, device, beyond)
    case PortStatusChange(port, enabled) =>
      if !enabled then Running(b)
      else
        var b1 := Issue(b, [EnableSlotCommand]);
        if b.current == -1 then Running(b1.(current := port, status := b.status[port - 1 := EnableSlot]))
        else Running(b1.(status := b.status[port - 1 := WaitEnableSlot]))
    case TransferDone(slot, code, configs, configured) =>
      var port := b.contexts[slot];
      if !IsPort(port) then Wild
      else if (code == 1 || code == 13) && StatusOf(b, port) == GetDescriptor && configs > 0 then
        if port !in b.rings then Wild
        else
          var b1 := Issue(b, seq(configured, _ => OtherCommand(slot)));
          Running(b1.(status := b.status[port - 1 := EndOfInitialize]))
      else Running(b)
  }

  lemma StepFormed(b: Bus, e: Event)
    requires Formed(b) && Enabled(b, e)
    ensures Step(b, e).Running? ==> Formed(Step(b, e).bus)
  {
    hide LastWaiting, Issue;
  }

  // ---- the command ring ---------------------------------------------------------------------

  /** The slots hold the last 255 of the commands that have not completed. */
  predicate RingOk(b: Bus)
  {
    && Formed(b)
    && forall j :: 0 <= j < |b.commands| && |b.commands| - RING <= j
         ==> b.ring[(b.written - |b.commands| + j) % RING] == Some(b.commands[j])
  }

  /** What the completion of the oldest command finds in its slot: this command if at most 255 have
      not completed, else a later one. */
  lemma OldestSlot(b: Bus)
    requires RingOk(b) && b.commands != []
    ensures b.ring[Oldest(b)] == Some(b.commands[(|b.commands| - 1) / RING * RING])
    ensures (|b.commands| - 1) / RING * RING == 0 <==> |b.commands| <= RING
  {
    var n, done := |b.commands|, b.written - |b.commands|;
    var q := (n - 1) / RING;
    assert (done + q * RING) % RING == done % RING;
    assert b.ring[(done + q * RING) % RING] == Some(b.commands[q * RING]);
  }

  lemma SameSlot(t: nat, u: nat)
    requires t < u < t + RING
    ensures t % RING != u % RING
  {
  }

  lemma {:induction false} IssueRing(b: Bus, cs: seq<Command>)
    requires RingOk(b)
    ensures RingOk(Issue(b, cs))
    decreases |cs|
  {
    if cs != [] {
      var b1 := b.(commands := b.commands + [cs[0]], ring := b.ring[b.written % RING := Some(cs[0])],
                   written := b.written + 1);
      var n, done := |b1.commands|, b1.written - |b1.commands|;
      forall j | 0 <= j < n && n - RING <= j
        ensures b1.ring[(done + j) % RING] == Some(b1.commands[j])
      {
        if j < n - 1 {
          SameSlot(done + j, b.written);
        }
      }
      IssueRing(b1, cs[1..]);
    }
  }

  lemma IssueOne(b: Bus, c: Command)
    requires |b.ring| == RING
    ensures Issue(b, [c]) ==
              b.(commands := b.commands + [c], ring := b.ring[b.written % RING := Some(c)], written := b.written + 1)
  {
    assert [c][1..] == [];
  }

  lemma RetiredRing(b: Bus, slot: nat)
    requires RingOk(b) && b.commands != []
    ensures RingOk(Retired(b, slot))
  {
    var b1 := Retired(b, slot);
    var done := b1.written - |b1.commands|;
    forall j | 0 <= j < |b1.commands| && |b1.commands| - RING <= j
      ensures b1.ring[(done + j) % RING] == Some(b1.commands[j])
    {
      assert b.ring[(b.written - |b.commands| + (j + 1)) % RING] == Some(b.commands[j + 1]);
    }
  }

  /** The handler as it is meant: by the command that has completed. */
  function Handled(b: Bus, slot: nat, device: Device, beyond: Status): Result
    requires b.commands != [] && Formed(b)
  {
    var b1, c, port := Retired(b, slot), Some(b.commands[0]), PortId(b, slot);
    if b.commands[0] == EnableSlotCommand then EnablingTest(b1, c, slot, port, device)
    else AddressingTest(b1, c, port, beyond)
  }

  /** At most 254 commands have not completed when a completion is handled. */
  predicate Roomy(b: Bus, e: Event)
  {
    e.CommandCompletion? ==> |b.commands| <= RING - 1
  }

  /** Then both tests read the type of the command that has completed, although the first may have
      written up to two commands before the second reads. */
  lemma ReadsRight(b: Bus, slot: nat, device: Device, beyond: Status)
    requires RingOk(b) && b.commands != [] && |b.commands| <= RING - 1
    ensures Completed(b, slot, device, beyond) == Handled(b, slot, device, beyond)
  {
    hide Addressed, Issue;
    OldestSlot(b);
    var at, c, port := Oldest(b), b.commands[0], PortId(b, slot);
    var b1 := Retired(b, slot);
    var r := EnablingTest(b1, Some(c), slot, port, device);
    if c == EnableSlotCommand && r.Running? && r.bus != b1 {
      SecondRead(b, slot, device);
    }
  }

  lemma SecondRead(b: Bus, slot: nat, device: Device)
    requires RingOk(b) && b.commands != [] && |b.commands| <= RING - 1 && b.commands[0] == EnableSlotCommand
    requires IsPort(b.current)
    ensures var read := EnabledSlot(Retired(b, slot), slot, device).ring[Oldest(b)];
            !(read.Some? && read.value.AddressDeviceCommand?)
  {
    OldestSlot(b);
    var at, done, n := Oldest(b), b.written - |b.commands|, |b.commands|;
    var b1 := Retired(b, slot);
    var b2 := b1.(contexts := b1.contexts[slot := b1.current], rings := b1.rings + {b1.current});
    var add, eval := AddressDeviceCommand(slot), OtherCommand(slot);
    SameSlot(done, done + n);
    IssueOne(b2, add);
    if device == FullSpeed(true) {
      IssueSnoc(b2, [add], eval);
      IssueOne(Issue(b2, [add]), eval);
    } else {
      assert [add] + [] == [add];
    }
  }

  // ---- the code -----------------------------------------------------------------------------

  /** One more command after the others. */
  lemma {:induction false} IssueSnoc(b: Bus, cs: seq<Command>, c: Command)
    requires |b.ring| == RING
    ensures Issue(b, cs + [c]) == Issue(Issue(b, cs), [c])
    decreases |cs|
  {
    if cs != [] {
      assert (cs + [c])[0] == cs[0] && (cs + [c])[1..] == cs[1..] + [c];
      IssueSnoc(Issue(b, [cs[0]]), cs[1..], c);
      IssueFirst(b, cs + [c]);
      IssueFirst(b, cs);
    }
  }

  lemma IssueFirst(b: Bus, cs: seq<Command>)
    requires |b.ring| == RING && cs != []
    ensures Issue(b, cs) == Issue(Issue(b, [cs[0]]), cs[1..])
  {
    assert [cs[0]][1..] == [];
  }

  /** The static variables of kernel/xhci.c that take part, with the command ring; the controller's
      queue of commands is ghost state. */
  class Enumerator {
    var current: int
    const status: array<Status>
    var contexts: map<nat, nat>
    var rings: set<nat>
    const ring: array<Option<Command>>
    var index: nat
    ghost var written: nat
    ghost var commands: seq<Command>
    ghost var slots: set<nat>

    ghost predicate Valid()
      reads this
    {
      && status.Length == PORTS && ring.Length == RING
      && index == written % RING && |commands| <= written
    }

    ghost function State(): Bus
      reads this, status, ring
    {
      Bus(current, status[..], contexts, rings, commands, slots, ring[..], written)
    }

    constructor ()
      ensures Valid() && State() == Initial() && fresh(status) && fresh(ring)
    {
      status := new Status[PORTS](_ => Reset);
      ring := new Option<Command>[RING](_ => None);
      current, contexts, rings, index := -1, map[], {}, 0;
      written, commands, slots := 0, [], {};
    }

    /** `write_ring(&cmd_ring, ...)`, of which only the command and its slot matter here. */
    method WriteCommand(c: Command)
      requires Valid()
      modifies this`index, this`written, this`commands, ring
      ensures Valid() && State() == Issue(old(State()), [c])
    {
      assert [c][1..] == [];
      ring[index] := Some(c);
      index := index + 1;
      if index == RING {
        index := 0;
      }
      written, commands := written + 1, commands + [c];
    }

    /** `handle_enable_slot`, when an Enable Slot command has completed. */
    method HandleEnableSlot(slot: nat, device: Device)
      requires Valid() && IsPort(current)
      modifies this, status, ring
      ensures Valid() && State() == EnabledSlot(old(State()), slot, device)
    {
      hide Issue;
      contexts := contexts[slot := current];
      rings := rings + {current};
      ghost var b := State();
      WriteCommand(AddressDeviceCommand(slot));
      if device == FullSpeed(true) {
        IssueSnoc(b, [AddressDeviceCommand(slot)], OtherCommand(slot));
        WriteCommand(OtherCommand(slot));
      } else {
        assert [AddressDeviceCommand(slot)] + [] == [AddressDeviceCommand(slot)];
      }
      status[current - 1] := AddressDevice;
    }

    /** The scan for a waiting port, which reads one entry too many; the last one found wins. */
    method FindWaiting(beyond: Status) returns (port: int)
      requires status.Length == PORTS
      ensures port == LastWaiting(status[..] + [beyond], PORTS + 1)
    {
      ghost var cells := status[..] + [beyond];
      port := -1;
      for i := 0 to PORTS + 1
        invariant port == LastWaiting(cells, i)
      {
        var state := if i < PORTS then status[i] else beyond;
        assert state == cells[i];
        if state == WaitEnableSlot {
          port := i + 1;
        }
      }
    }

    /** `usb_process_events` on a Command Completion Event for the command in slot `at` of the ring;
        `wild` reports an access outside device_status or through a missing ring, right before
        it is made. */
    method CommandCompleted(at: nat, slot: nat, device: Device, beyond: Status) returns (wild: bool)
      requires Valid() && Enabled(State(), CommandCompletion(slot, device, beyond)) && at == Oldest(State())
      modifies this, status, ring
      ensures wild <==> Step(old(State()), CommandCompletion(slot, device, beyond)) == Wild
      ensures !wild ==> Valid() && Running(State()) == Step(old(State()), CommandCompletion(slot, device, beyond))
    {
      hide Issue, LastWaiting;
      var port := if slot in contexts then contexts[slot] else current;
      Complete(slot);
      if ring[at] == Some(EnableSlotCommand) {
        if !(1 <= current <= PORTS) {
          return true;
        }
        if status[current - 1] == EnableSlot {
          if device.FullSpeed? && port !in rings + {current} {
            return true;
          }
          HandleEnableSlot(slot, device);
        }
      }
      if ring[at].Some? && ring[at].value.AddressDeviceCommand? {
        if !(1 <= current <= PORTS) {
          return true;
        }
        if status[current - 1] == AddressDevice {
          if port !in rings {
            return true;
          }
          wild := NextPort(beyond);
          return;
        }
      }
      wild := false;
    }

    /** The controller has completed its oldest command. */
    ghost method Complete(slot: nat)
      requires Valid() && commands != []
      modifies this`commands, this`slots
      ensures Valid() && State() == Retired(old(State()), slot)
    {
      slots := if commands[0] == EnableSlotCommand then slots + {slot} else slots;
      commands := commands[1..];
    }

    /** The current port has its address; the scan decides which port is next. */
    method NextPort(beyond: Status) returns (wild: bool)
      requires Valid() && IsPort(current)
      modifies this, status, ring
      ensures wild <==> Addressed(old(State()), beyond) == Wild
      ensures !wild ==> Valid() && Running(State()) == Addressed(old(State()), beyond)
    {
      hide Issue, LastWaiting;
      status[current - 1] := GetDescriptor;
      current := FindWaiting(beyond);
      if current == PORTS + 1 {
        return true;
      }
      if current != -1 {
        status[current - 1] := EnableSlot;
        WriteCommand(EnableSlotCommand);
      }
      wild := false;
    }

    /** `usb_process_events` on a Port Status Change Event. */
    method PortStatusChanged(port: nat, enabled: bool)
      requires Valid() && Enabled(State(), PortStatusChange(port, enabled))
      modifies this, status, ring
      ensures Valid() && Running(State()) == Step(old(State()), PortStatusChange(port, enabled))
    {
      hide Issue;
      if enabled {
        WriteCommand(EnableSlotCommand);
        if current == -1 {
          current := port;
          status[port - 1] := EnableSlot;
        } else {
          status[port - 1] := WaitEnableSlot;
        }
      }
    }

    /** `usb_process_events` on a Transfer Event; of the descriptors only their number counts. */
    method Transferred(slot: nat, code: nat, configs: nat, configured: nat) returns (wild: bool)
      requires Valid() && Enabled(State(), TransferDone(slot, code, configs, configured))
      modifies this, status, ring
      ensures wild <==> Step(old(State()), TransferDone(slot, code, configs, configured)) == Wild
      ensures !wild ==> Valid() && Running(State()) == Step(old(State()), TransferDone(slot, code, configs, configured))
    {
      hide Issue;
      var port := contexts[slot];
      if !(1 <= port <= PORTS) {
        return true;
      }
      wild := false;
      if (code == 1 || code == 13) && status[port - 1] == GetDescriptor && configs > 0 {
        if port !in rings {
          return true;
        }
        ghost var b, cs := State(), seq(configured, _ => OtherCommand(slot));
        IssueNothing(b);
        for i := 0 to configured
          invariant Valid() && State() == Issue(b, cs[..i])
        {
          IssueSnoc(b, cs[..i], OtherCommand(slot));
          assert cs[..i] + [OtherCommand(slot)] == cs[..i + 1];
          WriteCommand(OtherCommand(slot));
        }
        assert cs[..configured] == cs;
        status[port - 1] := EndOfInitialize;
      }
    }
  }

  lemma IssueNothing(b: Bus)
    requires |b.ring| == RING
    ensures Issue(b, []) == b
  {
  }
}
