/**
 Runs of the enumeration in kernel/xhci.c.  One port at a time, `current_port`, is given a slot
 and an address; ports that become enabled meanwhile wait.  The results hold as long as at
 most 254 commands have not completed, and a run with 255 shows that they do not beyond.
 */
module EnumerationRuns {
  import opened Options
  import opened Enumeration

  // ---- the invariant ------------------------------------------------------------------------

  predicate NoAddressing(commands: seq<Command>)
  {
    forall i :: 0 <= i < |commands| ==> !commands[i].AddressDeviceCommand?
  }

  predicate NoEnabling(commands: seq<Command>)
  {
    forall i :: 0 <= i < |commands| ==> commands[i] != EnableSlotCommand
  }

  /** A port waits. */
  predicate SomeWaiting(b: Bus)
  {
    exists i :: 0 <= i < |b.status| && b.status[i] == WaitEnableSlot
  }

  /** Exactly one Address Device command is on the ring, number k, for a slot of the current
      port; an Enable Slot command behind it has a waiting port. */
  predicate AddressingAt(b: Bus, k: nat)
  {
    && k < |b.commands| && b.commands[k].AddressDeviceCommand?
    && b.commands[k].slot in b.contexts && b.contexts[b.commands[k].slot] == b.current
    && (forall i :: 0 <= i < |b.commands| && i != k ==> !b.commands[i].AddressDeviceCommand?)
    && (forall i :: k < i < |b.commands| && b.commands[i] == EnableSlotCommand ==> SomeWaiting(b))
  }

  ghost predicate Inv(b: Bus)
  {
    && Formed(b) && RingOk(b) && (b.current == -1 || IsPort(b.current))
    && (forall p :: IsPort(p) && StatusOf(b, p) in {EnableSlot, AddressDevice} ==> p == b.current)
    && (b.current == -1 ==> !SomeWaiting(b) && NoAddressing(b.commands) && NoEnabling(b.commands))
    && (b.current != -1 ==>
          (match StatusOf(b, b.current)
           case EnableSlot => NoAddressing(b.commands) && !NoEnabling(b.commands)
           case AddressDevice => b.current in b.rings && exists k: nat :: AddressingAt(b, k)
           case WaitEnableSlot => true
           case _ => false))
    && (forall s :: s in b.contexts ==> s in b.slots && IsPort(b.contexts[s]) && b.contexts[s] in b.rings)
  }

  lemma InitialOk()
    ensures Inv(Initial())
  {
  }

  /** Commands behind the Address Device command, no more of its kind, do no harm. */
  lemma AppendCommands(b: Bus, b': Bus, more: seq<Command>)
    requires b'.commands == b.commands + more && NoAddressing(more) && b'.contexts == b.contexts
    requires b'.current == b.current
    requires SomeWaiting(b) ==> SomeWaiting(b')
    requires NoEnabling(more) || SomeWaiting(b')
    ensures NoAddressing(b.commands) ==> NoAddressing(b'.commands)
    ensures !NoEnabling(b.commands) ==> !NoEnabling(b'.commands)
    ensures forall k: nat :: AddressingAt(b, k) ==> AddressingAt(b', k)
  {
    if !NoEnabling(b.commands) {
      var i :| 0 <= i < |b.commands| && b.commands[i] == EnableSlotCommand;
      assert b'.commands[i] == EnableSlotCommand;
    }
  }

  /** Another port than the current one changes its status. */
  lemma OtherStatus(b: Bus, p: int, s: Status)
    requires |b.status| == PORTS && IsPort(p) && (s == WaitEnableSlot || StatusOf(b, p) != WaitEnableSlot)
    ensures SomeWaiting(b) ==> SomeWaiting(b.(status := b.status[p - 1 := s]))
  {
    if SomeWaiting(b) {
      var i :| 0 <= i < |b.status| && b.status[i] == WaitEnableSlot;
      assert b.status[p - 1 := s][i] == WaitEnableSlot;
    }
  }

  /** Two states with the same commands in the same ring. */
  predicate SameRing(b: Bus, b': Bus)
  {
    b'.ring == b.ring && b'.written == b.written && b'.commands == b.commands && |b'.status| == PORTS
  }

  /** The ring after commands were issued does not depend on the other variables. */
  lemma IssueKeepsRing(b: Bus, b': Bus, cs: seq<Command>)
    requires RingOk(b)
    ensures RingOk(Issue(b, cs)) && Formed(b)
    ensures SameRing(Issue(b, cs), b') ==> RingOk(b')
  {
    IssueRing(b, cs);
  }

  lemma PortChangeKeeps(b: Bus, e: Event)
    requires Inv(b) && e.PortStatusChange? && Enabled(b, e)
    ensures Step(b, e).Running? && Inv(Step(b, e).bus)
  {
    hide Issue, RingOk;
    var b' := Step(b, e).bus;
    IssueKeepsRing(b, b', [EnableSlotCommand]);
    if e.enabled && b.current != -1 {
      OtherStatus(b, e.port, WaitEnableSlot);
      assert b'.status[e.port - 1] == WaitEnableSlot;
      AppendCommands(b, b', [EnableSlotCommand]);
    } else if e.enabled {
      assert b'.commands[|b.commands|] == EnableSlotCommand;
    }
  }

  lemma TransferKeeps(b: Bus, e: Event)
    requires Inv(b) && e.TransferDone? && Enabled(b, e)
    ensures Step(b, e).Running? && Inv(Step(b, e).bus)
  {
    hide Issue, RingOk;
    var b' := Step(b, e).bus;
    IssueKeepsRing(b, b', seq(e.configured, _ => OtherCommand(e.slot)));
    if b' != b {
      OtherStatus(b, b.contexts[e.slot], EndOfInitialize);
      AppendCommands(b, b', seq(e.configured, _ => OtherCommand(e.slot)));
    }
  }

  /** The completion event that e reports concerns the current port and is acted on. */
  predicate ActedOn(b: Bus, e: Event)
    requires Formed(b)
  {
    && e.CommandCompletion? && b.commands != [] && IsPort(b.current)
    && (match b.commands[0]
        case EnableSlotCommand => StatusOf(b, b.current) == EnableSlot
        case AddressDeviceCommand(_) => StatusOf(b, b.current) == AddressDevice
        case OtherCommand(_) => false)
  }

  /** The scan of e, if it makes one, finds no waiting port beyond the array. */
  predicate Clean(b: Bus, e: Event)
    requires Formed(b)
  {
    ActedOn(b, e) && b.commands[0].AddressDeviceCommand? ==> e.beyond != WaitEnableSlot
  }

  /** A command completes that is not acted on. */
  lemma IgnoredKeeps(b: Bus, e: Event)
    requires Inv(b) && e.CommandCompletion? && Enabled(b, e) && Roomy(b, e) && !ActedOn(b, e)
    ensures Step(b, e).Running? && Inv(Step(b, e).bus)
    ensures Step(b, e).bus.current == b.current && Step(b, e).bus.status == b.status
  {
    hide Issue, RingOk, Completed;
    ReadsRight(b, e.slot, e.device, e.beyond);
    RetiredRing(b, e.slot);
    assert !(b.current == -1 && b.commands[0] != OtherCommand(e.slot));
    var b' := Step(b, e).bus;
    if b.current != -1 && StatusOf(b, b.current) == AddressDevice {
      var k: nat :| AddressingAt(b, k);
      assert AddressingAt(b', k - 1);
    }
    if b.current != -1 && StatusOf(b, b.current) == EnableSlot {
      var i :| 0 <= i < |b.commands| && b.commands[i] == EnableSlotCommand;
      assert b'.commands[i - 1] == EnableSlotCommand;
    }
  }

  lemma EnabledKeepsRing(b: Bus, slot: nat, device: Device)
    requires RingOk(b) && IsPort(b.current)
    ensures RingOk(EnabledSlot(b, slot, device))
  {
    hide Issue;
    var cs := [AddressDeviceCommand(slot)] + if device == FullSpeed(true) then [OtherCommand(slot)] else [];
    var b1 := b.(contexts := b.contexts[slot := b.current], rings := b.rings + {b.current});
    IssueRing(b1, cs);
  }

  /** handle_enable_slot sends the one Address Device command there is. */
  lemma EnablingKeeps(b: Bus, e: Event)
    requires Inv(b) && Enabled(b, e) && Roomy(b, e) && ActedOn(b, e) && b.commands[0] == EnableSlotCommand
    ensures PortId(b, e.slot) == b.current
    ensures Step(b, e).Running? && Inv(Step(b, e).bus)
    ensures Step(b, e).bus.contexts[e.slot] == b.current
  {
    hide Issue, RingOk, Completed;
    ReadsRight(b, e.slot, e.device, e.beyond);
    RetiredRing(b, e.slot);
    var b1, b' := Retired(b, e.slot), Step(b, e).bus;
    EnabledKeepsRing(b1, e.slot, e.device);
    assert AddressingAt(b', |b.commands| - 1);
  }

  lemma NextKeepsRing(b: Bus, b': Bus, beyond: Status)
    requires RingOk(b) && IsPort(b.current) && Addressed(b, beyond) == Running(b')
    ensures RingOk(b')
  {
    hide Issue;
    if b'.current != -1 {
      var status := b.status[b.current - 1 := GetDescriptor];
      var b1 := b.(status := status[b'.current - 1 := EnableSlot], current := b'.current);
      IssueRing(b1, [EnableSlotCommand]);
    }
  }

  /** Address Device completes for the current port: the next waiting port takes its place. */
  lemma AddressingKeeps(b: Bus, e: Event)
    requires Inv(b) && Enabled(b, e) && Roomy(b, e) && ActedOn(b, e) && b.commands[0].AddressDeviceCommand?
    ensures e.slot in b.contexts && PortId(b, e.slot) == b.current && b.current in b.rings
    ensures Step(b, e).Running? <==> Clean(b, e)
    ensures Clean(b, e) ==> Inv(Step(b, e).bus)
  {
    hide Issue, RingOk, Completed;
    ReadsRight(b, e.slot, e.device, e.beyond);
    RetiredRing(b, e.slot);
    var k: nat :| AddressingAt(b, k);
    assert k == 0;
    var cells := b.status[b.current - 1 := GetDescriptor] + [e.beyond];
    assert cells[PORTS] == e.beyond;
    assert forall i :: 0 <= i < PORTS ==> cells[i] == b.status[b.current - 1 := GetDescriptor][i];
    if !Clean(b, e) {
      return;
    }
    var b' := Step(b, e).bus;
    NextKeepsRing(Retired(b, e.slot), b', e.beyond);
    if b'.current != -1 {
      assert b'.commands[|b.commands| - 1] == EnableSlotCommand;
    } else {
      forall i | 0 <= i < PORTS
        ensures b.status[i] != WaitEnableSlot
      {
        assert cells[i] == if i == b.current - 1 then GetDescriptor else b.status[i];
      }
    }
  }

  lemma StepKeeps(b: Bus, e: Event)
    requires Inv(b) && Enabled(b, e) && Roomy(b, e)
    ensures Step(b, e).Running? <==> Clean(b, e)
    ensures Clean(b, e) ==> Inv(Step(b, e).bus)
  {
    hide Inv, Step;
    match e
    case CommandCompletion(slot, _, _) =>
      assert Formed(b) by { Sized(b); }
      if !ActedOn(b, e) {
        IgnoredKeeps(b, e);
      } else if b.commands[0] == EnableSlotCommand {
        EnablingKeeps(b, e);
      } else {
        AddressingKeeps(b, e);
      }
    case PortStatusChange(_, _) => PortChangeKeeps(b, e);
    case TransferDone(_, _, _, _) => TransferKeeps(b, e);
  }

  lemma Sized(b: Bus)
    requires Inv(b)
    ensures Formed(b)
  {
  }

  /** Wherever the code mixes port_id and current_port they are the same port: at each
      completion that is acted on, the port recorded for the slot, or for a new slot the
      fallback, is the current port, whose lookup in device_status is valid. */
  lemma OnePort(b: Bus, e: Event)
    requires Inv(b) && Enabled(b, e) && Roomy(b, e) && ActedOn(b, e)
    ensures PortId(b, e.slot) == b.current && IsPort(b.current)
    ensures b.commands[0].AddressDeviceCommand? ==> e.slot in b.contexts && b.current in b.rings
    ensures b.commands[0].EnableSlotCommand? ==> Step(b, e).Running? && Step(b, e).bus.contexts[e.slot] == b.current
  {
    if b.commands[0] == EnableSlotCommand {
      EnablingKeeps(b, e);
    } else {
      AddressingKeeps(b, e);
    }
  }

  // ---- runs ---------------------------------------------------------------------------------

  ghost predicate RunEnabled(b: Bus, es: seq<Event>)
    decreases |es|
  {
    es == [] || (Formed(b) && Enabled(b, es[0])
                 && (Step(b, es[0]).Running? ==> RunEnabled(Step(b, es[0]).bus, es[1..])))
  }

  ghost function Run(b: Bus, es: seq<Event>): Result
    requires RunEnabled(b, es)
    decreases |es|
  {
    if es == [] then Running(b)
    else match Step(b, es[0])
      case Running(b1) => Run(b1, es[1..])
      case Wild => Wild
  }

  /** No scan of the run finds a waiting port beyond the array. */
  ghost predicate ScansClean(b: Bus, es: seq<Event>)
    requires RunEnabled(b, es)
    decreases |es|
  {
    es == [] || (Clean(b, es[0]) && (Step(b, es[0]).Running? ==> ScansClean(Step(b, es[0]).bus, es[1..])))
  }

  /** Whenever a completion of the run is handled, at most 254 commands have not completed. */
  ghost predicate AllRoomy(b: Bus, es: seq<Event>)
    requires RunEnabled(b, es)
    decreases |es|
  {
    es == [] || (Roomy(b, es[0]) && (Step(b, es[0]).Running? ==> AllRoomy(Step(b, es[0]).bus, es[1..])))
  }

  lemma {:induction false} RunKeeps(b: Bus, es: seq<Event>)
    requires Inv(b) && RunEnabled(b, es) && AllRoomy(b, es)
    ensures Run(b, es).Running? <==> ScansClean(b, es)
    ensures ScansClean(b, es) ==> Inv(Run(b, es).bus)
    decreases |es|
  {
    hide Inv, Step, Enabled, Clean;
    if es != [] {
      StepKeeps(b, es[0]);
      if Step(b, es[0]).Running? {
        RunKeeps(Step(b, es[0]).bus, es[1..]);
      }
    }
  }

  /** A port being enabled or addressed is the current one; when there is none, no port waits and no
      Enable Slot or Address Device command is outstanding, so the lookup for the completion of
      such a command is valid. */
  ghost predicate OneAtATime(b: Bus)
  {
    && Formed(b) && (b.current == -1 || IsPort(b.current))
    && (forall p :: IsPort(p) && StatusOf(b, p) in {EnableSlot, AddressDevice} ==> p == b.current)
    && (b.current == -1 ==> forall p :: IsPort(p) ==> StatusOf(b, p) != WaitEnableSlot)
    && (b.current == -1 ==> forall i :: 0 <= i < |b.commands| ==> b.commands[i].OtherCommand?)
  }

  /** A run makes no access outside device_status but the read of the scan, none through a missing
      ring or context, and leaves one port at a time, if and only if no scan of the run finds
      a waiting port in the entry beyond the array. */
  lemma CurrentPort(es: seq<Event>)
    requires RunEnabled(Initial(), es) && AllRoomy(Initial(), es)
    ensures Run(Initial(), es).Running? <==> ScansClean(Initial(), es)
    ensures Run(Initial(), es).Running? ==> OneAtATime(Run(Initial(), es).bus)
  {
    hide Step, Enabled;
    InitialOk();
    RunKeeps(Initial(), es);
    if ScansClean(Initial(), es) {
      var b := Run(Initial(), es).bus;
      if b.current == -1 {
        forall p | IsPort(p)
          ensures StatusOf(b, p) != WaitEnableSlot
        {
          NotBusy(b, p);
        }
      }
    }
  }

  // ---- the stall ----------------------------------------------------------------------------

  /** The current port was sent back to waiting. */
  predicate Stalled(b: Bus)
  {
    IsPort(b.current) && |b.status| == PORTS && StatusOf(b, b.current) == WaitEnableSlot
  }

  /** A status change of an enabled port hits the port that is current. */
  predicate Hits(b: Bus, e: Event)
  {
    e.PortStatusChange? && e.enabled && e.port == b.current
  }

  lemma StalledIff(b: Bus, e: Event)
    requires Inv(b) && Enabled(b, e) && Roomy(b, e) && Clean(b, e)
    ensures Step(b, e).Running? && Inv(Step(b, e).bus)
    ensures Stalled(Step(b, e).bus) <==> Stalled(b) || Hits(b, e)
    ensures Stalled(b) ==> Step(b, e).bus.current == b.current
    ensures Stalled(b) ==>
              var b' := Step(b, e).bus;
              forall p :: IsPort(p) && StatusOf(b, p) == WaitEnableSlot ==> StatusOf(b', p) == WaitEnableSlot
  {
    hide Issue, RingOk, Completed;
    StepKeeps(b, e);
    match e
    case CommandCompletion(slot, device, beyond) =>
      ReadsRight(b, slot, device, beyond);
      if ActedOn(b, e) {
        if b.commands[0] == EnableSlotCommand {
          EnablingKeeps(b, e);
        } else {
          AddressingKeeps(b, e);
        }
      }
    case PortStatusChange(_, _) =>
    case TransferDone(_, _, _, _) =>
  }

  /** Some event of the run hits the port current at that time. */
  ghost predicate SomeHit(b: Bus, es: seq<Event>)
    requires RunEnabled(b, es)
    decreases |es|
  {
    es != [] && (Hits(b, es[0]) || (Step(b, es[0]).Running? && SomeHit(Step(b, es[0]).bus, es[1..])))
  }

  lemma {:induction false} RunStalledIff(b: Bus, es: seq<Event>)
    requires Inv(b) && RunEnabled(b, es) && AllRoomy(b, es) && ScansClean(b, es)
    ensures Run(b, es).Running? && (Stalled(Run(b, es).bus) <==> Stalled(b) || SomeHit(b, es))
    ensures Stalled(b) ==> Run(b, es).bus.current == b.current && Formed(Run(b, es).bus)
    ensures Stalled(b) ==>
              var b' := Run(b, es).bus;
              forall p :: IsPort(p) && StatusOf(b, p) == WaitEnableSlot ==> StatusOf(b', p) == WaitEnableSlot
    decreases |es|
  {
    hide Inv, Step, Enabled, Hits, Stalled, Clean;
    assert Formed(b) by { Sized(b); }
    if es != [] {
      StalledIff(b, es[0]);
      var b1 := Step(b, es[0]).bus;
      assert Formed(b1) by { Sized(b1); }
      RunStalledIff(b1, es[1..]);
    }
  }

  /** The port had a status change with the port enabled. */
  predicate Plugged(es: seq<Event>, p: int)
  {
    exists i :: 0 <= i < |es| && es[i].PortStatusChange? && es[i].enabled && es[i].port == p
  }

  lemma NeverReset(b: Bus, e: Event, p: int)
    requires Inv(b) && Enabled(b, e) && Roomy(b, e) && Clean(b, e) && IsPort(p)
    requires StatusOf(b, p) != Reset || (e.PortStatusChange? && e.enabled && e.port == p)
    ensures Step(b, e).Running? && Formed(Step(b, e).bus) && StatusOf(Step(b, e).bus, p) != Reset
  {
    hide Issue, RingOk, Completed;
    StepKeeps(b, e);
    assert Formed(b) && RingOk(b);
    if e.CommandCompletion? {
      ReadsRight(b, e.slot, e.device, e.beyond);
    }
  }

  lemma {:induction false} PluggedStatus(b: Bus, es: seq<Event>, p: int)
    requires Inv(b) && RunEnabled(b, es) && AllRoomy(b, es) && ScansClean(b, es) && IsPort(p)
    requires (StatusOf(b, p) != Reset || Plugged(es, p))
    ensures Run(b, es).Running? && Formed(Run(b, es).bus) && StatusOf(Run(b, es).bus, p) != Reset
    decreases |es|
  {
    hide Step, Enabled;
    if es != [] {
      var e := es[0];
      StepKeeps(b, e);
      if StatusOf(b, p) != Reset || (e.PortStatusChange? && e.enabled && e.port == p) {
        NeverReset(b, e, p);
      } else {
        var i :| 0 <= i < |es| && es[i].PortStatusChange? && es[i].enabled && es[i].port == p;
        assert es[1..][i - 1] == es[i];
      }
      PluggedStatus(Step(b, e).bus, es[1..], p);
    }
  }

  /** Enumeration comes to an end exactly if no enabled port reports a status change while it is
      the current one: once all commands have completed, current_port is -1 and every port that
      was enabled has got its address if and only if no event hit the current port. */
  lemma EnumerationCompletes(es: seq<Event>)
    requires RunEnabled(Initial(), es) && AllRoomy(Initial(), es) && ScansClean(Initial(), es)
    requires Run(Initial(), es).Running? ==> Run(Initial(), es).bus.commands == []
    ensures Run(Initial(), es).Running?
    ensures Run(Initial(), es).bus.current == -1 <==> !SomeHit(Initial(), es)
    ensures !SomeHit(Initial(), es) <==>
              forall p :: IsPort(p) && Plugged(es, p) ==>
                Formed(Run(Initial(), es).bus)
                  && StatusOf(Run(Initial(), es).bus, p) in {GetDescriptor, EndOfInitialize}
  {
    hide Step, Enabled, Inv, Plugged;
    InitialOk();
    RunKeeps(Initial(), es);
    RunStalledIff(Initial(), es);
    var b := Run(Initial(), es).bus;
    Drained(b);
    if !SomeHit(Initial(), es) {
      forall p | IsPort(p) && Plugged(es, p)
        ensures StatusOf(b, p) in {GetDescriptor, EndOfInitialize}
      {
        assert b.current == -1;
        PluggedStatus(Initial(), es, p);
        NotBusy(b, p);
      }
    } else {
      HitPlugged(Initial(), es);
    }
  }

  /** With no command outstanding the current port, if there is one, is stalled. */
  lemma Drained(b: Bus)
    requires Inv(b) && b.commands == []
    ensures Formed(b) && (b.current == -1 <==> !Stalled(b))
  {
  }

  lemma NotBusy(b: Bus, p: int)
    requires Inv(b) && b.current == -1 && IsPort(p)
    ensures Formed(b) && StatusOf(b, p) !in {WaitEnableSlot, EnableSlot, AddressDevice}
  {
    assert b.status[p - 1] == WaitEnableSlot ==> SomeWaiting(b);
  }

  /** A port that is hit was plugged, and stays waiting. */
  lemma {:induction false} HitPlugged(b: Bus, es: seq<Event>)
    requires Inv(b) && RunEnabled(b, es) && AllRoomy(b, es) && ScansClean(b, es) && (SomeHit(b, es) || Stalled(b))
    ensures Run(b, es).Running? && IsPort(Run(b, es).bus.current) && Stalled(Run(b, es).bus)
    ensures !Stalled(b) ==> Plugged(es, Run(b, es).bus.current)
    decreases |es|
  {
    hide Step, Enabled;
    RunStalledIff(b, es);
    if es != [] && !Stalled(b) {
      var e := es[0];
      StalledIff(b, e);
      var b1 := Step(b, e).bus;
      RunStalledIff(b1, es[1..]);
      if Hits(b, e) {
        assert es[0] == e;
        assert b1.current == b.current by { HitCurrent(b, e); }
      } else {
        HitPlugged(b1, es[1..]);
        var i :| 0 <= i < |es[1..]| && es[1..][i].PortStatusChange? && es[1..][i].enabled
              && es[1..][i].port == Run(b, es).bus.current;
        assert es[i + 1] == es[1..][i];
      }
    }
  }

  lemma HitCurrent(b: Bus, e: Event)
    requires Inv(b) && Enabled(b, e) && Hits(b, e)
    ensures Step(b, e).Running? && Step(b, e).bus.current == b.current
  {
  }

  // ---- commands sent, and the history of a port ------------------------------------------------

  /** The commands that a step sends: Address Device, and Evaluate Context for a full-speed device
      that asks for it, once the current port has a slot; Enable Slot once the current port has its
      address and another port waits; Enable Slot for each enabled port; Configure Endpoint for
      each keyboard configuration of a port that got its descriptor without an error.  Nothing
      else sends a command. */
  lemma StepSends(b: Bus, e: Event)
    requires Inv(b) && Enabled(b, e) && Roomy(b, e) && Clean(b, e)
    ensures Formed(b) && Step(b, e).Running?
    ensures e.PortStatusChange? ==>
              Step(b, e).bus.commands == b.commands + if e.enabled then [EnableSlotCommand] else []
    ensures e.TransferDone? ==>
              var p := b.contexts[e.slot];
              && IsPort(p)
              && Step(b, e).bus.commands == b.commands +
                   if (e.code == 1 || e.code == 13) && e.configs > 0 && StatusOf(b, p) == GetDescriptor
                   then seq(e.configured, _ => OtherCommand(e.slot)) else []
    ensures e.CommandCompletion? && b.commands[0] == EnableSlotCommand ==>
              Step(b, e).bus.commands == b.commands[1..] +
                if b.current != -1 && StatusOf(b, b.current) == EnableSlot
                then [AddressDeviceCommand(e.slot)] + if e.device == FullSpeed(true) then [OtherCommand(e.slot)] else []
                else []
    ensures e.CommandCompletion? && b.commands[0].AddressDeviceCommand? ==>
              Step(b, e).bus.commands == b.commands[1..] +
                if b.current != -1 && StatusOf(b, b.current) == AddressDevice && SomeWaiting(b)
                then [EnableSlotCommand] else []
    ensures e.CommandCompletion? && b.commands[0].OtherCommand? ==> Step(b, e).bus.commands == b.commands[1..]
  {
    hide Issue, RingOk, Completed;
    StepKeeps(b, e);
    if e.CommandCompletion? {
      ReadsRight(b, e.slot, e.device, e.beyond);
      if b.current != -1 && StatusOf(b, b.current) == AddressDevice && b.commands[0].AddressDeviceCommand? {
        NextIsWaiting(b, e.beyond);
      }
    }
  }

  /** The scan ends with a port exactly if one waits. */
  lemma NextIsWaiting(b: Bus, beyond: Status)
    requires Formed(b) && IsPort(b.current) && StatusOf(b, b.current) != WaitEnableSlot && beyond != WaitEnableSlot
    ensures var cells := b.status[b.current - 1 := GetDescriptor] + [beyond];
            |cells| == PORTS + 1 && (LastWaiting(cells, PORTS + 1) != -1 <==> SomeWaiting(b))
  {
    var cells := b.status[b.current - 1 := GetDescriptor] + [beyond];
    assert forall i :: 0 <= i < PORTS && i != b.current - 1 ==> cells[i] == b.status[i];
  }

  /** The port reports a status change while it is enabled. */
  predicate PluggedAt(e: Event, p: int)
  {
    e.PortStatusChange? && e.enabled && e.port == p
  }

  /** An Enable Slot command completes while port p is current and waits for this. */
  predicate SlotAt(b: Bus, e: Event, p: int)
    requires IsPort(p) && Formed(b)
  {
    && e.CommandCompletion? && b.commands != [] && b.commands[0] == EnableSlotCommand
    && b.current == p && StatusOf(b, p) == EnableSlot
  }

  /** An Address Device command completes while port p is current and waits for this. */
  predicate AddressAt(b: Bus, e: Event, p: int)
    requires IsPort(p) && Formed(b)
  {
    && e.CommandCompletion? && b.commands != [] && b.commands[0].AddressDeviceCommand?
    && b.current == p && StatusOf(b, p) == AddressDevice
  }

  /** A transfer for a slot of port p ends with Success or Short Packet, and the device has a
      configuration. */
  predicate DescriptorAt(b: Bus, e: Event, p: int)
  {
    && e.TransferDone? && e.slot in b.contexts && b.contexts[e.slot] == p
    && (e.code == 1 || e.code == 13) && e.configs > 0
  }

  /** What a step does to the status of one port. */
  lemma PortStep(b: Bus, e: Event, p: int)
    requires Inv(b) && Enabled(b, e) && Roomy(b, e) && Clean(b, e) && IsPort(p)
    ensures Formed(b) && Step(b, e).Running? && Formed(Step(b, e).bus)
    ensures var s, s' := StatusOf(b, p), StatusOf(Step(b, e).bus, p);
            && (PluggedAt(e, p) ==> s' in {WaitEnableSlot, EnableSlot})
            && (SlotAt(b, e, p) ==> s' == AddressDevice)
            && (AddressAt(b, e, p) ==> s' == GetDescriptor)
            && (DescriptorAt(b, e, p) && s == GetDescriptor ==> s' == EndOfInitialize)
            && (!PluggedAt(e, p) && !SlotAt(b, e, p) && !AddressAt(b, e, p)
                && !(DescriptorAt(b, e, p) && s == GetDescriptor)
                ==> s' == s || (s == WaitEnableSlot && s' == EnableSlot))
  {
    hide Issue, RingOk, Completed;
    StepKeeps(b, e);
    if e.CommandCompletion? {
      ReadsRight(b, e.slot, e.device, e.beyond);
    }
  }

  /** A step of a run as the results assume it. */
  ghost predicate StepOf(b: Bus, e: Event, b': Bus)
  {
    Formed(b) && Enabled(b, e) && Roomy(b, e) && Clean(b, e) && Step(b, e) == Running(b')
  }

  lemma StepOfStep(b: Bus, e: Event)
    requires Inv(b) && Enabled(b, e) && Roomy(b, e) && Clean(b, e)
    ensures Step(b, e).Running? && Inv(Step(b, e).bus) && StepOf(b, e, Step(b, e).bus)
  {
    hide Inv, Step, Enabled, Clean, Roomy;
    assert Formed(b) by { Sized(b); }
    StepKeeps(b, e);
  }

  /** The states bs of a run over the events es. */
  ghost predicate Trace(bs: seq<Bus>, es: seq<Event>)
  {
    && |bs| == |es| + 1
    && (forall i :: 0 <= i <= |es| ==> Inv(bs[i]) && Formed(bs[i]))
    && forall i :: 0 <= i < |es| ==> StepOf(bs[i], es[i], bs[i + 1])
  }

  ghost function States(b: Bus, es: seq<Event>): (bs: seq<Bus>)
    requires RunEnabled(b, es)
    ensures |bs| <= |es| + 1 && (Run(b, es).Running? ==> |bs| == |es| + 1)
    decreases |es|
  {
    [b] + if es != [] && Step(b, es[0]).Running? then States(Step(b, es[0]).bus, es[1..]) else []
  }

  lemma {:induction false} RunTrace(b: Bus, es: seq<Event>)
    requires Inv(b) && RunEnabled(b, es) && AllRoomy(b, es) && ScansClean(b, es)
    ensures Run(b, es).Running? && Trace(States(b, es), es)
    ensures States(b, es)[0] == b && States(b, es)[|es|] == Run(b, es).bus
    decreases |es|
  {
    hide Inv, Step, Enabled, Clean, StepOf, Roomy;
    RunKeeps(b, es);
    assert Formed(b) by { Sized(b); }
    if es != [] {
      StepOfStep(b, es[0]);
      var b1 := Step(b, es[0]).bus;
      RunTrace(b1, es[1..]);
      var bs := States(b, es);
      assert bs[1..] == States(b1, es[1..]);
      assert forall i :: 1 <= i <= |es| ==> bs[i] == States(b1, es[1..])[i - 1];
      assert forall i :: 1 <= i < |es| ==> es[i] == es[1..][i - 1];
    }
  }

  // the last events that decide the status of a port after n events

  predicate Quiet(es: seq<Event>, i: nat, n: nat, p: int)
    requires n <= |es|
  {
    forall k :: i <= k < n ==> !PluggedAt(es[k], p)
  }

  ghost predicate SlotBy(bs: seq<Bus>, es: seq<Event>, i: nat, n: nat, p: int)
    requires Trace(bs, es) && n <= |es| && IsPort(p)
  {
    && i < n && SlotAt(bs[i], es[i], p) && Quiet(es, i, n, p)
    && forall k :: i < k < n ==> !AddressAt(bs[k], es[k], p)
  }

  ghost predicate AddressedBy(bs: seq<Bus>, es: seq<Event>, i: nat, n: nat, p: int)
    requires Trace(bs, es) && n <= |es| && IsPort(p)
  {
    i < n && AddressAt(bs[i], es[i], p) && Quiet(es, i, n, p)
  }

  ghost predicate DescribedBy(bs: seq<Bus>, es: seq<Event>, i: nat, j: nat, n: nat, p: int)
    requires Trace(bs, es) && n <= |es| && IsPort(p)
  {
    AddressedBy(bs, es, i, n, p) && i < j < n && DescriptorAt(bs[j], es[j], p)
  }

  /** The status of port p after n events tells what has happened to it. */
  ghost predicate History(bs: seq<Bus>, es: seq<Event>, n: nat, p: int)
    requires Trace(bs, es) && n <= |es| && IsPort(p)
  {
    && (StatusOf(bs[n], p) == Reset <==> Quiet(es, 0, n, p))
    && (StatusOf(bs[n], p) == AddressDevice <==> exists i: nat :: SlotBy(bs, es, i, n, p))
    && (StatusOf(bs[n], p) in {GetDescriptor, EndOfInitialize} <==> exists i: nat :: AddressedBy(bs, es, i, n, p))
    && (StatusOf(bs[n], p) == EndOfInitialize <==> exists i: nat, j: nat :: DescribedBy(bs, es, i, j, n, p))
  }

  lemma {:induction false} HistoryHolds(bs: seq<Bus>, es: seq<Event>, n: nat, p: int)
    requires Trace(bs, es) && n <= |es| && IsPort(p) && bs[0] == Initial()
    ensures History(bs, es, n, p)
  {
    hide Inv, StepOf, History, SlotBy, AddressedBy, DescribedBy, Quiet;
    if n == 0 {
      NoHistory(bs, es, p);
    } else {
      HistoryHolds(bs, es, n - 1, p);
      HistoryStep(bs, es, n - 1, p);
    }
  }

  lemma NoHistory(bs: seq<Bus>, es: seq<Event>, p: int)
    requires Trace(bs, es) && IsPort(p) && bs[0] == Initial()
    ensures History(bs, es, 0, p)
  {
    hide Inv, StepOf;
    assert StatusOf(bs[0], p) == Reset;
  }

  lemma NoTwo(b: Bus, e: Event, p: int)
    requires Formed(b) && IsPort(p)
    ensures PluggedAt(e, p) ==> !SlotAt(b, e, p) && !AddressAt(b, e, p) && !DescriptorAt(b, e, p)
    ensures SlotAt(b, e, p) ==> StatusOf(b, p) == EnableSlot && !AddressAt(b, e, p) && !DescriptorAt(b, e, p)
    ensures AddressAt(b, e, p) ==> StatusOf(b, p) == AddressDevice && !DescriptorAt(b, e, p)
  {
  }

  lemma HistoryStep(bs: seq<Bus>, es: seq<Event>, m: nat, p: int)
    requires Trace(bs, es) && m < |es| && IsPort(p) && History(bs, es, m, p)
    ensures History(bs, es, m + 1, p)
  {
    hide Inv, Step, Enabled, Clean, Roomy, PluggedAt, SlotAt, AddressAt, DescriptorAt;
    var n := m + 1;
    assert StepOf(bs[m], es[m], bs[n]);
    PortStep(bs[m], es[m], p);
    NoTwo(bs[m], es[m], p);
    var s, s' := StatusOf(bs[m], p), StatusOf(bs[n], p);
    if s' == AddressDevice {
      if SlotAt(bs[m], es[m], p) {
        assert SlotBy(bs, es, m, n, p);
      } else {
        var i: nat :| SlotBy(bs, es, i, m, p);
        assert SlotBy(bs, es, i, n, p);
      }
    }
    if i: nat :| SlotBy(bs, es, i, n, p) {
      if i < m {
        assert SlotBy(bs, es, i, m, p);
      }
    }
    if s' in {GetDescriptor, EndOfInitialize} {
      if AddressAt(bs[m], es[m], p) {
        assert AddressedBy(bs, es, m, n, p);
      } else {
        var i: nat :| AddressedBy(bs, es, i, m, p);
        assert AddressedBy(bs, es, i, n, p);
      }
    }
    if i: nat :| AddressedBy(bs, es, i, n, p) {
      if i < m {
        assert AddressedBy(bs, es, i, m, p);
      }
    }
    if s' == EndOfInitialize {
      if s == GetDescriptor {
        var i: nat :| AddressedBy(bs, es, i, m, p);
        assert AddressedBy(bs, es, i, n, p);
        assert DescribedBy(bs, es, i, m, n, p);
      } else {
        var i: nat, j: nat :| DescribedBy(bs, es, i, j, m, p);
        assert AddressedBy(bs, es, i, n, p);
        assert DescribedBy(bs, es, i, j, n, p);
      }
    }
    if i: nat, j: nat :| DescribedBy(bs, es, i, j, n, p) {
      assert AddressedBy(bs, es, i, m, p);
      if j < m {
        assert DescribedBy(bs, es, i, j, m, p);
      }
    }
  }

  /** Over whole runs, for every port: its status is Reset as long as no status change came while it
      was enabled.  It is AddressDevice exactly if the port got its slot and nothing happened
      since.  Initialization has ended exactly if, after the port got its address and with no
      status change since, a transfer for a slot of the port ended with Success or Short Packet. */
  lemma PortHistory(es: seq<Event>, p: int)
    requires RunEnabled(Initial(), es) && AllRoomy(Initial(), es) && ScansClean(Initial(), es) && IsPort(p)
    ensures var bs := States(Initial(), es);
            && Trace(bs, es) && bs[0] == Initial() && Running(bs[|es|]) == Run(Initial(), es)
            && History(bs, es, |es|, p)
  {
    hide Inv, Step, Enabled, Clean, Roomy, RunEnabled, AllRoomy, ScansClean, StepOf, States, History;
    InitialOk();
    RunTrace(Initial(), es);
    HistoryHolds(States(Initial(), es), es, |es|, p);
  }

  // ---- a bound from the events alone ----------------------------------------------------------

  function Waiting(status: seq<Status>): nat
  {
    if status == [] then 0
    else Waiting(status[..|status| - 1]) + if status[|status| - 1] == WaitEnableSlot then 1 else 0
  }

  lemma {:induction false} WaitingUpdate(status: seq<Status>, i: nat, s: Status)
    requires i < |status|
    ensures Waiting(status[i := s]) + (if status[i] == WaitEnableSlot then 1 else 0)
         == Waiting(status) + if s == WaitEnableSlot then 1 else 0
    decreases |status|
  {
    var n := |status| - 1;
    if i == n {
      assert status[i := s][..n] == status[..n];
    } else {
      assert status[i := s][..n] == status[..n][i := s];
      WaitingUpdate(status[..n], i, s);
    }
  }

  /** Commands that may follow without any further event from outside: three for each waiting port,
      two for a port being enabled. */
  function Ahead(b: Bus): nat
    requires Formed(b)
  {
    3 * Waiting(b.status) + if IsPort(b.current) && StatusOf(b, b.current) == EnableSlot then 2 else 0
  }

  /** What an event from outside adds to the commands written and those that may follow. */
  function Adds(e: Event): nat
  {
    match e
    case CommandCompletion(_, _, _) => 0
    case PortStatusChange(_, enabled) => if enabled then 4 else 0
    case TransferDone(_, _, _, configured) => configured
  }

  lemma NextAhead(b: Bus, beyond: Status)
    requires Formed(b) && IsPort(b.current) && StatusOf(b, b.current) == AddressDevice && Addressed(b, beyond).Running?
    ensures var b' := Addressed(b, beyond).bus; Formed(b') && b'.written + Ahead(b') <= b.written + Ahead(b)
  {
    hide Issue, Waiting, LastWaiting;
    WaitingUpdate(b.status, b.current - 1, GetDescriptor);
    var status := b.status[b.current - 1 := GetDescriptor];
    var next := LastWaiting(status + [beyond], PORTS + 1);
    if next != -1 {
      assert (status + [beyond])[next - 1] == status[next - 1];
      WaitingUpdate(status, next - 1, EnableSlot);
    }
  }

  lemma StepAhead(b: Bus, e: Event)
    requires Inv(b) && Enabled(b, e) && Roomy(b, e) && Clean(b, e)
    ensures Step(b, e).Running? && Formed(Step(b, e).bus)
    ensures Step(b, e).bus.written + Ahead(Step(b, e).bus) <= b.written + Ahead(b) + Adds(e)
  {
    hide Issue, Waiting, RingOk, Completed, Addressed;
    StepKeeps(b, e);
    match e
    case CommandCompletion(slot, device, beyond) =>
      ReadsRight(b, slot, device, beyond);
      if ActedOn(b, e) {
        if b.commands[0] == EnableSlotCommand {
          EnablingKeeps(b, e);
          WaitingUpdate(b.status, b.current - 1, AddressDevice);
        } else {
          AddressingKeeps(b, e);
          NextAhead(Retired(b, slot), beyond);
        }
      }
    case PortStatusChange(port, enabled) =>
      WaitingUpdate(b.status, port - 1, if b.current == -1 then EnableSlot else WaitEnableSlot);
    case TransferDone(slot, _, _, _) =>
      WaitingUpdate(b.status, b.contexts[slot] - 1, EndOfInitialize);
  }

  /** Four for each status change of an enabled port, one for each configuration that is set. */
  function Load(es: seq<Event>): nat
    decreases |es|
  {
    if es == [] then 0 else Adds(es[0]) + Load(es[1..])
  }

  lemma {:induction false} LightRunRoomy(b: Bus, es: seq<Event>)
    requires Inv(b) && Formed(b) && RunEnabled(b, es) && b.written + Ahead(b) + Load(es) <= RING - 1
    ensures AllRoomy(b, es)
    decreases |es|
  {
    hide Inv, Step, Enabled, Ahead, Clean, Adds;
    if es != [] {
      var e := es[0];
      assert Roomy(b, e);
      StepKeeps(b, e);
      if Step(b, e).Running? {
        StepAhead(b, e);
        LightRunRoomy(Step(b, e).bus, es[1..]);
      }
    }
  }

  /** In a run with few events from outside the ring never gets crowded, however the completions
      fall: 63 status changes of enabled ports, for example, are few enough. */
  lemma FewEventsRoomy(es: seq<Event>)
    requires RunEnabled(Initial(), es) && Load(es) <= RING - 1
    ensures AllRoomy(Initial(), es)
  {
    InitialOk();
    NoneWaiting(PORTS);
    LightRunRoomy(Initial(), es);
  }

  lemma {:induction false} NoneWaiting(n: nat)
    ensures Waiting(seq(n, _ => Reset)) == 0
  {
    if n > 0 {
      assert seq(n, _ => Reset)[..n - 1] == seq(n - 1, _ => Reset);
      NoneWaiting(n - 1);
    }
  }

  // ---- examples -----------------------------------------------------------------------------

  lemma RunStep(b: Bus, e: Event, es: seq<Event>)
    requires Formed(b) && Enabled(b, e) && (Step(b, e).Running? ==> RunEnabled(Step(b, e).bus, es))
    ensures RunEnabled(b, [e] + es)
    ensures Run(b, [e] + es) == if Step(b, e).Running? then Run(Step(b, e).bus, es) else Wild
    ensures SomeHit(b, [e] + es) <==> Hits(b, e) || (Step(b, e).Running? && SomeHit(Step(b, e).bus, es))
    ensures ScansClean(b, [e] + es) <==> Clean(b, e) && (Step(b, e).Running? ==> ScansClean(Step(b, e).bus, es))
    ensures AllRoomy(b, [e] + es) <==> Roomy(b, e) && (Step(b, e).Running? ==> AllRoomy(Step(b, e).bus, es))
  {
    hide Step, Enabled, Hits, Clean, Roomy;
    assert ([e] + es)[0] == e && ([e] + es)[1..] == es;
  }

  /** The state after port 1 was enabled and k status changes of port 2. */
  function Crowd(k: nat): Bus
    requires k < RING
  {
    var status := seq(PORTS, i => if i == 0 then EnableSlot else if i == 1 && k > 0 then WaitEnableSlot else Reset);
    Bus(1, status, map[], {}, seq(k + 1, _ => EnableSlotCommand), {},
        seq(RING, i => if i <= k then Some(EnableSlotCommand) else None), k + 1)
  }

  const PLUG1: Event := PortStatusChange(1, true)
  const PLUG2: Event := PortStatusChange(2, true)

  /** A completion for a device that is not a full-speed one, with a clean scan. */
  function Completion(slot: nat): Event
  {
    CommandCompletion(slot, OtherSpeed, Reset)
  }

  lemma FirstPlug()
    ensures Formed(Initial()) && Enabled(Initial(), PLUG1) && Step(Initial(), PLUG1) == Running(Crowd(0))
  {
    IssueOne(Initial(), EnableSlotCommand);
    var b := Step(Initial(), PLUG1).bus;
    assert b.status == Crowd(0).status && b.commands == Crowd(0).commands && b.ring == Crowd(0).ring;
  }

  lemma NextPlug(k: nat)
    requires k + 1 < RING
    ensures Step(Crowd(k), PLUG2) == Running(Crowd(k + 1))
  {
    IssueOne(Crowd(k), EnableSlotCommand);
    var b, c := Step(Crowd(k), PLUG2).bus, Crowd(k + 1);
    assert b.commands == c.commands;
    assert b.status == c.status;
    assert b.ring == c.ring;
  }

  function Plugs(n: nat): seq<Event>
  {
    if n == 0 then [] else [PLUG2] + Plugs(n - 1)
  }

  /** A run that goes on after more status changes of port 2. */
  lemma {:induction false} PlugOn(k: nat, n: nat, es: seq<Event>)
    requires k + n < RING && RunEnabled(Crowd(k + n), es) && ScansClean(Crowd(k + n), es)
    ensures RunEnabled(Crowd(k), Plugs(n) + es) && ScansClean(Crowd(k), Plugs(n) + es)
    ensures Run(Crowd(k), Plugs(n) + es) == Run(Crowd(k + n), es)
    decreases n
  {
    hide Step, Crowd, Enabled;
    if n == 0 {
      assert Plugs(0) + es == es;
    } else {
      NextPlug(k);
      PlugOn(k + 1, n - 1, es);
      assert Enabled(Crowd(k), PLUG2) && Formed(Crowd(k)) by { CrowdFormed(k); }
      assert Plugs(n) + es == [PLUG2] + (Plugs(n - 1) + es);
      RunStep(Crowd(k), PLUG2, Plugs(n - 1) + es);
    }
  }

  lemma CrowdFormed(k: nat)
    requires k < RING
    ensures Formed(Crowd(k)) && Enabled(Crowd(k), PLUG2)
  {
  }

  /** With 255 commands not completed the first completion writes an Address Device command into the
      slot it was read from, and is then taken for the completion of that command too. */
  lemma CrowdTwice(b: Bus)
    requires b == Crowd(RING - 1)
    ensures Formed(b) && Enabled(b, Completion(1)) && Step(b, Completion(1)).Running?
    ensures var c := Step(b, Completion(1)).bus;
            && Formed(c) && c.current == 2 && c.status == b.status[0 := GetDescriptor][1 := EnableSlot]
            && c.contexts == map[1 := 1] && c.rings == {1} && c.slots == {1} && c.written == 257
            && c.commands == b.commands[1..] + [AddressDeviceCommand(1)] + [EnableSlotCommand]
            && c.ring == b.ring[0 := Some(AddressDeviceCommand(1))]
  {
    hide LastWaiting, Issue;
    assert Oldest(b) == 0;
    var b0 := Retired(b, 1);
    var b1 := EnabledSlot(b0, 1, OtherSpeed);
    IssueOne(b0.(contexts := b0.contexts[1 := 1], rings := b0.rings + {1}), AddressDeviceCommand(1));
    assert [AddressDeviceCommand(1)] + [] == [AddressDeviceCommand(1)];
    assert b1.ring[0] == Some(AddressDeviceCommand(1));
    var status := b1.status[0 := GetDescriptor];
    var cells := status + [Reset];
    assert cells[1] == WaitEnableSlot && forall i :: 0 <= i < PORTS + 1 && i != 1 ==> cells[i] != WaitEnableSlot;
    assert LastWaiting(cells, PORTS + 1) == 2;
    IssueOne(b1.(status := status[1 := EnableSlot], current := 2), EnableSlotCommand);
    var c := Step(b, Completion(1)).bus;
    assert c.ring == b.ring[0 := Some(AddressDeviceCommand(1))][1 := Some(EnableSlotCommand)];
    assert b.ring[1] == Some(EnableSlotCommand);
  }

  /** The second completion goes as meant; the third finds the Address Device command of the second. */
  lemma CrowdMisread(b: Bus)
    requires Formed(b) && b.current == 2 && b.written == 257 && |b.commands| == 256
    requires b.commands[0] == b.commands[1] == b.commands[2] == EnableSlotCommand
    requires b.slots == {1} && b.contexts == map[1 := 1]
    requires b.ring[1] == b.ring[3] == Some(EnableSlotCommand) && StatusOf(b, 2) == EnableSlot
    requires forall i :: 0 <= i < PORTS ==> b.status[i] != WaitEnableSlot
    ensures Enabled(b, Completion(2)) && Step(b, Completion(2)).Running? && Formed(Step(b, Completion(2)).bus)
    ensures var c := Step(b, Completion(2)).bus;
            && Enabled(c, Completion(3)) && Step(c, Completion(3)).Running? && Formed(Step(c, Completion(3)).bus)
            && Clean(c, Completion(3))
            && Enabled(Step(c, Completion(3)).bus, Completion(4))
            && Step(Step(c, Completion(3)).bus, Completion(4)) == Wild
  {
    hide LastWaiting, Issue;
    assert Oldest(b) == 1;
    var b0 := Retired(b, 2);
    IssueOne(b0.(contexts := b0.contexts[2 := 2], rings := b0.rings + {2}), AddressDeviceCommand(2));
    assert [AddressDeviceCommand(2)] + [] == [AddressDeviceCommand(2)];
    var c := Step(b, Completion(2)).bus;
    assert c.ring == b.ring[2 := Some(AddressDeviceCommand(2))] && c.commands[0] == EnableSlotCommand;
    assert Oldest(c) == 2;
    var cells := c.status[1 := GetDescriptor] + [Reset];
    assert forall i :: 0 <= i < PORTS + 1 ==> cells[i] != WaitEnableSlot;
    var d := Step(c, Completion(3)).bus;
    assert d.current == -1 && d.commands[0] == EnableSlotCommand;
    assert Oldest(d) == 3;
  }

  /** The bound is tight: with 255 commands not completed a run with clean scans ends in a lookup at
      `device_status[-2]`. */
  lemma CrowdedExample()
    ensures var es := [PLUG1] + (Plugs(RING - 1) + [Completion(1), Completion(2), Completion(3), Completion(4)]);
            RunEnabled(Initial(), es) && ScansClean(Initial(), es) && Run(Initial(), es) == Wild
  {
    hide Step, Crowd, Enabled;
    var b := Crowd(RING - 1);
    CrowdTwice(b);
    var c := Step(b, Completion(1)).bus;
    CrowdAfter(b, c);
    CrowdMisread(c);
    var d := Step(c, Completion(2)).bus;
    var e := Step(d, Completion(3)).bus;
    RunStep(e, Completion(4), []);
    RunStep(d, Completion(3), [Completion(4)] + []);
    RunStep(c, Completion(2), [Completion(3)] + ([Completion(4)] + []));
    RunStep(b, Completion(1), [Completion(2)] + ([Completion(3)] + ([Completion(4)] + [])));
    var tail := [Completion(1), Completion(2), Completion(3), Completion(4)];
    assert tail == [Completion(1)] + ([Completion(2)] + ([Completion(3)] + ([Completion(4)] + [])));
    PlugOn(0, RING - 1, tail);
    FirstPlug();
    InitialOk();
    RunStep(Initial(), PLUG1, Plugs(RING - 1) + tail);
  }

  lemma CrowdAfter(b: Bus, c: Bus)
    requires b == Crowd(RING - 1) && Formed(c) && c.status == b.status[0 := GetDescriptor][1 := EnableSlot]
    requires c.ring == b.ring[0 := Some(AddressDeviceCommand(1))]
    requires c.commands == b.commands[1..] + [AddressDeviceCommand(1)] + [EnableSlotCommand]
    ensures |c.commands| == 256 && c.commands[0] == c.commands[1] == c.commands[2] == EnableSlotCommand
    ensures c.ring[1] == c.ring[3] == Some(EnableSlotCommand) && StatusOf(c, 2) == EnableSlot
    ensures forall i :: 0 <= i < PORTS ==> c.status[i] != WaitEnableSlot
  {
  }

  /** The stall is possible: port 1 reports a second status change before it has its address. */
  lemma StallExample()
    ensures var es := [PLUG1] + ([PLUG1] + ([Completion(1)] + ([Completion(2)] + [])));
            && RunEnabled(Initial(), es) && AllRoomy(Initial(), es) && SomeHit(Initial(), es)
            && Run(Initial(), es).Running? && Run(Initial(), es).bus.commands == []
            && Run(Initial(), es).bus.current == 1
  {
    hide Issue, RingOk;
    InitialOk();
    FirstPlug();
    var b1 := Crowd(0);
    StepKeeps(Initial(), PLUG1);
    StepKeeps(b1, PLUG1);
    var b2 := Step(b1, PLUG1).bus;
    ReadsRight(b2, 1, OtherSpeed, Reset);
    StepKeeps(b2, Completion(1));
    var b3 := Step(b2, Completion(1)).bus;
    ReadsRight(b3, 2, OtherSpeed, Reset);
    StepKeeps(b3, Completion(2));
    RunStep(b3, Completion(2), []);
    RunStep(b2, Completion(1), [Completion(2)] + []);
    RunStep(b1, PLUG1, [Completion(1)] + ([Completion(2)] + []));
    RunStep(Initial(), PLUG1, [PLUG1] + ([Completion(1)] + ([Completion(2)] + [])));
  }

  /** So is the store outside the array: the first port gets its address while the entry beyond the
      array reads as waiting. */
  lemma BeyondExample()
    ensures var last := CommandCompletion(1, OtherSpeed, WaitEnableSlot);
            var es := [PLUG1] + ([Completion(1)] + ([last] + []));
            && RunEnabled(Initial(), es) && AllRoomy(Initial(), es) && !ScansClean(Initial(), es)
            && Run(Initial(), es) == Wild
  {
    hide Issue, RingOk;
    var last := CommandCompletion(1, OtherSpeed, WaitEnableSlot);
    InitialOk();
    FirstPlug();
    var b1 := Crowd(0);
    StepKeeps(Initial(), PLUG1);
    ReadsRight(b1, 1, OtherSpeed, Reset);
    StepKeeps(b1, Completion(1));
    var b2 := Step(b1, Completion(1)).bus;
    EnablingKeeps(b1, Completion(1));
    assert b2.commands == [AddressDeviceCommand(1)];
    StepKeeps(b2, last);
    RunStep(b2, last, []);
    RunStep(b1, Completion(1), [last] + []);
    RunStep(Initial(), PLUG1, [Completion(1)] + ([last] + []));
  }
}
