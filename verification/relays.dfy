/**
 `RelayPorts`: a list of output pin numbers, a current port index, and
 active-low writes to the pins. The pins' electrical levels are part of the
 modelled state (`pins`, pin number to level); `pinMode` is not modelled.
 */
module Relays {
  import opened Common

  datatype Level = Low | High

  /** The level that switches a relay `state` on (true) or off: active-low. */
  function Drive(state: bool): (l: Level)
    ensures l == Low <==> state
    ensures l == High <==> !state
  {
    if state then Low else High
  }

  datatype RelayPorts = RelayPorts(ports: seq<int>, currentPortNumber: int, pins: map<int, Level>)

  /** The state an operation leaves behind, and what it returned. */
  datatype Outcome<T> = Outcome(relays: RelayPorts, ret: T)

  /** Reference definition of the constructor's result: the listed pins driven
      HIGH (off), every other pin as it was, current port -1. */
  function Initial(outputPorts: seq<int>, pins0: map<int, Level>): RelayPorts
  {
    var listed := set i | 0 <= i < |outputPorts| :: outputPorts[i];
    RelayPorts(outputPorts, -1, map p | p in pins0.Keys + listed :: if p in listed then High else pins0[p])
  }

  /** Proof step only: the pins the constructor's loop leaves are those of `Initial`. */
  lemma LoopLeavesInitial(outputPorts: seq<int>, pins0: map<int, Level>, pins: map<int, Level>)
    requires pins.Keys == pins0.Keys + set j | 0 <= j < |outputPorts| :: outputPorts[j]
    requires forall j | 0 <= j < |outputPorts| :: pins[outputPorts[j]] == High
    requires forall p | p in pins0 && p !in outputPorts :: pins[p] == pins0[p]
    ensures RelayPorts(outputPorts, -1, pins) == Initial(outputPorts, pins0)
  {
    var listed := set i | 0 <= i < |outputPorts| :: outputPorts[i];
    forall p | p in pins.Keys
      ensures pins[p] == if p in listed then High else pins0[p]
    {
      if p !in listed {
        assert p !in outputPorts;
      }
    }
  }

  /** The constructor: a loop writing HIGH to each listed pin in turn. */
  method Construct(outputPorts: seq<int>, pins0: map<int, Level>) returns (r: RelayPorts)
    ensures r == Initial(outputPorts, pins0)
    ensures r.ports == outputPorts && r.currentPortNumber == -1
    ensures forall i | 0 <= i < |outputPorts| :: outputPorts[i] in r.pins && r.pins[outputPorts[i]] == High
    ensures forall p | p in pins0 && p !in outputPorts :: p in r.pins && r.pins[p] == pins0[p]
  {
    var pins := pins0;
    for i := 0 to |outputPorts|
      invariant pins.Keys == pins0.Keys + set j | 0 <= j < i :: outputPorts[j]
      invariant forall j | 0 <= j < i :: pins[outputPorts[j]] == High
      invariant forall p | p in pins0 && p !in outputPorts[..i] :: pins[p] == pins0[p]
    {
      pins := pins[outputPorts[i] := High];
    }
    assert outputPorts[..|outputPorts|] == outputPorts;
    LoopLeavesInitial(outputPorts, pins0, pins);
    r := RelayPorts(outputPorts, -1, pins);
  }

  /** The default constructor: no ports at all. */
  function DefaultRelayPorts(pins0: map<int, Level>): (r: RelayPorts)
    ensures r.ports == [] && r.currentPortNumber == -1 && r.pins == pins0
  {
    var none: seq<int> := [];
    assert (set i | 0 <= i < |none| :: none[i]) == {};
    Initial(none, pins0)
  }

  /** `isValidPort`: an index into the port list. */
  function IsValidPort(r: RelayPorts, port: int): (b: bool)
    ensures b <==> 0 <= port < |r.ports|
  {
    if port < 0 || port >= |r.ports| then false else true
  }

  /** `setCurrentPort`: the given index when valid, otherwise 0; returns the new current port. */
  function SetCurrentPort(r: RelayPorts, port: int): (o: Outcome<int>)
    ensures o.ret == o.relays.currentPortNumber
    ensures 0 <= port < |r.ports| ==> o.ret == port
    ensures !(0 <= port < |r.ports|) ==> o.ret == 0
    ensures o.relays.ports == r.ports && o.relays.pins == r.pins
  {
    var n := if IsValidPort(r, port) then port else 0;
    Outcome(r.(currentPortNumber := n), n)
  }

  /** `togglePort(port, state)`: -1 for an invalid index, with no pin written;
      otherwise that port's pin is driven active-low and nothing is returned. */
  function TogglePort(r: RelayPorts, port: int, state: bool): (o: Outcome<Ret<int>>)
    ensures !(0 <= port < |r.ports|) ==> o.relays == r && o.ret == Returned(-1)
    ensures 0 <= port < |r.ports| ==>
      && o.ret == FellOffEnd
      && o.relays.ports == r.ports && o.relays.currentPortNumber == r.currentPortNumber
      && r.ports[port] in o.relays.pins && o.relays.pins[r.ports[port]] == (if state then Low else High)
      && o.relays.pins.Keys == r.pins.Keys + {r.ports[port]}
      && forall p | p in r.pins && p != r.ports[port] :: o.relays.pins[p] == r.pins[p]
  {
    if !IsValidPort(r, port) then
      Outcome(r, Returned(-1))
    else
      Outcome(r.(pins := r.pins[r.ports[port] := Drive(state)]), FellOffEnd)
  }

  /** `togglePort(state)`: toggles the current port; -1 exactly when the current
      port is not a valid index. */
  function ToggleCurrentPort(r: RelayPorts, state: bool): (o: Outcome<Ret<int>>)
    ensures o.ret == Returned(-1) <==> !(0 <= r.currentPortNumber < |r.ports|)
    ensures o.ret == Returned(-1) ==> o.relays == r
    ensures o.ret != Returned(-1) ==>
      && o.ret == FellOffEnd
      && o.relays.ports == r.ports && o.relays.currentPortNumber == r.currentPortNumber
      && r.ports[r.currentPortNumber] in o.relays.pins
      && o.relays.pins[r.ports[r.currentPortNumber]] == (if state then Low else High)
      && o.relays.pins.Keys == r.pins.Keys + {r.ports[r.currentPortNumber]}
      && forall p | p in r.pins && p != r.ports[r.currentPortNumber] :: o.relays.pins[p] == r.pins[p]
  {
    TogglePort(r, r.currentPortNumber, state)
  }

  /** Right after construction the current port is -1, so `togglePort(state)`
      fails with -1 and writes nothing. */
  lemma ToggleAfterConstruction(outputPorts: seq<int>, pins0: map<int, Level>, state: bool)
    ensures var r := Initial(outputPorts, pins0);
      r.currentPortNumber == -1 && ToggleCurrentPort(r, state) == Outcome(r, Returned(-1))
  {
  }

  /** A default-constructed object has no valid port, and every toggle fails. */
  lemma DefaultHasNoPorts(pins0: map<int, Level>, port: int, state: bool)
    ensures var r := DefaultRelayPorts(pins0);
      && r.pins == pins0
      && !IsValidPort(r, port)
      && TogglePort(r, port, state).ret == Returned(-1)
      && ToggleCurrentPort(SetCurrentPort(r, port).relays, state).ret == Returned(-1)
  {
  }

  /** With no ports, `setCurrentPort` still answers 0, an index that is not valid. */
  lemma SetCurrentPortWithoutPorts(r: RelayPorts, port: int)
    requires |r.ports| == 0
    ensures SetCurrentPort(r, port).ret == 0 && !IsValidPort(SetCurrentPort(r, port).relays, 0)
  {
  }

  /** After `setCurrentPort` on a non-empty list, `togglePort(state)` drives the
      chosen port's pin (the given one if valid, port 0 otherwise). */
  lemma ToggleAfterSetCurrent(r: RelayPorts, port: int, state: bool)
    requires |r.ports| > 0
    ensures var s := SetCurrentPort(r, port).relays;
      && var o := ToggleCurrentPort(s, state);
      && var target := if 0 <= port < |r.ports| then port else 0;
      && o.ret == FellOffEnd
      && o.relays.pins[r.ports[target]] == Drive(state)
  {
  }

  /** Switching a port on and then off leaves its pin HIGH and every other pin as it was. */
  lemma OnThenOff(r: RelayPorts, port: int)
    requires 0 <= port < |r.ports|
    ensures var o := TogglePort(TogglePort(r, port, true).relays, port, false).relays;
      && o.pins[r.ports[port]] == High
      && forall p | p in r.pins && p != r.ports[port] :: o.pins[p] == r.pins[p]
  {
  }
}
