// automatic, resolve_legacy and reconcile as the source runs them, over slots changed in place.

module ControllerAssignment {
  import opened PortAssignment

  method IsPresent(connected: seq<string>, key: string) returns (present: bool)
    ensures present <==> key in connected
  {
    for i := 0 to |connected|
      invariant key !in connected[..i]
    {
      if connected[i] == key {
        return true;
      }
    }
    return false;
  }

  ghost predicate Marks(used: array<bool>, devices: seq<Device>, taken: set<nat>)
    reads used
  {
    used.Length == |devices| && forall i: nat | i < |devices| :: used[i] <==> i in taken
  }

  method FindMatch(legacy: LegacyDevice, devices: seq<Device>, used: array<bool>,
                   ghost taken: set<nat>) returns (i: nat)
    requires Marks(used, devices, taken)
    ensures i == FirstMatch(legacy, devices, taken, 0)
  {
    i := 0;
    while i < |devices|
      invariant i <= |devices| && FirstMatch(legacy, devices, taken, 0) == FirstMatch(legacy, devices, taken, i)
    {
      if !used[i] && Matches(devices[i], legacy) {
        break;
      }
      i := i + 1;
    }
  }

  /** Takes a controller away from a port if a legacy port claimed it. */
  method YieldPort(preferred: array<Slot>, port: nat, devices: seq<Device>, used: array<bool>, ghost taken: set<nat>)
    requires Marks(used, devices, taken) && port < preferred.Length
    modifies preferred
    ensures var before := old(preferred[..]);
            preferred[..] == if UsedKey(devices, taken, before[port].controller)
                             then before[port := Vacate(before[port])] else before
  {
    ghost var before := preferred[..];
    for i := 0 to |devices|
      invariant Marks(used, devices, taken)
      invariant preferred[..] == if exists k :: 0 <= k < i && k in taken && devices[k].key == before[port].controller
                                 then before[port := Vacate(before[port])] else before
    {
      if used[i] && preferred[port].controller == devices[i].key {
        preferred[port] := Vacate(preferred[port]);
      }
    }
  }

  /** The reservation pass: legacy ports claim devices in port order. */
  method ClaimPass(preferred: array<Slot>, legacy: seq<LegacyDevice>, devices: seq<Device>)
    returns (used: array<bool>, ghost taken: set<nat>)
    requires preferred.Length == |legacy|
    modifies preferred
    ensures fresh(used) && Marks(used, devices, taken)
    ensures (preferred[..], taken) == Claim(old(preferred[..]), legacy, devices, |legacy|)
  {
    ghost var before := preferred[..];
    used := new bool[|devices|](_ => false);
    taken := {};
    hide FirstMatch;
    for port := 0 to preferred.Length
      invariant fresh(used) && Marks(used, devices, taken)
      invariant (preferred[..], taken) == Claim(before, legacy, devices, port)
    {
      if legacy[port].guid == "" {
        continue;
      }
      ghost var p := preferred[..];
      preferred[port] := Vacate(preferred[port]);
      assert preferred[..] == p[port := Vacate(p[port])];
      var i := FindMatch(legacy[port], devices, used, taken);
      if i < |devices| {
        preferred[port] := preferred[port].(controller := devices[i].key);
        assert preferred[..] == p[port := p[port].(controller := devices[i].key)];
        used[i] := true;
        taken := taken + {i};
      }
    }
  }

  /** Re-evaluates the reservations: legacy ports claim devices, then the other ports give way. */
  method ResolveLegacySlots(preferred: array<Slot>, legacy: seq<LegacyDevice>, devices: seq<Device>)
    requires preferred.Length == |legacy|
    modifies preferred
    ensures preferred[..] == ResolveLegacy(old(preferred[..]), legacy, devices)
  {
    ghost var before := preferred[..];
    var used, taken := ClaimPass(preferred, legacy, devices);
    ghost var p := preferred[..];
    hide UsedKey;
    for port := 0 to preferred.Length
      invariant Marks(used, devices, taken)
      invariant forall k | 0 <= k < preferred.Length ::
                  preferred[k] == if k < port && legacy[k].guid == "" && UsedKey(devices, taken, p[k].controller)
                                  then Vacate(p[k]) else p[k]
    {
      if legacy[port].guid != "" {
        continue;
      }
      ghost var now := preferred[..];
      YieldPort(preferred, port, devices, used, taken);
      assert forall k | 0 <= k < preferred.Length && k != port :: preferred[..][k] == now[k];
    }
  }

  method SeatOne(preferred: array<Slot>, result: array<Slot>, device: string)
    requires preferred.Length == result.Length && preferred != result
    modifies preferred, result
    ensures (preferred[..], result[..]) == Seat(old(preferred[..]), old(result[..]), device)
  {
    ghost var p, r := preferred[..], result[..];
    var seated := false;
    for i := 0 to result.Length
      invariant seated <==> exists k :: 0 <= k < i && r[k].controller == device
    {
      seated := seated || result[i].controller == device;
    }
    if seated {
      return;
    }
    var i := 0;
    while i < result.Length
      invariant i <= result.Length && FirstSeat(p, r, 0) == FirstSeat(p, r, i)
    {
      if !(preferred[i].reserved || result[i].controller != "" || (result[i].keyboard && !preferred[i].shareKeyboard)) {
        result[i] := result[i].(controller := device);
        preferred[i] := preferred[i].(controller := device);
        return;
      }
      i := i + 1;
    }
  }

  /** Keeps connected pads at their ports, forgets the absent unless reserved, and seats newcomers in order. */
  method ReconcileSlots(preferred: array<Slot>, connected: seq<string>) returns (result: array<Slot>)
    modifies preferred
    ensures fresh(result) && result.Length == preferred.Length
    ensures (preferred[..], result[..]) == Reconcile(old(preferred[..]), connected)
  {
    ghost var before := preferred[..];
    result := new Slot[preferred.Length](i requires 0 <= i < preferred.Length reads preferred => preferred[i]);
    for i := 0 to preferred.Length
      invariant fresh(result) && result.Length == preferred.Length
      invariant forall k | 0 <= k < preferred.Length ::
                  && preferred[k] == (if k < i then Forget(before, connected) else before)[k]
                  && result[k] == (if k < i then Visible(before, connected) else before)[k]
    {
      var present := IsPresent(connected, preferred[i].controller);
      if preferred[i].controller != "" && !present {
        result[i] := Vacate(result[i]);
        if !preferred[i].reserved {
          preferred[i] := Vacate(preferred[i]);
        }
      }
    }
    ghost var p, r := Forget(before, connected), Visible(before, connected);
    assert preferred[..] == p && result[..] == r;
    assert connected[..0] == [];
    for n := 0 to |connected|
      invariant fresh(result) && result.Length == preferred.Length
      invariant (preferred[..], result[..]) == SeatAll(p, r, connected[..n])
    {
      assert connected[..n + 1][..n] == connected[..n];
      SeatOne(preferred, result, connected[n]);
    }
    assert connected[..|connected|] == connected;
  }

  method AutomaticSlots(connected: seq<string>, separateKeyboard: bool) returns (slots: array<Slot>)
    ensures fresh(slots) && slots[..] == Automatic(connected, separateKeyboard)
  {
    slots := new Slot[PORTS](_ => Slot("", false, false, false));
    var port := 0;
    while port < PORTS && port < |connected|
      invariant port <= PORTS && port <= |connected| && fresh(slots) && slots.Length == PORTS
      invariant forall k | 0 <= k < PORTS ::
                  slots[k] == Slot(if k < port then connected[k] else "", false, false, false)
    {
      slots[port] := slots[port].(controller := connected[port]);
      port := port + 1;
    }
    if connected == [] {
      slots[0] := slots[0].(keyboard := true);
      slots[0] := slots[0].(shareKeyboard := !separateKeyboard);
    }
  }
}
