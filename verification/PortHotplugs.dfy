// When a connected controller keeps its port through a hotplug: resolve_legacy runs first, and may move it.

module PortHotplugs {
  import opened PortAssignment

  // ----- claims -----

  /** The devices the first n ports claim, whatever sits there. */
  function Taken(legacy: seq<LegacyDevice>, devices: seq<Device>, n: nat): set<nat>
    requires n <= |legacy|
    decreases n, 0
  {
    if n == 0 then {} else
    var before, i := Taken(legacy, devices, n - 1), ClaimOf(legacy, devices, n - 1);
    if i < 0 then before else before + {i}
  }

  /** The device a port claims, or -1. */
  function ClaimOf(legacy: seq<LegacyDevice>, devices: seq<Device>, port: nat): (i: int)
    requires port < |legacy|
    ensures -1 <= i < |devices| && (i >= 0 ==> legacy[port].guid != "" && Matches(devices[i], legacy[port]))
    decreases port, 1
  {
    if legacy[port].guid == "" then -1 else
    var i := FirstMatch(legacy[port], devices, Taken(legacy, devices, port), 0);
    if i == |devices| then -1 else i
  }

  predicate ClaimsKey(legacy: seq<LegacyDevice>, devices: seq<Device>, port: nat, key: string)
    requires port < |legacy|
  {
    var i := ClaimOf(legacy, devices, port);
    i >= 0 && devices[i].key == key
  }

  predicate KeyClaimed(legacy: seq<LegacyDevice>, devices: seq<Device>, key: string) {
    exists port: nat :: port < |legacy| && ClaimsKey(legacy, devices, port, key)
  }

  ghost predicate ClaimedBelow(legacy: seq<LegacyDevice>, devices: seq<Device>, n: nat, i: nat)
    requires n <= |legacy|
  {
    exists port: nat :: port < n && ClaimOf(legacy, devices, port) == i
  }

  lemma {:induction false} TakenAreClaims(legacy: seq<LegacyDevice>, devices: seq<Device>, n: nat, i: nat)
    requires n <= |legacy|
    ensures i in Taken(legacy, devices, n) <==> ClaimedBelow(legacy, devices, n, i)
  {
    if n > 0 {
      var last := ClaimOf(legacy, devices, n - 1);
      TakenAreClaims(legacy, devices, n - 1, i);
      assert i in Taken(legacy, devices, n) <==> i in Taken(legacy, devices, n - 1) || last == i;
      hide ClaimOf, Taken;
      OneMorePort(legacy, devices, n, i);
    }
  }

  lemma OneMorePort(legacy: seq<LegacyDevice>, devices: seq<Device>, n: nat, i: nat)
    requires 0 < n <= |legacy|
    ensures ClaimedBelow(legacy, devices, n, i) <==>
            ClaimedBelow(legacy, devices, n - 1, i) || ClaimOf(legacy, devices, n - 1) == i
  {
    hide ClaimOf;
    if port: nat :| port < n && ClaimOf(legacy, devices, port) == i {
      if port < n - 1 {
        assert ClaimedBelow(legacy, devices, n - 1, i);
      }
    }
  }

  /** What a port's controller is after the reservation pass. */
  function ClaimedController(before: Slot, legacy: seq<LegacyDevice>, devices: seq<Device>, port: nat): string
    requires port < |legacy|
  {
    if legacy[port].guid == "" then before.controller
    else if ClaimOf(legacy, devices, port) < 0 then "" else devices[ClaimOf(legacy, devices, port)].key
  }

  /** The pass claims what `ClaimOf` says, from any slots. */
  lemma {:induction false} PassClaims(preferred: seq<Slot>, legacy: seq<LegacyDevice>, devices: seq<Device>, n: nat,
                                      port: nat)
    requires |legacy| == |preferred| && n <= |preferred| && port < |preferred|
    ensures Claim(preferred, legacy, devices, n).1 == Taken(legacy, devices, n)
    ensures Claim(preferred, legacy, devices, n).0[port].controller ==
            if port < n then ClaimedController(preferred[port], legacy, devices, port) else preferred[port].controller
  {
    if n > 0 {
      PassClaims(preferred, legacy, devices, n - 1, port);
    }
  }

  lemma ResolvedController(preferred: seq<Slot>, legacy: seq<LegacyDevice>, devices: seq<Device>, port: nat)
    requires |legacy| == |preferred| && port < |preferred|
    ensures ResolveLegacy(preferred, legacy, devices)[port].controller ==
            if legacy[port].guid == "" && KeyClaimed(legacy, devices, preferred[port].controller) then ""
            else ClaimedController(preferred[port], legacy, devices, port)
  {
    var (p, used) := Claim(preferred, legacy, devices, |preferred|);
    var key := preferred[port].controller;
    PassClaims(preferred, legacy, devices, |preferred|, port);
    UsedIsClaimed(legacy, devices, key);
    hide Claim, Taken, ClaimOf, UsedKey, KeyClaimed;
    assert ResolveLegacy(preferred, legacy, devices)[port] ==
           if legacy[port].guid == "" && UsedKey(devices, used, p[port].controller) then Vacate(p[port]) else p[port];
  }

  lemma UsedIsClaimed(legacy: seq<LegacyDevice>, devices: seq<Device>, key: string)
    ensures UsedKey(devices, Taken(legacy, devices, |legacy|), key) <==> KeyClaimed(legacy, devices, key)
  {
    var used := Taken(legacy, devices, |legacy|);
    hide Taken, ClaimOf;
    if i: nat :| i < |devices| && i in used && devices[i].key == key {
      TakenAreClaims(legacy, devices, |legacy|, i);
      var port: nat :| port < |legacy| && ClaimOf(legacy, devices, port) == i;
      assert ClaimsKey(legacy, devices, port, key);
    }
    if port: nat :| port < |legacy| && ClaimsKey(legacy, devices, port, key) {
      var i: nat := ClaimOf(legacy, devices, port);
      assert ClaimedBelow(legacy, devices, |legacy|, i);
      TakenAreClaims(legacy, devices, |legacy|, i);
      assert i in used && devices[i].key == key;
    }
  }

  // ----- one hotplug -----

  ghost predicate DevicesOk(devices: seq<Device>) {
    DistinctKeys(devices) && forall i | 0 <= i < |devices| :: devices[i].key != ""
  }

  /** The port's own legacy entry claims the controller, or the port has none and no other port claims it. */
  predicate StaysPut(legacy: seq<LegacyDevice>, devices: seq<Device>, port: nat, key: string)
    requires port < |legacy|
  {
    if legacy[port].guid == "" then !KeyClaimed(legacy, devices, key) else ClaimsKey(legacy, devices, port, key)
  }

  /** The controller sits at a port whose legacy entry is for another. */
  predicate Guest(legacy: LegacyDevice, devices: seq<Device>, key: string) {
    legacy.guid != "" && forall i | 0 <= i < |devices| && devices[i].key == key :: !Matches(devices[i], legacy)
  }

  lemma ClaimedSits(preferred: seq<Slot>, legacy: seq<LegacyDevice>, devices: seq<Device>, port: nat, key: string)
    requires |legacy| == |preferred| && port < |preferred| && DevicesOk(devices)
    requires ClaimsKey(legacy, devices, port, key)
    ensures Hotplug(preferred, legacy, devices).1[port].controller == key
  {
    ResolvedController(preferred, legacy, devices, port);
    ReconcileMeetsPolicy(ResolveLegacy(preferred, legacy, devices), Keys(devices));
    var i := ClaimOf(legacy, devices, port);
    assert Keys(devices)[i] == key;
    hide Claim, ClaimOf, Reconcile, ResolveLegacy;
  }

  lemma UnclaimedSits(preferred: seq<Slot>, legacy: seq<LegacyDevice>, devices: seq<Device>, port: nat)
    requires |legacy| == |preferred| && port < |preferred| && legacy[port].guid == ""
    requires preferred[port].controller != "" && preferred[port].controller in Keys(devices)
    requires !KeyClaimed(legacy, devices, preferred[port].controller)
    ensures Hotplug(preferred, legacy, devices).1[port].controller == preferred[port].controller
  {
    ResolvedController(preferred, legacy, devices, port);
    ReconcileMeetsPolicy(ResolveLegacy(preferred, legacy, devices), Keys(devices));
    hide ClaimOf, Reconcile, ResolveLegacy, KeyClaimed;
  }

  lemma HotplugIsDistinct(preferred: seq<Slot>, legacy: seq<LegacyDevice>, devices: seq<Device>)
    requires |legacy| == |preferred| && Distinct(preferred) && DistinctKeys(devices)
    ensures Distinct(Hotplug(preferred, legacy, devices).0) && Distinct(Hotplug(preferred, legacy, devices).1)
  {
    assert [devices][..0] == [];
    NobodySitsTwice(preferred, legacy, [devices]);
    hide Hotplug, Distinct;
    assert HotplugAll(preferred, legacy, [devices][..0]).0 == preferred;
  }

  lemma SitsElsewhere(slots: seq<Slot>, port: nat, other: nat, key: string)
    requires Distinct(slots) && port < |slots| && other < |slots| && port != other && key != ""
    requires slots[other].controller == key
    ensures slots[port].controller != key
  {
  }

  /** From any distinct slots: a connected controller that is no guest keeps its port through a hotplug if and only if
      its own legacy entry claims it again, or there is none and nobody claims it. */
  lemma HotplugKeepsIff(preferred: seq<Slot>, legacy: seq<LegacyDevice>, devices: seq<Device>, port: nat)
    requires |legacy| == |preferred| && port < |preferred| && Distinct(preferred) && DevicesOk(devices)
    requires preferred[port].controller in Keys(devices) && !Guest(legacy[port], devices, preferred[port].controller)
    ensures Hotplug(preferred, legacy, devices).1[port].controller == preferred[port].controller <==>
            StaysPut(legacy, devices, port, preferred[port].controller)
  {
    var key, r := preferred[port].controller, Hotplug(preferred, legacy, devices).1;
    var c :| 0 <= c < |devices| && Keys(devices)[c] == key;
    HotplugIsDistinct(preferred, legacy, devices);
    hide Hotplug, Distinct, ClaimOf;
    if StaysPut(legacy, devices, port, key) {
      if legacy[port].guid == "" {
        UnclaimedSits(preferred, legacy, devices, port);
      } else {
        ClaimedSits(preferred, legacy, devices, port, key);
      }
    } else if ClaimOf(legacy, devices, port) >= 0 {
      ClaimedSits(preferred, legacy, devices, port, devices[ClaimOf(legacy, devices, port)].key);
    } else {
      Claimant(legacy, devices, port, key, c);
      var other: nat :| other < |legacy| && other != port && ClaimsKey(legacy, devices, other, key);
      ClaimedSits(preferred, legacy, devices, other, key);
      SitsElsewhere(r, port, other, key);
    }
  }

  /** Who claims a controller that its port does not. */
  lemma Claimant(legacy: seq<LegacyDevice>, devices: seq<Device>, port: nat, key: string, c: nat)
    requires port < |legacy| && c < |devices| && devices[c].key == key && DevicesOk(devices)
    requires !StaysPut(legacy, devices, port, key) && ClaimOf(legacy, devices, port) < 0
    requires !Guest(legacy[port], devices, key)
    ensures exists other: nat :: other < |legacy| && other != port && ClaimsKey(legacy, devices, other, key)
  {
    if legacy[port].guid != "" {
      assert Matches(devices[c], legacy[port]);
      TakenAreClaims(legacy, devices, port, c);
      assert c in Taken(legacy, devices, port);
      var other: nat :| other < port && ClaimOf(legacy, devices, other) == c;
      assert ClaimsKey(legacy, devices, other, key);
    }
  }

  // ----- legacy entries that name their devices -----

  /** Every legacy entry names a uid, and no two the same. */
  ghost predicate Pinned(legacy: seq<LegacyDevice>) {
    && (forall p | 0 <= p < |legacy| && legacy[p].guid != "" :: legacy[p].uid != "")
    && forall p, q | 0 <= p < q < |legacy| && legacy[p].guid != "" && legacy[q].guid != "" ::
         legacy[p].uid != legacy[q].uid
  }

  ghost predicate DistinctUids(devices: seq<Device>) {
    forall i, j | 0 <= i < j < |devices| :: devices[i].uid != devices[j].uid
  }

  /** A device listed twice under one key is the same device. */
  ghost predicate SameDevices(devices: seq<Device>, other: seq<Device>) {
    forall i, j | 0 <= i < |devices| && 0 <= j < |other| && devices[i].key == other[j].key :: devices[i] == other[j]
  }

  lemma PinnedClaim(legacy: seq<LegacyDevice>, devices: seq<Device>, port: nat, i: nat)
    requires Pinned(legacy) && DistinctUids(devices) && port < |legacy| && i < |devices|
    requires legacy[port].guid != "" && Matches(devices[i], legacy[port])
    ensures ClaimOf(legacy, devices, port) == i
  {
    TakenAreClaims(legacy, devices, port, i);
    forall other | 0 <= other < port
      ensures ClaimOf(legacy, devices, other) != i
    {
      hide ClaimOf;
    }
    hide Taken;
  }

  /** With such entries a controller that sits at a port after one hotplug, no guest there, sits there after the
      next. */
  lemma UidsPinPorts(preferred: seq<Slot>, legacy: seq<LegacyDevice>, before: seq<Device>, devices: seq<Device>,
                     port: nat)
    requires |legacy| == |preferred| && port < |preferred| && Distinct(preferred) && Pinned(legacy)
    requires DevicesOk(before) && DevicesOk(devices) && DistinctUids(before) && DistinctUids(devices)
    requires SameDevices(before, devices)
    requires var key := Hotplug(preferred, legacy, before).1[port].controller;
             key in Keys(before) && key in Keys(devices) && !Guest(legacy[port], devices, key)
    ensures var (p, r) := Hotplug(preferred, legacy, before);
            Hotplug(p, legacy, devices).1[port].controller == r[port].controller
  {
    var (p, r) := Hotplug(preferred, legacy, before);
    var key := r[port].controller;
    var i :| 0 <= i < |before| && Keys(before)[i] == key;
    var j :| 0 <= j < |devices| && Keys(devices)[j] == key;
    assert key == before[i].key != "";
    HotplugIsDistinct(preferred, legacy, before);
    ShownIsRemembered(preferred, legacy, before, port);
    hide Hotplug, ClaimOf, Distinct;
    if legacy[port].guid != "" {
      OnlyOneHasKey(devices, j, key);
      PinnedClaim(legacy, devices, port, j);
    } else if other: nat :| other < |legacy| && ClaimsKey(legacy, devices, other, key) {
      OnlyOneHasKey(devices, ClaimOf(legacy, devices, other), key);
      PinnedClaim(legacy, before, other, i);
      ClaimedSits(preferred, legacy, before, other, key);
      SitsElsewhere(r, port, other, key);
    }
    HotplugKeepsIff(p, legacy, devices, port);
  }

  lemma OnlyOneHasKey(devices: seq<Device>, i: nat, key: string)
    requires DistinctKeys(devices) && i < |devices| && devices[i].key == key
    ensures forall j | 0 <= j < |devices| && devices[j].key == key :: j == i
  {
  }

  lemma ShownIsRemembered(preferred: seq<Slot>, legacy: seq<LegacyDevice>, devices: seq<Device>, port: nat)
    requires |legacy| == |preferred| && port < |preferred|
    requires Hotplug(preferred, legacy, devices).1[port].controller != ""
    ensures var (p, r) := Hotplug(preferred, legacy, devices); p[port].controller == r[port].controller
  {
    ReconcileMeetsPolicy(ResolveLegacy(preferred, legacy, devices), Keys(devices));
    hide Reconcile, ResolveLegacy;
  }

  // ----- what moves a connected controller -----

  /** Two ports share a GUID and name no uid: the second controller moves up when the first is unplugged. */
  lemma SharedGuidMovesPad(guid: string, a: string, b: string, slot: Slot)
    requires guid != "" && a != "" && b != "" && a != b
    ensures var legacy := [LegacyDevice(guid, ""), LegacyDevice(guid, "")];
            var first, second := Device(a, guid, a), Device(b, guid, b);
            var (p, r) := Hotplug([Vacate(slot), Vacate(slot)], legacy, [first, second]);
            var r' := Hotplug(p, legacy, [second]).1;
            r[0].controller == a && r[1].controller == b && r'[0].controller == b && r'[1].controller != b
  {
    var legacy := [LegacyDevice(guid, ""), LegacyDevice(guid, "")];
    var first, second := Device(a, guid, a), Device(b, guid, b);
    var slots, both, one := [Vacate(slot), Vacate(slot)], [first, second], [second];
    FirstClaims(legacy, both);
    FirstClaims(legacy, one);
    assert DevicesOk(both) && DevicesOk(one) && Distinct(slots);
    HotplugIsDistinct(slots, legacy, both);
    hide Hotplug, ClaimOf;
    ClaimedSits(slots, legacy, both, 0, a);
    ClaimedSits(slots, legacy, both, 1, b);
    var p := Hotplug(slots, legacy, both).0;
    ClaimedSits(p, legacy, one, 0, b);
    HotplugIsDistinct(p, legacy, one);
    SitsElsewhere(Hotplug(p, legacy, one).1, 1, 0, b);
  }

  lemma FirstClaims(legacy: seq<LegacyDevice>, devices: seq<Device>)
    requires |legacy| == 2 && legacy[0] == legacy[1] && legacy[0].guid != "" && legacy[0].uid == ""
    requires 0 < |devices| <= 2
    requires forall i | 0 <= i < |devices| :: devices[i].guid == legacy[0].guid
    ensures ClaimOf(legacy, devices, 0) == 0 && (|devices| == 2 ==> ClaimOf(legacy, devices, 1) == 1)
  {
    TakenAreClaims(legacy, devices, 0, 0);
    assert Matches(devices[0], legacy[0]);
    assert ClaimOf(legacy, devices, 0) == 0;
    TakenAreClaims(legacy, devices, 1, 0);
    TakenAreClaims(legacy, devices, 1, 1);
    hide Taken;
  }

  /** And a guest moves up when a seat before its own becomes free, though nothing else has changed for it. */
  lemma GuestMovesUp(entry: LegacyDevice, first: Device, guest: Device)
    requires entry.guid != "" && !Matches(first, entry) && !Matches(guest, entry)
    requires first.key != "" && guest.key != "" && first.key != guest.key
    ensures var open := Slot("", false, false, false);
            var legacy := [LegacyDevice("", ""), entry];
            var (p, r) := Hotplug([open.(controller := first.key), open], legacy, [first, guest]);
            var r' := Hotplug(p, legacy, [guest]).1;
            r[1].controller == guest.key && r'[0].controller == guest.key && r'[1].controller == ""
  {
    var open := Slot("", false, false, false);
    var legacy := [LegacyDevice("", ""), entry];
    var slots, both, one := [open.(controller := first.key), open], [first, guest], [guest];
    NobodyClaims(legacy, both);
    NobodyClaims(legacy, one);
    var full := [open.(controller := first.key), open.(controller := guest.key)];
    UnclaimedResolves(slots, legacy, both);
    UnclaimedResolves(full, legacy, one);
    hide ResolveLegacy, Reconcile, ClaimOf, KeyClaimed;
    assert Keys(both) == [first.key, guest.key] && Keys(one) == [guest.key];
    NewcomerSits(open, first.key, guest.key);
    SeatFreed(open, first.key, guest.key);
  }

  /** With nobody claimed, resolve_legacy empties the port of the entry and leaves the other as it is. */
  lemma UnclaimedResolves(slots: seq<Slot>, legacy: seq<LegacyDevice>, devices: seq<Device>)
    requires |legacy| == |slots| == 2 && legacy[0].guid == "" && legacy[1].guid != ""
    requires ClaimOf(legacy, devices, 0) == -1 && ClaimOf(legacy, devices, 1) == -1
    requires !KeyClaimed(legacy, devices, slots[0].controller)
    ensures ResolveLegacy(slots, legacy, devices) == [slots[0], Vacate(slots[1])]
  {
    var at := ResolveLegacyMeetsPolicy(slots, legacy, devices);
    var r := ResolveLegacy(slots, legacy, devices);
    ResolvedController(slots, legacy, devices, 0);
    ResolvedController(slots, legacy, devices, 1);
    hide ResolveLegacy, ClaimOf, KeyClaimed, Matches;
    assert PortPolicy(slots[0], r[0], legacy[0], devices, at, at[0]);
    assert PortPolicy(slots[1], r[1], legacy[1], devices, at, at[1]);
  }

  /** A newcomer takes the open second port. */
  lemma NewcomerSits(open: Slot, first: string, guest: string)
    requires open == Slot("", false, false, false) && first != "" && guest != "" && first != guest
    ensures var full := [open.(controller := first), open.(controller := guest)];
            Reconcile([open.(controller := first), open], [first, guest]) == (full, full)
  {
    var slots := [open.(controller := first), open];
    assert Forget(slots, [first, guest]) == slots && Visible(slots, [first, guest]) == slots;
    assert [first, guest][..1] == [first] && [first][..0] == [];
    assert SeatAll(slots, slots, []) == (slots, slots);
    assert slots[0].controller == first && Seated(slots, first);
    assert SeatAll(slots, slots, [first]) == (slots, slots);
    assert slots[0].controller != guest && slots[1].controller == "" != guest;
    assert forall i | 0 <= i < |slots| :: slots[i].controller != guest;
    assert FirstSeat(slots, slots, 0) == 1 && !Seated(slots, guest);
    var full := [open.(controller := first), open.(controller := guest)];
    assert slots[1 := slots[1].(controller := guest)] == full;
    assert Seat(slots, slots, guest) == (full, full);
    assert SeatAll(slots, slots, [first, guest]) == Seat(slots, slots, guest);
  }

  /** With the first port's controller gone, that port is the first open one. */
  lemma SeatFreed(open: Slot, first: string, guest: string)
    requires open == Slot("", false, false, false) && first != "" && guest != "" && first != guest
    ensures var moved := [open.(controller := guest), open];
            Reconcile([open.(controller := first), open], [guest]) == (moved, moved)
  {
    var slots, free := [open.(controller := first), open], [open, open];
    assert Forget(slots, [guest]) == free && Visible(slots, [guest]) == free;
    assert [guest][..0] == [] && SeatAll(free, free, []) == (free, free);
    assert forall i | 0 <= i < |free| :: free[i].controller != guest;
    assert !Seated(free, guest) && FirstSeat(free, free, 0) == 0;
    var moved := [open.(controller := guest), open];
    assert free[0 := free[0].(controller := guest)] == moved;
    assert Seat(free, free, guest) == (moved, moved);
    assert SeatAll(free, free, [guest]) == Seat(free, free, guest);
  }

  lemma NobodyClaims(legacy: seq<LegacyDevice>, devices: seq<Device>)
    requires |legacy| == 2 && legacy[0].guid == ""
    requires forall i | 0 <= i < |devices| :: !Matches(devices[i], legacy[1])
    ensures ClaimOf(legacy, devices, 0) == -1 && ClaimOf(legacy, devices, 1) == -1
    ensures forall key :: !KeyClaimed(legacy, devices, key)
  {
    forall key
      ensures !KeyClaimed(legacy, devices, key)
    {
      hide ClaimOf;
    }
  }
}
