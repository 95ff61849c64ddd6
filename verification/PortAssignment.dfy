// Which controller sits at which port: the policy of automatic, resolve_legacy and reconcile, on values.

module PortAssignment {

  datatype Slot = Slot(controller: string, keyboard: bool, reserved: bool, shareKeyboard: bool)

  datatype Device = Device(key: string, guid: string, uid: string)

  datatype LegacyDevice = LegacyDevice(guid: string, uid: string)

  function Vacate(slot: Slot): Slot { slot.(controller := "") }

  // ----- reconcile -----

  predicate Absent(slot: Slot, connected: seq<string>) { slot.controller != "" && slot.controller !in connected }

  /** The slots as players see them: a controller that is not connected does not show. */
  function Visible(preferred: seq<Slot>, connected: seq<string>): (r: seq<Slot>)
    ensures |r| == |preferred|
    ensures forall i | 0 <= i < |r| ::
              r[i] == if Absent(preferred[i], connected) then Vacate(preferred[i]) else preferred[i]
  {
    seq(|preferred|, i requires 0 <= i < |preferred| =>
        if Absent(preferred[i], connected) then Vacate(preferred[i]) else preferred[i])
  }

  /** Absent controllers lose their slot unless it is reserved for them. */
  function Forget(preferred: seq<Slot>, connected: seq<string>): (p: seq<Slot>)
    ensures |p| == |preferred|
    ensures forall i | 0 <= i < |p| ::
              p[i] ==
              if Absent(preferred[i], connected) && !preferred[i].reserved then Vacate(preferred[i]) else preferred[i]
  {
    seq(|preferred|, i requires 0 <= i < |preferred| =>
        if Absent(preferred[i], connected) && !preferred[i].reserved then Vacate(preferred[i]) else preferred[i])
  }

  predicate CanSeat(preferred: Slot, result: Slot) {
    !preferred.reserved && result.controller == "" && !(result.keyboard && !preferred.shareKeyboard)
  }

  predicate Seated(result: seq<Slot>, device: string) {
    exists i :: 0 <= i < |result| && result[i].controller == device
  }

  /** The first port, from `i` on, where a controller may sit; the number of ports if there is none. */
  function FirstSeat(preferred: seq<Slot>, result: seq<Slot>, i: nat): (r: nat)
    requires |preferred| == |result| && i <= |result|
    ensures i <= r <= |result| && (r < |result| ==> CanSeat(preferred[r], result[r]))
    ensures forall k | i <= k < r :: !CanSeat(preferred[k], result[k])
    decreases |result| - i
  {
    if i == |result| || CanSeat(preferred[i], result[i]) then i else FirstSeat(preferred, result, i + 1)
  }

  function Seat(preferred: seq<Slot>, result: seq<Slot>, device: string): (r: (seq<Slot>, seq<Slot>))
    requires |preferred| == |result|
    ensures |r.0| == |r.1| == |result|
  {
    if Seated(result, device) then (preferred, result) else
    var i := FirstSeat(preferred, result, 0);
    if i == |result| then (preferred, result)
    else (preferred[i := preferred[i].(controller := device)], result[i := result[i].(controller := device)])
  }

  function SeatAll(preferred: seq<Slot>, result: seq<Slot>, devices: seq<string>): (r: (seq<Slot>, seq<Slot>))
    requires |preferred| == |result|
    ensures |r.0| == |r.1| == |result|
  {
    if devices == [] then (preferred, result) else
    var (p, s) := SeatAll(preferred, result, devices[..|devices| - 1]);
    Seat(p, s, devices[|devices| - 1])
  }

  /** The remembered slots after the call, and the slots it returns. */
  function Reconcile(preferred: seq<Slot>, connected: seq<string>): (r: (seq<Slot>, seq<Slot>))
    ensures |r.0| == |r.1| == |preferred|
  {
    SeatAll(Forget(preferred, connected), Visible(preferred, connected), connected)
  }

  // ----- resolve_legacy -----

  predicate Matches(device: Device, legacy: LegacyDevice) {
    device.guid == legacy.guid && (legacy.uid != "" ==> device.uid == legacy.uid)
  }

  /** The first unused matching device, from `i` on; the number of devices if there is none. */
  function FirstMatch(legacy: LegacyDevice, devices: seq<Device>, used: set<nat>, i: nat): (r: nat)
    requires i <= |devices|
    ensures i <= r <= |devices| && (r < |devices| ==> r !in used && Matches(devices[r], legacy))
    ensures forall k | i <= k < r :: k in used || !Matches(devices[k], legacy)
    decreases |devices| - i
  {
    if i == |devices| || (i !in used && Matches(devices[i], legacy)) then i
    else FirstMatch(legacy, devices, used, i + 1)
  }

  /** The first `n` ports of the reservation pass: the slots, and the devices used up. */
  function Claim(preferred: seq<Slot>, legacy: seq<LegacyDevice>, devices: seq<Device>,
                 n: nat): (r: (seq<Slot>, set<nat>))
    requires |legacy| == |preferred| && n <= |preferred|
    ensures |r.0| == |preferred|
  {
    if n == 0 then (preferred, {}) else
    var (p, used) := Claim(preferred, legacy, devices, n - 1);
    var port := n - 1;
    if legacy[port].guid == "" then (p, used) else
    var i := FirstMatch(legacy[port], devices, used, 0);
    if i == |devices| then (p[port := Vacate(p[port])], used)
    else (p[port := p[port].(controller := devices[i].key)], used + {i})
  }

  predicate UsedKey(devices: seq<Device>, used: set<nat>, key: string) {
    exists i :: 0 <= i < |devices| && i in used && devices[i].key == key
  }

  function ResolveLegacy(preferred: seq<Slot>, legacy: seq<LegacyDevice>, devices: seq<Device>): (r: seq<Slot>)
    requires |legacy| == |preferred|
    ensures |r| == |preferred|
  {
    var (p, used) := Claim(preferred, legacy, devices, |preferred|);
    seq(|p|, port requires 0 <= port < |p| =>
        if legacy[port].guid == "" && UsedKey(devices, used, p[port].controller) then Vacate(p[port]) else p[port])
  }

  // ----- automatic -----

  const PORTS: nat := 4

  function Automatic(connected: seq<string>, separateKeyboard: bool): (slots: seq<Slot>)
    ensures |slots| == PORTS
  {
    seq(PORTS, i requires 0 <= i < PORTS =>
        Slot(if i < |connected| then connected[i] else "", connected == [] && i == 0, false,
             connected == [] && i == 0 && !separateKeyboard))
  }

  // ----- properties of reconcile -----

  /** No controller appears on two ports. */
  ghost predicate Distinct(slots: seq<Slot>) {
    forall i, j | 0 <= i < j < |slots| && slots[i].controller != "" :: slots[i].controller != slots[j].controller
  }

  ghost predicate SameSeat(a: Slot, b: Slot) {
    a.keyboard == b.keyboard && a.reserved == b.reserved && a.shareKeyboard == b.shareKeyboard
  }

  /** Between remembered and visible slots: what shows is what is remembered and connected, and only
      reserved slots remember an absent controller. */
  ghost predicate Agree(p: seq<Slot>, r: seq<Slot>, connected: seq<string>) {
    && r == Visible(p, connected)
    && forall i | 0 <= i < |p| :: Absent(p[i], connected) ==> p[i].reserved
  }

  ghost predicate Kept(p: seq<Slot>, p': seq<Slot>) {
    && |p'| == |p|
    && forall i | 0 <= i < |p| :: SameSeat(p'[i], p[i]) && (p[i].controller != "" ==> p'[i] == p[i])
  }

  lemma SeatKeeps(p: seq<Slot>, r: seq<Slot>, connected: seq<string>, device: string)
    requires Agree(p, r, connected) && device in connected
    ensures var (p', r') := Seat(p, r, device);
            && Agree(p', r', connected) && Kept(p, p') && Kept(r, r') && (Distinct(p) ==> Distinct(p'))
            && (Seated(r', device) || Closed(p', r'))
            && (forall d :: Seated(r, d) && d != "" ==> Seated(r', d))
  {
    var i := FirstSeat(p, r, 0);
    var (p', r') := Seat(p, r, device);
    if !Seated(r, device) && i < |r| {
      assert r'[i].controller == device;
      assert p[i].controller == "";
      assert r' == Visible(p', connected);
      forall j | 0 <= j < |p| && device != ""
        ensures p[j].controller != device
      {
        assert r[j].controller != device;
      }
      forall d | Seated(r, d) && d != ""
        ensures Seated(r', d)
      {
        var k :| 0 <= k < |r| && r[k].controller == d;
        assert r'[k].controller == d;
      }
    }
  }

  ghost predicate Closed(p: seq<Slot>, r: seq<Slot>)
    requires |p| == |r|
  {
    forall i | 0 <= i < |r| :: !CanSeat(p[i], r[i])
  }

  /** A connected controller that has no seat finds every port reserved, occupied or held by an unshared keyboard. */
  ghost predicate Full(p: seq<Slot>, r: seq<Slot>, devices: seq<string>)
    requires |p| == |r|
  {
    forall d | d in devices && d != "" && !Seated(r, d) :: Closed(p, r)
  }

  lemma FullGrows(p: seq<Slot>, r: seq<Slot>, p': seq<Slot>, r': seq<Slot>, devices: seq<string>, device: string)
    requires |p| == |r| && Kept(p, p') && Kept(r, r') && Full(p, r, devices) && (Seated(r', device) || Closed(p', r'))
    requires forall d | Seated(r, d) && d != "" :: Seated(r', d)
    ensures Full(p', r', devices + [device])
  {
    assert Closed(p, r) ==> Closed(p', r');
    hide Closed, Seated, Kept;
  }

  lemma {:induction false} SeatAllKeeps(p: seq<Slot>, r: seq<Slot>, connected: seq<string>, n: nat)
    requires Agree(p, r, connected) && n <= |connected|
    ensures var (p', r') := SeatAll(p, r, connected[..n]);
            && Agree(p', r', connected) && Kept(p, p') && Kept(r, r') && (Distinct(p) ==> Distinct(p'))
            && Full(p', r', connected[..n])
  {
    assert |p| == |r|;
    hide Agree, Distinct, Full, Seat, Seated, SeatAll, Closed, Kept;
    if n > 0 {
      SeatAllKeeps(p, r, connected, n - 1);
      var (p1, r1) := SeatAll(p, r, connected[..n - 1]);
      assert connected[..n][..n - 1] == connected[..n - 1];
      SeatKeeps(p1, r1, connected, connected[n - 1]);
      var (p', r') := Seat(p1, r1, connected[n - 1]);
      SeatAllStep(p, r, connected[..n]);
      FullGrows(p1, r1, p', r', connected[..n - 1], connected[n - 1]);
      KeptTwice(p, p1, p');
      KeptTwice(r, r1, r');
      assert connected[..n - 1] + [connected[n - 1]] == connected[..n];
    } else {
      assert connected[..0] == [];
      SeatNobody(p, r);
    }
  }

  lemma SeatNobody(p: seq<Slot>, r: seq<Slot>)
    requires |p| == |r|
    ensures SeatAll(p, r, []) == (p, r) && Full(p, r, []) && Kept(p, p) && Kept(r, r)
  {
  }

  lemma SeatAllStep(p: seq<Slot>, r: seq<Slot>, devices: seq<string>)
    requires |p| == |r| && devices != []
    ensures var (p1, r1) := SeatAll(p, r, devices[..|devices| - 1]);
            SeatAll(p, r, devices) == Seat(p1, r1, devices[|devices| - 1])
  {
  }

  lemma KeptTwice(p: seq<Slot>, p1: seq<Slot>, p': seq<Slot>)
    requires Kept(p, p1) && Kept(p1, p')
    ensures Kept(p, p')
  {
  }

  lemma ForgetAgrees(preferred: seq<Slot>, connected: seq<string>)
    ensures Agree(Forget(preferred, connected), Visible(preferred, connected), connected)
    ensures Distinct(preferred) ==> Distinct(Forget(preferred, connected))
  {
    assert Visible(preferred, connected) == Visible(Forget(preferred, connected), connected);
  }

  /** The one call: what it returns is what it remembers, minus the absent; connected controllers stay where they
      were; every controller left out found all ports closed to it; nobody sits twice. */
  lemma ReconcileMeetsPolicy(preferred: seq<Slot>, connected: seq<string>)
    ensures var (p, r) := Reconcile(preferred, connected);
            && Agree(p, r, connected) && Full(p, r, connected) && (Distinct(preferred) ==> Distinct(p) && Distinct(r))
    ensures var (p, r) := Reconcile(preferred, connected);
            forall i | 0 <= i < |preferred| ::
              && SameSeat(p[i], preferred[i]) && SameSeat(r[i], preferred[i])
              && (preferred[i].controller in connected && preferred[i].controller != "" ==>
                    p[i] == r[i] == preferred[i])
              && (Absent(preferred[i], connected) && preferred[i].reserved ==> p[i] == preferred[i])
  {
    ForgetAgrees(preferred, connected);
    SeatAllKeeps(Forget(preferred, connected), Visible(preferred, connected), connected, |connected|);
    assert connected[..|connected|] == connected;
  }

  /** Reconciling again with the same controllers changes nothing. */
  lemma ReconcileIsIdempotent(preferred: seq<Slot>, connected: seq<string>)
    ensures var (p, r) := Reconcile(preferred, connected);
            Reconcile(p, connected) == (p, r)
  {
    var (p, r) := Reconcile(preferred, connected);
    ReconcileMeetsPolicy(preferred, connected);
    assert Forget(p, connected) == p;
    SettledStaysSettled(p, r, connected, |connected|);
    assert connected[..|connected|] == connected;
  }

  lemma {:induction false} SettledStaysSettled(p: seq<Slot>, r: seq<Slot>, devices: seq<string>, n: nat)
    requires |p| == |r| && n <= |devices| && Full(p, r, devices)
    requires "" in devices && !Seated(r, "") ==> forall i | 0 <= i < |r| :: !CanSeat(p[i], r[i])
    ensures SeatAll(p, r, devices[..n]) == (p, r)
  {
    if n > 0 {
      SettledStaysSettled(p, r, devices, n - 1);
      assert devices[..n][..n - 1] == devices[..n - 1];
    }
  }

  // ----- histories of hotplugs -----

  /** The remembered slots after a history of connected lists. */
  function Replay(preferred: seq<Slot>, history: seq<seq<string>>): (p: seq<Slot>)
    ensures |p| == |preferred|
  {
    if history == [] then preferred
    else Reconcile(Replay(preferred, history[..|history| - 1]), history[|history| - 1]).0
  }

  /** A reserved controller is remembered through any history, so whenever it is connected it is back at its port. */
  lemma {:induction false} ReservationSurvives(preferred: seq<Slot>, history: seq<seq<string>>, connected: seq<string>,
                                               i: nat)
    requires i < |preferred| && preferred[i].reserved && preferred[i].controller != ""
    ensures Replay(preferred, history)[i] == preferred[i]
    ensures Reconcile(Replay(preferred, history), connected).1[i].controller ==
            if preferred[i].controller in connected then preferred[i].controller else ""
  {
    if history != [] {
      ReservationSurvives(preferred, history[..|history| - 1], history[|history| - 1], i);
      ReconcileMeetsPolicy(Replay(preferred, history[..|history| - 1]), history[|history| - 1]);
    }
    ReconcileMeetsPolicy(Replay(preferred, history), connected);
  }

  /** A controller that stays connected through a history stays at its port. */
  lemma {:induction false} ConnectedPadNeverMoves(preferred: seq<Slot>, history: seq<seq<string>>, i: nat)
    requires i < |preferred| && preferred[i].controller != ""
    requires forall t | 0 <= t < |history| :: preferred[i].controller in history[t]
    ensures Replay(preferred, history)[i] == preferred[i]
    ensures history != [] ==>
              Reconcile(Replay(preferred, history[..|history| - 1]), history[|history| - 1]).1[i] == preferred[i]
  {
    if history != [] {
      ConnectedPadNeverMoves(preferred, history[..|history| - 1], i);
      ReconcileMeetsPolicy(Replay(preferred, history[..|history| - 1]), history[|history| - 1]);
    }
  }

  /** The opposite: a free slot's controller is forgotten as soon as it is absent, and a gap reserved by hand stays
      one. */
  lemma AbsentPadIsForgotten(preferred: seq<Slot>, connected: seq<string>, i: nat)
    requires i < |preferred|
    ensures var p := Reconcile(preferred, connected).0;
            && (Absent(preferred[i], connected) && !preferred[i].reserved ==>
                  p[i].controller == "" || p[i].controller in connected)
            && (preferred[i].reserved && preferred[i].controller == "" ==> p[i] == preferred[i])
  {
    ReconcileMeetsPolicy(preferred, connected);
    if preferred[i].reserved {
      ReservedSlotsStay(Forget(preferred, connected), Visible(preferred, connected), connected, i);
    }
  }

  lemma {:induction false} ReservedSlotsStay(p: seq<Slot>, r: seq<Slot>, devices: seq<string>, i: nat)
    requires |p| == |r| && i < |p| && p[i].reserved
    ensures SeatAll(p, r, devices).0[i] == p[i]
  {
    if devices != [] {
      ReservedSlotsStay(p, r, devices[..|devices| - 1], i);
    }
  }

  // ----- properties of resolve_legacy -----

  ghost predicate DistinctKeys(devices: seq<Device>) {
    forall i, j | 0 <= i < j < |devices| :: devices[i].key != devices[j].key
  }

  /** What a legacy port got: `at` is the device it claimed, or -1. */
  ghost predicate PortClaimed(before: Slot, after: Slot, legacy: LegacyDevice, devices: seq<Device>, used: set<nat>,
                              at: int) {
    if legacy.guid == "" then after == before && at == -1
    else if at == -1 then
      after == Vacate(before) && forall i | 0 <= i < |devices| && Matches(devices[i], legacy) :: i in used
    else
      && 0 <= at < |devices| && at in used && Matches(devices[at], legacy)
      && after == before.(controller := devices[at].key)
  }

  /** `at` lists, for each of the first ports, the device claimed there: each at most once, and only those are used. */
  ghost predicate Claimed(preferred: seq<Slot>, legacy: seq<LegacyDevice>, devices: seq<Device>, p: seq<Slot>,
                          used: set<nat>, at: seq<int>)
  {
    && |legacy| == |preferred| == |p| && |at| <= |p|
    && (forall port | 0 <= port < |at| :: PortClaimed(preferred[port], p[port], legacy[port], devices, used, at[port]))
    && (forall port | |at| <= port < |p| :: p[port] == preferred[port])
    && (forall i | i in used :: i in at && i < |devices|)
    && (forall a, b | 0 <= a < b < |at| && at[a] >= 0 :: at[a] != at[b])
  }

  /** A port that names a model claims, in port order, the first device of that GUID, and of that uid if one is
      named, that no earlier port claimed; -1 if there is none. Other ports claim nothing. */
  ghost predicate ClaimsFirst(legacy: LegacyDevice, devices: seq<Device>, before: seq<int>, mine: int) {
    && -1 <= mine < |devices| && (legacy.guid == "" ==> mine == -1)
    && (mine >= 0 ==>
          && devices[mine].guid == legacy.guid && (legacy.uid == "" || devices[mine].uid == legacy.uid)
          && mine !in before)
    && (legacy.guid != "" ==>
          forall i | 0 <= i < |devices| && (mine == -1 || i < mine) && devices[i].guid == legacy.guid ::
            (legacy.uid == "" || devices[i].uid == legacy.uid) ==> i in before)
  }

  ghost predicate InPortOrder(legacy: seq<LegacyDevice>, devices: seq<Device>, at: seq<int>) {
    |at| <= |legacy| && forall port | 0 <= port < |at| :: ClaimsFirst(legacy[port], devices, at[..port], at[port])
  }

  lemma OneMoreInOrder(legacy: seq<LegacyDevice>, devices: seq<Device>, at: seq<int>, i: int)
    requires InPortOrder(legacy, devices, at) && |at| < |legacy| && ClaimsFirst(legacy[|at|], devices, at, i)
    ensures InPortOrder(legacy, devices, at + [i])
  {
    hide ClaimsFirst;
    assert (at + [i])[..|at|] == at;
    assert forall port | 0 <= port < |at| :: (at + [i])[..port] == at[..port];
  }

  lemma OneClaim(legacy: LegacyDevice, devices: seq<Device>, before: seq<int>, a: int, b: int)
    requires ClaimsFirst(legacy, devices, before, a) && ClaimsFirst(legacy, devices, before, b)
    ensures a == b
  {
    if 0 <= a && (b == -1 || a < b) {
      assert false;
    }
  }

  /** The claims are determined: no other choice of devices is in port order. */
  lemma {:induction false} ClaimsAreDetermined(legacy: seq<LegacyDevice>, devices: seq<Device>, at: seq<int>,
                                               other: seq<int>, n: nat)
    requires InPortOrder(legacy, devices, at) && InPortOrder(legacy, devices, other)
    requires n <= |at| && n <= |other|
    ensures at[..n] == other[..n]
  {
    hide ClaimsFirst;
    if n > 0 {
      ClaimsAreDetermined(legacy, devices, at, other, n - 1);
      OneClaim(legacy[n - 1], devices, at[..n - 1], at[n - 1], other[n - 1]);
      assert at[..n] == at[..n - 1] + [at[n - 1]] && other[..n] == other[..n - 1] + [other[n - 1]];
    }
  }

  /** What port n - 1 adds: a device that was not used yet, or nothing. */
  lemma ClaimOnePort(preferred: seq<Slot>, legacy: seq<LegacyDevice>, devices: seq<Device>, n: nat) returns (i: int)
    requires |legacy| == |preferred| && 0 < n <= |preferred|
    requires Claim(preferred, legacy, devices, n - 1).0[n - 1] == preferred[n - 1]
    ensures var (p, used) := Claim(preferred, legacy, devices, n - 1);
            var (p', used') := Claim(preferred, legacy, devices, n);
            && p' == p[n - 1 := p'[n - 1]] && PortClaimed(preferred[n - 1], p'[n - 1], legacy[n - 1], devices, used', i)
            && -1 <= i < |devices| && i !in used && used' == (if i == -1 then used else used + {i})
            && (forall k | 0 <= k < |devices| && (i == -1 || k < i) && legacy[n - 1].guid != "" ::
                  k in used || !Matches(devices[k], legacy[n - 1]))
  {
    var (p, used) := Claim(preferred, legacy, devices, n - 1);
    var m := FirstMatch(legacy[n - 1], devices, used, 0);
    i := if legacy[n - 1].guid == "" || m == |devices| then -1 else m;
  }

  lemma StillClaimed(before: Slot, after: Slot, legacy: LegacyDevice, devices: seq<Device>, used: set<nat>,
                     used': set<nat>, at: int)
    requires PortClaimed(before, after, legacy, devices, used, at) && used <= used'
    ensures PortClaimed(before, after, legacy, devices, used', at)
  {
  }

  lemma ClaimStep(preferred: seq<Slot>, legacy: seq<LegacyDevice>, devices: seq<Device>, n: nat, at: seq<int>)
    returns (i: int)
    requires |legacy| == |preferred| && 0 < n <= |preferred| && |at| == n - 1
    requires var (p, used) := Claim(preferred, legacy, devices, n - 1); Claimed(preferred, legacy, devices, p, used, at)
    ensures var (p, used) := Claim(preferred, legacy, devices, n);
            Claimed(preferred, legacy, devices, p, used, at + [i]) && ClaimsFirst(legacy[n - 1], devices, at, i)
  {
    var (p, used) := Claim(preferred, legacy, devices, n - 1);
    var (p', used') := Claim(preferred, legacy, devices, n);
    i := ClaimOnePort(preferred, legacy, devices, n);
    StepClaimsFirst(preferred, legacy, devices, p, used, at, p'[n - 1], used', i);
    hide Claim, PortClaimed;
    if i >= 0 {
      UsedAreClaimed(preferred, legacy, devices, p, used, at, i);
    }
    hide Claimed;
    AppendClaim(preferred, legacy, devices, p, used, at, p', used', i);
  }

  lemma StepClaimsFirst(preferred: seq<Slot>, legacy: seq<LegacyDevice>, devices: seq<Device>, p: seq<Slot>,
                        used: set<nat>, at: seq<int>, after: Slot, used': set<nat>, i: int)
    requires Claimed(preferred, legacy, devices, p, used, at) && |at| < |p| && -1 <= i < |devices| && i !in used
    requires PortClaimed(preferred[|at|], after, legacy[|at|], devices, used', i)
    requires forall k | 0 <= k < |devices| && (i == -1 || k < i) && legacy[|at|].guid != "" ::
               k in used || !Matches(devices[k], legacy[|at|])
    ensures ClaimsFirst(legacy[|at|], devices, at, i)
  {
    if i >= 0 {
      UsedAreClaimed(preferred, legacy, devices, p, used, at, i);
    }
  }

  lemma AppendClaim(preferred: seq<Slot>, legacy: seq<LegacyDevice>, devices: seq<Device>, p: seq<Slot>, used: set<nat>,
                    at: seq<int>, p': seq<Slot>, used': set<nat>, i: int)
    requires Claimed(preferred, legacy, devices, p, used, at) && |at| < |p| == |p'| && p' == p[|at| := p'[|at|]]
    requires PortClaimed(preferred[|at|], p'[|at|], legacy[|at|], devices, used', i)
    requires -1 <= i < |devices| && i !in used && (i >= 0 ==> i !in at)
    requires used' == if i == -1 then used else used + {i}
    ensures Claimed(preferred, legacy, devices, p', used', at + [i])
  {
    var n := |at|;
    forall port | 0 <= port < n
      ensures PortClaimed(preferred[port], p'[port], legacy[port], devices, used', (at + [i])[port])
    {
      StillClaimed(preferred[port], p[port], legacy[port], devices, used, used', at[port]);
    }
    hide PortClaimed;
    assert (at + [i])[n] == i && forall port | 0 <= port < n :: (at + [i])[port] == at[port];
  }

  lemma {:induction false} ClaimMatches(preferred: seq<Slot>, legacy: seq<LegacyDevice>, devices: seq<Device>, n: nat)
    returns (at: seq<int>)
    requires |legacy| == |preferred| && n <= |preferred|
    ensures |at| == n && InPortOrder(legacy, devices, at)
    ensures var (p, used) := Claim(preferred, legacy, devices, n);
            Claimed(preferred, legacy, devices, p, used, at)
  {
    at := [];
    if n > 0 {
      at := ClaimMatches(preferred, legacy, devices, n - 1);
      var i := ClaimStep(preferred, legacy, devices, n, at);
      OneMoreInOrder(legacy, devices, at, i);
      at := at + [i];
    }
  }

  lemma UsedAreClaimed(preferred: seq<Slot>, legacy: seq<LegacyDevice>, devices: seq<Device>, p: seq<Slot>,
                       used: set<nat>, at: seq<int>, i: nat)
    requires Claimed(preferred, legacy, devices, p, used, at)
    ensures i in used <==> i in at
  {
    if i in at {
      var port :| 0 <= port < |at| && at[port] == i;
      assert PortClaimed(preferred[port], p[port], legacy[port], devices, used, at[port]);
    }
  }

  /** A legacy port holds a matching device that no other port claims, or is empty with every matching device
      claimed elsewhere. Another port keeps its controller unless that is one of the claimed devices. */
  ghost predicate PortPolicy(before: Slot, after: Slot, legacy: LegacyDevice, devices: seq<Device>, at: seq<int>,
                             mine: int) {
    && SameSeat(after, before) && -1 <= mine < |devices|
    && (legacy.guid == "" ==>
          mine == -1
          && after.controller ==
             if exists i :: 0 <= i < |devices| && i in at && devices[i].key == before.controller then ""
             else before.controller)
    && (legacy.guid != "" && mine >= 0 ==> Matches(devices[mine], legacy) && after.controller == devices[mine].key)
    && (legacy.guid != "" && mine == -1 ==>
          after.controller == "" && forall i | 0 <= i < |devices| && Matches(devices[i], legacy) :: i in at)
  }

  ghost predicate LegacyPolicy(preferred: seq<Slot>, legacy: seq<LegacyDevice>, devices: seq<Device>, r: seq<Slot>,
                               at: seq<int>) {
    && |legacy| == |preferred| == |r| == |at|
    && (forall a, b | 0 <= a < b < |at| && at[a] >= 0 :: at[a] != at[b])
    && forall port | 0 <= port < |r| :: PortPolicy(preferred[port], r[port], legacy[port], devices, at, at[port])
  }

  lemma ResolveLegacyMeetsPolicy(preferred: seq<Slot>, legacy: seq<LegacyDevice>, devices: seq<Device>)
    returns (at: seq<int>)
    requires |legacy| == |preferred|
    ensures LegacyPolicy(preferred, legacy, devices, ResolveLegacy(preferred, legacy, devices), at)
    ensures InPortOrder(legacy, devices, at)
  {
    at := ClaimMatches(preferred, legacy, devices, |preferred|);
    var (p, used) := Claim(preferred, legacy, devices, |preferred|);
    var r := ResolveLegacy(preferred, legacy, devices);
    hide Claim;
    forall port | 0 <= port < |r|
      ensures PortPolicy(preferred[port], r[port], legacy[port], devices, at, at[port])
    {
      assert PortClaimed(preferred[port], p[port], legacy[port], devices, used, at[port]);
      assert r[port] == if legacy[port].guid == "" && UsedKey(devices, used, p[port].controller)
                        then Vacate(p[port]) else p[port];
      PortMeetsPolicy(preferred, legacy, devices, p, used, at, port, r[port]);
    }
  }

  lemma PortMeetsPolicy(preferred: seq<Slot>, legacy: seq<LegacyDevice>, devices: seq<Device>, p: seq<Slot>,
                        used: set<nat>,
                        at: seq<int>, port: nat, after: Slot)
    requires Claimed(preferred, legacy, devices, p, used, at) && port < |at|
    requires after ==
             if legacy[port].guid == "" && UsedKey(devices, used, p[port].controller) then Vacate(p[port]) else p[port]
    ensures PortPolicy(preferred[port], after, legacy[port], devices, at, at[port])
  {
    assert PortClaimed(preferred[port], p[port], legacy[port], devices, used, at[port]);
    forall i: nat
      ensures i in used <==> i in at
    {
      UsedAreClaimed(preferred, legacy, devices, p, used, at, i);
    }
  }

  /** Two legacy ports claim devices that bear one name. */
  ghost predicate ClaimsShareKey(devices: seq<Device>, at: seq<int>) {
    exists a, b | 0 <= a < b < |at| ::
      && 0 <= at[a] < |devices| && 0 <= at[b] < |devices|
      && devices[at[a]].key != "" && devices[at[a]].key == devices[at[b]].key
  }

  /** From distinct slots the policy seats nobody twice if and only if no two legacy ports claim one nonempty key. */
  lemma PolicySeatsNobodyTwiceIff(preferred: seq<Slot>, legacy: seq<LegacyDevice>, devices: seq<Device>, r: seq<Slot>,
                                  at: seq<int>)
    requires LegacyPolicy(preferred, legacy, devices, r, at) && Distinct(preferred)
    ensures Distinct(r) <==> !ClaimsShareKey(devices, at)
  {
    if ClaimsShareKey(devices, at) {
      var a, b :| && 0 <= a < b < |at| && 0 <= at[a] < |devices| && 0 <= at[b] < |devices|
                  && devices[at[a]].key != "" && devices[at[a]].key == devices[at[b]].key;
      assert PortPolicy(preferred[a], r[a], legacy[a], devices, at, at[a]);
      assert PortPolicy(preferred[b], r[b], legacy[b], devices, at, at[b]);
    } else {
      forall a, b | 0 <= a < b < |r| && r[a].controller != ""
        ensures r[a].controller != r[b].controller
      {
        ClaimsStayApart(preferred, legacy, devices, r, at, a, b);
      }
    }
  }

  lemma ClaimsStayApart(preferred: seq<Slot>, legacy: seq<LegacyDevice>, devices: seq<Device>, r: seq<Slot>,
                        at: seq<int>, a: nat, b: nat)
    requires LegacyPolicy(preferred, legacy, devices, r, at) && Distinct(preferred) && !ClaimsShareKey(devices, at)
    requires a < b < |r| && r[a].controller != ""
    ensures r[a].controller != r[b].controller
  {
    assert PortPolicy(preferred[a], r[a], legacy[a], devices, at, at[a]);
    assert PortPolicy(preferred[b], r[b], legacy[b], devices, at, at[b]);
    if legacy[a].guid != "" && legacy[b].guid == "" {
      assert at[a] in at;
    } else if legacy[a].guid == "" && legacy[b].guid != "" && at[b] >= 0 {
      assert at[b] in at;
    }
  }

  /** Distinct keys suffice, whatever is claimed. */
  lemma DistinctKeysAreNotShared(devices: seq<Device>, at: seq<int>)
    requires DistinctKeys(devices) && forall a, b | 0 <= a < b < |at| && at[a] >= 0 :: at[a] != at[b]
    ensures !ClaimsShareKey(devices, at)
  {
    forall a, b | 0 <= a < b < |at| && 0 <= at[a] < |devices| && 0 <= at[b] < |devices|
      ensures devices[at[a]].key != devices[at[b]].key
    {
      assert at[a] != at[b];
      KeysDiffer(devices, at[a], at[b]);
    }
  }

  lemma KeysDiffer(devices: seq<Device>, i: nat, j: nat)
    requires DistinctKeys(devices) && i < |devices| && j < |devices| && i != j
    ensures devices[i].key != devices[j].key
  {
  }

  /** One hotplug as the frontend handles it: legacy reservations first, then reconcile over the same devices. */
  function Keys(devices: seq<Device>): (keys: seq<string>)
    ensures |keys| == |devices| && forall i | 0 <= i < |keys| :: keys[i] == devices[i].key
  {
    seq(|devices|, i requires 0 <= i < |devices| => devices[i].key)
  }

  function Hotplug(preferred: seq<Slot>, legacy: seq<LegacyDevice>, devices: seq<Device>): (r: (seq<Slot>, seq<Slot>))
    requires |legacy| == |preferred|
    ensures |r.0| == |r.1| == |preferred|
  {
    Reconcile(ResolveLegacy(preferred, legacy, devices), Keys(devices))
  }

  function HotplugAll(preferred: seq<Slot>, legacy: seq<LegacyDevice>,
                      history: seq<seq<Device>>): (r: (seq<Slot>, seq<Slot>))
    requires |legacy| == |preferred|
    ensures |r.0| == |r.1| == |preferred|
  {
    if history == [] then (preferred, preferred)
    else Hotplug(HotplugAll(preferred, legacy, history[..|history| - 1]).0, legacy, history[|history| - 1])
  }

  /** Over any history of duplicate-free device lists no controller is ever on two ports. */
  lemma {:induction false} NobodySitsTwice(preferred: seq<Slot>, legacy: seq<LegacyDevice>, history: seq<seq<Device>>)
    requires |legacy| == |preferred| && Distinct(preferred)
    requires forall t | 0 <= t < |history| :: DistinctKeys(history[t])
    ensures Distinct(HotplugAll(preferred, legacy, history).0) && Distinct(HotplugAll(preferred, legacy, history).1)
  {
    if history != [] {
      var last := |history| - 1;
      NobodySitsTwice(preferred, legacy, history[..last]);
      var p := HotplugAll(preferred, legacy, history[..last]).0;
      var at := ResolveLegacyMeetsPolicy(p, legacy, history[last]);
      DistinctKeysAreNotShared(history[last], at);
      PolicySeatsNobodyTwiceIff(p, legacy, history[last], ResolveLegacy(p, legacy, history[last]), at);
      ReconcileMeetsPolicy(ResolveLegacy(p, legacy, history[last]), Keys(history[last]));
    }
  }

  // ----- properties of automatic -----

  /** The first controllers in order, port by port, none of them reserved; the keyboard alone, at the first port and
      shared unless it is asked to be separate, when there is no controller. */
  lemma AutomaticSeatsInOrder(connected: seq<string>, separateKeyboard: bool, i: nat)
    requires i < PORTS
    ensures var slot := Automatic(connected, separateKeyboard)[i];
            && slot.controller == (if i < |connected| then connected[i] else "") && !slot.reserved
            && (slot.keyboard <==> i == 0 && |connected| == 0)
            && (slot.shareKeyboard <==> slot.keyboard && !separateKeyboard)
  {
  }

  /** A fresh automatic layout is already settled: the first controllers in order, and the keyboard only when there
      is none. */
  lemma AutomaticIsSettled(connected: seq<string>, separateKeyboard: bool)
    requires forall i, j | 0 <= i < j < |connected| :: connected[i] != connected[j]
    requires "" !in connected
    ensures var slots := Automatic(connected, separateKeyboard);
            Distinct(slots) && Reconcile(slots, connected) == (slots, slots)
  {
    var slots := Automatic(connected, separateKeyboard);
    forall i | 0 <= i < |slots|
      ensures !Absent(slots[i], connected)
    {
    }
    assert Forget(slots, connected) == slots && Visible(slots, connected) == slots;
    assert Full(slots, slots, connected) by {
      forall k | 0 <= k < |connected| && k < PORTS
        ensures Seated(slots, connected[k])
      {
        assert slots[k].controller == connected[k];
      }
      assert |connected| > PORTS ==> forall i | 0 <= i < PORTS :: slots[i].controller != "";
    }
    SettledStaysSettled(slots, slots, connected, |connected|);
    assert connected[..|connected|] == connected;
  }
}
