// resolve_pads: which open pad each configured port drives, exact identities first, then GUIDs.

module PadResolution {

  const PORTS: nat := 4
  const MAX_PADS: nat := 16

  datatype Pad = Pad(guid: string, uid: string)

  /** A configured port: `wantsPad` when it is connected and assigned a gamepad. */
  datatype Port = Port(wantsPad: bool, guid: string, uid: string)

  function Limit(pads: seq<Pad>): nat { if |pads| < MAX_PADS then |pads| else MAX_PADS }

  predicate IsPad(pads: seq<Pad>, i: int) { 0 <= i < Limit(pads) }

  /** The first unclaimed pad, from `i` on, that the port's key names; -1 if there is none. */
  function FirstPad(pads: seq<Pad>, taken: seq<int>, byUid: bool, key: string, i: nat): (r: int)
    requires i <= Limit(pads)
    ensures r == -1 || (i <= r < Limit(pads) && r !in taken && KeyOf(pads[r], byUid) == key)
    ensures forall k | i <= k < (if r == -1 then Limit(pads) else r) :: k in taken || KeyOf(pads[k], byUid) != key
    decreases Limit(pads) - i
  {
    if i == Limit(pads) then -1
    else if i !in taken && KeyOf(pads[i], byUid) == key then i
    else FirstPad(pads, taken, byUid, key, i + 1)
  }

  function KeyOf(pad: Pad, byUid: bool): string { if byUid then pad.uid else pad.guid }

  function PortKey(port: Port, byUid: bool): string { if byUid then port.uid else port.guid }

  predicate Asks(port: Port, byUid: bool, current: int) { port.wantsPad && current < 0 && PortKey(port, byUid) != "" }

  /** One pass over the first `n` ports, starting from the pads already given out. */
  function Pass(ports: seq<Port>, pads: seq<Pad>, start: seq<int>, byUid: bool, n: nat): (r: seq<int>)
    requires |start| == |ports| && n <= |ports|
    ensures |r| == |ports|
  {
    if n == 0 then start else
    var r := Pass(ports, pads, start, byUid, n - 1);
    if !Asks(ports[n - 1], byUid, r[n - 1]) then r
    else r[n - 1 := FirstPad(pads, r, byUid, PortKey(ports[n - 1], byUid), 0)]
  }

  function Nothing(n: nat): (r: seq<int>)
    ensures |r| == n && forall i | 0 <= i < n :: r[i] == -1
  {
    seq(n, _ => -1)
  }

  function Resolve(ports: seq<Port>, pads: seq<Pad>): (r: seq<int>)
    ensures |r| == |ports|
  {
    Pass(ports, pads, Pass(ports, pads, Nothing(|ports|), true, |ports|), false, |ports|)
  }

  // ----- what one pass keeps -----

  ghost predicate Injective(pads: seq<Pad>, r: seq<int>) {
    && (forall a | 0 <= a < |r| :: r[a] == -1 || IsPad(pads, r[a]))
    && (forall a, b | 0 <= a < b < |r| && r[a] >= 0 :: r[a] != r[b])
  }

  ghost predicate PortResolved(ports: seq<Port>, pads: seq<Pad>, start: seq<int>, byUid: bool, r: seq<int>, p: nat)
    requires p < |start| == |ports| == |r|
  {
    if !Asks(ports[p], byUid, start[p]) then r[p] == start[p]
    else if r[p] >= 0 then IsPad(pads, r[p]) && r[p] !in start && KeyOf(pads[r[p]], byUid) == PortKey(ports[p], byUid)
    else r[p] == -1 && forall k | 0 <= k < Limit(pads) && KeyOf(pads[k], byUid) == PortKey(ports[p], byUid) :: k in r
  }

  lemma {:induction false} PassMeetsSpec(ports: seq<Port>, pads: seq<Pad>, start: seq<int>, byUid: bool, n: nat)
    requires |start| == |ports| && n <= |ports| && Injective(pads, start)
    ensures var r := Pass(ports, pads, start, byUid, n);
            && Injective(pads, r)
            && (forall p | 0 <= p < n :: PortResolved(ports, pads, start, byUid, r, p))
            && (forall p | n <= p < |ports| :: r[p] == start[p])
            && (forall i | i in start && i >= 0 :: i in r)
  {
    if n > 0 {
      PassMeetsSpec(ports, pads, start, byUid, n - 1);
      var before := Pass(ports, pads, start, byUid, n - 1);
      var r := Pass(ports, pads, start, byUid, n);
      assert PortResolved(ports, pads, start, byUid, before, n - 1) || Asks(ports[n - 1], byUid, start[n - 1]);
      GiveOne(ports, pads, byUid, before, n - 1, r);
      hide Pass, Injective;
      forall p | 0 <= p < n
        ensures PortResolved(ports, pads, start, byUid, r, p)
      {
        if p < n - 1 {
          assert PortResolved(ports, pads, start, byUid, before, p);
        }
      }
    }
  }

  /** One port of a pass: it gets the first free pad it asks for, or none, and no other port notices. */
  lemma GiveOne(ports: seq<Port>, pads: seq<Pad>, byUid: bool, before: seq<int>, p: nat, r: seq<int>)
    requires p < |ports| == |before| && Injective(pads, before)
    requires r == if !Asks(ports[p], byUid, before[p]) then before
                  else before[p := FirstPad(pads, before, byUid, PortKey(ports[p], byUid), 0)]
    ensures Injective(pads, r) && forall i | i in before && i >= 0 :: i in r
  {
    forall i | i >= 0 && i in before
      ensures i in r
    {
      var q :| 0 <= q < |before| && before[q] == i;
      assert r[q] == i;
    }
  }

  /** No pad drives two ports, and only the first sixteen drive any. */
  lemma NoPadDrivesTwoPorts(ports: seq<Port>, pads: seq<Pad>)
    ensures Injective(pads, Resolve(ports, pads))
    ensures forall p | 0 <= p < |ports| :: var i := Resolve(ports, pads)[p]; i == -1 || (0 <= i < |pads| && i < 16)
  {
    PassMeetsSpec(ports, pads, Nothing(|ports|), true, |ports|);
    PassMeetsSpec(ports, pads, Pass(ports, pads, Nothing(|ports|), true, |ports|), false, |ports|);
  }

  // ----- exact identities win -----

  lemma {:induction false} EarlierPassPorts(ports: seq<Port>, pads: seq<Pad>, start: seq<int>, byUid: bool, m: nat,
                                            n: nat)
    requires |start| == |ports| && m <= n <= |ports|
    ensures forall p | 0 <= p < m :: Pass(ports, pads, start, byUid, n)[p] == Pass(ports, pads, start, byUid, m)[p]
  {
    if m < n {
      EarlierPassPorts(ports, pads, start, byUid, m, n - 1);
    }
  }

  lemma {:induction false} LaterPortsWait(ports: seq<Port>, pads: seq<Pad>, start: seq<int>, byUid: bool, n: nat)
    requires |start| == |ports| && n <= |ports|
    ensures Pass(ports, pads, start, byUid, n)[n..] == start[n..]
  {
    if n > 0 {
      LaterPortsWait(ports, pads, start, byUid, n - 1);
      var before := Pass(ports, pads, start, byUid, n - 1);
      assert forall p | n <= p < |ports| :: before[p] == before[n - 1..][p - (n - 1)] == start[p];
    }
  }

  /** Ports are served in order: a pad that an asking port was passed over for was given out before, to a lower port or
      by an earlier pass. */
  lemma ServedInOrder(ports: seq<Port>, pads: seq<Pad>, start: seq<int>, byUid: bool, p: nat, k: nat)
    requires |start| == |ports| && p < |ports| && Asks(ports[p], byUid, start[p])
    requires k < |pads| && k < 16 && KeyOf(pads[k], byUid) == PortKey(ports[p], byUid)
    ensures var r := Pass(ports, pads, start, byUid, |ports|);
            r[p] == -1 || k < r[p] ==> k in r[..p] || k in start[p..]
  {
    PassedOver(ports, pads, start, byUid, p, k);
    LaterPortsWait(ports, pads, start, byUid, p);
    EarlierPassPorts(ports, pads, start, byUid, p, |ports|);
    EarlierPassPorts(ports, pads, start, byUid, p + 1, |ports|);
    hide *;
    var r, before := Pass(ports, pads, start, byUid, |ports|), Pass(ports, pads, start, byUid, p);
    if r[p] == -1 || k < r[p] {
      InEither(before, r, start, p, k);
    }
  }

  lemma PassedOver(ports: seq<Port>, pads: seq<Pad>, start: seq<int>, byUid: bool, p: nat, k: nat)
    requires |start| == |ports| && p < |ports| && Asks(ports[p], byUid, start[p])
    requires k < |pads| && k < 16 && KeyOf(pads[k], byUid) == PortKey(ports[p], byUid)
    ensures var i := Pass(ports, pads, start, byUid, p + 1)[p];
            i == -1 || k < i ==> k in Pass(ports, pads, start, byUid, p)
  {
    var before := Pass(ports, pads, start, byUid, p);
    LaterPortsWait(ports, pads, start, byUid, p);
    assert before[p..][0] == start[p..][0];
    assert Pass(ports, pads, start, byUid, p + 1)[p] == FirstPad(pads, before, byUid, PortKey(ports[p], byUid), 0);
    hide Pass;
  }

  lemma InEither(before: seq<int>, r: seq<int>, start: seq<int>, p: nat, k: int)
    requires p <= |before| == |r| == |start| && k in before
    requires before[p..] == start[p..] && forall q | 0 <= q < p :: r[q] == before[q]
    ensures k in r[..p] || k in start[p..]
  {
    var q :| 0 <= q < |before| && before[q] == k;
    if q < p {
      assert r[..p][q] == k;
    } else {
      assert before[p..][q - p] == k;
    }
  }

  /** Until the first port that names it, a uid's pad is free. */
  lemma ExactUidFree(ports: seq<Port>, pads: seq<Pad>, p: nat, i: nat)
    requires p < |ports| && i < Limit(pads) && pads[i].uid == ports[p].uid
    requires forall q | 0 <= q < p && ports[q].wantsPad :: ports[q].uid != ports[p].uid
    ensures var before := Pass(ports, pads, Nothing(|ports|), true, p);
            i !in before && before[p] == -1
  {
    var start := Nothing(|ports|);
    var before := Pass(ports, pads, start, true, p);
    PassMeetsSpec(ports, pads, start, true, p);
    hide Pass;
    forall q | 0 <= q < |ports|
      ensures before[q] != i
    {
      if q < p {
        assert PortResolved(ports, pads, start, true, before, q);
      }
    }
  }

  /** The first port that names the uid of a connected pad gets the first such pad, whatever others fall back on. */
  lemma ExactUidWins(ports: seq<Port>, pads: seq<Pad>, p: nat, i: nat)
    requires p < |ports| && ports[p].wantsPad && ports[p].uid != ""
    requires forall q | 0 <= q < p && ports[q].wantsPad :: ports[q].uid != ports[p].uid
    requires i < |pads| && i < 16 && pads[i].uid == ports[p].uid && forall k | 0 <= k < i :: pads[k].uid != ports[p].uid
    ensures Resolve(ports, pads)[p] == i
  {
    var start := Nothing(|ports|);
    ExactUidFree(ports, pads, p, i);
    assert Pass(ports, pads, start, true, p + 1)[p] == i;
    hide Pass;
    EarlierPassPorts(ports, pads, start, true, p + 1, |ports|);
    var first := Pass(ports, pads, start, true, |ports|);
    PassMeetsSpec(ports, pads, start, true, |ports|);
    PassMeetsSpec(ports, pads, first, false, |ports|);
    assert PortResolved(ports, pads, first, false, Resolve(ports, pads), p);
  }

  // ----- the fallback is a maximum matching -----

  /** Wherever a port and a pad share a uid they share the GUID. */
  ghost predicate UidsNameGuids(ports: seq<Port>, pads: seq<Pad>) {
    forall p, i | 0 <= p < |ports| && 0 <= i < Limit(pads) && ports[p].wantsPad && ports[p].uid != "" ::
      ports[p].uid == pads[i].uid ==> ports[p].guid == pads[i].guid
  }

  function Wanting(ports: seq<Port>, guid: string): set<nat> {
    set p: nat | p < |ports| && ports[p].wantsPad && ports[p].guid == guid
  }

  function Resolved(ports: seq<Port>, r: seq<int>, guid: string): set<nat>
    requires |r| == |ports|
  {
    set p | p in Wanting(ports, guid) && r[p] >= 0
  }

  function Available(pads: seq<Pad>, guid: string): set<nat> {
    set i: nat | i < |pads| && i < 16 && pads[i].guid == guid
  }

  function Min(a: nat, b: nat): nat { if a < b then a else b }

  function Image(group: set<nat>, r: seq<int>): set<nat>
    requires forall p | p in group :: p < |r| && r[p] >= 0
  {
    set p: nat | p in group :: r[p]
  }

  /** Distinct values over a set of ports: as many values as ports. */
  lemma {:induction false} ImageHasSameSize(group: set<nat>, r: seq<int>)
    requires forall p | p in group :: p < |r| && r[p] >= 0
    requires forall a, b | a in group && b in group && a != b :: r[a] != r[b]
    ensures |Image(group, r)| == |group|
  {
    if group == {} {
      assert Image(group, r) == {};
    } else {
      var p :| p in group;
      ImageHasSameSize(group - {p}, r);
      assert Image(group, r) == Image(group - {p}, r) + {r[p]};
    }
  }

  lemma SubsetIsNoLarger(a: set<nat>, b: set<nat>)
    requires a <= b
    ensures |a| <= |b| && (|a| == |b| ==> a == b)
  {
    assert b == a + (b - a);
  }

  /** Pads of the group are given only to ports of the group, and a port of the group only such a pad. */
  lemma ClaimsStayInGroup(ports: seq<Port>, pads: seq<Pad>, p: nat)
    requires p < |ports| && UidsNameGuids(ports, pads) && Resolve(ports, pads)[p] >= 0
    ensures var i := Resolve(ports, pads)[p];
            IsPad(pads, i) && ports[p].wantsPad && pads[i].guid == ports[p].guid
  {
    var start := Nothing(|ports|);
    var first := Pass(ports, pads, start, true, |ports|);
    PassMeetsSpec(ports, pads, start, true, |ports|);
    PassMeetsSpec(ports, pads, first, false, |ports|);
    assert PortResolved(ports, pads, start, true, first, p);
    assert PortResolved(ports, pads, first, false, Resolve(ports, pads), p);
  }

  lemma UnresolvedMeansAllClaimed(ports: seq<Port>, pads: seq<Pad>, guid: string, p: nat, i: nat)
    requires guid != "" && p in Wanting(ports, guid) && Resolve(ports, pads)[p] < 0 && i in Available(pads, guid)
    ensures i in Resolve(ports, pads)
  {
    var start := Nothing(|ports|);
    var first := Pass(ports, pads, start, true, |ports|);
    PassMeetsSpec(ports, pads, start, true, |ports|);
    PassMeetsSpec(ports, pads, first, false, |ports|);
    assert PortResolved(ports, pads, start, true, first, p);
    assert PortResolved(ports, pads, first, false, Resolve(ports, pads), p);
  }

  /** Of the ports wanting a GUID exactly as many are resolved as there are pads for: a maximum matching. */
  lemma GroupsAreMaximallyMatched(ports: seq<Port>, pads: seq<Pad>, guid: string)
    requires guid != "" && UidsNameGuids(ports, pads)
    ensures |Resolved(ports, Resolve(ports, pads), guid)| == Min(|Wanting(ports, guid)|, |Available(pads, guid)|)
  {
    var r := Resolve(ports, pads);
    NoPadDrivesTwoPorts(ports, pads);
    hide Resolve;
    var group := Resolved(ports, r, guid);
    var image := Image(group, r);
    forall p | p in group
      ensures r[p] in Available(pads, guid)
    {
      ClaimsStayInGroup(ports, pads, p);
    }
    ImageHasSameSize(group, r);
    SubsetIsNoLarger(image, Available(pads, guid));
    SubsetIsNoLarger(group, Wanting(ports, guid));
    if group != Wanting(ports, guid) {
      var p :| p in Wanting(ports, guid) && p !in group;
      AllPadsOfGroupGiven(ports, pads, guid, p);
      SubsetIsNoLarger(Available(pads, guid), image);
    }
  }

  lemma AllPadsOfGroupGiven(ports: seq<Port>, pads: seq<Pad>, guid: string, p: nat)
    requires guid != "" && UidsNameGuids(ports, pads) && p in Wanting(ports, guid) && Resolve(ports, pads)[p] < 0
    ensures Available(pads, guid) <= Image(Resolved(ports, Resolve(ports, pads), guid), Resolve(ports, pads))
  {
    var r := Resolve(ports, pads);
    hide Resolve;
    forall i | i in Available(pads, guid)
      ensures i in Image(Resolved(ports, r, guid), r)
    {
      UnresolvedMeansAllClaimed(ports, pads, guid, p, i);
      var q :| 0 <= q < |r| && r[q] == i;
      ClaimsStayInGroup(ports, pads, q);
      assert q in Resolved(ports, r, guid);
    }
  }

  // ----- resolve_pads as the source runs it -----

  method ResolvePads(ports: seq<Port>, pads: seq<Pad>) returns (portPad: array<int>, claimed: array<bool>)
    requires |ports| == PORTS
    ensures portPad[..] == Resolve(ports, pads)
    ensures claimed.Length == MAX_PADS && forall i | 0 <= i < MAX_PADS :: claimed[i] <==> i in portPad[..]
  {
    portPad := new int[PORTS](_ => -1);
    claimed := new bool[MAX_PADS](_ => false);
    ghost var start := Nothing(PORTS);
    assert portPad[..] == start;
    RunPass(ports, pads, portPad, claimed, true);
    RunPass(ports, pads, portPad, claimed, false);
  }

  method RunPass(ports: seq<Port>, pads: seq<Pad>, portPad: array<int>, claimed: array<bool>, byUid: bool)
    requires |ports| == portPad.Length == PORTS && claimed.Length == MAX_PADS
    requires forall i | 0 <= i < MAX_PADS :: claimed[i] <==> i in portPad[..]
    requires forall p | 0 <= p < PORTS :: portPad[p] >= -1
    modifies portPad, claimed
    ensures portPad[..] == Pass(ports, pads, old(portPad[..]), byUid, PORTS)
    ensures forall i | 0 <= i < MAX_PADS :: claimed[i] <==> i in portPad[..]
    ensures forall p | 0 <= p < PORTS :: portPad[p] >= -1
  {
    ghost var start := portPad[..];
    for port := 0 to PORTS
      invariant portPad[..] == Pass(ports, pads, start, byUid, port)
      invariant forall i | 0 <= i < MAX_PADS :: claimed[i] <==> i in portPad[..]
      invariant forall p | 0 <= p < PORTS :: portPad[p] >= -1
    {
      var key := PortKey(ports[port], byUid);
      if !ports[port].wantsPad || portPad[port] >= 0 || key == "" {
        continue;
      }
      ghost var before := portPad[..];
      assert before[port] == -1;
      var i := FindPad(pads, claimed, byUid, key, before);
      if i < Limit(pads) {
        portPad[port] := i;
        claimed[i] := true;
      }
      assert portPad[..] == before[port := FirstPad(pads, before, byUid, key, 0)];
      forall k | 0 <= k < MAX_PADS
        ensures claimed[k] <==> k in portPad[..]
      {
        ClaimedAfter(before, portPad[..], port, k);
      }
    }
  }

  /** The inner loop: the first unclaimed pad with the key, or the number of pads looked at. */
  method FindPad(pads: seq<Pad>, claimed: array<bool>, byUid: bool, key: string, ghost taken: seq<int>) returns (i: nat)
    requires claimed.Length == MAX_PADS && forall k | 0 <= k < MAX_PADS :: claimed[k] <==> k in taken
    ensures i <= Limit(pads) && FirstPad(pads, taken, byUid, key, 0) == if i < Limit(pads) then i else -1
  {
    i := 0;
    while i < |pads| && i < MAX_PADS
      invariant i <= Limit(pads)
      invariant FirstPad(pads, taken, byUid, key, 0) == FirstPad(pads, taken, byUid, key, i)
    {
      if !claimed[i] && KeyOf(pads[i], byUid) == key {
        break;
      }
      i := i + 1;
    }
  }

  lemma ClaimedAfter(before: seq<int>, after: seq<int>, port: nat, k: nat)
    requires port < |before| && before[port] == -1 && |after| == |before| && after == before[port := after[port]]
    ensures k in after <==> k in before || k == after[port]
  {
    if k in before {
      var q :| 0 <= q < |before| && before[q] == k;
      assert after[q] == k;
    }
  }
}
