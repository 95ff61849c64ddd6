// What the identities of the open controllers give the code that resolves ports to them: matching GUIDs.

module PadIdentity {
  import opened PadRegistry
  import PadResolution

  /** Every plug in the history has a GUID of n characters. */
  ghost predicate GuidLength(events: seq<Event>, n: nat) {
    forall e | e in events && e.Added? :: |e.guid| == n
  }

  lemma {:induction false} TrackedGuids(events: seq<Event>, n: nat)
    requires GuidLength(events, n)
    ensures forall pad | pad in Replay(events) :: |pad.guid| == n
  {
    if events != [] {
      var front, last := events[..|events| - 1], events[|events| - 1];
      assert last in events;
      TrackedGuids(front, n);
      AppliedGuids(Replay(front), last, n);
    }
  }

  lemma AppliedGuids(pads: seq<OpenPad>, e: Event, n: nat)
    requires (forall pad | pad in pads :: |pad.guid| == n) && (e.Added? ==> |e.guid| == n)
    ensures forall pad | pad in Apply(pads, e) :: |pad.guid| == n
  {
    hide UidFor;
  }

  // ----- resolve_pads over the open controllers -----

  /** The open controllers as resolve_pads sees them. */
  function Seen(pads: seq<OpenPad>): (r: seq<PadResolution.Pad>)
    ensures |r| == |pads| && forall i | 0 <= i < |r| :: r[i] == PadResolution.Pad(pads[i].guid, pads[i].uid)
  {
    seq(|pads|, i requires 0 <= i < |pads| => PadResolution.Pad(pads[i].guid, pads[i].uid))
  }

  /** The port names a controller some history tracked, by identity and GUID, or no identity at all. */
  ghost predicate ConfiguredFrom(port: PadResolution.Port, history: seq<Event>, n: nat) {
    GuidLength(history, n)
    && (port.wantsPad && port.uid != "" ==>
          exists k ::
            0 <= k < |Replay(history)| && Replay(history)[k].guid == port.guid && Replay(history)[k].uid == port.uid)
  }

  /** Ports configured from the controllers of any earlier sessions share an identity only with pads of their GUID. */
  lemma ConfiguredUidsNameGuids(ports: seq<PadResolution.Port>, histories: seq<seq<Event>>, events: seq<Event>, n: nat)
    requires |histories| == |ports| && GuidLength(events, n)
    requires forall p | 0 <= p < |ports| :: ConfiguredFrom(ports[p], histories[p], n)
    ensures PadResolution.UidsNameGuids(ports, Seen(Replay(events)))
  {
    var pads := Replay(events);
    TrackedGuids(events, n);
    PadsStayDistinct(events);
    forall p, i | 0 <= p < |ports| && 0 <= i < |pads| && ports[p].wantsPad && ports[p].uid != ""
                  && ports[p].uid == pads[i].uid
      ensures ports[p].guid == pads[i].guid
    {
      assert ConfiguredFrom(ports[p], histories[p], n);
      ConfiguredUidStartsWithGuid(ports[p], histories[p], n);
      assert pads[i] in pads;
      EqualUidsMeanEqualGuids(ports[p].guid, pads[i].guid, pads[i].uid);
    }
  }

  lemma ConfiguredUidStartsWithGuid(port: PadResolution.Port, history: seq<Event>, n: nat)
    requires ConfiguredFrom(port, history, n) && port.wantsPad && port.uid != ""
    ensures |port.guid| == n && port.guid + "!" <= port.uid
  {
    var k :| 0 <= k < |Replay(history)| && Replay(history)[k].guid == port.guid && Replay(history)[k].uid == port.uid;
    TrackedGuids(history, n);
    PadsStayDistinct(history);
    assert Replay(history)[k] in Replay(history);
  }

  /** So over every plugging history each GUID group resolves exactly min(ports wanting it, such pads looked at). */
  lemma ConfiguredGroupsAreMaximallyMatched(ports: seq<PadResolution.Port>, histories: seq<seq<Event>>,
                                            events: seq<Event>, n: nat, guid: string)
    requires |histories| == |ports| && GuidLength(events, n) && guid != ""
    requires forall p | 0 <= p < |ports| :: ConfiguredFrom(ports[p], histories[p], n)
    ensures var pads := Seen(Replay(events));
            |PadResolution.Resolved(ports, PadResolution.Resolve(ports, pads), guid)| ==
            PadResolution.Min(|PadResolution.Wanting(ports, guid)|, |PadResolution.Available(pads, guid)|)
  {
    ConfiguredUidsNameGuids(ports, histories, events, n);
    PadResolution.GroupsAreMaximallyMatched(ports, Seen(Replay(events)), guid);
  }
}
