// The open controllers: how each gets an identity, and what every plug and unplug keeps.

module PadRegistry {

  datatype OpenPad = OpenPad(id: int, guid: string, uid: string, name: string)

  datatype Event = Added(id: int, guid: string, serial: string, name: string) | Removed(id: int)

  // ----- decimal numerals -----

  function Digit(n: nat): char
    requires n < 10
  {
    "0123456789"[n]
  }

  function ToString(n: nat): string {
    if n < 10 then [Digit(n)] else ToString(n / 10) + [Digit(n % 10)]
  }

  function Value(s: string): int {
    if s == [] then 0 else 10 * Value(s[..|s| - 1]) + (s[|s| - 1] as int - '0' as int)
  }

  lemma DigitValue(n: nat)
    requires n < 10
    ensures Digit(n) as int - '0' as int == n
  {
  }

  lemma {:induction false} NumeralRoundTrip(n: nat)
    ensures Value(ToString(n)) == n
  {
    if n < 10 {
      DigitValue(n);
      assert [Digit(n)][..0] == [];
    } else {
      NumeralRoundTrip(n / 10);
      DigitValue(n % 10);
      assert (ToString(n / 10) + [Digit(n % 10)])[..|ToString(n / 10)|] == ToString(n / 10);
    }
  }

  /** Decimal digits, the first of them 0 for zero only. */
  ghost predicate IsNumeral(s: string) {
    && s != [] && (forall i | 0 <= i < |s| :: '0' <= s[i] <= '9')
    && (s[0] == '0' ==> |s| == 1)
  }

  lemma {:induction false} NumeralIsDecimal(n: nat)
    ensures IsNumeral(ToString(n)) && (ToString(n)[0] == '0' <==> n == 0)
  {
    if n >= 10 {
      NumeralIsDecimal(n / 10);
      var front := ToString(n / 10);
      assert ToString(n)[0] == front[0];
    }
  }

  /** A numeral of more than one digit: a shorter one, not zero, and a digit. */
  lemma NumeralFront(s: string)
    requires IsNumeral(s) && |s| > 1
    ensures var front, d := s[..|s| - 1], s[|s| - 1] as int - '0' as int;
            IsNumeral(front) && front[0] != '0' && 0 <= d < 10 && Value(s) == 10 * Value(front) + d
  {
    assert s[..|s| - 1][0] == s[0] && forall i | 0 <= i < |s| - 1 :: s[..|s| - 1][i] == s[i];
  }

  lemma OneDigit(s: string)
    requires IsNumeral(s) && |s| == 1
    ensures Value(s) >= 0 && ToString(Value(s)) == s
  {
    LastDigit(s[0] as int - '0' as int);
    assert s[..0] == [];
  }

  lemma {:induction false} NumeralBack(s: string)
    requires IsNumeral(s)
    ensures Value(s) >= 0 && ToString(Value(s)) == s
    decreases |s|
  {
    assert s != [];
    hide *;
    if |s| == 1 {
      OneDigit(s);
    } else {
      var front, d := s[..|s| - 1], s[|s| - 1] as int - '0' as int;
      NumeralFront(s);
      NumeralIsPositive(front);
      NumeralBack(front);
      LastDigit(d);
      OneMoreDigit(Value(front), d);
      assert s == front + [s[|s| - 1]];
    }
  }

  lemma OneMoreDigit(v: nat, d: nat)
    requires v >= 1 && d < 10
    ensures ToString(10 * v + d) == ToString(v) + [Digit(d)]
  {
    assert (10 * v + d) / 10 == v && (10 * v + d) % 10 == d;
  }

  /** The numeral of n is the one string of decimal digits, without leading zeros, whose value is n. */
  lemma NumeralIff(n: nat, s: string)
    ensures s == ToString(n) <==> IsNumeral(s) && Value(s) == n
  {
    NumeralRoundTrip(n);
    NumeralIsDecimal(n);
    hide *;
    if IsNumeral(s) {
      NumeralBack(s);
    }
  }

  lemma LastDigit(d: nat)
    requires d < 10
    ensures Digit(d) == ('0' as int + d) as char
  {
  }

  lemma {:induction false} NumeralIsPositive(s: string)
    requires IsNumeral(s) && s[0] != '0'
    ensures Value(s) >= 1
  {
    var front := s[..|s| - 1];
    if front == [] {
      assert Value(front) == 0;
    } else {
      assert front[0] == s[0] && forall i | 0 <= i < |front| :: front[i] == s[i];
      NumeralIsPositive(front);
    }
  }

  // ----- identities -----

  predicate UidTaken(pads: seq<OpenPad>, uid: string) { exists k :: 0 <= k < |pads| && pads[k].uid == uid }

  predicate IdTracked(pads: seq<OpenPad>, id: int) { exists k :: 0 <= k < |pads| && pads[k].id == id }

  function SerialUid(guid: string, serial: string): string { guid + "!" + serial }

  function OrdinalUid(guid: string, n: nat): string { guid + "!#" + ToString(n) }

  lemma OrdinalUidsDiffer(guid: string, m: nat, n: nat)
    requires OrdinalUid(guid, m) == OrdinalUid(guid, n)
    ensures m == n
  {
    var at := |guid + "!#"|;
    assert OrdinalUid(guid, m)[at..] == ToString(m) && OrdinalUid(guid, n)[at..] == ToString(n);
    NumeralRoundTrip(m);
    NumeralRoundTrip(n);
  }

  function Uids(pads: seq<OpenPad>): (u: set<string>)
    ensures |u| <= |pads| && forall x :: x in u <==> UidTaken(pads, x)
  {
    if pads == [] then {} else
    UidsStep(pads);
    Uids(pads[..|pads| - 1]) + {pads[|pads| - 1].uid}
  }

  lemma UidsStep(pads: seq<OpenPad>)
    requires pads != []
    ensures forall uid :: UidTaken(pads, uid) <==> uid == pads[|pads| - 1].uid || UidTaken(pads[..|pads| - 1], uid)
  {
    var last := |pads| - 1;
    forall uid
      ensures UidTaken(pads, uid) <==> uid == pads[last].uid || UidTaken(pads[..last], uid)
    {
      if k :| 0 <= k < last && pads[k].uid == uid {
        assert pads[..last][k].uid == uid;
      }
    }
  }

  /** Pigeonhole: n taken ordinals need n identities. */
  lemma {:induction false} TakenOrdinalsNeedPads(guid: string, n: nat, uids: set<string>)
    requires forall k: nat | 1 <= k <= n :: OrdinalUid(guid, k) in uids
    ensures |uids| >= n
  {
    if n > 0 {
      var top := OrdinalUid(guid, n);
      forall k: nat | 1 <= k <= n - 1
        ensures OrdinalUid(guid, k) in uids - {top}
      {
        if OrdinalUid(guid, k) == top {
          OrdinalUidsDiffer(guid, k, n);
        }
      }
      TakenOrdinalsNeedPads(guid, n - 1, uids - {top});
    }
  }

  lemma SearchIsBounded(pads: seq<OpenPad>, guid: string, n: nat)
    requires n >= 1 && forall k: nat | 1 <= k < n :: UidTaken(pads, OrdinalUid(guid, k))
    ensures n <= |pads| + 1
  {
    TakenOrdinalsNeedPads(guid, n - 1, Uids(pads));
  }

  /** The smallest free ordinal, from `n` on. */
  function FreeOrdinal(pads: seq<OpenPad>, guid: string, n: nat): (r: nat)
    requires n >= 1 && forall k: nat | 1 <= k < n :: UidTaken(pads, OrdinalUid(guid, k))
    ensures n <= r <= |pads| + 1 && !UidTaken(pads, OrdinalUid(guid, r))
    ensures forall k: nat | 1 <= k < r :: UidTaken(pads, OrdinalUid(guid, k))
    decreases |pads| + 2 - n
  {
    SearchIsBounded(pads, guid, n);
    if UidTaken(pads, OrdinalUid(guid, n)) then
      SearchIsBounded(pads, guid, n + 1);
      FreeOrdinal(pads, guid, n + 1)
    else n
  }

  function UidFor(pads: seq<OpenPad>, guid: string, serial: string): (uid: string)
    ensures !UidTaken(pads, uid) && guid + "!" <= uid
  {
    if serial != "" && !UidTaken(pads, SerialUid(guid, serial)) then SerialUid(guid, serial)
    else OrdinalUid(guid, FreeOrdinal(pads, guid, 1))
  }

  // ----- plugging and unplugging -----

  function Add(pads: seq<OpenPad>, id: int, guid: string, serial: string, name: string): seq<OpenPad> {
    if IdTracked(pads, id) then pads else pads + [OpenPad(id, guid, UidFor(pads, guid, serial), name)]
  }

  function IndexOfId(pads: seq<OpenPad>, id: int, i: nat): (r: nat)
    requires i <= |pads|
    ensures i <= r <= |pads| && (r < |pads| ==> pads[r].id == id) && forall k | i <= k < r :: pads[k].id != id
    decreases |pads| - i
  {
    if i == |pads| || pads[i].id == id then i else IndexOfId(pads, id, i + 1)
  }

  function Remove(pads: seq<OpenPad>, id: int): seq<OpenPad> {
    var i := IndexOfId(pads, id, 0);
    if i == |pads| then pads else pads[..i] + pads[i + 1..]
  }

  function Replay(events: seq<Event>): seq<OpenPad> {
    if events == [] then [] else
    Apply(Replay(events[..|events| - 1]), events[|events| - 1])
  }

  ghost predicate Distinct(pads: seq<OpenPad>) {
    && (forall a, b | 0 <= a < b < |pads| :: pads[a].id != pads[b].id)
    && (forall a, b | 0 <= a < b < |pads| :: pads[a].uid != pads[b].uid)
    && (forall a | 0 <= a < |pads| :: pads[a].guid + "!" <= pads[a].uid)
  }

  /** An unplug removes exactly the pad named, and a pad not tracked is not missed. */
  lemma RemoveRemovesOne(pads: seq<OpenPad>, id: int)
    requires Distinct(pads)
    ensures !IdTracked(Remove(pads, id), id) && Distinct(Remove(pads, id))
    ensures forall k | 0 <= k < |pads| && pads[k].id != id :: pads[k] in Remove(pads, id)
    ensures |Remove(pads, id)| == if IdTracked(pads, id) then |pads| - 1 else |pads|
  {
    var i := IndexOfId(pads, id, 0);
    if i < |pads| {
      DropOne(pads, i);
      assert Remove(pads, id) == pads[..i] + pads[i + 1..];
    }
  }

  lemma DropOne(pads: seq<OpenPad>, i: nat)
    requires Distinct(pads) && i < |pads|
    ensures var rest := pads[..i] + pads[i + 1..];
            Distinct(rest) && !IdTracked(rest, pads[i].id) && forall k | 0 <= k < |pads| && k != i :: pads[k] in rest
  {
    var rest := pads[..i] + pads[i + 1..];
    assert forall k | 0 <= k < |rest| :: rest[k] == if k < i then pads[k] else pads[k + 1];
    RestIsDistinct(pads, i, rest);
    hide Distinct;
    forall k | 0 <= k < |pads| && k != i
      ensures pads[k] in rest
    {
      assert pads[k] == if k < i then rest[k] else rest[k - 1];
    }
  }

  lemma RestIsDistinct(pads: seq<OpenPad>, i: nat, rest: seq<OpenPad>)
    requires Distinct(pads) && i < |pads| == |rest| + 1
    requires forall k {:trigger rest[k]} | 0 <= k < |rest| :: rest[k] == if k < i then pads[k] else pads[k + 1]
    ensures Distinct(rest) && !IdTracked(rest, pads[i].id)
  {
  }

  lemma AddKeepsDistinct(pads: seq<OpenPad>, id: int, guid: string, serial: string, name: string)
    requires Distinct(pads)
    ensures Distinct(Add(pads, id, guid, serial, name))
  {
    hide UidFor;
    assert !UidTaken(pads, UidFor(pads, guid, serial));
  }

  function Apply(pads: seq<OpenPad>, event: Event): seq<OpenPad> {
    match event
    case Added(id, guid, serial, name) => Add(pads, id, guid, serial, name)
    case Removed(id) => Remove(pads, id)
  }

  lemma ReplayOne(events: seq<Event>, event: Event)
    ensures Replay(events + [event]) == Apply(Replay(events), event)
  {
    assert (events + [event])[..|events|] == events;
  }

  /** Through every history tracked pads keep distinct ids and uids, and each uid starts with its pad's GUID. */
  lemma {:induction false} PadsStayDistinct(events: seq<Event>)
    ensures Distinct(Replay(events))
  {
    if events != [] {
      hide Add, Remove, Distinct;
      PadsStayDistinct(events[..|events| - 1]);
      var pads := Replay(events[..|events| - 1]);
      match events[|events| - 1]
      case Added(id, guid, serial, name) => AddKeepsDistinct(pads, id, guid, serial, name);
      case Removed(id) => RemoveRemovesOne(pads, id);
    } else {
      assert Distinct([]);
    }
  }

  /** A serial-less pad gets ordinal n if and only if n is free and every smaller one is taken. */
  lemma OrdinalIsGivenIff(pads: seq<OpenPad>, id: int, guid: string, name: string, n: nat)
    requires !IdTracked(pads, id) && n >= 1
    ensures Add(pads, id, guid, "", name)[|pads|].uid == OrdinalUid(guid, n) <==>
            !UidTaken(pads, OrdinalUid(guid, n)) && forall k: nat | 1 <= k < n :: UidTaken(pads, OrdinalUid(guid, k))
  {
    var r := FreeOrdinal(pads, guid, 1);
    hide FreeOrdinal, OrdinalUid;
    if OrdinalUid(guid, r) == OrdinalUid(guid, n) {
      OrdinalUidsDiffer(guid, r, n);
    }
  }

  ghost predicate Held(pads: seq<OpenPad>, uid: string) { exists k :: 0 <= k < |pads| && pads[k].uid == uid }

  ghost predicate SmallestFree(pads: seq<OpenPad>, guid: string, uid: string, n: nat) {
    && uid == guid + "!#" + ToString(n) && !Held(pads, uid)
    && forall k: nat | 1 <= k < n :: Held(pads, guid + "!#" + ToString(k))
  }

  /** What a new pad gets: its GUID and serial, when it has one and nobody holds that; else the smallest ordinal of its
      GUID that nobody holds. Nobody else changes. */
  lemma NewPadIdentity(pads: seq<OpenPad>, id: int, guid: string, serial: string, name: string)
    requires forall k | 0 <= k < |pads| :: pads[k].id != id
    ensures var after := Add(pads, id, guid, serial, name);
            && |after| == |pads| + 1 && after[..|pads|] == pads
            && var pad := after[|pads|];
               && pad.id == id && pad.guid == guid && pad.name == name
               && if serial != "" && !Held(pads, guid + "!" + serial) then pad.uid == guid + "!" + serial
                  else exists n: nat :: n >= 1 && SmallestFree(pads, guid, pad.uid, n)
  {
    if serial == "" || Held(pads, guid + "!" + serial) {
      var n := FreeOrdinal(pads, guid, 1);
      var uid := UidFor(pads, guid, serial);
      assert uid == OrdinalUid(guid, n);
      hide FreeOrdinal, UidFor, ToString;
      forall k: nat | 1 <= k < n
        ensures Held(pads, guid + "!#" + ToString(k))
      {
        assert UidTaken(pads, OrdinalUid(guid, k));
      }
      assert SmallestFree(pads, guid, uid, n);
    }
  }

  /** A pad with a serial gets the same identity back on every replug, through any events in between, if and only if
      nobody holds it then. */
  lemma SerialIsGivenIff(pads: seq<OpenPad>, events: seq<Event>, id: int, guid: string, serial: string, name: string)
    requires serial != "" && !IdTracked(ReplayFrom(pads, events), id)
    ensures var now := ReplayFrom(pads, events);
            Add(now, id, guid, serial, name)[|now|].uid == guid + "!" + serial <==> !Held(now, guid + "!" + serial)
  {
    var now := ReplayFrom(pads, events);
    assert !UidTaken(now, UidFor(now, guid, serial));
    NewPadIdentity(now, id, guid, serial, name);
    hide ReplayFrom, UidFor;
  }

  /** The history from a given state on. */
  function ReplayFrom(pads: seq<OpenPad>, events: seq<Event>): seq<OpenPad> {
    if events == [] then pads else Apply(ReplayFrom(pads, events[..|events| - 1]), events[|events| - 1])
  }

  /** The event concerns pads of other GUIDs, all GUIDs having one length. */
  ghost predicate Foreign(pads: seq<OpenPad>, event: Event, guid: string) {
    match event
    case Added(_, g, _, _) => |g| == |guid| && g != guid
    case Removed(i) => forall k | 0 <= k < |pads| && pads[k].id == i :: !(guid + "!" <= pads[k].uid)
  }

  ghost predicate AllForeign(pads: seq<OpenPad>, events: seq<Event>, guid: string) {
    events == [] ||
    var front := events[..|events| - 1];
    AllForeign(pads, front, guid) && Foreign(ReplayFrom(pads, front), events[|events| - 1], guid)
  }

  lemma OrdinalStartsWithGuid(guid: string, n: nat)
    ensures guid + "!" <= OrdinalUid(guid, n)
  {
    assert guid + "!#" + ToString(n) == guid + "!" + ("#" + ToString(n));
  }

  lemma OtherGuidOtherUid(guid: string, other: string, uid: string)
    requires |guid| == |other| && guid != other && other + "!" <= uid
    ensures !(guid + "!" <= uid)
  {
    if guid + "!" <= uid {
      EqualUidsMeanEqualGuids(guid, other, uid);
    }
  }

  lemma ForeignKeepsTaken(pads: seq<OpenPad>, event: Event, guid: string, uid: string)
    requires Foreign(pads, event, guid) && guid + "!" <= uid
    ensures UidTaken(Apply(pads, event), uid) <==> UidTaken(pads, uid)
  {
    match event
    case Added(id, g, serial, name) =>
      var after := Add(pads, id, g, serial, name);
      OtherGuidOtherUid(guid, g, UidFor(pads, g, serial));
      hide UidFor;
      if k :| 0 <= k < |pads| && pads[k].uid == uid {
        assert after[k].uid == uid;
      }
    case Removed(id) =>
      var i := IndexOfId(pads, id, 0);
      if i < |pads| {
        if k :| 0 <= k < |pads| && pads[k].uid == uid {
          assert Remove(pads, id)[if k < i then k else k - 1].uid == uid;
        }
      }
  }

  lemma {:induction false} ForeignersKeepTaken(pads: seq<OpenPad>, events: seq<Event>, guid: string, uid: string)
    requires AllForeign(pads, events, guid) && guid + "!" <= uid
    ensures UidTaken(ReplayFrom(pads, events), uid) <==> UidTaken(pads, uid)
  {
    if events != [] {
      var front := events[..|events| - 1];
      ForeignersKeepTaken(pads, front, guid, uid);
      hide UidTaken, Apply;
      ForeignKeepsTaken(ReplayFrom(pads, front), events[|events| - 1], guid, uid);
    }
  }

  /** Through any events in between: a serial-less pad that is unplugged and replugged gets its identity back if and
      only if nobody has it then and every smaller ordinal of its GUID is taken. */
  lemma ReplugRestoresIdentityIff(pads: seq<OpenPad>, id: int, id': int, guid: string, name: string,
                                  between: seq<Event>)
    requires !IdTracked(pads, id) && !IdTracked(ReplayFrom(pads, between), id')
    ensures var plugged, n := Add(pads, id, guid, "", name), FreeOrdinal(pads, guid, 1);
            var later := ReplayFrom(Remove(plugged, id), between);
            && Remove(plugged, id) == pads && plugged[|pads|].uid == OrdinalUid(guid, n)
            && (Add(later, id', guid, "", name)[|later|].uid == plugged[|pads|].uid <==>
                && !UidTaken(later, OrdinalUid(guid, n))
                && forall k: nat | 1 <= k < n :: UidTaken(later, OrdinalUid(guid, k)))
  {
    UnplugUndoesPlug(pads, id, guid, name);
    var n, later := FreeOrdinal(pads, guid, 1), ReplayFrom(pads, between);
    OrdinalIsGivenIff(later, id', guid, name, n);
    hide FreeOrdinal, OrdinalUid, ReplayFrom, UidTaken;
  }

  /** A serial-less pad that is unplugged and replugged gets its identity back, whatever pads of other GUIDs come and
      go in between. */
  lemma ReplugRestoresIdentity(pads: seq<OpenPad>, id: int, id': int, guid: string, name: string, between: seq<Event>)
    requires !IdTracked(pads, id) && AllForeign(pads, between, guid)
    requires !IdTracked(ReplayFrom(pads, between), id')
    ensures var plugged := Add(pads, id, guid, "", name);
            var later := ReplayFrom(Remove(plugged, id), between);
            && Remove(plugged, id) == pads
            && Add(later, id', guid, "", name)[|later|].uid == plugged[|pads|].uid
  {
    UnplugUndoesPlug(pads, id, guid, name);
    var n := FreeOrdinal(pads, guid, 1);
    var later := ReplayFrom(pads, between);
    forall k: nat | 1 <= k <= n
      ensures UidTaken(later, OrdinalUid(guid, k)) <==> UidTaken(pads, OrdinalUid(guid, k))
    {
      OrdinalStartsWithGuid(guid, k);
      ForeignersKeepTaken(pads, between, guid, OrdinalUid(guid, k));
    }
    hide FreeOrdinal, OrdinalUid, ReplayFrom, UidTaken;
    OrdinalIsGivenIff(later, id', guid, name, n);
  }

  lemma UnplugUndoesPlug(pads: seq<OpenPad>, id: int, guid: string, name: string)
    requires !IdTracked(pads, id)
    ensures Remove(Add(pads, id, guid, "", name), id) == pads
  {
    hide UidFor;
    var plugged := Add(pads, id, guid, "", name);
    assert forall k | 0 <= k < |pads| :: plugged[k] == pads[k] && pads[k].id != id;
    assert |plugged| == |pads| + 1 && plugged[|pads|].id == id;
    assert IndexOfId(plugged, id, 0) == |pads|;
  }

  /** GUID strings have one length, so equal identities mean equal GUIDs. */
  lemma EqualUidsMeanEqualGuids(guid: string, guid': string, uid: string)
    requires |guid| == |guid'| && guid + "!" <= uid && guid' + "!" <= uid
    ensures guid == guid'
  {
    assert uid[..|guid| + 1] == guid + "!" == guid' + "!";
    assert guid == (guid + "!")[..|guid|] && guid' == (guid' + "!")[..|guid|];
  }

  class Registry {
    var pads: seq<OpenPad>
    ghost var events: seq<Event>

    ghost predicate Valid()
      reads this
    {
      pads == Replay(events) && Distinct(pads)
    }

    constructor ()
      ensures Valid() && events == []
    {
      pads, events := [], [];
    }

    method IsUidTaken(uid: string) returns (taken: bool)
      ensures taken <==> UidTaken(pads, uid)
    {
      for k := 0 to |pads|
        invariant forall j | 0 <= j < k :: pads[j].uid != uid
      {
        if pads[k].uid == uid {
          return true;
        }
      }
      return false;
    }

    method SmallestOrdinal(guid: string) returns (n: nat)
      ensures n == FreeOrdinal(pads, guid, 1)
    {
      hide OrdinalUid;
      n := 1;
      var taken := IsUidTaken(OrdinalUid(guid, n));
      while taken
        invariant n >= 1 && (taken <==> UidTaken(pads, OrdinalUid(guid, n)))
        invariant forall k: nat | 1 <= k < n :: UidTaken(pads, OrdinalUid(guid, k))
        decreases |pads| + 2 - n
      {
        n := n + 1;
        SearchIsBounded(pads, guid, n);
        taken := IsUidTaken(OrdinalUid(guid, n));
      }
      SmallestIsFound(pads, guid, n);
    }

    /** Tracks a new pad under a fresh identity: its serial if free, else the smallest free ordinal. */
    method OnControllerAdded(id: int, guid: string, serial: string, name: string)
      requires Valid()
      modifies this
      ensures Valid() && events == old(events) + [Added(id, guid, serial, name)]
      ensures pads == Add(old(pads), id, guid, serial, name)
    {
      ghost var before := pads;
      PadsStayDistinct(events + [Added(id, guid, serial, name)]);
      ReplayOne(events, Added(id, guid, serial, name));
      hide Replay, Distinct, FreeOrdinal;
      events := events + [Added(id, guid, serial, name)];
      ghost var seen := events;
      for k := 0 to |pads|
        invariant pads == before && events == seen && forall j | 0 <= j < k :: pads[j].id != id
      {
        if pads[k].id == id {
          return;
        }
      }
      var uid := SerialUid(guid, serial);
      var taken := IsUidTaken(uid);
      if serial == "" || taken {
        var n := SmallestOrdinal(guid);
        uid := OrdinalUid(guid, n);
      }
      pads := pads + [OpenPad(id, guid, uid, name)];
    }

    method OnControllerRemoved(id: int)
      requires Valid()
      modifies this
      ensures Valid() && events == old(events) + [Removed(id)]
      ensures pads == Remove(old(pads), id)
    {
      PadsStayDistinct(events + [Removed(id)]);
      ReplayOne(events, Removed(id));
      events := events + [Removed(id)];
      ghost var before := pads;
      for k := 0 to |pads|
        invariant pads == before && IndexOfId(pads, id, 0) == IndexOfId(pads, id, k)
      {
        if pads[k].id == id {
          pads := pads[..k] + pads[k + 1..];
          return;
        }
      }
    }
  }

  lemma SmallestIsFound(pads: seq<OpenPad>, guid: string, n: nat)
    requires n >= 1 && !UidTaken(pads, OrdinalUid(guid, n))
    requires forall k: nat | 1 <= k < n :: UidTaken(pads, OrdinalUid(guid, k))
    ensures n == FreeOrdinal(pads, guid, 1)
  {
    var r := FreeOrdinal(pads, guid, 1);
  }
}
