// The keys of connected controllers: one identity for each live instance, whatever serials controllers report.

module ControllerKeys {
  import R = PadRegistry
  import P = PortAssignment

  /** A connected controller as the host describes it. */
  datatype Pad = Pad(instance: nat, guid: string, vendor: nat, product: nat, version: nat, crc16: nat, serial: string)

  datatype Identity = Identity(serial: string, key: string)

  /** The identities given so far, by instance. */
  type Cache = map<nat, Identity>

  // ----- keys -----

  function Model(pad: Pad): string {
    "_VID_" + R.ToString(pad.vendor) + "_PID_" + R.ToString(pad.product)
    + "_VERSION_" + R.ToString(pad.version) + "_CRC16_" + R.ToString(pad.crc16)
  }

  function Key(pad: Pad, serial: string): string { "SERIAL_" + serial + Model(pad) }

  function Numbered(n: nat): string { "#" + R.ToString(n) }

  function NumberedKey(pad: Pad, n: nat): string { Key(pad, Numbered(n)) }

  lemma KeyDeterminesSerial(pad: Pad, a: string, b: string)
    requires Key(pad, a) == Key(pad, b)
    ensures a == b
  {
    var head := |"SERIAL_"|;
    assert |a| == |b|;
    assert Key(pad, a)[head..head + |a|] == a && Key(pad, b)[head..head + |b|] == b;
  }

  /** The key spelled out, its numbers in decimal: any numerals of the four values. */
  lemma KeyReads(pad: Pad, serial: string, vendor: string, product: string, version: string, crc16: string)
    requires R.IsNumeral(vendor) && R.IsNumeral(product) && R.IsNumeral(version) && R.IsNumeral(crc16)
    requires R.Value(vendor) == pad.vendor && R.Value(product) == pad.product
    requires R.Value(version) == pad.version && R.Value(crc16) == pad.crc16
    ensures Key(pad, serial) ==
            "SERIAL_" + serial + "_VID_" + vendor + "_PID_" + product + "_VERSION_" + version + "_CRC16_" + crc16
  {
    R.NumeralIff(pad.vendor, vendor);
    R.NumeralIff(pad.product, product);
    R.NumeralIff(pad.version, version);
    R.NumeralIff(pad.crc16, crc16);
    hide R.IsNumeral, R.Value, R.ToString;
    var head := "SERIAL_" + serial;
    assert head + Model(pad) ==
           head + "_VID_" + vendor + "_PID_" + product + "_VERSION_" + version + "_CRC16_" + crc16;
  }

  /** Text that ends before a run of digits, and the digits: both are determined by the whole. */
  lemma DigitsSplit(front: string, digits: string, before: string, other: string)
    requires front + digits == before + other
    requires front != [] && before != [] && front[|front| - 1] == '_' == before[|before| - 1]
    requires R.IsNumeral(digits) && R.IsNumeral(other)
    ensures front == before && digits == other
  {
    var all := front + digits;
    assert all[|front| - 1] == '_' && (before + other)[|before| - 1] == '_';
    assert all[..|front|] == front && all[..|before|] == before;
    assert all[|front|..] == digits && all[|before|..] == other;
  }

  lemma WordSplit(front: string, before: string, word: string)
    requires front + word == before + word
    ensures front == before
  {
    assert |front| == |before|;
    assert (front + word)[..|front|] == front && (before + word)[..|front|] == before;
  }

  /** One number with a word before it at the end of a text. */
  lemma FieldSplit(front: string, before: string, word: string, m: nat, n: nat)
    requires front + word + R.ToString(m) == before + word + R.ToString(n)
    requires word != [] && word[|word| - 1] == '_'
    ensures front == before && m == n
  {
    R.NumeralIsDecimal(m);
    R.NumeralIsDecimal(n);
    R.NumeralRoundTrip(m);
    R.NumeralRoundTrip(n);
    hide R.IsNumeral, R.ToString, R.Value;
    DigitsSplit(front + word, R.ToString(m), before + word, R.ToString(n));
    WordSplit(front, before, word);
  }

  /** A key names one serial and one model, whatever text the serial holds. */
  lemma KeyIdentifiesIff(pad: Pad, a: string, other: Pad, b: string)
    ensures Key(pad, a) == Key(other, b) <==>
            && a == b && pad.vendor == other.vendor && pad.product == other.product
            && pad.version == other.version && pad.crc16 == other.crc16
  {
    if Key(pad, a) == Key(other, b) {
      var v, w := "SERIAL_" + a, "SERIAL_" + b;
      var p, q := v + "_VID_" + R.ToString(pad.vendor), w + "_VID_" + R.ToString(other.vendor);
      var r, s := p + "_PID_" + R.ToString(pad.product), q + "_PID_" + R.ToString(other.product);
      var c, d := r + "_VERSION_" + R.ToString(pad.version), s + "_VERSION_" + R.ToString(other.version);
      KeyEnds(pad, a, c);
      KeyEnds(other, b, d);
      hide R.ToString;
      FieldSplit(c, d, "_CRC16_", pad.crc16, other.crc16);
      FieldSplit(r, s, "_VERSION_", pad.version, other.version);
      FieldSplit(p, q, "_PID_", pad.product, other.product);
      FieldSplit(v, w, "_VID_", pad.vendor, other.vendor);
      assert v[|"SERIAL_"|..] == a && w[|"SERIAL_"|..] == b;
    }
  }

  lemma KeyEnds(pad: Pad, serial: string, front: string)
    requires front == "SERIAL_" + serial + "_VID_" + R.ToString(pad.vendor) + "_PID_" + R.ToString(pad.product)
                      + "_VERSION_" + R.ToString(pad.version)
    ensures Key(pad, serial) == front + "_CRC16_" + R.ToString(pad.crc16)
  {
    hide R.ToString;
    assert "SERIAL_" + serial + Model(pad) == front + "_CRC16_" + R.ToString(pad.crc16);
  }

  lemma NumberedKeysDiffer(pad: Pad, m: nat, n: nat)
    requires NumberedKey(pad, m) == NumberedKey(pad, n)
    ensures m == n
  {
    KeyDeterminesSerial(pad, Numbered(m), Numbered(n));
    assert Numbered(m)[1..] == R.ToString(m) && Numbered(n)[1..] == R.ToString(n);
    R.NumeralRoundTrip(m);
    R.NumeralRoundTrip(n);
  }

  predicate Taken(cache: Cache, key: string) { exists id :: id in cache && cache[id].key == key }

  function Keys(cache: Cache): (keys: set<string>)
    ensures forall key :: key in keys <==> Taken(cache, key)
  {
    set id | id in cache :: cache[id].key
  }

  /** Pigeonhole: n taken numbers need n keys. */
  lemma {:induction false} TakenNumbersNeedKeys(pad: Pad, n: nat, keys: set<string>)
    requires forall k: nat | 1 <= k <= n :: NumberedKey(pad, k) in keys
    ensures |keys| >= n
  {
    if n > 0 {
      var top := NumberedKey(pad, n);
      forall k: nat | 1 <= k <= n - 1
        ensures NumberedKey(pad, k) in keys - {top}
      {
        if NumberedKey(pad, k) == top {
          NumberedKeysDiffer(pad, k, n);
        }
      }
      TakenNumbersNeedKeys(pad, n - 1, keys - {top});
    }
  }

  lemma NumberIsBounded(cache: Cache, pad: Pad, n: nat)
    requires n >= 1 && forall k: nat | 1 <= k < n :: Taken(cache, NumberedKey(pad, k))
    ensures n <= |Keys(cache)| + 1
  {
    hide NumberedKey, Taken;
    TakenNumbersNeedKeys(pad, n - 1, Keys(cache));
  }

  /** The smallest number, from n on, whose key is free. */
  function FreeNumber(cache: Cache, pad: Pad, n: nat): (r: nat)
    requires n >= 1 && forall k: nat | 1 <= k < n :: Taken(cache, NumberedKey(pad, k))
    ensures n <= r <= |Keys(cache)| + 1 && !Taken(cache, NumberedKey(pad, r))
    ensures forall k: nat | 1 <= k < r :: Taken(cache, NumberedKey(pad, k))
    decreases |Keys(cache)| + 2 - n
  {
    hide NumberedKey, Taken;
    NumberIsBounded(cache, pad, n);
    if Taken(cache, NumberedKey(pad, n)) then
      NumberIsBounded(cache, pad, n + 1);
      FreeNumber(cache, pad, n + 1)
    else n
  }

  function SerialFor(cache: Cache, pad: Pad): (serial: string)
    ensures !Taken(cache, Key(pad, serial))
  {
    if pad.serial == "" || Taken(cache, Key(pad, pad.serial)) then Numbered(FreeNumber(cache, pad, 1)) else pad.serial
  }

  // ----- identities -----

  function Purged(cache: Cache, live: set<nat>): Cache { map id | id in cache && id in live :: cache[id] }

  /** The identity of one controller, remembered as long as its instance lives. */
  function Identify(cache: Cache, live: set<nat>, pad: Pad): (Cache, Identity) {
    var known := Purged(cache, live);
    if pad.instance in known then (known, known[pad.instance]) else
    var serial := SerialFor(known, pad);
    var identity := Identity(serial, Key(pad, serial));
    (known[pad.instance := identity], identity)
  }

  function DeviceOf(pad: Pad, identity: Identity): P.Device {
    P.Device(identity.key, pad.guid, pad.guid + "!" + identity.serial)
  }

  /** One look at the host: the live instances, and the controllers among them in order. */
  datatype Look = Look(live: set<nat>, pads: seq<Pad>)

  ghost predicate LookOk(look: Look) {
    && (forall i | 0 <= i < |look.pads| :: look.pads[i].instance in look.live)
    && (forall i, j | 0 <= i < j < |look.pads| :: look.pads[i].instance != look.pads[j].instance)
  }

  function IdentifyAll(cache: Cache, live: set<nat>, pads: seq<Pad>): (r: (Cache, seq<P.Device>))
    ensures |r.1| == |pads|
  {
    if pads == [] then (cache, []) else
    var (before, devices) := IdentifyAll(cache, live, pads[..|pads| - 1]);
    var (after, identity) := Identify(before, live, pads[|pads| - 1]);
    (after, devices + [DeviceOf(pads[|pads| - 1], identity)])
  }

  /** The identities after a history of looks, and the devices each look produced. */
  function Watch(looks: seq<Look>): (r: (Cache, seq<seq<P.Device>>))
    ensures |r.1| == |looks|
  {
    if looks == [] then (map[], []) else
    var (cache, lists) := Watch(looks[..|looks| - 1]);
    var (after, devices) := IdentifyAll(cache, looks[|looks| - 1].live, looks[|looks| - 1].pads);
    (after, lists + [devices])
  }

  ghost predicate LooksOk(looks: seq<Look>) { forall t | 0 <= t < |looks| :: LookOk(looks[t]) }

  /** A new instance is known by its own serial when it has one and no live instance's key is taken by it; else by the
      smallest number whose key is free. Known instances stay known as they were. */
  lemma NewInstanceIdentity(cache: Cache, live: set<nat>, pad: Pad)
    ensures var identity := Identify(cache, live, pad).1;
            && (pad.instance in cache && pad.instance in live ==> identity == cache[pad.instance])
            && (!(pad.instance in cache && pad.instance in live) ==>
                  && identity.key == Key(pad, identity.serial)
                  && if pad.serial != "" && !TakenAlive(cache, live, Key(pad, pad.serial)) then
                       identity.serial == pad.serial
                     else exists n: nat :: n >= 1 && SmallestFree(cache, live, pad, identity.serial, n))
  {
    var known := Purged(cache, live);
    AliveIsKnown(cache, live);
    if !(pad.instance in known) && (pad.serial == "" || Taken(known, Key(pad, pad.serial))) {
      var n := FreeNumber(known, pad, 1);
      hide FreeNumber, Key;
      forall k: nat | 1 <= k < n
        ensures TakenAlive(cache, live, Key(pad, "#" + R.ToString(k)))
      {
        assert Taken(known, NumberedKey(pad, k));
      }
      assert SmallestFree(cache, live, pad, SerialFor(known, pad), n);
    }
    hide SerialFor, Key;
  }

  ghost predicate TakenAlive(cache: Cache, live: set<nat>, key: string) {
    exists id :: id in cache && id in live && cache[id].key == key
  }

  ghost predicate SmallestFree(cache: Cache, live: set<nat>, pad: Pad, serial: string, n: nat) {
    && serial == "#" + R.ToString(n) && !TakenAlive(cache, live, Key(pad, serial))
    && forall k: nat | 1 <= k < n :: TakenAlive(cache, live, Key(pad, "#" + R.ToString(k)))
  }

  lemma AliveIsKnown(cache: Cache, live: set<nat>)
    ensures forall key :: Taken(Purged(cache, live), key) <==> TakenAlive(cache, live, key)
  {
    forall key
      ensures Taken(Purged(cache, live), key) <==> TakenAlive(cache, live, key)
    {
      if id :| id in cache && id in live && cache[id].key == key {
        assert id in Purged(cache, live);
      }
    }
  }

  // ----- what every look keeps -----

  ghost predicate CacheOk(cache: Cache) {
    forall a, b | a in cache && b in cache && a != b :: cache[a].key != cache[b].key
  }

  /** Live instances keep their identities. */
  ghost predicate Remembers(after: Cache, before: Cache, live: set<nat>) {
    forall id | id in before && id in live :: id in after && after[id] == before[id]
  }

  lemma IdentifyKeeps(cache: Cache, live: set<nat>, pad: Pad)
    requires CacheOk(cache)
    ensures var (after, identity) := Identify(cache, live, pad);
            CacheOk(after) && Remembers(after, cache, live) && pad.instance in after && after[pad.instance] == identity
  {
    var known := Purged(cache, live);
    var serial := SerialFor(known, pad);
    assert !Taken(known, Key(pad, serial));
    hide SerialFor, Key;
  }

  /** The devices carry the keys under which their instances are remembered. */
  ghost predicate Carried(cache: Cache, pads: seq<Pad>, devices: seq<P.Device>) {
    |devices| == |pads| &&
    forall i | 0 <= i < |pads| :: pads[i].instance in cache && devices[i].key == cache[pads[i].instance].key
  }

  lemma {:induction false} IdentifyAllKeeps(cache: Cache, live: set<nat>, pads: seq<Pad>)
    requires CacheOk(cache) && forall i | 0 <= i < |pads| :: pads[i].instance in live
    ensures var (after, devices) := IdentifyAll(cache, live, pads);
            CacheOk(after) && Remembers(after, cache, live) && Carried(after, pads, devices)
  {
    if pads != [] {
      var n := |pads| - 1;
      var (before, devices) := IdentifyAll(cache, live, pads[..n]);
      IdentifyAllKeeps(cache, live, pads[..n]);
      IdentifyKeeps(before, live, pads[n]);
      var (after, identity) := Identify(before, live, pads[n]);
      assert IdentifyAll(cache, live, pads) == (after, devices + [DeviceOf(pads[n], identity)]);
      hide Identify, IdentifyAll, CacheOk;
      CarriedOn(cache, before, after, live, pads, devices, identity);
    }
  }

  lemma CarriedOn(cache: Cache, before: Cache, after: Cache, live: set<nat>, pads: seq<Pad>, devices: seq<P.Device>,
                  identity: Identity)
    requires pads != [] && (forall i | 0 <= i < |pads| :: pads[i].instance in live)
    requires Remembers(before, cache, live) && Remembers(after, before, live)
    requires Carried(before, pads[..|pads| - 1], devices)
    requires pads[|pads| - 1].instance in after && after[pads[|pads| - 1].instance] == identity
    ensures Remembers(after, cache, live) && Carried(after, pads, devices + [DeviceOf(pads[|pads| - 1], identity)])
  {
    var front := pads[..|pads| - 1];
    assert forall i | 0 <= i < |front| :: pads[i] == front[i];
  }

  lemma CarriedKeysDiffer(cache: Cache, pads: seq<Pad>, devices: seq<P.Device>)
    requires CacheOk(cache) && Carried(cache, pads, devices)
    requires forall i, j | 0 <= i < j < |pads| :: pads[i].instance != pads[j].instance
    ensures P.DistinctKeys(devices)
  {
  }

  lemma {:induction false} WatchKeeps(looks: seq<Look>)
    requires LooksOk(looks)
    ensures var (cache, lists) := Watch(looks);
            CacheOk(cache) && (looks != [] ==> Carried(cache, looks[|looks| - 1].pads, lists[|looks| - 1]))
  {
    if looks != [] {
      var n := |looks| - 1;
      assert LookOk(looks[n]) && LooksOk(looks[..n]);
      WatchKeeps(looks[..n]);
      IdentifyAllKeeps(Watch(looks[..n]).0, looks[n].live, looks[n].pads);
      hide IdentifyAll, CacheOk, Carried, Remembers;
    }
  }

  lemma WatchPrefix(looks: seq<Look>, look: Look)
    ensures Watch(looks + [look]).1[..|looks|] == Watch(looks).1
    ensures (Watch(looks + [look]).0, Watch(looks + [look]).1[|looks|]) ==
            IdentifyAll(Watch(looks).0, look.live, look.pads)
  {
    assert (looks + [look])[..|looks|] == looks;
  }

  /** In every history connected controllers have pairwise different keys, whatever serials they report. */
  lemma {:induction false} ConnectedKeysAreDistinct(looks: seq<Look>, t: nat)
    requires LooksOk(looks) && t < |looks|
    ensures P.DistinctKeys(Watch(looks).1[t])
  {
    var n := |looks| - 1;
    if t < n {
      ConnectedKeysAreDistinct(looks[..n], t);
    } else {
      WatchKeeps(looks);
      assert LookOk(looks[n]);
      CarriedKeysDiffer(Watch(looks).0, looks[n].pads, Watch(looks).1[n]);
    }
  }

  /** A controller keeps its key from one look to the next, whatever comes and goes beside it. */
  lemma KeyIsKept(looks: seq<Look>, look: Look, i: nat, j: nat)
    requires looks != [] && LooksOk(looks) && LookOk(look)
    requires i < |looks[|looks| - 1].pads| && j < |look.pads|
    requires looks[|looks| - 1].pads[i].instance == look.pads[j].instance
    ensures Watch(looks + [look]).1[|looks|][j].key == Watch(looks).1[|looks| - 1][i].key
  {
    WatchKeeps(looks);
    WatchPrefix(looks, look);
    IdentifyAllKeeps(Watch(looks).0, look.live, look.pads);
    hide IdentifyAll, Watch;
  }

  /** So no controller is ever on two ports, at whichever of the looks the ports are assigned. */
  lemma HotplugsSeatNobodyTwice(preferred: seq<P.Slot>, legacy: seq<P.LegacyDevice>, looks: seq<Look>,
                                history: seq<seq<P.Device>>)
    requires |legacy| == |preferred| && P.Distinct(preferred) && LooksOk(looks)
    requires forall t | 0 <= t < |history| :: history[t] in Watch(looks).1
    ensures var (p, r) := P.HotplugAll(preferred, legacy, history);
            P.Distinct(p) && P.Distinct(r)
  {
    forall t | 0 <= t < |history|
      ensures P.DistinctKeys(history[t])
    {
      var s :| 0 <= s < |looks| && Watch(looks).1[s] == history[t];
      ConnectedKeysAreDistinct(looks, s);
    }
    P.NobodySitsTwice(preferred, legacy, history);
  }

  // ----- the cache as written -----

  class KeyCache {
    var cache: Cache

    constructor ()
      ensures cache == map[]
    {
      cache := map[];
    }

    /** Forgets the instances that are gone. */
    method Purge(live: set<nat>)
      modifies this
      ensures cache == Purged(old(cache), live)
    {
      ghost var before := cache;
      var left := cache.Keys;
      while left != {}
        invariant left <= cache.Keys
        invariant forall id :: id in cache <==> id in before && (id in live || id in left)
        invariant forall id | id in cache :: id in before && cache[id] == before[id]
        decreases |left|
      {
        var id :| id in left;
        left := left - {id};
        if id !in live {
          cache := cache - {id};
        }
      }
    }

    method IdentityTaken(key: string) returns (taken: bool)
      ensures taken <==> Taken(cache, key)
    {
      var left := cache.Keys;
      while left != {}
        invariant left <= cache.Keys && forall id | id in cache && id !in left :: cache[id].key != key
        decreases |left|
      {
        var id :| id in left;
        if cache[id].key == key {
          return true;
        }
        left := left - {id};
      }
      return false;
    }

    /** A controller's identity: the remembered one, or its serial if that is free, or the smallest free number. */
    method IdentityOf(pad: Pad, live: set<nat>) returns (identity: Identity)
      modifies this
      ensures (cache, identity) == Identify(old(cache), live, pad)
    {
      hide Key, Numbered, FreeNumber;
      Purge(live);
      if pad.instance in cache {
        return cache[pad.instance];
      }
      var serial := pad.serial;
      var taken := IdentityTaken(Key(pad, serial));
      if serial == "" || taken {
        serial := Renumber(pad);
      }
      identity := Identity(serial, Key(pad, serial));
      cache := cache[pad.instance := identity];
    }

    method Renumber(pad: Pad) returns (serial: string)
      ensures serial == Numbered(FreeNumber(cache, pad, 1))
    {
      hide Key, Numbered;
      var number := 1;
      serial := Numbered(number);
      var taken := IdentityTaken(Key(pad, serial));
      while taken
        invariant number >= 1 && serial == Numbered(number) && (taken <==> Taken(cache, NumberedKey(pad, number)))
        invariant forall k: nat | 1 <= k < number :: Taken(cache, NumberedKey(pad, k))
        decreases |Keys(cache)| + 2 - number
      {
        number := number + 1;
        NumberIsBounded(cache, pad, number);
        serial := Numbered(number);
        taken := IdentityTaken(Key(pad, serial));
      }
      SmallestIsFree(cache, pad, number);
    }
  }

  lemma SmallestIsFree(cache: Cache, pad: Pad, n: nat)
    requires n >= 1 && !Taken(cache, NumberedKey(pad, n))
    requires forall k: nat | 1 <= k < n :: Taken(cache, NumberedKey(pad, k))
    ensures FreeNumber(cache, pad, 1) == n
  {
    hide NumberedKey;
  }
}
