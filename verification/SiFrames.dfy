// Joybus frames in the 64-byte PIF window: how the read DMA classifies and answers them.

module SiFrames {
  import opened Common
  import opened PakCrc

  const WINDOW: nat := 64
  const BLOCK_DETECT: nat := 0x400
  const BLOCK_RUMBLE: nat := 0x600
  const RUMBLE_IDENTIFY: bv8 := 0x80

  datatype PakType = NoPak | ControllerPak | RumblePak

  /** What the host says about a port at the time of the call. */
  datatype Port = Port(connected: bool, pak: PakType, button: bv16, stickX: bv8, stickY: bv8)

  datatype Env = Env(ports: seq<Port>, rumbleOn: bool)

  /** The save store behind a port: unreadable, or blocks of 32 bytes (zero where nothing is recorded). */
  datatype Image = Unreadable | Readable(blocks: map<nat, seq<bv8>>)

  datatype Device = Device(cells: seq<seq<bv8>>, images: seq<Image>, motor: seq<(nat, bool)>)

  ghost predicate EnvOk(env: Env) { |env.ports| == 4 }

  ghost predicate ImageOk(image: Image) {
    image.Readable? ==> forall b | b in image.blocks :: |image.blocks[b]| == 32
  }

  ghost predicate DeviceOk(dev: Device) {
    && |dev.cells| == |dev.images| == 4
    && (forall i | 0 <= i < 4 :: |dev.cells[i]| == 32)
    && (forall i | 0 <= i < 4 :: ImageOk(dev.images[i]))
  }

  function Fill(b: bv8): (s: seq<bv8>)
    ensures |s| == 32 && forall i | 0 <= i < 32 :: s[i] == b
  {
    seq(32, _ => b)
  }

  // ----- one pak transaction -----

  /** The accessory's answer to a block access: the data whose checksum is returned, or None for an unreadable save. */
  function Serve(env: Env, dev: Device, port: nat, block: nat, isWrite: bool,
                 data: seq<bv8>): (r: (Device, Option<seq<bv8>>))
    requires EnvOk(env) && DeviceOk(dev) && port < 4 && |data| == 32
    ensures DeviceOk(r.0) && (r.1.Some? ==> |r.1.value| == 32)
  {
    if block == BLOCK_DETECT then
      if isWrite then (dev.(cells := dev.cells[port := data]), Some(data))
      else
        var selected := env.rumbleOn && dev.cells[port][31] >= RUMBLE_IDENTIFY;
        (dev, Some(if selected then Fill(RUMBLE_IDENTIFY) else dev.cells[port]))
    else if block < BLOCK_DETECT then
      if !env.ports[port].pak.ControllerPak? then (dev, Some(data))
      else match dev.images[port]
        case Unreadable => (dev, None)
        case Readable(blocks) =>
          assert ImageOk(dev.images[port]);
          if isWrite then (dev.(images := dev.images[port := Readable(blocks[block := data])]), Some(data))
          else (dev, Some(if block in blocks then blocks[block] else Fill(0)))
    else if block == BLOCK_RUMBLE && env.rumbleOn && isWrite then
      (dev.(motor := dev.motor + [(port, data[0] != 0)]), Some(data))
    else (dev, Some(data))
  }

  /** `src` written over the window from `at` on. */
  function Splice(w: seq<bv8>, at: nat, src: seq<bv8>): (r: seq<bv8>)
    requires at + |src| <= |w|
    ensures |r| == |w| && forall i | 0 <= i < |w| :: r[i] == if at <= i < at + |src| then src[i - at] else w[i]
  {
    w[..at] + src + w[at + |src|..]
  }

  /** The block number of a big-endian byte address. */
  function AddressBlock(hi: bv8, lo: bv8): nat { ((hi as nat) * 256 + lo as nat) / 32 }

  /** A pak frame whose (possibly missing) dummy byte sits at `fb`: answered in place. */
  function HandlePak(env: Env, w: seq<bv8>, fb: int, port: nat, cmd: bv8, dev: Device): (r: (seq<bv8>, Device))
    requires EnvOk(env) && DeviceOk(dev) && |w| == WINDOW && -1 <= fb <= 3 && port < 4
    ensures |r.0| == WINDOW && DeviceOk(r.1)
  {
    var isWrite := cmd == 3;
    var data := if isWrite then w[fb + 6..fb + 38] else Fill(0);
    var (dev', answer) := Serve(env, dev, port, AddressBlock(w[fb + 4], w[fb + 5]), isWrite, data);
    match answer
    case None => (w[fb + 2 := (w[fb + 2] & 0x3f) | 0x80], dev')
    case Some(bytes) => ((if isWrite then w else Splice(w, fb + 6, bytes))[fb + 0x26 := Crc(bytes)], dev')
  }

  predicate HasPak(env: Env, port: nat)
    requires EnvOk(env) && port < 4
  {
    env.ports[port].connected && !env.ports[port].pak.NoPak?
  }

  // ----- classification -----

  /** Leading zero bytes, at most three: the port of a short frame. */
  function Lead(w: seq<bv8>): nat
    requires |w| == WINDOW
  {
    if w[0] != 0 then 0 else if w[1] != 0 then 1 else if w[2] != 0 then 2 else 3
  }

  predicate IsPakTriple(tx: bv8, rx: bv8, cmd: bv8) {
    (cmd == 2 && tx == 0x03 && rx == 0x21) || (cmd == 3 && tx == 0x23 && rx == 0x01)
  }

  predicate ShortStatus(w: seq<bv8>)
    requires |w| == WINDOW
  {
    w[Lead(w)] == 0x01 && w[Lead(w) + 1] == 0x03 && w[Lead(w) + 2] == 0
  }

  predicate ShortPak(w: seq<bv8>)
    requires |w| == WINDOW
  {
    IsPakTriple(w[Lead(w)], w[Lead(w) + 1], w[Lead(w) + 2])
  }

  predicate LongPak(w: seq<bv8>, ch: nat)
    requires |w| == WINDOW && ch < 4
  {
    IsPakTriple(w[ch + 1], w[ch + 2], w[ch + 3]) && forall k | 0 <= k < ch :: w[k] == 0
  }

  /** The first channel, from `ch` on, at which a long frame starts; 4 if none. */
  function FirstLong(w: seq<bv8>, ch: nat): (r: nat)
    requires |w| == WINDOW && ch <= 4
    ensures ch <= r <= 4 && (r < 4 ==> LongPak(w, r)) && forall c | ch <= c < r :: !LongPak(w, c)
    decreases 4 - ch
  {
    if ch == 4 || LongPak(w, ch) then ch else FirstLong(w, ch + 1)
  }

  // ----- the read DMA -----

  function AnswerStatus(env: Env, w: seq<bv8>): (r: seq<bv8>)
    requires EnvOk(env) && |w| == WINDOW
    ensures |r| == WINDOW
  {
    var ch := Lead(w);
    if env.ports[ch].connected then
      w[ch + 3 := 0x05][ch + 4 := 0x00][ch + 5 := if env.ports[ch].pak.NoPak? then 0 else 1]
    else w[ch + 1 := 0x83]
  }

  function High(b: bv16): bv8 { (b >> 8) as bv8 }

  function Low(b: bv16): bv8 { (b & 0xff) as bv8 }

  /** One 8-byte block of the poll; commands other than status and buttons are left alone. */
  function AnswerPoll(env: Env, w: seq<bv8>, i: nat): (r: seq<bv8>)
    requires EnvOk(env) && |w| == WINDOW && i < 4
    ensures |r| == WINDOW
  {
    var blk := 8 * i;
    var cmd := w[blk + 3];
    if cmd != 0 && cmd != 1 then w
    else if !env.ports[i].connected then w[blk + 2 := 0x80]
    else if cmd == 0 then
      w[blk + 2 := 0x03][blk + 4 := 0x05][blk + 5 := 0x00]
       [blk + 6 := if env.ports[i].pak.NoPak? then 0 else 1][blk + 7 := 0]
    else
      w[blk + 2 := 0x04][blk + 4 := High(env.ports[i].button)][blk + 5 := Low(env.ports[i].button)]
       [blk + 6 := env.ports[i].stickX][blk + 7 := env.ports[i].stickY]
  }

  /** The poll of the first n ports. */
  function PollUpTo(env: Env, w: seq<bv8>, n: nat): (r: seq<bv8>)
    requires EnvOk(env) && |w| == WINDOW && n <= 4
    ensures |r| == WINDOW
  {
    if n == 0 then w else AnswerPoll(env, PollUpTo(env, w, n - 1), n - 1)
  }

  function ReadDma(env: Env, w: seq<bv8>, dev: Device): (r: (seq<bv8>, Device))
    requires EnvOk(env) && DeviceOk(dev) && |w| == WINDOW
    ensures |r.0| == WINDOW && DeviceOk(r.1)
  {
    var lead := Lead(w);
    if ShortStatus(w) then (AnswerStatus(env, w), dev)
    else if ShortPak(w) then
      if HasPak(env, lead) then HandlePak(env, w, lead - 1, lead, w[lead + 2], dev)
      else (w[lead + 1 := w[lead + 1] | 0x80], dev)
    else
      var ch := FirstLong(w, 0);
      if ch < 4 then
        if HasPak(env, ch) then HandlePak(env, w, ch, ch, w[ch + 3], dev)
        else (w[ch + 2 := w[ch + 2] | 0x80], dev)
      else (PollUpTo(env, w, 4), dev)
  }

  // ----- frames are told apart -----

  /** A long frame is also taken for a short one exactly when its dummy byte is zero and a lower port could follow. */
  lemma LongIsAlsoShortIff(w: seq<bv8>, ch: nat)
    requires |w| == WINDOW && ch < 4 && LongPak(w, ch)
    ensures ShortPak(w) <==> w[ch] == 0 && ch < 3
  {
    if w[ch] == 0 && ch < 3 {
      assert Lead(w) == ch + 1;
    } else {
      assert Lead(w) == ch;
    }
  }

  /** So a long frame with a zero dummy byte is answered in its own place, but for the next port. */
  lemma ZeroDummyShiftsThePort(env: Env, w: seq<bv8>, ch: nat, dev: Device)
    requires EnvOk(env) && DeviceOk(dev) && |w| == WINDOW && ch < 3 && LongPak(w, ch) && w[ch] == 0
    ensures ReadDma(env, w, dev) ==
            if HasPak(env, ch + 1) then HandlePak(env, w, ch, ch + 1, w[ch + 3], dev)
            else (w[ch + 2 := w[ch + 2] | 0x80], dev)
  {
    LongIsAlsoShortIff(w, ch);
    assert Lead(w) == ch + 1;
    hide HandlePak, FirstLong;
  }

  /** A frame of the first port answered for the second: its error bits say that there is no pak, though there is
      one. */
  lemma FirstPortAnsweredForSecond(env: Env, dev: Device)
    requires EnvOk(env) && DeviceOk(dev) && HasPak(env, 0) && !HasPak(env, 1)
    ensures var w: seq<bv8> := [0x00, 0x03, 0x21, 0x02] + seq(60, _ => 0);
            && LongPak(w, 0) && FirstLong(w, 0) == 0
            && ReadDma(env, w, dev) == (w[2 := 0xa1], dev)
  {
    var w: seq<bv8> := [0x00, 0x03, 0x21, 0x02] + seq(60, _ => 0);
    assert w[0] == 0x00 && w[1] == 0x03 && w[2] == 0x21 && w[3] == 0x02;
    ZeroDummyShiftsThePort(env, w, 0, dev);
    var rx: bv8 := 0x21;
    assert rx | 0x80 == 0xa1;
    hide HandlePak, ReadDma;
  }

  /** With the dummy byte libultra sends, no frame is both, and no frame is long at two channels. */
  lemma FramesAreUnambiguous(w: seq<bv8>, ch: nat, ch': nat)
    requires |w| == WINDOW && ch < 4 && ch' < 4 && LongPak(w, ch)
    ensures LongPak(w, ch') ==> ch == ch'
    ensures w[ch] == 0xff ==> !ShortPak(w) && !ShortStatus(w)
  {
    if w[ch] == 0xff {
      LongIsAlsoShortIff(w, ch);
      assert Lead(w) == ch;
    }
  }

  /** The window with a dummy byte inserted before the frame of port `at`. */
  function Pad(w: seq<bv8>, at: nat): (r: seq<bv8>)
    requires |w| == WINDOW && at < 4
    ensures |r| == WINDOW && forall i | 0 <= i < WINDOW ::
              r[i] == if i < at then w[i] else if i == at then 0xff else w[i - 1]
  {
    w[..at] + [0xff] + w[at..WINDOW - 1]
  }

  lemma PaddedIsLong(w: seq<bv8>)
    requires |w| == WINDOW && ShortPak(w)
    ensures var l := Pad(w, Lead(w));
            LongPak(l, Lead(w)) && !ShortPak(l) && !ShortStatus(l) && FirstLong(l, 0) == Lead(w)
    ensures !ShortStatus(w)
  {
    var at, l := Lead(w), Pad(w, Lead(w));
    assert forall k | 0 <= k < at :: l[k] == 0;
    assert l[at + 1] == w[at] && l[at + 2] == w[at + 1] && l[at + 3] == w[at + 2];
    FramesAreUnambiguous(l, at, if FirstLong(l, 0) < 4 then FirstLong(l, 0) else at);
  }

  lemma PadUpdate(w: seq<bv8>, at: nat, i: nat, b: bv8)
    requires |w| == WINDOW && at < 4 && at <= i < WINDOW - 1
    ensures Pad(w, at)[i + 1 := b] == Pad(w[i := b], at)
  {
  }

  lemma PadSplice(w: seq<bv8>, at: nat, i: nat, src: seq<bv8>)
    requires |w| == WINDOW && at < 4 && at <= i && i + |src| < WINDOW
    ensures Splice(Pad(w, at), i + 1, src) == Pad(Splice(w, i, src), at)
    ensures Pad(w, at)[i + 1..i + 1 + |src|] == w[i..i + |src|]
  {
  }

  lemma HandlePakShifts(env: Env, w: seq<bv8>, at: nat, cmd: bv8, dev: Device)
    requires EnvOk(env) && DeviceOk(dev) && |w| == WINDOW && at < 4
    ensures var (s, l) := (HandlePak(env, w, at - 1, at, cmd, dev), HandlePak(env, Pad(w, at), at, at, cmd, dev));
            l.0 == Pad(s.0, at) && l.1 == s.1
  {
    hide Serve, Crc, AddressBlock, Splice, Pad, EnvOk, DeviceOk, Fill;
    var l, isWrite := Pad(w, at), cmd == 3;
    assert l[at + 4] == w[at + 3] && l[at + 5] == w[at + 4] && l[at + 2] == w[at + 1];
    assert l[at + 6..at + 38] == w[at + 5..at + 37] by {
      PadSplice(w, at, at + 5, w[at + 5..at + 37]);
    }
    var data := if isWrite then w[at + 5..at + 37] else Fill(0);
    var (dev', answer) := Serve(env, dev, at, AddressBlock(w[at + 3], w[at + 4]), isWrite, data);
    if answer.None? {
      PadUpdate(w, at, at + 1, (w[at + 1] & 0x3f) | 0x80);
    } else {
      var filled := if isWrite then w else Splice(w, at + 5, answer.value);
      PadSplice(w, at, at + 5, answer.value);
      PadUpdate(filled, at, at + 0x25, Crc(answer.value));
    }
  }

  /** A short pak frame and the long frame one byte further on do the same thing, byte for byte. */
  lemma ShortAndLongAgree(env: Env, w: seq<bv8>, dev: Device)
    requires EnvOk(env) && DeviceOk(dev) && |w| == WINDOW && ShortPak(w)
    ensures var (s, l) := (ReadDma(env, w, dev), ReadDma(env, Pad(w, Lead(w)), dev));
            l.0 == Pad(s.0, Lead(w)) && l.1 == s.1
  {
    var at, l := Lead(w), Pad(w, Lead(w));
    PaddedIsLong(w);
    hide ShortPak, ShortStatus, FirstLong, LongPak, HandlePak, Lead;
    assert l[at + 3] == w[at + 2];
    if HasPak(env, at) {
      HandlePakShifts(env, w, at, w[at + 2], dev);
    } else {
      assert Pad(w[at + 1 := w[at + 1] | 0x80], at) == l[at + 2 := l[at + 2] | 0x80];
    }
  }

  /** The eight bytes of port i in a poll. */
  function PollBlock(w: seq<bv8>, i: nat): seq<bv8>
    requires |w| == WINDOW && i < 4
  {
    w[8 * i..8 * i + 8]
  }

  lemma PollLeavesOthers(env: Env, w: seq<bv8>, i: nat, j: nat)
    requires EnvOk(env) && |w| == WINDOW && i < 4 && j < 4 && i != j
    ensures PollBlock(AnswerPoll(env, w, i), j) == PollBlock(w, j)
  {
    hide High, Low;
  }

  lemma PollStaysInBlock(env: Env, w: seq<bv8>, i: nat)
    requires EnvOk(env) && |w| == WINDOW && i < 4
    ensures AnswerPoll(env, w, i)[32..] == w[32..]
    ensures var (before, after) := (PollBlock(w, i), PollBlock(AnswerPoll(env, w, i), i));
            after[0] == before[0] && after[1] == before[1] && after[3] == before[3]
  {
    hide High, Low;
  }

  lemma PollReadsItsBlock(env: Env, w: seq<bv8>, v: seq<bv8>, i: nat)
    requires EnvOk(env) && |w| == |v| == WINDOW && i < 4 && PollBlock(w, i) == PollBlock(v, i)
    ensures PollBlock(AnswerPoll(env, w, i), i) == PollBlock(AnswerPoll(env, v, i), i)
  {
    hide High, Low;
    var blk := 8 * i;
    assert forall k | blk <= k < blk + 8 :: w[k] == PollBlock(w, i)[k - blk] && v[k] == PollBlock(v, i)[k - blk];
    assert w[blk + 3] == v[blk + 3];
  }

  lemma {:induction false} PolledBlocks(env: Env, w: seq<bv8>, n: nat, i: nat)
    requires EnvOk(env) && |w| == WINDOW && n <= 4 && i < 4
    ensures PollBlock(PollUpTo(env, w, n), i) == PollBlock(if i < n then AnswerPoll(env, w, i) else w, i)
    ensures PollUpTo(env, w, n)[32..] == w[32..]
  {
    if n > 0 {
      hide AnswerPoll, PollBlock;
      var before := PollUpTo(env, w, n - 1);
      PolledBlocks(env, w, n - 1, i);
      PollStaysInBlock(env, before, n - 1);
      if i == n - 1 {
        PollReadsItsBlock(env, before, w, i);
      } else {
        PollLeavesOthers(env, before, n - 1, i);
      }
    }
  }

  /** A poll answers every port as if it were alone on the bus, and leaves the rest of the window as it was. */
  lemma PollAnswersPortsSeparately(env: Env, w: seq<bv8>, dev: Device, i: nat)
    requires EnvOk(env) && DeviceOk(dev) && |w| == WINDOW && i < 4
    requires !ShortStatus(w) && !ShortPak(w) && FirstLong(w, 0) == 4
    ensures var (w', dev') := ReadDma(env, w, dev);
            PollBlock(w', i) == PollBlock(AnswerPoll(env, w, i), i) && w'[32..] == w[32..] && dev' == dev
  {
    hide AnswerPoll, PollBlock;
    assert ReadDma(env, w, dev) == (PollUpTo(env, w, 4), dev);
    PolledBlocks(env, w, 4, i);
  }

  // ----- what the game reads back -----

  /** The frame of an acknowledged transaction carries the checksum of the data it carries. */
  lemma AnswerCarriesItsChecksum(env: Env, w: seq<bv8>, fb: int, port: nat, cmd: bv8, dev: Device)
    requires EnvOk(env) && DeviceOk(dev) && |w| == WINDOW && -1 <= fb <= 3 && port < 4
    ensures var w' := HandlePak(env, w, fb, port, cmd, dev).0;
            || w'[fb + 0x26] == Crc(w'[fb + 6..fb + 38])
            || (w'[fb + 2] == (w[fb + 2] & 0x3f) | 0x80 && env.ports[port].pak.ControllerPak?
                 && dev.images[port].Unreadable?)
    ensures var w' := HandlePak(env, w, fb, port, cmd, dev).0;
            forall i | 0 <= i < WINDOW && !(fb + 2 <= i <= fb + 0x26) :: w'[i] == w[i]
  {
    hide Crc, AddressBlock;
    var isWrite := cmd == 3;
    var data := if isWrite then w[fb + 6..fb + 38] else Fill(0);
    var (dev', answer) := Serve(env, dev, port, AddressBlock(w[fb + 4], w[fb + 5]), isWrite, data);
    if answer.Some? {
      var w' := HandlePak(env, w, fb, port, cmd, dev).0;
      ServedWriteEchoes(env, dev, port, AddressBlock(w[fb + 4], w[fb + 5]), data);
      assert w'[fb + 6..fb + 38] == answer.value;
    }
  }

  lemma ServedWriteEchoes(env: Env, dev: Device, port: nat, block: nat, data: seq<bv8>)
    requires EnvOk(env) && DeviceOk(dev) && port < 4 && |data| == 32
    ensures var answer := Serve(env, dev, port, block, true, data).1;
            answer.Some? ==> answer.value == data
  {
  }

  /** A read after a write, at any block: saves come back from a readable Controller Pak; the identify register
      echoes unless a Rumble Pak is emulated and was selected; everything else reads zero. */
  lemma ReadAfterWrite(env: Env, dev: Device, port: nat, block: nat, data: seq<bv8>)
    requires EnvOk(env) && DeviceOk(dev) && port < 4 && |data| == 32
    ensures var dev' := Serve(env, dev, port, block, true, data).0;
            Serve(env, dev', port, block, false, Fill(0)) ==
            (dev', if block == BLOCK_DETECT then
                     Some(if env.rumbleOn && data[31] >= RUMBLE_IDENTIFY then Fill(RUMBLE_IDENTIFY) else data)
                   else if block < BLOCK_DETECT && env.ports[port].pak.ControllerPak? then
                     if dev.images[port].Unreadable? then None else Some(data)
                   else Some(Fill(0)))
  {
  }

  /** A write reaches only its own block of its own port. */
  lemma WritesStayApart(env: Env, dev: Device, port: nat, block: nat, data: seq<bv8>, port': nat, block': nat)
    requires EnvOk(env) && DeviceOk(dev) && port < 4 && port' < 4 && |data| == 32
    requires port != port' || block != block'
    ensures Serve(env, Serve(env, dev, port, block, true, data).0, port', block', false, Fill(0)).1 ==
            Serve(env, dev, port', block', false, Fill(0)).1
  {
  }
}
