// What the game finds in the window, byte by byte: the replies to status, button and pak requests.

module SiReplies {
  import opened Common
  import opened SiFrames
  import PakCrc

  // ----- the poll -----

  /** Two bytes carry a halfword, the high byte first. */
  predicate Carry(hi: bv8, lo: bv8, halfword: bv16) { hi as int * 256 + lo as int == halfword as int }

  /** The reply to one 8-byte block: the buttons as one big-endian halfword, the sticks, the pak bit, or the error. */
  ghost predicate Replied(port: Port, before: seq<bv8>, after: seq<bv8>)
    requires |before| == |after| == 8
  {
    var cmd := before[3];
    && after[0] == before[0] && after[1] == before[1] && after[3] == before[3]
    && if cmd == 1 && port.connected then
         && after[2] == 4 && Carry(after[4], after[5], port.button)
         && after[6] == port.stickX && after[7] == port.stickY
       else if cmd == 0 && port.connected then
         && after[2] == 3 && after[4] == 5 && after[5] == 0
         && after[6] == (if port.pak.NoPak? then 0 else 1) && after[7] == 0
       else if cmd == 0 || cmd == 1 then after == before[2 := 0x80]
       else after == before
  }

  lemma Joined(hi: bv8, lo: bv8)
    ensures (((hi as bv16) << 8) | lo as bv16) as int == hi as int * 256 + lo as int
  {
  }

  lemma Split(b: bv16)
    ensures ((High(b) as bv16) << 8) | (Low(b) as bv16) == b
  {
  }

  lemma HalvesMakeButton(b: bv16)
    ensures Carry(High(b), Low(b), b)
  {
    Split(b);
    hide High, Low;
    Joined(High(b), Low(b));
  }

  lemma BlockIsReplied(env: Env, w: seq<bv8>, i: nat)
    requires EnvOk(env) && |w| == WINDOW && i < 4
    ensures Replied(env.ports[i], PollBlock(w, i), PollBlock(AnswerPoll(env, w, i), i))
  {
    HalvesMakeButton(env.ports[i].button);
    hide High, Low, Replied, Carry;
    var port, before := env.ports[i], PollBlock(w, i);
    assert before[3] == w[8 * i + 3] && before[2] == w[8 * i + 2];
    var after := PollBlock(AnswerPoll(env, w, i), i);
    if before[3] != 0 && before[3] != 1 {
      assert after == before;
    } else if !port.connected {
      assert after == before[2 := 0x80];
    } else if before[3] == 0 {
      assert after == before[2 := 3][4 := 5][5 := 0][6 := if port.pak.NoPak? then 0 else 1][7 := 0];
    } else {
      assert after == before[2 := 4][4 := High(port.button)][5 := Low(port.button)][6 := port.stickX][7 := port.stickY];
    }
    hide AnswerPoll, PollBlock;
    RepliedCases(port, before, after);
  }

  lemma RepliedCases(port: Port, before: seq<bv8>, after: seq<bv8>)
    requires |before| == |after| == 8 && Carry(High(port.button), Low(port.button), port.button)
    requires after ==
             if before[3] != 0 && before[3] != 1 then before
             else if !port.connected then before[2 := 0x80]
             else if before[3] == 0 then before[2 := 3][4 := 5][5 := 0][6 := if port.pak.NoPak? then 0 else 1][7 := 0]
             else before[2 := 4][4 := High(port.button)][5 := Low(port.button)][6 := port.stickX][7 := port.stickY]
    ensures Replied(port, before, after)
  {
    hide High, Low, Carry;
  }

  /** In a poll every port gets its own reply, and nothing else in the window or behind it changes. */
  lemma PollReplies(env: Env, w: seq<bv8>, dev: Device, i: nat)
    requires EnvOk(env) && DeviceOk(dev) && |w| == WINDOW && i < 4
    requires !ShortStatus(w) && !ShortPak(w) && FirstLong(w, 0) == 4
    ensures var (w', dev') := ReadDma(env, w, dev);
            Replied(env.ports[i], w[8 * i..8 * i + 8], w'[8 * i..8 * i + 8]) && w'[32..] == w[32..] && dev' == dev
  {
    PollAnswersPortsSeparately(env, w, dev, i);
    BlockIsReplied(env, w, i);
    hide Replied, AnswerPoll, ReadDma;
  }

  // ----- the status request of one port -----

  /** A status frame for port ch is its three bytes behind ch zeros; the reply says controller, with or without a pak,
      or that nobody answers. */
  lemma StatusReply(env: Env, w: seq<bv8>, dev: Device, ch: nat)
    requires EnvOk(env) && DeviceOk(dev) && |w| == WINDOW && ch < 4
    requires (forall k | 0 <= k < ch :: w[k] == 0) && w[ch] == 1 && w[ch + 1] == 3 && w[ch + 2] == 0
    ensures var (w', dev') := ReadDma(env, w, dev);
            && dev' == dev && (forall k | 0 <= k < WINDOW && !(ch < k <= ch + 5) :: w'[k] == w[k])
            && w'[ch + 2] == 0
            && if env.ports[ch].connected then
                 && w'[ch + 1] == 3 && w'[ch + 3] == 5 && w'[ch + 4] == 0
                 && w'[ch + 5] == if env.ports[ch].pak.NoPak? then 0 else 1
               else w'[ch + 1] == 0x83 && w'[ch + 3..ch + 6] == w[ch + 3..ch + 6]
  {
    assert Lead(w) == ch;
    hide HandlePak, PollUpTo, FirstLong;
  }

  // ----- pak requests -----

  /** The two address bytes are big-endian, and their low five bits, a checksum of the address, are dropped. */
  lemma AddressNamesBlock(hi: bv8, lo: bv8, block: nat, low: nat)
    requires low < 32 && hi as int * 256 + lo as int == 32 * block + low
    ensures AddressBlock(hi, lo) == block
  {
  }

  /** A pak request whose three command bytes stand at `at`, behind zeros for the ports before: at the port's own byte,
      or one further behind a dummy byte, which must not be zero below the last port. */
  ghost predicate PakRequest(w: seq<bv8>, port: nat, at: nat) {
    && |w| == 64 && port < 4 && (forall k | 0 <= k < port :: w[k] == 0)
    && (at == port || (at == port + 1 && (w[port] != 0 || port == 3)))
    && ((w[at] == 3 && w[at + 1] == 0x21 && w[at + 2] == 2) || (w[at] == 0x23 && w[at + 1] == 1 && w[at + 2] == 3))
  }

  function AddressedBlock(w: seq<bv8>, at: nat): nat
    requires at + 5 <= |w|
  {
    (w[at + 3] as int * 256 + w[at + 4] as int) / 32
  }

  /** A request nobody answers: no controller, no pak, or a save that cannot be read. */
  ghost predicate Unanswered(env: Env, dev: Device, port: nat, block: nat)
    requires EnvOk(env) && DeviceOk(dev) && port < 4
  {
    || !env.ports[port].connected || env.ports[port].pak.NoPak?
    || (block < 0x400 && env.ports[port].pak.ControllerPak? && dev.images[port].Unreadable?)
  }

  /** What byte k of a block reads as: the save, the identify register with the Rumble Pak's answer, or zero. */
  function ByteRead(env: Env, dev: Device, port: nat, block: nat, k: nat): bv8
    requires EnvOk(env) && DeviceOk(dev) && port < 4 && k < 32
  {
    var save := env.ports[port].pak.ControllerPak? && dev.images[port].Readable?;
    if block == 0x400 then if env.rumbleOn && dev.cells[port][31] >= 0x80 then 0x80 else dev.cells[port][k]
    else if block < 0x400 && save && block in dev.images[port].blocks then
      assert ImageOk(dev.images[port]);
      dev.images[port].blocks[block][k]
    else 0
  }

  lemma RequestIsHandled(env: Env, w: seq<bv8>, dev: Device, port: nat, at: nat)
    requires EnvOk(env) && DeviceOk(dev) && PakRequest(w, port, at)
    ensures ReadDma(env, w, dev) ==
            if env.ports[port].connected && !env.ports[port].pak.NoPak? then
              HandlePak(env, w, at - 1, port, w[at + 2], dev)
            else (w[at + 1 := w[at + 1] | 0x80], dev)
  {
    assert Lead(w) == port;
    hide HandlePak;
    if at == port + 1 {
      assert LongPak(w, port);
      FirstLongHere(w, port);
    }
  }

  lemma FirstLongHere(w: seq<bv8>, port: nat)
    requires |w| == WINDOW && port < 4 && LongPak(w, port)
    ensures FirstLong(w, 0) == port
  {
    var ch := FirstLong(w, 0);
    FramesAreUnambiguous(w, port, if ch < 4 then ch else port);
  }

  /** The error bits on the receive size of a request that carries none. */
  lemma ErrorBits(rx: bv8)
    requires rx == 0x21 || rx == 0x01
    ensures (rx & 0x3f) | 0x80 == rx | 0x80
  {
  }

  lemma ReadServed(env: Env, dev: Device, port: nat, block: nat, data: seq<bv8>, k: nat)
    requires EnvOk(env) && DeviceOk(dev) && port < 4 && data == Fill(0) && k < 32
    requires env.ports[port].connected && !env.ports[port].pak.NoPak?
    ensures var (dev', answer) := Serve(env, dev, port, block, false, data);
            && dev' == dev && (answer.None? <==> Unanswered(env, dev, port, block))
            && (answer.Some? ==> answer.value[k] == ByteRead(env, dev, port, block, k))
  {
    assert ImageOk(dev.images[port]);
  }

  lemma WriteServed(env: Env, dev: Device, port: nat, block: nat, data: seq<bv8>)
    requires EnvOk(env) && DeviceOk(dev) && port < 4 && |data| == 32
    requires env.ports[port].connected && !env.ports[port].pak.NoPak?
    ensures var (dev', answer) := Serve(env, dev, port, block, true, data);
            && (answer.None? <==> Unanswered(env, dev, port, block))
            && (answer.None? ==> dev' == dev) && (answer.Some? ==> answer.value == data)
  {
  }

  /** The reply to a read request: the block's bytes behind the address, then their checksum; unanswered, the error bit
      alone. The accessory is as before. */
  lemma PakReadReply(env: Env, w: seq<bv8>, dev: Device, port: nat, at: nat)
    requires EnvOk(env) && DeviceOk(dev) && PakRequest(w, port, at) && w[at + 2] == 2
    ensures var (w', dev') := ReadDma(env, w, dev);
            var block := AddressedBlock(w, at);
            && dev' == dev
            && if Unanswered(env, dev, port, block) then w' == w[at + 1 := 0xa1]
               else
                 && (forall k | 0 <= k < 32 :: w'[at + 5 + k] == ByteRead(env, dev, port, block, k))
                 && w'[at + 37] == PakCrc.Crc(w'[at + 5..at + 37])
                 && forall i | 0 <= i < 64 && !(at + 5 <= i <= at + 37) :: w'[i] == w[i]
  {
    RequestIsHandled(env, w, dev, port, at);
    ErrorBits(w[at + 1]);
    var block := AddressedBlock(w, at);
    if env.ports[port].connected && !env.ports[port].pak.NoPak? {
      forall k: nat | k < 32
        ensures var (dev', answer) := Serve(env, dev, port, block, false, Fill(0));
                && dev' == dev && (answer.None? <==> Unanswered(env, dev, port, block))
                && (answer.Some? ==> answer.value[k] == ByteRead(env, dev, port, block, k))
      {
        ReadServed(env, dev, port, block, Fill(0), k);
      }
      hide Serve, PakCrc.Crc, ReadDma, ByteRead, Unanswered, DeviceOk;
      var (dev', answer) := Serve(env, dev, port, block, false, Fill(0));
      if answer.Some? {
        ReadWindow(env, w, dev, port, at, answer.value);
      }
    } else {
      hide HandlePak, ReadDma;
    }
  }

  lemma ReadWindow(env: Env, w: seq<bv8>, dev: Device, port: nat, at: nat, bytes: seq<bv8>)
    requires EnvOk(env) && DeviceOk(dev) && PakRequest(w, port, at) && w[at + 2] == 2 && |bytes| == 32
    requires Serve(env, dev, port, AddressedBlock(w, at), false, Fill(0)) == (dev, Some(bytes))
    ensures var (w', dev') := HandlePak(env, w, at - 1, port, w[at + 2], dev);
            && dev' == dev && w'[at + 5..at + 37] == bytes && w'[at + 37] == PakCrc.Crc(bytes)
            && forall i | 0 <= i < 64 && !(at + 5 <= i <= at + 37) :: w'[i] == w[i]
  {
    hide Serve, PakCrc.Crc, DeviceOk;
  }

  /** The reply to a write request: the checksum of the bytes written, and the accessory changed as the block says;
      unanswered, the error bit alone, and nothing is changed. */
  lemma PakWriteReply(env: Env, w: seq<bv8>, dev: Device, port: nat, at: nat)
    requires EnvOk(env) && DeviceOk(dev) && PakRequest(w, port, at) && w[at + 2] == 3
    ensures var (w', dev') := ReadDma(env, w, dev);
            var block, data := AddressedBlock(w, at), w[at + 5..at + 37];
            if Unanswered(env, dev, port, block) then w' == w[at + 1 := 0x81] && dev' == dev
            else w' == w[at + 37 := PakCrc.Crc(data)] && dev' == Serve(env, dev, port, block, true, data).0
  {
    RequestIsHandled(env, w, dev, port, at);
    ErrorBits(w[at + 1]);
    var block, data := AddressedBlock(w, at), w[at + 5..at + 37];
    if env.ports[port].connected && !env.ports[port].pak.NoPak? {
      WriteServed(env, dev, port, block, data);
      hide Serve, PakCrc.Crc, ReadDma, Unanswered, DeviceOk;
    } else {
      hide HandlePak, ReadDma;
    }
  }

  /** What an access changes: only a write to the identify register changes that register, only a write to a readable
      save its block, and only a write to the motor register, with rumble on, drives the motor, by its first byte. */
  lemma AccessChanges(env: Env, dev: Device, port: nat, block: nat, isWrite: bool, data: seq<bv8>)
    requires EnvOk(env) && DeviceOk(dev) && port < 4 && |data| == 32
    ensures var dev' := Serve(env, dev, port, block, isWrite, data).0;
            && dev'.cells == (if isWrite && block == 0x400 then dev.cells[port := data] else dev.cells)
            && dev'.motor == (if isWrite && block == 0x600 && env.rumbleOn then dev.motor + [(port, data[0] != 0)]
                              else dev.motor)
            && dev'.images ==
               if isWrite && block < 0x400 && env.ports[port].pak.ControllerPak? && dev.images[port].Readable?
               then dev.images[port := Readable(dev.images[port].blocks[block := data])] else dev.images
  {
  }
}
