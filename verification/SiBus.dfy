// The SI read DMA as the source runs it: bytes of RDRAM overwritten in place, one completion message a call.

module SiBus {
  import opened Common
  import opened PakCrc
  import opened SiFrames
  import opened SiReplies

  const RDRAM_SIZE: nat := 0x800000
  const KSEG0: nat := 0x80000000

  /** Where the PIF buffer lies in RDRAM, with the source's 32-bit wrap-around. */
  function Offset(pifram: nat): nat { (pifram - KSEG0) % 0x1_0000_0000 }

  predicate ValidPifram(pifram: nat) { Offset(pifram) <= RDRAM_SIZE - 64 }

  /** The buffers served are those that lie in the eight megabytes behind 0x80000000. */
  lemma BufferIsInside(pifram: nat)
    requires pifram < 0x1_0000_0000
    ensures ValidPifram(pifram) <==> 0x8000_0000 <= pifram <= 0x807f_ffc0
    ensures ValidPifram(pifram) ==> Offset(pifram) == pifram - 0x8000_0000
  {
  }

  class SiBus {
    const rdram: array<bv8>
    var dev: Device
    var siMessages: nat

    constructor (rdram: array<bv8>, dev: Device)
      ensures this.rdram == rdram && this.dev == dev && siMessages == 0
    {
      this.rdram := rdram;
      this.dev := dev;
      siMessages := 0;
    }

    ghost function Window(p: nat): (w: seq<bv8>)
      requires p + WINDOW <= rdram.Length
      reads rdram
      ensures |w| == WINDOW
    {
      rdram[p..p + WINDOW]
    }

    /** Nothing outside the window at `p` differs from the earlier contents. */
    ghost predicate OnlyWindowDiffers(before: seq<bv8>, p: nat)
      reads rdram
    {
      |before| == rdram.Length && forall i | 0 <= i < rdram.Length && !(p <= i < p + WINDOW) :: rdram[i] == before[i]
    }

    method Poke(p: nat, i: nat, b: bv8)
      requires p + WINDOW <= rdram.Length && i < WINDOW
      modifies rdram
      ensures Window(p) == old(Window(p))[i := b]
      ensures forall k | 0 <= k < rdram.Length && k != p + i :: rdram[k] == old(rdram[k])
    {
      rdram[p + i] := b;
    }

    /** The device side of a pak transaction: the address decides which accessory answers. */
    method ServeAt(env: Env, port: nat, block: nat, isWrite: bool, sent: seq<bv8>) returns (ok: bool, data: seq<bv8>)
      requires EnvOk(env) && DeviceOk(dev) && port < 4 && |sent| == 32
      modifies this`dev
      ensures (dev, if ok then Some(data) else None) == Serve(env, old(dev), port, block, isWrite, sent)
      ensures |data| == 32
    {
      ok, data := true, sent;
      if block == BLOCK_DETECT {
        if isWrite {
          dev := dev.(cells := dev.cells[port := data]);
        } else {
          data := dev.cells[port];
          if env.rumbleOn && dev.cells[port][31] >= RUMBLE_IDENTIFY {
            data := Fill(RUMBLE_IDENTIFY);
          }
        }
      } else if block < BLOCK_DETECT {
        if env.ports[port].pak.ControllerPak? {
          if dev.images[port].Unreadable? {
            ok := false;
            return;
          }
          assert ImageOk(dev.images[port]);
          var blocks := dev.images[port].blocks;
          if isWrite {
            dev := dev.(images := dev.images[port := Readable(blocks[block := data])]);
          } else {
            data := if block in blocks then blocks[block] else Fill(0);
          }
        }
      } else if block == BLOCK_RUMBLE && env.rumbleOn {
        if isWrite {
          dev := dev.(motor := dev.motor + [(port, data[0] != 0)]);
        }
      }
    }

    method PutData(p: nat, at: nat, data: seq<bv8>)
      requires p + WINDOW <= rdram.Length && at + |data| <= WINDOW
      modifies rdram
      ensures Window(p) == Splice(old(Window(p)), at, data)
      ensures OnlyWindowDiffers(old(rdram[..]), p)
    {
      ghost var w := Window(p);
      for i := 0 to |data|
        invariant Window(p) == Splice(w, at, data[..i])
        invariant OnlyWindowDiffers(old(rdram[..]), p)
      {
        Poke(p, at + i, data[i]);
        assert Window(p) == Splice(w, at, data[..i + 1]);
      }
      assert data[..|data|] == data;
    }

    method HandlePakAt(env: Env, p: nat, fb: int, port: nat, cmd: bv8)
      requires EnvOk(env) && DeviceOk(dev) && p + WINDOW <= rdram.Length && -1 <= fb <= 3 && port < 4
      modifies rdram, this`dev
      ensures Window(p) == HandlePak(env, old(Window(p)), fb, port, cmd, old(dev)).0
      ensures dev == HandlePak(env, old(Window(p)), fb, port, cmd, old(dev)).1
      ensures OnlyWindowDiffers(old(rdram[..]), p)
    {
      hide AddressBlock, Crc, Splice, Fill, Serve, DeviceOk;
      ghost var w := Window(p);
      assert forall k | 0 <= k < WINDOW :: w[k] == rdram[p + k];
      assert rdram[p + fb + 4] == w[fb + 4] && rdram[p + fb + 5] == w[fb + 5] && rdram[p + fb + 2] == w[fb + 2];
      var block := AddressBlock(rdram[p + fb + 4], rdram[p + fb + 5]);
      var isWrite := cmd == 3;
      var sent := Fill(0);
      if isWrite {
        sent := rdram[p + fb + 6..p + fb + 38];
        assert sent == w[fb + 6..fb + 38];
      }
      var ok, data := ServeAt(env, port, block, isWrite, sent);
      if !ok {
        Poke(p, fb + 2, (rdram[p + fb + 2] & 0x3f) | 0x80);
        return;
      }
      Reply(p, fb, isWrite, data);
    }

    /** The data of a read, and the checksum of either. */
    method Reply(p: nat, fb: int, isWrite: bool, data: seq<bv8>)
      requires p + WINDOW <= rdram.Length && -1 <= fb <= 3 && |data| == 32
      modifies rdram
      ensures var before := old(Window(p));
              Window(p) == (if isWrite then before else Splice(before, fb + 6, data))[fb + 0x26 := Crc(data)]
      ensures OnlyWindowDiffers(old(rdram[..]), p)
    {
      hide Crc, Splice;
      if !isWrite {
        PutData(p, fb + 6, data);
      }
      var crc := PakDataCrc(data);
      Poke(p, fb + 0x26, crc);
    }

    /** __osSiRawStartDma: answers a read of a sane buffer, touches nothing else, and always completes once. */
    method StartDma(env: Env, direction: int, pifram: nat)
      requires EnvOk(env) && DeviceOk(dev) && rdram.Length == RDRAM_SIZE && pifram < 0x1_0000_0000
      modifies rdram, this`dev, this`siMessages
      ensures siMessages == old(siMessages) + 1 && DeviceOk(dev)
      ensures direction == 0 && 0x8000_0000 <= pifram <= 0x807f_ffc0 ==>
                var p := pifram - 0x8000_0000;
                && (Window(p), dev) == ReadDma(env, old(Window(p)), old(dev)) && OnlyWindowDiffers(old(rdram[..]), p)
      ensures !(direction == 0 && 0x8000_0000 <= pifram <= 0x807f_ffc0) ==>
                rdram[..] == old(rdram[..]) && dev == old(dev)
    {
      BufferIsInside(pifram);
      if direction == 0 && ValidPifram(pifram) {
        Answer(env, Offset(pifram));
      }
      siMessages := siMessages + 1;
    }

    method Answer(env: Env, p: nat)
      requires EnvOk(env) && DeviceOk(dev) && p + WINDOW <= rdram.Length
      modifies rdram, this`dev
      ensures Window(p) == ReadDma(env, old(Window(p)), old(dev)).0
      ensures dev == ReadDma(env, old(Window(p)), old(dev)).1
      ensures OnlyWindowDiffers(old(rdram[..]), p)
    {
      hide HandlePak, DeviceOk, AnswerPoll, FirstLong, AnswerStatus;
      ghost var w, d := Window(p), dev;
      assert forall k | 0 <= k < WINDOW :: w[k] == rdram[p + k];
      var port := 0;
      while port < 3 && rdram[p + port] == 0
        invariant port <= 3 && forall k | 0 <= k < port :: w[k] == 0
      {
        port := port + 1;
      }
      assert port == Lead(w);
      var tx, rx, cmd := rdram[p + port], rdram[p + port + 1], rdram[p + port + 2];
      assert tx == w[port] && rx == w[port + 1] && cmd == w[port + 2];
      if cmd == 0 && tx == 0x01 && rx == 0x03 {
        assert ReadDma(env, w, d) == (AnswerStatus(env, w), d);
        AnswerStatusAt(env, p, port);
        return;
      }
      if (cmd == 2 && tx == 0x03 && rx == 0x21) || (cmd == 3 && tx == 0x23 && rx == 0x01) {
        assert ReadDma(env, w, d) == if HasPak(env, port) then HandlePak(env, w, port - 1, port, cmd, d)
                                     else (w[port + 1 := rx | 0x80], d);
        if HasPak(env, port) {
          HandlePakAt(env, p, port - 1, port, cmd);
        } else {
          Poke(p, port + 1, rx | 0x80);
        }
        return;
      }
      assert !ShortStatus(w) && !ShortPak(w);
      AnswerUnaligned(env, p);
    }

    /** Frames that do not start with a short command: padded pak frames and the button poll. */
    method AnswerUnaligned(env: Env, p: nat)
      requires EnvOk(env) && DeviceOk(dev) && p + WINDOW <= rdram.Length
      requires !ShortStatus(Window(p)) && !ShortPak(Window(p))
      modifies rdram, this`dev
      ensures Window(p) == ReadDma(env, old(Window(p)), old(dev)).0
      ensures dev == ReadDma(env, old(Window(p)), old(dev)).1
      ensures OnlyWindowDiffers(old(rdram[..]), p)
    {
      hide HandlePak, DeviceOk, AnswerPoll, AnswerStatus, ShortStatus, ShortPak;
      ghost var w := Window(p);
      var ch := FindLong(p);
      if ch < 4 {
        assert rdram[p + ch + 3] == w[ch + 3] && rdram[p + ch + 2] == w[ch + 2];
        if HasPak(env, ch) {
          HandlePakAt(env, p, ch, ch, rdram[p + ch + 3]);
        } else {
          Poke(p, ch + 2, rdram[p + ch + 2] | 0x80);
        }
      } else {
        for i := 0 to 4
          invariant dev == old(dev)
          invariant Window(p) == PollUpTo(env, w, i) && OnlyWindowDiffers(old(rdram[..]), p)
        {
          Poll(env, p, i);
        }
      }
    }

    method AnswerStatusAt(env: Env, p: nat, port: nat)
      requires EnvOk(env) && p + WINDOW <= rdram.Length && port == Lead(Window(p))
      modifies rdram
      ensures Window(p) == AnswerStatus(env, old(Window(p)))
      ensures forall k | 0 <= k < rdram.Length && !(p <= k < p + WINDOW) :: rdram[k] == old(rdram[k])
    {
      if env.ports[port].connected {
        Poke(p, port + 3, 0x05);
        Poke(p, port + 4, 0x00);
        Poke(p, port + 5, if env.ports[port].pak.NoPak? then 0 else 1);
      } else {
        Poke(p, port + 1, 0x80 | 0x03);
      }
    }

    /** The first channel whose bytes form a padded pak frame behind all-zero filler, or 4. */
    method FindLong(p: nat) returns (ch: nat)
      requires p + WINDOW <= rdram.Length
      ensures ch == FirstLong(Window(p), 0)
    {
      ghost var w := Window(p);
      ch := 0;
      while ch < 4
        invariant ch <= 4 && FirstLong(w, 0) == FirstLong(w, ch)
      {
        if IsPakTriple(rdram[p + ch + 1], rdram[p + ch + 2], rdram[p + ch + 3]) {
          var fillerOk := true;
          for k := 0 to ch
            invariant fillerOk <==> forall j | 0 <= j < k :: w[j] == 0
          {
            if rdram[p + k] != 0 {
              fillerOk := false;
            }
          }
          if fillerOk {
            return;
          }
        }
        ch := ch + 1;
      }
    }

    method Poll(env: Env, p: nat, i: nat)
      requires EnvOk(env) && p + WINDOW <= rdram.Length && i < 4
      modifies rdram
      ensures Window(p) == AnswerPoll(env, old(Window(p)), i)
      ensures Replied(env.ports[i], PollBlock(old(Window(p)), i), PollBlock(Window(p), i))
      ensures forall k | 0 <= k < rdram.Length && !(p <= k < p + WINDOW) :: rdram[k] == old(rdram[k])
    {
      BlockIsReplied(env, Window(p), i);
      hide High, Low, Replied;
      var blk := 8 * i;
      var cmd := rdram[p + blk + 3];
      assert cmd == Window(p)[blk + 3];
      if cmd != 0 && cmd != 1 {
        return;
      }
      if !env.ports[i].connected {
        Poke(p, blk + 2, 0x80);
        return;
      }
      if cmd == 0 {
        Poke(p, blk + 2, 0x03);
        Poke(p, blk + 4, 0x05);
        Poke(p, blk + 5, 0x00);
        Poke(p, blk + 6, if env.ports[i].pak.NoPak? then 0 else 1);
        Poke(p, blk + 7, 0x00);
      } else {
        Poke(p, blk + 2, 0x04);
        Poke(p, blk + 4, High(env.ports[i].button));
        Poke(p, blk + 5, Low(env.ports[i].button));
        Poke(p, blk + 6, env.ports[i].stickX);
        Poke(p, blk + 7, env.ports[i].stickY);
      }
    }
  }
}
