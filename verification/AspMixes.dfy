// What an interleave leaves behind: alternating halfwords, bytes a vector load does not reach, and the rest of DMEM.

module AspMixes {
  import opened Common
  import opened AspBuffers

  /** Bytes outside the output keep their value. */
  lemma {:induction false} MixedElsewhere(m: Mixer, left: nat, right: nat, out: nat, p: nat, j: nat)
    requires MixerOk(m) && j < DMEM_SIZE && !Covers(out, 32 * p, j)
    ensures Mixed(m, left, right, out, p).mem[j] == m.mem[j]
  {
    hide Mixed, MixPass, Covers;
    if p == 0 {
      MixedNothing(m, left, right, out);
    } else {
      var q := p - 1;
      CoversMore(out, 32 * q, 32, j);
      MixedElsewhere(m, left, right, out, q, j);
      MixedMore(m, left, right, out, q);
      KeptByPass(Mixed(m, left, right, out, q), left + 16 * q, right + 16 * q, out + 32 * q, j);
    }
  }

  lemma KeptByPass(m: Mixer, r2: nat, r3: nat, r4: nat, j: nat)
    requires MixerOk(m) && j < DMEM_SIZE && !Covers(r4, 32, j)
    ensures MixPass(m, r2, r3, r4).mem[j] == m.mem[j]
  {
    hide Weave, Quad, Covers;
  }

  /** What an unaligned load never reaches stays in the registers throughout. */
  lemma {:induction false} TailsStay(m: Mixer, left: nat, right: nat, out: nat, p: nat, i: nat)
    requires MixerOk(m) && i < 16
    ensures i >= 16 - left % 16 ==> Mixed(m, left, right, out, p).v1[i] == m.v1[i]
    ensures i >= 16 - right % 16 ==> Mixed(m, left, right, out, p).v2[i] == m.v2[i]
  {
    hide Mixed, MixPass;
    if p == 0 {
      MixedNothing(m, left, right, out);
    } else {
      var q := p - 1;
      MixedMore(m, left, right, out, q);
      TailsStay(m, left, right, out, q, i);
      SameOffset(left, q);
      SameOffset(right, q);
      TailsOfPass(Mixed(m, left, right, out, q), left + 16 * q, right + 16 * q, out + 32 * q, i);
    }
  }

  lemma SameOffset(channel: nat, q: nat)
    ensures (channel + 16 * q) % 16 == channel % 16
  {
  }

  lemma TailsOfPass(m: Mixer, r2: nat, r3: nat, r4: nat, i: nat)
    requires MixerOk(m) && i < 16
    ensures i >= 16 - r2 % 16 ==> MixPass(m, r2, r3, r4).v1[i] == m.v1[i]
    ensures i >= 16 - r3 % 16 ==> MixPass(m, r2, r3, r4).v2[i] == m.v2[i]
  {
    hide Weave, Overwritten, Quad;
  }

  /** The output misses every byte of the channel. */
  predicate Spared(channel: nat, out: nat, lines: nat) {
    forall i: nat | i < 16 * lines :: SparedByte(channel, out, lines, i)
  }

  predicate SparedByte(channel: nat, out: nat, lines: nat, i: nat) { !Covers(out, 32 * lines, Wrap(channel + i)) }

  /** Byte c of halfword k as it is heard: the channel's own, if its vector load reaches it. */
  function Heard(mem: seq<byte>, v: seq<byte>, channel: nat, k: nat, c: nat): byte
    requires |mem| == DMEM_SIZE && |v| == 16 && c < 2
  {
    if 2 * (k % 8) + c < 16 - channel % 16 then mem[Wrap(channel + 2 * k + c)] else v[2 * (k % 8) + c]
  }

  /** When the output fits DMEM and misses both channels, output halfword 2k is halfword k of the left channel as it
      was, and output halfword 2k + 1 that of the right: but for what unaligned loads do not reach, where the
      registers' old bytes are heard. */
  lemma {:induction false} MixedAlternates(m: Mixer, left: nat, right: nat, out: nat, p: nat, lines: nat, k: nat,
                                           c: nat)
    requires MixerOk(m) && p <= lines && 32 * lines <= DMEM_SIZE && k < 8 * p && c < 2
    requires Spared(left, out, lines) && Spared(right, out, lines)
    ensures Mixed(m, left, right, out, p).mem[Wrap(out + 4 * k + c)] == Heard(m.mem, m.v1, left, k, c)
    ensures Mixed(m, left, right, out, p).mem[Wrap(out + 4 * k + 2 + c)] == Heard(m.mem, m.v2, right, k, c)
  {
    var q := p - 1;
    var i: int := k - 8 * q;
    hide *;
    if i < 0 {
      MixedAlternates(m, left, right, out, q, lines, k, c);
      OldOutput(m, left, right, out, q, 4 * k + c);
      OldOutput(m, left, right, out, q, 4 * k + 2 + c);
    } else {
      NewOutput(m, left, right, out, q, lines, i, c);
    }
    assert out + 4 * k + c == out + (4 * k + c) && out + 4 * k + 2 + c == out + (4 * k + 2 + c);
  }

  /** Places of earlier passes keep what those wrote. */
  lemma OldOutput(m: Mixer, left: nat, right: nat, out: nat, q: nat, k: nat)
    requires MixerOk(m) && k < 32 * q && 32 * q + 32 <= DMEM_SIZE
    ensures Mixed(m, left, right, out, q + 1).mem[Wrap(out + k)] == Mixed(m, left, right, out, q).mem[Wrap(out + k)]
  {
    OutputPlace(out, q, k);
    MixedMore(m, left, right, out, q);
    hide *;
    KeptByPass(Mixed(m, left, right, out, q), left + 16 * q, right + 16 * q, out + 32 * q, Wrap(out + k));
  }

  lemma NewOutput(m: Mixer, left: nat, right: nat, out: nat, q: nat, lines: nat, i: nat, c: nat)
    requires MixerOk(m) && q < lines && 32 * lines <= DMEM_SIZE && i < 8 && c < 2
    requires Spared(left, out, lines) && Spared(right, out, lines)
    ensures var after, k := Mixed(m, left, right, out, q + 1).mem, 8 * q + i;
            && after[Wrap(out + (4 * k + c))] == Heard(m.mem, m.v1, left, k, c)
            && after[Wrap(out + (4 * k + 2 + c))] == Heard(m.mem, m.v2, right, k, c)
  {
    hide *;
    MixedMore(m, left, right, out, q);
    HeardNow(m, left, right, out, q, lines, i, c);
    JustWoven(Mixed(m, left, right, out, q), left + 16 * q, right + 16 * q, out + 32 * q, i, c);
    SamePlace(out, q, i, c);
  }

  lemma OutputPlace(out: nat, q: nat, k: nat)
    requires k < 32 * q + 32 <= DMEM_SIZE
    ensures Covers(out + 32 * q, 32, Wrap(out + k)) <==> k >= 32 * q
  {
  }

  lemma SamePlace(out: nat, q: nat, i: nat, c: nat)
    ensures Wrap(out + 32 * q + 4 * i + c) == Wrap(out + (4 * (8 * q + i) + c))
    ensures Wrap(out + 32 * q + 4 * i + 2 + c) == Wrap(out + (4 * (8 * q + i) + 2 + c))
  {
    assert out + 32 * q + 4 * i + c == out + (4 * (8 * q + i) + c);
    assert out + 32 * q + 4 * i + 2 + c == out + (4 * (8 * q + i) + 2 + c);
    hide Wrap;
  }

  /** What one pass writes, byte by byte. */
  lemma JustWoven(m: Mixer, r2: nat, r3: nat, r4: nat, k: nat, c: nat)
    requires MixerOk(m) && k < 8 && c < 2
    ensures MixPass(m, r2, r3, r4).mem[Wrap(r4 + 4 * k + c)] == Quad(m.mem, r2, m.v1)[2 * k + c]
    ensures MixPass(m, r2, r3, r4).mem[Wrap(r4 + 4 * k + 2 + c)] == Quad(m.mem, r3, m.v2)[2 * k + c]
  {
    var v1, v2 := Quad(m.mem, r2, m.v1), Quad(m.mem, r3, m.v2);
    HalfwordsAlternate(v1, v2, 8, k, c);
    StoredAt(m.mem, r4, Weave(v1, v2, 8), 4 * k + c);
    StoredAt(m.mem, r4, Weave(v1, v2, 8), 4 * k + 2 + c);
    assert r4 + (4 * k + c) == r4 + 4 * k + c && r4 + (4 * k + 2 + c) == r4 + 4 * k + 2 + c;
    hide Weave, Quad, Wrap, Overwritten;
  }

  lemma StoredAt(mem: seq<byte>, at: nat, v: seq<byte>, i: nat)
    requires |mem| == DMEM_SIZE && i < |v| == 32
    ensures Overwritten(mem, at, v)[Wrap(at + i)] == v[i]
  {
    InStore(at, i);
    hide Wrap, Covers;
  }

  lemma InStore(at: nat, i: nat)
    requires i < 32
    ensures Covers(at, 32, Wrap(at + i)) && Wrap(Wrap(at + i) - at) == i
  {
  }

  /** What pass q hears at its halfword i. */
  lemma HeardNow(m: Mixer, left: nat, right: nat, out: nat, q: nat, lines: nat, i: nat, c: nat)
    requires MixerOk(m) && q < lines && 32 * lines <= DMEM_SIZE && i < 8 && c < 2
    requires Spared(left, out, lines) && Spared(right, out, lines)
    ensures var before := Mixed(m, left, right, out, q);
            && Quad(before.mem, left + 16 * q, before.v1)[2 * i + c] == Heard(m.mem, m.v1, left, 8 * q + i, c)
            && Quad(before.mem, right + 16 * q, before.v2)[2 * i + c] == Heard(m.mem, m.v2, right, 8 * q + i, c)
  {
    var before := Mixed(m, left, right, out, q);
    ChannelByte(left, out, q, lines, i, c);
    ChannelByte(right, out, q, lines, i, c);
    hide *;
    TailsStay(m, left, right, out, q, 2 * i + c);
    MixedElsewhere(m, left, right, out, q, Wrap(left + 16 * q + (2 * i + c)));
    MixedElsewhere(m, left, right, out, q, Wrap(right + 16 * q + (2 * i + c)));
    HeardByte(m.mem, m.v1, before.mem, before.v1, left, q, i, c);
    HeardByte(m.mem, m.v2, before.mem, before.v2, right, q, i, c);
  }

  lemma HeardByte(mem: seq<byte>, v: seq<byte>, now: seq<byte>, w: seq<byte>, channel: nat, q: nat, i: nat, c: nat)
    requires |mem| == |now| == DMEM_SIZE && |v| == |w| == 16 && i < 8 && c < 2
    requires now[Wrap(channel + 16 * q + (2 * i + c))] == mem[Wrap(channel + 16 * q + (2 * i + c))]
    requires 2 * i + c >= 16 - channel % 16 ==> w[2 * i + c] == v[2 * i + c]
    ensures Quad(now, channel + 16 * q, w)[2 * i + c] == Heard(mem, v, channel, 8 * q + i, c)
  {
    SameOffset(channel, q);
    assert (8 * q + i) % 8 == i && channel + 16 * q + (2 * i + c) == channel + 2 * (8 * q + i) + c;
    hide Quad, Wrap;
  }

  lemma ChannelByte(channel: nat, out: nat, q: nat, lines: nat, i: nat, c: nat)
    requires q < lines && i < 8 && c < 2 && Spared(channel, out, lines)
    ensures !Covers(out, 32 * q, Wrap(channel + 16 * q + (2 * i + c)))
  {
    assert SparedByte(channel, out, lines, 16 * q + (2 * i + c));
    assert channel + (16 * q + (2 * i + c)) == channel + 16 * q + (2 * i + c);
    hide Wrap;
  }

  /** With both channels on 16-byte boundaries that is the plain interleaving. */
  lemma AlignedChannelsAreHeard(mem: seq<byte>, v: seq<byte>, channel: nat, k: nat, c: nat)
    requires |mem| == DMEM_SIZE && |v| == 16 && c < 2
    ensures channel % 16 == 0 ==> Heard(mem, v, channel, k, c) == mem[Wrap(channel + 2 * k + c)]
    ensures channel % 16 != 0 && k % 8 == 7 && c == 1 ==> Heard(mem, v, channel, k, c) == v[15]
  {
  }
}
