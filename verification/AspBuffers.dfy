// The DMEM loops of the audio microcode: clear, move and interleave, sixteen bytes a pass, addresses wrapping around.

module AspBuffers {
  import opened Common

  const DMEM_SIZE: nat := 0x1000
  const BASE: nat := 0x5c0

  /** Passes the loops take for a count: the count in sixteens, rounded up. */
  function Passes(count: nat): nat { (count + 15) / 16 }

  lemma PassesCover(count: nat, passes: nat)
    requires 16 * passes - 16 < count <= 16 * passes
    ensures Passes(count) == passes
  {
  }

  // ----- DMEM as a circle of bytes -----

  function Wrap(i: int): (r: nat)
    ensures r < DMEM_SIZE
  {
    i % DMEM_SIZE
  }

  /** Byte j of DMEM lies within the n bytes from `start` on, addresses wrapping around. */
  predicate Covers(start: nat, n: nat, j: nat) { Wrap(j - start) < n }

  /** What a load of n bytes yields. */
  function Bytes(mem: seq<byte>, at: nat, n: nat): (v: seq<byte>)
    requires |mem| == DMEM_SIZE
    ensures |v| == n && forall i | 0 <= i < n :: v[i] == mem[Wrap(at + i)]
  {
    seq(n, i requires 0 <= i < n => mem[Wrap(at + i)])
  }

  /** DMEM after a store of `v`. */
  function Overwritten(mem: seq<byte>, at: nat, v: seq<byte>): (r: seq<byte>)
    requires |mem| == DMEM_SIZE && |v| <= DMEM_SIZE
    ensures |r| == DMEM_SIZE
    ensures forall j {:trigger r[j]} | 0 <= j < DMEM_SIZE ::
              r[j] == if Covers(at, |v|, j) then v[Wrap(j - at)] else mem[j]
  {
    seq(DMEM_SIZE, j requires 0 <= j < DMEM_SIZE => if Covers(at, |v|, j) then v[Wrap(j - at)] else mem[j])
  }

  /** Distances around the circle, from a start and from n bytes further on. */
  lemma WrapShift(start: nat, n: nat, j: nat)
    requires j < DMEM_SIZE
    ensures n < DMEM_SIZE && Wrap(j - start) >= n ==> Wrap(j - (start + n)) == Wrap(j - start) - n
    ensures n <= DMEM_SIZE && Wrap(j - start) < n ==> Wrap(j - (start + n)) == Wrap(j - start) - n + DMEM_SIZE
  {
  }

  lemma WrapBack(start: nat, i: nat, j: nat)
    requires j < DMEM_SIZE && i < DMEM_SIZE
    ensures j == Wrap(start + i) <==> Wrap(j - start) == i
  {
  }

  lemma CoversMore(start: nat, n: nat, m: nat, j: nat)
    requires j < DMEM_SIZE && m <= DMEM_SIZE
    ensures Covers(start, n + m, j) <==> Covers(start, n, j) || Covers(start + n, m, j)
  {
    if n < DMEM_SIZE {
      WrapShift(start, n, j);
    }
  }

  /** Two stores in a row are one longer store. */
  lemma OverwrittenTwice(mem: seq<byte>, at: nat, v: seq<byte>, w: seq<byte>)
    requires |mem| == DMEM_SIZE && |v| + |w| <= DMEM_SIZE
    ensures Overwritten(Overwritten(mem, at, v), at + |v|, w) == Overwritten(mem, at, v + w)
  {
    var once, twice := Overwritten(mem, at, v), Overwritten(Overwritten(mem, at, v), at + |v|, w);
    var both := Overwritten(mem, at, v + w);
    hide Overwritten;
    forall j | 0 <= j < DMEM_SIZE
      ensures twice[j] == both[j]
    {
      assert once[j] == if Covers(at, |v|, j) then v[Wrap(j - at)] else mem[j];
      WrapShift(at, |v|, j);
    }
  }

  /** The byte stores of one vector store. */
  method StoreBytes(dmem: array<byte>, at: nat, v: seq<byte>)
    requires dmem.Length == DMEM_SIZE && |v| <= DMEM_SIZE
    modifies dmem
    ensures dmem[..] == Overwritten(old(dmem[..]), at, v)
  {
    ghost var before := dmem[..];
    for i := 0 to |v|
      invariant forall j | 0 <= j < DMEM_SIZE :: dmem[j] == if Covers(at, i, j) then v[Wrap(j - at)] else before[j]
    {
      forall j | 0 <= j < DMEM_SIZE
        ensures Covers(at, i + 1, j) <==> Covers(at, i, j) || j == Wrap(at + i)
        ensures j == Wrap(at + i) <==> Wrap(j - at) == i
      {
        WrapBack(at, i, j);
      }
      hide Wrap, Covers;
      dmem[Wrap(at + i)] := v[i];
    }
  }

  method LoadBytes(dmem: array<byte>, at: nat, n: nat) returns (v: seq<byte>)
    requires dmem.Length == DMEM_SIZE
    ensures v == Bytes(dmem[..], at, n)
  {
    v := [];
    for i := 0 to n
      invariant |v| == i && forall k | 0 <= k < i :: v[k] == dmem[Wrap(at + k)]
    {
      v := v + [dmem[Wrap(at + i)]];
    }
  }

  // ----- clear (L_11DC) -----

  /** DMEM with the n bytes from `start` on zero, all of it when n is large enough. */
  function Cleared(mem: seq<byte>, start: nat, n: nat): (r: seq<byte>)
    requires |mem| == DMEM_SIZE
    ensures |r| == DMEM_SIZE
    ensures forall j {:trigger r[j]} | 0 <= j < DMEM_SIZE :: r[j] == if Covers(start, n, j) then 0 else mem[j]
  {
    seq(DMEM_SIZE, j requires 0 <= j < DMEM_SIZE => if Covers(start, n, j) then 0 else mem[j])
  }

  lemma ClearedNothing(mem: seq<byte>, start: nat)
    requires |mem| == DMEM_SIZE
    ensures Cleared(mem, start, 0) == mem
  {
  }

  lemma ClearedMore(mem: seq<byte>, start: nat, n: nat, m: nat)
    requires |mem| == DMEM_SIZE && m <= DMEM_SIZE
    ensures Overwritten(Cleared(mem, start, n), start + n, Zeros(m)) == Cleared(mem, start, n + m)
  {
    var part, all := Cleared(mem, start, n), Cleared(mem, start, n + m);
    var more := Overwritten(part, start + n, Zeros(m));
    hide Overwritten, Cleared;
    forall j | 0 <= j < DMEM_SIZE
      ensures more[j] == all[j]
    {
      CoversMore(start, n, m, j);
      assert part[j] == if Covers(start, n, j) then 0 else mem[j];
    }
  }

  /** Zeroes the rounded-up buffer, wherever it starts, wrapping around DMEM, and nothing else. */
  method Clear(dmem: array<byte>, address: nat, count: nat) returns (passes: nat)
    requires dmem.Length == DMEM_SIZE && address < 0x1_0000 && count < 0x1_0000
    modifies dmem
    ensures passes == Passes(count) && dmem[..] == Cleared(old(dmem[..]), address + BASE, 16 * passes)
  {
    passes := 0;
    hide *;
    ghost var before, start := dmem[..], address + BASE;
    ClearedNothing(before, start);
    if count == 0 {
      PassesCover(count, passes);
      return;
    }
    var r2 := address + BASE;
    var r3: int := count - 16;
    while true
      invariant r2 == start + 16 * passes && r3 == count - 16 * (passes + 1) && r3 > -16
      invariant dmem[..] == Cleared(before, start, 16 * passes)
      decreases r3
    {
      StoreBytes(dmem, r2, Zeros(8));
      ClearedMore(before, start, 16 * passes, 8);
      StoreBytes(dmem, r2 + 8, Zeros(8));
      ClearedMore(before, start, 16 * passes + 8, 8);
      r2 := r2 + 16;
      passes := passes + 1;
      if r3 <= 0 {
        PassesCover(count, passes);
        break;
      }
      r3 := r3 - 16;
    }
  }

  // ----- move (L_140C) -----

  /** DMEM after p passes: each reads sixteen bytes as the passes before it left them, then writes them. */
  function Moved(mem: seq<byte>, from: nat, to: nat, p: nat): (r: seq<byte>)
    requires |mem| == DMEM_SIZE
    ensures |r| == DMEM_SIZE
  {
    if p == 0 then mem else
    var before := Moved(mem, from, to, p - 1);
    Overwritten(before, to + 16 * (p - 1), Bytes(before, from + 16 * (p - 1), 16))
  }

  lemma MovedMore(mem: seq<byte>, from: nat, to: nat, p: nat)
    requires |mem| == DMEM_SIZE
    ensures Moved(mem, from, to, p + 1) ==
            Overwritten(Moved(mem, from, to, p), to + 16 * p, Bytes(Moved(mem, from, to, p), from + 16 * p, 16))
  {
  }

  lemma MovedNothing(mem: seq<byte>, from: nat, to: nat)
    requires |mem| == DMEM_SIZE
    ensures Moved(mem, from, to, 0) == mem
  {
  }

  /** For any operands, overlapping and wrapping ones included: the passes one after the other, as many as the count
      rounds up to. */
  method Move(dmem: array<byte>, from: nat, to: nat, count: nat) returns (passes: nat)
    requires dmem.Length == DMEM_SIZE && from < 0x1_0000 && to < 0x1_0000 && count < 0x1_0000
    modifies dmem
    ensures passes == Passes(count) && dmem[..] == Moved(old(dmem[..]), from + BASE, to + BASE, passes)
  {
    passes := 0;
    hide *;
    ghost var before := dmem[..];
    MovedNothing(before, from + BASE, to + BASE);
    if count == 0 {
      PassesCover(count, passes);
      return;
    }
    var r1: int, r2, r3 := count, from + BASE, to + BASE;
    while true
      invariant r1 == count - 16 * passes && r1 > 0
      invariant r2 == from + BASE + 16 * passes && r3 == to + BASE + 16 * passes
      invariant dmem[..] == Moved(before, from + BASE, to + BASE, passes)
      decreases r1
    {
      MovePass(dmem, r2, r3);
      MovedMore(before, from + BASE, to + BASE, passes);
      r1 := r1 - 16;
      r2 := r2 + 16;
      r3 := r3 + 16;
      passes := passes + 1;
      if r1 <= 0 {
        PassesCover(count, passes);
        break;
      }
    }
  }

  /** One pass: both eight-byte loads come before both stores. */
  method MovePass(dmem: array<byte>, r2: nat, r3: nat)
    requires dmem.Length == DMEM_SIZE
    modifies dmem
    ensures dmem[..] == Overwritten(old(dmem[..]), r3, Bytes(old(dmem[..]), r2, 16))
  {
    ghost var before := dmem[..];
    var v1 := LoadBytes(dmem, r2, 8);
    var v2 := LoadBytes(dmem, r2 + 8, 8);
    StoreBytes(dmem, r3, v1);
    StoreBytes(dmem, r3 + 8, v2);
    OverwrittenTwice(before, r3, v1, v2);
    assert v1 + v2 == Bytes(before, r2, 16);
  }

  /** Bytes outside the rounded-up destination keep their value. */
  lemma {:induction false} MovedElsewhere(mem: seq<byte>, from: nat, to: nat, p: nat, j: nat)
    requires |mem| == DMEM_SIZE && j < DMEM_SIZE && !Covers(to, 16 * p, j)
    ensures Moved(mem, from, to, p)[j] == mem[j]
  {
    if p > 0 {
      CoversMore(to, 16 * (p - 1), 16, j);
      MovedElsewhere(mem, from, to, p - 1, j);
      MovedMore(mem, from, to, p - 1);
      hide Moved, Covers;
    }
  }

  // ----- interleave (L_138C) -----

  /** The first n halfwords of both channels, alternating, left then right. */
  function Weave(left: seq<byte>, right: seq<byte>, n: nat): (v: seq<byte>)
    requires 2 * n <= |left| && 2 * n <= |right|
    ensures |v| == 4 * n
  {
    if n == 0 then [] else Weave(left, right, n - 1) + left[2 * n - 2..2 * n] + right[2 * n - 2..2 * n]
  }

  lemma WeaveMore(left: seq<byte>, right: seq<byte>, n: nat)
    requires 2 * n + 2 <= |left| && 2 * n + 2 <= |right|
    ensures Weave(left, right, n + 1) == Weave(left, right, n) + left[2 * n..2 * n + 2] + right[2 * n..2 * n + 2]
  {
  }

  lemma WeaveNothing(left: seq<byte>, right: seq<byte>)
    ensures Weave(left, right, 0) == []
  {
  }

  /** Halfword 2k is halfword k of the left channel, halfword 2k + 1 that of the right. */
  lemma {:induction false} HalfwordsAlternate(left: seq<byte>, right: seq<byte>, n: nat, k: nat, c: nat)
    requires 2 * n <= |left| && 2 * n <= |right| && k < n && c < 2
    ensures Weave(left, right, n)[4 * k + c] == left[2 * k + c]
    ensures Weave(left, right, n)[4 * k + 2 + c] == right[2 * k + c]
  {
    WeaveMore(left, right, n - 1);
    hide Weave;
    if k < n - 1 {
      HalfwordsAlternate(left, right, n - 1, k, c);
    }
  }

  /** What `lqv` leaves in a register: sixteen bytes from an aligned address. From others it loads up to the next
      boundary, and the rest of the register stays as it was. */
  function Quad(mem: seq<byte>, at: nat, v: seq<byte>): (w: seq<byte>)
    requires |mem| == DMEM_SIZE && |v| == 16
    ensures |w| == 16
    ensures forall i | 0 <= i < 16 :: w[i] == if i < 16 - at % 16 then mem[Wrap(at + i)] else v[i]
  {
    Bytes(mem, at, 16 - at % 16) + v[16 - at % 16..]
  }

  /** DMEM and the two vector registers of the interleave. */
  datatype Mixer = Mixer(mem: seq<byte>, v1: seq<byte>, v2: seq<byte>)

  predicate MixerOk(m: Mixer) { |m.mem| == DMEM_SIZE && |m.v1| == |m.v2| == 16 }

  /** After p passes: each reads both channels as the passes before it left them. */
  function Mixed(m: Mixer, left: nat, right: nat, out: nat, p: nat): (r: Mixer)
    requires MixerOk(m)
    ensures MixerOk(r)
  {
    if p == 0 then m else
    var before, at := Mixed(m, left, right, out, p - 1), 16 * (p - 1);
    MixPass(before, left + at, right + at, out + 2 * at)
  }

  function MixPass(m: Mixer, r2: nat, r3: nat, r4: nat): (r: Mixer)
    requires MixerOk(m)
    ensures MixerOk(r)
  {
    var v1, v2 := Quad(m.mem, r2, m.v1), Quad(m.mem, r3, m.v2);
    Mixer(Overwritten(m.mem, r4, Weave(v1, v2, 8)), v1, v2)
  }

  lemma MixedMore(m: Mixer, left: nat, right: nat, out: nat, p: nat)
    requires MixerOk(m)
    ensures Mixed(m, left, right, out, p + 1) ==
            MixPass(Mixed(m, left, right, out, p), left + 16 * p, right + 16 * p, out + 32 * p)
  {
  }

  lemma MixedNothing(m: Mixer, left: nat, right: nat, out: nat)
    requires MixerOk(m)
    ensures Mixed(m, left, right, out, 0) == m
  {
  }

  /** The sixteen `ssv` stores of one pass. */
  method StorePairs(dmem: array<byte>, at: nat, v1: seq<byte>, v2: seq<byte>)
    requires dmem.Length == DMEM_SIZE && |v1| == |v2| == 16
    modifies dmem
    ensures dmem[..] == Overwritten(old(dmem[..]), at, Weave(v1, v2, 8))
  {
    ghost var before := dmem[..];
    NothingOverwritten(before, at);
    WeaveNothing(v1, v2);
    hide Overwritten, Weave;
    for e := 0 to 8
      invariant dmem[..] == Overwritten(before, at, Weave(v1, v2, e))
    {
      WeaveMore(v1, v2, e);
      StoreBytes(dmem, at + 4 * e, v1[2 * e..2 * e + 2]);
      OverwrittenTwice(before, at, Weave(v1, v2, e), v1[2 * e..2 * e + 2]);
      StoreBytes(dmem, at + 4 * e + 2, v2[2 * e..2 * e + 2]);
      OverwrittenTwice(before, at, Weave(v1, v2, e) + v1[2 * e..2 * e + 2], v2[2 * e..2 * e + 2]);
    }
  }

  lemma NothingOverwritten(mem: seq<byte>, at: nat)
    requires |mem| == DMEM_SIZE
    ensures Overwritten(mem, at, []) == mem
  {
  }

  method LoadQuad(dmem: array<byte>, at: nat, v: seq<byte>) returns (w: seq<byte>)
    requires dmem.Length == DMEM_SIZE && |v| == 16
    ensures w == Quad(dmem[..], at, v)
  {
    w := v;
    for i := 0 to 16 - at % 16
      invariant |w| == 16
      invariant forall k | 0 <= k < 16 :: w[k] == if k < i then dmem[Wrap(at + k)] else v[k]
    {
      w := w[i := dmem[Wrap(at + i)]];
    }
  }

  /** One pass: both loads, then the sixteen stores. */
  method Pass(dmem: array<byte>, r2: nat, r3: nat, r4: nat, v1: seq<byte>, v2: seq<byte>, ghost m: Mixer)
    returns (w1: seq<byte>, w2: seq<byte>)
    requires dmem.Length == DMEM_SIZE && MixerOk(m) && dmem[..] == m.mem && v1 == m.v1 && v2 == m.v2
    modifies dmem
    ensures var r := MixPass(m, r2, r3, r4); dmem[..] == r.mem && w1 == r.v1 && w2 == r.v2
  {
    w1 := LoadQuad(dmem, r2, v1);
    w2 := LoadQuad(dmem, r3, v2);
    StorePairs(dmem, r4, w1, w2);
  }

  /** For any operands, overlapping, wrapping and unaligned ones included, whatever the vector registers hold. */
  method Interleave(dmem: array<byte>, left: nat, right: nat, out: nat, count: nat, v1: seq<byte>, v2: seq<byte>)
    returns (passes: nat, w1: seq<byte>, w2: seq<byte>)
    requires dmem.Length == DMEM_SIZE && |v1| == |v2| == 16
    requires left < 0x1_0000 && right < 0x1_0000 && out < 0x1_0000 && count < 0x1_0000
    modifies dmem
    ensures passes == Passes(count)
    ensures Mixer(dmem[..], w1, w2) == Mixed(Mixer(old(dmem[..]), v1, v2), left + BASE, right + BASE, out, passes)
  {
    ghost var before := Mixer(dmem[..], v1, v2);
    assert MixerOk(before);
    hide *;
    if count == 0 {
      MixedNothing(before, left + BASE, right + BASE, out);
      PassesCover(count, 0);
      return 0, v1, v2;
    }
    passes, w1, w2 := MixLoop(dmem, left + BASE, right + BASE, out, count, v1, v2, before);
  }

  /** L_13A8: at least one pass, until the count is used up. */
  method MixLoop(dmem: array<byte>, left: nat, right: nat, out: nat, count: nat, v1: seq<byte>, v2: seq<byte>,
                 ghost m: Mixer)
    returns (passes: nat, w1: seq<byte>, w2: seq<byte>)
    requires dmem.Length == DMEM_SIZE && MixerOk(m) && dmem[..] == m.mem && v1 == m.v1 && v2 == m.v2 && count > 0
    modifies dmem
    ensures passes == Passes(count)
    ensures Mixer(dmem[..], w1, w2) == Mixed(m, left, right, out, passes)
  {
    passes, w1, w2 := 0, v1, v2;
    ghost var now := m;
    hide *;
    MixedNothing(m, left, right, out);
    var r1: int, r2, r3, r4 := count, left, right, out;
    while r1 > 0
      invariant r1 == count - 16 * passes && r1 > -16 && r4 == out + 32 * passes
      invariant r2 == left + 16 * passes && r3 == right + 16 * passes
      invariant now == Mixed(m, left, right, out, passes) && MixerOk(now)
      invariant dmem[..] == now.mem && w1 == now.v1 && w2 == now.v2
    {
      w1, w2 := Pass(dmem, r2, r3, r4, w1, w2, now);
      now := OneMore(m, left, right, out, passes, r2, r3, r4);
      r1, r2, r3, r4, passes := r1 - 16, r2 + 16, r3 + 16, r4 + 32, passes + 1;
    }
    PassesCover(count, passes);
  }

  lemma OneMore(m: Mixer, left: nat, right: nat, out: nat, p: nat, r2: nat, r3: nat, r4: nat) returns (now: Mixer)
    requires MixerOk(m) && r2 == left + 16 * p && r3 == right + 16 * p && r4 == out + 32 * p
    ensures now == MixPass(Mixed(m, left, right, out, p), r2, r3, r4) == Mixed(m, left, right, out, p + 1)
    ensures MixerOk(now)
  {
    hide *;
    now := MixPass(Mixed(m, left, right, out, p), r2, r3, r4);
    MixedMore(m, left, right, out, p);
  }
}
