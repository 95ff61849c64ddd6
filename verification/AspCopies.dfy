// What a move leaves behind, byte by byte: for every count and every pair of operands, wrapping and overlapping.

module AspCopies {
  import opened Common
  import opened AspBuffers

  /** How far the destination lies above the source, around the circle. */
  function Gap(from: nat, to: nat): (d: nat)
    ensures d < DMEM_SIZE
  {
    Wrap(to - from)
  }

  // ----- every byte comes from some byte -----

  /** The byte of the original memory that byte j holds after p passes. */
  function Source(from: nat, to: nat, p: nat, j: nat): (s: nat)
    requires j < DMEM_SIZE
    ensures s < DMEM_SIZE
  {
    if p == 0 then j else
    var q := p - 1;
    if Covers(to + 16 * q, 16, j) then Source(from, to, q, Wrap(from + 16 * q + Wrap(j - (to + 16 * q))))
    else Source(from, to, q, j)
  }

  lemma {:induction false} MovedFromSource(mem: seq<byte>, from: nat, to: nat, p: nat, j: nat)
    requires |mem| == DMEM_SIZE && j < DMEM_SIZE
    ensures Moved(mem, from, to, p)[j] == mem[Source(from, to, p, j)]
  {
    if p == 0 {
      MovedNothing(mem, from, to);
    } else {
      var q := p - 1;
      MovedMore(mem, from, to, q);
      hide Moved, Wrap, Covers;
      if Covers(to + 16 * q, 16, j) {
        MovedFromSource(mem, from, to, q, Wrap(from + 16 * q + Wrap(j - (to + 16 * q))));
      } else {
        MovedFromSource(mem, from, to, q, j);
      }
    }
  }

  lemma {:induction false} SourceElsewhere(from: nat, to: nat, p: nat, j: nat)
    requires j < DMEM_SIZE && !Covers(to, 16 * p, j)
    ensures Source(from, to, p, j) == j
  {
    if p > 0 {
      CoversMore(to, 16 * (p - 1), 16, j);
      SourceElsewhere(from, to, p - 1, j);
    }
  }

  /** A move of a buffer onto itself changes nothing. */
  lemma {:induction false} SourceInPlace(from: nat, to: nat, p: nat, j: nat)
    requires j < DMEM_SIZE && Gap(from, to) == 0
    ensures Source(from, to, p, j) == j
  {
    if p > 0 {
      SourceInPlace(from, to, p - 1, j);
      if Covers(to + 16 * (p - 1), 16, j) {
        AcrossTheGap(from, to, 16 * (p - 1), j);
      }
    }
  }

  lemma AcrossTheGap(from: nat, to: nat, n: nat, j: nat)
    requires j < DMEM_SIZE && Gap(from, to) == 0
    ensures Wrap(from + n + Wrap(j - (to + n))) == j
  {
  }

  // ----- destinations that do not meet themselves -----

  /** Which place of the source ends up at place k of a destination d bytes above it: one that an earlier pass has
      overwritten is read back. */
  function Origin(k: nat, d: nat): (r: nat)
    ensures r <= k
  {
    if d > 0 && k >= d && (k - d) / 16 < k / 16 then Origin(k - d, d) else k
  }

  lemma OriginStep(k: nat, d: nat, p: nat)
    requires k / 16 == p
    ensures Origin(k, d) == if d > 0 && d <= k < d + 16 * p then Origin(k - d, d) else k
  {
  }

  /** Place k of the destination, as pass q sees it. */
  lemma PlaceOfPass(to: nat, q: nat, k: nat)
    requires 16 * q + 16 <= DMEM_SIZE && k < 16 * q + 16
    ensures Covers(to + 16 * q, 16, Wrap(to + k)) <==> k >= 16 * q
    ensures k >= 16 * q ==> Wrap(Wrap(to + k) - (to + 16 * q)) == k - 16 * q
  {
  }

  /** Place k of the source is place k - d of the destination, or place k - d + DMEM_SIZE. */
  lemma PlaceOfSource(from: nat, to: nat, k: nat)
    requires k < DMEM_SIZE
    ensures k >= Gap(from, to) ==> Wrap(from + k) == Wrap(to + (k - Gap(from, to)))
    ensures k < Gap(from, to) ==> Wrap(Wrap(from + k) - to) == k - Gap(from, to) + DMEM_SIZE
    ensures k >= Gap(from, to) ==> Wrap(Wrap(from + k) - to) == k - Gap(from, to)
  {
  }

  /** Every byte of a destination that does not meet itself holds the source byte `Origin` names. */
  lemma {:induction false} SourceIsOrigin(from: nat, to: nat, p: nat, k: nat)
    requires k < 16 * p <= DMEM_SIZE
    ensures Source(from, to, p, Wrap(to + k)) == Wrap(from + Origin(k, Gap(from, to)))
    decreases 2 * p
  {
    var q := p - 1;
    PlaceOfPass(to, q, k);
    hide Wrap, Covers, Origin, Gap;
    if k < 16 * q {
      SourceIsOrigin(from, to, q, k);
    } else {
      assert from + 16 * q + (k - 16 * q) == from + k;
      ReadByPass(from, to, q, k);
    }
  }

  /** What the pass after p passes reads at place k. */
  lemma {:induction false} ReadByPass(from: nat, to: nat, p: nat, k: nat)
    requires 16 * p <= k < 16 * p + 16 <= DMEM_SIZE
    ensures Source(from, to, p, Wrap(from + k)) == Wrap(from + Origin(k, Gap(from, to)))
    decreases 2 * p + 1
  {
    var d := Gap(from, to);
    OriginStep(k, d, p);
    PlaceOfSource(from, to, k);
    hide Origin, Source;
    if d > 0 && d <= k < d + 16 * p {
      SourceIsOrigin(from, to, p, k - d);
    } else if d == 0 {
      SourceInPlace(from, to, p, Wrap(from + k));
    } else {
      SourceElsewhere(from, to, p, Wrap(from + k));
    }
  }

  /** Any two operands, wherever they wrap and overlap: place k of the destination holds the source byte found by
      stepping back over what earlier passes overwrote. */
  lemma MovedFromOrigin(mem: seq<byte>, from: nat, to: nat, p: nat, k: nat)
    requires |mem| == DMEM_SIZE && k < 16 * p <= DMEM_SIZE
    ensures Moved(mem, from, to, p)[Wrap(to + k)] == mem[Wrap(from + Origin(k, Gap(from, to)))]
  {
    MovedFromSource(mem, from, to, p, Wrap(to + k));
    SourceIsOrigin(from, to, p, k);
  }

  // ----- when a move copies -----

  /** The destination starts where the source does, or no earlier than the source ends, or one pass does it all. */
  predicate MayOverlap(from: nat, to: nat,
                       lines: nat) { Gap(from, to) == 0 || Gap(from, to) >= 16 * lines || lines <= 1 }

  ghost predicate Copies(mem: seq<byte>, from: nat, to: nat, lines: nat)
    requires |mem| == DMEM_SIZE
  {
    forall k: nat | k < 16 * lines :: CopiesPlace(mem, from, to, lines, k)
  }

  predicate CopiesPlace(mem: seq<byte>, from: nat, to: nat, lines: nat, k: nat)
    requires |mem| == DMEM_SIZE
  {
    Moved(mem, from, to, lines)[Wrap(to + k)] == mem[Wrap(from + k)]
  }

  ghost predicate CopiesFaithfully(from: nat, to: nat, lines: nat) {
    forall mem: seq<byte> | |mem| == DMEM_SIZE :: Copies(mem, from, to, lines)
  }

  /** A move copies its source for all memories if and only if its destination starts where the source does or no
      earlier than the source ends, going up around the circle, or one pass does it all. For every count. */
  lemma MoveCopiesIff(from: nat, to: nat, lines: nat)
    ensures CopiesFaithfully(from, to, lines) <==> MayOverlap(from, to, lines)
  {
    if MayOverlap(from, to, lines) {
      forall mem: seq<byte>, k: nat | |mem| == DMEM_SIZE && k < 16 * lines
        ensures CopiesPlace(mem, from, to, lines, k)
      {
        GoodMoveCopies(mem, from, to, lines, k);
      }
    } else {
      var mem: seq<byte> := Zeros(DMEM_SIZE);
      var other := mem[Wrap(from + Lost(Gap(from, to))) := 1];
      LostForGood(from, to, lines, mem, other);
      assert !(Copies(mem, from, to, lines) && Copies(other, from, to, lines));
    }
  }

  lemma OriginIsSelf(k: nat, d: nat, lines: nat)
    requires k < 16 * lines && (d == 0 || d >= 16 * lines || lines <= 1)
    ensures Origin(k, d) == k
  {
  }

  lemma GoodMoveCopies(mem: seq<byte>, from: nat, to: nat, lines: nat, k: nat)
    requires |mem| == DMEM_SIZE && MayOverlap(from, to, lines) && k < 16 * lines
    ensures CopiesPlace(mem, from, to, lines, k)
  {
    if Gap(from, to) == 0 {
      SamePlaces(from, to, k);
      MovedFromSource(mem, from, to, lines, Wrap(to + k));
      hide Moved, Wrap, Gap, Source;
      SourceInPlace(from, to, lines, Wrap(to + k));
    } else {
      OriginIsSelf(k, Gap(from, to), lines);
      GapFits(from, to, lines);
      hide Moved, Wrap, Gap, Origin;
      MovedFromOrigin(mem, from, to, lines, k);
    }
  }

  lemma SamePlaces(from: nat, to: nat, k: nat)
    requires Gap(from, to) == 0
    ensures Wrap(to + k) == Wrap(from + k)
  {
  }

  lemma GapFits(from: nat, to: nat, lines: nat)
    requires MayOverlap(from, to, lines) && Gap(from, to) > 0
    ensures 16 * lines <= DMEM_SIZE
  {
  }

  /** The first place that an earlier pass has overwritten when it is read. */
  function Lost(d: nat): nat { if d >= 16 then d else 16 }

  lemma {:induction false} LostIsNoOrigin(k: nat, d: nat)
    requires d > 0
    ensures Origin(k, d) != Lost(d)
  {
    if k >= d && (k - d) / 16 < k / 16 {
      LostIsNoOrigin(k - d, d);
    } else {
      LostIsReadBack(d);
    }
  }

  lemma LostIsReadBack(d: nat)
    requires d > 0
    ensures Lost(d) >= d && (Lost(d) - d) / 16 < Lost(d) / 16
  {
  }

  lemma SamePlace(from: nat, a: nat, b: nat)
    requires a < DMEM_SIZE && b < DMEM_SIZE && Wrap(from + a) == Wrap(from + b)
    ensures a == b
  {
  }

  lemma PlaceOf(to: nat, j: nat)
    requires j < DMEM_SIZE
    ensures Wrap(to + Wrap(j - to)) == j
  {
  }

  /** Passes treat equal memories alike. */
  lemma {:induction false} MovedAlike(mem: seq<byte>, other: seq<byte>, from: nat, to: nat, p: nat, q: nat)
    requires |mem| == |other| == DMEM_SIZE && p <= q && Moved(mem, from, to, p) == Moved(other, from, to, p)
    ensures Moved(mem, from, to, q) == Moved(other, from, to, q)
  {
    if p < q {
      MovedAlike(mem, other, from, to, p, q - 1);
    }
  }

  /** No place of such a destination depends on the lost byte, unless a pass has yet to reach it. */
  lemma LosesTheByte(from: nat, to: nat, p: nat, mem: seq<byte>, other: seq<byte>, k: nat)
    requires |mem| == DMEM_SIZE && k < 16 * p <= DMEM_SIZE && 0 < Gap(from, to) && Lost(Gap(from, to)) < DMEM_SIZE
    requires other == mem[Wrap(from + Lost(Gap(from, to))) := 1]
    ensures Moved(mem, from, to, p)[Wrap(to + k)] == Moved(other, from, to, p)[Wrap(to + k)]
  {
    var d := Gap(from, to);
    hide *;
    MovedFromOrigin(mem, from, to, p, k);
    MovedFromOrigin(other, from, to, p, k);
    LostIsNoOrigin(k, d);
    if Wrap(from + Origin(k, d)) == Wrap(from + Lost(d)) {
      SamePlace(from, Origin(k, d), Lost(d));
    }
  }

  lemma LostForGood(from: nat, to: nat, lines: nat, mem: seq<byte>, other: seq<byte>)
    requires !MayOverlap(from, to, lines) && |mem| == DMEM_SIZE && other == mem[Wrap(from + Lost(Gap(from, to))) := 1]
    requires mem[Wrap(from + Lost(Gap(from, to)))] == 0
    ensures !(Copies(mem, from, to, lines) && Copies(other, from, to, lines))
  {
    var d := Gap(from, to);
    var k := Lost(d);
    assert k < 16 * lines && k < DMEM_SIZE;
    if 16 * lines <= DMEM_SIZE {
      LosesTheByte(from, to, lines, mem, other, k);
    } else {
      AllLost(from, to, mem, other);
      MovedAlike(mem, other, from, to, DMEM_SIZE / 16, lines);
    }
    hide Moved, Wrap, Gap, Lost;
    assert !(CopiesPlace(mem, from, to, lines, k) && CopiesPlace(other, from, to, lines, k));
  }

  lemma AllLost(from: nat, to: nat, mem: seq<byte>, other: seq<byte>)
    requires |mem| == DMEM_SIZE && 0 < Gap(from, to) && Lost(Gap(from, to)) < DMEM_SIZE
    requires other == mem[Wrap(from + Lost(Gap(from, to))) := 1]
    ensures Moved(mem, from, to, DMEM_SIZE / 16) == Moved(other, from, to, DMEM_SIZE / 16)
  {
    var a, b := Moved(mem, from, to, DMEM_SIZE / 16), Moved(other, from, to, DMEM_SIZE / 16);
    forall j | 0 <= j < DMEM_SIZE
      ensures a[j] == b[j]
    {
      PlaceOf(to, j);
      LosesTheByte(from, to, DMEM_SIZE / 16, mem, other, Wrap(j - to));
    }
  }

  // ----- what a move leaves alone -----

  ghost predicate Keeps(from: nat, to: nat, lines: nat, start: nat, n: nat)
    requires start + n <= DMEM_SIZE
  {
    forall mem: seq<byte> | |mem| == DMEM_SIZE :: Moved(mem, from, to, lines)[start..start + n] == mem[start..start + n]
  }

  /** A move leaves a range alone for all memories if and only if each of its bytes is its own source. */
  lemma MoveKeepsIff(from: nat, to: nat, lines: nat, start: nat, n: nat)
    requires start + n <= DMEM_SIZE
    ensures Keeps(from, to, lines, start, n) <==> forall j | start <= j < start + n :: Source(from, to, lines, j) == j
  {
    hide Moved, Source;
    if j :| start <= j < start + n && Source(from, to, lines, j) != j {
      var mem: seq<byte> := Zeros(DMEM_SIZE)[Source(from, to, lines, j) := 1];
      MovedFromSource(mem, from, to, lines, j);
      SliceDiffers(Moved(mem, from, to, lines), mem, start, n, j);
    } else {
      forall mem: seq<byte> | |mem| == DMEM_SIZE
        ensures Moved(mem, from, to, lines)[start..start + n] == mem[start..start + n]
      {
        forall j | start <= j < start + n
          ensures Moved(mem, from, to, lines)[j] == mem[j]
        {
          MovedFromSource(mem, from, to, lines, j);
        }
      }
    }
  }

  lemma SliceDiffers(a: seq<byte>, b: seq<byte>, start: nat, n: nat, j: nat)
    requires start <= j < start + n <= |a| == |b| && a[j] != b[j]
    ensures a[start..start + n] != b[start..start + n]
  {
    assert a[start..start + n][j - start] == a[j] && b[start..start + n][j - start] == b[j];
  }

  /** The move is no longer than its gap, or than what the gap leaves of DMEM. Half of DMEM is never too long. */
  predicate Short(from: nat, to: nat, lines: nat) {
    16 * lines <= Gap(from, to) || 16 * lines + Gap(from, to) <= DMEM_SIZE
  }

  /** For such moves: if and only if the destination misses the range, or is the source. */
  lemma ShortMoveKeepsIff(from: nat, to: nat, lines: nat, start: nat, n: nat)
    requires start + n <= DMEM_SIZE && Short(from, to, lines)
    ensures Keeps(from, to, lines, start, n) <==>
            Gap(from, to) == 0 || forall j | start <= j < start + n :: !Covers(to, 16 * lines, j)
  {
    MoveKeepsIff(from, to, lines, start, n);
    hide Source, Covers, Gap, Keeps, Short;
    if Keeps(from, to, lines, start, n) && Gap(from, to) != 0 {
      forall j | start <= j < start + n
        ensures !Covers(to, 16 * lines, j)
      {
        OwnSourceIff(from, to, lines, j);
      }
    } else if Gap(from, to) == 0 || forall j | start <= j < start + n :: !Covers(to, 16 * lines, j) {
      forall j | start <= j < start + n
        ensures Source(from, to, lines, j) == j
      {
        OwnSourceIff(from, to, lines, j);
      }
    }
  }

  lemma OwnSourceIff(from: nat, to: nat, lines: nat, j: nat)
    requires j < DMEM_SIZE && Short(from, to, lines)
    ensures Source(from, to, lines, j) == j <==> Gap(from, to) == 0 || !Covers(to, 16 * lines, j)
  {
    if Gap(from, to) == 0 {
      SourceInPlace(from, to, lines, j);
    } else if !Covers(to, 16 * lines, j) {
      SourceElsewhere(from, to, lines, j);
    } else {
      var k := Wrap(j - to);
      PlaceOf(to, j);
      SourceIsOrigin(from, to, lines, k);
      OriginSteps(k, Gap(from, to));
      if 16 * lines <= Gap(from, to) {
        OriginIsSelf(k, Gap(from, to), lines);
      }
      hide Source, Origin;
      OriginIsElsewhere(from, to, k, Origin(k, Gap(from, to)));
    }
  }

  lemma {:induction false} OriginSteps(k: nat, d: nat)
    ensures Origin(k, d) <= k
  {
  }

  lemma OriginIsElsewhere(from: nat, to: nat, k: nat, o: nat)
    requires o <= k && 0 < Gap(from, to) + k - o < DMEM_SIZE
    ensures Wrap(from + o) != Wrap(to + k)
  {
  }
}
