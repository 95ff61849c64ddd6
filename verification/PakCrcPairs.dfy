// Errors of two bits: the checksum misses them exactly when they lie a multiple of 127 places apart.

module PakCrcPairs {
  import opened PakCrc

  const PERIOD: nat := 127

  /** The register after n zero bits. */
  function Turned(r: bv8, n: nat): bv8 {
    if n == 0 then r else Shift(Turned(r, n - 1), false)
  }

  lemma {:induction false} TurnedTwice(r: bv8, m: nat, n: nat)
    ensures Turned(Turned(r, m), n) == Turned(r, m + n)
  {
    if n > 0 {
      TurnedTwice(r, m, n - 1);
      hide Shift;
    }
  }

  // ----- the order of x -----

  /** Eight turns at once. */
  function Eight(r: bv8): bv8 {
    Four(Four(r))
  }

  function Four(r: bv8): bv8 {
    Shift(Shift(Shift(Shift(r, false), false), false), false)
  }

  lemma EightTurns(r: bv8)
    ensures Turned(r, 8) == Eight(r)
  {
    hide Shift;
    FourTurns(r);
    FourTurns(Turned(r, 4));
    TurnedTwice(r, 4, 4);
  }

  lemma FourTurns(r: bv8)
    ensures Turned(r, 4) == Four(r)
  {
    hide Shift;
    assert Turned(r, 1) == Shift(Turned(r, 0), false);
    assert Turned(r, 2) == Shift(Turned(r, 1), false);
    assert Turned(r, 3) == Shift(Turned(r, 2), false);
  }

  /** The register every eight turns. */
  const MARKS: seq<bv8> :=
    [0x01, 0x85, 0x97, 0xfb, 0x16, 0xf7, 0x3e, 0x07, 0x91, 0xef, 0x6e, 0x62, 0x4a, 0xba, 0x15, 0xfd]

  lemma MarksFollow(k: nat)
    requires k < 15
    ensures MARKS[k + 1] == Eight(MARKS[k])
  {
    if k < 5 {
      EarlyMarksFollow(k);
    } else if k < 10 {
      MiddleMarksFollow(k);
    } else {
      LateMarksFollow(k);
    }
    hide MARKS, Eight;
  }

  lemma EarlyMarksFollow(k: nat)
    requires k < 5
    ensures MARKS[k + 1] == Eight(MARKS[k])
  {
  }

  lemma MiddleMarksFollow(k: nat)
    requires 5 <= k < 10
    ensures MARKS[k + 1] == Eight(MARKS[k])
  {
  }

  lemma LateMarksFollow(k: nat)
    requires 10 <= k < 15
    ensures MARKS[k + 1] == Eight(MARKS[k])
  {
  }

  lemma {:induction false} MarksAreReached(k: nat)
    requires k <= 15
    ensures Turned(1, 8 * k) == MARKS[k]
  {
    if k > 0 {
      MarksAreReached(k - 1);
      MarksFollow(k - 1);
      hide Turned, Eight, MARKS;
      TurnedTwice(1, 8 * (k - 1), 8);
      EightTurns(Turned(1, 8 * (k - 1)));
    }
  }

  /** After 127 turns the register is back where it was. */
  lemma FullTurn()
    ensures Turned(1, PERIOD) == 1
  {
    MarksAreReached(15);
    assert MARKS[15] == 0xfd;
    hide MARKS;
    FourTurns(0xfd);
    assert Four(0xfd) == 0xf2;
    TurnedTwice(1, 120, 4);
    TurnedTwice(1, 124, 3);
    LastTurns();
  }

  lemma LastTurns()
    ensures Turned(0xf2, 3) == 1
  {
    var r: bv8 := 0xf2;
    assert Turned(r, 1) == Shift(r, false);
    assert Turned(r, 2) == Shift(Turned(r, 1), false);
  }

  lemma Prime(d: nat)
    requires 1 < d < PERIOD
    ensures PERIOD % d != 0
  {
    if PERIOD % d == 0 && d >= 12 {
      Cofactor(PERIOD / d, d);
    }
  }

  lemma Cofactor(q: nat, d: nat)
    requires 12 <= d < PERIOD
    ensures q * d != PERIOD
  {
  }

  /** And not before: the period is prime, so by Euclid's algorithm a shorter one would be 1. */
  lemma {:induction false} NoShorterTurn(d: nat)
    requires 0 < d < PERIOD
    ensures Turned(1, d) != 1
  {
    if Turned(1, d) == 1 {
      if d > 1 {
        Prime(d);
        FullTurn();
        hide Turned;
        Wholes(d, PERIOD);
        NoShorterTurn(PERIOD % d);
      }
    }
  }

  /** Whole turns do not count. */
  lemma {:induction false} Wholes(d: nat, n: nat)
    requires d > 0 && Turned(1, d) == 1
    ensures Turned(1, n) == Turned(1, n % d)
  {
    if n >= d {
      Wholes(d, n - d);
      TurnedTwice(1, d, n - d);
      LessOne(n, d);
    }
  }

  lemma LessOne(n: nat, d: nat)
    requires 0 < d <= n
    ensures (n - d) % d == n % d
  {
    var q, r := (n - d) / d, (n - d) % d;
    assert n == (q + 1) * d + r;
    Unique(d, q + 1, r, n / d, n % d);
  }

  lemma Unique(d: nat, q: nat, r: nat, q': nat, r': nat)
    requires r < d && r' < d && q * d + r == q' * d + r'
    ensures r == r'
  {
    if q < q' {
      Rows(d, q, q');
    } else if q' < q {
      Rows(d, q', q);
    }
  }

  lemma {:induction false} Rows(d: nat, q: nat, q': nat)
    requires q < q'
    ensures q * d + d <= q' * d
    decreases q'
  {
    if q + 1 < q' {
      Rows(d, q, q' - 1);
    }
    assert q' * d == (q' - 1) * d + d;
  }

  lemma TurnedIsOneIff(n: nat)
    ensures Turned(1, n) == 1 <==> n % PERIOD == 0
  {
    FullTurn();
    Wholes(PERIOD, n);
    if n % PERIOD != 0 {
      NoShorterTurn(n % PERIOD);
    }
    assert Turned(1, 0) == 1;
    hide Turned;
  }

  // ----- two bits -----

  lemma {:induction false} ZerosTurn(x: seq<bool>, s: nat, n: nat)
    requires s + n <= |x| && forall k | s <= k < s + n :: !x[k]
    ensures Feed(0, x[..s + n]) == Turned(Feed(0, x[..s]), n)
  {
    if n > 0 {
      ZerosTurn(x, s, n - 1);
      FeedOneMore(x, s + n - 1);
      hide Feed, Shift;
    }
  }

  lemma {:induction false} ZeroTurns(n: nat)
    ensures Turned(0, n) == 0
  {
    if n > 0 {
      ZeroTurns(n - 1);
      ShiftKeepsNonzero(0);
      hide Shift;
    }
  }

  lemma ShiftOne(r: bv8)
    ensures Shift(r, true) == 0 <==> Shift(r, false) == 1
  {
  }

  ghost predicate OnlyOnes(x: seq<bool>, i: nat, j: nat) {
    i < j < |x| && forall n | 0 <= n < |x| :: x[n] <==> n == i || n == j
  }

  lemma TwoOnesVanishIff(x: seq<bool>, i: nat, j: nat)
    requires OnlyOnes(x, i, j)
    ensures Feed(0, x) == 0 <==> (j - i) % PERIOD == 0
  {
    var d := j - i;
    hide Feed, Shift;
    ZerosTurn(x, 0, i);
    ZeroTurns(i);
    NothingFed(x);
    FeedOneMore(x, i);
    OneIn();
    ZerosTurn(x, i + 1, d - 1);
    FeedOneMore(x, j);
    ShiftOne(Turned(1, d - 1));
    TurnedIsOneIff(d);
    TrailingZerosKeepNonzero(x, j + 1);
  }

  lemma NothingFed(x: seq<bool>)
    ensures Feed(0, x[..0]) == 0
  {
  }

  lemma OneIn()
    ensures Shift(0, true) == 1
  {
  }

  /** Two blocks that differ in exactly two bits share a checksum if and only if the bits are a multiple of 127 places
      apart. In a block of 32 bytes: 127 or 254. */
  lemma TwoBitErrorsPassIff(a: seq<bv8>, b: seq<bv8>, i: nat, j: nat)
    requires |a| == |b| && i < j < 8 * |a|
    requires forall n | 0 <= n < 8 * |a| :: BitsOf(a)[n] != BitsOf(b)[n] <==> n == i || n == j
    ensures Crc(a) == Crc(b) <==> (j - i) % PERIOD == 0
    ensures |a| == 32 ==> (Crc(a) == Crc(b) <==> j - i == 127 || j - i == 254)
  {
    var x := Xor(Message(a), Message(b));
    hide Feed, BitsOf, Zeros;
    forall n | 0 <= n < |x|
      ensures x[n] <==> n == i || n == j
    {
      if n < 8 * |a| {
        assert x[n] == (BitsOf(a)[n] != BitsOf(b)[n]);
      }
    }
    TwoOnesVanishIff(x, i, j);
    FeedIsLinear(Message(a), Message(b), x);
    SumVanishesIff(Crc(a), Crc(b));
  }

  lemma SumVanishesIff(r: bv8, r': bv8)
    ensures Plus(r, r') == 0 <==> r == r'
  {
  }
}
