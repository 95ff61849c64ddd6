// The Controller Pak data checksum: a shift register that divides by x^8 + x^7 + x^2 + 1 over GF(2).

module PakCrc {

  const POLY: bv8 := 0x85  // x^7 + x^2 + 1; the x^8 term is the bit shifted out

  // ----- the register -----

  /** One turn of the inner loop: shift a bit in at the bottom, subtract the divisor if a bit fell out. */
  function Shift(r: bv8, bit: bool): bv8 {
    ((r << 1) | (if bit then 1 else 0)) ^ (if r & 0x80 != 0 then POLY else 0)
  }

  function Feed(r: bv8, bits: seq<bool>): bv8 {
    if bits == [] then r else Shift(Feed(r, bits[..|bits| - 1]), bits[|bits| - 1])
  }

  /** The bit the loop takes from byte `b` for mask 1 << j, with the top bit first. */
  function Bit(b: bv8, j: nat): bool
    requires j < 8
  {
    b & (1 << j) != 0
  }

  function BitsOf(data: seq<bv8>): (bits: seq<bool>)
    ensures |bits| == 8 * |data| && forall n | 0 <= n < 8 * |data| :: bits[n] == Bit(data[n / 8], 7 - n % 8)
  {
    seq(8 * |data|, n requires 0 <= n < 8 * |data| => Bit(data[n / 8], 7 - n % 8))
  }

  function Zeros(n: nat): (bits: seq<bool>)
    ensures |bits| == n && forall i | 0 <= i < n :: !bits[i]
  {
    seq(n, _ => false)
  }

  /** What the register has been fed when the loops end: the data, then eight zero bits. */
  function Message(data: seq<bv8>): seq<bool> { BitsOf(data) + Zeros(8) }

  lemma MessageBit(data: seq<bv8>, i: nat, j: nat)
    requires i <= |data| && j < 8
    ensures Message(data)[8 * i + 7 - j] <==> i < |data| && Bit(data[i], j)
  {
    hide Bit;
    var n := 8 * i + 7 - j;
    if i < |data| {
      assert n / 8 == i && n % 8 == 7 - j;
    }
  }

  lemma FeedOneMore(bits: seq<bool>, n: nat)
    requires n < |bits|
    ensures Feed(0, bits[..n + 1]) == Shift(Feed(0, bits[..n]), bits[n])
  {
    assert bits[..n + 1][..n] == bits[..n];
  }

  method PakDataCrc(data: seq<bv8>) returns (temp: bv8)
    requires |data| == 32
    ensures temp == Crc(data)
  {
    hide Feed, Message, BitsOf;
    temp := 0;
    ghost var message := Message(data);
    assert |message| == 264 && Feed(0, message[..0]) == 0 by {
      MessageStart(data);
    }
    var i := 0;
    while i <= 32
      invariant 0 <= i <= 33
      invariant temp == Feed(0, message[..8 * i])
    {
      var j := 7;
      while j > -1
        invariant -1 <= j <= 7
        invariant temp == Feed(0, message[..8 * i + 7 - j])
      {
        MessageBit(data, i, j);
        FeedOneMore(message, 8 * i + 7 - j);
        var temp2: bv8 := if temp & 0x80 != 0 then 0x85 else 0;
        temp := temp << 1;
        if i != 32 {
          temp := temp | (if data[i] & (1 << j) != 0 then 1 else 0);
        }
        temp := temp ^ temp2;
        j := j - 1;
      }
      i := i + 1;
    }
    assert message[..264] == message;
  }

  lemma MessageStart(data: seq<bv8>)
    ensures |Message(data)| == 8 * |data| + 8 && Feed(0, Message(data)[..0]) == 0
  {
  }

  // ----- polynomials over GF(2): bit strings, highest power first -----

  function Coef(p: seq<bool>, i: int): bool { 0 <= i < |p| && p[|p| - 1 - i] }

  /** Coefficient i of q * (x^8 + x^7 + x^2 + 1). */
  function ProductCoef(q: seq<bool>, i: int): bool {
    ((Coef(q, i - 8) != Coef(q, i - 7)) != Coef(q, i - 2)) != Coef(q, i)
  }

  function RegisterCoef(r: bv8, i: int): bool { 0 <= i < 8 && Bit(r, i) }

  /** p == q * (x^8 + x^7 + x^2 + 1) + r, coefficient by coefficient; the remainder r has degree below 8. */
  ghost predicate Divides(p: seq<bool>, q: seq<bool>, r: bv8) {
    forall i :: Coef(p, i) <==> (ProductCoef(q, i) != RegisterCoef(r, i))
  }

  /** The bits that fell out of the register: the quotient. */
  function Quotient(bits: seq<bool>): (q: seq<bool>)
    ensures |q| == |bits|
  {
    if bits == [] then [] else
    Quotient(bits[..|bits| - 1]) + [Bit(Feed(0, bits[..|bits| - 1]), 7)]
  }

  lemma ShiftCoef(r: bv8, bit: bool, i: int)
    ensures RegisterCoef(Shift(r, bit), i) <==>
            if i == 0 then bit != Bit(r, 7)
            else RegisterCoef(r, i - 1) != (Bit(r, 7) && (i == 2 || i == 7 || i == 8))
  {
    if 0 <= i < 8 {
      ShiftBits(r, bit);
    }
  }

  lemma ShiftBits(r: bv8, bit: bool)
    ensures Bit(Shift(r, bit), 0) <==> bit != Bit(r, 7)
    ensures Bit(Shift(r, bit), 1) <==> Bit(r, 0)
    ensures Bit(Shift(r, bit), 2) <==> Bit(r, 1) != Bit(r, 7)
    ensures Bit(Shift(r, bit), 3) <==> Bit(r, 2)
    ensures Bit(Shift(r, bit), 4) <==> Bit(r, 3)
    ensures Bit(Shift(r, bit), 5) <==> Bit(r, 4)
    ensures Bit(Shift(r, bit), 6) <==> Bit(r, 5)
    ensures Bit(Shift(r, bit), 7) <==> Bit(r, 6) != Bit(r, 7)
  {
  }

  lemma CoefOfAppend(p: seq<bool>, bit: bool, i: int)
    ensures Coef(p + [bit], i) <==> if i == 0 then bit else Coef(p, i - 1)
  {
  }

  lemma DivisionStep(p: seq<bool>, q: seq<bool>, r: bv8, bit: bool, i: int)
    requires Divides(p, q, r)
    ensures Coef(p + [bit], i) <==> (ProductCoef(q + [Bit(r, 7)], i) != RegisterCoef(Shift(r, bit), i))
  {
    hide Bit, Shift, Coef, RegisterCoef;
    CoefOfAppend(p, bit, i);
    CoefOfAppend(q, Bit(r, 7), i - 8);
    CoefOfAppend(q, Bit(r, 7), i - 7);
    CoefOfAppend(q, Bit(r, 7), i - 2);
    CoefOfAppend(q, Bit(r, 7), i);
    ShiftCoef(r, bit, i);
    NegativeCoef(q, r, i);
    assert Coef(p, i - 1) <==> (ProductCoef(q, i - 1) != RegisterCoef(r, i - 1));
  }

  lemma NegativeCoef(q: seq<bool>, r: bv8, i: int)
    ensures i < 0 ==> !Coef(q, i)
    ensures i <= 0 ==> !Coef(q, i - 1) && !RegisterCoef(r, i - 1)
    ensures i <= 2 ==> !Coef(q, i - 3)
    ensures i <= 7 ==> !Coef(q, i - 8)
    ensures i <= 8 ==> !Coef(q, i - 9)
  {
  }

  /** The loop is long division: what is left in the register is a remainder of what was fed. */
  lemma {:induction false} FeedDivides(bits: seq<bool>)
    ensures Divides(bits, Quotient(bits), Feed(0, bits))
  {
    hide Bit, Shift, Coef, ProductCoef, RegisterCoef;
    if bits == [] {
      NothingDividesNothing();
    } else {
      var front, last := bits[..|bits| - 1], bits[|bits| - 1];
      FeedDivides(front);
      assert bits == front + [last];
      forall i
        ensures Coef(bits, i) <==> (ProductCoef(Quotient(bits), i) != RegisterCoef(Feed(0, bits), i))
      {
        DivisionStep(front, Quotient(front), Feed(0, front), last, i);
      }
    }
  }

  lemma NothingDividesNothing()
    ensures Divides([], [], 0)
  {
    forall i
      ensures !RegisterCoef(0, i)
    {
      if 0 <= i < 8 {
        ZeroHasNoBits(i);
      }
    }
  }

  lemma ZeroHasNoBits(i: nat)
    requires i < 8
    ensures !Bit(0, i)
  {
  }

  // ----- the remainder is the only one -----

  lemma {:induction false} QuotientsAgree(p: seq<bool>, q: seq<bool>, q': seq<bool>, r: bv8, r': bv8, i: nat)
    requires Divides(p, q, r) && Divides(p, q', r')
    ensures Coef(q, i) <==> Coef(q', i)
    decreases |q| + |q'| - i
  {
    if i < |q| + |q'| {
      hide Bit, Coef;
      QuotientsAgree(p, q, q', r, r', i + 1);
      QuotientsAgree(p, q, q', r, r', i + 6);
      QuotientsAgree(p, q, q', r, r', i + 8);
      assert Coef(p, i + 8) <==> (ProductCoef(q, i + 8) != RegisterCoef(r, i + 8));
      assert Coef(p, i + 8) <==> (ProductCoef(q', i + 8) != RegisterCoef(r', i + 8));
    }
  }

  lemma RemainderIsUnique(p: seq<bool>, q: seq<bool>, q': seq<bool>, r: bv8, r': bv8)
    requires Divides(p, q, r) && Divides(p, q', r')
    ensures r == r'
  {
    forall i: nat | i < 8
      ensures Bit(r, i) <==> Bit(r', i)
    {
      hide Bit, Coef;
      assert Coef(p, i) <==> (ProductCoef(q, i) != RegisterCoef(r, i));
      assert Coef(p, i) <==> (ProductCoef(q', i) != RegisterCoef(r', i));
      QuotientCoefsAgree(p, q, q', r, r', i);
    }
    BitsDetermineByte(r, r');
  }

  lemma QuotientCoefsAgree(p: seq<bool>, q: seq<bool>, q': seq<bool>, r: bv8, r': bv8, i: int)
    requires Divides(p, q, r) && Divides(p, q', r')
    ensures ProductCoef(q, i) <==> ProductCoef(q', i)
  {
    forall d: int
      ensures Coef(q, d) <==> Coef(q', d)
    {
      if d >= 0 {
        QuotientsAgree(p, q, q', r, r', d);
      }
    }
  }

  lemma BitsDetermineByte(r: bv8, r': bv8)
    requires forall i: nat | i < 8 :: Bit(r, i) <==> Bit(r', i)
    ensures r == r'
  {
    assert Bit(r, 0) == Bit(r', 0) && Bit(r, 1) == Bit(r', 1) && Bit(r, 2) == Bit(r', 2) && Bit(r, 3) == Bit(r', 3);
    assert Bit(r, 4) == Bit(r', 4) && Bit(r, 5) == Bit(r', 5) && Bit(r, 6) == Bit(r', 6) && Bit(r, 7) == Bit(r', 7);
  }

  /** The checksum of a block. */
  function Crc(data: seq<bv8>): bv8 { Feed(0, Message(data)) }

  /** The checksum is the remainder of data * x^8 modulo x^8 + x^7 + x^2 + 1, and nothing else is. */
  lemma CrcIsTheRemainder(data: seq<bv8>, r: bv8)
    ensures r == Crc(data) <==> exists q :: Divides(BitsOf(data) + Zeros(8), q, r)
  {
    FeedDivides(Message(data));
    if q :| Divides(BitsOf(data) + Zeros(8), q, r) {
      RemainderIsUnique(Message(data), q, Quotient(Message(data)), r, Crc(data));
    }
  }

  // ----- linearity -----

  function Xor(a: seq<bool>, b: seq<bool>): (x: seq<bool>)
    requires |a| == |b|
    ensures |x| == |a| && forall n | 0 <= n < |a| :: x[n] <==> a[n] != b[n]
  {
    seq(|a|, n requires 0 <= n < |a| => a[n] != b[n])
  }

  function XorBytes(a: seq<bv8>, b: seq<bv8>): (x: seq<bv8>)
    requires |a| == |b|
    ensures |x| == |a| && forall n | 0 <= n < |a| :: x[n] == Plus(a[n], b[n])
  {
    seq(|a|, n requires 0 <= n < |a| => Plus(a[n], b[n]))
  }

  lemma ShiftIsLinear(r: bv8, r': bv8, bit: bool, bit': bool)
    ensures Shift(r ^ r', bit != bit') == Shift(r, bit) ^ Shift(r', bit')
  {
    TopBitIsLinear(r, r');
    var t: bv8, t': bv8 := if bit then 1 else 0, if bit' then 1 else 0;
    var u: bv8, u': bv8 := if r & 0x80 != 0 then POLY else 0, if r' & 0x80 != 0 then POLY else 0;
    ShiftXor(r, r', t, t', u, u');
  }

  lemma TopBitIsLinear(r: bv8, r': bv8)
    ensures (r ^ r') & 0x80 != 0 <==> ((r & 0x80 != 0) != (r' & 0x80 != 0))
  {
  }

  lemma ShiftXor(r: bv8, r': bv8, t: bv8, t': bv8, u: bv8, u': bv8)
    requires t <= 1 && t' <= 1
    ensures (((r ^ r') << 1) | (t ^ t')) ^ (u ^ u') == (((r << 1) | t) ^ u) ^ (((r' << 1) | t') ^ u')
  {
  }

  lemma FeedLast(p: seq<bool>)
    requires p != []
    ensures Feed(0, p) == Shift(Feed(0, p[..|p| - 1]), p[|p| - 1])
  {
  }

  /** Addition of polynomials. */
  function Plus(a: bv8, b: bv8): bv8 { a ^ b }

  ghost predicate IsXor(a: seq<bool>, b: seq<bool>, x: seq<bool>) {
    |a| == |b| == |x| && forall n | 0 <= n < |a| :: x[n] <==> a[n] != b[n]
  }

  lemma LinearStep(ra: bv8, rb: bv8, rx: bv8, a: bool, b: bool, x: bool)
    requires rx == Plus(ra, rb) && (x <==> a != b)
    ensures Shift(rx, x) == Plus(Shift(ra, a), Shift(rb, b))
  {
    ShiftIsLinear(ra, rb, a, b);
  }

  lemma EmptyIsLinear(a: seq<bool>, b: seq<bool>, x: seq<bool>)
    requires |a| == |b| == |x| == 0
    ensures Feed(0, x) == Plus(Feed(0, a), Feed(0, b))
  {
    var zero: bv8 := 0;
    assert zero ^ zero == zero;
  }

  lemma {:induction false} FeedIsLinear(a: seq<bool>, b: seq<bool>, x: seq<bool>)
    requires IsXor(a, b, x)
    ensures Feed(0, x) == Plus(Feed(0, a), Feed(0, b))
  {
    if |a| == 0 {
      EmptyIsLinear(a, b, x);
    } else {
      hide Feed, Shift, Plus;
      var n := |a| - 1;
      FeedIsLinear(a[..n], b[..n], x[..n]);
      var ra, rb, rx := Feed(0, a[..n]), Feed(0, b[..n]), Feed(0, x[..n]);
      LinearStep(ra, rb, rx, a[n], b[n], x[n]);
      FeedLast(a);
      FeedLast(b);
      FeedLast(x);
    }
  }

  lemma BitIsLinear(x: bv8, y: bv8, j: nat)
    requires j < 8
    ensures Bit(Plus(x, y), j) <==> Bit(x, j) != Bit(y, j)
  {
    var mask: bv8 := 1 << j;
    SingleBit(j, x);
    SingleBit(j, y);
    assert (x ^ y) & mask == (x & mask) ^ (y & mask);
  }

  lemma SingleBit(j: nat, x: bv8)
    requires j < 8
    ensures var mask: bv8 := 1 << j; x & mask == 0 || x & mask == mask
  {
    var mask: bv8 := 1 << j;
    if j == 0 { assert mask == 1; } else if j == 1 { assert mask == 2; } else if j == 2 { assert mask == 4; }
    else if j == 3 { assert mask == 8; } else if j == 4 { assert mask == 16; } else if j == 5 { assert mask == 32; }
    else if j == 6 { assert mask == 64; } else { assert mask == 128; }
  }

  lemma MessageIsLinear(a: seq<bv8>, b: seq<bv8>)
    requires |a| == |b|
    ensures Message(XorBytes(a, b)) == Xor(Message(a), Message(b))
  {
    BitsAreLinear(a, b);
    hide Bit, XorBytes, BitsOf;
    assert |Message(XorBytes(a, b))| == |Xor(Message(a), Message(b))|;
  }

  lemma BitsAreLinear(a: seq<bv8>, b: seq<bv8>)
    requires |a| == |b|
    ensures BitsOf(XorBytes(a, b)) == Xor(BitsOf(a), BitsOf(b))
  {
    hide Bit, Xor, XorBytes, BitsOf, Plus;
    forall n: nat | n < 8 * |a|
      ensures BitsOf(XorBytes(a, b))[n] == Xor(BitsOf(a), BitsOf(b))[n]
    {
      BitIsLinear(a[n / 8], b[n / 8], 7 - n % 8);
      assert BitsOf(XorBytes(a, b))[n] == Bit(Plus(a[n / 8], b[n / 8]), 7 - n % 8);
    }
  }

  /** The checksum of the difference of two blocks is the difference of their checksums. */
  lemma CrcIsLinear(a: seq<bv8>, b: seq<bv8>)
    requires |a| == |b|
    ensures Crc(XorBytes(a, b)) == Crc(a) ^ Crc(b)
  {
    MessageIsLinear(a, b);
    FeedIsLinear(Message(a), Message(b), Xor(Message(a), Message(b)));
  }

  // ----- burst errors -----

  /** Bit i of a register into which the last k bits of x[..n] were lined up. */
  ghost predicate LinedUp(x: seq<bool>, n: nat, k: nat, r: bv8, i: nat)
    requires n <= |x| && k <= n && i < 8
  {
    Bit(r, i) <==> i < k && x[n - 1 - i]
  }

  ghost predicate AllLinedUp(x: seq<bool>, n: nat, k: nat, r: bv8)
    requires n <= |x| && k <= n
  {
    forall i: nat | i < 8 :: LinedUp(x, n, k, r, i)
  }

  /** Fed from an empty register, up to eight bits just line up in it. */
  lemma {:induction false} WindowLinesUp(x: seq<bool>, s: nat, k: nat)
    requires s + k <= |x| && k <= 8 && forall n | 0 <= n < s :: !x[n]
    ensures AllLinedUp(x, s + k, k, Feed(0, x[..s + k]))
    decreases s + k, s
  {
    if s + k == 0 {
      forall i: nat | i < 8
        ensures LinedUp(x, 0, 0, 0, i)
      {
        ZeroHasNoBits(i);
      }
    } else if k == 0 {
      WindowLinesUp(x, s - 1, 1);
      forall i: nat | i < 8
        ensures LinedUp(x, s, 0, Feed(0, x[..s]), i)
      {
        assert LinedUp(x, s, 1, Feed(0, x[..s]), i);
      }
    } else {
      var n, r := s + k, Feed(0, x[..s + k - 1]);
      WindowLinesUp(x, s, k - 1);
      assert LinedUp(x, n - 1, k - 1, r, 7);
      FeedOneMore(x, n - 1);
      hide Bit, Shift, Feed;
      var r' := Shift(r, x[n - 1]);
      forall i: nat | i < 8
        ensures LinedUp(x, n, k, r', i)
      {
        ShiftCoef(r, x[n - 1], i);
        if i > 0 {
          assert LinedUp(x, n - 1, k - 1, r, i - 1);
        }
      }
    }
  }

  lemma ShiftKeepsNonzero(r: bv8)
    ensures Shift(r, false) == 0 <==> r == 0
  {
  }

  lemma {:induction false} TrailingZerosKeepNonzero(x: seq<bool>, s: nat)
    requires s <= |x| && forall n | s <= n < |x| :: !x[n]
    ensures Feed(0, x) == 0 <==> Feed(0, x[..s]) == 0
    decreases |x|
  {
    if s == |x| {
      assert x[..s] == x;
    } else {
      var front := x[..|x| - 1];
      TrailingZerosKeepNonzero(front, s);
      assert front[..s] == x[..s];
      ShiftKeepsNonzero(Feed(0, front));
    }
  }

  /** Two different blocks whose bits differ only within eight consecutive places never share a checksum. */
  lemma BurstsAreDetected(a: seq<bv8>, b: seq<bv8>, s: nat)
    requires |a| == |b| && a != b
    requires forall n | 0 <= n < 8 * |a| :: BitsOf(a)[n] != BitsOf(b)[n] ==> s <= n < s + 8
    ensures Crc(a) != Crc(b)
  {
    hide Xor, XorBytes, BitsOf, Zeros, Feed, Bit;
    var x := Xor(Message(a), Message(b));
    var n := DifferingBit(a, b);
    assert x[n] && s <= n < s + 8;
    forall m | 0 <= m < |x| && !(s <= m < s + 8)
      ensures !x[m]
    {
      if m < 8 * |a| {
        assert x[m] == (BitsOf(a)[m] != BitsOf(b)[m]);
      }
    }
    WindowLinesUp(x, s, 8);
    assert LinedUp(x, s + 8, 8, Feed(0, x[..s + 8]), s + 7 - n);
    ZeroHasNoBits(s + 7 - n);
    TrailingZerosKeepNonzero(x, s + 8);
    FeedIsLinear(Message(a), Message(b), Xor(Message(a), Message(b)));
  }

  lemma DifferingBit(a: seq<bv8>, b: seq<bv8>) returns (n: nat)
    requires |a| == |b| && a != b
    ensures n < 8 * |a| && BitsOf(a)[n] != BitsOf(b)[n]
  {
    var i :| 0 <= i < |a| && a[i] != b[i];
    if forall j: nat | j < 8 :: Bit(a[i], j) <==> Bit(b[i], j) {
      BitsDetermineByte(a[i], b[i]);
    }
    var j: nat :| j < 8 && Bit(a[i], j) != Bit(b[i], j);
    n := 8 * i + 7 - j;
    assert n / 8 == i && n % 8 == 7 - j;
  }

  // ----- odd errors -----

  function Ones(x: seq<bool>): nat {
    if x == [] then 0 else Ones(x[..|x| - 1]) + if x[|x| - 1] then 1 else 0
  }

  function Parity(x: seq<bool>): bool {
    x != [] && Parity(x[..|x| - 1]) != x[|x| - 1]
  }

  lemma {:induction false} ParityIsOddness(x: seq<bool>)
    ensures Parity(x) <==> Ones(x) % 2 == 1
  {
    if x != [] {
      ParityIsOddness(x[..|x| - 1]);
    }
  }

  function ByteParity(r: bv8): bool {
    ((Bit(r, 0) != Bit(r, 1)) != (Bit(r, 2) != Bit(r, 3))) != ((Bit(r, 4) != Bit(r, 5)) != (Bit(r, 6) != Bit(r, 7)))
  }

  /** The polynomial is divisible by x + 1, so a shift changes the parity of the register by the bit fed. */
  lemma ShiftParity(r: bv8, bit: bool)
    ensures ByteParity(Shift(r, bit)) <==> ByteParity(r) != bit
  {
    ShiftBits(r, bit);
    hide Shift, Bit;
  }

  lemma {:induction false} FeedParity(x: seq<bool>)
    ensures ByteParity(Feed(0, x)) <==> Parity(x)
  {
    if x == [] {
      forall j: nat | j < 8
        ensures !Bit(0, j)
      {
        ZeroHasNoBits(j);
      }
    } else {
      hide Feed, Shift, ByteParity;
      FeedParity(x[..|x| - 1]);
      FeedLast(x);
      ShiftParity(Feed(0, x[..|x| - 1]), x[|x| - 1]);
    }
  }

  lemma {:induction false} ParityOfZerosBehind(x: seq<bool>, n: nat)
    ensures Parity(x + Zeros(n)) == Parity(x)
  {
    if n == 0 {
      assert x + Zeros(0) == x;
    } else {
      ParityOfZerosBehind(x, n - 1);
      assert (x + Zeros(n))[..|x| + n - 1] == x + Zeros(n - 1);
    }
  }

  /** The checksum has the parity of the data. */
  lemma CrcKeepsParity(data: seq<bv8>)
    ensures ByteParity(Crc(data)) <==> Ones(BitsOf(data)) % 2 == 1
  {
    FeedParity(Message(data));
    ParityOfZerosBehind(BitsOf(data), 8);
    ParityIsOddness(BitsOf(data));
    hide ByteParity, BitsOf, Feed, Parity, Ones;
  }

  lemma {:induction false} ParityOfXor(a: seq<bool>, b: seq<bool>)
    requires |a| == |b|
    ensures Parity(Xor(a, b)) <==> Parity(a) != Parity(b)
  {
    if a != [] {
      var n := |a| - 1;
      ParityOfXor(a[..n], b[..n]);
      assert Xor(a, b)[..n] == Xor(a[..n], b[..n]);
    }
  }

  /** Two blocks that differ in an odd number of bits never share a checksum. */
  lemma OddErrorsAreDetected(a: seq<bv8>, b: seq<bv8>)
    requires |a| == |b| && Ones(Xor(BitsOf(a), BitsOf(b))) % 2 == 1
    ensures Crc(a) != Crc(b)
  {
    ParityIsOddness(Xor(BitsOf(a), BitsOf(b)));
    ParityOfXor(BitsOf(a), BitsOf(b));
    ParityIsOddness(BitsOf(a));
    ParityIsOddness(BitsOf(b));
    CrcKeepsParity(a);
    CrcKeepsParity(b);
    hide *;
  }
}
