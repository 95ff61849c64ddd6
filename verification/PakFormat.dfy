// The image of a freshly formatted Controller Pak and its checksums.

module PakFormat {
  import opened Common

  const MEMPAK_SIZE: nat := 0x8000
  const BLOCK: nat := 32
  const ID_BLOCKS: seq<nat> := [1, 3, 4, 6]
  const FREE_PAGE: byte := 3
  const FIRST_DATA_PAGE: nat := 5
  const PAGES: nat := 128

  function Word(p: seq<byte>, j: nat): nat
    requires j + 1 < |p|
  {
    (p[j] as int) * 256 + p[j + 1] as int
  }

  /** The checksum of an identification block: its first n big-endian words, modulo 2^16. */
  function IdSum(id: seq<byte>, n: nat): nat
    requires 2 * n <= |id|
  {
    if n == 0 then 0 else (IdSum(id, n - 1) + Word(id, 2 * n - 2)) % 0x10000
  }

  function InvertedIdSum(id: seq<byte>, n: nat): nat
    requires 2 * n <= |id|
  {
    if n == 0 then 0 else (InvertedIdSum(id, n - 1) + (0xffff - Word(id, 2 * n - 2))) % 0x10000
  }

  function Sum(p: seq<byte>): nat {
    if p == [] then 0 else Sum(p[..|p| - 1]) + p[|p| - 1]
  }

  /** The two checksums of any identification block add up to -14 modulo 2^16, one for each word. */
  lemma {:induction false} SumsAreComplementary(id: seq<byte>, n: nat)
    requires 2 * n <= |id|
    ensures (IdSum(id, n) + InvertedIdSum(id, n) + n) % 0x10000 == 0
  {
    if n > 0 {
      SumsAreComplementary(id, n - 1);
      ComplementStep(IdSum(id, n - 1), InvertedIdSum(id, n - 1), n - 1, Word(id, 2 * n - 2));
    }
  }

  lemma ComplementStep(sum: nat, inverted: nat, n: nat, word: nat)
    requires (sum + inverted + n) % 0x10000 == 0 && word <= 0xffff
    ensures ((sum + word) % 0x10000 + (inverted + (0xffff - word)) % 0x10000 + n + 1) % 0x10000 == 0
  {
    var k := (sum + inverted + n) / 0x10000;
    var a, b := (sum + word) / 0x10000, (inverted + (0xffff - word)) / 0x10000;
    assert (sum + word) % 0x10000 + (inverted + (0xffff - word)) % 0x10000 + n + 1 == 0x10000 * (k + 1 - a - b);
  }

  /** What makes a pak image a formatted, empty one. */
  ghost predicate FormattedEmpty(m: seq<byte>) {
    && |m| == MEMPAK_SIZE
    && (forall b | 0 <= b < 8 :: BlockOk(m, b))
    && PageTableOk(m[256..512]) && m[512..768] == m[256..512]
    && (forall i | 768 <= i < MEMPAK_SIZE :: m[i] == 0)
  }

  ghost predicate BlockOk(m: seq<byte>, b: nat)
    requires BLOCK * b + BLOCK <= |m|
  {
    if b in ID_BLOCKS then IdBlockOk(Block(m, b)) else Block(m, b) == Zeros(BLOCK)
  }

  function Block(m: seq<byte>, b: nat): seq<byte>
    requires BLOCK * b + BLOCK <= |m|
  {
    m[BLOCK * b..BLOCK * b + BLOCK]
  }

  /** Device identifier 1, one bank, version 0, and both stored checksums right. */
  ghost predicate IdBlockOk(id: seq<byte>) {
    && |id| == BLOCK && id[..0x18] == Zeros(0x18) && id[0x18..0x1c] == [0, 1, 1, 0]
    && Word(id, 0x1c) == IdSum(id, 14) && Word(id, 0x1e) == InvertedIdSum(id, 14)
  }

  /** Every data page free, and the stored checksum is the low byte of the sum over the data pages. */
  ghost predicate PageTableOk(page: seq<byte>) {
    && |page| == 256 && page[2..2 * FIRST_DATA_PAGE] == Zeros(2 * FIRST_DATA_PAGE - 2)
    && (forall i | FIRST_DATA_PAGE <= i < PAGES :: Word(page, 2 * i) == FREE_PAGE)
    && Word(page, 0) == Sum(page[2 * FIRST_DATA_PAGE..]) % 256
  }

  method PfsSumcalc(p: seq<byte>) returns (sum: nat)
    ensures sum == Sum(p) % 0x10000
  {
    sum := 0;
    for i := 0 to |p|
      invariant sum == Sum(p[..i]) % 0x10000
    {
      assert p[..i + 1][..i] == p[..i];
      sum := sum + p[i];
      sum := sum % 0x10000;
    }
    assert p[..|p|] == p;
  }

  lemma {:induction false} SumsDependOnPrefix(a: seq<byte>, b: seq<byte>, n: nat)
    requires 2 * n <= |a| && 2 * n <= |b| && forall i | 0 <= i < 2 * n :: a[i] == b[i]
    ensures IdSum(a, n) == IdSum(b, n) && InvertedIdSum(a, n) == InvertedIdSum(b, n)
  {
    if n > 0 {
      SumsDependOnPrefix(a, b, n - 1);
      assert Word(a, 2 * n - 2) == Word(b, 2 * n - 2);
    }
  }

  method IdBlock() returns (id: seq<byte>)
    ensures IdBlockOk(id)
  {
    id := seq(BLOCK, _ => 0);
    id := id[0x19 := 1];
    id := id[0x1a := 1];
    ghost var blank := id;
    var csum: int, icsum: int := 0, 0;
    var j := 0;
    while j < 0x1c
      invariant j % 2 == 0 && 0 <= j <= 0x1c
      invariant csum == IdSum(id, j / 2) && icsum == InvertedIdSum(id, j / 2)
    {
      var d: int := (id[j] as int) * 256 + id[j + 1] as int;
      csum := (csum + d) % 0x10000;
      icsum := (icsum + (0xffff - d)) % 0x10000;
      j := j + 2;
    }
    id := id[0x1c := csum / 256];
    id := id[0x1d := csum % 256];
    id := id[0x1e := icsum / 256];
    id := id[0x1f := icsum % 256];
    SumsDependOnPrefix(blank, id, 14);
  }

  method PageTable() returns (page: seq<byte>)
    ensures PageTableOk(page)
  {
    hide Sum;
    page := seq(256, _ => 0);
    for i := FIRST_DATA_PAGE to PAGES
      invariant |page| == 256
      invariant forall k | 0 <= k < 2 * FIRST_DATA_PAGE :: page[k] == 0
      invariant forall k | FIRST_DATA_PAGE <= k < i :: Word(page, 2 * k) == FREE_PAGE
    {
      ghost var before := page;
      page := page[2 * i := 0];
      page := page[2 * i + 1 := FREE_PAGE];
      SameWords(before, page, FIRST_DATA_PAGE, i);
    }
    ghost var data := page[2 * FIRST_DATA_PAGE..];
    var sum := PfsSumcalc(page[2 * FIRST_DATA_PAGE..]);
    ghost var filled := page;
    page := page[0 := 0];
    page := page[1 := sum % 256];
    assert page[2 * FIRST_DATA_PAGE..] == data;
    LowByte(Sum(data));
    SameWords(filled, page, FIRST_DATA_PAGE, PAGES);
  }

  lemma LowByte(sum: nat)
    ensures sum % 0x10000 % 256 == sum % 256
  {
  }

  lemma SameWords(a: seq<byte>, b: seq<byte>, lo: nat, hi: nat)
    requires |a| == |b| && 2 * hi <= |a| && forall i | 2 * lo <= i < 2 * hi :: a[i] == b[i]
    ensures forall k | lo <= k < hi :: Word(b, 2 * k) == Word(a, 2 * k)
  {
  }

  /** `src` copied over `m` from `at` on. */
  function Patch(m: seq<byte>, at: nat, src: seq<byte>): (r: seq<byte>)
    requires at + |src| <= |m|
    ensures |r| == |m| && r[at..at + |src|] == src
    ensures forall i | 0 <= i < |m| && !(at <= i < at + |src|) :: r[i] == m[i]
  {
    m[..at] + src + m[at + |src|..]
  }

  lemma PatchElsewhere(m: seq<byte>, at: nat, src: seq<byte>, lo: nat, hi: nat)
    requires at + |src| <= |m| && lo <= hi <= |m| && (hi <= at || at + |src| <= lo)
    ensures Patch(m, at, src)[lo..hi] == m[lo..hi]
  {
  }

  method FormatEmptyMempak() returns (m: seq<byte>)
    ensures FormattedEmpty(m)
  {
    hide Sum, IdSum, InvertedIdSum;
    m := seq(MEMPAK_SIZE, _ => 0);
    var id := IdBlock();
    for k := 0 to |ID_BLOCKS|
      invariant |m| == MEMPAK_SIZE
      invariant forall b | 0 <= b < 8 :: Block(m, b) == if b in ID_BLOCKS[..k] then id else Zeros(BLOCK)
      invariant forall i | 256 <= i < MEMPAK_SIZE :: m[i] == 0
    {
      ghost var m' := Patch(m, ID_BLOCKS[k] * 32, id);
      forall b | 0 <= b < 8
        ensures Block(m', b) == if b in ID_BLOCKS[..k + 1] then id else Zeros(BLOCK)
      {
        assert ID_BLOCKS[..k + 1] == ID_BLOCKS[..k] + [ID_BLOCKS[k]];
        if b != ID_BLOCKS[k] {
          PatchElsewhere(m, ID_BLOCKS[k] * 32, id, BLOCK * b, BLOCK * b + BLOCK);
        }
      }
      m := Patch(m, ID_BLOCKS[k] * 32, id);
    }
    assert ID_BLOCKS[..4] == ID_BLOCKS;
    ghost var withId := m;
    var page := PageTable();
    m := Patch(m, 256, page);
    PatchElsewhere(m, 512, page, 256, 512);
    m := Patch(m, 512, page);
    forall b | 0 <= b < 8
      ensures Block(m, b) == Block(withId, b)
    {
      assert forall i | 0 <= i < 256 :: m[i] == withId[i];
    }
  }

  // ----- the image byte by byte -----

  function IdByte(j: nat): byte {
    if j == 0x19 || j == 0x1a || j == 0x1c || j == 0x1d then 1
    else if j == 0x1e then 0xfe else if j == 0x1f then 0xf1 else 0
  }

  function PageByte(j: nat): byte { if j == 1 then 0x71 else if j >= 10 && j % 2 == 1 then 3 else 0 }

  function BlankByte(i: nat): byte {
    if i < 256 then if i / 32 in [1, 3, 4, 6] then IdByte(i % 32) else 0
    else if i < 768 then PageByte(i % 256) else 0
  }

  lemma {:induction false} IdSumIs(id: seq<byte>, n: nat)
    requires |id| == 32 && n <= 14 && forall j | 0 <= j < 0x1c :: id[j] == IdByte(j)
    ensures IdSum(id, n) == if n <= 12 then 0 else if n == 13 then 1 else 0x101
  {
    if n > 0 {
      IdSumIs(id, n - 1);
    }
  }

  lemma InvertedIs(sum: nat, inverted: nat)
    requires (sum + inverted + 14) % 0x10000 == 0 && sum == 0x101 && inverted < 0x10000
    ensures inverted == 0xfef1
  {
  }

  lemma InvertedBound(id: seq<byte>, n: nat)
    requires 2 * n <= |id|
    ensures InvertedIdSum(id, n) < 0x10000
  {
  }

  lemma IdBlockBytes(id: seq<byte>)
    ensures IdBlockOk(id) <==> |id| == 32 && forall j | 0 <= j < 32 :: id[j] == IdByte(j)
  {
    if |id| == 32 && id[..0x18] == Zeros(0x18) && id[0x18..0x1c] == [0, 1, 1, 0] {
      assert forall j | 0 <= j < 0x18 :: id[j] == id[..0x18][j];
      assert forall j | 0x18 <= j < 0x1c :: id[j] == id[0x18..0x1c][j - 0x18];
      IdSums(id);
      hide IdSum, InvertedIdSum;
    } else {
      hide Word, IdSum, InvertedIdSum;
    }
  }

  lemma IdSums(id: seq<byte>)
    requires |id| == 32 && forall j | 0 <= j < 0x1c :: id[j] == IdByte(j)
    ensures IdSum(id, 14) == 0x101 && InvertedIdSum(id, 14) == 0xfef1
  {
    IdSumIs(id, 14);
    SumsAreComplementary(id, 14);
    InvertedBound(id, 14);
    hide *;
    InvertedIs(IdSum(id, 14), InvertedIdSum(id, 14));
  }

  lemma SumOfLast(p: seq<byte>)
    requires p != []
    ensures Sum(p) == Sum(p[..|p| - 1]) + p[|p| - 1]
  {
  }

  /** Free pages alone: three for each. */
  lemma {:induction false} FreeSum(p: seq<byte>, n: nat)
    requires |p| == 2 * n && forall j | 0 <= j < |p| :: p[j] == if j % 2 == 1 then 3 else 0
    ensures Sum(p) == 3 * n
  {
    if n == 0 {
      assert p == [];
    } else {
      SumOfLast(p);
      SumOfLast(p[..2 * n - 1]);
      hide Sum;
      assert p[..2 * n - 1][..2 * n - 2] == p[..2 * n - 2];
      FreeSum(p[..2 * n - 2], n - 1);
    }
  }

  lemma PageBytes(page: seq<byte>)
    ensures PageTableOk(page) <==> |page| == 256 && forall j | 0 <= j < 256 :: page[j] == PageByte(j)
  {
    if |page| == 256 && (forall j | 2 <= j < 256 :: page[j] == PageByte(j)) {
      var data := page[10..];
      FreeSum(data, 123);
      hide Sum;
      assert page[2..10] == Zeros(8);
    } else if PageTableOk(page) {
      forall j | 2 <= j < 256
        ensures page[j] == PageByte(j)
      {
        if j < 10 {
          assert page[j] == page[2..10][j - 2];
        } else {
          assert Word(page, 2 * (j / 2)) == 3;
        }
      }
    }
  }

  /** A stretch of the image is as listed. */
  ghost predicate Listed(m: seq<byte>, lo: nat, hi: nat)
    requires hi <= |m|
  {
    forall i | lo <= i < hi :: m[i] == BlankByte(i)
  }

  lemma BlankBlock(b: nat, i: nat)
    requires b < 8 && 32 * b <= i < 32 * b + 32
    ensures BlankByte(i) == if b in ID_BLOCKS then IdByte(i - 32 * b) else 0
  {
    assert i / 32 == b && i % 32 == i - 32 * b;
  }

  lemma BlockBytes(m: seq<byte>, b: nat)
    requires |m| >= 256 && b < 8
    ensures BlockOk(m, b) <==> Listed(m, 32 * b, 32 * b + 32)
  {
    var block := Block(m, b);
    IdBlockBytes(block);
    forall i: nat | 32 * b <= i < 32 * b + 32
      ensures m[i] == block[i - 32 * b]
      ensures BlankByte(i) == if b in ID_BLOCKS then IdByte(i - 32 * b) else 0
    {
      BlankBlock(b, i);
    }
    hide IdBlockOk, IdByte, BlankByte;
    if Listed(m, 32 * b, 32 * b + 32) {
      assert forall j | 0 <= j < 32 :: block[j] == m[32 * b + j] == BlankByte(32 * b + j);
    }
  }

  lemma IdAreaBytes(m: seq<byte>)
    requires |m| >= 256
    ensures (forall b | 0 <= b < 8 :: BlockOk(m, b)) <==> Listed(m, 0, 256)
  {
    forall b: nat | b < 8
      ensures BlockOk(m, b) <==> Listed(m, 32 * b, 32 * b + 32)
    {
      BlockBytes(m, b);
    }
    hide BlockOk, BlankByte;
    if forall b: nat | b < 8 :: BlockOk(m, b) {
      forall i: nat | i < 256
        ensures m[i] == BlankByte(i)
      {
        assert BlockOk(m, i / 32);
      }
    }
  }

  lemma PagesBytes(m: seq<byte>)
    requires |m| == MEMPAK_SIZE
    ensures PageTableOk(m[256..512]) && m[512..768] == m[256..512] <==> Listed(m, 256, 768)
  {
    var page, copy := m[256..512], m[512..768];
    PageBytes(page);
    hide PageTableOk, PageByte;
    if PageTableOk(page) && copy == page {
      forall i | 256 <= i < 768
        ensures m[i] == BlankByte(i)
      {
        if i < 512 {
          assert m[i] == page[i - 256] && i % 256 == i - 256;
        } else {
          assert m[i] == copy[i - 512] && i % 256 == i - 512;
        }
      }
    }
    if Listed(m, 256, 768) {
      forall j: nat | j < 256
        ensures page[j] == PageByte(j) && copy[j] == PageByte(j)
      {
        assert m[256 + j] == BlankByte(256 + j) && m[512 + j] == BlankByte(512 + j);
        assert (256 + j) % 256 == j && (512 + j) % 256 == j;
      }
      assert page == copy;
    }
  }

  /** The one formatted image, byte by byte. */
  lemma FormattedBytes(m: seq<byte>)
    ensures FormattedEmpty(m) <==> |m| == 0x8000 && forall i | 0 <= i < 0x8000 :: m[i] == BlankByte(i)
  {
    if |m| == 0x8000 {
      IdAreaBytes(m);
      PagesBytes(m);
      assert forall i | 768 <= i < 0x8000 :: BlankByte(i) == 0;
      hide IdBlockOk, PageTableOk, BlankByte, Block;
    }
  }

  /** There is only one formatted, empty image. */
  lemma FormattedIsUnique(a: seq<byte>, b: seq<byte>)
    requires FormattedEmpty(a) && FormattedEmpty(b)
    ensures a == b
  {
    FormattedBytes(a);
    FormattedBytes(b);
    hide FormattedEmpty, BlankByte;
  }
}
