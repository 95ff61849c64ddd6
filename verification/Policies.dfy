// What the checks of a name map and of a policy accept.

module Policies {
  import opened ElfModel
  import opened Bindings

  // ----- texts -----

  /** 64 lower-case hexadecimal digits. */
  predicate Hex64(s: string) { |s| == 64 && forall c | c in s :: c in "0123456789abcdef" }

  lemma HexDigits(c: char)
    ensures c in "0123456789abcdef" <==> '0' <= c <= '9' || 'a' <= c <= 'f'
  {
    var digits := "0123456789abcdef";
    if '0' <= c <= '9' {
      assert digits[c as int - '0' as int] == c;
    } else if 'a' <= c <= 'f' {
      assert digits[c as int - 'a' as int + 10] == c;
    }
  }

  lemma DigestIff(s: string)
    ensures IsDigest(s) <==> Hex64(s)
  {
    forall c | c in s
      ensures c in "0123456789abcdef" <==> '0' <= c <= '9' || 'a' <= c <= 'f'
    {
      HexDigits(c);
    }
    if IsDigest(s) {
      forall c | c in s
        ensures c in "0123456789abcdef"
      {
        var i :| 0 <= i < |s| && s[i] == c;
      }
    }
    if Hex64(s) {
      assert forall i | 0 <= i < 64 :: s[i] in s;
    }
  }

  predicate Letter(c: char) { 'A' <= c <= 'Z' || 'a' <= c <= 'z' || c == '_' }

  /** A letter or underscore first, and letters, underscores and digits behind. */
  predicate Lettered(s: string) { s != "" && Letter(s[0]) && forall c | c in s[1..] :: Letter(c) || '0' <= c <= '9' }

  lemma IdentifierIff(s: string)
    ensures IsIdentifier(s) <==> Lettered(s)
  {
    if Lettered(s) {
      assert forall i | 1 <= i < |s| :: s[i] in s[1..];
    }
  }

  // ----- extents -----

  ghost predicate Covers(r: Row, x: int) { r.vma <= x < r.vma + r.size }

  /** No address belongs to two rows. */
  ghost predicate Disjoint(rows: seq<Row>) {
    forall i, j, x | 0 <= i < j < |rows| :: !(Covers(rows[i], x) && Covers(rows[j], x))
  }

  lemma ApartIff(rows: seq<Row>)
    requires forall r | r in rows :: r.size > 0
    ensures RowsApart(rows) <==> Disjoint(rows)
  {
    if Disjoint(rows) {
      forall i, j | 0 <= i < j < |rows|
        ensures Apart(rows[j].vma, rows[j].size, rows[i].vma, rows[i].vma + rows[i].size)
      {
        var x := if rows[i].vma < rows[j].vma then rows[j].vma else rows[i].vma;
        assert rows[i] in rows && rows[j] in rows && !(Covers(rows[i], x) && Covers(rows[j], x));
      }
    }
    if RowsApart(rows) {
      forall i, j, x | 0 <= i < j < |rows|
        ensures !(Covers(rows[i], x) && Covers(rows[j], x))
      {
        assert Apart(rows[j].vma, rows[j].size, rows[i].vma, rows[i].vma + rows[i].size);
      }
    }
  }

  // ----- policies and name maps -----

  /** Identifiers, a section with a dot before its name, one to 16384 whole instructions within 32 bits, a digest. */
  ghost predicate RowFits(r: Row) {
    && Lettered(r.name) && Lettered(r.referenceName) && "." <= r.section && Hex64(r.sha)
    && (exists n :: 1 <= n <= 16384 && r.size == 4 * n)
    && (exists k :: 0 <= k && r.vma == 4 * k && r.vma + r.size <= 0x1_0000_0000)
  }

  lemma RowOkIff(r: Row)
    ensures RowOk(r) <==> RowFits(r)
  {
    IdentifierIff(r.name);
    IdentifierIff(r.referenceName);
    DigestIff(r.sha);
    hide IsIdentifier, IsDigest, Lettered, Hex64;
    if RowOk(r) {
      assert r.size == 4 * (r.size / 4) && r.vma == 4 * (r.vma / 4);
    }
  }

  /** The policies accepted: 29 rows that fit, of pairwise different names, no address in two of them. That addresses
      differ follows. */
  lemma PolicyOkIff(p: Policy)
    ensures PolicyOk(p) <==>
            && p.schema == 1 && Hex64(p.romSha) && Hex64(p.elfSha) && Hex64(p.mapSha) && |p.functions| == 29
            && (forall i | 0 <= i < 29 :: RowFits(p.functions[i])) && Disjoint(p.functions)
            && forall i, j | 0 <= i < j < 29 :: p.functions[i].name != p.functions[j].name
  {
    DigestIff(p.romSha);
    DigestIff(p.elfSha);
    DigestIff(p.mapSha);
    hide IsDigest, Hex64;
    if |p.functions| == 29 {
      RowsOkIff(p.functions);
    }
  }

  lemma RowsOkIff(rows: seq<Row>)
    ensures (forall r | r in rows :: RowOk(r)) && RowsApart(rows) && RowsDistinct(rows) <==>
            && (forall i | 0 <= i < |rows| :: RowFits(rows[i])) && Disjoint(rows)
            && forall i, j | 0 <= i < j < |rows| :: rows[i].name != rows[j].name
  {
    forall r | r in rows
      ensures (RowOk(r) <==> RowFits(r)) && (RowOk(r) ==> r.size > 0)
    {
      RowOkIff(r);
    }
    hide RowOk, RowFits;
    if forall r | r in rows :: RowOk(r) {
      ApartIff(rows);
      if Disjoint(rows) {
        forall i, j | 0 <= i < j < |rows|
          ensures rows[i].vma != rows[j].vma
        {
          assert rows[i] in rows && rows[j] in rows && !(Covers(rows[i], rows[i].vma) && Covers(rows[j], rows[i].vma));
        }
      }
    }
  }

  ghost predicate InstructionAddress(vma: int) { exists k :: 0 <= k < 0x4000_0000 && vma == 4 * k }

  /** The name maps accepted: 29 different names of 29 different aligned 32-bit addresses. */
  lemma NameMapOkIff(m: NameMap)
    ensures NameMapOk(m) <==>
            && m.schema == 1 && Hex64(m.romSha) && |m.functions| == 29
            && (forall i | 0 <= i < 29 :: Lettered(m.functions[i].name) && InstructionAddress(m.functions[i].vma))
            && (forall i, j | 0 <= i < j < 29 :: m.functions[i].name != m.functions[j].name)
            && (forall i, j | 0 <= i < j < 29 :: m.functions[i].vma != m.functions[j].vma)
  {
    DigestIff(m.romSha);
    forall r | r in m.functions
      ensures IsIdentifier(r.name) <==> Lettered(r.name)
      ensures 0 <= r.vma < WORD && r.vma % 4 == 0 <==> InstructionAddress(r.vma)
    {
      IdentifierIff(r.name);
      Aligned(r.vma);
    }
    hide IsIdentifier, IsDigest, Lettered, Hex64, InstructionAddress;
    assert forall i | 0 <= i < |m.functions| :: m.functions[i] in m.functions;
  }

  lemma Aligned(vma: int)
    ensures 0 <= vma < WORD && vma % 4 == 0 <==> InstructionAddress(vma)
  {
    if 0 <= vma < WORD && vma % 4 == 0 {
      assert vma == 4 * (vma / 4);
    }
  }
}
