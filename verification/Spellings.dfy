// Which rows freeze, which rows resolve, and under which names: every test of the two loops, no more and no less.

module Spellings {
  import opened Common
  import opened ElfModel
  import opened Bindings

  // ----- addresses in names -----

  predicate IsHexDigit(c: char) { '0' <= c <= '9' || 'A' <= c <= 'F' }

  function DigitValue(c: char): int
    requires IsHexDigit(c)
  {
    if c <= '9' then c as int - '0' as int else c as int - 'A' as int + 10
  }

  predicate IsHex(s: string) { forall i | 0 <= i < |s| :: IsHexDigit(s[i]) }

  function HexValue(s: string): int
    requires IsHex(s)
  {
    if s == "" then 0 else HexValue(s[..|s| - 1]) * 16 + DigitValue(s[|s| - 1])
  }

  function Pow16(n: nat): nat { if n == 0 then 1 else 16 * Pow16(n - 1) }

  lemma DigitOf(n: nat)
    requires n < 16
    ensures IsHexDigit(HexDigit(n)) && DigitValue(HexDigit(n)) == n
  {
  }

  lemma DigitBack(c: char)
    requires IsHexDigit(c)
    ensures 0 <= DigitValue(c) < 16 && HexDigit(DigitValue(c)) == c
  {
  }

  lemma OneMoreDigit(s: string, c: char)
    requires IsHex(s) && IsHexDigit(c)
    ensures IsHex(s + [c]) && HexValue(s + [c]) == HexValue(s) * 16 + DigitValue(c)
  {
    assert (s + [c])[..|s|] == s;
  }

  /** No digit more than asked for unless it is needed. */
  predicate NoPadding(s: string, digits: nat) { |s| >= digits && (|s| > digits ==> s[0] != '0') }

  lemma {:induction false} HexSpells(n: nat, digits: nat)
    ensures var s := Hex(n, digits);
            IsHex(s) && HexValue(s) == n && NoPadding(s, digits) && (n < Pow16(digits) ==> |s| == digits)
  {
    if digits > 0 || n > 0 {
      var d := if digits == 0 then 0 else digits - 1;
      var front, c := Hex(n / 16, d), HexDigit(n % 16);
      HexSpells(n / 16, d);
      DigitOf(n % 16);
      OneMoreDigit(front, c);
      assert Hex(n, digits) == front + [c] && (digits > 0 ==> Pow16(digits) == 16 * Pow16(d));
      hide Hex, HexValue, IsHex, DigitValue, IsHexDigit, Pow16;
      LeadingDigit(front, c, n, d, digits);
    }
  }

  lemma LeadingDigit(front: string, c: char, n: nat, d: nat, digits: nat)
    requires d == (if digits == 0 then 0 else digits - 1) && (digits > 0 || n > 0)
    requires NoPadding(front, d) && IsHexDigit(c) && DigitValue(c) == n % 16 && (front == "" ==> n / 16 == 0)
    ensures NoPadding(front + [c], digits)
  {
  }

  lemma {:induction false} HexIsPositive(s: string)
    requires IsHex(s) && s != "" && s[0] != '0'
    ensures HexValue(s) > 0
  {
    var front := s[..|s| - 1];
    if front != "" {
      HexIsPositive(front);
    }
  }

  lemma {:induction false} HexBack(s: string, digits: nat)
    requires IsHex(s) && NoPadding(s, digits)
    ensures 0 <= HexValue(s) && Hex(HexValue(s), digits) == s
  {
    if s != "" {
      var front, c := s[..|s| - 1], s[|s| - 1];
      HexBack(front, if digits == 0 then 0 else digits - 1);
      DigitBack(c);
      if digits == 0 {
        HexIsPositive(s);
      }
      assert s == front + [c];
      assert HexValue(s) / 16 == HexValue(front) && HexValue(s) % 16 == DigitValue(c);
    }
  }

  /** The address behind "func_" in upper-case hexadecimal, eight digits or as many more as it takes. */
  ghost predicate SpellsAddress(name: string, vma: int) {
    && |name| >= 5 && name[..5] == "func_" && IsHex(name[5..]) && NoPadding(name[5..], 8) && HexValue(name[5..]) == vma
    && (vma < WORD ==> |name| == 13)
  }

  /** Every address has exactly one such name, the one the tool accepts; a 32-bit one has eight digits. */
  lemma FuncNameIff(vma: nat, name: string)
    ensures name == FuncName(vma) <==> SpellsAddress(name, vma)
  {
    EightDigits();
    hide Hex, HexValue, IsHex, Pow16;
    HexSpells(vma, 8);
    assert FuncName(vma)[5..] == Hex(vma, 8);
    if SpellsAddress(name, vma) {
      HexBack(name[5..], 8);
      assert name == name[..5] + name[5..];
    }
  }

  lemma EightDigits()
    ensures Pow16(8) == WORD
  {
    assert Pow16(4) == 65536;
    assert Pow16(8) == 16 * (16 * (16 * (16 * Pow16(4))));
  }

  // ----- resolving one row -----

  ghost predicate Spelled(name: string, row: Row) {
    name == row.name || name == row.referenceName || SpellsAddress(name, row.vma)
  }

  /** The row's function in any target: the only one of its section at its address, of its size, under an allowed name,
      its name borne nowhere else, its bytes those of the digest. */
  ghost predicate Resolves(env: Env, elf: Elf, row: Row, f: Found) {
    var at := f.section.offset + f.symbol.vma - f.section.vma;
    && 0 <= row.vma && Positives(elf, row.vma, Named(row.section), |elf.symbols|) == Ok([f])
    && f.symbol.size == row.size && Spelled(f.symbol.name, row)
    && (forall i | 0 <= i < |elf.symbols| && elf.symbols[i].name == row.name :: elf.symbols[i].vma == row.vma)
    && 0 <= at && at + f.symbol.size <= |elf.raw| && env.hash(elf.raw[at..at + f.symbol.size]) == row.sha
  }

  function Bound(elf: Elf, row: Row, f: Found): Binding
    requires 0 <= f.section.offset + f.symbol.vma - f.section.vma
    requires f.section.offset + f.symbol.vma - f.section.vma + f.symbol.size <= |elf.raw|
  {
    var at := f.section.offset + f.symbol.vma - f.section.vma;
    Binding(row.name, f.symbol.name, row.section, row.vma, row.size, elf.raw[at..at + f.symbol.size])
  }

  /** A row resolves to a binding if and only if some function is the row's, and then the binding says which. */
  lemma ResolveOneIff(env: Env, elf: Elf, row: Row, b: Binding, id: (nat, int))
    ensures ResolveOne(env, elf, row) == Ok((b, id)) <==>
            exists f :: Resolves(env, elf, row, f) && b == Bound(elf, row, f) && id == (f.section.index, f.symbol.vma)
  {
    var r := ResolveOne(env, elf, row);
    if r.Ok? {
      var f := ResolvedFunction(env, elf, row);
      if exists g :: Resolves(env, elf, row, g) && b == Bound(elf, row, g) && id == (g.section.index, g.symbol.vma) {
        var g :| Resolves(env, elf, row, g) && b == Bound(elf, row, g) && id == (g.section.index, g.symbol.vma);
        OneFound(elf, row, f, g);
      }
    }
    forall f | Resolves(env, elf, row, f)
      ensures r == Ok((Bound(elf, row, f), (f.section.index, f.symbol.vma)))
    {
      ResolvesBack(env, elf, row, f);
    }
  }

  lemma OneFound(elf: Elf, row: Row, f: Found, g: Found)
    requires 0 <= row.vma && Positives(elf, row.vma, Named(row.section), |elf.symbols|) == Ok([f])
    requires Positives(elf, row.vma, Named(row.section), |elf.symbols|) == Ok([g])
    ensures f == g
  {
    assert [f][0] == [g][0];
  }

  lemma ResolvedFunction(env: Env, elf: Elf, row: Row) returns (f: Found)
    requires ResolveOne(env, elf, row).Ok?
    ensures Resolves(env, elf, row, f)
    ensures ResolveOne(env, elf, row) == Ok((Bound(elf, row, f), (f.section.index, f.symbol.vma)))
  {
    hide Positives, FuncName, SpellsAddress;
    var found := Positives(elf, row.vma, Named(row.section), |elf.symbols|).value;
    f := found[0];
    assert found == [f];
    FuncNameIff(row.vma, f.symbol.name);
    assert NoAlias(elf, row);
  }

  lemma ResolvesBack(env: Env, elf: Elf, row: Row, f: Found)
    requires Resolves(env, elf, row, f)
    ensures ResolveOne(env, elf, row) == Ok((Bound(elf, row, f), (f.section.index, f.symbol.vma)))
  {
    hide Positives, FuncName, SpellsAddress;
    FuncNameIff(row.vma, f.symbol.name);
    assert NoAlias(elf, row);
  }

  // ----- resolving a policy -----

  lemma ResolvedAddress(env: Env, elf: Elf, row: Row)
    ensures ResolveOne(env, elf, row).Ok? ==> ResolveOne(env, elf, row).value.1.1 == row.vma
  {
    if ResolveOne(env, elf, row).Ok? {
      var f := ResolvedFunction(env, elf, row);
      PositivesAreFunctions(elf, row.vma, Named(row.section), |elf.symbols|);
      assert f in [f] && FoundOk(elf, f, row.vma, Named(row.section));
      hide Positives, ResolveOne, Resolves;
    }
  }

  ghost predicate EachResolves(env: Env, elf: Elf, rows: seq<Row>) {
    forall i | 0 <= i < |rows| :: ResolveOne(env, elf, rows[i]).Ok?
  }

  lemma EachResolvesStep(env: Env, elf: Elf, rows: seq<Row>)
    requires rows != []
    ensures EachResolves(env, elf, rows) <==>
            EachResolves(env, elf, rows[..|rows| - 1]) && ResolveOne(env, elf, rows[|rows| - 1]).Ok?
  {
    hide ResolveOne;
  }

  /** Rows at different addresses resolve together exactly when each does. */
  lemma {:induction false} ResolveRowsIff(env: Env, elf: Elf, rows: seq<Row>)
    requires DistinctAddresses(rows)
    ensures IdsOk(ResolveRows(env, elf, rows), rows)
    ensures ResolveRows(env, elf, rows).Ok? <==> EachResolves(env, elf, rows)
  {
    if rows == [] {
      NoRowsResolve(env, elf, rows);
    } else {
      assert DistinctAddresses(rows[..|rows| - 1]);
      hide *;
      ResolveRowsIff(env, elf, rows[..|rows| - 1]);
      ResolvedAddress(env, elf, rows[|rows| - 1]);
      OneMoreRow(env, elf, rows);
      EachResolvesStep(env, elf, rows);
    }
  }

  ghost predicate ResolvesTo(env: Env, elf: Elf, row: Row, b: Binding) {
    exists f :: Resolves(env, elf, row, f) && b == Bound(elf, row, f)
  }

  lemma ResolvesToIff(env: Env, elf: Elf, row: Row, b: Binding)
    ensures ResolvesTo(env, elf, row, b) <==> ResolveOne(env, elf, row).Ok? && ResolveOne(env, elf, row).value.0 == b
  {
    if ResolveOne(env, elf, row).Ok? {
      var f := ResolvedFunction(env, elf, row);
    }
    if f :| Resolves(env, elf, row, f) && b == Bound(elf, row, f) {
      ResolvesBack(env, elf, row, f);
    }
    hide ResolveOne;
  }

  /** The whole of a resolve: a well-formed policy on a file that parses yields these bindings, one for each row in
      order, if and only if each row resolves to its own. */
  lemma ResolveBindingsIff(env: Env, target: seq<byte>, policy: Policy, bindings: seq<Binding>)
    ensures ResolveBindings(env, target, policy) == Ok(bindings) <==>
            && PolicyOk(policy) && Parse(target).Ok? && |bindings| == ORIGINALS
            && forall i | 0 <= i < ORIGINALS ::
                 ResolvesTo(env, Parse(target).value, policy.functions[i], bindings[i])
  {
    hide Parse, ResolveRows, PolicyOk, ResolvesTo;
    if PolicyOk(policy) && Parse(target).Ok? {
      PolicyAddresses(policy);
      RowsResolveIff(env, Parse(target).value, policy.functions, bindings);
    }
  }

  lemma PolicyAddresses(policy: Policy)
    requires PolicyOk(policy)
    ensures DistinctAddresses(policy.functions) && |policy.functions| == ORIGINALS
  {
  }

  lemma RowsResolveIff(env: Env, elf: Elf, rows: seq<Row>, bindings: seq<Binding>)
    requires DistinctAddresses(rows)
    ensures var r := ResolveRows(env, elf, rows);
            && (r.Ok? ==> |r.value.1| == |rows|)
            && (r.Ok? && r.value.0 == bindings <==>
                |bindings| == |rows| && forall i | 0 <= i < |rows| :: ResolvesTo(env, elf, rows[i], bindings[i]))
  {
    ResolveRowsIff(env, elf, rows);
    hide ResolveRows, ResolvesTo, ResolveOne, DistinctAddresses;
    if ResolveRows(env, elf, rows).Ok? {
      RowsInOrder(env, elf, rows);
    }
    if |bindings| == |rows| {
      forall i | 0 <= i < |rows|
        ensures ResolvesTo(env, elf, rows[i], bindings[i]) <==>
                ResolveOne(env, elf, rows[i]).Ok? && ResolveOne(env, elf, rows[i]).value.0 == bindings[i]
      {
        ResolvesToIff(env, elf, rows[i], bindings[i]);
      }
    }
  }

  lemma RowsInOrder(env: Env, elf: Elf, rows: seq<Row>)
    requires ResolveRows(env, elf, rows).Ok?
    ensures var bindings := ResolveRows(env, elf, rows).value.0;
            && |bindings| == |rows|
            && forall i | 0 <= i < |rows| ::
                 ResolveOne(env, elf, rows[i]).Ok? && bindings[i] == ResolveOne(env, elf, rows[i]).value.0
  {
    ResolvedLength(env, elf, rows);
    forall i | 0 <= i < |rows|
      ensures ResolveOne(env, elf, rows[i]).Ok?
      ensures ResolveRows(env, elf, rows).value.0[i] == ResolveOne(env, elf, rows[i]).value.0
    {
      ResolvedRows(env, elf, rows, i);
    }
  }

  // ----- freezing -----

  /** The row's function in the reference: the only one at its address, and its bytes stand in the ROM where its load
      segment says. */
  ghost predicate Freezes(elf: Elf, rom: seq<byte>, source: Name, f: Found) {
    var at := f.section.offset + f.symbol.vma - f.section.vma;
    && 0 <= source.vma && Positives(elf, source.vma, AnySection, |elf.symbols|) == Ok([f])
    && 0 <= at && at + f.symbol.size <= |elf.raw| && RomOffset(elf, f).Ok?
    && var offset := RomOffset(elf, f).value;
       0 <= offset && offset + f.symbol.size <= |rom|
       && rom[offset..offset + f.symbol.size] == elf.raw[at..at + f.symbol.size]
  }

  function FrozenAs(env: Env, elf: Elf, source: Name, f: Found): Row
    requires 0 <= f.section.offset + f.symbol.vma - f.section.vma
    requires f.section.offset + f.symbol.vma - f.section.vma + f.symbol.size <= |elf.raw|
  {
    var at := f.section.offset + f.symbol.vma - f.section.vma;
    Row(source.name, f.symbol.vma, f.symbol.size, f.section.name, f.symbol.name,
        env.hash(elf.raw[at..at + f.symbol.size]))
  }

  lemma FreezeOneIff(env: Env, elf: Elf, rom: seq<byte>, source: Name, row: Row)
    ensures FreezeOne(env, elf, rom, source) == Ok(row) <==>
            exists f :: Freezes(elf, rom, source, f) && row == FrozenAs(env, elf, source, f)
  {
    hide Positives, RomOffset;
    if FreezeOne(env, elf, rom, source) == Ok(row) {
      var found := Positives(elf, source.vma, AnySection, |elf.symbols|).value;
      assert found == [found[0]];
      assert Freezes(elf, rom, source, found[0]);
    }
    if f :| Freezes(elf, rom, source, f) && row == FrozenAs(env, elf, source, f) {
      assert TheFunction(elf, source.vma, AnySection) == Ok(f);
    }
  }

  ghost predicate EachFreezes(env: Env, elf: Elf, rom: seq<byte>, names: seq<Name>, rows: seq<Row>) {
    |rows| == |names| && forall i | 0 <= i < |rows| :: FreezeOne(env, elf, rom, names[i]) == Ok(rows[i])
  }

  lemma EachFreezesStep(env: Env, elf: Elf, rom: seq<byte>, names: seq<Name>, rows: seq<Row>)
    requires |names| == |rows| > 0
    ensures var n := |names| - 1;
            EachFreezes(env, elf, rom, names, rows) <==>
            EachFreezes(env, elf, rom, names[..n], rows[..n]) && FreezeOne(env, elf, rom, names[n]) == Ok(rows[n])
  {
    hide FreezeOne;
  }

  lemma RowsApartStep(rows: seq<Row>)
    requires rows != []
    ensures var front, last := rows[..|rows| - 1], rows[|rows| - 1];
            RowsApart(rows) <==>
            RowsApart(front) && forall r | r in front :: Apart(last.vma, last.size, r.vma, r.vma + r.size)
  {
    var front, last := rows[..|rows| - 1], rows[|rows| - 1];
    hide Apart;
    assert forall i | 0 <= i < |front| :: front[i] == rows[i] && front[i] in front;
  }

  /** The rows of a freeze: each name's own, in order, none overlapping another. */
  lemma {:induction false} FreezeRowsIff(env: Env, elf: Elf, rom: seq<byte>, names: seq<Name>, rows: seq<Row>)
    ensures FreezeRows(env, elf, rom, names) == Ok(rows) <==>
            EachFreezes(env, elf, rom, names, rows) && RowsApart(rows)
  {
    if names == [] {
      FreezeNothing(env, elf, rom, names, rows);
    } else {
      hide *;
      FreezeRowsStep(env, elf, rom, names, rows);
      if |rows| == |names| {
        FreezeRowsIff(env, elf, rom, names[..|names| - 1], rows[..|names| - 1]);
        EachFreezesStep(env, elf, rom, names, rows);
        RowsApartStep(rows);
      } else {
        OtherLength(env, elf, rom, names, rows);
      }
    }
  }

  lemma FreezeNothing(env: Env, elf: Elf, rom: seq<byte>, names: seq<Name>, rows: seq<Row>)
    requires names == []
    ensures FreezeRows(env, elf, rom, names) == Ok(rows) <==> rows == []
    ensures EachFreezes(env, elf, rom, names, rows) && RowsApart(rows) <==> rows == []
  {
  }

  lemma OtherLength(env: Env, elf: Elf, rom: seq<byte>, names: seq<Name>, rows: seq<Row>)
    requires |rows| != |names|
    ensures FreezeRows(env, elf, rom, names) != Ok(rows) && !EachFreezes(env, elf, rom, names, rows)
  {
    if FreezeRows(env, elf, rom, names) == Ok(rows) {
      FreezeRowsLength(env, elf, rom, names);
    }
    hide FreezeRows;
  }

  lemma FreezeRowsStep(env: Env, elf: Elf, rom: seq<byte>, names: seq<Name>, rows: seq<Row>)
    requires names != []
    ensures var n := |names| - 1;
            FreezeRows(env, elf, rom, names) == Ok(rows) <==>
            && |rows| > 0 && FreezeRows(env, elf, rom, names[..n]) == Ok(rows[..|rows| - 1])
            && FreezeOne(env, elf, rom, names[n]) == Ok(rows[|rows| - 1])
            && forall r | r in rows[..|rows| - 1] ::
                 Apart(rows[|rows| - 1].vma, rows[|rows| - 1].size, r.vma, r.vma + r.size)
  {
    hide FreezeOne, Apart;
    var r := FreezeRows(env, elf, rom, names);
    if r.Ok? {
      var front := FreezeRows(env, elf, rom, names[..|names| - 1]).value;
      assert r.value[..|r.value| - 1] == front;
    }
    if rows != [] {
      assert rows == rows[..|rows| - 1] + [rows[|rows| - 1]];
    }
  }

  /** And the whole of a freeze, with what each field of the policy is the digest of. */
  lemma FreezePolicyIff(env: Env, reference: seq<byte>, rom: seq<byte>, m: NameMap, sha: string, p: Policy)
    ensures FreezePolicy(env, reference, rom, m, sha) == Ok(p) <==>
            && NameMapOk(m) && IsDigest(sha) && sha == env.hash(reference) && m.romSha == env.hash(rom)
            && Parse(reference).Ok? && p == Policy(1, m.romSha, sha, env.hash(env.encode(m)), p.functions)
            && EachFreezes(env, Parse(reference).value, rom, m.functions, p.functions) && RowsApart(p.functions)
  {
    hide Parse, FreezeRows, IsDigest, EachFreezes, RowsApart, NameMapOk;
    if NameMapOk(m) && Parse(reference).Ok? {
      FreezeRowsIff(env, Parse(reference).value, rom, m.functions, p.functions);
    }
  }
}
