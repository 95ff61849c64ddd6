// Freezing function identities from a reference ELF and ROM, and resolving them in a target ELF.

module Bindings {
  import opened Common
  import opened ElfModel

  const ORIGINALS: nat := 29

  /** SHA-256 and the JSON encoder, about which nothing is assumed here but what lemmas ask for. */
  datatype Env = Env(hash: seq<byte> -> string, encode: NameMap -> seq<byte>)

  datatype Name = Name(name: string, vma: int)

  datatype NameMap = NameMap(schema: int, romSha: string, functions: seq<Name>)

  datatype Row = Row(name: string, vma: int, size: int, section: string, referenceName: string, sha: string)

  datatype Policy = Policy(schema: int, romSha: string, elfSha: string, mapSha: string, functions: seq<Row>)

  datatype Binding = Binding(name: string, elfName: string, section: string, vram: int, size: int, bytes: seq<byte>)

  predicate IsDigest(s: string) {
    |s| == 64 && forall i | 0 <= i < 64 :: '0' <= s[i] <= '9' || 'a' <= s[i] <= 'f'
  }

  ghost predicate EnvOk(env: Env) { forall raw :: IsDigest(env.hash(raw)) }

  // ----- checks -----

  predicate Apart(vma: int, size: int, a: int, b: int) { vma + size <= a || b <= vma }

  predicate NameMapOk(m: NameMap) {
    && m.schema == 1 && IsDigest(m.romSha) && |m.functions| == ORIGINALS
    && (forall r | r in m.functions :: IsIdentifier(r.name) && 0 <= r.vma < WORD && r.vma % 4 == 0)
    && (forall i, j | 0 <= i < j < |m.functions| ::
          m.functions[i].name != m.functions[j].name && m.functions[i].vma != m.functions[j].vma)
  }

  predicate RowOk(r: Row) {
    && IsIdentifier(r.name) && IsIdentifier(r.referenceName) && r.section != "" && r.section[0] == '.'
    && 0 < r.size <= 65536 && r.vma % 4 == 0 && r.size % 4 == 0 && 0 <= r.vma < r.vma + r.size <= WORD
    && IsDigest(r.sha)
  }

  predicate RowsApart(rows: seq<Row>) {
    forall i, j | 0 <= i < j < |rows| :: Apart(rows[j].vma, rows[j].size, rows[i].vma, rows[i].vma + rows[i].size)
  }

  predicate RowsDistinct(rows: seq<Row>) {
    forall i, j | 0 <= i < j < |rows| :: rows[i].name != rows[j].name && rows[i].vma != rows[j].vma
  }

  predicate PolicyOk(p: Policy) {
    && p.schema == 1 && IsDigest(p.romSha) && IsDigest(p.elfSha) && IsDigest(p.mapSha) && |p.functions| == ORIGINALS
    && (forall r | r in p.functions :: RowOk(r)) && RowsApart(p.functions) && RowsDistinct(p.functions)
  }

  // ----- freezing -----

  /** The one function the reference has at a name's address; none or several are rejected. */
  function TheFunction(elf: Elf, vma: int, filter: Filter): Result<Found> {
    if vma < 0 then Err else
    var found :- Positives(elf, vma, filter, |elf.symbols|);
    if |found| == 1 then Ok(found[0]) else Err
  }

  function FreezeOne(env: Env, elf: Elf, rom: seq<byte>, source: Name): Result<Row> {
    var f :- TheFunction(elf, source.vma, AnySection);
    var code :- FunctionBytes(elf, f);
    var offset :- RomOffset(elf, f);
    var _ :- Require(0 <= offset && offset + |code| <= |rom| && rom[offset..offset + |code|] == code);
    Ok(Row(source.name, f.symbol.vma, f.symbol.size, f.section.name, f.symbol.name, env.hash(code)))
  }

  function FreezeRows(env: Env, elf: Elf, rom: seq<byte>, names: seq<Name>): Result<seq<Row>> {
    if names == [] then Ok([]) else
    var front :- FreezeRows(env, elf, rom, names[..|names| - 1]);
    var row :- FreezeOne(env, elf, rom, names[|names| - 1]);
    var _ :- Require(forall r | r in front :: Apart(row.vma, row.size, r.vma, r.vma + r.size));
    Ok(front + [row])
  }

  function FreezePolicy(env: Env, reference: seq<byte>, rom: seq<byte>, m: NameMap,
                        referenceSha: string): Result<Policy> {
    var _ :- Require(NameMapOk(m));
    var _ :- Require(IsDigest(referenceSha) && env.hash(reference) == referenceSha && env.hash(rom) == m.romSha);
    var elf :- Parse(reference);
    var rows :- FreezeRows(env, elf, rom, m.functions);
    Ok(Policy(1, env.hash(rom), env.hash(reference), env.hash(env.encode(m)), rows))
  }

  // ----- resolving -----

  function HexDigit(n: nat): char
    requires n < 16
  {
    "0123456789ABCDEF"[n]
  }

  /** At least so many digits. */
  function Hex(n: nat, digits: nat): string {
    if digits == 0 && n == 0 then "" else
    Hex(n / 16, if digits == 0 then 0 else digits - 1) + [HexDigit(n % 16)]
  }

  function FuncName(vma: nat): string { "func_" + Hex(vma, 8) }

  predicate NoAlias(elf: Elf, row: Row) {
    forall s | s in elf.symbols :: s.name == row.name ==> s.vma == row.vma
  }

  function ResolveOne(env: Env, elf: Elf, row: Row): Result<(Binding, (nat, int))> {
    var f :- TheFunction(elf, row.vma, Named(row.section));
    var _ :- Require(f.symbol.size == row.size);
    var _ :- Require(f.symbol.name == row.name || f.symbol.name == row.referenceName
                     || (row.vma >= 0 && f.symbol.name == FuncName(row.vma)));
    var _ :- Require(NoAlias(elf, row));
    var code :- FunctionBytes(elf, f);
    var _ :- Require(env.hash(code) == row.sha);
    Ok((Binding(row.name, f.symbol.name, row.section, row.vma, row.size, code), (f.section.index, f.symbol.vma)))
  }

  /** The bindings so far, with the identities used up. */
  function ResolveRows(env: Env, elf: Elf, rows: seq<Row>): Result<(seq<Binding>, set<(nat, int)>)> {
    if rows == [] then Ok(([], {})) else
    var front :- ResolveRows(env, elf, rows[..|rows| - 1]);
    var one :- ResolveOne(env, elf, rows[|rows| - 1]);
    var _ :- Require(one.1 !in front.1);
    Ok((front.0 + [one.0], front.1 + {one.1}))
  }

  function ResolveBindings(env: Env, target: seq<byte>, policy: Policy): Result<seq<Binding>> {
    var _ :- Require(PolicyOk(policy));
    var elf :- Parse(target);
    var r :- ResolveRows(env, elf, policy.functions);
    var _ :- Require(|r.1| == ORIGINALS);
    Ok(r.0)
  }

  // ----- what a frozen row says -----

  ghost predicate Frozen(env: Env, elf: Elf, rom: seq<byte>, source: Name, row: Row, f: Found, offset: int) {
    && TheFunction(elf, source.vma, AnySection) == Ok(f) && FunctionBytes(elf, f).Ok? && RomOffset(elf, f) == Ok(offset)
    && 0 <= offset && 0 <= row.size && offset + row.size <= |rom|
    && FunctionBytes(elf, f).value == rom[offset..offset + row.size]
    && row == Row(source.name, source.vma, f.symbol.size, f.section.name, f.symbol.name,
                  env.hash(FunctionBytes(elf, f).value))
    && source.vma >= 0 && FoundOk(elf, f, source.vma, AnySection) && |FunctionBytes(elf, f).value| == row.size
  }

  lemma FreezeOneFreezes(env: Env, elf: Elf, rom: seq<byte>, source: Name) returns (f: Found, offset: int)
    requires ElfOk(elf) && FreezeOne(env, elf, rom, source).Ok?
    ensures Frozen(env, elf, rom, source, FreezeOne(env, elf, rom, source).value, f, offset)
    ensures source.vma + f.symbol.size <= WORD && f.section.index == f.symbol.section
  {
    f := TheFunction(elf, source.vma, AnySection).value;
    offset := RomOffset(elf, f).value;
    PositivesAreFunctions(elf, source.vma, AnySection, |elf.symbols|);
    assert FoundOk(elf, f, source.vma, AnySection);
    FoundHasBytes(elf, f, source.vma, AnySection);
  }

  lemma {:induction false} FreezeRowsFreeze(env: Env, elf: Elf, rom: seq<byte>, names: seq<Name>, i: nat)
    returns (f: Found, offset: int)
    requires ElfOk(elf) && FreezeRows(env, elf, rom, names).Ok? && i < |names|
    ensures |FreezeRows(env, elf, rom, names).value| == |names|
    ensures Frozen(env, elf, rom, names[i], FreezeRows(env, elf, rom, names).value[i], f, offset)
    ensures names[i].vma + f.symbol.size <= WORD && f.section.index == f.symbol.section
  {
    var n := |names| - 1;
    if i == n {
      f, offset := FreezeOneFreezes(env, elf, rom, names[n]);
      FreezeRowsLength(env, elf, rom, names);
    } else {
      f, offset := FreezeRowsFreeze(env, elf, rom, names[..n], i);
    }
  }

  lemma {:induction false} FreezeRowsLength(env: Env, elf: Elf, rom: seq<byte>, names: seq<Name>)
    requires FreezeRows(env, elf, rom, names).Ok?
    ensures |FreezeRows(env, elf, rom, names).value| == |names| && RowsApart(FreezeRows(env, elf, rom, names).value)
  {
    if names != [] {
      FreezeRowsLength(env, elf, rom, names[..|names| - 1]);
    }
  }

  // ----- freezing, then resolving the same file -----

  lemma OneInSection(found: seq<Found>, name: string)
    requires |found| == 1 && found[0].section.name == name
    ensures InSection(found, name) == found
  {
    assert found[..0] == [];
    assert InSection(found, name) == InSection([], name) + [found[0]];
  }

  /** A frozen row resolves on the reference itself, unless another symbol bears its name at another address. */
  lemma FrozenRowResolves(env: Env, elf: Elf, rom: seq<byte>, source: Name, row: Row, f: Found, offset: int)
    requires ElfOk(elf) && Frozen(env, elf, rom, source, row, f, offset)
    ensures var r := ResolveOne(env, elf, row);
            && (r.Ok? <==> NoAlias(elf, row))
            && (r.Ok? ==>
                  r.value == (Binding(row.name, row.referenceName, row.section, row.vma, row.size,
                                      FunctionBytes(elf, f).value), (f.section.index, row.vma)))
  {
    var wide := Positives(elf, row.vma, AnySection, |elf.symbols|).value;
    NarrowSearchAgrees(elf, row.vma, row.section, |elf.symbols|);
    OneInSection(wide, row.section);
  }

  ghost predicate IsFrozen(env: Env, elf: Elf, rom: seq<byte>, source: Name, row: Row) {
    exists f, offset :: Frozen(env, elf, rom, source, row, f, offset)
  }

  ghost predicate AllFrozen(env: Env, elf: Elf, rom: seq<byte>, names: seq<Name>, rows: seq<Row>) {
    && |rows| == |names|
    && forall i | 0 <= i < |rows| :: IsFrozen(env, elf, rom, names[i], rows[i])
  }

  /** Every identity used up has the address of some row. */
  ghost predicate IdsComeFrom(ids: set<(nat, int)>, rows: seq<Row>) {
    forall id | id in ids :: exists i :: 0 <= i < |rows| && id.1 == rows[i].vma
  }

  predicate DistinctAddresses(rows: seq<Row>) {
    forall i, j | 0 <= i < j < |rows| :: rows[i].vma != rows[j].vma
  }

  lemma IdsGrow(ids: set<(nat, int)>, rows: seq<Row>, id: (nat, int))
    requires rows != [] && IdsComeFrom(ids, rows[..|rows| - 1]) && id.1 == rows[|rows| - 1].vma
    requires DistinctAddresses(rows)
    ensures id !in ids && IdsComeFrom(ids + {id}, rows)
  {
    forall x | x in ids
      ensures exists i :: 0 <= i < |rows| - 1 && x.1 == rows[i].vma
    {
      var i :| 0 <= i < |rows| - 1 && x.1 == rows[..|rows| - 1][i].vma;
      assert x.1 == rows[i].vma;
    }
  }

  ghost predicate IdsOk(r: Result<(seq<Binding>, set<(nat, int)>)>, rows: seq<Row>) {
    r.Ok? ==> |r.value.1| == |rows| && IdsComeFrom(r.value.1, rows)
  }

  /** Rows at distinct addresses never use one identity twice. */
  lemma OneMoreRow(env: Env, elf: Elf, rows: seq<Row>)
    requires rows != [] && DistinctAddresses(rows)
    requires IdsOk(ResolveRows(env, elf, rows[..|rows| - 1]), rows[..|rows| - 1])
    requires ResolveOne(env, elf, rows[|rows| - 1]).Ok? ==>
               ResolveOne(env, elf, rows[|rows| - 1]).value.1.1 == rows[|rows| - 1].vma
    ensures IdsOk(ResolveRows(env, elf, rows), rows)
    ensures ResolveRows(env, elf, rows).Ok? <==>
            ResolveRows(env, elf, rows[..|rows| - 1]).Ok? && ResolveOne(env, elf, rows[|rows| - 1]).Ok?
  {
    hide ResolveOne, IdsComeFrom, DistinctAddresses;
    var front, one := ResolveRows(env, elf, rows[..|rows| - 1]), ResolveOne(env, elf, rows[|rows| - 1]);
    if front.Ok? && one.Ok? {
      IdsGrow(front.value.1, rows, one.value.1);
      assert ResolveRows(env, elf, rows).value.1 == front.value.1 + {one.value.1};
    }
  }

  /** The rows of a frozen policy resolve on the reference together exactly when none has a conflicting alias. */
  lemma {:induction false} FrozenRowsResolve(env: Env, elf: Elf, rom: seq<byte>, names: seq<Name>, rows: seq<Row>)
    requires ElfOk(elf) && AllFrozen(env, elf, rom, names, rows) && DistinctAddresses(rows)
    ensures IdsOk(ResolveRows(env, elf, rows), rows)
    ensures ResolveRows(env, elf, rows).Ok? <==> NoAliases(elf, rows)
  {
    if rows == [] {
      NoRowsResolve(env, elf, rows);
    } else {
      var n := |rows| - 1;
      var front := rows[..n];
      hide ResolveOne, ResolveRows, ElfOk, NoAlias, IdsOk, IsFrozen, NoAliases;
      IsFrozenResolves(env, elf, rom, names[n], rows[n]);
      FrozenFront(env, elf, rom, names, rows);
      hide AllFrozen, DistinctAddresses;
      FrozenRowsResolve(env, elf, rom, names[..n], front);
      OneMoreRow(env, elf, rows);
      NoAliasesStep(elf, rows);
    }
  }

  predicate NoAliases(elf: Elf, rows: seq<Row>) { forall r | r in rows :: NoAlias(elf, r) }

  lemma NoAliasesStep(elf: Elf, rows: seq<Row>)
    requires rows != []
    ensures NoAliases(elf, rows) <==> NoAliases(elf, rows[..|rows| - 1]) && NoAlias(elf, rows[|rows| - 1])
  {
    hide NoAlias;
    var n := |rows| - 1;
    assert rows == rows[..n] + [rows[n]];
  }

  lemma FrozenFront(env: Env, elf: Elf, rom: seq<byte>, names: seq<Name>, rows: seq<Row>)
    requires rows != [] && AllFrozen(env, elf, rom, names, rows) && DistinctAddresses(rows)
    ensures AllFrozen(env, elf, rom, names[..|rows| - 1], rows[..|rows| - 1])
    ensures DistinctAddresses(rows[..|rows| - 1])
  {
    hide IsFrozen;
  }

  lemma IsFrozenResolves(env: Env, elf: Elf, rom: seq<byte>, source: Name, row: Row)
    requires ElfOk(elf) && IsFrozen(env, elf, rom, source, row)
    ensures var r := ResolveOne(env, elf, row);
            (r.Ok? <==> NoAlias(elf, row)) && (r.Ok? ==> r.value.1.1 == row.vma)
  {
    var f, offset :| Frozen(env, elf, rom, source, row, f, offset);
    hide ElfOk, Frozen, ResolveOne, NoAlias;
    FrozenRowResolves(env, elf, rom, source, row, f, offset);
  }

  lemma NoRowsResolve(env: Env, elf: Elf, rows: seq<Row>)
    requires rows == []
    ensures NoAliases(elf, rows)
    ensures ResolveRows(env, elf, rows).Ok? && IdsOk(ResolveRows(env, elf, rows), rows)
  {
  }

  /** What freezing guarantees of the policy it returns. */
  lemma FreezeYields(env: Env, reference: seq<byte>, rom: seq<byte>, m: NameMap, sha: string)
    requires EnvOk(env) && FreezePolicy(env, reference, rom, m, sha).Ok?
    ensures var p, elf := FreezePolicy(env, reference, rom, m, sha).value, Parse(reference);
            && elf.Ok? && ElfOk(elf.value) && AllFrozen(env, elf.value, rom, m.functions, p.functions)
            && RowsApart(p.functions) && RowsDistinct(p.functions) && |p.functions| == ORIGINALS
            && (forall r | r in p.functions :: r.section != "" && r.section[0] == '.' ==> RowOk(r))
            && IsDigest(p.romSha) && IsDigest(p.elfSha) && IsDigest(p.mapSha) && p.schema == 1
  {
    hide Parse, FreezeRows, IsIdentifier, IsDigest;
    var p, elf := FreezePolicy(env, reference, rom, m, sha).value, Parse(reference).value;
    assert FreezeRows(env, elf, rom, m.functions) == Ok(p.functions);
    FreezeRowsLength(env, elf, rom, m.functions);
    forall i | 0 <= i < |p.functions|
      ensures FrozenRowOk(env, elf, rom, m.functions[i], p.functions[i])
    {
      assert m.functions[i] in m.functions;
      RowFreezes(env, elf, rom, m.functions, i);
    }
  }

  /** A frozen row keeps its name and address, and is well formed but for the name of its section. */
  ghost predicate FrozenRowOk(env: Env, elf: Elf, rom: seq<byte>, source: Name, row: Row) {
    && IsFrozen(env, elf, rom, source, row) && row.name == source.name && row.vma == source.vma
    && (row.section != "" && row.section[0] == '.' ==> RowOk(row))
  }

  lemma RowFreezes(env: Env, elf: Elf, rom: seq<byte>, names: seq<Name>, i: nat)
    requires EnvOk(env) && ElfOk(elf) && FreezeRows(env, elf, rom, names).Ok? && i < |names|
    requires IsIdentifier(names[i].name) && names[i].vma % 4 == 0
    ensures i < |FreezeRows(env, elf, rom, names).value|
    ensures FrozenRowOk(env, elf, rom, names[i], FreezeRows(env, elf, rom, names).value[i])
  {
    hide IsDigest, IsIdentifier;
    var f, offset := FreezeRowsFreeze(env, elf, rom, names, i);
    hide FreezeRows, TheFunction, RomOffset, FunctionBytes;
  }

  /** An accepted freeze resolves on the same file if and only if every frozen section name starts with a dot and no
      symbol bears a frozen name at another address. */
  lemma FreezeThenResolve(env: Env, reference: seq<byte>, rom: seq<byte>, m: NameMap, sha: string)
    requires EnvOk(env) && FreezePolicy(env, reference, rom, m, sha).Ok?
    ensures var p := FreezePolicy(env, reference, rom, m, sha).value;
            ResolveBindings(env, reference, p).Ok? <==>
            forall r | r in p.functions :: r.section != "" && r.section[0] == '.' && NoAlias(Parse(reference).value, r)
  {
    var p, elf := FreezePolicy(env, reference, rom, m, sha).value, Parse(reference).value;
    FreezeYields(env, reference, rom, m, sha);
    FrozenRowsResolve(env, elf, rom, m.functions, p.functions);
    assert PolicyOk(p) <==> forall r | r in p.functions :: r.section != "" && r.section[0] == '.';
  }

  // ----- resolving another file -----

  /** Two different code blocks of one size with one digest. */
  predicate Collision(env: Env, a: seq<byte>, b: seq<byte>) { a != b && |a| == |b| && env.hash(a) == env.hash(b) }

  lemma {:induction false} ResolvedRows(env: Env, elf: Elf, rows: seq<Row>, i: nat)
    requires ResolveRows(env, elf, rows).Ok? && i < |rows|
    ensures |ResolveRows(env, elf, rows).value.0| == |rows|
    ensures ResolveOne(env, elf, rows[i]).Ok?
    ensures ResolveRows(env, elf, rows).value.0[i] == ResolveOne(env, elf, rows[i]).value.0
  {
    hide ResolveOne;
    var n := |rows| - 1;
    ResolvedLength(env, elf, rows[..n]);
    if i < n {
      ResolvedRows(env, elf, rows[..n], i);
    }
    LastRowResolves(env, elf, rows);
    hide ResolveRows;
  }

  lemma {:induction false} ResolvedLength(env: Env, elf: Elf, rows: seq<Row>)
    requires ResolveRows(env, elf, rows).Ok?
    ensures |ResolveRows(env, elf, rows).value.0| == |rows|
  {
    hide ResolveOne;
    if rows != [] {
      ResolvedLength(env, elf, rows[..|rows| - 1]);
    }
  }

  lemma LastRowResolves(env: Env, elf: Elf, rows: seq<Row>)
    requires rows != [] && ResolveRows(env, elf, rows).Ok?
    ensures var front, one := ResolveRows(env, elf, rows[..|rows| - 1]), ResolveOne(env, elf, rows[|rows| - 1]);
            front.Ok? && one.Ok? && ResolveRows(env, elf, rows).value.0 == front.value.0 + [one.value.0]
  {
    hide ResolveOne;
  }

  /** Every function bound in any target file has the very bytes of the ROM at the frozen load address, or else it and
      that ROM slice are a collision of the digest. */
  lemma BoundBytesComeFromRom(env: Env, reference: seq<byte>, rom: seq<byte>, m: NameMap, sha: string,
                              target: seq<byte>, i: nat)
    returns (f: Found, offset: int)
    requires EnvOk(env) && FreezePolicy(env, reference, rom, m, sha).Ok?
    requires ResolveBindings(env, target, FreezePolicy(env, reference, rom, m, sha).value).Ok? && i < ORIGINALS
    ensures var p := FreezePolicy(env, reference, rom, m, sha).value;
            var bindings := ResolveBindings(env, target, p).value;
            && |p.functions| == |bindings| == ORIGINALS
            && Parse(reference).Ok? && RomOffset(Parse(reference).value, f) == Ok(offset)
            && TheFunction(Parse(reference).value, m.functions[i].vma, AnySection) == Ok(f)
            && bindings[i].name == m.functions[i].name && bindings[i].vram == m.functions[i].vma
            && 0 <= offset && bindings[i].size == f.symbol.size && offset + bindings[i].size <= |rom|
            && |bindings[i].bytes| == bindings[i].size
            && var slice := rom[offset..offset + bindings[i].size];
               bindings[i].bytes == slice || Collision(env, bindings[i].bytes, slice)
  {
    hide Parse, FreezeRows, ResolveRows, PolicyOk, NameMapOk, IsDigest, EnvOk, TheFunction, FunctionBytes, RomOffset;
    var p, elf := FreezePolicy(env, reference, rom, m, sha).value, Parse(reference).value;
    assert FreezeRows(env, elf, rom, m.functions) == Ok(p.functions);
    FreezeYields(env, reference, rom, m, sha);
    f, offset := FreezeRowsFreeze(env, elf, rom, m.functions, i);
    var t, row := Parse(target).value, p.functions[i];
    assert ResolveRows(env, t, p.functions).value.0 == ResolveBindings(env, target, p).value;
    ResolvedRows(env, t, p.functions, i);
    SameHashSameBytes(env, elf, rom, m.functions[i], row, f, offset, t);
  }

  lemma SameHashSameBytes(env: Env, elf: Elf, rom: seq<byte>, source: Name, row: Row, f: Found, offset: int,
                          target: Elf)
    requires Frozen(env, elf, rom, source, row, f, offset) && ElfOk(target) && ResolveOne(env, target, row).Ok?
    ensures var b, slice := ResolveOne(env, target, row).value.0, rom[offset..offset + row.size];
            && (b.bytes == slice || Collision(env, b.bytes, slice))
            && b.name == source.name && b.vram == source.vma && |b.bytes| == b.size == row.size
  {
    var bound := TheFunction(target, row.vma, Named(row.section)).value;
    PositivesAreFunctions(target, row.vma, Named(row.section), |target.symbols|);
    assert FoundOk(target, bound, row.vma, Named(row.section));
    FoundHasBytes(target, bound, row.vma, Named(row.section));
    hide TheFunction, RomOffset, Positives;
    assert env.hash(FunctionBytes(target, bound).value) == env.hash(FunctionBytes(elf, f).value);
  }
}
