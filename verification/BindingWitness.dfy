// A file that is frozen, resolves, and stops resolving once a symbol of it bears a frozen name elsewhere.

module BindingWitness {
  import opened Common
  import opened ElfModel
  import opened BindingFile
  import opened Bindings

  /** The ROM: the code alone. */
  function Code(): (rom: seq<byte>)
    ensures |rom| == CODE
  {
    seq(CODE, _ => 0)
  }

  ghost predicate NoFunctions(others: seq<Symbol>) { forall s | s in others :: s.kind != FUNC }

  function Names(n: nat): (names: seq<Name>)
    ensures |names| == n && forall i | 0 <= i < n :: names[i] == Name(NameOf(i), Addr(i))
  {
    seq(n, i requires 0 <= i < n => Name(NameOf(i), Addr(i)))
  }

  function RowAt(env: Env, i: nat): Row { Row(NameOf(i), Addr(i), 4, ".text", NameOf(i), env.hash([0, 0, 0, 0])) }

  function Rows(env: Env, n: nat): (rows: seq<Row>)
    ensures |rows| == n && forall i | 0 <= i < n :: rows[i] == RowAt(env, i)
  {
    seq(n, i requires 0 <= i < n => RowAt(env, i))
  }

  /** Symbols a file of the supported size can hold beside the functions, none of them a function. */
  ghost predicate Beside(others: seq<Symbol>) {
    NoFunctions(others) && AllEncodable(others) && |File(others)| <= LIMIT
  }

  lemma ReferenceIsOk(others: seq<Symbol>)
    requires Beside(others)
    ensures Parse(File(others)) == Ok(Reference(others)) && ElfOk(Reference(others))
  {
    FileIsRead(others);
    hide File, Reference;
  }

  /** The search at a function's address finds that function alone. */
  lemma {:induction false} FoundAlone(others: seq<Symbol>, i: nat, n: nat)
    requires NoFunctions(others) && i < ORIGINALS && n <= |Reference(others).symbols|
    ensures Positives(Reference(others), Addr(i), AnySection, n) == Ok(Alone(i, n))
  {
    if n > 0 {
      FoundAlone(others, i, n - 1);
      ConsideredOnce(others, i, n - 1);
      var more := if n - 1 == i then [Found(FunctionAt(i), Text())] else [];
      SearchStep(Reference(others), Addr(i), n, Alone(i, n - 1), more);
      hide *;
      AloneStep(i, n);
    }
  }

  function Alone(i: nat, n: nat): seq<Found> { if i < n then [Found(FunctionAt(i), Text())] else [] }

  lemma AloneStep(i: nat, n: nat)
    requires n > 0
    ensures Alone(i, n - 1) + (if n - 1 == i then [Found(FunctionAt(i), Text())] else []) == Alone(i, n)
  {
  }

  lemma SearchStep(elf: Elf, vma: nat, n: nat, front: seq<Found>, more: seq<Found>)
    requires 0 < n <= |elf.symbols| && Positives(elf, vma, AnySection, n - 1) == Ok(front)
    requires Consider(elf, elf.symbols[n - 1], vma, AnySection) == Ok(more)
    ensures Positives(elf, vma, AnySection, n) == Ok(front + more)
  {
    hide Consider;
  }

  lemma ConsideredOnce(others: seq<Symbol>, i: nat, k: nat)
    requires NoFunctions(others) && i < ORIGINALS && k < |Reference(others).symbols|
    ensures Consider(Reference(others), Reference(others).symbols[k], Addr(i), AnySection) ==
            Ok(if k == i then [Found(FunctionAt(i), Text())] else [])
  {
    if k < ORIGINALS {
      FunctionIsFound(others, i, k);
    } else {
      assert Reference(others).symbols[k] == others[k - ORIGINALS] && others[k - ORIGINALS] in others;
    }
  }

  lemma FunctionIsFound(others: seq<Symbol>, i: nat, k: nat)
    requires i < ORIGINALS && k < ORIGINALS
    ensures Consider(Reference(others), FunctionAt(k), Addr(i), AnySection) ==
            Ok(if k == i then [Found(FunctionAt(i), Text())] else [])
  {
    var elf := Reference(others);
    assert |elf.sections| == 5 && elf.sections[1] == Text();
    IsAcceptable(k);
    hide File, NameOf, SectionsOf, SymbolsOf, Acceptable, Reference;
  }

  lemma IsAcceptable(k: nat)
    requires k < ORIGINALS
    ensures Acceptable(FunctionAt(k), Text())
  {
    assert HasFlag(6, 2) && HasFlag(6, 4);
    assert IsIdentifier(NameOf(k));
    hide NameOf, IsIdentifier, HasFlag;
  }

  lemma CodeIsZero(others: seq<Symbol>, i: nat)
    requires |File(others)| <= LIMIT && i < ORIGINALS
    ensures File(others)[CODE_AT + 4 * i..CODE_AT + 4 * i + 4] == [0, 0, 0, 0] == Code()[4 * i..4 * i + 4]
  {
    FileLayout(others);
    var raw, rom := File(others), Code();
    hide File, Layout, Code;
    assert rom[4 * i] == 0 && rom[4 * i + 1] == 0 && rom[4 * i + 2] == 0 && rom[4 * i + 3] == 0;
    assert raw[CODE_AT + 4 * i + 1] == 0 && raw[CODE_AT + 4 * i + 2] == 0 && raw[CODE_AT + 4 * i + 3] == 0;
  }

  lemma FunctionInRom(others: seq<Symbol>, i: nat)
    requires i < ORIGINALS
    ensures RomOffset(Reference(others), Found(FunctionAt(i), Text())) == Ok(4 * i)
  {
    var loads, f := Reference(others).loads, Found(FunctionAt(i), Text());
    hide File, NameOf, SectionsOf, SymbolsOf;
    assert loads[..0] == [];
    assert MappingLoads(loads, f) == MappingLoads([], f) + [loads[0]];
  }

  lemma FreezesOne(env: Env, others: seq<Symbol>, i: nat)
    requires Beside(others) && i < ORIGINALS
    ensures FreezeOne(env, Reference(others), Code(), Name(NameOf(i), Addr(i))) == Ok(RowAt(env, i))
  {
    var elf, f := Reference(others), Found(FunctionAt(i), Text());
    OneFunction(others, i);
    FunctionInFile(others, i);
    FunctionInRom(others, i);
    CodeIsZero(others, i);
    hide *;
    FreezeFound(env, elf, Code(), Name(NameOf(i), Addr(i)), f, [0, 0, 0, 0], 4 * i);
    FrozenRow(env, i);
  }

  lemma FrozenRow(env: Env, i: nat)
    ensures var f := Found(FunctionAt(i), Text());
            RowAt(env, i) == Row(NameOf(i), f.symbol.vma, f.symbol.size, f.section.name, f.symbol.name,
                                 env.hash([0, 0, 0, 0]))
  {
    hide NameOf;
  }

  lemma OneFunction(others: seq<Symbol>, i: nat)
    requires Beside(others) && i < ORIGINALS
    ensures TheFunction(Reference(others), Addr(i), AnySection) == Ok(Found(FunctionAt(i), Text()))
  {
    FoundAlone(others, i, |Reference(others).symbols|);
    hide Positives, File, FunctionAt, SectionsOf;
  }

  lemma FunctionInFile(others: seq<Symbol>, i: nat)
    requires Beside(others) && i < ORIGINALS
    ensures FunctionBytes(Reference(others), Found(FunctionAt(i), Text())) == Ok([0, 0, 0, 0])
  {
    var elf, f := Reference(others), Found(FunctionAt(i), Text());
    CodeIsZero(others, i);
    assert elf.raw == File(others) && f.section.offset + f.symbol.vma - f.section.vma == CODE_AT + 4 * i;
    assert f.symbol.size == 4;
    hide *;
    BytesAre(elf, f, CODE_AT + 4 * i, [0, 0, 0, 0]);
  }

  lemma BytesAre(elf: Elf, f: Found, at: nat, code: seq<byte>)
    requires f.section.offset + f.symbol.vma - f.section.vma == at && f.symbol.size == |code|
    requires at + |code| <= |elf.raw| && elf.raw[at..at + |code|] == code
    ensures FunctionBytes(elf, f) == Ok(code)
  {
  }

  lemma FreezeFound(env: Env, elf: Elf, rom: seq<byte>, source: Name, f: Found, code: seq<byte>, offset: nat)
    requires TheFunction(elf, source.vma, AnySection) == Ok(f) && FunctionBytes(elf, f) == Ok(code)
    requires RomOffset(elf, f) == Ok(offset) && offset + |code| <= |rom| && rom[offset..offset + |code|] == code
    ensures FreezeOne(env, elf, rom, source) ==
            Ok(Row(source.name, f.symbol.vma, f.symbol.size, f.section.name, f.symbol.name, env.hash(code)))
  {
    hide TheFunction, FunctionBytes, RomOffset;
  }

  lemma {:induction false} FreezesAll(env: Env, others: seq<Symbol>, n: nat)
    requires Beside(others) && n <= ORIGINALS
    ensures FreezeRows(env, Reference(others), Code(), Names(n)) == Ok(Rows(env, n))
  {
    hide FreezeRows, FreezeOne, Reference, Code;
    if n == 0 {
      FreezesNone(env, Reference(others), Code(), Names(0));
    } else {
      FreezesAll(env, others, n - 1);
      FreezesOne(env, others, n - 1);
      assert Names(n)[..n - 1] == Names(n - 1);
      assert Rows(env, n) == Rows(env, n - 1) + [RowAt(env, n - 1)];
      FreezeStep(env, Reference(others), Code(), Names(n), Rows(env, n - 1), RowAt(env, n - 1));
    }
  }

  lemma FreezesNone(env: Env, elf: Elf, rom: seq<byte>, names: seq<Name>)
    requires names == []
    ensures FreezeRows(env, elf, rom, names) == Ok([])
  {
  }

  lemma FreezeStep(env: Env, elf: Elf, rom: seq<byte>, names: seq<Name>, front: seq<Row>, row: Row)
    requires names != [] && FreezeRows(env, elf, rom, names[..|names| - 1]) == Ok(front)
    requires FreezeOne(env, elf, rom, names[|names| - 1]) == Ok(row)
    requires forall i | 0 <= i < |front| :: Apart(row.vma, row.size, front[i].vma, front[i].vma + front[i].size)
    ensures FreezeRows(env, elf, rom, names) == Ok(front + [row])
  {
    hide FreezeOne;
  }

  lemma AliasesAreOthers(env: Env, others: seq<Symbol>)
    ensures NoAliases(Reference(others), Rows(env, ORIGINALS)) <==>
            forall s, i: nat | s in others && i < ORIGINALS && s.name == NameOf(i) :: s.vma == Addr(i)
  {
    var elf, rows := Reference(others), Rows(env, ORIGINALS);
    if NoAliases(elf, rows) {
      forall s, i: nat | s in others && i < ORIGINALS && s.name == NameOf(i)
        ensures s.vma == Addr(i)
      {
        var k :| 0 <= k < |others| && others[k] == s;
        assert elf.symbols[ORIGINALS + k] == s && s in elf.symbols;
        assert rows[i] in rows && NoAlias(elf, rows[i]);
      }
    }
    if forall s, i: nat | s in others && i < ORIGINALS && s.name == NameOf(i) :: s.vma == Addr(i) {
      forall r, s | r in rows && s in elf.symbols && s.name == r.name
        ensures s.vma == r.vma
      {
        var i: nat :| i < ORIGINALS && rows[i] == r;
        var k :| 0 <= k < |elf.symbols| && elf.symbols[k] == s;
        if k < ORIGINALS {
          assert |s.name| == k + 1 && |r.name| == i + 1;
        } else {
          assert s == others[k - ORIGINALS] && s in others;
        }
      }
    }
  }

  // ----- the tool on the file -----

  function TheNames(env: Env): NameMap { NameMap(1, env.hash(Code()), Names(ORIGINALS)) }

  function ThePolicy(env: Env, others: seq<Symbol>): Policy {
    Policy(1, env.hash(Code()), env.hash(File(others)), env.hash(env.encode(TheNames(env))), Rows(env, ORIGINALS))
  }

  lemma NamesAreOk(env: Env)
    requires EnvOk(env)
    ensures NameMapOk(TheNames(env))
  {
    var names := Names(ORIGINALS);
    forall i, j | 0 <= i < j < ORIGINALS
      ensures names[i].name != names[j].name && names[i].vma != names[j].vma
    {
      assert |NameOf(i)| != |NameOf(j)|;
    }
    hide IsDigest;
  }

  /** The tool freezes the file. */
  lemma FileFreezes(env: Env, others: seq<Symbol>)
    requires EnvOk(env) && Beside(others)
    ensures FreezePolicy(env, File(others), Code(), TheNames(env), env.hash(File(others))) == Ok(ThePolicy(env, others))
  {
    NamesAreOk(env);
    ReferenceIsOk(others);
    FreezesAll(env, others, ORIGINALS);
    hide File, Reference, Code, NameMapOk, IsDigest, Parse, FreezeRows, Names, Rows, Beside;
  }

  /** And resolves it again if and only if no other symbol bears a frozen name at another address. */
  lemma WitnessResolvesIff(env: Env, others: seq<Symbol>)
    requires EnvOk(env) && Beside(others)
    ensures ResolveBindings(env, File(others), ThePolicy(env, others)).Ok? <==>
            forall s, i: nat | s in others && i < ORIGINALS && s.name == NameOf(i) :: s.vma == Addr(i)
  {
    FileFreezes(env, others);
    ReferenceIsOk(others);
    FreezeThenResolve(env, File(others), Code(), TheNames(env), env.hash(File(others)));
    AliasesAreOthers(env, others);
    hide File, Reference, Code, Parse, FreezePolicy, ResolveBindings, NoAlias, NameOf, Addr, Beside;
    assert forall r | r in Rows(env, ORIGINALS) :: r.section == SectionNameOf(1);
  }

  /** One local label at an address of its own, with the name of the first function. */
  function Alias(): Symbol { Symbol(NameOf(0), Addr(ORIGINALS), 0, 0, 0, 1) }

  /** So there is a file the tool freezes and resolves, and with one symbol more it freezes it all the same, to the same
      rows, and rejects it. */
  lemma OneAliasRejects(env: Env)
    requires EnvOk(env)
    ensures FreezePolicy(env, File([]), Code(), TheNames(env), env.hash(File([]))) == Ok(ThePolicy(env, []))
    ensures ResolveBindings(env, File([]), ThePolicy(env, [])).Ok?
    ensures FreezePolicy(env, File([Alias()]), Code(), TheNames(env), env.hash(File([Alias()]))) ==
            Ok(ThePolicy(env, [Alias()]))
    ensures ResolveBindings(env, File([Alias()]), ThePolicy(env, [Alias()])).Err?
    ensures ThePolicy(env, [Alias()]).functions == ThePolicy(env, []).functions
  {
    var alias := Alias();
    assert Encodable(alias) && Beside([]) && Beside([alias]);
    FileFreezes(env, []);
    FileFreezes(env, [alias]);
    WitnessResolvesIff(env, []);
    WitnessResolvesIff(env, [alias]);
    assert alias in [alias] && alias.name == NameOf(0) && alias.vma != Addr(0);
    hide FreezePolicy, ResolveBindings, Rows, Code, File, TheNames;
  }
}
