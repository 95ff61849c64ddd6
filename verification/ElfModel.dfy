// ELF32 big-endian MIPS metadata (System V ABI, chapter 4, Object Files), read with every bound checked.

module ElfModel {
  import opened Common

  const LIMIT: nat := 64 * 1024 * 1024
  const WORD: nat := 0x1_0000_0000
  const NOBITS: nat := 8
  const PROGBITS: nat := 1
  const SYMTAB: nat := 2
  const STRTAB: nat := 3
  const LOAD: nat := 1
  const FUNC: nat := 2
  const GLOBAL: nat := 1

  /** A rejected input carries no value. */
  datatype Result<T> = Err | Ok(value: T) {
    predicate IsFailure() { Err? }
    function PropagateFailure<U>(): Result<U>
      requires Err?
    {
      Err
    }
    function Extract(): T
      requires Ok?
    {
      value
    }
  }

  function Require(condition: bool): (r: Result<()>)
    ensures r.Ok? <==> condition
  {
    if condition then Ok(()) else Err
  }

  datatype Section = Section(index: nat, name: string, kind: nat, flags: nat, vma: nat, offset: nat, size: nat,
                             link: nat, entsize: nat)

  datatype Load = Load(offset: nat, vma: nat, lma: nat, size: nat)

  datatype Symbol = Symbol(name: string, vma: nat, size: nat, kind: nat, bind: nat, section: nat)

  datatype Elf = Elf(raw: seq<byte>, sections: seq<Section>, loads: seq<Load>, symbols: seq<Symbol>)

  function U16(raw: seq<byte>, at: nat): nat
    requires at + 2 <= |raw|
  {
    raw[at] as int * 256 + raw[at + 1] as int
  }

  function U32(raw: seq<byte>, at: nat): nat
    requires at + 4 <= |raw|
  {
    U16(raw, at) * 65536 + U16(raw, at + 2)
  }

  predicate InFile(raw: seq<byte>, start: int, size: int) { 0 <= start <= |raw| && 0 <= size <= |raw| - start }

  function Span(raw: seq<byte>, start: int, size: int): (r: Result<seq<byte>>)
    ensures r.Ok? <==> InFile(raw, start, size)
    ensures r.Ok? ==> r.value == raw[start..start + size]
  {
    if InFile(raw, start, size) then Ok(raw[start..start + size]) else Err
  }

  /** The index of the first NUL from `at` on; the table's length if there is none. */
  function FindNul(table: seq<byte>, at: nat): (r: nat)
    requires at <= |table|
    ensures at <= r <= |table| && (r < |table| ==> table[r] == 0) && forall i | at <= i < r :: table[i] != 0
    decreases |table| - at
  {
    if at == |table| || table[at] == 0 then at else FindNul(table, at + 1)
  }

  /** A NUL-terminated ASCII string; other bytes do not decode. */
  function String(table: seq<byte>, at: nat): Result<string> {
    if at >= |table| then Err else
    var end := FindNul(table, at);
    if end == |table| || exists i :: at <= i < end && table[i] >= 128 then Err
    else Ok(seq(end - at, i requires 0 <= i < end - at => table[at + i] as char))
  }

  function SectionAt(raw: seq<byte>, at: nat, strings: seq<byte>, index: nat): (r: Result<Section>)
    requires at + 40 <= |raw|
    ensures r.Ok? ==> SectionOk(raw, r.value) && r.value.index == index
  {
    var name :- String(strings, U32(raw, at));
    var s := Section(index, name, U32(raw, at + 4), U32(raw, at + 8), U32(raw, at + 12), U32(raw, at + 16),
                     U32(raw, at + 20), U32(raw, at + 24), U32(raw, at + 36));
    var _ :- Require(s.kind == NOBITS || InFile(raw, s.offset, s.size));
    var _ :- Require(s.vma + s.size <= WORD);
    Ok(s)
  }

  function Sections(raw: seq<byte>, table: nat, strings: seq<byte>, n: nat): (r: Result<seq<Section>>)
    requires table + 40 * n <= |raw|
    ensures r.Ok? ==> |r.value| == n && forall i | 0 <= i < n :: SectionOk(raw, r.value[i]) && r.value[i].index == i
  {
    if n == 0 then Ok([]) else
    var front :- Sections(raw, table, strings, n - 1);
    var s :- SectionAt(raw, table + 40 * (n - 1), strings, n - 1);
    Ok(front + [s])
  }

  function Loads(raw: seq<byte>, table: nat, n: nat): (r: Result<seq<Load>>)
    requires table + 32 * n <= |raw|
    ensures r.Ok? ==> forall l | l in r.value :: InFile(raw, l.offset, l.size)
  {
    if n == 0 then Ok([]) else
    var front :- Loads(raw, table, n - 1);
    var at := table + 32 * (n - 1);
    if U32(raw, at) != LOAD then Ok(front) else
    var l := Load(U32(raw, at + 4), U32(raw, at + 8), U32(raw, at + 12), U32(raw, at + 16));
    var memory := U32(raw, at + 20);
    var _ :- Require(l.size <= memory && l.vma + memory <= WORD && l.lma + l.size <= WORD);
    var _ :- Require(InFile(raw, l.offset, l.size));
    Ok(front + [l])
  }

  function SymbolAt(raw: seq<byte>, at: nat, names: seq<byte>): Result<Symbol>
    requires at + 16 <= |raw|
  {
    var _ :- Require(U16(raw, at + 14) != 0xffff);
    var name :- String(names, U32(raw, at));
    var info := raw[at + 12] as int;
    Ok(Symbol(name, U32(raw, at + 4), U32(raw, at + 8), info % 16, info / 16, U16(raw, at + 14)))
  }

  /** The symbols of one table: `n` entries of sixteen bytes. */
  function TableSymbols(raw: seq<byte>, at: nat, names: seq<byte>, n: nat): Result<seq<Symbol>>
    requires at + 16 * n <= |raw|
  {
    if n == 0 then Ok([]) else
    var front :- TableSymbols(raw, at, names, n - 1);
    var symbol :- SymbolAt(raw, at + 16 * (n - 1), names);
    Ok(front + [symbol])
  }

  function Symbols(raw: seq<byte>, sections: seq<Section>, n: nat): Result<seq<Symbol>>
    requires n <= |sections| && forall i | 0 <= i < |sections| :: SectionOk(raw, sections[i])
  {
    if n == 0 then Ok([]) else
    var front :- Symbols(raw, sections, n - 1);
    var s := sections[n - 1];
    if s.kind != SYMTAB then Ok(front) else
    var _ :- Require(s.entsize == 16 && s.size % 16 == 0 && s.link < |sections|);
    var linked := sections[s.link];
    var _ :- Require(linked.kind == STRTAB);
    var names :- Span(raw, linked.offset, linked.size);
    var own :- TableSymbols(raw, s.offset, names, s.size / 16);
    Ok(front + own)
  }

  function Parse(raw: seq<byte>): (r: Result<Elf>)
    ensures r.Ok? ==> ElfOk(r.value) && r.value.raw == raw
  {
    var _ :- Require(52 <= |raw| <= LIMIT);
    var _ :- Require(raw[..7] == [0x7f, 0x45, 0x4c, 0x46, 1, 2, 1] && U16(raw, 16) == 2 && U16(raw, 18) == 8
                     && U32(raw, 20) == 1 && U16(raw, 40) == 52);
    var phoff, shoff := U32(raw, 28), U32(raw, 32);
    var phnum, shnum, shstr := U16(raw, 44), U16(raw, 48), U16(raw, 50);
    var _ :- Require(shnum > 0 && U16(raw, 46) == 40 && shstr < shnum);
    var _ :- Require(phnum > 0 && U16(raw, 42) == 32);
    var _ :- Require(InFile(raw, shoff, shnum * 40) && InFile(raw, phoff, phnum * 32));
    var strings :- Span(raw, U32(raw, shoff + 40 * shstr + 16), U32(raw, shoff + 40 * shstr + 20));
    var sections :- Sections(raw, shoff, strings, shnum);
    var loads :- Loads(raw, phoff, phnum);
    var _ :- Require(loads != []);
    var symbols :- Symbols(raw, sections, |sections|);
    var _ :- Require(symbols != []);
    Ok(Elf(raw, sections, loads, symbols))
  }

  // ----- what a parsed file satisfies -----

  predicate SectionOk(raw: seq<byte>, s: Section) {
    (s.kind == NOBITS || InFile(raw, s.offset, s.size)) && s.vma + s.size <= WORD
  }

  ghost predicate ElfOk(elf: Elf) {
    && (forall i | 0 <= i < |elf.sections| :: SectionOk(elf.raw, elf.sections[i]) && elf.sections[i].index == i)
    && (forall l | l in elf.loads :: InFile(elf.raw, l.offset, l.size))
  }

  // ----- looking up functions -----

  predicate IsIdentifier(s: string) {
    && s != "" && ('A' <= s[0] <= 'Z' || 'a' <= s[0] <= 'z' || s[0] == '_')
    && forall i | 0 <= i < |s| :: 'A' <= s[i] <= 'Z' || 'a' <= s[i] <= 'z' || '0' <= s[i] <= '9' || s[i] == '_'
  }

  datatype Filter = AnySection | Named(name: string)

  datatype Found = Found(symbol: Symbol, section: Section)

  predicate HasFlag(flags: nat, bit: nat)
    requires bit > 0
  {
    flags / bit % 2 == 1
  }

  /** A sized function symbol must be a global one inside an allocated, executable section. */
  predicate Acceptable(symbol: Symbol, section: Section) {
    && symbol.bind == GLOBAL && HasFlag(section.flags, 2) && HasFlag(section.flags, 4) && section.kind == PROGBITS
    && symbol.size <= 65536 && symbol.size % 4 == 0 && symbol.vma % 4 == 0
    && section.vma <= symbol.vma && symbol.vma - section.vma + symbol.size <= section.size
    && IsIdentifier(symbol.name)
  }

  predicate Sized(symbol: Symbol, vma: nat) { symbol.vma == vma && symbol.kind == FUNC && symbol.size != 0 }

  predicate Passes(filter: Filter, section: Section) { filter.AnySection? || section.name == filter.name }

  /** One symbol's part in the search: skipped, rejected, or found. */
  function Consider(elf: Elf, symbol: Symbol, vma: nat, filter: Filter): Result<seq<Found>> {
    if !Sized(symbol, vma) then Ok([])
    else if !(0 < symbol.section < |elf.sections|) then Err
    else
      var section := elf.sections[symbol.section];
      if !Passes(filter, section) then Ok([])
      else if !Acceptable(symbol, section) then Err
      else Ok([Found(symbol, section)])
  }

  function Positives(elf: Elf, vma: nat, filter: Filter, n: nat): Result<seq<Found>>
    requires n <= |elf.symbols|
  {
    if n == 0 then Ok([]) else
    var front :- Positives(elf, vma, filter, n - 1);
    var more :- Consider(elf, elf.symbols[n - 1], vma, filter);
    Ok(front + more)
  }

  function FunctionBytes(elf: Elf, f: Found): Result<seq<byte>> {
    Span(elf.raw, f.section.offset + f.symbol.vma - f.section.vma, f.symbol.size)
  }

  predicate Maps(l: Load, f: Found) {
    var offset := f.section.offset + f.symbol.vma - f.section.vma;
    && l.offset <= offset && offset + f.symbol.size <= l.offset + l.size
    && l.vma <= f.symbol.vma && f.symbol.vma + f.symbol.size <= l.vma + l.size
    && offset - l.offset == f.symbol.vma - l.vma
  }

  function MappingLoads(loads: seq<Load>, f: Found): seq<Load> {
    if loads == [] then [] else
    MappingLoads(loads[..|loads| - 1], f) + if Maps(loads[|loads| - 1], f) then [loads[|loads| - 1]] else []
  }

  /** Where the function lies in the ROM, when exactly one load segment says so. */
  function RomOffset(elf: Elf, f: Found): Result<int> {
    var loads := MappingLoads(elf.loads, f);
    if |loads| != 1 then Err else Ok(loads[0].lma + f.symbol.vma - loads[0].vma)
  }

  // ----- facts about the search -----

  ghost predicate FoundOk(elf: Elf, f: Found, vma: nat, filter: Filter) {
    && f.symbol in elf.symbols && Sized(f.symbol, vma) && f.symbol.section < |elf.sections|
    && f.section == elf.sections[f.symbol.section] && Passes(filter, f.section) && Acceptable(f.symbol, f.section)
  }

  lemma {:induction false} PositivesAreFunctions(elf: Elf, vma: nat, filter: Filter, n: nat)
    requires n <= |elf.symbols|
    ensures var r := Positives(elf, vma, filter, n);
            r.Ok? ==> forall f | f in r.value :: FoundOk(elf, f, vma, filter)
  {
    if n > 0 {
      PositivesAreFunctions(elf, vma, filter, n - 1);
    }
  }

  /** What one symbol must add to the search, and when it spoils it. */
  ghost predicate Counted(elf: Elf, symbol: Symbol, vma: nat, filter: Filter, found: seq<Found>) {
    Sized(symbol, vma) && 0 < symbol.section < |elf.sections| && Passes(filter, elf.sections[symbol.section]) ==>
      Found(symbol, elf.sections[symbol.section]) in found
  }

  ghost predicate Spoils(elf: Elf, symbol: Symbol, vma: nat, filter: Filter) {
    Sized(symbol, vma)
    && (!(0 < symbol.section < |elf.sections|)
        || (Passes(filter, elf.sections[symbol.section]) && !Acceptable(symbol, elf.sections[symbol.section])))
  }

  /** Nothing is missed, and the search is rejected exactly when some sized symbol at the address is malformed. */
  lemma {:induction false} PositivesMissNothing(elf: Elf, vma: nat, filter: Filter, n: nat)
    requires n <= |elf.symbols|
    ensures var r := Positives(elf, vma, filter, n);
            && (r.Err? <==> exists i :: 0 <= i < n && Spoils(elf, elf.symbols[i], vma, filter))
            && (r.Ok? ==> forall i | 0 <= i < n :: Counted(elf, elf.symbols[i], vma, filter, r.value))
  {
    if n > 0 {
      PositivesMissNothing(elf, vma, filter, n - 1);
      var front := Positives(elf, vma, filter, n - 1);
      assert Consider(elf, elf.symbols[n - 1], vma, filter).Err? <==> Spoils(elf, elf.symbols[n - 1], vma, filter);
      if front.Ok? {
        assert forall i | 0 <= i < n - 1 :: Counted(elf, elf.symbols[i], vma, filter, front.value);
      }
    }
  }

  lemma {:induction false} MappingLoadsMap(loads: seq<Load>, f: Found)
    ensures forall l :: l in MappingLoads(loads, f) <==> l in loads && Maps(l, f)
  {
    if loads != [] {
      MappingLoadsMap(loads[..|loads| - 1], f);
      assert loads == loads[..|loads| - 1] + [loads[|loads| - 1]];
    }
  }

  /** The ROM offset lies as far into the load addresses of its segment as the function's bytes lie into the segment's
      part of the file, and no other segment maps the function. */
  lemma RomOffsetFollowsItsLoad(elf: Elf, f: Found) returns (l: Load)
    requires RomOffset(elf, f).Ok?
    ensures l in elf.loads && Maps(l, f) && forall other | other in elf.loads && Maps(other, f) :: other == l
    ensures var bytesAt, rom := f.section.offset + f.symbol.vma - f.section.vma, RomOffset(elf, f).value;
            rom - l.lma == bytesAt - l.offset && l.lma <= rom && rom + f.symbol.size <= l.lma + l.size
  {
    var loads := MappingLoads(elf.loads, f);
    l := loads[0];
    MappingLoadsMap(elf.loads, f);
  }

  /** An acceptable function's bytes lie in the file. */
  lemma FoundHasBytes(elf: Elf, f: Found, vma: nat, filter: Filter)
    requires ElfOk(elf) && FoundOk(elf, f, vma, filter)
    ensures FunctionBytes(elf, f).Ok? && |FunctionBytes(elf, f).value| == f.symbol.size
    ensures f.symbol.vma + f.symbol.size <= WORD && f.section.index == f.symbol.section
  {
    assert SectionOk(elf.raw, elf.sections[f.symbol.section]);
  }

  /** The found functions of one section. */
  function InSection(found: seq<Found>, name: string): seq<Found> {
    if found == [] then [] else
    var f := found[|found| - 1];
    InSection(found[..|found| - 1], name) + if f.section.name == name then [f] else []
  }

  lemma NamedAppend(found: seq<Found>, more: seq<Found>, name: string)
    requires |more| <= 1
    ensures InSection(found + more, name) == InSection(found, name) + InSection(more, name)
  {
    if more == [] {
      assert found + more == found;
    } else {
      assert (found + more)[..|found|] == found;
      assert more[..0] == [];
    }
  }

  /** Searching one section finds what searching all of them found there, if the wider search was accepted. */
  lemma {:induction false} NarrowSearchAgrees(elf: Elf, vma: nat, name: string, n: nat)
    requires n <= |elf.symbols| && Positives(elf, vma, AnySection, n).Ok?
    ensures Positives(elf, vma, Named(name), n) == Ok(InSection(Positives(elf, vma, AnySection, n).value, name))
  {
    if n > 0 {
      NarrowSearchAgrees(elf, vma, name, n - 1);
      var front := Positives(elf, vma, AnySection, n - 1).value;
      var more := Consider(elf, elf.symbols[n - 1], vma, AnySection).value;
      NamedAppend(front, more, name);
      ConsiderAgrees(elf, elf.symbols[n - 1], vma, name);
    }
  }

  lemma ConsiderAgrees(elf: Elf, symbol: Symbol, vma: nat, name: string)
    requires Consider(elf, symbol, vma, AnySection).Ok?
    ensures Consider(elf, symbol, vma, Named(name)) == Ok(InSection(Consider(elf, symbol, vma, AnySection).value, name))
  {
    var wide := Consider(elf, symbol, vma, AnySection).value;
    if wide != [] {
      assert wide[..0] == [];
      assert InSection(wide, name) == InSection([], name) + if wide[0].section.name == name then [wide[0]] else [];
      assert InSection(wide, name) == if wide[0].section.name == name then wide else [];
    }
  }
}
