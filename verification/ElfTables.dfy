// Which files the parser accepts, and what it reads: entry by entry, with no order of evaluation.

module ElfTables {
  import opened Common
  import opened ElfModel

  // ----- strings -----

  /** A NUL-terminated ASCII string starts at `at`. */
  ghost predicate IsString(table: seq<byte>, at: nat, s: string) {
    && at + |s| < |table| && table[at + |s|] == 0
    && forall i | 0 <= i < |s| :: 0 < table[at + i] < 128 && s[i] == table[at + i] as char
  }

  lemma StringReads(table: seq<byte>, at: nat)
    ensures String(table, at).Ok? ==> IsString(table, at, String(table, at).value)
    ensures forall s: string :: IsString(table, at, s) ==> String(table, at) == Ok(s)
  {
    forall s: string | IsString(table, at, s)
      ensures String(table, at) == Ok(s)
    {
      StringIs(table, at, s);
    }
  }

  lemma StringIs(table: seq<byte>, at: nat, s: string)
    requires IsString(table, at, s)
    ensures String(table, at) == Ok(s)
  {
    forall j | at <= j < at + |s|
      ensures 0 < table[j] < 128 && s[j - at] == table[j] as char
    {
      assert s[j - at] == table[at + (j - at)] as char;
    }
    assert FindNul(table, at) == at + |s|;
    var read := seq(|s|, i requires 0 <= i < |s| => table[at + i] as char);
    assert s == read;
    assert String(table, at) == Ok(read);
  }

  lemma SameEnds<T>(front: seq<T>, last: T, before: seq<T>, other: T)
    requires front + [last] == before + [other]
    ensures front == before && last == other
  {
    SameTails(front, [last], before, [other]);
    assert [last][0] == [other][0];
  }

  lemma SameTails<T>(front: seq<T>, tail: seq<T>, before: seq<T>, other: seq<T>)
    requires front + tail == before + other && |tail| == |other|
    ensures front == before && tail == other
  {
    var all := before + other;
    assert |all| == |front| + |tail|;
    assert all[..|front|] == front && all[..|front|] == before;
    assert all[|front|..] == tail && all[|front|..] == other;
  }

  // ----- entries -----

  ghost predicate SectionEntry(raw: seq<byte>, at: nat, strings: seq<byte>, index: nat, s: Section)
    requires at + 40 <= |raw|
  {
    && s.index == index && IsString(strings, U32(raw, at), s.name)
    && s.kind == U32(raw, at + 4) && s.flags == U32(raw, at + 8) && s.vma == U32(raw, at + 12)
    && s.offset == U32(raw, at + 16) && s.size == U32(raw, at + 20) && s.link == U32(raw, at + 24)
    && s.entsize == U32(raw, at + 36)
    && (s.kind == NOBITS || InFile(raw, s.offset, s.size)) && s.vma + s.size <= WORD
  }

  lemma SectionReads(raw: seq<byte>, at: nat, strings: seq<byte>, index: nat, s: Section)
    requires at + 40 <= |raw|
    ensures SectionAt(raw, at, strings, index) == Ok(s) <==> SectionEntry(raw, at, strings, index, s)
  {
    StringReads(strings, U32(raw, at));
    hide U32, String, IsString;
  }

  predicate IsLoad(raw: seq<byte>, at: nat)
    requires at + 32 <= |raw|
  {
    U32(raw, at) == LOAD
  }

  /** The file part within the memory part, both within 32 bits, and the file part within the file. */
  ghost predicate LoadEntry(raw: seq<byte>, at: nat, l: Load)
    requires at + 32 <= |raw|
  {
    && l.offset == U32(raw, at + 4) && l.vma == U32(raw, at + 8) && l.lma == U32(raw, at + 12)
    && l.size == U32(raw, at + 16) && l.size <= U32(raw, at + 20)
    && l.vma + U32(raw, at + 20) <= WORD && l.lma + l.size <= WORD && InFile(raw, l.offset, l.size)
  }

  ghost predicate SymbolEntry(raw: seq<byte>, at: nat, names: seq<byte>, s: Symbol)
    requires at + 16 <= |raw|
  {
    && IsString(names, U32(raw, at), s.name) && s.vma == U32(raw, at + 4) && s.size == U32(raw, at + 8)
    && s.kind == raw[at + 12] % 16 && s.bind == raw[at + 12] / 16 && s.section == U16(raw, at + 14) != 0xffff
  }

  lemma SymbolReads(raw: seq<byte>, at: nat, names: seq<byte>, s: Symbol)
    requires at + 16 <= |raw|
    ensures SymbolAt(raw, at, names) == Ok(s) <==> SymbolEntry(raw, at, names, s)
  {
    StringReads(names, U32(raw, at));
    hide U32, U16, String, IsString;
  }

  // ----- tables -----

  /** The section table holds exactly these sections, each in its place. */
  ghost predicate SectionTable(raw: seq<byte>, table: nat, strings: seq<byte>, sections: seq<Section>)
    requires table + 40 * |sections| <= |raw|
  {
    forall i | 0 <= i < |sections| :: SectionEntry(raw, table + 40 * i, strings, i, sections[i])
  }

  lemma {:induction false} SectionsRead(raw: seq<byte>, table: nat, strings: seq<byte>, n: nat, sections: seq<Section>)
    requires table + 40 * n <= |raw|
    ensures Sections(raw, table, strings, n) == Ok(sections) <==>
            |sections| == n && SectionTable(raw, table, strings, sections)
  {
    hide Sections, SectionEntry;
    if n == 0 {
      NoSections(raw, table, strings);
    } else if |sections| == n {
      var front, s := sections[..n - 1], sections[n - 1];
      assert sections == front + [s];
      SectionsRead(raw, table, strings, n - 1, front);
      SectionStep(raw, table, strings, n, front, s);
      assert SectionTable(raw, table, strings, sections) <==>
             SectionTable(raw, table, strings, front) && SectionEntry(raw, table + 40 * (n - 1), strings, n - 1, s);
    }
  }

  lemma NoSections(raw: seq<byte>, table: nat, strings: seq<byte>)
    requires table <= |raw|
    ensures Sections(raw, table, strings, 0) == Ok([])
  {
  }

  lemma SectionStep(raw: seq<byte>, table: nat, strings: seq<byte>, n: nat, front: seq<Section>, s: Section)
    requires n > 0 && table + 40 * n <= |raw|
    ensures Sections(raw, table, strings, n) == Ok(front + [s]) <==>
            && Sections(raw, table, strings, n - 1) == Ok(front)
            && SectionEntry(raw, table + 40 * (n - 1), strings, n - 1, s)
  {
    SectionReads(raw, table + 40 * (n - 1), strings, n - 1, s);
    hide SectionAt, SectionEntry, SectionOk;
    var r := Sections(raw, table, strings, n);
    if r == Ok(front + [s]) {
      var before := Sections(raw, table, strings, n - 1);
      SameEnds(front, s, before.value, r.value[|r.value| - 1]);
    }
  }

  /** The load segments of the first n program headers: the entries of that type, in order. */
  ghost predicate LoadTable(raw: seq<byte>, table: nat, n: nat, loads: seq<Load>)
    requires table + 32 * n <= |raw|
  {
    if n == 0 then loads == []
    else if !IsLoad(raw, table + 32 * (n - 1)) then LoadTable(raw, table, n - 1, loads)
    else loads != [] && LoadEntry(raw, table + 32 * (n - 1), loads[|loads| - 1])
         && LoadTable(raw, table, n - 1, loads[..|loads| - 1])
  }

  lemma {:induction false} LoadsRead(raw: seq<byte>, table: nat, n: nat, loads: seq<Load>)
    requires table + 32 * n <= |raw|
    ensures Loads(raw, table, n) == Ok(loads) <==> LoadTable(raw, table, n, loads)
  {
    if n > 0 {
      var at := table + 32 * (n - 1);
      hide U32;
      if !IsLoad(raw, at) {
        LoadsRead(raw, table, n - 1, loads);
      } else if loads != [] {
        var front, l := loads[..|loads| - 1], loads[|loads| - 1];
        assert loads == front + [l];
        LoadsRead(raw, table, n - 1, front);
        LoadStep(raw, table, n, front, l);
      }
    }
  }

  lemma LoadStep(raw: seq<byte>, table: nat, n: nat, front: seq<Load>, l: Load)
    requires n > 0 && table + 32 * n <= |raw| && IsLoad(raw, table + 32 * (n - 1))
    ensures Loads(raw, table, n) == Ok(front + [l]) <==>
            Loads(raw, table, n - 1) == Ok(front) && LoadEntry(raw, table + 32 * (n - 1), l)
  {
    hide U32;
    var r := Loads(raw, table, n);
    if r == Ok(front + [l]) {
      var before := Loads(raw, table, n - 1);
      SameEnds(front, l, before.value, r.value[|r.value| - 1]);
    }
  }

  /** The symbols of one table, each in its place. */
  ghost predicate SymbolTable(raw: seq<byte>, at: nat, names: seq<byte>, symbols: seq<Symbol>)
    requires at + 16 * |symbols| <= |raw|
  {
    forall i | 0 <= i < |symbols| :: SymbolEntry(raw, at + 16 * i, names, symbols[i])
  }

  lemma {:induction false} TableSymbolsRead(raw: seq<byte>, at: nat, names: seq<byte>, n: nat, symbols: seq<Symbol>)
    requires at + 16 * n <= |raw|
    ensures TableSymbols(raw, at, names, n) == Ok(symbols) <==> |symbols| == n && SymbolTable(raw, at, names, symbols)
  {
    hide TableSymbols, SymbolEntry;
    TableLength(raw, at, names, n);
    if n == 0 {
      EmptyTable(raw, at, names);
    } else if |symbols| == n {
      var front, s := symbols[..n - 1], symbols[n - 1];
      assert symbols == front + [s];
      TableSymbolsRead(raw, at, names, n - 1, front);
      SymbolStep(raw, at, names, n, front, s);
      assert SymbolTable(raw, at, names, symbols) <==>
             SymbolTable(raw, at, names, front) && SymbolEntry(raw, at + 16 * (n - 1), names, s);
    }
  }

  lemma EmptyTable(raw: seq<byte>, at: nat, names: seq<byte>)
    requires at <= |raw|
    ensures TableSymbols(raw, at, names, 0) == Ok([])
  {
  }

  lemma SymbolStep(raw: seq<byte>, at: nat, names: seq<byte>, n: nat, front: seq<Symbol>, s: Symbol)
    requires n > 0 && at + 16 * n <= |raw|
    ensures TableSymbols(raw, at, names, n) == Ok(front + [s]) <==>
            TableSymbols(raw, at, names, n - 1) == Ok(front) && SymbolEntry(raw, at + 16 * (n - 1), names, s)
  {
    SymbolReads(raw, at + 16 * (n - 1), names, s);
    hide SymbolAt, SymbolEntry;
    var r := TableSymbols(raw, at, names, n);
    if r == Ok(front + [s]) {
      var before := TableSymbols(raw, at, names, n - 1);
      SameEnds(front, s, before.value, r.value[|r.value| - 1]);
    }
  }

  // ----- symbol tables of the sections -----

  /** A symbol table with entries of sixteen bytes and a string table behind its link. */
  predicate TableShape(raw: seq<byte>, sections: seq<Section>, s: Section) {
    && s.entsize == 16 && s.size % 16 == 0 && s.link < |sections| && sections[s.link].kind == STRTAB
    && InFile(raw, s.offset, s.size) && InFile(raw, sections[s.link].offset, sections[s.link].size)
  }

  /** The symbols of the symbol tables among the first n sections, table after table. */
  ghost predicate Listed(raw: seq<byte>, sections: seq<Section>, n: nat, symbols: seq<Symbol>)
    requires n <= |sections|
  {
    if n == 0 then symbols == []
    else
      var s := sections[n - 1];
      if s.kind != SYMTAB then Listed(raw, sections, n - 1, symbols)
      else TableShape(raw, sections, s) && s.size / 16 <= |symbols|
           && Listed(raw, sections, n - 1, symbols[..|symbols| - s.size / 16])
           && SymbolTable(raw, s.offset, NamesOf(raw, sections, s), symbols[|symbols| - s.size / 16..])
  }

  function NamesOf(raw: seq<byte>, sections: seq<Section>, s: Section): seq<byte>
    requires TableShape(raw, sections, s)
  {
    raw[sections[s.link].offset..sections[s.link].offset + sections[s.link].size]
  }

  lemma {:induction false} SymbolsRead(raw: seq<byte>, sections: seq<Section>, n: nat, symbols: seq<Symbol>)
    requires n <= |sections| && forall i | 0 <= i < |sections| :: SectionOk(raw, sections[i])
    ensures Symbols(raw, sections, n) == Ok(symbols) <==> Listed(raw, sections, n, symbols)
    decreases 2 * n + 1
  {
    if n > 0 {
      var s := sections[n - 1];
      assert SectionOk(raw, s);
      if s.kind != SYMTAB {
        SymbolsRead(raw, sections, n - 1, symbols);
      } else if s.link < |sections| {
        assert SectionOk(raw, sections[s.link]);
        OwnSymbolsRead(raw, sections, n, symbols);
      }
    }
  }

  lemma {:induction false} OwnSymbolsRead(raw: seq<byte>, sections: seq<Section>, n: nat, symbols: seq<Symbol>)
    requires 0 < n <= |sections| && forall i | 0 <= i < |sections| :: SectionOk(raw, sections[i])
    requires sections[n - 1].kind == SYMTAB && sections[n - 1].link < |sections|
    ensures Symbols(raw, sections, n) == Ok(symbols) <==> Listed(raw, sections, n, symbols)
    decreases 2 * n
  {
    var s := sections[n - 1];
    if TableShape(raw, sections, s) && s.size / 16 <= |symbols| {
      var own := |symbols| - s.size / 16;
      var names := NamesOf(raw, sections, s);
      var mine := Symbols(raw, sections, n - 1);
      SymbolsRead(raw, sections, n - 1, symbols[..own]);
      TableSymbolsRead(raw, s.offset, names, s.size / 16, symbols[own..]);
      TableLength(raw, s.offset, names, s.size / 16);
      assert symbols == symbols[..own] + symbols[own..];
      hide TableSymbols, SymbolTable;
      if Symbols(raw, sections, n) == Ok(symbols) {
        var last := TableSymbols(raw, s.offset, names, s.size / 16).value;
        SameTails(symbols[..own], symbols[own..], mine.value, last);
      }
    } else if TableShape(raw, sections, s) {
      TableLength(raw, s.offset, NamesOf(raw, sections, s), s.size / 16);
    }
  }

  lemma {:induction false} TableLength(raw: seq<byte>, at: nat, names: seq<byte>, n: nat)
    requires at + 16 * n <= |raw|
    ensures TableSymbols(raw, at, names, n).Ok? ==> |TableSymbols(raw, at, names, n).value| == n
  {
    if n > 0 {
      TableLength(raw, at, names, n - 1);
    }
  }

  // ----- the whole file -----

  /** A big-endian MIPS executable of the supported size, its tables of the standard entry sizes and within the file. */
  predicate HeaderOk(raw: seq<byte>) {
    && 52 <= |raw| <= LIMIT
    && raw[..7] == [0x7f, 0x45, 0x4c, 0x46, 1, 2, 1] && U16(raw, 16) == 2 && U16(raw, 18) == 8 && U32(raw, 20) == 1
    && U16(raw, 40) == 52 && U16(raw, 42) == 32 && U16(raw, 44) > 0 && U16(raw, 46) == 40
    && U16(raw, 50) < U16(raw, 48)
    && InFile(raw, U32(raw, 32), U16(raw, 48) * 40) && InFile(raw, U32(raw, 28), U16(raw, 44) * 32)
    && InFile(raw, NamesOffset(raw), NamesSize(raw))
  }

  /** Where the header says the section names are. */
  function NamesOffset(raw: seq<byte>): nat
    requires 52 <= |raw| && U32(raw, 32) + 40 * U16(raw, 50) + 40 <= |raw|
  {
    U32(raw, U32(raw, 32) + 40 * U16(raw, 50) + 16)
  }

  function NamesSize(raw: seq<byte>): nat
    requires 52 <= |raw| && U32(raw, 32) + 40 * U16(raw, 50) + 40 <= |raw|
  {
    U32(raw, U32(raw, 32) + 40 * U16(raw, 50) + 20)
  }

  function SectionNames(raw: seq<byte>): seq<byte>
    requires HeaderOk(raw)
  {
    raw[NamesOffset(raw)..NamesOffset(raw) + NamesSize(raw)]
  }

  /** What an ELF value says about a file, with no parsing. */
  ghost predicate Describes(raw: seq<byte>, elf: Elf) {
    hide U16, U32;
    && elf.raw == raw && HeaderOk(raw)
    && |elf.sections| == U16(raw, 48)
    && SectionTable(raw, U32(raw, 32), SectionNames(raw), elf.sections)
    && LoadTable(raw, U32(raw, 28), U16(raw, 44), elf.loads) && elf.loads != []
    && Listed(raw, elf.sections, |elf.sections|, elf.symbols) && elf.symbols != []
  }

  /** The parser yields an ELF value if and only if that value describes the file; other files it rejects. */
  lemma ParseDescribes(raw: seq<byte>, elf: Elf)
    ensures Parse(raw) == Ok(elf) <==> Describes(raw, elf)
  {
    if HeaderOk(raw) {
      ParseTables(raw, elf);
      var strings, table, shnum := SectionNames(raw), U32(raw, 32), U16(raw, 48);
      var phoff, phnum := U32(raw, 28), U16(raw, 44);
      assert table + 40 * shnum <= |raw| && phoff + 32 * phnum <= |raw|;
      hide *;
      SectionsRead(raw, table, strings, shnum, elf.sections);
      LoadsRead(raw, phoff, phnum, elf.loads);
      if |elf.sections| == shnum && SectionTable(raw, table, strings, elf.sections) {
        TableSectionsOk(raw, table, strings, elf.sections);
        SymbolsRead(raw, elf.sections, |elf.sections|, elf.symbols);
      }
      DescribesTables(raw, elf);
    } else {
      BadHeaderRejected(raw);
    }
  }

  lemma DescribesTables(raw: seq<byte>, elf: Elf)
    requires HeaderOk(raw)
    ensures Describes(raw, elf) <==>
            && elf.raw == raw && |elf.sections| == U16(raw, 48)
            && SectionTable(raw, U32(raw, 32), SectionNames(raw), elf.sections)
            && LoadTable(raw, U32(raw, 28), U16(raw, 44), elf.loads) && elf.loads != []
            && Listed(raw, elf.sections, |elf.sections|, elf.symbols) && elf.symbols != []
  {
  }

  lemma TableSectionsOk(raw: seq<byte>, table: nat, strings: seq<byte>, sections: seq<Section>)
    requires table + 40 * |sections| <= |raw| && SectionTable(raw, table, strings, sections)
    ensures forall i | 0 <= i < |sections| :: SectionOk(raw, sections[i])
  {
    forall i | 0 <= i < |sections|
      ensures SectionOk(raw, sections[i])
    {
      assert SectionEntry(raw, table + 40 * i, strings, i, sections[i]);
    }
  }

  /** Past the header the parser is its three tables. */
  lemma ParseTables(raw: seq<byte>, elf: Elf)
    requires HeaderOk(raw)
    ensures Parse(raw) == Ok(elf) <==>
            && elf.raw == raw && elf.loads != [] && elf.symbols != []
            && Sections(raw, U32(raw, 32), SectionNames(raw), U16(raw, 48)) ==
               Ok(elf.sections)
            && Loads(raw, U32(raw, 28), U16(raw, 44)) == Ok(elf.loads)
            && Symbols(raw, elf.sections, |elf.sections|) == Ok(elf.symbols)
  {
    hide Sections, Loads, Symbols, U16, U32;
  }

  lemma BadHeaderRejected(raw: seq<byte>)
    requires !HeaderOk(raw)
    ensures Parse(raw).Err?
  {
    hide Sections, Loads, Symbols;
  }
}
