// A reference file, byte by byte: 29 functions of one instruction each, and whatever other symbols.

module BindingFile {
  import opened Common
  import opened ElfModel
  import opened ElfTables

  const FUNCTIONS: nat := 29
  const VMA: nat := 0x8000_0000
  const CODE: nat := 116
  const CODE_AT: nat := 284
  const SYMBOLS_AT: nat := 400

  // ----- words -----

  type word = x: int | 0 <= x < 0x1_0000_0000

  function Bytes4(w: word): (b: seq<byte>)
    ensures |b| == 4 && U32(b, 0) == w
  {
    [w / 0x100_0000, w / 0x1_0000 % 256, w / 256 % 256, w % 256]
  }

  function Encode(ws: seq<word>): (raw: seq<byte>)
    ensures |raw| == 4 * |ws|
  {
    if ws == [] then [] else Encode(ws[..|ws| - 1]) + Bytes4(ws[|ws| - 1])
  }

  lemma {:induction false} EncodedWord(ws: seq<word>, tail: seq<byte>, i: nat)
    requires i < |ws|
    ensures U32(Encode(ws) + tail, 4 * i) == ws[i]
  {
    var n := |ws| - 1;
    var front, last := Encode(ws[..n]), Bytes4(ws[n]);
    assert Encode(ws) + tail == front + (last + tail);
    hide Encode, U32, Bytes4;
    if i < n {
      EncodedWord(ws[..n], last + tail, i);
    } else {
      WordBehind(front, last, tail);
    }
  }

  lemma WordBehind(front: seq<byte>, last: seq<byte>, tail: seq<byte>)
    requires |last| == 4
    ensures U32(front + (last + tail), |front|) == U32(last, 0)
  {
    var all := front + (last + tail);
    assert all[|front|] == last[0] && all[|front| + 1] == last[1];
    assert all[|front| + 2] == last[2] && all[|front| + 3] == last[3];
  }

  /** A word of the file, its halves and its bytes. */
  lemma WordParts(raw: seq<byte>, at: nat)
    requires at + 4 <= |raw|
    ensures U16(raw, at) == U32(raw, at) / 0x1_0000 && U16(raw, at + 2) == U32(raw, at) % 0x1_0000
    ensures raw[at] as int == U16(raw, at) / 256 && raw[at + 1] as int == U16(raw, at) % 256
    ensures raw[at + 2] as int == U16(raw, at + 2) / 256 && raw[at + 3] as int == U16(raw, at + 2) % 256
  {
    HalfParts(raw, at);
    HalfParts(raw, at + 2);
    hide U16;
  }

  lemma HalfParts(raw: seq<byte>, at: nat)
    requires at + 2 <= |raw|
    ensures raw[at] as int == U16(raw, at) / 256 && raw[at + 1] as int == U16(raw, at) % 256 && U16(raw, at) < 0x1_0000
  {
  }

  // ----- symbols -----

  function NameOf(i: nat): (name: string)
    ensures |name| == i + 1 && forall k | 0 <= k < |name| :: name[k] == 'f'
  {
    seq(i + 1, _ => 'f')
  }

  function Addr(i: nat): nat { VMA + 4 * i }

  function FunctionAt(i: nat): Symbol { Symbol(NameOf(i), Addr(i), 4, FUNC, GLOBAL, 1) }

  /** Its name is among the suffixes of the one string of the table, and its numbers fit their fields. */
  ghost predicate Encodable(s: Symbol) {
    && |s.name| <= FUNCTIONS && (forall k | 0 <= k < |s.name| :: s.name[k] == 'f')
    && s.vma < WORD && s.size < WORD && s.kind < 16 && s.bind < 16 && s.section < 0xffff
  }

  ghost predicate AllEncodable(symbols: seq<Symbol>) { forall i | 0 <= i < |symbols| :: Encodable(symbols[i]) }

  function Fit(x: int): word { if 0 <= x < WORD then x else 0 }

  function SymbolWord(s: Symbol, j: nat): word
    requires j < 4
  {
    match j
    case 0 => Fit(FUNCTIONS - |s.name|)
    case 1 => Fit(s.vma)
    case 2 => Fit(s.size)
    case _ => Fit((s.bind * 16 + s.kind) * 0x100_0000 + s.section)
  }

  function SymbolsOf(others: seq<Symbol>): (symbols: seq<Symbol>)
    ensures |symbols| == FUNCTIONS + |others|
    ensures forall i | 0 <= i < |symbols| ::
              symbols[i] == if i < FUNCTIONS then FunctionAt(i) else others[i - FUNCTIONS]
  {
    seq(FUNCTIONS, i requires 0 <= i < FUNCTIONS => FunctionAt(i)) + others
  }

  // ----- the file -----

  function StringsAt(n: nat): nat { SYMBOLS_AT + 16 * n }

  /** The header, one program header and the section table, for n symbols. */
  function Head(n: nat): (ws: seq<word>)
    ensures |ws| == 71
  {
    HeaderWords() + ProgramWords() + RowWords(n, 0) + RowWords(n, 1) + RowWords(n, 2) + RowWords(n, 3) + RowWords(n, 4)
  }

  function HeaderWords(): (ws: seq<word>)
    ensures |ws| == 13
  {
    [0x7f45_4c46, 0x0102_0100, 0, 0, 0x0002_0008, 1, VMA, 52, 84, 0,
     52 * 0x1_0000 + 32, 0x1_0000 + 40, 5 * 0x1_0000 + 4]
  }

  function ProgramWords(): (ws: seq<word>)
    ensures |ws| == 8
  {
    [LOAD, CODE_AT, VMA, 0, CODE, CODE, 5, 4]
  }

  /** The words of section i of the five. */
  function RowWords(n: nat, i: nat): (ws: seq<word>)
    requires i < 5
    ensures |ws| == 10
  {
    var s := SectionOf(n, i);
    [NameAt(i), Fit(s.kind), Fit(s.flags), Fit(s.vma), Fit(s.offset), Fit(s.size), Fit(s.link), 0, 4, Fit(s.entsize)]
  }

  function SectionOf(n: nat, i: nat): Section
    requires i < 5
  {
    match i
    case 0 => Section(0, SectionNameOf(0), 0, 0, 0, 0, 0, 0, 0)
    case 1 => Text()
    case 2 => Section(2, SectionNameOf(2), SYMTAB, 0, 0, SYMBOLS_AT, 16 * n, 3, 16)
    case 3 => Section(3, SectionNameOf(3), STRTAB, 0, 0, StringsAt(n), FUNCTIONS + 1, 0, 0)
    case _ => Section(4, SectionNameOf(4), STRTAB, 0, 0, StringsAt(n) + FUNCTIONS + 1, 33, 0, 0)
  }

  function Text(): Section { Section(1, SectionNameOf(1), PROGBITS, 6, VMA, CODE_AT, CODE, 0, 0) }

  function SectionNameOf(i: nat): string
    requires i < 5
  {
    match i
    case 0 => ""
    case 1 => ".text"
    case 2 => ".symtab"
    case 3 => ".strtab"
    case _ => ".shstrtab"
  }

  function NameAt(i: nat): word
    requires i < 5
  {
    match i
    case 0 => 0
    case 1 => 1
    case 2 => 7
    case 3 => 15
    case _ => 23
  }

  /** All words up to the strings; the code is 29 zero words. */
  function Words(symbols: seq<Symbol>): (ws: seq<word>)
    ensures |ws| == 100 + 4 * |symbols|
  {
    Head(|symbols|) + seq(FUNCTIONS, _ => 0)
    + seq(4 * |symbols|, k requires 0 <= k < 4 * |symbols| => SymbolWord(symbols[k / 4], k % 4))
  }

  function Names(): (table: seq<byte>)
    ensures |table| == FUNCTIONS + 1 && table[FUNCTIONS] == 0 && forall k | 0 <= k < FUNCTIONS :: table[k] == 102
  {
    seq(FUNCTIONS, _ => 102) + [0]
  }

  /** A string of ASCII characters with its NUL. */
  function Terminated(s: string): (b: seq<byte>)
    ensures |b| == |s| + 1
  {
    seq(|s|, i requires 0 <= i < |s| => s[i] as int % 128) + [0]
  }

  function SectionStrings(): (table: seq<byte>)
    ensures |table| == 33
  {
    Five(Terminated(""), Terminated(".text"), Terminated(".symtab"), Terminated(".strtab"), Terminated(".shstrtab"))
  }

  function File(others: seq<Symbol>): (raw: seq<byte>)
    ensures |raw| == StringsAt(FUNCTIONS + |others|) + FUNCTIONS + 34
  {
    Encode(Words(SymbolsOf(others))) + (Names() + SectionStrings())
  }

  function SectionsOf(n: nat): (sections: seq<Section>)
    ensures |sections| == 5 && forall i | 0 <= i < 5 :: sections[i] == SectionOf(n, i)
  {
    seq(5, i requires 0 <= i < 5 => SectionOf(n, i))
  }

  /** What the file says. */
  function Reference(others: seq<Symbol>): Elf {
    Elf(File(others), SectionsOf(FUNCTIONS + |others|), [Load(CODE_AT, VMA, 0, CODE)], SymbolsOf(others))
  }

  // ----- the file says it -----

  /** The first 71 words, and the strings behind the symbols: all that the tables of the file ask. */
  ghost predicate Layout(raw: seq<byte>, symbols: seq<Symbol>) {
    var n, strings := |symbols|, StringsAt(|symbols|);
    && |raw| == strings + FUNCTIONS + 34 <= LIMIT
    && (forall i | 0 <= i < 71 :: U32(raw, 4 * i) == Head(n)[i])
    && (forall i, j | 0 <= i < n && 0 <= j < 4 :: U32(raw, SYMBOLS_AT + 16 * i + 4 * j) == SymbolWord(symbols[i], j))
    && raw[strings..strings + FUNCTIONS + 1] == Names()
    && raw[strings + FUNCTIONS + 1..strings + FUNCTIONS + 34] == SectionStrings()
  }

  lemma FileLayout(others: seq<Symbol>)
    requires |File(others)| <= LIMIT
    ensures Layout(File(others), SymbolsOf(others))
    ensures forall i | CODE_AT <= i < SYMBOLS_AT :: File(others)[i] == 0
  {
    var symbols := SymbolsOf(others);
    var ws, tail := Words(symbols), Names() + SectionStrings();
    var raw := File(others);
    hide Encode, U32, Head, SymbolWord, Names, SectionStrings;
    forall i | 0 <= i < 71
      ensures U32(raw, 4 * i) == Head(|symbols|)[i]
    {
      EncodedWord(ws, tail, i);
    }
    forall i, j | 0 <= i < |symbols| && 0 <= j < 4
      ensures U32(raw, SYMBOLS_AT + 16 * i + 4 * j) == SymbolWord(symbols[i], j)
    {
      EncodedWord(ws, tail, 100 + (4 * i + j));
      assert (4 * i + j) / 4 == i && (4 * i + j) % 4 == j;
    }
    forall i | CODE_AT <= i < SYMBOLS_AT
      ensures raw[i] == 0
    {
      EncodedWord(ws, tail, i / 4);
      ZeroWord(raw, i);
    }
    assert raw[StringsAt(|symbols|)..] == tail;
  }

  lemma ZeroWord(raw: seq<byte>, i: nat)
    requires i / 4 * 4 + 4 <= |raw| && U32(raw, 4 * (i / 4)) == 0
    ensures raw[i] == 0
  {
    WordParts(raw, i / 4 * 4);
    hide U16, U32;
  }

  lemma HeadHeader(n: nat)
    ensures forall i | 0 <= i < 13 :: Head(n)[i] == HeaderWords()[i]
    ensures forall i | 0 <= i < 8 :: Head(n)[13 + i] == ProgramWords()[i]
  {
    hide HeaderWords, ProgramWords, RowWords;
  }

  lemma HeadRow(n: nat, i: nat, j: nat)
    requires i < 5 && j < 10
    ensures Head(n)[21 + 10 * i + j] == RowWords(n, i)[j]
  {
    hide HeaderWords, ProgramWords, RowWords;
  }

  lemma HeaderWord(raw: seq<byte>, symbols: seq<Symbol>, i: nat)
    requires Layout(raw, symbols) && i < 13
    ensures 4 * i + 4 <= |raw| && U32(raw, 4 * i) == HeaderWords()[i]
    ensures U16(raw, 4 * i) == HeaderWords()[i] / 0x1_0000 && U16(raw, 4 * i + 2) == HeaderWords()[i] % 0x1_0000
  {
    HeadHeader(|symbols|);
    assert U32(raw, 4 * i) == Head(|symbols|)[i];
    hide Head, HeaderWords, U32, U16;
    WordParts(raw, 4 * i);
  }

  lemma RowWord(raw: seq<byte>, symbols: seq<Symbol>, i: nat, j: nat)
    requires Layout(raw, symbols) && i < 5 && j < 10
    ensures 84 + 40 * i + 4 * j + 4 <= |raw| && U32(raw, 84 + 40 * i + 4 * j) == RowWords(|symbols|, i)[j]
  {
    HeadRow(|symbols|, i, j);
    hide Head, RowWords, U32;
    assert 84 + 40 * i + 4 * j == 4 * (21 + 10 * i + j);
    assert U32(raw, 4 * (21 + 10 * i + j)) == Head(|symbols|)[21 + 10 * i + j];
  }

  lemma Identification(raw: seq<byte>, symbols: seq<Symbol>)
    requires Layout(raw, symbols)
    ensures raw[..7] == [0x7f, 0x45, 0x4c, 0x46, 1, 2, 1]
  {
    HeaderWord(raw, symbols, 0);
    HeaderWord(raw, symbols, 1);
    assert HeaderWords()[0] == 0x7f45_4c46 && HeaderWords()[1] == 0x0102_0100;
    WordParts(raw, 0);
    WordParts(raw, 4);
    hide U16, U32, Head, HeaderWords;
  }

  lemma HeaderIsRead(raw: seq<byte>, symbols: seq<Symbol>)
    requires Layout(raw, symbols)
    ensures HeaderOk(raw) && U32(raw, 32) == 84 && U32(raw, 28) == 52 && U16(raw, 44) == 1 && U16(raw, 48) == 5
    ensures SectionNames(raw) == SectionStrings()
  {
    Identification(raw, symbols);
    HeaderFields(raw, symbols);
    RowWord(raw, symbols, 4, 4);
    RowWord(raw, symbols, 4, 5);
    hide U16, U32, Head, Names, SectionStrings, HeaderWords;
  }

  lemma HeaderFields(raw: seq<byte>, symbols: seq<Symbol>)
    requires Layout(raw, symbols)
    ensures U16(raw, 16) == 2 && U16(raw, 18) == 8 && U32(raw, 20) == 1 && U32(raw, 28) == 52 && U32(raw, 32) == 84
    ensures U16(raw, 40) == 52 && U16(raw, 42) == 32 && U16(raw, 44) == 1 && U16(raw, 46) == 40
    ensures U16(raw, 48) == 5 && U16(raw, 50) == 4
  {
    var ws := HeaderWords();
    assert ws[4] == 0x0002_0008 && ws[5] == 1 && ws[7] == 52 && ws[8] == 84;
    assert ws[10] == 52 * 0x1_0000 + 32 && ws[11] == 0x1_0000 + 40 && ws[12] == 5 * 0x1_0000 + 4;
    hide U16, U32, Layout, HeaderWords;
    HeaderWord(raw, symbols, 4);
    HeaderWord(raw, symbols, 5);
    HeaderWord(raw, symbols, 7);
    HeaderWord(raw, symbols, 8);
    HeaderWord(raw, symbols, 10);
    HeaderWord(raw, symbols, 11);
    HeaderWord(raw, symbols, 12);
  }

  // ----- the section table -----

  predicate Ascii(s: string) { forall i | 0 <= i < |s| :: 0 < s[i] as int < 128 }

  lemma StringBehind(front: seq<byte>, s: string, tail: seq<byte>)
    requires Ascii(s)
    ensures IsString(front + Terminated(s) + tail, |front|, s)
  {
    var table := front + Terminated(s) + tail;
    assert forall i | 0 <= i <= |s| :: table[|front| + i] == Terminated(s)[i];
  }

  function Five(a: seq<byte>, b: seq<byte>, c: seq<byte>, d: seq<byte>, e: seq<byte>): seq<byte> { a + b + c + d + e }

  /** Each of five strings is found behind those before it. */
  lemma FiveStrings(a: string, b: string, c: string, d: string, e: string)
    requires Ascii(a) && Ascii(b) && Ascii(c) && Ascii(d) && Ascii(e)
    ensures var table := Five(Terminated(a), Terminated(b), Terminated(c), Terminated(d), Terminated(e));
            var to1, to2, to3 := |a| + 1, |a| + |b| + 2, |a| + |b| + |c| + 3;
            && IsString(table, 0, a) && IsString(table, to1, b) && IsString(table, to2, c) && IsString(table, to3, d)
            && IsString(table, to3 + |d| + 1, e)
  {
    var a', b', c', d', e' := Terminated(a), Terminated(b), Terminated(c), Terminated(d), Terminated(e);
    hide Terminated, IsString, Ascii;
    StringBehind([], a, b' + c' + d' + e');
    StringBehind(a', b, c' + d' + e');
    StringBehind(a' + b', c, d' + e');
    StringBehind(a' + b' + c', d, e');
    StringBehind(a' + b' + c' + d', e, []);
    var table := Five(a', b', c', d', e');
    assert table == [] + a' + (b' + c' + d' + e') == a' + b' + (c' + d' + e') == a' + b' + c' + (d' + e');
    assert table == a' + b' + c' + d' + e' + [];
  }

  lemma SectionName(i: nat)
    requires i < 5
    ensures IsString(SectionStrings(), NameAt(i), SectionNameOf(i))
  {
    FiveStrings("", ".text", ".symtab", ".strtab", ".shstrtab");
    hide Terminated, IsString;
  }

  /** Section i as its ten words say, its name apart. */
  lemma SectionFields(raw: seq<byte>, symbols: seq<Symbol>, i: nat)
    requires Layout(raw, symbols) && i < 5
    ensures 84 + 40 * i + 40 <= |raw|
    ensures var s, at := SectionOf(|symbols|, i), 84 + 40 * i;
            && s.index == i && s.name == SectionNameOf(i) && U32(raw, at) == NameAt(i)
            && s.kind == U32(raw, at + 4) && s.flags == U32(raw, at + 8) && s.vma == U32(raw, at + 12)
            && s.offset == U32(raw, at + 16) && s.size == U32(raw, at + 20) && s.link == U32(raw, at + 24)
            && s.entsize == U32(raw, at + 36)
  {
    LayoutFits(raw, symbols);
    RowFits(|symbols|, i);
    hide U32, Layout, RowWords, SectionOf, NameAt, SectionNameOf;
    RowWord(raw, symbols, i, 0);
    RowWord(raw, symbols, i, 1);
    RowWord(raw, symbols, i, 2);
    RowWord(raw, symbols, i, 3);
    RowWord(raw, symbols, i, 4);
    RowWord(raw, symbols, i, 5);
    RowWord(raw, symbols, i, 6);
    RowWord(raw, symbols, i, 9);
  }

  lemma RowFits(n: nat, i: nat)
    requires i < 5 && StringsAt(n) + FUNCTIONS + 34 <= LIMIT
    ensures var s, ws := SectionOf(n, i), RowWords(n, i);
            && s.index == i && s.name == SectionNameOf(i) && ws[0] == NameAt(i) && ws[1] == s.kind && ws[2] == s.flags
            && ws[3] == s.vma && ws[4] == s.offset && ws[5] == s.size && ws[6] == s.link && ws[9] == s.entsize
  {
  }

  lemma LayoutFits(raw: seq<byte>, symbols: seq<Symbol>)
    requires Layout(raw, symbols)
    ensures StringsAt(|symbols|) + FUNCTIONS + 34 == |raw| <= LIMIT
  {
  }

  lemma SectionsAreRead(raw: seq<byte>, symbols: seq<Symbol>)
    requires Layout(raw, symbols)
    ensures SectionTable(raw, 84, SectionStrings(), SectionsOf(|symbols|))
  {
    LayoutFits(raw, symbols);
    forall i | 0 <= i < 5
      ensures SectionEntry(raw, 84 + 40 * i, SectionStrings(), i, SectionsOf(|symbols|)[i])
    {
      SectionFields(raw, symbols, i);
      SectionName(i);
      hide U32, Layout, IsString, SectionStrings;
    }
  }

  // ----- the load segment -----

  lemma LoadIsRead(raw: seq<byte>, symbols: seq<Symbol>)
    requires Layout(raw, symbols)
    ensures LoadTable(raw, 52, 1, [Load(CODE_AT, VMA, 0, CODE)])
  {
    var ws, l := ProgramWords(), Load(CODE_AT, VMA, 0, CODE);
    assert ws[0] == LOAD && ws[1] == l.offset && ws[2] == l.vma && ws[3] == l.lma && ws[4] == ws[5] == l.size;
    ProgramWord(raw, symbols, 0);
    ProgramWord(raw, symbols, 1);
    ProgramWord(raw, symbols, 2);
    ProgramWord(raw, symbols, 3);
    ProgramWord(raw, symbols, 4);
    ProgramWord(raw, symbols, 5);
    LayoutFits(raw, symbols);
    hide U32, Layout, ProgramWords;
    assert [l][..0] == [];
  }

  lemma ProgramWord(raw: seq<byte>, symbols: seq<Symbol>, i: nat)
    requires Layout(raw, symbols) && i < 8
    ensures 52 + 4 * i + 4 <= |raw| && U32(raw, 52 + 4 * i) == ProgramWords()[i]
  {
    HeadHeader(|symbols|);
    assert U32(raw, 4 * (13 + i)) == Head(|symbols|)[13 + i];
    hide Head, ProgramWords, U32;
  }

  // ----- the symbols -----

  lemma SymbolNumbers(s: Symbol)
    requires Encodable(s)
    ensures SymbolWord(s, 0) == FUNCTIONS - |s.name| && SymbolWord(s, 1) == s.vma && SymbolWord(s, 2) == s.size
    ensures SymbolWord(s, 3) / 0x1_0000 / 256 == s.bind * 16 + s.kind && SymbolWord(s, 3) % 0x1_0000 == s.section
  {
  }

  lemma SymbolName(s: Symbol)
    requires Encodable(s)
    ensures IsString(Names(), FUNCTIONS - |s.name|, s.name)
  {
  }

  lemma SymbolIsRead(raw: seq<byte>, symbols: seq<Symbol>, i: nat)
    requires Layout(raw, symbols) && AllEncodable(symbols) && i < |symbols|
    ensures SYMBOLS_AT + 16 * i + 16 <= |raw|
    ensures SymbolEntry(raw, SYMBOLS_AT + 16 * i, Names(), symbols[i])
  {
    var s, at := symbols[i], SYMBOLS_AT + 16 * i;
    SymbolNumbers(s);
    SymbolName(s);
    assert U32(raw, at + 4 * 0) == SymbolWord(s, 0) && U32(raw, at + 4 * 1) == SymbolWord(s, 1);
    assert U32(raw, at + 4 * 2) == SymbolWord(s, 2) && U32(raw, at + 4 * 3) == SymbolWord(s, 3);
    WordParts(raw, at + 12);
    hide U32, U16, Layout, IsString, SymbolWord, Names;
  }

  lemma SymbolsAreRead(raw: seq<byte>, symbols: seq<Symbol>)
    requires Layout(raw, symbols) && AllEncodable(symbols)
    ensures Listed(raw, SectionsOf(|symbols|), 5, symbols)
  {
    var n, sections := |symbols|, SectionsOf(|symbols|);
    forall i | 0 <= i < n
      ensures SymbolEntry(raw, SYMBOLS_AT + 16 * i, Names(), symbols[i])
    {
      SymbolIsRead(raw, symbols, i);
    }
    assert symbols[..0] == [] && symbols[0..] == symbols;
    NoneListed(raw, n);
    LayoutFits(raw, symbols);
    assert TableShape(raw, sections, sections[2]) && NamesOf(raw, sections, sections[2]) == Names();
    assert SymbolTable(raw, SYMBOLS_AT, Names(), symbols);
    hide U32, U16, SymbolEntry, Names;
    assert Listed(raw, sections, 3, symbols);
  }

  lemma NoneListed(raw: seq<byte>, n: nat)
    ensures Listed(raw, SectionsOf(n), 2, [])
  {
    var sections := SectionsOf(n);
    assert sections[0].kind != SYMTAB && sections[1].kind != SYMTAB;
    assert Listed(raw, sections, 0, []);
    hide SectionsOf;
    assert Listed(raw, sections, 1, []);
  }

  lemma AllEncode(others: seq<Symbol>)
    requires AllEncodable(others)
    ensures AllEncodable(SymbolsOf(others))
  {
    forall i | 0 <= i < |SymbolsOf(others)|
      ensures Encodable(SymbolsOf(others)[i])
    {
      if i >= FUNCTIONS {
        assert Encodable(others[i - FUNCTIONS]);
      }
    }
  }

  /** The file's bytes say exactly what the reference value holds, so the tool reads that value. */
  lemma FileIsRead(others: seq<Symbol>)
    requires AllEncodable(others) && |File(others)| <= LIMIT
    ensures Parse(File(others)) == Ok(Reference(others))
  {
    var raw, symbols := File(others), SymbolsOf(others);
    FileLayout(others);
    AllEncode(others);
    hide Encodable, AllEncodable;
    HeaderIsRead(raw, symbols);
    SectionsAreRead(raw, symbols);
    LoadIsRead(raw, symbols);
    SymbolsAreRead(raw, symbols);
    hide Layout, U16, U32, File, SectionTable, LoadTable, Listed, HeaderOk, SectionNames, Describes;
    DescribesTables(raw, Reference(others));
    ParseDescribes(raw, Reference(others));
  }
}
