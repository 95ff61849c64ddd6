// Which function stands at an address, and where it lies in the ROM: conditions on the tables alone.

module ElfFunctions {
  import opened ElfModel
  import Policies

  // ----- functions -----

  /** A function symbol of that address with a size: type STT_FUNC. */
  predicate IsFunction(s: Symbol, vma: nat) { s.vma == vma && s.kind == 2 && s.size > 0 }

  predicate Wanted(filter: Filter, x: Section) { filter == AnySection || filter == Named(x.name) }

  /** Global, of 1 to 16384 whole instructions that lie in the section; the section is SHT_PROGBITS, its flags include
      SHF_ALLOC and SHF_EXECINSTR. */
  predicate Proper(s: Symbol, x: Section) {
    && s.bind == 1 && x.kind == 1 && x.flags % 8 >= 6
    && s.size <= 4 * 16384 && s.size % 4 == 0 && s.vma % 4 == 0
    && x.vma <= s.vma && s.vma + s.size <= x.vma + x.size && Policies.Lettered(s.name)
  }

  lemma FlagsIff(flags: nat)
    ensures HasFlag(flags, 2) && HasFlag(flags, 4) <==> flags % 8 >= 6
  {
    var high, low := flags / 8, flags % 8;
    assert flags == 8 * high + low;
    assert flags / 4 == 2 * high + low / 4 && flags / 2 == 4 * high + low / 2;
  }

  lemma ProperIff(s: Symbol, x: Section)
    ensures Acceptable(s, x) <==> Proper(s, x)
  {
    Policies.IdentifierIff(s.name);
    FlagsIff(x.flags);
    hide IsIdentifier, Policies.Lettered, HasFlag;
  }

  /** The function of symbol i, in its section. */
  ghost predicate FunctionOf(elf: Elf, i: nat, vma: nat, filter: Filter, f: Found)
    requires i < |elf.symbols|
  {
    var s := elf.symbols[i];
    && IsFunction(s, vma) && 0 < s.section < |elf.sections|
    && f == Found(s, elf.sections[s.section]) && Wanted(filter, f.section) && Proper(s, f.section)
  }

  /** Symbol i is no function there, or one of a section that is not searched. */
  ghost predicate Passed(elf: Elf, i: nat, vma: nat, filter: Filter)
    requires i < |elf.symbols|
  {
    var s := elf.symbols[i];
    IsFunction(s, vma) ==> 0 < s.section < |elf.sections| && !Wanted(filter, elf.sections[s.section])
  }

  lemma ConsiderIff(elf: Elf, i: nat, vma: nat, filter: Filter)
    requires i < |elf.symbols|
    ensures var r := Consider(elf, elf.symbols[i], vma, filter);
            && (r == Ok([]) <==> Passed(elf, i, vma, filter))
            && (forall f :: r == Ok([f]) <==> FunctionOf(elf, i, vma, filter, f))
            && (r.Ok? ==> r.value == [] || r == Ok([r.value[0]]))
  {
    var s := elf.symbols[i];
    if 0 < s.section < |elf.sections| {
      ProperIff(s, elf.sections[s.section]);
    }
    hide Acceptable, Proper;
    forall f
      ensures Consider(elf, s, vma, filter) == Ok([f]) <==> FunctionOf(elf, i, vma, filter, f)
    {
      if 0 < s.section < |elf.sections| {
        OneEach(Found(s, elf.sections[s.section]), f);
      }
    }
  }

  lemma OneEach<T>(a: T, b: T)
    ensures [a] == [b] <==> a == b && [a] != []
  {
    assert [a][0] == a && [b][0] == b;
  }

  ghost predicate AllPassed(elf: Elf, n: nat, vma: nat, filter: Filter)
    requires n <= |elf.symbols|
  {
    forall i | 0 <= i < n :: Passed(elf, i, vma, filter)
  }

  /** Symbol i alone gives the function, among the first n. */
  ghost predicate Alone(elf: Elf, n: nat, i: nat, vma: nat, filter: Filter, f: Found)
    requires i < n <= |elf.symbols|
  {
    FunctionOf(elf, i, vma, filter, f) && forall j | 0 <= j < n && j != i :: Passed(elf, j, vma, filter)
  }

  ghost predicate OneAlone(elf: Elf, n: nat, vma: nat, filter: Filter, f: Found)
    requires n <= |elf.symbols|
  {
    exists i | 0 <= i < n :: Alone(elf, n, i, vma, filter, f)
  }

  lemma {:induction false} SearchIsEmpty(elf: Elf, vma: nat, filter: Filter, n: nat)
    requires n <= |elf.symbols|
    ensures Positives(elf, vma, filter, n) == Ok([]) <==> AllPassed(elf, n, vma, filter)
  {
    if n > 0 {
      SearchIsEmpty(elf, vma, filter, n - 1);
      ConsiderIff(elf, n - 1, vma, filter);
      SearchStep(elf, vma, filter, n);
      hide Consider, Passed, FunctionOf, Positives;
    }
  }

  lemma SearchStep(elf: Elf, vma: nat, filter: Filter, n: nat)
    requires 0 < n <= |elf.symbols|
    ensures var front, r := Positives(elf, vma, filter, n - 1), Positives(elf, vma, filter, n);
            var more := Consider(elf, elf.symbols[n - 1], vma, filter);
            && (r == Ok([]) <==> front == Ok([]) && more == Ok([]))
            && (r.Ok? <==> front.Ok? && more.Ok?) && (r.Ok? ==> r.value == front.value + more.value)
  {
    var front, r := Positives(elf, vma, filter, n - 1), Positives(elf, vma, filter, n);
    var more := Consider(elf, elf.symbols[n - 1], vma, filter);
    assert r.Ok? <==> front.Ok? && more.Ok?;
    assert r.Ok? ==> r.value == front.value + more.value;
    hide *;
    if r.Ok? {
      BothEmpty(front.value, more.value);
    }
  }

  lemma BothEmpty<T>(a: seq<T>, b: seq<T>)
    ensures a + b == [] <==> a == [] && b == []
  {
    assert |a + b| == |a| + |b|;
  }

  lemma Split<T>(front: seq<T>, more: seq<T>, x: T)
    requires more == [] || more == [more[0]]
    ensures front + more == [x] <==> (front == [x] && more == []) || (front == [] && more == [x])
  {
    if front + more == [x] {
      assert |front| + |more| == 1;
      if more == [] {
        assert front + more == front;
      } else {
        assert front + more == more;
      }
    }
  }

  lemma {:induction false} SearchFindsOne(elf: Elf, vma: nat, filter: Filter, n: nat, f: Found)
    requires n <= |elf.symbols|
    ensures Positives(elf, vma, filter, n) == Ok([f]) <==> OneAlone(elf, n, vma, filter, f)
  {
    if n > 0 {
      SearchFindsOne(elf, vma, filter, n - 1, f);
      SearchIsEmpty(elf, vma, filter, n - 1);
      ConsiderIff(elf, n - 1, vma, filter);
      SearchStep(elf, vma, filter, n);
      FoundStep(elf, vma, filter, n, f);
    }
  }

  lemma FoundStep(elf: Elf, vma: nat, filter: Filter, n: nat, f: Found)
    requires 0 < n <= |elf.symbols|
    requires Positives(elf, vma, filter, n - 1) == Ok([f]) <==> OneAlone(elf, n - 1, vma, filter, f)
    requires Positives(elf, vma, filter, n - 1) == Ok([]) <==> AllPassed(elf, n - 1, vma, filter)
    ensures Positives(elf, vma, filter, n) == Ok([f]) <==> OneAlone(elf, n, vma, filter, f)
  {
    var front, r := Positives(elf, vma, filter, n - 1), Positives(elf, vma, filter, n);
    var more := Consider(elf, elf.symbols[n - 1], vma, filter);
    SearchStep(elf, vma, filter, n);
    ConsiderIff(elf, n - 1, vma, filter);
    hide Positives, Consider, Passed, FunctionOf;
    if r.Ok? {
      Split(front.value, more.value, f);
    }
    AloneStep(elf, vma, filter, n, f);
    NotBoth(elf, n - 1, vma, filter, f);
  }

  lemma NotBoth(elf: Elf, i: nat, vma: nat, filter: Filter, f: Found)
    requires i < |elf.symbols|
    ensures !(FunctionOf(elf, i, vma, filter, f) && Passed(elf, i, vma, filter))
  {
  }

  /** The function is that of an earlier symbol, and the last is passed over, or it is that of the last alone. */
  lemma AloneStep(elf: Elf, vma: nat, filter: Filter, n: nat, f: Found)
    requires 0 < n <= |elf.symbols|
    ensures OneAlone(elf, n, vma, filter, f) <==>
            || (OneAlone(elf, n - 1, vma, filter, f) && Passed(elf, n - 1, vma, filter))
            || (AllPassed(elf, n - 1, vma, filter) && FunctionOf(elf, n - 1, vma, filter, f))
  {
    hide Passed, FunctionOf;
    if OneAlone(elf, n - 1, vma, filter, f) && Passed(elf, n - 1, vma, filter) {
      var m := n - 1;
      var i :| 0 <= i < m && Alone(elf, m, i, vma, filter, f);
      assert Alone(elf, n, i, vma, filter, f);
    }
    if AllPassed(elf, n - 1, vma, filter) && FunctionOf(elf, n - 1, vma, filter, f) {
      assert Alone(elf, n, n - 1, vma, filter, f);
    }
    if OneAlone(elf, n, vma, filter, f) {
      var i :| 0 <= i < n && Alone(elf, n, i, vma, filter, f);
      if i < n - 1 {
        assert Alone(elf, n - 1, i, vma, filter, f);
      }
    }
  }

  /** A search finds one function exactly when one symbol alone is a proper function of a searched section at the
      address, and no other symbol is a function there but in sections that are not searched. */
  lemma OneFunctionIff(elf: Elf, vma: nat, filter: Filter, f: Found)
    ensures Positives(elf, vma, filter, |elf.symbols|) == Ok([f]) <==>
            OneAlone(elf, |elf.symbols|, vma, filter, f)
  {
    SearchFindsOne(elf, vma, filter, |elf.symbols|, f);
  }

  // ----- the ROM -----

  /** The segment holds the function at the same distance from its start in the file as in memory. */
  ghost predicate Holds(l: Load, f: Found) {
    var d := f.symbol.vma - l.vma;
    d >= 0 && f.section.offset + f.symbol.vma - f.section.vma == l.offset + d && d + f.symbol.size <= l.size
  }

  lemma HoldsIff(l: Load, f: Found)
    ensures Maps(l, f) <==> Holds(l, f)
  {
  }

  ghost predicate NoneHolds(loads: seq<Load>, f: Found) { forall i | 0 <= i < |loads| :: !Holds(loads[i], f) }

  ghost predicate OnlyHolds(loads: seq<Load>, f: Found, i: nat)
    requires i < |loads|
  {
    Holds(loads[i], f) && forall j | 0 <= j < |loads| && j != i :: !Holds(loads[j], f)
  }

  lemma {:induction false} MappingIsEmpty(loads: seq<Load>, f: Found)
    ensures MappingLoads(loads, f) == [] <==> NoneHolds(loads, f)
  {
    if loads != [] {
      var n := |loads| - 1;
      MappingIsEmpty(loads[..n], f);
      HoldsIff(loads[n], f);
      hide Maps, Holds;
      assert NoneHolds(loads, f) <==> NoneHolds(loads[..n], f) && !Holds(loads[n], f);
    }
  }

  lemma {:induction false} MappingIsOne(loads: seq<Load>, f: Found, l: Load)
    ensures MappingLoads(loads, f) == [l] <==> exists i | 0 <= i < |loads| :: loads[i] == l && OnlyHolds(loads, f, i)
  {
    if loads != [] {
      var n := |loads| - 1;
      MappingIsOne(loads[..n], f, l);
      MappingIsEmpty(loads[..n], f);
      HoldsIff(loads[n], f);
      Split(MappingLoads(loads[..n], f), if Maps(loads[n], f) then [loads[n]] else [], l);
      OneEach(loads[n], l);
      OnlyStep(loads, f, l);
      hide Maps, Holds, NoneHolds, OnlyHolds;
    }
  }

  lemma OnlyStep(loads: seq<Load>, f: Found, l: Load)
    requires loads != []
    ensures var n := |loads| - 1;
            (exists i | 0 <= i < |loads| :: loads[i] == l && OnlyHolds(loads, f, i)) <==>
            || ((exists i | 0 <= i < n :: loads[..n][i] == l && OnlyHolds(loads[..n], f, i)) && !Holds(loads[n], f))
            || (NoneHolds(loads[..n], f) && Holds(loads[n], f) && loads[n] == l)
  {
    var n := |loads| - 1;
    hide Holds;
    if i: nat :| i < n && loads[..n][i] == l && OnlyHolds(loads[..n], f, i) && !Holds(loads[n], f) {
      assert forall j | 0 <= j < |loads| && j != i :: j < n ==> loads[j] == loads[..n][j];
      assert OnlyHolds(loads, f, i);
    }
    if NoneHolds(loads[..n], f) && Holds(loads[n], f) && loads[n] == l {
      assert forall j | 0 <= j < n :: loads[j] == loads[..n][j];
      assert OnlyHolds(loads, f, n);
    }
    if i: nat :| i < |loads| && loads[i] == l && OnlyHolds(loads, f, i) {
      if i < n {
        assert OnlyHolds(loads[..n], f, i) && loads[..n][i] == l;
      }
    }
  }

  /** The ROM offset is there exactly when one segment alone holds the function: as far into its load addresses as the
      function is into its memory. */
  lemma RomOffsetIff(elf: Elf, f: Found, offset: int)
    ensures RomOffset(elf, f) == Ok(offset) <==>
            exists i | 0 <= i < |elf.loads| ::
              OnlyHolds(elf.loads, f, i) && offset - elf.loads[i].lma == f.symbol.vma - elf.loads[i].vma
  {
    var loads := MappingLoads(elf.loads, f);
    if |loads| == 1 {
      assert loads == [loads[0]];
      MappingIsOne(elf.loads, f, loads[0]);
      hide MappingLoads, OnlyHolds;
      forall i: nat | i < |elf.loads| && OnlyHolds(elf.loads, f, i)
        ensures elf.loads[i] == loads[0]
      {
        MappingIsOne(elf.loads, f, elf.loads[i]);
      }
    } else {
      hide MappingLoads, OnlyHolds;
      forall i: nat | i < |elf.loads| && OnlyHolds(elf.loads, f, i)
        ensures false
      {
        MappingIsOne(elf.loads, f, elf.loads[i]);
      }
    }
  }
}
