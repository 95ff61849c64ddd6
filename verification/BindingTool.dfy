// The lookup, freeze, check and resolve loops of the binding tool, proved against ElfModel and Bindings.

module BindingTool {
  import opened Common
  import opened ElfModel
  import opened Bindings

  method FindPositives(elf: Elf, vma: nat, filter: Filter) returns (r: Result<seq<Found>>)
    ensures r == Positives(elf, vma, filter, |elf.symbols|)
  {
    var found: seq<Found> := [];
    for n := 0 to |elf.symbols|
      invariant Positives(elf, vma, filter, n) == Ok(found)
    {
      var symbol := elf.symbols[n];
      if symbol.vma != vma || symbol.kind != FUNC || symbol.size == 0 {
        assert found + [] == found;
        continue;
      }
      if !(0 < symbol.section < |elf.sections|) {
        RejectedStaysRejected(elf, vma, filter, n + 1);
        return Err;
      }
      var section := elf.sections[symbol.section];
      if filter.Named? && section.name != filter.name {
        assert found + [] == found;
        continue;
      }
      if !Acceptable(symbol, section) {
        RejectedStaysRejected(elf, vma, filter, n + 1);
        return Err;
      }
      found := found + [Found(symbol, section)];
    }
    return Ok(found);
  }

  lemma {:induction false} RejectedStaysRejected(elf: Elf, vma: nat, filter: Filter, n: nat)
    requires n <= |elf.symbols| && Positives(elf, vma, filter, n).Err?
    ensures Positives(elf, vma, filter, |elf.symbols|).Err?
    decreases |elf.symbols| - n
  {
    if n < |elf.symbols| {
      RejectedStaysRejected(elf, vma, filter, n + 1);
    }
  }

  method FindFunction(elf: Elf, vma: int, filter: Filter) returns (r: Result<Found>)
    ensures r == TheFunction(elf, vma, filter)
  {
    if vma < 0 {
      return Err;
    }
    var found := FindPositives(elf, vma, filter);
    if found.Err? || |found.value| != 1 {
      return Err;
    }
    return Ok(found.value[0]);
  }

  method Freeze(env: Env, reference: seq<byte>, rom: seq<byte>, m: NameMap,
                referenceSha: string) returns (r: Result<Policy>)
    ensures r == FreezePolicy(env, reference, rom, m, referenceSha)
  {
    if !NameMapOk(m) || !IsDigest(referenceSha) || env.hash(reference) != referenceSha || env.hash(rom) != m.romSha {
      return Err;
    }
    var parsed := Parse(reference);
    if parsed.Err? {
      return Err;
    }
    var rows := FreezeLoop(env, parsed.value, rom, m.functions);
    if rows.Err? {
      return Err;
    }
    return Ok(Policy(1, env.hash(rom), env.hash(reference), env.hash(env.encode(m)), rows.value));
  }

  method FreezeFunction(env: Env, elf: Elf, rom: seq<byte>, source: Name) returns (row: Result<Row>)
    ensures row == FreezeOne(env, elf, rom, source)
  {
    var found := FindFunction(elf, source.vma, AnySection);
    hide TheFunction, FunctionBytes, RomOffset;
    if found.Err? {
      return Err;
    }
    var f := found.value;
    var code, offset := FunctionBytes(elf, f), RomOffset(elf, f);
    if code.Err? || offset.Err? || !(0 <= offset.value && offset.value + |code.value| <= |rom|)
       || rom[offset.value..offset.value + |code.value|] != code.value {
      return Err;
    }
    return Ok(Row(source.name, f.symbol.vma, f.symbol.size, f.section.name, f.symbol.name, env.hash(code.value)));
  }

  method FreezeLoop(env: Env, elf: Elf, rom: seq<byte>, names: seq<Name>) returns (r: Result<seq<Row>>)
    ensures r == FreezeRows(env, elf, rom, names)
  {
    hide FreezeOne;
    var rows: seq<Row> := [];
    assert names[..0] == [];
    for n := 0 to |names|
      invariant FreezeRows(env, elf, rom, names[..n]) == Ok(rows)
    {
      assert names[..n + 1][..n] == names[..n];
      var source := names[n];
      var row := FreezeFunction(env, elf, rom, source);
      var apart := row.Ok?;
      for i := 0 to |rows|
        invariant apart <==> row.Ok? && forall k | 0 <= k < i ::
                    Apart(row.value.vma, row.value.size, rows[k].vma, rows[k].vma + rows[k].size)
      {
        apart := apart && Apart(row.value.vma, row.value.size, rows[i].vma, rows[i].vma + rows[i].size);
      }
      if !apart {
        FreezeStaysRejected(env, elf, rom, names, n + 1);
        return Err;
      }
      rows := rows + [row.value];
    }
    assert names[..|names|] == names;
    return Ok(rows);
  }

  lemma {:induction false} FreezeStaysRejected(env: Env, elf: Elf, rom: seq<byte>, names: seq<Name>, n: nat)
    requires n <= |names| && FreezeRows(env, elf, rom, names[..n]).Err?
    ensures FreezeRows(env, elf, rom, names).Err?
    decreases |names| - n
  {
    if n < |names| {
      assert names[..n + 1][..n] == names[..n];
      FreezeStaysRejected(env, elf, rom, names, n + 1);
    } else {
      assert names[..n] == names;
    }
  }

  method CheckPolicy(p: Policy) returns (ok: bool)
    ensures ok <==> PolicyOk(p)
  {
    var digests := IsDigest(p.romSha) && IsDigest(p.elfSha) && IsDigest(p.mapSha);
    if !(p.schema == 1 && digests && |p.functions| == ORIGINALS) {
      return false;
    }
    var rows := p.functions;
    hide RowOk, IsDigest, Apart, RowsDistinct;
    for n := 0 to |rows|
      invariant forall k | 0 <= k < n :: RowOk(rows[k])
      invariant RowsApart(rows[..n])
    {
      if !RowOk(rows[n]) {
        assert rows[n] in p.functions;
        return false;
      }
      for i := 0 to n
        invariant forall k | 0 <= k < i :: Apart(rows[n].vma, rows[n].size, rows[k].vma, rows[k].vma + rows[k].size)
      {
        if !Apart(rows[n].vma, rows[n].size, rows[i].vma, rows[i].vma + rows[i].size) {
          return false;
        }
      }
    }
    assert rows[..|rows|] == rows;
    return RowsDistinct(rows);
  }

  method Resolve(env: Env, target: seq<byte>, policy: Policy) returns (r: Result<seq<Binding>>)
    ensures r == ResolveBindings(env, target, policy)
  {
    var ok := CheckPolicy(policy);
    if !ok {
      return Err;
    }
    var parsed := Parse(target);
    if parsed.Err? {
      return Err;
    }
    r := ResolveLoop(env, parsed.value, policy.functions);
  }

  method ResolveLoop(env: Env, elf: Elf, rows: seq<Row>) returns (r: Result<seq<Binding>>)
    ensures var all := ResolveRows(env, elf, rows);
            r == if all.Ok? && |all.value.1| == ORIGINALS then Ok(all.value.0) else Err
  {
    var bindings: seq<Binding> := [];
    var used: set<(nat, int)> := {};
    assert rows[..0] == [];
    for n := 0 to |rows|
      invariant ResolveRows(env, elf, rows[..n]) == Ok((bindings, used))
    {
      assert rows[..n + 1][..n] == rows[..n];
      var one := ResolveOne(env, elf, rows[n]);
      if one.Err? || one.value.1 in used {
        ResolveStaysRejected(env, elf, rows, n + 1);
        return Err;
      }
      used := used + {one.value.1};
      bindings := bindings + [one.value.0];
    }
    assert rows[..|rows|] == rows;
    if |used| != ORIGINALS {
      return Err;
    }
    return Ok(bindings);
  }

  lemma {:induction false} ResolveStaysRejected(env: Env, elf: Elf, rows: seq<Row>, n: nat)
    requires n <= |rows| && ResolveRows(env, elf, rows[..n]).Err?
    ensures ResolveRows(env, elf, rows).Err?
    decreases |rows| - n
  {
    if n < |rows| {
      assert rows[..n + 1][..n] == rows[..n];
      ResolveStaysRejected(env, elf, rows, n + 1);
    } else {
      assert rows[..n] == rows;
    }
  }
}
