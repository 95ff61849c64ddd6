// The clear, move and interleave handlers as the command loop meets them: when they spare the fetch state.

module AspHandlers {
  import opened Common
  import C = AspCommands
  import B = AspBuffers
  import AspCopies
  import AspMixes

  type Machine<X> = C.Machine<X>

  const HALF: int := 0x1_0000
  const PARAMS: nat := 0x360

  /** The handler changes DMEM alone, apart from what is no concern of the loop. */
  ghost predicate OnlyDmem<X>(m: Machine<X>, m': Machine<X>) {
    m' == m.(dmem := m'.dmem, other := m'.other)
  }

  function ClearStart(c: C.Command): nat { c.w0 % HALF + B.BASE }

  function MoveFrom(c: C.Command): nat { c.w0 % HALF + B.BASE }

  function MoveTo(c: C.Command): nat { c.w1 / HALF % HALF + B.BASE }

  function Lines(c: C.Command): nat { B.Passes(c.w1 % HALF) }

  function Half(dmem: seq<byte>, at: nat): nat
    requires at + 2 <= |dmem|
  {
    dmem[at] as int * 256 + dmem[at + 1] as int
  }

  /** The output and the count of an interleave stand in DMEM, where an earlier command has put them. */
  function OutOf(dmem: seq<byte>): nat
    requires |dmem| == B.DMEM_SIZE
  {
    Half(dmem, PARAMS + 2)
  }

  function CountOf(dmem: seq<byte>): nat
    requires |dmem| == B.DMEM_SIZE
  {
    Half(dmem, PARAMS + 4)
  }

  /** What L_11DC does with a command. */
  ghost predicate Clears<X>(m: Machine<X>, m': Machine<X>, c: C.Command)
    requires |m.dmem| == B.DMEM_SIZE
  {
    OnlyDmem(m, m') && m'.dmem == B.Cleared(m.dmem, ClearStart(c), 16 * Lines(c))
  }

  /** What L_140C does with a command. */
  ghost predicate Moves<X>(m: Machine<X>, m': Machine<X>, c: C.Command)
    requires |m.dmem| == B.DMEM_SIZE
  {
    OnlyDmem(m, m') && m'.dmem == B.Moved(m.dmem, MoveFrom(c), MoveTo(c), Lines(c))
  }

  function Weaved(dmem: seq<byte>, v1: seq<byte>, v2: seq<byte>, c: C.Command): (r: seq<byte>)
    requires |dmem| == B.DMEM_SIZE && |v1| == |v2| == 16
    ensures |r| == B.DMEM_SIZE
  {
    var left, right := c.w1 / HALF % HALF + B.BASE, c.w1 % HALF + B.BASE;
    B.Mixed(B.Mixer(dmem, v1, v2), left, right, OutOf(dmem), B.Passes(CountOf(dmem))).mem
  }

  /** What L_138C does with a command, whatever the vector registers held. */
  ghost predicate Weaves<X>(m: Machine<X>, m': Machine<X>, c: C.Command)
    requires |m.dmem| == B.DMEM_SIZE
  {
    OnlyDmem(m, m') && exists v1, v2 :: |v1| == |v2| == 16 && m'.dmem == Weaved(m.dmem, v1, v2, c)
  }

  // ----- operands -----

  /** The big-endian halfword at `at`. */
  predicate Halfword(mem: seq<byte>, at: nat, v: int)
    requires at + 2 <= |mem|
  {
    v / 256 == mem[at] as int && v % 256 == mem[at + 1] as int
  }

  lemma OneHalfword(mem: seq<byte>, at: nat, v: int, other: int)
    requires at + 2 <= |mem| && Halfword(mem, at, v) && Halfword(mem, at, other)
    ensures v == other
  {
  }

  lemma HalvesOfWord(w: int)
    requires 0 <= w < 0x1_0000_0000
    ensures var hi, lo := w / HALF % HALF, w % HALF;
            && hi / 256 == w / 0x100_0000 && hi % 256 == w / 0x1_0000 % 0x100
            && lo / 256 == w / 0x100 % 0x100 && lo % 256 == w % 0x100
  {
    var hi, lo := w / HALF, w % HALF;
    assert w == HALF * hi + lo && 0 <= hi < HALF;
    assert w / 0x100_0000 == hi / 256;
    assert w / 0x100 == 256 * hi + lo / 256;
  }

  lemma WordHalves(mem: seq<byte>, at: nat, w: int)
    requires at + 4 <= |mem| && C.BigEndian(mem, at, w)
    ensures Halfword(mem, at, w / HALF % HALF) && Halfword(mem, at + 2, w % HALF)
  {
    HalvesOfWord(w);
  }

  lemma HalfIsRead(dmem: seq<byte>, at: nat)
    requires at + 2 <= |dmem|
    ensures Halfword(dmem, at, Half(dmem, at))
  {
  }

  /** Operands of a command are halfwords of its eight bytes: the last is the count, rounded up to whole passes; the one
      before it the destination of a move, and the second the start of a clear and the source of a move. */
  lemma OperandsAreRead(rdram: seq<byte>, at: nat, c: C.Command, from: nat, to: nat, count: nat)
    requires at + 8 <= |rdram| && C.BigEndian(rdram, at, c.w0) && C.BigEndian(rdram, at + 4, c.w1)
    requires Halfword(rdram, at + 2, from) && Halfword(rdram, at + 4, to) && Halfword(rdram, at + 6, count)
    ensures ClearStart(c) == MoveFrom(c) == 0x5c0 + from && MoveTo(c) == 0x5c0 + to
    ensures 16 * Lines(c) - 16 < count <= 16 * Lines(c)
  {
    WordHalves(rdram, at, c.w0);
    WordHalves(rdram, at + 4, c.w1);
    OneHalfword(rdram, at + 2, from, c.w0 % HALF);
    OneHalfword(rdram, at + 4, to, c.w1 / HALF % HALF);
    OneHalfword(rdram, at + 6, count, c.w1 % HALF);
    hide Halfword, C.BigEndian;
  }

  /** Those of an interleave: its channels from the command, its output and count from where DMEM holds them. */
  lemma InterleaveOperandsAreRead(rdram: seq<byte>, at: nat, c: C.Command, left: nat, right: nat, dmem: seq<byte>,
                                  out: nat, count: nat, v1: seq<byte>, v2: seq<byte>)
    requires at + 8 <= |rdram| && C.BigEndian(rdram, at + 4, c.w1)
    requires Halfword(rdram, at + 4, left) && Halfword(rdram, at + 6, right)
    requires |dmem| == B.DMEM_SIZE && |v1| == |v2| == 16 && Halfword(dmem, 0x362, out) && Halfword(dmem, 0x364, count)
    ensures OutOf(dmem) == out && CountOf(dmem) == count
    ensures Weaved(dmem, v1, v2, c) ==
            B.Mixed(B.Mixer(dmem, v1, v2), 0x5c0 + left, 0x5c0 + right, out, (count + 15) / 16).mem
  {
    WordHalves(rdram, at + 4, c.w1);
    OneHalfword(rdram, at + 4, left, c.w1 / HALF % HALF);
    OneHalfword(rdram, at + 6, right, c.w1 % HALF);
    HalfIsRead(dmem, 0x362);
    HalfIsRead(dmem, 0x364);
    OneHalfword(dmem, 0x362, out, OutOf(dmem));
    OneHalfword(dmem, 0x364, count, CountOf(dmem));
    hide Halfword, B.Mixed, C.BigEndian, Half;
  }

  // ----- the handlers -----

  predicate IsCommand(c: C.Command) { 0 <= c.w0 < 0x1_0000_0000 && 0 <= c.w1 < 0x1_0000_0000 }

  /** L_11DC on the words of a command. */
  method ClearHandler(dmem: array<byte>, c: C.Command)
    requires dmem.Length == B.DMEM_SIZE && IsCommand(c)
    modifies dmem
    ensures dmem[..] == B.Cleared(old(dmem[..]), ClearStart(c), 16 * Lines(c))
  {
    hide B.Cleared;
    var r3 := c.w1 % HALF;
    var r2 := c.w0 % HALF;
    var _ := B.Clear(dmem, r2, r3);
  }

  /** L_140C on the words of a command. */
  method MoveHandler(dmem: array<byte>, c: C.Command)
    requires dmem.Length == B.DMEM_SIZE && IsCommand(c)
    modifies dmem
    ensures dmem[..] == B.Moved(old(dmem[..]), MoveFrom(c), MoveTo(c), Lines(c))
  {
    hide B.Moved;
    var r1 := c.w1 % HALF;
    var r2 := c.w0 % HALF;
    var r3 := c.w1 / HALF;
    var _ := B.Move(dmem, r2, r3, r1);
  }

  /** L_138C on the words of a command, whatever the vector registers hold. */
  method InterleaveHandler(dmem: array<byte>, c: C.Command, v1: seq<byte>, v2: seq<byte>)
    requires dmem.Length == B.DMEM_SIZE && IsCommand(c) && |v1| == |v2| == 16
    modifies dmem
    ensures dmem[..] == Weaved(old(dmem[..]), v1, v2, c)
  {
    hide B.Mixed;
    var r1 := dmem[PARAMS + 4] as int * 256 + dmem[PARAMS + 5] as int;
    var r4 := dmem[PARAMS + 2] as int * 256 + dmem[PARAMS + 3] as int;
    var r3 := c.w1 % HALF;
    var r2 := c.w1 / HALF;
    var _, _, _ := B.Interleave(dmem, r2, r3, r4, r1, v1, v2);
  }

  /** None of the n bytes from `start` on is among the size bytes from `at` on. */
  predicate Misses(start: nat, n: nat, at: nat, size: nat) {
    forall j | at <= j < at + size :: !B.Covers(start, n, j)
  }

  predicate MissesBuffer(start: nat, n: nat) { Misses(start, n, C.BUFFER, C.CHUNK) }

  // ----- what each handler spares -----

  ghost predicate ClearSparesBuffer(start: nat, n: nat) {
    forall mem: seq<byte> | |mem| == B.DMEM_SIZE ::
      B.Cleared(mem, start, n)[C.BUFFER..C.BUFFER + C.CHUNK] == mem[C.BUFFER..C.BUFFER + C.CHUNK]
  }

  /** A clear spares the command buffer of every memory if and only if its range, wrapping around, misses it. */
  lemma ClearSparesBufferIff(start: nat, n: nat)
    ensures ClearSparesBuffer(start, n) <==> MissesBuffer(start, n)
  {
    hide B.Covers;
    if j :| C.BUFFER <= j < C.BUFFER + C.CHUNK && B.Covers(start, n, j) {
      var mem: seq<byte> := seq(B.DMEM_SIZE, _ => 1);
      AspCopies.SliceDiffers(B.Cleared(mem, start, n), mem, C.BUFFER, C.CHUNK, j);
    }
  }

  /** A move spares the command buffer of every memory if and only if each byte of it is its own source: for a move of
      at most half of DMEM, if and only if its destination misses the buffer or is its source. */
  lemma MoveSparesBufferIff(from: nat, to: nat, lines: nat)
    ensures AspCopies.Keeps(from, to, lines, C.BUFFER, C.CHUNK) <==>
            forall j | C.BUFFER <= j < C.BUFFER + C.CHUNK :: AspCopies.Source(from, to, lines, j) == j
    ensures 32 * lines <= B.DMEM_SIZE ==>
              (AspCopies.Keeps(from, to, lines, C.BUFFER, C.CHUNK) <==>
               AspCopies.Gap(from, to) == 0 || MissesBuffer(to, 16 * lines))
  {
    AspCopies.MoveKeepsIff(from, to, lines, C.BUFFER, C.CHUNK);
    if 32 * lines <= B.DMEM_SIZE {
      AspCopies.ShortMoveKeepsIff(from, to, lines, C.BUFFER, C.CHUNK);
    }
    hide AspCopies.Keeps, AspCopies.Source, AspCopies.Gap, B.Covers;
  }

  lemma ClearRespects<X>(m: Machine<X>, m': Machine<X>, c: C.Command, list: nat, length: nat)
    requires |m.dmem| == B.DMEM_SIZE && C.InRdram(m.rdram, list, length) && Clears(m, m', c)
    requires MissesBuffer(ClearStart(c), 16 * Lines(c))
    ensures C.Respects(m, m', list, length)
  {
    ClearSparesBufferIff(ClearStart(c), 16 * Lines(c));
    hide MissesBuffer, B.Cleared;
  }

  lemma MoveRespects<X>(m: Machine<X>, m': Machine<X>, c: C.Command, list: nat, length: nat)
    requires |m.dmem| == B.DMEM_SIZE && C.InRdram(m.rdram, list, length) && Moves(m, m', c)
    requires AspCopies.Keeps(MoveFrom(c), MoveTo(c), Lines(c), C.BUFFER, C.CHUNK)
    ensures C.Respects(m, m', list, length)
  {
    hide B.Moved;
  }

  lemma InterleaveRespects<X>(m: Machine<X>, m': Machine<X>, c: C.Command, list: nat, length: nat)
    requires |m.dmem| == B.DMEM_SIZE && C.InRdram(m.rdram, list, length) && Weaves(m, m', c)
    requires MissesBuffer(OutOf(m.dmem), 32 * B.Passes(CountOf(m.dmem)))
    ensures C.Respects(m, m', list, length)
  {
    hide B.Covers, OutOf, CountOf, Weaved;
    forall j | C.BUFFER <= j < C.BUFFER + C.CHUNK
      ensures m'.dmem[j] == m.dmem[j]
    {
      WeavedElsewhere(m, m', c, j);
    }
  }

  lemma WeavedElsewhere<X>(m: Machine<X>, m': Machine<X>, c: C.Command, j: nat)
    requires |m.dmem| == B.DMEM_SIZE && Weaves(m, m', c) && j < B.DMEM_SIZE
    requires !B.Covers(OutOf(m.dmem), 32 * B.Passes(CountOf(m.dmem)), j)
    ensures |m'.dmem| == B.DMEM_SIZE && m'.dmem[j] == m.dmem[j]
  {
    hide B.Covers, OutOf, CountOf, B.Passes, Weaved;
    var v1, v2 :| |v1| == |v2| == 16 && m'.dmem == Weaved(m.dmem, v1, v2, c);
    WeavedByte(m.dmem, v1, v2, c, j);
  }

  lemma WeavedByte(dmem: seq<byte>, v1: seq<byte>, v2: seq<byte>, c: C.Command, j: nat)
    requires |dmem| == B.DMEM_SIZE && |v1| == |v2| == 16 && j < B.DMEM_SIZE
    requires !B.Covers(OutOf(dmem), 32 * B.Passes(CountOf(dmem)), j)
    ensures Weaved(dmem, v1, v2, c)[j] == dmem[j]
  {
    var left, right := c.w1 / HALF % HALF + B.BASE, c.w1 % HALF + B.BASE;
    var m, out, lines := B.Mixer(dmem, v1, v2), OutOf(dmem), B.Passes(CountOf(dmem));
    assert Weaved(dmem, v1, v2, c) == B.Mixed(m, left, right, out, lines).mem;
    hide *;
    AspMixes.MixedElsewhere(m, left, right, out, lines, j);
  }

  // ----- lists -----

  /** One of the three handlers at work where it spares the buffer, or any other that does. */
  ghost predicate SafeStep<X>(m: Machine<X>, m': Machine<X>, c: C.Command, list: nat, length: nat)
    requires |m.dmem| == B.DMEM_SIZE && C.InRdram(m.rdram, list, length)
  {
    || (Clears(m, m', c) && MissesBuffer(ClearStart(c), 16 * Lines(c)))
    || (Moves(m, m', c) && AspCopies.Keeps(MoveFrom(c), MoveTo(c), Lines(c), C.BUFFER, C.CHUNK))
    || (Weaves(m, m', c) && MissesBuffer(OutOf(m.dmem), 32 * B.Passes(CountOf(m.dmem))))
    || C.Respects(m, m', list, length)
  }

  lemma SafeStepRespects<X>(m: Machine<X>, m': Machine<X>, c: C.Command, list: nat, length: nat)
    requires |m.dmem| == B.DMEM_SIZE && C.InRdram(m.rdram, list, length) && SafeStep(m, m', c, list, length)
    ensures C.Respects(m, m', list, length)
  {
    hide C.Respects, Clears, Moves, Weaves, MissesBuffer, AspCopies.Keeps;
    if Clears(m, m', c) && MissesBuffer(ClearStart(c), 16 * Lines(c)) {
      ClearRespects(m, m', c, list, length);
    } else if Moves(m, m', c) && AspCopies.Keeps(MoveFrom(c), MoveTo(c), Lines(c), C.BUFFER, C.CHUNK) {
      MoveRespects(m, m', c, list, length);
    } else if Weaves(m, m', c) && MissesBuffer(OutOf(m.dmem), 32 * B.Passes(CountOf(m.dmem))) {
      InterleaveRespects(m, m', c, list, length);
    }
  }

  /** In its setting the command is safe, and it makes the next setting. */
  ghost predicate SafeCommand<X(!new)>(handle: (Machine<X>, C.Command) -> Machine<X>, setting: C.Setting<X>,
                                       rdram: seq<byte>, list: nat, length: nat, k: nat)
    requires C.InRdram(rdram, list, length) && k < C.Count(length)
  {
    forall m: Machine<X> | |m.dmem| == B.DMEM_SIZE && |m.rdram| == |rdram| && setting(m, k) ::
      var c := C.CommandAt(rdram, list, length, k);
      SafeStep(m, handle(m, c), c, list, length) && setting(handle(m, c), k + 1)
  }

  /** A list of safe commands meets what the command loop asks of its handlers. */
  lemma SafeListsAreServed<X(!new)>(handle: (Machine<X>, C.Command) -> Machine<X>, setting: C.Setting<X>,
                                    rdram: seq<byte>, list: nat, length: nat)
    requires C.InRdram(rdram, list, length) && C.Indifferent(setting)
    requires forall k: nat | k < C.Count(length) :: SafeCommand(handle, setting, rdram, list, length, k)
    ensures C.HandlersOk(handle, setting, rdram, list, length)
  {
    hide C.Respects, SafeStep, C.CommandAt, C.Count, C.Indifferent;
    forall m: Machine<X>, k: nat | k < C.Count(length)
      ensures C.ServedAt(handle, setting, rdram, list, length, m, k)
    {
      assert SafeCommand(handle, setting, rdram, list, length, k);
      if |m.dmem| == C.DMEM_SIZE && |m.rdram| == |rdram| && setting(m, k) {
        var c := C.CommandAt(rdram, list, length, k);
        SafeStepRespects(m, handle(m, c), c, list, length);
      }
    }
  }

  lemma ListInRdram(rdram: seq<byte>, other: seq<byte>, list: nat, length: nat)
    requires |rdram| == |other| && C.InRdram(other, list, length)
    ensures C.InRdram(rdram, list, length)
  {
  }

  // ----- lists of clears, moves and interleaves -----

  /** The output and the count of every interleave of the list. */
  function ParamsAre<X>(out: nat, count: nat): C.Setting<X> {
    (m: Machine<X>, k: nat) => |m.dmem| == B.DMEM_SIZE && OutOf(m.dmem) == out && CountOf(m.dmem) == count
  }

  /** The range misses the command buffer and the parameters of the interleaves. */
  predicate MissesBoth(start: nat, n: nat) { MissesBuffer(start, n) && Misses(start, n, PARAMS, 8) }

  ghost predicate BufferStep<X>(m: Machine<X>, m': Machine<X>, c: C.Command, out: nat, count: nat)
    requires |m.dmem| == B.DMEM_SIZE
  {
    || (Clears(m, m', c) && MissesBoth(ClearStart(c), 16 * Lines(c)))
    || (Moves(m, m', c) && MissesBoth(MoveTo(c), 16 * Lines(c)))
    || (Weaves(m, m', c) && MissesBoth(out, 32 * B.Passes(count)))
  }

  lemma ParamsAreIndifferent<X(!new)>(out: nat, count: nat)
    ensures C.Indifferent<X>(ParamsAre<X>(out, count))
  {
  }

  lemma SameParams<X>(m: Machine<X>, m': Machine<X>)
    requires |m.dmem| == |m'.dmem| == B.DMEM_SIZE && forall j | PARAMS <= j < PARAMS + 8 :: m'.dmem[j] == m.dmem[j]
    ensures OutOf(m'.dmem) == OutOf(m.dmem) && CountOf(m'.dmem) == CountOf(m.dmem)
  {
  }

  lemma BufferStepKeepsParams<X>(m: Machine<X>, m': Machine<X>, c: C.Command, out: nat, count: nat)
    requires |m.dmem| == B.DMEM_SIZE && OutOf(m.dmem) == out && CountOf(m.dmem) == count
    requires BufferStep(m, m', c, out, count)
    ensures |m'.dmem| == B.DMEM_SIZE && OutOf(m'.dmem) == out && CountOf(m'.dmem) == count
  {
    hide B.Covers, OutOf, CountOf, Weaved, B.Moved, Lines, B.Passes, MissesBuffer;
    assert |m'.dmem| == B.DMEM_SIZE;
    forall j | PARAMS <= j < PARAMS + 8
      ensures m'.dmem[j] == m.dmem[j]
    {
      if Moves(m, m', c) && MissesBoth(MoveTo(c), 16 * Lines(c)) {
        B.MovedElsewhere(m.dmem, MoveFrom(c), MoveTo(c), Lines(c), j);
      } else if Weaves(m, m', c) && MissesBoth(out, 32 * B.Passes(count)) {
        WeavedElsewhere(m, m', c, j);
      }
    }
    SameParams(m, m');
  }

  lemma BufferStepIsSafe<X>(m: Machine<X>, m': Machine<X>, c: C.Command, out: nat, count: nat, list: nat, length: nat)
    requires |m.dmem| == B.DMEM_SIZE && OutOf(m.dmem) == out && CountOf(m.dmem) == count
    requires C.InRdram(m.rdram, list, length) && BufferStep(m, m', c, out, count)
    ensures SafeStep(m, m', c, list, length)
  {
    hide Clears, Moves, Weaves, MissesBuffer, Misses, C.Respects;
    if Moves(m, m', c) && MissesBoth(MoveTo(c), 16 * Lines(c)) {
      MissedMoveKeeps(MoveFrom(c), MoveTo(c), Lines(c));
    }
  }

  lemma MissedMoveKeeps(from: nat, to: nat, lines: nat)
    requires MissesBuffer(to, 16 * lines)
    ensures AspCopies.Keeps(from, to, lines, C.BUFFER, C.CHUNK)
  {
    forall j | C.BUFFER <= j < C.BUFFER + C.CHUNK
      ensures AspCopies.Source(from, to, lines, j) == j
    {
      AspCopies.SourceElsewhere(from, to, lines, j);
    }
    AspCopies.MoveKeepsIff(from, to, lines, C.BUFFER, C.CHUNK);
  }

  /** A list whose commands are clears, moves and interleaves that miss the command buffer and the interleaves' own
      parameters is served: the loop dispatches it as written. */
  lemma BufferListsAreServed<X(!new)>(handle: (Machine<X>, C.Command) -> Machine<X>, rdram: seq<byte>, list: nat,
                                      length: nat, out: nat, count: nat)
    requires C.InRdram(rdram, list, length)
    requires forall m: Machine<X>, k: nat | k < C.Count(length) && ParamsAre<X>(out, count)(m, k) ::
               var c := C.CommandAt(rdram, list, length, k);
               BufferStep(m, handle(m, c), c, out, count)
    ensures C.HandlersOk(handle, ParamsAre<X>(out, count), rdram, list, length)
  {
    hide BufferStep, SafeStep, C.CommandAt, C.Count, C.InRdram, OutOf, CountOf;
    var setting := ParamsAre<X>(out, count);
    forall k: nat | k < C.Count(length)
      ensures SafeCommand(handle, setting, rdram, list, length, k)
    {
      var c := C.CommandAt(rdram, list, length, k);
      forall m: Machine<X> | |m.dmem| == B.DMEM_SIZE && |m.rdram| == |rdram| && setting(m, k)
        ensures C.InRdram(m.rdram, list, length) && SafeStep(m, handle(m, c), c, list, length)
        ensures setting(handle(m, c), k + 1)
      {
        ListInRdram(m.rdram, rdram, list, length);
        BufferStepIsSafe(m, handle(m, c), c, out, count, list, length);
        BufferStepKeepsParams(m, handle(m, c), c, out, count);
      }
    }
    ParamsAreIndifferent<X>(out, count);
    SafeListsAreServed(handle, setting, rdram, list, length);
  }

  /** The clear that wraps around into the buffer: the loop's demand is on the list, not on the handler. */
  lemma WrappingClearMeetsBuffer()
    ensures !MissesBuffer(0xdc0 + B.BASE, 16)
  {
    assert B.Covers(0xdc0 + B.BASE, 16, C.BUFFER);
  }
}
