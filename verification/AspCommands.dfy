// The command fetch of the audio microcode: chunks of the list fetched by DMA, dispatched word pair by word pair.

module AspCommands {
  import opened Common

  const CHUNK: nat := 0x140
  const BUFFER: nat := 0x380
  const DMEM_SIZE: nat := 0x1000
  const WORD: int := 0x1_0000_0000

  function Add32(x: int, d: int): (r: int)
    ensures 0 <= r < WORD
  {
    (x + d) % WORD
  }

  function Signed(x: int): int { if x >= 0x8000_0000 then x - WORD else x }

  /** The registers the fetch loop keeps, the two memories, and whatever else the handlers use. */
  datatype Machine<X> = Machine(r27: int, r28: int, r29: int, r30: int, dmem: seq<byte>, rdram: seq<byte>, other: X)

  /** One command as its handler meets it: its two words, with the bytes left and the address that follow it. */
  datatype Command = Command(w0: int, w1: int, left: int, next: int)

  function Load(mem: seq<byte>, at: nat): int
    requires at + 4 <= |mem|
  {
    ((mem[at] as int * 256 + mem[at + 1] as int) * 256 + mem[at + 2] as int) * 256 + mem[at + 3] as int
  }

  function RoundUp8(n: nat): nat { (n + 7) / 8 * 8 }

  function Count(length: nat): nat { (length + 7) / 8 }

  /** Where a DMA starts: it drops the low three bits of the address. */
  function Base(at: nat): nat { at / 8 * 8 }

  /** The DMA of `n` bytes (moved in units of eight) from RDRAM into the command buffer. */
  function Fetch(dmem: seq<byte>, rdram: seq<byte>, from: nat, n: nat): (d: seq<byte>)
    requires |dmem| == DMEM_SIZE && n <= CHUNK && Base(from) + RoundUp8(n) <= |rdram|
    ensures |d| == DMEM_SIZE
    ensures forall i | 0 <= i < DMEM_SIZE ::
              d[i] == if BUFFER <= i < BUFFER + RoundUp8(n) then rdram[Base(from) + i - BUFFER] else dmem[i]
  {
    dmem[..BUFFER] + rdram[Base(from)..Base(from) + RoundUp8(n)] + dmem[BUFFER + RoundUp8(n)..]
  }

  // ----- the flat walk -----

  /** The list lies in RDRAM. */
  predicate InRdram(rdram: seq<byte>, list: nat, length: nat) { Base(list) + RoundUp8(length) <= |rdram| }

  /** Command k of the list at `list`, `length` bytes long. */
  function CommandAt(rdram: seq<byte>, list: nat, length: nat, k: nat): Command
    requires k < Count(length) && InRdram(rdram, list, length)
  {
    var at := Base(list) + 8 * k;
    Command(Load(rdram, at), Load(rdram, at + 4), Add32(length, -8 * (k + 1)), Add32(list, 8 * (k + 1)))
  }

  function FlatWalk(rdram: seq<byte>, list: nat, length: nat, n: nat): (commands: seq<Command>)
    requires n <= Count(length) && InRdram(rdram, list, length)
    ensures |commands| == n && forall k | 0 <= k < n :: commands[k] == CommandAt(rdram, list, length, k)
  {
    seq(n, k requires 0 <= k < n => CommandAt(rdram, list, length, k))
  }

  /** The word is the four bytes at `at`, the first one highest. */
  predicate BigEndian(mem: seq<byte>, at: nat, w: int)
    requires at + 4 <= |mem|
  {
    && 0 <= w < WORD && w / 0x100_0000 == mem[at] as int && w / 0x1_0000 % 0x100 == mem[at + 1] as int
    && w / 0x100 % 0x100 == mem[at + 2] as int && w % 0x100 == mem[at + 3] as int
  }

  lemma LoadsBigEndian(mem: seq<byte>, at: nat)
    requires at + 4 <= |mem|
    ensures BigEndian(mem, at, Load(mem, at))
  {
    Digits(mem[at], mem[at + 1], mem[at + 2], mem[at + 3]);
  }

  lemma Digits(a: byte, b: byte, c: byte, d: byte)
    ensures var w := ((a as int * 256 + b as int) * 256 + c as int) * 256 + d as int;
            && 0 <= w < WORD && w / 0x100_0000 == a as int && w / 0x1_0000 % 0x100 == b as int
            && w / 0x100 % 0x100 == c as int && w % 0x100 == d as int
  {
    var ab := a as int * 256 + b as int;
    var abc := ab * 256 + c as int;
    var w := abc * 256 + d as int;
    assert w / 0x100 == abc && w / 0x1_0000 == ab && w / 0x100_0000 == a as int;
  }

  /** Command k is the eight bytes of the list at 8k, two big-endian words, with the bytes and the address behind it;
      its place in the jump table, as the loop takes it, is twice its first byte but for the top bit. */
  ghost predicate Read(rdram: seq<byte>, list: nat, length: nat, k: nat, c: Command)
    requires k < Count(length) && InRdram(rdram, list, length)
  {
    var at := Base(list) + 8 * k;
    && BigEndian(rdram, at, c.w0) && BigEndian(rdram, at + 4, c.w1) && JumpIndex(c) == 2 * (rdram[at] as int % 0x80)
    && (list + RoundUp8(length) < WORD ==> c.next == list + 8 * (k + 1))
    && (8 * (k + 1) <= length < WORD ==> c.left == length - 8 * (k + 1))
  }

  /** (w0 >> 23) & 0xFE. */
  function JumpIndex(c: Command): int { c.w0 / 0x80_0000 % 0x100 / 2 * 2 }

  lemma JumpsByFirstByte(rdram: seq<byte>, at: nat, c: Command)
    requires at + 4 <= |rdram| && BigEndian(rdram, at, c.w0)
    ensures JumpIndex(c) == 2 * (rdram[at] as int % 0x80)
  {
    var hi, low := c.w0 / 0x100_0000, c.w0 % 0x100_0000;
    hide BigEndian;
    HighBits(hi, low);
    TwiceModulo(hi, if low < 0x80_0000 then 0 else 1);
  }

  lemma HighBits(hi: int, low: int)
    requires 0 <= low < 0x100_0000
    ensures (hi * 0x100_0000 + low) / 0x80_0000 == 2 * hi + if low < 0x80_0000 then 0 else 1
  {
  }

  lemma TwiceModulo(hi: int, bit: int)
    requires 0 <= bit < 2
    ensures (2 * hi + bit) % 0x100 / 2 * 2 == 2 * (hi % 0x80)
  {
  }

  lemma CommandIsRead(rdram: seq<byte>, list: nat, length: nat, k: nat)
    requires k < Count(length) && InRdram(rdram, list, length)
    ensures Read(rdram, list, length, k, CommandAt(rdram, list, length, k))
  {
    var at := Base(list) + 8 * k;
    LoadsBigEndian(rdram, at);
    LoadsBigEndian(rdram, at + 4);
    JumpsByFirstByte(rdram, at, CommandAt(rdram, list, length, k));
    hide Load, BigEndian, JumpIndex;
  }

  // ----- handlers -----

  /** What a handler must leave alone: the fetch registers, the command buffer, and the list itself. */
  ghost predicate Respects<X>(m: Machine<X>, m': Machine<X>, list: nat, length: nat)
    requires |m.dmem| == DMEM_SIZE && InRdram(m.rdram, list, length)
  {
    && m'.r27 == m.r27 && m'.r28 == m.r28 && m'.r29 == m.r29 && m'.r30 == m.r30
    && |m'.dmem| == DMEM_SIZE && m'.dmem[BUFFER..BUFFER + CHUNK] == m.dmem[BUFFER..BUFFER + CHUNK]
    && |m'.rdram| == |m.rdram| && ListOf(m'.rdram, list, length) == ListOf(m.rdram, list, length)
  }

  function ListOf(rdram: seq<byte>, list: nat, length: nat): seq<byte>
    requires InRdram(rdram, list, length)
  {
    rdram[Base(list)..Base(list) + RoundUp8(length)]
  }

  /** Machines that differ in the fetch state alone. */
  ghost predicate SameButFetch<X>(m: Machine<X>, m': Machine<X>) {
    && m'.other == m.other && m'.rdram == m.rdram && |m.dmem| == |m'.dmem| == DMEM_SIZE
    && forall i | 0 <= i < DMEM_SIZE && !(BUFFER <= i < BUFFER + CHUNK) :: m'.dmem[i] == m.dmem[i]
  }

  /** What earlier commands establish for later ones, before command k; the fetch state is no part of it. */
  type Setting<!X> = (Machine<X>, nat) -> bool

  ghost predicate Indifferent<X(!new)>(setting: Setting<X>) {
    forall m: Machine<X>, m': Machine<X>, k | SameButFetch(m, m') && setting(m, k) :: setting(m', k)
  }

  /** In its setting each command of this list spares the fetch state and makes the next setting. What handlers do
      elsewhere, or on other commands, does not matter. */
  ghost predicate HandlersOk<X(!new)>(handle: (Machine<X>, Command) -> Machine<X>, setting: Setting<X>,
                                      rdram: seq<byte>, list: nat, length: nat)
    requires InRdram(rdram, list, length)
  {
    && Indifferent(setting)
    && forall m: Machine<X>, k: nat | k < Count(length) :: ServedAt(handle, setting, rdram, list, length, m, k)
  }

  ghost predicate ServedAt<X>(handle: (Machine<X>, Command) -> Machine<X>, setting: Setting<X>, rdram: seq<byte>,
                              list: nat, length: nat, m: Machine<X>, k: nat)
    requires InRdram(rdram, list, length) && k < Count(length)
  {
    |m.dmem| == DMEM_SIZE && |m.rdram| == |rdram| && setting(m, k) ==>
      var m' := handle(m, CommandAt(rdram, list, length, k));
      Respects(m, m', list, length) && setting(m', k + 1)
  }

  lemma HandlerRespects<X(!new)>(handle: (Machine<X>, Command) -> Machine<X>, setting: Setting<X>, rdram: seq<byte>,
                                 list: nat, length: nat, m: Machine<X>, k: nat)
    requires InRdram(rdram, list, length) && HandlersOk(handle, setting, rdram, list, length)
    requires k < Count(length) && |m.dmem| == DMEM_SIZE && |m.rdram| == |rdram| && setting(m, k)
    ensures var m' := handle(m, CommandAt(rdram, list, length, k));
            Respects(m, m', list, length) && setting(m', k + 1)
  {
    assert ServedAt(handle, setting, rdram, list, length, m, k);
  }

  lemma SettingStays<X(!new)>(setting: Setting<X>, m: Machine<X>, m': Machine<X>, k: nat)
    requires Indifferent(setting) && SameButFetch(m, m') && setting(m, k)
    ensures setting(m', k)
  {
  }

  // ----- the chunked loop -----

  /** L_1150: fetch the next chunk and reset the buffer cursor. */
  method LoadChunk<X>(m: Machine<X>) returns (m': Machine<X>)
    requires |m.dmem| == DMEM_SIZE && 0 < m.r27 < 0x8000_0000 && m.r28 >= 0
    requires InRdram(m.rdram, m.r28, m.r27)
    ensures var n := if m.r27 > CHUNK then CHUNK else m.r27;
            m' == m.(r30 := n, r29 := BUFFER, dmem := Fetch(m.dmem, m.rdram, m.r28, n))
  {
    var r3 := Add32(m.r27, 0);
    var r4 := Add32(r3, -(CHUNK as int));
    if Signed(r4) > 0 {
      r3 := CHUNK;
    }
    m' := m.(r30 := r3, r29 := BUFFER, dmem := Fetch(m.dmem, m.rdram, m.r28, r3));
  }

  /** DMEM with the segment table zeroed. */
  function SegmentsCleared(dmem: seq<byte>): (d: seq<byte>)
    requires |dmem| == DMEM_SIZE
    ensures |d| == DMEM_SIZE
    ensures forall i {:trigger d[i]} | 0 <= i < DMEM_SIZE :: d[i] == if 0x320 <= i < 0x360 then 0 else dmem[i]
  {
    dmem[..0x320] + Zeros(0x40) + dmem[0x360..]
  }

  /** L_10C0: clear the segment table, 16 words at 0x320. */
  method ClearSegments<X>(m: Machine<X>) returns (m': Machine<X>)
    requires |m.dmem| == DMEM_SIZE
    ensures m' == m.(dmem := SegmentsCleared(m.dmem))
  {
    var dmem := m.dmem;
    for i := 0 to 0x40
      invariant |dmem| == DMEM_SIZE
      invariant forall k | 0 <= k < DMEM_SIZE :: dmem[k] == if 0x320 <= k < 0x320 + i then 0 else m.dmem[k]
    {
      dmem := dmem[0x320 + i := 0];
    }
    m' := m.(dmem := dmem);
  }

  /** What the loop knows before dispatching command k, `c` of which the current chunk began with. */
  ghost predicate Fetching<X>(m: Machine<X>, rdram: seq<byte>, list: nat, length: nat, k: nat) {
    && InRdram(rdram, list, length) && |rdram| == |m.rdram| && |m.dmem| == DMEM_SIZE
    && ListOf(m.rdram, list, length) == ListOf(rdram, list, length)
    && m.r27 == Add32(length, -8 * k) && m.r28 == Add32(list, 8 * k)
  }

  /** The buffer from the cursor on holds the commands from k on, r30 bytes of them. */
  ghost predicate Buffered<X>(m: Machine<X>, rdram: seq<byte>, list: nat, length: nat, k: nat) {
    && InRdram(rdram, list, length) && |m.dmem| == DMEM_SIZE
    && 0 < m.r30 <= CHUNK && BUFFER <= m.r29 && m.r29 + RoundUp8(m.r30) <= BUFFER + CHUNK
    && m.r30 <= length - 8 * k && (length - 8 * k > m.r30 ==> m.r30 % 8 == 0)
    && var from, n := Base(list) + 8 * k, RoundUp8(m.r30);
       from + n <= |rdram| && m.dmem[m.r29..m.r29 + n] == rdram[from..from + n]
  }

  lemma ChunkIsBuffered<X>(m: Machine<X>, m': Machine<X>, rdram: seq<byte>, list: nat, length: nat, k: nat)
    requires Fetching(m, rdram, list, length, k) && 8 * k < length < 0x8000_0000 && list + RoundUp8(length) < WORD
    requires m.r27 == length - 8 * k && m.r28 == list + 8 * k
    requires var n := if m.r27 > CHUNK then CHUNK else m.r27;
             m' == m.(r30 := n, r29 := BUFFER, dmem := Fetch(m.dmem, m.rdram, m.r28, n))
    ensures Buffered(m', rdram, list, length, k) && Fetching(m', rdram, list, length, k)
  {
    var n, from := RoundUp8(m'.r30), Base(list) + 8 * k;
    BaseMoves(list, k);
    ChunkFits(length, k, m'.r30);
    FetchedSlice(m.dmem, m.rdram, m.r28, m'.r30);
    hide Base, Add32, RoundUp8, Fetch;
    SubSlice(m.rdram, rdram, Base(list), Base(list) + RoundUp8(length), from, from + n);
  }

  lemma ChunkFits(length: nat, k: nat, n: nat)
    requires 8 * k < length && n == if length - 8 * k > CHUNK then CHUNK else length - 8 * k
    ensures 0 < n <= RoundUp8(n) <= CHUNK && 8 * k + RoundUp8(n) <= RoundUp8(length)
    ensures length - 8 * k > n ==> n % 8 == 0
  {
  }

  lemma FetchedSlice(dmem: seq<byte>, rdram: seq<byte>, from: nat, n: nat)
    requires |dmem| == DMEM_SIZE && n <= CHUNK && Base(from) + RoundUp8(n) <= |rdram|
    ensures BUFFER + RoundUp8(n) <= DMEM_SIZE
    ensures Fetch(dmem, rdram, from, n)[BUFFER..BUFFER + RoundUp8(n)] == rdram[Base(from)..Base(from) + RoundUp8(n)]
  {
  }

  lemma BaseMoves(list: nat, k: nat)
    ensures Base(list + 8 * k) == Base(list) + 8 * k
  {
  }

  lemma SubSlice(a: seq<byte>, b: seq<byte>, lo: nat, hi: nat, from: nat, to: nat)
    requires lo <= from <= to <= hi <= |a| && hi <= |b| && a[lo..hi] == b[lo..hi]
    ensures a[from..to] == b[from..to]
  {
    forall i | from <= i < to
      ensures a[i] == b[i]
    {
      assert a[i] == a[lo..hi][i - lo] && b[i] == b[lo..hi][i - lo];
    }
  }

  /** Equal slices hold equal words and equal remainders. */
  lemma EqualSlices(a: seq<byte>, at: nat, b: seq<byte>, bt: nat, n: nat)
    requires at + n <= |a| && bt + n <= |b| && a[at..at + n] == b[bt..bt + n] && n >= 8
    ensures Load(a, at) == Load(b, bt) && Load(a, at + 4) == Load(b, bt + 4)
    ensures a[at + 8..at + n] == b[bt + 8..bt + n]
  {
    assert SameAt(a, at, b, bt, 0) && SameAt(a, at, b, bt, 1) && SameAt(a, at, b, bt, 2) && SameAt(a, at, b, bt, 3) by {
      assert a[at..at + n][0] == b[bt..bt + n][0] && a[at..at + n][1] == b[bt..bt + n][1];
      assert a[at..at + n][2] == b[bt..bt + n][2] && a[at..at + n][3] == b[bt..bt + n][3];
    }
    assert SameAt(a, at, b, bt, 4) && SameAt(a, at, b, bt, 5) && SameAt(a, at, b, bt, 6) && SameAt(a, at, b, bt, 7) by {
      assert a[at..at + n][4] == b[bt..bt + n][4] && a[at..at + n][5] == b[bt..bt + n][5];
      assert a[at..at + n][6] == b[bt..bt + n][6] && a[at..at + n][7] == b[bt..bt + n][7];
    }
    assert a[at + 8..at + n] == a[at..at + n][8..] == b[bt..bt + n][8..] == b[bt + 8..bt + n];
  }

  predicate SameAt(a: seq<byte>, at: nat, b: seq<byte>, bt: nat, i: nat)
    requires at + i < |a| && bt + i < |b|
  {
    a[at + i] == b[bt + i]
  }

  /** After the dispatch of command k the rest of the chunk is still in the buffer. */
  lemma RestIsBuffered<X>(m: Machine<X>, m': Machine<X>, rdram: seq<byte>, list: nat, length: nat, k: nat)
    requires Buffered(m, rdram, list, length, k) && m.r30 > 8
    requires m'.r29 == m.r29 + 8 && m'.r30 == m.r30 - 8 && |m'.dmem| == DMEM_SIZE
    requires m'.dmem[BUFFER..BUFFER + CHUNK] == m.dmem[BUFFER..BUFFER + CHUNK]
    ensures Buffered(m', rdram, list, length, k + 1)
  {
    RoundUpStep(m.r30);
    hide RoundUp8, Base;
    var n, from := RoundUp8(m.r30), Base(list) + 8 * k;
    TailSlice(m'.dmem, m.dmem, m.r29, rdram, from, n);
    assert Base(list) + 8 * (k + 1) == from + 8;
  }

  lemma RoundUpStep(n: nat)
    requires n > 8
    ensures RoundUp8(n - 8) == RoundUp8(n) - 8 && RoundUp8(n) >= n && (n % 8 == 0 ==> (n - 8) % 8 == 0)
  {
  }

  lemma TailSlice(d': seq<byte>, d: seq<byte>, at: nat, rdram: seq<byte>, from: nat, n: nat)
    requires |d'| == |d| == DMEM_SIZE && d'[BUFFER..BUFFER + CHUNK] == d[BUFFER..BUFFER + CHUNK]
    requires n >= 8 && BUFFER <= at && at + n <= BUFFER + CHUNK && from + n <= |rdram|
    requires d[at..at + n] == rdram[from..from + n]
    ensures d'[at + 8..at + n] == rdram[from + 8..from + n]
  {
    hide Load;
    EqualSlices(d, at, rdram, from, n);
    SubSlice(d', d, BUFFER, BUFFER + CHUNK, at + 8, at + n);
  }

  /** Small facts about the registers while command k is current. */
  lemma RegistersInRange(length: nat, list: nat, k: nat, r30: int)
    requires 8 * k < length < 0x8000_0000 && list + RoundUp8(length) < WORD && 0 < r30 <= CHUNK
    ensures Add32(length, -8 * k) == length - 8 * k && Add32(list, 8 * k) == list + 8 * k && k < Count(length)
    ensures Add32(Add32(length, -8 * k), -8) == Add32(length, -8 * (k + 1))
    ensures Add32(Add32(list, 8 * k), 8) == Add32(list, 8 * (k + 1))
    ensures Signed(Add32(length, -8 * (k + 1))) == length - 8 * (k + 1)
    ensures Signed(Add32(r30, -8)) == r30 - 8 && (r30 > 8 ==> Add32(r30, -8) == r30 - 8)
    ensures RoundUp8(length - 8 * k) == RoundUp8(length) - 8 * k
    ensures length - 8 * (k + 1) <= 0 ==> Count(length) == k + 1 && Add32(list, 8 * (k + 1)) == list + RoundUp8(length)
  {
    RoundsUp(length, k);
    Added(length, -8 * k);
    Added(list, 8 * k);
    AddedTwice(length, -8 * k, -8);
    AddedTwice(list, 8 * k, 8);
    SignedSum(length, -8 * (k + 1));
    SignedSum(r30, -8);
    hide Add32, Signed, RoundUp8, Count;
    if length - 8 * (k + 1) <= 0 {
      Added(list, 8 * (k + 1));
    }
    if r30 > 8 {
      Added(r30, -8);
    }
  }

  lemma RoundsUp(length: nat, k: nat)
    requires 8 * k < length
    ensures k < Count(length) && 8 * k + 8 <= RoundUp8(length) && RoundUp8(length - 8 * k) == RoundUp8(length) - 8 * k
    ensures length - 8 * (k + 1) <= 0 ==> Count(length) == k + 1 && RoundUp8(length) == 8 * (k + 1)
  {
  }

  lemma Added(x: int, d: int)
    requires 0 <= x + d < WORD
    ensures Add32(x, d) == x + d
  {
  }

  lemma AddedTwice(x: int, d: int, e: int)
    ensures Add32(Add32(x, d), e) == Add32(x, d + e)
  {
  }

  lemma SignedSum(x: int, d: int)
    requires -0x8000_0000 <= x + d < 0x8000_0000
    ensures Signed(Add32(x, d)) == x + d
  {
  }

  /** L_10E4: take the two words at the cursor, advance the four registers, and run the handler. */
  method Dispatch<X(!new)>(m: Machine<X>, handle: (Machine<X>, Command) -> Machine<X>, ghost setting: Setting<X>,
                           ghost rdram: seq<byte>, ghost list: nat, ghost length: nat, ghost k: nat)
    returns (m': Machine<X>, command: Command)
    requires 8 * k < length < 0x8000_0000 && list + RoundUp8(length) < WORD && InRdram(rdram, list, length)
    requires Fetching(m, rdram, list, length, k) && Buffered(m, rdram, list, length, k)
    requires HandlersOk(handle, setting, rdram, list, length) && setting(m, k)
    ensures k < Count(length) && command == CommandAt(rdram, list, length, k) && Read(rdram, list, length, k, command)
    ensures Fetching(m', rdram, list, length, k + 1) && m'.r30 == Add32(m.r30, -8)
    ensures m.r30 > 8 ==> Buffered(m', rdram, list, length, k + 1)
    ensures setting(m', k + 1)
  {
    CurrentCommand(m, rdram, list, length, k);
    CommandIsRead(rdram, list, length, k);
    hide Load, RoundUp8, Base, Add32, Count, Buffered, Fetching, Respects, Read;
    var w0, w1 := Load(m.dmem, m.r29), Load(m.dmem, m.r29 + 4);
    var advanced := Advanced(m);
    command := Command(w0, w1, advanced.r27, advanced.r28);
    m' := handle(advanced, command);
    SettingStays(setting, m, advanced, k);
    HandlerRespects(handle, setting, rdram, list, length, advanced, k);
    HandlerKeeps(m, m', rdram, list, length, k);
  }

  /** The four fetch registers one command further on. */
  function Advanced<X>(m: Machine<X>): Machine<X> {
    m.(r28 := Add32(m.r28, 8), r27 := Add32(m.r27, -8), r29 := Add32(m.r29, 8), r30 := Add32(m.r30, -8))
  }

  /** The cursor is on command k, and the advanced registers are those of the flat walk. */
  lemma CurrentCommand<X>(m: Machine<X>, rdram: seq<byte>, list: nat, length: nat, k: nat)
    requires 8 * k < length < 0x8000_0000 && list + RoundUp8(length) < WORD
    requires Fetching(m, rdram, list, length, k) && Buffered(m, rdram, list, length, k)
    ensures k < Count(length) && InRdram(rdram, list, length) && |rdram| == |m.rdram|
    ensures var at := Base(list) + 8 * k;
            && 0 <= m.r29 && m.r29 + 8 <= |m.dmem| == DMEM_SIZE && at + 8 <= |rdram|
            && Load(m.dmem, m.r29) == Load(rdram, at) && Load(m.dmem, m.r29 + 4) == Load(rdram, at + 4)
    ensures Add32(m.r27, -8) == Add32(length, -8 * (k + 1)) && Add32(m.r28, 8) == Add32(list, 8 * (k + 1))
    ensures Add32(m.r29, 8) == m.r29 + 8 && (m.r30 > 8 ==> Add32(m.r30, -8) == m.r30 - 8)
  {
    RegistersInRange(length, list, k, m.r30);
    RoundsUp(m.r30, 0);
    hide Load, Base, RoundUp8, Add32, Signed, Count;
    Added(m.r29, 8);
    EqualSlices(m.dmem, m.r29, rdram, Base(list) + 8 * k, RoundUp8(m.r30));
  }

  lemma HandlerKeeps<X>(m: Machine<X>, m': Machine<X>, rdram: seq<byte>, list: nat, length: nat, k: nat)
    requires 8 * k < length < 0x8000_0000 && list + RoundUp8(length) < WORD
    requires Fetching(m, rdram, list, length, k) && Buffered(m, rdram, list, length, k)
    requires Respects(Advanced(m), m', list, length)
    ensures Fetching(m', rdram, list, length, k + 1) && m'.r30 == Add32(m.r30, -8)
    ensures m.r30 > 8 ==> Buffered(m', rdram, list, length, k + 1)
  {
    CurrentCommand(m, rdram, list, length, k);
    hide RoundUp8, Base, Add32, Load, ListOf;
    if m.r30 > 8 {
      RestIsBuffered(m, m', rdram, list, length, k);
    }
  }

  /** Entry: the first chunk, then the cleared segment table. */
  method Start<X(!new)>(m0: Machine<X>, ghost setting: Setting<X>) returns (m: Machine<X>)
    requires |m0.dmem| == DMEM_SIZE && 0 < m0.r27 < 0x8000_0000 && m0.r28 >= 0
    requires InRdram(m0.rdram, m0.r28, m0.r27) && m0.r28 + RoundUp8(m0.r27) < WORD
    requires Indifferent(setting) && setting(m0.(dmem := SegmentsCleared(m0.dmem)), 0)
    ensures Fetching(m, m0.rdram, m0.r28, m0.r27, 0) && Buffered(m, m0.rdram, m0.r28, m0.r27, 0)
    ensures setting(m, 0)
  {
    m := LoadChunk(m0);
    ChunkIsBuffered(m0, m, m0.rdram, m0.r28, m0.r27, 0);
    ghost var loaded := m;
    m := ClearSegments(m);
    m := m.(r29 := BUFFER);
    hide RoundUp8, Base, Fetching, Buffered;
    SettingStays(setting, m0.(dmem := SegmentsCleared(m0.dmem)), m, 0);
    StillBuffered(loaded, m, m0.rdram, m0.r28, m0.r27, 0);
  }

  /** L_1130: the next chunk, when commands are left. */
  method Refill<X(!new)>(m: Machine<X>, ghost setting: Setting<X>, ghost rdram: seq<byte>, ghost list: nat,
                         ghost length: nat, ghost k: nat)
    returns (m': Machine<X>)
    requires Fetching(m, rdram, list, length, k) && 8 * k < length < 0x8000_0000 && list + RoundUp8(length) < WORD
    requires Indifferent(setting) && setting(m, k)
    ensures Fetching(m', rdram, list, length, k) && Buffered(m', rdram, list, length, k) && setting(m', k)
  {
    RegistersInRange(length, list, k, 1);
    BaseMoves(list, k);
    m' := LoadChunk(m);
    ChunkIsBuffered(m, m', rdram, list, length, k);
    m' := m'.(r29 := BUFFER);
    hide Fetching, Buffered, RoundUp8, Base;
    SettingStays(setting, m, m', k);
  }

  /** Dispatches exactly the commands of the flat walk, in order, and halts with nothing left. */
  method RunCommands<X(!new)>(m0: Machine<X>, handle: (Machine<X>, Command) -> Machine<X>, ghost setting: Setting<X>)
    returns (m: Machine<X>, trace: seq<Command>)
    requires |m0.dmem| == DMEM_SIZE && 0 < m0.r27 < 0x8000_0000 && m0.r28 >= 0
    requires InRdram(m0.rdram, m0.r28, m0.r27) && m0.r28 + RoundUp8(m0.r27) < WORD
    requires HandlersOk(handle, setting, m0.rdram, m0.r28, m0.r27)
    requires setting(m0.(dmem := SegmentsCleared(m0.dmem)), 0)
    ensures trace == FlatWalk(m0.rdram, m0.r28, m0.r27, Count(m0.r27)) && |trace| == Count(m0.r27)
    ensures forall k | 0 <= k < |trace| :: Read(m0.rdram, m0.r28, m0.r27, k, trace[k])
    ensures Signed(m.r27) <= 0 && m.r28 == m0.r28 + RoundUp8(m0.r27) && setting(m, Count(m0.r27))
    ensures |m.rdram| == |m0.rdram| && ListOf(m.rdram, m0.r28, m0.r27) == ListOf(m0.rdram, m0.r28, m0.r27)
  {
    hide Load, RoundUp8, Base, Respects, HandlersOk, Indifferent, Buffered, Add32, Count, Signed, Fetch, Read;
    ghost var rdram, list, length := m0.rdram, m0.r28, m0.r27;
    ghost var k := 0;
    HandlersKnowTheirSetting(handle, setting, rdram, list, length);
    trace := [];
    m := Start(m0, setting);
    while true
      invariant Fetching(m, rdram, list, length, k) && Buffered(m, rdram, list, length, k) && setting(m, k)
      invariant 8 * k < length && k <= Count(length) && trace == FlatWalk(rdram, list, length, k)
      invariant forall n | 0 <= n < k :: Read(rdram, list, length, n, trace[n])
      decreases length - 8 * k
    {
      BufferedBounds(m, rdram, list, length, k);
      RegistersInRange(length, list, k, m.r30);
      var command;
      m, command := Dispatch(m, handle, setting, rdram, list, length, k);
      trace := trace + [command];
      k := k + 1;
      if Signed(m.r30) > 0 {
        BufferedBounds(m, rdram, list, length, k);
        continue;
      }
      if Signed(m.r27) <= 0 {
        return;
      }
      m := Refill(m, setting, rdram, list, length, k);
    }
  }

  lemma HandlersKnowTheirSetting<X(!new)>(handle: (Machine<X>, Command) -> Machine<X>, setting: Setting<X>,
                                          rdram: seq<byte>, list: nat, length: nat)
    requires InRdram(rdram, list, length) && HandlersOk(handle, setting, rdram, list, length)
    ensures Indifferent(setting)
  {
  }

  lemma BufferedBounds<X>(m: Machine<X>, rdram: seq<byte>, list: nat, length: nat, k: nat)
    requires Buffered(m, rdram, list, length, k)
    ensures 0 < m.r30 <= CHUNK && 8 * k < length
  {
  }

  lemma StillBuffered<X>(m: Machine<X>, m': Machine<X>, rdram: seq<byte>, list: nat, length: nat, k: nat)
    requires Fetching(m, rdram, list, length, k) && Buffered(m, rdram, list, length, k)
    requires m' == m.(dmem := m'.dmem) && |m'.dmem| == DMEM_SIZE
    requires forall i | BUFFER <= i < DMEM_SIZE :: m'.dmem[i] == m.dmem[i]
    ensures Fetching(m', rdram, list, length, k) && Buffered(m', rdram, list, length, k)
  {
    var n := RoundUp8(m.r30);
    assert m'.dmem[m.r29..m.r29 + n] == m.dmem[m.r29..m.r29 + n];
  }
}
