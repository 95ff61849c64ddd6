// The Controller Pak store, as values: four images loaded on first use, written back when dirty, over a file per
// port whose operations may fail.

module PakModel {
  import opened Common
  import opened PakFormat

  const PORTS: nat := 4

  /** The pak file of a port as the host sees it. */
  datatype File = Absent | Present(bytes: seq<byte>)

  /** The host call of a write-back that fails, if one does. */
  datatype Stage = Opening | Writing | Flushing | Closing | Renaming | Nothing

  /** What the host does to one call: each operation may fail; `reached` bytes are in the temporary file when the write
      returns, however it returns. Renaming is atomic, nothing else need be. */
  datatype Io = Io(probeFails: bool, readFails: bool, fails: Stage, reached: nat)

  predicate PersistFails(io: Io) { io.fails != Nothing }

  datatype Pak = Pak(mem: seq<byte>, loaded: bool, valid: bool, dirty: bool, file: File)

  datatype Op =
    | OpRead(port: nat, block: nat, io: Io)
    | OpWrite(port: nat, block: nat, data: seq<byte>, io: Io)
    | OpFlush(ios: seq<Io>)

  function Fresh(file: File): Pak { Pak([], false, false, false, file) }

  // ----- one write-back, call by call -----

  /** The pak file and the temporary one beside it. */
  datatype Disk = Disk(pak: File, temp: File)

  /** As much of the image as a write reaches. */
  function Written(image: seq<byte>, reached: nat): (w: seq<byte>)
    ensures w <= image && (|w| == reached || |w| == |image| <= reached)
  {
    if reached < |image| then image[..reached] else image
  }

  /** The disk before the first host call of a write-back and after each of them. */
  function Stops(d: Disk, image: seq<byte>, io: Io): (stops: seq<Disk>)
    ensures |stops| >= 1
  {
    var emptied := d.(temp := Present([]));
    var written := d.(temp := Present(Written(image, io.reached)));
    var full := d.(temp := Present(image));
    match io.fails
    case Opening => [d]
    case Writing => [d, emptied, written]
    case Flushing => [d, emptied, written]
    case Closing => [d, emptied, written, full]
    case Renaming => [d, emptied, written, full, full]
    case Nothing => [d, emptied, written, full, full, Disk(Present(image), Absent)]
  }

  /** Wherever a write-back stops, the pak file is the old one or the whole new image, and it is the new one exactly
      when nothing failed and every call was made. */
  lemma PakFileIsOldOrNew(d: Disk, image: seq<byte>, io: Io, i: nat)
    requires i < |Stops(d, image, io)|
    ensures var stop := Stops(d, image, io)[i];
            && stop.pak == (if PersistFails(io) || i < |Stops(d, image, io)| - 1 then d.pak else Present(image))
            && (stop.temp == d.temp || stop.temp == Absent || (stop.temp.Present? && stop.temp.bytes <= image))
  {
  }

  // ----- one port -----

  predicate Usable(file: File) { file.Absent? || |file.bytes| == MEMPAK_SIZE }

  function Persist(p: Pak, io: Io): Pak {
    if PersistFails(io) then p else p.(file := Present(p.mem), dirty := false)
  }

  function EnsureLoaded(p: Pak, blank: seq<byte>, io: Io): (Pak, bool) {
    if p.loaded then (p, p.valid)
    else if io.probeFails then (p.(mem := Zeros(MEMPAK_SIZE)), false)
    else if p.file.Absent? then (Persist(p.(mem := blank, loaded := true, valid := true, dirty := true), io), true)
    else if io.readFails || !Usable(p.file) then (p.(mem := Zeros(MEMPAK_SIZE), loaded := true), false)
    else (p.(mem := p.file.bytes, loaded := true, valid := true), true)
  }

  function Put(m: seq<byte>, block: nat, data: seq<byte>): (r: seq<byte>)
    requires BLOCK * block + BLOCK <= |m| && |data| == BLOCK
    ensures |r| == |m|
  {
    Patch(m, BLOCK * block, data)
  }

  /** A write marks the pak dirty only when it changes something. */
  function Store(p: Pak, block: nat, data: seq<byte>): Pak
    requires BLOCK * block + BLOCK <= |p.mem| && |data| == BLOCK
  {
    if Block(p.mem, block) == data then p else p.(mem := Put(p.mem, block, data), dirty := true)
  }

  function Flush(p: Pak, io: Io): Pak {
    if !p.loaded || !p.dirty then p else Persist(p, io)
  }

  // ----- the four ports, and what the game wrote -----

  predicate InRange(port: nat, block: nat) { port < PORTS && block < MEMPAK_SIZE / BLOCK }

  /** The paks with, for the record, the last block each successful write left at each place. */
  datatype World = World(paks: seq<Pak>, written: map<(nat, nat), seq<byte>>)

  function Start(files: seq<File>): World { World(seq(|files|, i requires 0 <= i < |files| => Fresh(files[i])), map[]) }

  /** A read: refused, or the 32 bytes of the block. */
  function Read(w: World, blank: seq<byte>, port: nat, block: nat, io: Io): (World, bool, seq<byte>)
    requires |w.paks| == PORTS
  {
    if !InRange(port, block) then (w, false, []) else
    var (p, ok) := EnsureLoaded(w.paks[port], blank, io);
    (w.(paks := w.paks[port := p]), ok, if ok && BLOCK * block + BLOCK <= |p.mem| then Block(p.mem, block) else [])
  }

  function Write(w: World, blank: seq<byte>, port: nat, block: nat, data: seq<byte>, io: Io): (World, bool)
    requires |w.paks| == PORTS
  {
    if !InRange(port, block) || |data| != BLOCK then (w, false) else
    var (p, ok) := EnsureLoaded(w.paks[port], blank, io);
    if !ok || BLOCK * block + BLOCK > |p.mem| then (w.(paks := w.paks[port := p]), false)
    else (World(w.paks[port := Store(p, block, data)], w.written[(port, block) := data]), true)
  }

  /** The host's answer for port `i`; where none is given, everything fails. */
  function IoAt(ios: seq<Io>, i: nat): Io { if i < |ios| then ios[i] else Io(true, true, Opening, 0) }

  function FlushAll(w: World, ios: seq<Io>): World {
    w.(paks := seq(|w.paks|, i requires 0 <= i < |w.paks| => Flush(w.paks[i], IoAt(ios, i))))
  }

  function Step(w: World, blank: seq<byte>, op: Op): (w': World)
    requires |w.paks| == PORTS
    ensures |w'.paks| == PORTS
  {
    match op
    case OpRead(port, block, io) => Read(w, blank, port, block, io).0
    case OpWrite(port, block, data, io) => Write(w, blank, port, block, data, io).0
    case OpFlush(ios) => FlushAll(w, ios)
  }

  function Run(files: seq<File>, blank: seq<byte>, ops: seq<Op>): (w: World)
    requires |files| == PORTS
    ensures |w.paks| == PORTS
  {
    if ops == [] then Start(files) else Step(Run(files, blank, ops[..|ops| - 1]), blank, ops[|ops| - 1])
  }

  // ----- the invariant -----

  /** The pak image before the game writes anything. */
  function Initial(file: File, blank: seq<byte>): seq<byte> { if file.Absent? then blank else file.bytes }

  /** What a read of the block must return. */
  function Expected(w: World, file: File, blank: seq<byte>, port: nat, block: nat): seq<byte>
    requires BLOCK * block + BLOCK <= |Initial(file, blank)|
  {
    if (port, block) in w.written then w.written[(port, block)] else Block(Initial(file, blank), block)
  }

  ghost predicate NothingWritten(w: World, port: nat) {
    forall block: nat :: (port, block) !in w.written
  }

  ghost predicate PortOk(w: World, file: File, blank: seq<byte>, port: nat)
    requires port < |w.paks|
  {
    var p := w.paks[port];
    && (!p.loaded ==> !p.valid && !p.dirty)
    && (!p.loaded || !p.valid ==> p.file == file && !p.dirty && NothingWritten(w, port))
    && (p.loaded && !p.valid ==> p.file.Present?)
    && (p.loaded && p.valid ==>
          && |p.mem| == MEMPAK_SIZE && Usable(file)
          && (forall block: nat | InRange(port, block) ::
                |Initial(file, blank)| == MEMPAK_SIZE && Block(p.mem, block) == Expected(w, file, blank, port, block))
          && (!p.dirty ==> p.file == Present(p.mem))
          && (p.file == file || (p.file.Present? && |p.file.bytes| == MEMPAK_SIZE)))
  }

  ghost predicate Inv(w: World, files: seq<File>, blank: seq<byte>) {
    && |files| == |w.paks| == PORTS && |blank| == MEMPAK_SIZE
    && (forall port | 0 <= port < PORTS :: PortOk(w, files[port], blank, port))
    && (forall port: nat, block: nat | (port, block) in w.written ::
         InRange(port, block) && |w.written[(port, block)]| == BLOCK)
  }

  // ----- every step keeps it -----

  lemma PutBlock(m: seq<byte>, block: nat, data: seq<byte>, other: nat)
    requires |m| == MEMPAK_SIZE && |data| == BLOCK && BLOCK * block + BLOCK <= |m| && BLOCK * other + BLOCK <= |m|
    ensures Block(Put(m, block, data), other) == if other == block then data else Block(m, other)
  {
    if other < block {
      PatchElsewhere(m, BLOCK * block, data, BLOCK * other, BLOCK * other + BLOCK);
    } else if other > block {
      PatchElsewhere(m, BLOCK * block, data, BLOCK * other, BLOCK * other + BLOCK);
    }
  }

  lemma LoadKeeps(w: World, files: seq<File>, blank: seq<byte>, port: nat, io: Io)
    requires Inv(w, files, blank) && port < PORTS
    ensures var (p, ok) := EnsureLoaded(w.paks[port], blank, io);
            Inv(w.(paks := w.paks[port := p]), files, blank) && (ok <==> p.loaded && p.valid)
  {
    var p := EnsureLoaded(w.paks[port], blank, io).0;
    var w' := w.(paks := w.paks[port := p]);
    assert PortOk(w, files[port], blank, port);
    forall q | 0 <= q < PORTS
      ensures PortOk(w', files[q], blank, q)
    {
      assert PortOk(w, files[q], blank, q);
    }
  }

  lemma StoreKeeps(w: World, files: seq<File>, blank: seq<byte>, port: nat, block: nat, data: seq<byte>)
    requires Inv(w, files, blank) && InRange(port, block) && |data| == BLOCK
    requires w.paks[port].loaded && w.paks[port].valid && |w.paks[port].mem| == MEMPAK_SIZE
    ensures Inv(World(w.paks[port := Store(w.paks[port], block, data)], w.written[(port, block) := data]), files, blank)
  {
    var p := w.paks[port];
    var w' := World(w.paks[port := Store(p, block, data)], w.written[(port, block) := data]);
    forall q | 0 <= q < PORTS
      ensures PortOk(w', files[q], blank, q)
    {
      assert PortOk(w, files[q], blank, q);
      if q == port {
        forall other: nat | InRange(port, other)
          ensures Block(w'.paks[q].mem, other) == Expected(w', files[q], blank, q, other)
        {
          PutBlock(p.mem, block, data, other);
        }
      }
    }
  }

  lemma FlushKeeps(w: World, files: seq<File>, blank: seq<byte>, ios: seq<Io>)
    requires Inv(w, files, blank)
    ensures Inv(FlushAll(w, ios), files, blank)
  {
    var w' := FlushAll(w, ios);
    forall q | 0 <= q < PORTS
      ensures PortOk(w', files[q], blank, q)
    {
      assert PortOk(w, files[q], blank, q);
    }
  }

  lemma StepKeeps(w: World, files: seq<File>, blank: seq<byte>, op: Op)
    requires Inv(w, files, blank)
    ensures Inv(Step(w, blank, op), files, blank)
  {
    match op
    case OpRead(port, block, io) =>
      if InRange(port, block) {
        LoadKeeps(w, files, blank, port, io);
      }
    case OpWrite(port, block, data, io) =>
      if InRange(port, block) && |data| == BLOCK {
        LoadKeeps(w, files, blank, port, io);
        var (p, ok) := EnsureLoaded(w.paks[port], blank, io);
        var w1 := w.(paks := w.paks[port := p]);
        if ok {
          assert PortOk(w1, files[port], blank, port);
          StoreKeeps(w1, files, blank, port, block, data);
          assert w1.paks[port := Store(p, block, data)] == w.paks[port := Store(p, block, data)];
        }
      }
    case OpFlush(ios) => FlushKeeps(w, files, blank, ios);
  }

  lemma {:induction false} RunKeeps(files: seq<File>, blank: seq<byte>, ops: seq<Op>)
    requires |files| == PORTS && |blank| == MEMPAK_SIZE
    ensures Inv(Run(files, blank, ops), files, blank)
  {
    if ops != [] {
      RunKeeps(files, blank, ops[..|ops| - 1]);
      StepKeeps(Run(files, blank, ops[..|ops| - 1]), files, blank, ops[|ops| - 1]);
    }
  }

  // ----- what holds in every run, whatever fails -----

  /** A successful read returns the last successful write to that port and block, or what was there at first. */
  lemma ReadReturnsLastWrite(files: seq<File>, blank: seq<byte>, ops: seq<Op>, port: nat, block: nat, io: Io)
    requires |files| == PORTS && |blank| == MEMPAK_SIZE
    ensures var w := Run(files, blank, ops);
            var (w', ok, data) := Read(w, blank, port, block, io);
            ok ==> && InRange(port, block) && |Initial(files[port], blank)| == MEMPAK_SIZE
                   && data == Expected(w, files[port], blank, port, block)
  {
    RunKeeps(files, blank, ops);
    var w := Run(files, blank, ops);
    if InRange(port, block) {
      LoadKeeps(w, files, blank, port, io);
      var w1 := Read(w, blank, port, block, io).0;
      assert PortOk(w1, files[port], blank, port);
    }
  }

  /** When an access is answered: the image is there, or can be had now from the file the session began with. */
  lemma AccessSucceedsIff(files: seq<File>, blank: seq<byte>, ops: seq<Op>, port: nat, block: nat, io: Io)
    requires |files| == PORTS && |blank| == MEMPAK_SIZE
    ensures var w := Run(files, blank, ops);
            Read(w, blank, port, block, io).1 <==>
            && InRange(port, block)
            && (w.paks[port].valid
                || (!w.paks[port].loaded && !io.probeFails && Usable(files[port])
                    && (files[port].Absent? || !io.readFails)))
    ensures forall data | |data| == BLOCK ::
              var w := Run(files, blank, ops);
              Write(w, blank, port, block, data, io).1 <==> Read(w, blank, port, block, io).1
  {
    RunKeeps(files, blank, ops);
    var w := Run(files, blank, ops);
    if InRange(port, block) {
      assert PortOk(w, files[port], blank, port);
      LoadKeeps(w, files, blank, port, io);
      var w1 := w.(paks := w.paks[port := EnsureLoaded(w.paks[port], blank, io).0]);
      assert PortOk(w1, files[port], blank, port);
    }
  }

  /** The first access to a port without a file makes the blank pak and writes it at once: the file is there when the
      write succeeds, and otherwise the pak stays dirty for the next flush. */
  lemma FirstAccessWritesBlankPak(files: seq<File>, blank: seq<byte>, ops: seq<Op>, port: nat, block: nat, io: Io)
    requires |files| == PORTS && |blank| == MEMPAK_SIZE && InRange(port, block)
    requires !Run(files, blank, ops).paks[port].loaded && files[port].Absent? && !io.probeFails
    ensures var p := Read(Run(files, blank, ops), blank, port, block, io).0.paks[port];
            && p.loaded && p.valid && p.mem == blank
            && (io.fails == Nothing ==> p.file == Present(blank) && !p.dirty)
            && (io.fails != Nothing ==> p.file == Absent && p.dirty)
  {
    RunKeeps(files, blank, ops);
    assert PortOk(Run(files, blank, ops), files[port], blank, port);
  }

  /** A file that could not be read is never touched, and one of the wrong size never at all. */
  lemma UnreadableFileIsPreserved(files: seq<File>, blank: seq<byte>, ops: seq<Op>, port: nat)
    requires |files| == PORTS && |blank| == MEMPAK_SIZE && port < PORTS
    ensures var p := Run(files, blank, ops).paks[port];
            && (!p.valid || !Usable(files[port]) ==> p.file == files[port])
            && (p.loaded && p.valid && !p.dirty ==> p.file == Present(p.mem))
  {
    RunKeeps(files, blank, ops);
    assert PortOk(Run(files, blank, ops), files[port], blank, port);
  }

  /** A session cut off at any stop of any write-back leaves a file the next one loads: the image written back, or all
      that the file held before, unless the first session already found it unusable. */
  lemma CutOffSessionLeavesAPak(files: seq<File>, blank: seq<byte>, ops: seq<Op>, port: nat, temp: File, io: Io, i: nat,
                                next: Io)
    requires |files| == PORTS && |blank| == MEMPAK_SIZE && port < PORTS && Usable(files[port])
    requires var p := Run(files, blank, ops).paks[port];
             p.loaded && i < |Stops(Disk(p.file, temp), p.mem, io)|
    requires !next.probeFails && !next.readFails
    ensures var p := Run(files, blank, ops).paks[port];
            var left := Stops(Disk(p.file, temp), p.mem, io)[i].pak;
            && (p.valid ==> Usable(left) && EnsureLoaded(Fresh(left), blank, next).1)
            && (left == p.file || left == Present(p.mem))
  {
    RunKeeps(files, blank, ops);
    assert PortOk(Run(files, blank, ops), files[port], blank, port);
    PakFileIsOldOrNew(Disk(Run(files, blank, ops).paks[port].file, temp), Run(files, blank, ops).paks[port].mem, io, i);
    hide Stops, Run;
  }

  /** Once a flush has left a port clean, a new session on the same file reads back every write. */
  lemma FlushedWritesSurviveRestart(files: seq<File>, blank: seq<byte>, ops: seq<Op>, port: nat, block: nat, io: Io)
    requires |files| == PORTS && |blank| == MEMPAK_SIZE && InRange(port, block)
    requires var p := Run(files, blank, ops).paks[port]; p.loaded && p.valid && !p.dirty
    requires !io.probeFails && !io.readFails
    ensures var w := Run(files, blank, ops);
            var files' := seq(PORTS, i requires 0 <= i < PORTS => w.paks[i].file);
            var (_, ok, data) := Read(Start(files'), blank, port, block, io);
            ok && |Initial(files[port], blank)| == MEMPAK_SIZE && data == Expected(w, files[port], blank, port, block)
  {
    RunKeeps(files, blank, ops);
    assert PortOk(Run(files, blank, ops), files[port], blank, port);
  }

  /** A flush whose writes succeed leaves no loaded port dirty. */
  lemma GoodFlushCleans(w: World, ios: seq<Io>, port: nat)
    requires |w.paks| == PORTS && |ios| == PORTS && port < PORTS && !PersistFails(ios[port]) && w.paks[port].loaded
    ensures !FlushAll(w, ios).paks[port].dirty
  {
  }

  lemma RunOne(files: seq<File>, blank: seq<byte>, ops: seq<Op>, op: Op)
    requires |files| == PORTS
    ensures Run(files, blank, ops + [op]) == Step(Run(files, blank, ops), blank, op)
  {
    assert (ops + [op])[..|ops|] == ops;
  }
}
