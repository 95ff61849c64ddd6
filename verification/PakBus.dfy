// Bus frames over the Controller Pak store: every frame of every history, with a store whose files may fail.

module PakBus {
  import opened Common
  import opened PakFormat
  import PakCrc
  import SiReplies
  import S = SiFrames
  import M = PakModel

  // ----- bytes of the window and of the store -----

  function Value(b: bv8): byte { b as int }

  function Raw(b: byte): bv8 { b as bv8 }

  lemma RawValue(b: bv8)
    ensures Raw(Value(b)) == b
  {
  }

  function Values(s: seq<bv8>): (v: seq<byte>)
    ensures |v| == |s| && forall i | 0 <= i < |s| :: v[i] == Value(s[i])
  {
    seq(|s|, i requires 0 <= i < |s| => Value(s[i]))
  }

  function Raws(v: seq<byte>): (s: seq<bv8>)
    ensures |s| == |v| && forall i | 0 <= i < |v| :: s[i] == Raw(v[i])
  {
    seq(|v|, i requires 0 <= i < |v| => Raw(v[i]))
  }

  lemma RawsOfValues(s: seq<bv8>)
    ensures Raws(Values(s)) == s
  {
    forall i | 0 <= i < |s|
      ensures Raws(Values(s))[i] == s[i]
    {
      RawValue(s[i]);
    }
  }

  // ----- what a frame asks for -----

  /** A pak transaction of the window: where it sits, and what it asks of which port. */
  datatype Access = Access(fb: int, port: nat, cmd: bv8, block: nat, data: seq<bv8>) {
    predicate IsWrite() { cmd == 3 }
  }

  function AccessAt(w: seq<bv8>, fb: int, port: nat, cmd: bv8): Access
    requires |w| == S.WINDOW && -1 <= fb <= 3
  {
    Access(fb, port, cmd, S.AddressBlock(w[fb + 4], w[fb + 5]), if cmd == 3 then w[fb + 6..fb + 38] else S.Fill(0))
  }

  /** The transaction the read DMA carries out, if any. */
  function AccessOf(env: S.Env, w: seq<bv8>): (a: Option<Access>)
    requires S.EnvOk(env) && |w| == S.WINDOW
    ensures a.Some? ==> -1 <= a.value.fb <= 3 && a.value.port < 4 && |a.value.data| == 32
  {
    var lead := S.Lead(w);
    if S.ShortStatus(w) then None
    else if S.ShortPak(w) then
      if S.HasPak(env, lead) then Some(AccessAt(w, lead - 1, lead, w[lead + 2])) else None
    else
      var ch := S.FirstLong(w, 0);
      if ch < 4 && S.HasPak(env, ch) then Some(AccessAt(w, ch, ch, w[ch + 3])) else None
  }

  /** A pak request is an access if and only if a pak is there, to the block it addresses and with the bytes it
      carries. */
  lemma RequestIsAccess(env: S.Env, w: seq<bv8>, port: nat, at: nat)
    requires S.EnvOk(env) && SiReplies.PakRequest(w, port, at)
    ensures var isWrite := w[at + 2] == 3;
            AccessOf(env, w) ==
            if env.ports[port].connected && !env.ports[port].pak.NoPak? then
              Some(Access(at - 1, port, if isWrite then 3 else 2, SiReplies.AddressedBlock(w, at),
                          if isWrite then w[at + 5..at + 37] else seq(32, _ => 0)))
            else None
  {
    assert S.Lead(w) == port;
    assert S.Fill(0) == seq(32, _ => 0);
    assert S.AddressBlock(w[at + 3], w[at + 4]) == SiReplies.AddressedBlock(w, at);
    hide S.AddressBlock, SiReplies.AddressedBlock, S.Fill;
    if at == port + 1 {
      SiReplies.FirstLongHere(w, port);
    }
  }

  /** The transaction is for the save. */
  predicate ForSave(env: S.Env, a: Access)
    requires S.EnvOk(env) && a.port < 4
  {
    a.block < S.BLOCK_DETECT && env.ports[a.port].pak.ControllerPak?
  }

  // ----- the store behind the frames -----

  /** The blocks of a whole pak. */
  function BlocksOf(mem: seq<byte>): (blocks: map<nat, seq<bv8>>)
    requires |mem| == MEMPAK_SIZE
    ensures forall b: nat :: b in blocks <==> b < S.BLOCK_DETECT
    ensures forall b: nat | b < S.BLOCK_DETECT :: blocks[b] == Raws(Block(mem, b)) && |blocks[b]| == 32
  {
    map b: nat | b < S.BLOCK_DETECT :: Raws(Block(mem, b))
  }

  /** A port's image as an access made now would find it. */
  function ImageOf(p: M.Pak, blank: seq<byte>, io: M.Io): (image: S.Image)
    ensures S.ImageOk(image)
  {
    var (p', ok) := M.EnsureLoaded(p, blank, io);
    if !ok || |p'.mem| != MEMPAK_SIZE then S.Unreadable
    else S.Readable(BlocksOf(p'.mem))
  }

  datatype Bus = Bus(cells: seq<seq<bv8>>, motor: seq<(nat, bool)>, store: M.World)

  ghost predicate BusOk(bus: Bus) {
    |bus.cells| == 4 && |bus.store.paks| == M.PORTS && forall i | 0 <= i < 4 :: |bus.cells[i]| == 32
  }

  function Images(store: M.World, blank: seq<byte>, io: M.Io): (images: seq<S.Image>)
    requires |store.paks| == M.PORTS
    ensures |images| == 4 && forall i | 0 <= i < 4 :: images[i] == ImageOf(store.paks[i], blank, io)
  {
    seq(4, i requires 0 <= i < 4 => ImageOf(store.paks[i], blank, io))
  }

  function DeviceOf(bus: Bus, blank: seq<byte>, io: M.Io): (dev: S.Device)
    requires BusOk(bus)
    ensures S.DeviceOk(dev)
  {
    S.Device(bus.cells, Images(bus.store, blank, io), bus.motor)
  }

  /** What the store is asked to do. */
  function OpOf(env: S.Env, a: Access, io: M.Io): M.Op
    requires S.EnvOk(env)
  {
    if a.IsWrite() then M.OpWrite(a.port, a.block, Values(a.data), io) else M.OpRead(a.port, a.block, io)
  }

  function Touch(store: M.World, blank: seq<byte>, env: S.Env, w: seq<bv8>, io: M.Io): (store': M.World)
    requires |store.paks| == M.PORTS && S.EnvOk(env) && |w| == S.WINDOW
    ensures |store'.paks| == M.PORTS
  {
    match AccessOf(env, w)
    case None => store
    case Some(a) => if ForSave(env, a) then M.Step(store, blank, OpOf(env, a, io)) else store
  }

  /** One read DMA: the window answered, and the device and store after it. */
  function Frame(bus: Bus, blank: seq<byte>, env: S.Env, w: seq<bv8>, io: M.Io): (r: (seq<bv8>, Bus))
    requires BusOk(bus) && S.EnvOk(env) && |w| == S.WINDOW
    ensures |r.0| == S.WINDOW && BusOk(r.1)
  {
    var (w', dev') := S.ReadDma(env, w, DeviceOf(bus, blank, io));
    (w', Bus(dev'.cells, dev'.motor, Touch(bus.store, blank, env, w, io)))
  }

  // ----- histories -----

  datatype Event = OnBus(env: S.Env, window: seq<bv8>, io: M.Io) | OnFlush(ios: seq<M.Io>)

  ghost predicate EventOk(e: Event) { e.OnBus? ==> S.EnvOk(e.env) && |e.window| == S.WINDOW }

  ghost predicate EventsOk(events: seq<Event>) { forall e | e in events :: EventOk(e) }

  function Apply(bus: Bus, blank: seq<byte>, e: Event): (bus': Bus)
    requires BusOk(bus) && EventOk(e)
    ensures BusOk(bus')
  {
    match e
    case OnBus(env, window, io) => Frame(bus, blank, env, window, io).1
    case OnFlush(ios) => bus.(store := M.FlushAll(bus.store, ios))
  }

  function Run(files: seq<M.File>, blank: seq<byte>, cells: seq<seq<bv8>>, events: seq<Event>): (bus: Bus)
    requires |files| == M.PORTS && |cells| == 4 && (forall i | 0 <= i < 4 :: |cells[i]| == 32) && EventsOk(events)
    ensures BusOk(bus)
  {
    if events == [] then Bus(cells, [], M.Start(files)) else
    var front, last := events[..|events| - 1], events[|events| - 1];
    assert last in events && EventsOk(front);
    Apply(Run(files, blank, cells, front), blank, last)
  }

  /** What the history asks of the store. */
  function OpsOf(events: seq<Event>): seq<M.Op>
    requires EventsOk(events)
  {
    if events == [] then [] else
    var front, last := events[..|events| - 1], events[|events| - 1];
    assert last in events && EventsOk(front);
    OpsOf(front) + LastOps(last)
  }

  /** The store behind the bus is the store of those operations. */
  lemma {:induction false} StoreRuns(files: seq<M.File>, blank: seq<byte>, cells: seq<seq<bv8>>, events: seq<Event>)
    requires |files| == M.PORTS && |cells| == 4 && (forall i | 0 <= i < 4 :: |cells[i]| == 32) && EventsOk(events)
    ensures Run(files, blank, cells, events).store == M.Run(files, blank, OpsOf(events))
  {
    if events != [] {
      var front, last := events[..|events| - 1], events[|events| - 1];
      assert last in events && EventsOk(front);
      StoreRuns(files, blank, cells, front);
      hide M.Step, AccessOf, Frame;
      LastOp(files, blank, OpsOf(front), last);
    }
  }

  function LastOps(e: Event): seq<M.Op>
    requires EventOk(e)
  {
    match e
    case OnFlush(ios) => [M.OpFlush(ios)]
    case OnBus(env, window, io) =>
      var a := AccessOf(env, window);
      if a.Some? && ForSave(env, a.value) then [OpOf(env, a.value, io)] else []
  }

  lemma LastOp(files: seq<M.File>, blank: seq<byte>, ops: seq<M.Op>, e: Event)
    requires |files| == M.PORTS && EventOk(e)
    ensures var store := M.Run(files, blank, ops);
            M.Run(files, blank, ops + LastOps(e)) ==
            if e.OnFlush? then M.FlushAll(store, e.ios) else Touch(store, blank, e.env, e.window, e.io)
  {
    hide M.Run, AccessOf;
    if LastOps(e) == [] {
      assert ops + [] == ops;
    } else {
      M.RunOne(files, blank, ops, LastOps(e)[0]);
    }
  }

  // ----- one frame and the store -----

  /** A transaction is acknowledged when its error bit stays clear. */
  predicate Acknowledged(w: seq<bv8>, fb: int)
    requires |w| == S.WINDOW && -1 <= fb <= 3
  {
    w[fb + 2] & 0x80 == 0
  }

  lemma ErrorBit(b: bv8)
    ensures ((b & 0x3f) | 0x80) & 0x80 != 0
  {
  }

  lemma DmaIsPak(env: S.Env, w: seq<bv8>, dev: S.Device)
    requires S.EnvOk(env) && S.DeviceOk(dev) && |w| == S.WINDOW && AccessOf(env, w).Some?
    ensures var a := AccessOf(env, w).value;
            && S.ReadDma(env, w, dev) == S.HandlePak(env, w, a.fb, a.port, a.cmd, dev)
            && a == AccessAt(w, a.fb, a.port, a.cmd)
  {
    hide S.HandlePak, S.AddressBlock;
  }

  /** The receive size of a pak triple has no error bit. */
  lemma PakRx(env: S.Env, w: seq<bv8>)
    requires S.EnvOk(env) && |w| == S.WINDOW && AccessOf(env, w).Some?
    ensures w[AccessOf(env, w).value.fb + 2] & 0x80 == 0
  {
    hide S.AddressBlock;
  }

  lemma PakAnswers(env: S.Env, w: seq<bv8>, a: Access, dev: S.Device)
    requires S.EnvOk(env) && S.DeviceOk(dev) && |w| == S.WINDOW && -1 <= a.fb <= 3 && a.port < 4
    requires a == AccessAt(w, a.fb, a.port, a.cmd) && w[a.fb + 2] & 0x80 == 0
    ensures var (w', dev') := S.HandlePak(env, w, a.fb, a.port, a.cmd, dev);
            var (served, answer) := S.Serve(env, dev, a.port, a.block, a.IsWrite(), a.data);
            && dev' == served && (Acknowledged(w', a.fb) <==> answer.Some?)
            && (answer.Some? && !a.IsWrite() ==> w'[a.fb + 6..a.fb + 38] == answer.value)
  {
    ErrorBit(w[a.fb + 2]);
    hide S.Serve, PakCrc.Crc, S.AddressBlock, S.DeviceOk, S.Fill, Values, Raws;
    var (w', answer) := (S.HandlePak(env, w, a.fb, a.port, a.cmd, dev).0,
                         S.Serve(env, dev, a.port, a.block, a.IsWrite(), a.data).1);
    if answer.Some? {
      assert w'[a.fb + 2] == w[a.fb + 2];
    }
  }

  /** The window after a transaction: acknowledged with the data served, or its error bit set. */
  lemma FrameAnswers(env: S.Env, w: seq<bv8>, dev: S.Device)
    requires S.EnvOk(env) && S.DeviceOk(dev) && |w| == S.WINDOW && AccessOf(env, w).Some?
    ensures var a := AccessOf(env, w).value;
            var (w', dev') := S.ReadDma(env, w, dev);
            var (served, answer) := S.Serve(env, dev, a.port, a.block, a.IsWrite(), a.data);
            && dev' == served && (Acknowledged(w', a.fb) <==> answer.Some?)
            && (answer.Some? && !a.IsWrite() ==> w'[a.fb + 6..a.fb + 38] == answer.value)
  {
    DmaIsPak(env, w, dev);
    PakRx(env, w);
    PakAnswers(env, w, AccessOf(env, w).value, dev);
    hide *;
  }

  // ----- the store does what the frame says -----

  /** An image there is one of the pak's size. */
  lemma LoadedImage(store: M.World, files: seq<M.File>, blank: seq<byte>, port: nat, io: M.Io)
    requires M.Inv(store, files, blank) && port < M.PORTS
    ensures var (p, ok) := M.EnsureLoaded(store.paks[port], blank, io);
            && (ok ==> |p.mem| == MEMPAK_SIZE && p.loaded && p.valid)
            && M.EnsureLoaded(p, blank, io) == (p, ok)
            && ImageOf(p, blank, io) == ImageOf(store.paks[port], blank, io)
  {
    assert M.PortOk(store, files[port], blank, port);
  }

  /** A save transaction, as the frame sees the image and as the store carries it out: both answer, or neither; with
      the same bytes; and both are left with the same image. */
  lemma SaveAgrees(store: M.World, files: seq<M.File>, blank: seq<byte>, env: S.Env, a: Access, dev: S.Device, io: M.Io)
    requires M.Inv(store, files, blank) && S.EnvOk(env) && S.DeviceOk(dev) && a.port < 4 && |a.data| == 32
    requires ForSave(env, a) && dev.images == Images(store, blank, io)
    ensures var (served, answer) := S.Serve(env, dev, a.port, a.block, a.IsWrite(), a.data);
            var store' := M.Step(store, blank, OpOf(env, a, io));
            && |store'.paks| == M.PORTS && served.images == Images(store', blank, io)
            && (answer.Some? <==> M.Read(store, blank, a.port, a.block, io).1)
            && (answer.Some? && !a.IsWrite() ==>
                  answer.value == Raws(M.Read(store, blank, a.port, a.block, io).2))
            && store'.written == if a.IsWrite() && answer.Some? then store.written[(a.port, a.block) := Values(a.data)]
                                 else store.written
  {
    LoadedImage(store, files, blank, a.port, io);
    if a.IsWrite() {
      WriteAgrees(store, files, blank, env, a, dev, io);
    } else {
      ReadAgrees(store, files, blank, env, a, dev, io);
    }
  }

  lemma OthersStay(store: M.World, p: M.Pak, written: map<(nat, nat), seq<byte>>, blank: seq<byte>, port: nat, io: M.Io,
                   images: seq<S.Image>)
    requires |store.paks| == M.PORTS && port < M.PORTS
    requires images == Images(store, blank, io)[port := ImageOf(p, blank, io)]
    ensures images == Images(M.World(store.paks[port := p], written), blank, io)
  {
    hide ImageOf;
  }

  lemma ReadAgrees(store: M.World, files: seq<M.File>, blank: seq<byte>, env: S.Env, a: Access, dev: S.Device, io: M.Io)
    requires M.Inv(store, files, blank) && S.EnvOk(env) && S.DeviceOk(dev) && a.port < 4 && |a.data| == 32
    requires ForSave(env, a) && dev.images == Images(store, blank, io) && !a.IsWrite()
    ensures var (served, answer) := S.Serve(env, dev, a.port, a.block, false, a.data);
            var (store', ok, data) := M.Read(store, blank, a.port, a.block, io);
            && served.images == Images(store', blank, io) && store'.written == store.written
            && (answer.Some? <==> ok) && (answer.Some? ==> answer.value == Raws(data))
  {
    LoadedImage(store, files, blank, a.port, io);
    var p := M.EnsureLoaded(store.paks[a.port], blank, io).0;
    assert dev.images == Images(store, blank, io)[a.port := ImageOf(p, blank, io)];
    OthersStay(store, p, store.written, blank, a.port, io, dev.images);
    hide M.EnsureLoaded, M.Inv;
  }

  /** Writing a block of the pak writes that block of the image. */
  lemma StoredImage(p: M.Pak, blank: seq<byte>, io: M.Io, block: nat, data: seq<bv8>)
    requires p.loaded && p.valid && |p.mem| == MEMPAK_SIZE && block < S.BLOCK_DETECT && |data| == 32
    ensures ImageOf(p, blank, io).Readable?
    ensures ImageOf(M.Store(p, block, Values(data)), blank, io) ==
            S.Readable(ImageOf(p, blank, io).blocks[block := data])
  {
    var p' := M.Store(p, block, Values(data));
    RawsOfValues(data);
    StoreBlocks(p, block, Values(data));
    hide *;
    LoadedPakImage(p, blank, io);
    LoadedPakImage(p', blank, io);
    BlocksUpdated(p.mem, p'.mem, block, data);
  }

  lemma BlocksUpdated(mem: seq<byte>, mem': seq<byte>, block: nat, data: seq<bv8>)
    requires |mem| == |mem'| == MEMPAK_SIZE && block < S.BLOCK_DETECT && Raws(Values(data)) == data
    requires forall b: nat | b < S.BLOCK_DETECT ::
               Block(mem', b) == if b == block then Values(data) else Block(mem, b)
    ensures BlocksOf(mem') == BlocksOf(mem)[block := data]
  {
    var blocks, blocks' := BlocksOf(mem)[block := data], BlocksOf(mem');
    assert S.BLOCK_DETECT == 0x400;
    hide *;
    forall b: nat | b in blocks'
      ensures b in blocks && blocks'[b] == blocks[b]
    {
      assert blocks'[b] == Raws(Block(mem', b));
    }
  }

  lemma StoreBlocks(p: M.Pak, block: nat, data: seq<byte>)
    requires p.loaded && p.valid && |p.mem| == MEMPAK_SIZE && block < S.BLOCK_DETECT && |data| == 32
    ensures var p' := M.Store(p, block, data);
            && |p'.mem| == MEMPAK_SIZE && p'.loaded && p'.valid
            && forall b: nat | b < S.BLOCK_DETECT :: Block(p'.mem, b) == if b == block then data else Block(p.mem, b)
  {
    forall b: nat | b < S.BLOCK_DETECT
      ensures Block(M.Put(p.mem, block, data), b) == if b == block then data else Block(p.mem, b)
    {
      M.PutBlock(p.mem, block, data, b);
    }
    hide M.Put, Block;
  }

  lemma LoadedPakImage(p: M.Pak, blank: seq<byte>, io: M.Io)
    requires p.loaded && p.valid && |p.mem| == MEMPAK_SIZE
    ensures ImageOf(p, blank, io) == S.Readable(BlocksOf(p.mem))
  {
    hide BlocksOf;
  }

  lemma WriteAgrees(store: M.World, files: seq<M.File>, blank: seq<byte>, env: S.Env, a: Access, dev: S.Device,
                    io: M.Io)
    requires M.Inv(store, files, blank) && S.EnvOk(env) && S.DeviceOk(dev) && a.port < 4 && |a.data| == 32
    requires ForSave(env, a) && dev.images == Images(store, blank, io) && a.IsWrite()
    ensures var (served, answer) := S.Serve(env, dev, a.port, a.block, true, a.data);
            var store' := M.Write(store, blank, a.port, a.block, Values(a.data), io).0;
            && served.images == Images(store', blank, io)
            && (answer.Some? <==> M.Read(store, blank, a.port, a.block, io).1)
            && store'.written ==
               if answer.Some? then store.written[(a.port, a.block) := Values(a.data)] else store.written
  {
    LoadedImage(store, files, blank, a.port, io);
    var (p, ok) := M.EnsureLoaded(store.paks[a.port], blank, io);
    if ok {
      StoredImage(p, blank, io, a.block, a.data);
      var p' := M.Store(p, a.block, Values(a.data));
      OthersStay(store, p', store.written[(a.port, a.block) := Values(a.data)], blank, a.port, io,
                 dev.images[a.port := ImageOf(p', blank, io)]);
      hide M.Store;
    } else {
      assert dev.images == Images(store, blank, io)[a.port := ImageOf(p, blank, io)];
      OthersStay(store, p, store.written, blank, a.port, io, dev.images);
    }
    hide M.EnsureLoaded, M.Inv, Raws, Values;
  }

  // ----- every history -----

  /** In every history of frames and flushes, whatever fails: an acknowledged read returns what was last written to
      that block of that port with an acknowledgement, or what the file or the blank pak held; and a read is
      acknowledged exactly when the store answers it. */
  lemma AcknowledgedReadReturnsLastWrite(files: seq<M.File>, blank: seq<byte>, cells: seq<seq<bv8>>, events: seq<Event>,
                                         env: S.Env, w: seq<bv8>, io: M.Io)
    requires |files| == M.PORTS && |blank| == MEMPAK_SIZE && |cells| == 4 && (forall i | 0 <= i < 4 :: |cells[i]| == 32)
    requires EventsOk(events) && S.EnvOk(env) && |w| == S.WINDOW && AccessOf(env, w).Some?
    requires ForSave(env, AccessOf(env, w).value) && !AccessOf(env, w).value.IsWrite()
    ensures var bus, a := Run(files, blank, cells, events), AccessOf(env, w).value;
            var w' := Frame(bus, blank, env, w, io).0;
            && (Acknowledged(w', a.fb) <==> M.Read(bus.store, blank, a.port, a.block, io).1)
            && (Acknowledged(w', a.fb) ==>
                  && |M.Initial(files[a.port], blank)| == MEMPAK_SIZE
                  && w'[a.fb + 6..a.fb + 38] == Raws(M.Expected(bus.store, files[a.port], blank, a.port, a.block)))
  {
    var bus, a := Run(files, blank, cells, events), AccessOf(env, w).value;
    StoreRuns(files, blank, cells, events);
    M.RunKeeps(files, blank, OpsOf(events));
    M.ReadReturnsLastWrite(files, blank, OpsOf(events), a.port, a.block, io);
    FrameAnswers(env, w, DeviceOf(bus, blank, io));
    SaveAgrees(bus.store, files, blank, env, a, DeviceOf(bus, blank, io), io);
    hide *;
  }

  /** And what is recorded as written is what writes were acknowledged: every other frame leaves the record alone, and
      every frame leaves both views of the saves the same. */
  lemma AcknowledgedWritesAreRecorded(files: seq<M.File>, blank: seq<byte>, cells: seq<seq<bv8>>, events: seq<Event>,
                                      env: S.Env, w: seq<bv8>, io: M.Io)
    requires |files| == M.PORTS && |blank| == MEMPAK_SIZE && |cells| == 4 && (forall i | 0 <= i < 4 :: |cells[i]| == 32)
    requires EventsOk(events) && S.EnvOk(env) && |w| == S.WINDOW
    ensures var bus, access := Run(files, blank, cells, events), AccessOf(env, w);
            var (w', bus') := Frame(bus, blank, env, w, io);
            && S.ReadDma(env, w, DeviceOf(bus, blank, io)) == (w', DeviceOf(bus', blank, io))
            && bus'.store.written ==
               if && access.Some? && ForSave(env, access.value) && access.value.IsWrite()
                  && Acknowledged(w', access.value.fb)
               then bus.store.written[(access.value.port, access.value.block) := Values(access.value.data)]
               else bus.store.written
  {
    var bus, dev := Run(files, blank, cells, events), DeviceOf(Run(files, blank, cells, events), blank, io);
    StoreRuns(files, blank, cells, events);
    M.RunKeeps(files, blank, OpsOf(events));
    if AccessOf(env, w).Some? {
      FrameAnswers(env, w, dev);
      if ForSave(env, AccessOf(env, w).value) {
        SaveAgrees(bus.store, files, blank, env, AccessOf(env, w).value, dev, io);
        hide S.Serve, S.ReadDma, M.Step, Images, AccessOf, Run, OpOf, M.Inv, Values;
      } else {
        NotForSave(env, dev, AccessOf(env, w).value);
        hide S.Serve, S.ReadDma, Images, AccessOf, Run, M.Inv, Values;
      }
    } else {
      NoAccess(env, w, dev);
      hide S.ReadDma, Images, AccessOf, Run, M.Inv;
    }
  }

  lemma NotForSave(env: S.Env, dev: S.Device, a: Access)
    requires S.EnvOk(env) && S.DeviceOk(dev) && a.port < 4 && |a.data| == 32 && !ForSave(env, a)
    ensures S.Serve(env, dev, a.port, a.block, a.IsWrite(), a.data).0.images == dev.images
  {
  }

  lemma NoAccess(env: S.Env, w: seq<bv8>, dev: S.Device)
    requires S.EnvOk(env) && S.DeviceOk(dev) && |w| == S.WINDOW && AccessOf(env, w).None?
    ensures S.ReadDma(env, w, dev).1 == dev
  {
    hide S.HandlePak, S.AddressBlock, S.PollUpTo;
  }
}
