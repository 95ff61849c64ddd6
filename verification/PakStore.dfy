// The Controller Pak store as the source keeps it, proved against PakModel.

module PakStore {
  import opened Common
  import opened PakFormat
  import opened PakModel

  function Zip(mems: seq<seq<byte>>, loaded: seq<bool>, valid: seq<bool>, dirty: seq<bool>,
               files: seq<File>): (paks: seq<Pak>)
    requires |mems| == |loaded| == |valid| == |dirty| == |files|
    ensures |paks| == |mems|
    ensures forall i | 0 <= i < |mems| :: paks[i] == Pak(mems[i], loaded[i], valid[i], dirty[i], files[i])
  {
    seq(|mems|, i requires 0 <= i < |mems| => Pak(mems[i], loaded[i], valid[i], dirty[i], files[i]))
  }

  lemma SliceIsBlock(m: seq<byte>, block: nat)
    requires block * 32 + 32 <= |m|
    ensures m[block * 32..block * 32 + 32] == Block(m, block)
  {
  }

  lemma WriteSteps(w: World, files: seq<File>, blank: seq<byte>, port: nat, block: nat, data: seq<byte>, io: Io)
    requires Inv(w, files, blank) && InRange(port, block) && |data| == BLOCK
    ensures !w.paks[port].loaded ==> !w.paks[port].valid && !w.paks[port].dirty
    ensures var (p, ok) := PakModel.EnsureLoaded(w.paks[port], blank, io);
            var w' := Step(w, blank, OpWrite(port, block, data, io));
            && Inv(w', files, blank)
            && (ok ==> |p.mem| == MEMPAK_SIZE && block * 32 + 32 <= MEMPAK_SIZE
                       && w' == World(w.paks[port := Store(p, block, data)], w.written[(port, block) := data]))
            && (!ok ==> w' == w.(paks := w.paks[port := p])) && ok == Write(w, blank, port, block, data, io).1
  {
    assert PortOk(w, files[port], blank, port);
    StepKeeps(w, files, blank, OpWrite(port, block, data, io));
    LoadKeeps(w, files, blank, port, io);
    var p := PakModel.EnsureLoaded(w.paks[port], blank, io).0;
    assert PortOk(w.(paks := w.paks[port := p]), files[port], blank, port);
  }

  lemma ReadSteps(files: seq<File>, blank: seq<byte>, history: seq<Op>, port: nat, block: nat, io: Io)
    requires |files| == PORTS && Inv(Run(files, blank, history), files, blank) && InRange(port, block)
    ensures var w := Run(files, blank, history);
            var (p, ok) := PakModel.EnsureLoaded(w.paks[port], blank, io);
            var w' := Step(w, blank, OpRead(port, block, io));
            && (!w.paks[port].loaded ==> !w.paks[port].valid && !w.paks[port].dirty)
            && Inv(w', files, blank) && w' == w.(paks := w.paks[port := p]) && ok == Read(w, blank, port, block, io).1
            && (ok ==>
                  && |p.mem| == MEMPAK_SIZE && block * 32 + 32 <= MEMPAK_SIZE
                  && |Initial(files[port], blank)| == MEMPAK_SIZE
                  && p.mem[block * 32..block * 32 + 32] == Expected(w, files[port], blank, port, block))
  {
    var w := Run(files, blank, history);
    assert PortOk(w, files[port], blank, port);
    StepKeeps(w, files, blank, OpRead(port, block, io));
    LoadKeeps(w, files, blank, port, io);
    var p := PakModel.EnsureLoaded(w.paks[port], blank, io).0;
    assert PortOk(w.(paks := w.paks[port := p]), files[port], blank, port);
    if |p.mem| == MEMPAK_SIZE {
      SliceIsBlock(p.mem, block);
    }
  }

  class MempakStore {
    var mempak: seq<seq<byte>>
    var loaded: seq<bool>
    var dirty: seq<bool>
    var valid: seq<bool>
    /** The files on disk and the temporary ones beside them: changed by `Persist` alone. */
    var files: seq<File>
    var temps: seq<File>
    ghost const originals: seq<File>
    ghost const blank: seq<byte>
    /** Every call so far, with what the host did to it. */
    ghost var history: seq<Op>

    ghost predicate Sized()
      reads this
    {
      |mempak| == |loaded| == |dirty| == |valid| == |files| == |temps| == PORTS
    }

    ghost function Paks(): seq<Pak>
      requires Sized()
      reads this
    {
      Zip(mempak, loaded, valid, dirty, files)
    }

    ghost predicate Valid()
      reads this
    {
      && Sized() && |originals| == PORTS && FormattedEmpty(blank)
      && Paks() == Run(originals, blank, history).paks
      && Inv(Run(originals, blank, history), originals, blank)
    }

    constructor (files: seq<File>)
      requires |files| == PORTS
      ensures Valid() && originals == files && history == []
    {
      mempak := seq(PORTS, _ => []);
      loaded, dirty, valid := seq(PORTS, _ => false), seq(PORTS, _ => false), seq(PORTS, _ => false);
      this.files := files;
      temps := seq(PORTS, _ => Absent);
      originals := files;
      history := [];
      var image := FormatEmptyMempak();
      blank := image;
      new;
      RunKeeps(originals, blank, history);
      assert Paks() == Start(files).paks;
    }

    ghost function DiskAt(port: nat): Disk
      requires Sized() && port < PORTS
      reads this
    {
      Disk(files[port], temps[port])
    }

    /** Writes the image to a temporary file and renames it over the pak file: at every stop the pak file is the old one
        or the whole new one. */
    method Persist(port: nat, io: Io) returns (ok: bool, ghost stops: seq<Disk>)
      requires Sized() && port < PORTS
      modifies this`files, this`temps
      ensures Sized() && ok == !PersistFails(io)
      ensures files == if ok then old(files)[port := Present(mempak[port])] else old(files)
      ensures stops == Stops(old(DiskAt(port)), mempak[port], io) && stops[|stops| - 1] == DiskAt(port)
      ensures forall i | 0 <= i < |stops| :: stops[i].pak == old(files)[port] || stops[i].pak == Present(mempak[port])
    {
      forall i | 0 <= i < |Stops(DiskAt(port), mempak[port], io)|
        ensures var stop := Stops(DiskAt(port), mempak[port], io)[i];
                stop.pak == files[port] || stop.pak == Present(mempak[port])
      {
        PakFileIsOldOrNew(DiskAt(port), mempak[port], io, i);
      }
      stops := [DiskAt(port)];
      if io.fails == Opening {
        return false, stops;
      }
      temps := temps[port := Present([])];
      stops := stops + [DiskAt(port)];
      temps := temps[port := Present(Written(mempak[port], io.reached))];
      stops := stops + [DiskAt(port)];
      if io.fails == Writing || io.fails == Flushing {
        return false, stops;
      }
      temps := temps[port := Present(mempak[port])];
      stops := stops + [DiskAt(port)];
      if io.fails == Closing {
        return false, stops;
      }
      stops := stops + [DiskAt(port)];
      if io.fails == Renaming {
        return false, stops;
      }
      files := files[port := temps[port]];
      temps := temps[port := Absent];
      stops := stops + [DiskAt(port)];
      return true, stops;
    }

    method EnsureLoaded(port: nat, io: Io) returns (ok: bool)
      requires Sized() && port < PORTS && FormattedEmpty(blank)
      requires !loaded[port] ==> !valid[port] && !dirty[port]
      modifies this`mempak, this`loaded, this`dirty, this`valid, this`files, this`temps
      ensures Sized() && Paks() == old(Paks())[port := PakModel.EnsureLoaded(old(Paks())[port], blank, io).0]
      ensures ok == PakModel.EnsureLoaded(old(Paks())[port], blank, io).1
    {
      if loaded[port] {
        return valid[port];
      }
      mempak := mempak[port := seq(MEMPAK_SIZE, _ => 0)];
      assert mempak[port] == Zeros(MEMPAK_SIZE);
      if io.probeFails {
        return false;
      }
      loaded := loaded[port := true];
      if files[port].Present? {
        if !io.readFails && |files[port].bytes| == MEMPAK_SIZE {
          mempak := mempak[port := files[port].bytes];
          valid := valid[port := true];
        }
        if !valid[port] {
          return false;
        }
      } else {
        var image := FormatEmptyMempak();
        FormattedIsUnique(image, blank);
        mempak := mempak[port := image];
        valid := valid[port := true];
        dirty := dirty[port := true];
        var saved, _ := Persist(port, io);
        if saved {
          dirty := dirty[port := false];
        }
      }
      return true;
    }

    /** Refuses a bad port or block; else answers with what the history of writes says. */
    method MempakRead(port: int, block: int, io: Io) returns (ok: bool, out: seq<byte>)
      requires Valid()
      modifies this`mempak, this`loaded, this`dirty, this`valid, this`files, this`temps, this`history
      ensures Valid()
      ensures ok ==> 0 <= port && 0 <= block && InRange(port, block) && |Initial(originals[port], blank)| == MEMPAK_SIZE
                     && out == Expected(Run(originals, blank, old(history)), originals[port], blank, port, block)
      ensures ok <==> 0 <= port && 0 <= block && Read(Run(originals, blank, old(history)), blank, port, block, io).1
      ensures history == if 0 <= port && 0 <= block then old(history) + [OpRead(port, block, io)] else old(history)
    {
      if port < 0 || port >= PORTS || block < 0 || block >= MEMPAK_SIZE / 32 {
        if 0 <= port && 0 <= block {
          RunOne(originals, blank, history, OpRead(port, block, io));
          history := history + [OpRead(port, block, io)];
        }
        return false, [];
      }
      RunOne(originals, blank, history, OpRead(port, block, io));
      ReadSteps(originals, blank, history, port, block, io);
      hide Run, Inv, Step, PakModel.EnsureLoaded, Expected, Initial, Read;
      ok := EnsureLoaded(port, io);
      history := history + [OpRead(port, block, io)];
      if !ok {
        return false, [];
      }
      assert mempak[port] == Paks()[port].mem;
      out := mempak[port][block * 32..block * 32 + 32];
    }

    /** Refuses a bad port or block; a write that succeeds is what later reads return. */
    method MempakWrite(port: int, block: int, data: seq<byte>, io: Io) returns (ok: bool)
      requires Valid() && |data| == BLOCK
      modifies this`mempak, this`loaded, this`dirty, this`valid, this`files, this`temps, this`history
      ensures Valid()
      ensures ok <==>
              0 <= port && 0 <= block
              && Write(Run(originals, blank, old(history)), blank, port, block, data, io).1
      ensures history ==
              if 0 <= port && 0 <= block && InRange(port, block) then old(history) + [OpWrite(port, block, data, io)]
                         else old(history)
      ensures Run(originals, blank, history).written ==
              if ok then Run(originals, blank, old(history)).written[(port as nat, block as nat) := data]
              else Run(originals, blank, old(history)).written
    {
      if port < 0 || port >= PORTS || block < 0 || block >= MEMPAK_SIZE / 32 {
        return false;
      }
      ok := WriteBlock(port, block, data, io);
    }

    method WriteBlock(port: nat, block: nat, data: seq<byte>, io: Io) returns (ok: bool)
      requires Valid() && |data| == BLOCK && InRange(port, block)
      modifies this`mempak, this`loaded, this`dirty, this`valid, this`files, this`temps, this`history
      ensures Valid() && history == old(history) + [OpWrite(port, block, data, io)]
      ensures ok == Write(Run(originals, blank, old(history)), blank, port, block, data, io).1
      ensures Run(originals, blank, history).written ==
              if ok then Run(originals, blank, old(history)).written[(port, block) := data]
              else Run(originals, blank, old(history)).written
    {
      hide Run, Inv, PakModel.EnsureLoaded, Store, Step, FormattedEmpty, Write;
      ghost var w := Run(originals, blank, history);
      WriteSteps(w, originals, blank, port, block, data, io);
      RunOne(originals, blank, history, OpWrite(port, block, data, io));
      ok := EnsureLoaded(port, io);
      history := history + [OpWrite(port, block, data, io)];
      if ok {
        assert mempak[port] == Paks()[port].mem;
        StoreAt(port, block, data);
      }
    }

    /** The copy of a block into the image, skipped when it changes nothing. */
    method StoreAt(port: nat, block: nat, data: seq<byte>)
      requires Sized() && InRange(port, block) && |data| == BLOCK && |mempak[port]| == MEMPAK_SIZE
      modifies this`mempak, this`dirty
      ensures Sized() && Paks() == old(Paks())[port := Store(old(Paks())[port], block, data)]
    {
      ghost var paks := Paks();
      SliceIsBlock(mempak[port], block);
      hide Block, Put;
      if mempak[port][block * 32..block * 32 + 32] != data {
        mempak := mempak[port := Put(mempak[port], block, data)];
        dirty := dirty[port := true];
      }
      assert Paks() == paks[port := Store(paks[port], block, data)];
    }

    /** Writes back every dirty pak; one whose write fails stays dirty for the next flush. */
    method MempakFlushAll(ios: seq<Io>)
      requires Valid() && |ios| == PORTS
      modifies this`files, this`temps, this`dirty, this`history
      ensures Valid() && history == old(history) + [OpFlush(ios)]
      ensures forall port | 0 <= port < PORTS :: old(loaded)[port] && !PersistFails(ios[port]) ==> !dirty[port]
    {
      RunOne(originals, blank, history, OpFlush(ios));
      StepKeeps(Run(originals, blank, history), originals, blank, OpFlush(ios));
      ghost var before := Paks();
      hide Run, Inv, Flush;
      for port := 0 to PORTS
        invariant Sized() && history == old(history)
        invariant forall i | 0 <= i < PORTS :: Paks()[i] == if i < port then Flush(before[i], ios[i]) else before[i]
      {
        FlushOne(port, ios[port]);
      }
      history := history + [OpFlush(ios)];
      assert Paks() == FlushAll(Run(originals, blank, old(history)), ios).paks;
      forall port | 0 <= port < PORTS && old(loaded)[port] && !PersistFails(ios[port])
        ensures !dirty[port]
      {
        assert dirty[port] == Paks()[port].dirty && old(loaded)[port] == before[port].loaded;
        GoodFlushCleans(Run(originals, blank, old(history)), ios, port);
      }
    }

    method FlushOne(port: nat, io: Io)
      requires Sized() && port < PORTS
      modifies this`files, this`temps, this`dirty
      ensures Sized() && Paks() == old(Paks())[port := Flush(old(Paks())[port], io)]
    {
      ghost var paks := Paks();
      if loaded[port] && dirty[port] {
        var saved, _ := Persist(port, io);
        if saved {
          dirty := dirty[port := false];
        }
      }
      assert Paks() == paks[port := Flush(paks[port], io)];
    }
  }
}
