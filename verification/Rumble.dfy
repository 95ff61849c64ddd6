// The four rumble motors as the source runs them: fields of four ports updated in place by writes and steps.

module Rumble {
  import opened RumbleModel

  const PORTS: nat := 4

  class Rumble {
    var motors: seq<Motor>
    var started: bool
    var lastT: int
    var lastOn: seq<int>
    var level: seq<real>
    var lastSent: seq<int>
    var lastSend: seq<int>
    /** The last stamp at each port: while a step is at one port, writes go on at the others. */
    ghost var now: seq<int>

    ghost predicate Sized()
      reads this
    {
      |motors| == |lastOn| == |level| == |lastSent| == |lastSend| == |now| == PORTS
    }

    ghost function Port(p: nat): World
      requires Sized() && p < PORTS
      reads this
    {
      World(motors[p], Drive(lastOn[p], level[p], lastSent[p], lastSend[p]), started, lastT, now[p])
    }

    /** Every port is in a state some history reaches. */
    ghost predicate Valid()
      reads this
    {
      Sized() && forall p | 0 <= p < PORTS :: Inv(Port(p))
    }

    constructor (t0: int)
      ensures Valid() && forall p | 0 <= p < PORTS :: Port(p) == Start(t0)
    {
      motors := seq(PORTS, _ => Motor(false, 0, 0));
      started, lastT := false, 0;
      lastOn, level := seq(PORTS, _ => 0), seq(PORTS, _ => 0.0);
      lastSent, lastSend := seq(PORTS, _ => -1), seq(PORTS, _ => 0);
      now := seq(PORTS, _ => t0);
    }

    ghost function Ports(): (w: seq<World>)
      requires Sized()
      reads this
      ensures |w| == PORTS && forall p | 0 <= p < PORTS :: w[p] == Port(p)
    {
      [Port(0), Port(1), Port(2), Port(3)]
    }

    /** A motor write: one port's motor changes, if the port exists. */
    method WriteMotor(port: int, on: bool, t: int)
      requires Valid() && (0 <= port < PORTS ==> t >= Port(port).now)
      modifies this`motors, this`now
      ensures Valid()
      ensures forall p | 0 <= p < PORTS ::
                Port(p) == if p == port then Apply(old(Port(p)), Switch(on, t)) else old(Port(p))
    {
      ghost var before := Ports();
      if 0 <= port < PORTS {
        ApplyKeeps(before[port], Switch(on, t));
        hide Inv;
        now := now[port := t];
        Set(port, on, t);
        assert forall p | 0 <= p < PORTS ::
                 Port(p) == if p == port then Apply(before[p], Switch(on, t)) else before[p];
      }
    }

    /** The locked part of a motor write: nothing happens unless the state changes. */
    method Set(port: nat, on: bool, t: int)
      requires Sized() && port < PORTS
      modifies this`motors
      ensures motors == old(motors)[port := SwitchMotor(old(motors)[port], on, t)]
    {
      var m := motors[port];
      if on != m.on {
        if on {
          m := m.(onSince := t);
        } else {
          m := m.(onTotal := m.onTotal + (t - m.onSince));
        }
        m := m.(on := on);
        motors := motors[port := m];
      }
    }

    /** The writes of the game's thread that reach a motor before the step reads it. */
    method Land(port: nat, late: seq<Write>)
      requires Sized() && port < PORTS
      modifies this`motors
      ensures motors == old(motors)[port := Landed(old(motors)[port], late)]
    {
      ghost var before := motors;
      assert late[..0] == [];
      for i := 0 to |late|
        invariant |motors| == PORTS && motors == before[port := Landed(before[port], late[..i])]
      {
        assert late[..i + 1][..i] == late[..i];
        Set(port, late[i].on, late[i].at);
      }
      assert late[..|late|] == late;
    }

    /** The step of one port, over the interval since `t0`. */
    method StepOne(p: nat, tick: Tick, t0: int) returns (strength: int, sent: bool)
      requires Sized() && p < PORTS && tick.t > t0
      modifies this`lastOn, this`level, this`lastSent, this`lastSend
      ensures Sized()
      ensures (Port(p).drive, strength, sent) == Advance(old(Port(p)).drive, motors[p], t0, tick)
      ensures forall q | 0 <= q < PORTS && q != p :: Port(q) == old(Port(q))
    {
      hide Strength, OnTime, Changed, Clamp, Blend, RawDuty;
      var duty := Clamp(RawDuty(Drive(lastOn[p], level[p], lastSent[p], lastSend[p]), motors[p], tick.t, t0), 0.0, 1.0);
      lastOn := lastOn[p := OnTime(motors[p], tick.t)];
      level := level[p := Blend(level[p], duty, tick)];
      strength := Strength(level[p], tick);
      sent := Changed(lastSent[p], strength) || (strength != 0 && tick.t - lastSend[p] > REFRESH_NS);
      if sent {
        lastSent := lastSent[p := strength];
        lastSend := lastSend[p := tick.t];
      }
    }

    /** One frame: every port's duty, level and strength, and which strengths to send. `late[p]` are the writes that
        overtake the step at port p. */
    method StepAll(tick: Tick, late: seq<seq<Write>>) returns (out: seq<int>, send: seq<bool>)
      requires Valid() && |late| == PORTS
      requires forall p | 0 <= p < PORTS :: tick.t >= Port(p).now && EventOk(Step(tick, late[p]))
      modifies this`motors, this`started, this`lastT, this`now, this`lastOn, this`level, this`lastSent, this`lastSend
      ensures Valid() && |out| == |send| == PORTS
      ensures forall p | 0 <= p < PORTS :: Port(p) == Apply(old(Port(p)), Step(tick, late[p]))
      ensures forall p | 0 <= p < PORTS ::
                if old(started) && tick.t > old(lastT) then
                  (Port(p).drive, out[p], send[p]) == Advance(old(Port(p)).drive, motors[p], old(lastT), tick)
                else out[p] == Max(old(lastSent)[p], 0) && !send[p]
    {
      ghost var before := Ports();
      StepsKeep(before, tick, late);
      hide Inv, Advance, EventOk, Landed, Apply;
      out, send := OneFrame(tick, late);
    }

    method OneFrame(tick: Tick, late: seq<seq<Write>>) returns (out: seq<int>, send: seq<bool>)
      requires Sized() && |late| == PORTS
      modifies this`motors, this`started, this`lastT, this`now, this`lastOn, this`level, this`lastSent, this`lastSend
      ensures Sized() && |out| == |send| == PORTS
      ensures forall p | 0 <= p < PORTS :: Port(p) == Apply(old(Port(p)), Step(tick, late[p]))
      ensures forall p | 0 <= p < PORTS ::
                if old(started) && tick.t > old(lastT) then
                  (Port(p).drive, out[p], send[p]) == Advance(old(Port(p)).drive, motors[p], old(lastT), tick)
                else out[p] == Max(old(lastSent)[p], 0) && !send[p]
    {
      ghost var before := Ports();
      hide Advance, Landed, OnTime;
      now := seq(PORTS, p requires 0 <= p < |late| => LastAt(tick.t, late[p]));
      var t := tick.t;
      out := [Max(lastSent[0], 0), Max(lastSent[1], 0), Max(lastSent[2], 0), Max(lastSent[3], 0)];
      send := [false, false, false, false];
      if !started {
        started := true;
        lastT := t;
        FirstReading(t, late);
      } else if t - lastT > 0 {
        var t0 := lastT;
        lastT := t;
        out, send := StepPorts(tick, t0, late);
      } else {
        LandAll(late);
      }
      forall p | 0 <= p < PORTS
        ensures Port(p) == Apply(before[p], Step(tick, late[p]))
      {
        assert before[p].motor == old(motors)[p] && before[p].started == old(started) && before[p].lastT == old(lastT);
      }
    }

    /** The first step only takes the readings later ones start from. */
    method FirstReading(t: int, late: seq<seq<Write>>)
      requires Sized() && |late| == PORTS
      modifies this`motors, this`lastOn
      ensures Sized()
      ensures forall p | 0 <= p < PORTS ::
                motors[p] == Landed(old(motors)[p], late[p]) && lastOn[p] == OnTime(motors[p], t)
    {
      ghost var before := motors;
      for p := 0 to PORTS
        invariant Sized()
        invariant forall q | 0 <= q < p :: motors[q] == Landed(before[q], late[q]) && lastOn[q] == OnTime(motors[q], t)
        invariant forall q | p <= q < PORTS :: motors[q] == before[q]
      {
        Land(p, late[p]);
        lastOn := lastOn[p := OnTime(motors[p], t)];
      }
    }

    /** A step whose clock has not moved reads nothing; the writes land all the same. */
    method LandAll(late: seq<seq<Write>>)
      requires Sized() && |late| == PORTS
      modifies this`motors
      ensures Sized() && forall p | 0 <= p < PORTS :: motors[p] == Landed(old(motors)[p], late[p])
    {
      ghost var before := motors;
      for p := 0 to PORTS
        invariant Sized() && forall q | 0 <= q < PORTS ::
                    motors[q] == if q < p then Landed(before[q], late[q]) else before[q]
      {
        Land(p, late[p]);
      }
    }

    method StepPorts(tick: Tick, t0: int, late: seq<seq<Write>>) returns (out: seq<int>, send: seq<bool>)
      requires Sized() && tick.t > t0 && |late| == PORTS
      modifies this`motors, this`lastOn, this`level, this`lastSent, this`lastSend
      ensures Sized() && |out| == |send| == PORTS
      ensures forall p | 0 <= p < PORTS ::
                && motors[p] == Landed(old(motors)[p], late[p])
                && (Port(p).drive, out[p], send[p]) == Advance(old(Port(p)).drive, motors[p], t0, tick)
    {
      ghost var before := Ports();
      hide Advance, Landed;
      out, send := [0, 0, 0, 0], [false, false, false, false];
      for p := 0 to PORTS
        invariant Sized() && |out| == |send| == PORTS
        invariant forall q | 0 <= q < p ::
                    && motors[q] == Landed(before[q].motor, late[q])
                    && (Port(q).drive, out[q], send[q]) == Advance(before[q].drive, motors[q], t0, tick)
        invariant forall q | p <= q < PORTS :: motors[q] == before[q].motor && Port(q).drive == before[q].drive
      {
        Land(p, late[p]);
        var strength, sent := StepOne(p, tick, t0);
        out := out[p := strength];
        send := send[p := sent];
      }
    }
  }

  lemma StepsKeep(before: seq<World>, tick: Tick, late: seq<seq<Write>>)
    requires |before| == |late| == PORTS
    requires forall p | 0 <= p < PORTS :: Inv(before[p]) && tick.t >= before[p].now && EventOk(Step(tick, late[p]))
    ensures forall p | 0 <= p < PORTS :: Inv(Apply(before[p], Step(tick, late[p])))
  {
    forall p | 0 <= p < PORTS
      ensures Inv(Apply(before[p], Step(tick, late[p])))
    {
      ApplyKeeps(before[p], Step(tick, late[p]));
    }
  }
}
