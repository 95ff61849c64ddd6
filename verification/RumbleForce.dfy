// What a pad is driven with: on-time measured instant by instant, the filter's step, and the strength it rounds to.

module RumbleForce {
  import opened RumbleModel

  // ----- on-time -----

  /** Whether the motor is on at an instant: as the last write up to then left it. */
  function OnAt(writes: seq<Write>, x: int): bool {
    if writes == [] then false else
    var last := writes[|writes| - 1];
    if last.at <= x then last.on else OnAt(writes[..|writes| - 1], x)
  }

  /** How many of the nanoseconds from a to b find the motor on. */
  function NanosecondsOn(writes: seq<Write>, a: int, b: int): int
    decreases b - a
  {
    if b <= a then 0 else NanosecondsOn(writes, a, b - 1) + if OnAt(writes, b - 1) then 1 else 0
  }

  lemma {:induction false} LaterWriteUnseen(writes: seq<Write>, a: int, b: int)
    requires writes != [] && b <= writes[|writes| - 1].at
    ensures NanosecondsOn(writes, a, b) == NanosecondsOn(writes[..|writes| - 1], a, b)
    decreases b - a
  {
    if b > a {
      LaterWriteUnseen(writes, a, b - 1);
    }
  }

  lemma {:induction false} SinceLastWrite(writes: seq<Write>, a: int, b: int)
    requires writes != [] && a <= writes[|writes| - 1].at <= b
    ensures var last := writes[|writes| - 1];
            NanosecondsOn(writes, a, b) == NanosecondsOn(writes, a, last.at) + if last.on then b - last.at else 0
    decreases b - a
  {
    if b > writes[|writes| - 1].at {
      SinceLastWrite(writes, a, b - 1);
    }
  }

  lemma OffMeansOff(m: Motor, writes: seq<Write>, t: int)
    requires InOrder(t, writes) && (m.on ==> m.onSince <= t)
    ensures var now := Landed(m, writes); now.on ==> now.onSince <= LastAt(t, writes)
  {
    LateWritesRaise(m, writes, t);
  }

  lemma SwitchOnTime(m: Motor, on: bool, at: int, t: int)
    requires at <= t && (m.on ==> m.onSince <= at)
    ensures OnTime(SwitchMotor(m, on, at), t) == OnTime(m, at) + if on then t - at else 0
  {
  }

  /** From rest, and after writes stamped in order: the on-time is the time on, to the nanosecond. */
  lemma {:induction false} OnTimeIsMeasured(writes: seq<Write>, t0: int, t: int)
    requires InOrder(t0, writes) && t >= LastAt(t0, writes)
    ensures OnTime(Landed(Motor(false, 0, 0), writes), t) == NanosecondsOn(writes, t0, t)
    decreases |writes|
  {
    if writes == [] {
      NeverOn(t0, t);
    } else {
      var front, last := writes[..|writes| - 1], writes[|writes| - 1];
      StampedFrom(t0, front);
      OffMeansOff(Motor(false, 0, 0), front, t0);
      OnTimeIsMeasured(front, t0, last.at);
      SwitchOnTime(Landed(Motor(false, 0, 0), front), last.on, last.at, t);
      LaterWriteUnseen(writes, t0, last.at);
      SinceLastWrite(writes, t0, t);
    }
  }

  lemma {:induction false} NeverOn(a: int, b: int)
    ensures NanosecondsOn([], a, b) == 0
    decreases b - a
  {
    if b > a {
      NeverOn(a, b - 1);
    }
  }

  lemma {:induction false} StampedFrom(t: int, writes: seq<Write>)
    requires InOrder(t, writes)
    ensures LastAt(t, writes) >= t
  {
    if writes != [] {
      StampedFrom(t, writes[..|writes| - 1]);
    }
  }

  // ----- the writes of a history -----

  /** All motor writes of a history, those that overtake a step included. */
  function WritesOf(events: seq<Event>): seq<Write> {
    if events == [] then [] else
    var last := events[|events| - 1];
    WritesOf(events[..|events| - 1]) + if last.Switch? then [Write(last.on, last.at)] else last.late
  }

  lemma {:induction false} LandedTwice(m: Motor, a: seq<Write>, b: seq<Write>)
    ensures Landed(m, a + b) == Landed(Landed(m, a), b)
  {
    if b == [] {
      assert a + b == a;
    } else {
      LandedTwice(m, a, b[..|b| - 1]);
      assert (a + b)[..|a + b| - 1] == a + b[..|b| - 1];
    }
  }

  lemma {:induction false} OrderedTwice(t: int, s: int, a: seq<Write>, b: seq<Write>)
    requires InOrder(t, a) && InOrder(s, b) && LastAt(t, a) <= s
    ensures InOrder(t, a + b) && LastAt(t, a + b) <= LastAt(s, b)
  {
    if b == [] {
      assert a + b == a;
    } else {
      OrderedTwice(t, s, a, b[..|b| - 1]);
      assert (a + b)[..|a + b| - 1] == a + b[..|b| - 1];
    }
  }

  lemma OneWrite(m: Motor, w: Write)
    ensures Landed(m, [w]) == SwitchMotor(m, w.on, w.at)
    ensures forall t | t <= w.at :: InOrder(t, [w]) && LastAt(t, [w]) == w.at
  {
    assert [w][..0] == [];
  }

  lemma {:induction false} HistoryLands(t0: int, events: seq<Event>)
    requires Monotone(t0, events)
    ensures Run(t0, events).motor == Landed(Motor(false, 0, 0), WritesOf(events))
    ensures InOrder(t0, WritesOf(events)) && LastAt(t0, WritesOf(events)) <= End(t0, events)
  {
    if events != [] {
      var front, last := events[..|events| - 1], events[|events| - 1];
      HistoryLands(t0, front);
      var late := if last.Switch? then [Write(last.on, last.at)] else last.late;
      if last.Switch? {
        OneWrite(Run(t0, front).motor, Write(last.on, last.at));
      }
      hide Landed, InOrder;
      LandedTwice(Motor(false, 0, 0), WritesOf(front), late);
      OrderedTwice(t0, Time(last), WritesOf(front), late);
    }
  }

  // ----- the duty of a step -----

  /** No write overtakes a step. */
  ghost predicate NoneLate(events: seq<Event>) { forall e | e in events && e.Step? :: e.late == [] }

  lemma {:induction false} Concatenated(writes: seq<Write>, a: int, b: int, c: int)
    requires a <= b <= c
    ensures NanosecondsOn(writes, a, c) == NanosecondsOn(writes, a, b) + NanosecondsOn(writes, b, c)
    decreases c - a
  {
    if b < c {
      Concatenated(writes, a, b, c - 1);
    }
  }

  /** What a step has read is the time on up to then. */
  lemma {:induction false} ReadingIsMeasured(t0: int, events: seq<Event>)
    requires Monotone(t0, events) && NoneLate(events)
    ensures var w := Run(t0, events);
            w.started ==> t0 <= w.lastT <= w.now && w.drive.lastOn == NanosecondsOn(WritesOf(events), t0, w.lastT)
  {
    if events != [] {
      var front, last := events[..|events| - 1], events[|events| - 1];
      assert forall e | e in front :: e in events;
      ReadingIsMeasured(t0, front);
      RunKeeps(t0, front);
      RunKeeps(t0, events);
      HistoryLands(t0, front);
      assert last in events;
      NowIsLater(t0, front);
      if last.Switch? {
        if Run(t0, front).started {
          var w := WritesOf(front) + [Write(last.on, last.at)];
          assert w[..|w| - 1] == WritesOf(front);
          LaterWriteUnseen(w, t0, Run(t0, front).lastT);
        }
      } else {
        assert WritesOf(events) == WritesOf(front);
        OnTimeIsMeasured(WritesOf(front), t0, last.tick.t);
      }
      hide Landed, InOrder, Blend, RawDuty, Strength, Clamp, NanosecondsOn;
    }
  }

  lemma {:induction false} NowIsLater(t0: int, events: seq<Event>)
    requires Monotone(t0, events)
    ensures t0 <= End(t0, events)
  {
    if events != [] {
      var last := events[|events| - 1];
      NowIsLater(t0, events[..|events| - 1]);
      if last.Step? {
        StampedFrom(last.tick.t, last.late);
      }
    }
  }

  /** In every history that no write overtakes, the duty is the share of the interval, nanosecond by nanosecond, that
      the game had the motor on. */
  lemma DutyIsTimeOn(t0: int, events: seq<Event>, tick: Tick)
    requires Monotone(t0, events + [Step(tick, [])]) && NoneLate(events)
    requires Run(t0, events).started && tick.t > Run(t0, events).lastT
    ensures var w := Run(t0, events);
            RawDuty(w.drive, w.motor, tick.t, w.lastT) ==
            NanosecondsOn(WritesOf(events), w.lastT, tick.t) as real / (tick.t - w.lastT) as real
  {
    MonotonePrefix(t0, events, Step(tick, []));
    RunKeeps(t0, events);
    ReadingIsMeasured(t0, events);
    HistoryLands(t0, events);
    OnTimeIsMeasured(WritesOf(events), t0, tick.t);
    Concatenated(WritesOf(events), t0, Run(t0, events).lastT, tick.t);
    hide Run, Monotone, Landed, InOrder, NanosecondsOn;
  }

  // ----- the level and the strength -----

  /** The duty a step goes by. */
  function Held(duty: real): real { if duty < 0.0 then 0.0 else if duty > 1.0 then 1.0 else duty }

  /** The level moves by its factor's share of what the duty is away: the factor for spinning up when the duty is above
      it, the other when it is not. */
  lemma LevelIsFiltered(d: Drive, m: Motor, lastT: int, tick: Tick)
    requires tick.t > lastT
    ensures var duty := Held(RawDuty(d, m, tick.t, lastT));
            Advance(d, m, lastT, tick).0.level ==
            d.level + (duty - d.level) * (if duty > d.level then tick.up else tick.down)
  {
    hide RawDuty, Strength;
  }

  /** How much of full strength the slider lets through, of 100. */
  function Slid(slider: real): real { if slider < 0.0 then 0.0 else if slider > 100.0 then 100.0 else slider }

  /** Full scale under the slider. */
  function Scaled(level: real, slider: real): real { level * (Slid(slider) / 100.0) * 65535.0 }

  /** The strength for x of 65535: none below 1024, where a pad's motor does not turn, else the nearest. */
  predicate Nearest(s: int, x: real) { if x < 1023.5 then s == 0 else -0.5 < s as real - x <= 0.5 && s >= 1024 }

  function Turning(x: real): int {
    if (x + 0.5).Floor < 0x400 then 0 else (x + 0.5).Floor
  }

  lemma TurningIsNearest(x: real)
    ensures Nearest(Turning(x), x)
  {
  }

  lemma TurningGrows(x: real, y: real)
    requires x <= y
    ensures Turning(x) <= Turning(y) && Turning(y) >= 0
  {
  }

  lemma StrengthTurns(level: real, tick: Tick)
    ensures Strength(level, tick) == if tick.silenced then 0 else Turning(Scaled(level, tick.slider))
  {
    assert Clamp(tick.slider, 0.0, 100.0) == Slid(tick.slider);
    hide Clamp, Slid;
  }

  /** The strength a step wants is its new level under the slider, out of 65535, to the nearest; none when silenced. */
  lemma StrengthIsRounded(d: Drive, m: Motor, lastT: int, tick: Tick)
    requires tick.t > lastT
    ensures var (d', s, _) := Advance(d, m, lastT, tick);
            if tick.silenced then s == 0 else Nearest(s, Scaled(d'.level, tick.slider))
  {
    var d' := Advance(d, m, lastT, tick).0;
    StrengthTurns(d'.level, tick);
    hide RawDuty, Blend, Strength, Scaled, Turning, Nearest, Clamp;
    TurningIsNearest(Scaled(d'.level, tick.slider));
  }

  lemma ProductGrows(a: real, b: real, x: real, y: real)
    requires 0.0 <= a <= b && 0.0 <= x <= y
    ensures a * x <= b * y
  {
    assert b * y - a * x == (b - a) * y + a * (y - x);
    ProductIsNonnegative(b - a, y);
    ProductIsNonnegative(a, y - x);
  }

  lemma ScaledGrows(a: real, b: real, low: real, high: real)
    requires 0.0 <= a <= b && low <= high
    ensures Scaled(a, low) <= Scaled(b, high)
    ensures high >= 100.0 ==> Scaled(1.0, high) == 65535.0
  {
    var x, y := Slid(low) / 100.0, Slid(high) / 100.0;
    ProductGrows(a, b, x, y);
    ProductGrows(a * x, b * y, 65535.0, 65535.0) by {
      ProductIsNonnegative(a, x);
    }
  }

  /** More level or more slider never means less strength, and full level under a full slider is full strength. */
  lemma StrengthGrows(a: real, b: real, low: Tick, high: Tick)
    requires 0.0 <= a <= b && low.slider <= high.slider && (high.silenced ==> low.silenced)
    ensures Strength(a, low) <= Strength(b, high)
    ensures !high.silenced && high.slider >= 100.0 ==> Strength(1.0, high) == 65535
  {
    StrengthTurns(a, low);
    StrengthTurns(b, high);
    StrengthTurns(1.0, high);
    ScaledGrows(a, b, low.slider, high.slider);
    TurningGrows(Scaled(a, low.slider), Scaled(b, high.slider));
    TurningIsNearest(65535.0);
    hide Strength, Scaled, Turning;
  }

  /** A strength is sent exactly when none was before, when it differs from the last one sent by 2048 or more, when it
      starts or stops, and when one still wanted is more than 100 ms old. */
  lemma SendsIff(d: Drive, m: Motor, lastT: int, tick: Tick)
    requires tick.t > lastT
    ensures var (_, s, send) := Advance(d, m, lastT, tick);
            send <==>
            || d.lastSent < 0 || s >= d.lastSent + 2048 || d.lastSent >= s + 2048 || (s == 0) != (d.lastSent == 0)
            || (s != 0 && tick.t > d.lastSend + 100_000_000)
  {
    hide Strength, Blend, RawDuty;
  }
}
