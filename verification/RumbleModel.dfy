// The rumble motor of one port: on-time, the low-passed level, and when a strength is sent.

module RumbleModel {

  const REFRESH_NS: int := 100_000_000
  const STEP_GAP_NS: int := 150_000_000
  const SEND_DURATION_NS: int := 250_000_000

  datatype Motor = Motor(on: bool, onSince: int, onTotal: int)

  /** The step's memory of a port; `lastSent` is -1 until something was sent. */
  datatype Drive = Drive(lastOn: int, level: real, lastSent: int, lastSend: int)

  /** What one step is given: the clock, the slider, whether rumble is silenced, and 1 - e^(-dt/tau) for the two
      time constants, spinning up and running down. */
  datatype Tick = Tick(t: int, slider: real, silenced: bool, up: real, down: real)

  ghost predicate TickOk(tick: Tick) { 0.0 <= tick.up <= 1.0 && 0.0 <= tick.down <= 1.0 }

  /** A motor write, stamped while it holds the motor's lock. */
  datatype Write = Write(on: bool, at: int)

  /** A step samples its clock first and reads the motor later: `late` are the writes of the game's thread that land
      in between, so they are stamped at or after the sample. */
  datatype Event = Switch(on: bool, at: int) | Step(tick: Tick, late: seq<Write>)

  /** One port and the step clock; `now` is the latest stamp so far. */
  datatype World = World(motor: Motor, drive: Drive, started: bool, lastT: int, now: int)

  // ----- the operations -----

  function SwitchMotor(m: Motor, on: bool, t: int): Motor {
    if on == m.on then m
    else if on then m.(on := true, onSince := t)
    else m.(on := false, onTotal := m.onTotal + (t - m.onSince))
  }

  function Landed(m: Motor, writes: seq<Write>): Motor {
    if writes == [] then m else
    var last := writes[|writes| - 1];
    SwitchMotor(Landed(m, writes[..|writes| - 1]), last.on, last.at)
  }

  function LastAt(t: int, writes: seq<Write>): int { if writes == [] then t else writes[|writes| - 1].at }

  /** Stamped one after the other, none before t. */
  ghost predicate InOrder(t: int, writes: seq<Write>) {
    writes == [] ||
    var front := writes[..|writes| - 1];
    InOrder(t, front) && writes[|writes| - 1].at >= LastAt(t, front)
  }

  /** The on-time after t that the writes book when they switch the motor off. */
  function StampedAfter(m: Motor, writes: seq<Write>, t: int): int {
    if writes == [] then 0 else
    var front, last := writes[..|writes| - 1], writes[|writes| - 1];
    var before := Landed(m, front);
    StampedAfter(m, front, t) + if before.on && !last.on then last.at - Max(before.onSince, t) else 0
  }

  function Max(a: int, b: int): int { if a > b then a else b }

  /** Total on-time up to t. */
  function OnTime(m: Motor, t: int): int {
    m.onTotal + if m.on then Max(0, t - m.onSince) else 0
  }

  function Clamp(x: real, lo: real, hi: real): real { if x < lo then lo else if x > hi then hi else x }

  /** The share of the interval the motor was on, before clamping. */
  function RawDuty(d: Drive, m: Motor, t: int, lastT: int): real
    requires t > lastT
  {
    (OnTime(m, t) - d.lastOn) as real / (t - lastT) as real
  }

  function Blend(level: real, duty: real, tick: Tick): real {
    level + Share(duty - level, if duty > level then tick.up else tick.down)
  }

  function Share(x: real, factor: real): real { x * factor }

  function Strength(level: real, tick: Tick): int {
    if tick.silenced then 0 else
    var strength := (level * (Clamp(tick.slider, 0.0, 100.0) / 100.0) * 65535.0 + 0.5).Floor;
    if strength < 0x400 then 0 else strength
  }

  predicate Changed(lastSent: int, strength: int) {
    lastSent < 0 || strength - lastSent >= 0x800 || lastSent - strength >= 0x800 || (strength == 0) != (lastSent == 0)
  }

  /** The port after a step that advances the clock, the strength wanted, and whether it is sent. */
  function Advance(d: Drive, m: Motor, lastT: int, tick: Tick): (Drive, int, bool)
    requires tick.t > lastT
  {
    var level := Blend(d.level, Clamp(RawDuty(d, m, tick.t, lastT), 0.0, 1.0), tick);
    var strength := Strength(level, tick);
    var send := Changed(d.lastSent, strength) || (strength != 0 && tick.t - d.lastSend > REFRESH_NS);
    (Drive(OnTime(m, tick.t), level, if send then strength else d.lastSent, if send then tick.t else d.lastSend),
     strength, send)
  }

  function Apply(w: World, e: Event): World {
    match e
    case Switch(on, at) => w.(motor := SwitchMotor(w.motor, on, at), now := at)
    case Step(tick, late) =>
      var motor, now := Landed(w.motor, late), LastAt(tick.t, late);
      if !w.started then
        World(motor, w.drive.(lastOn := OnTime(motor, tick.t)), true, tick.t, now)
      else if tick.t <= w.lastT then w.(motor := motor, now := now)
      else World(motor, Advance(w.drive, motor, w.lastT, tick).0, true, tick.t, now)
  }

  /** When an event begins, and the last stamp it leaves. */
  function Time(e: Event): int { if e.Switch? then e.at else e.tick.t }

  function Finish(e: Event): int { if e.Switch? then e.at else LastAt(e.tick.t, e.late) }

  function Start(t: int): World { World(Motor(false, 0, 0), Drive(0, 0.0, -1, 0), false, 0, t) }

  function Run(t0: int, events: seq<Event>): World {
    if events == [] then Start(t0) else Apply(Run(t0, events[..|events| - 1]), events[|events| - 1])
  }

  function End(t0: int, events: seq<Event>): int { if events == [] then t0 else Finish(events[|events| - 1]) }

  ghost predicate EventOk(e: Event) { e.Step? ==> TickOk(e.tick) && InOrder(e.tick.t, e.late) }

  /** A monotone clock, and decay factors as 1 - e^(-x) gives them. */
  ghost predicate Monotone(t0: int, events: seq<Event>) {
    events == [] ||
    var front, last := events[..|events| - 1], events[|events| - 1];
    Monotone(t0, front) && Time(last) >= End(t0, front) && EventOk(last)
  }

  // ----- the invariant -----

  ghost predicate Inv(w: World) {
    && (w.motor.on ==> w.motor.onSince <= w.now)
    && 0.0 <= w.drive.level <= 1.0
    && (w.started ==> w.lastT <= w.now && 0 <= OnTime(w.motor, w.now) - w.drive.lastOn <= w.now - w.lastT)
    && -1 <= w.drive.lastSent <= 0xffff && (0 < w.drive.lastSent ==> 0x400 <= w.drive.lastSent)
    && (0 < w.drive.lastSent ==> w.started && 0 <= w.lastT - w.drive.lastSend <= REFRESH_NS)
  }

  /** As time passes the on-time grows, and no faster than time. */
  lemma OnTimeGrows(m: Motor, a: int, b: int)
    requires a <= b
    ensures 0 <= OnTime(m, b) - OnTime(m, a) <= b - a
  {
  }

  /** Writes that land after a clock sample raise the reading at that sample by exactly the on-time they book after
      it. */
  lemma {:induction false} LateWritesRaise(m: Motor, writes: seq<Write>, t: int)
    requires InOrder(t, writes) && (m.on ==> m.onSince <= t)
    ensures OnTime(Landed(m, writes), t) == OnTime(m, t) + StampedAfter(m, writes, t)
    ensures 0 <= StampedAfter(m, writes, t) <= LastAt(t, writes) - t
    ensures Landed(m, writes).on ==>
              Landed(m, writes).onSince <= LastAt(t, writes)
              && StampedAfter(m, writes, t) <= Max(Landed(m, writes).onSince, t) - t
  {
    if writes != [] {
      LateWritesRaise(m, writes[..|writes| - 1], t);
    }
  }

  lemma QuotientBounds(x: int, y: int)
    requires 0 <= x && y > 0
    ensures 0.0 <= x as real / y as real && (x as real / y as real <= 1.0 <==> x <= y)
  {
    var q := x as real / y as real;
    assert q * y as real == x as real;
  }

  lemma ProductIsNonnegative(x: real, y: real)
    requires x >= 0.0 && y >= 0.0
    ensures x * y >= 0.0
  {
  }

  lemma ShareOf(x: real, factor: real)
    requires x >= 0.0 && 0.0 <= factor <= 1.0
    ensures 0.0 <= Share(x, factor) <= x
  {
    ProductIsNonnegative(x, factor);
    ProductIsNonnegative(x, 1.0 - factor);
    assert x * (1.0 - factor) == x - x * factor;
  }

  lemma BlendRises(level: real, duty: real, tick: Tick)
    requires TickOk(tick) && duty > level
    ensures level <= Blend(level, duty, tick) <= duty
  {
    ShareOf(duty - level, tick.up);
    hide Share;
  }

  lemma BlendFalls(level: real, duty: real, tick: Tick)
    requires TickOk(tick) && duty <= level
    ensures duty <= Blend(level, duty, tick) <= level
  {
    ShareOf(level - duty, tick.down);
    NegatedShare(level - duty, tick.down);
    hide Share;
  }

  lemma BlendStaysBetween(level: real, duty: real, tick: Tick)
    requires TickOk(tick)
    ensures level <= duty ==> level <= Blend(level, duty, tick) <= duty
    ensures duty <= level ==> duty <= Blend(level, duty, tick) <= level
  {
    hide Blend;
    if duty > level {
      BlendRises(level, duty, tick);
    } else {
      BlendFalls(level, duty, tick);
    }
  }

  lemma NegatedShare(x: real, factor: real)
    ensures Share(-x, factor) == -Share(x, factor)
  {
  }

  lemma StrengthInRange(level: real, tick: Tick)
    requires 0.0 <= level <= 1.0
    ensures Strength(level, tick) == 0 || 0x400 <= Strength(level, tick) <= 0xffff
  {
    ShareOf(level, Clamp(tick.slider, 0.0, 100.0) / 100.0);
  }

  /** The reading of a step, overtaken or not, against what was read before. */
  lemma ReadingIsBounded(w: World, t: int, late: seq<Write>)
    requires Inv(w) && w.started && t >= w.now && InOrder(t, late)
    ensures 0 <= OnTime(w.motor, t) - w.drive.lastOn <= t - w.lastT
    ensures OnTime(Landed(w.motor, late), t) == OnTime(w.motor, t) + StampedAfter(w.motor, late, t)
    ensures StampedAfter(w.motor, late, t) >= 0
  {
    OnTimeGrows(w.motor, w.now, t);
    LateWritesRaise(w.motor, late, t);
  }

  lemma ClampInUnit(x: real)
    ensures 0.0 <= Clamp(x, 0.0, 1.0) <= 1.0
    ensures 0.0 <= x <= 1.0 ==> Clamp(x, 0.0, 1.0) == x
  {
  }

  /** Whatever duty is read, an advancing step keeps level and sent value in range. */
  lemma DriveStaysInRange(d: Drive, m: Motor, lastT: int, tick: Tick)
    requires tick.t > lastT && TickOk(tick) && 0.0 <= d.level <= 1.0
    ensures var (d', strength, _) := Advance(d, m, lastT, tick);
            0.0 <= d'.level <= 1.0 && (strength == 0 || 0x400 <= strength <= 0xffff)
  {
    var duty := Clamp(RawDuty(d, m, tick.t, lastT), 0.0, 1.0);
    ClampInUnit(RawDuty(d, m, tick.t, lastT));
    BlendStaysBetween(d.level, duty, tick);
    StrengthInRange(Blend(d.level, duty, tick), tick);
    hide Strength, Blend, RawDuty, Clamp;
  }

  lemma SwitchKeeps(w: World, on: bool, at: int)
    requires Inv(w) && at >= w.now
    ensures Inv(Apply(w, Switch(on, at)))
  {
    OnTimeGrows(w.motor, w.now, at);
  }

  lemma StepKeeps(w: World, tick: Tick, late: seq<Write>)
    requires Inv(w) && tick.t >= w.now && TickOk(tick) && InOrder(tick.t, late)
    ensures Inv(Apply(w, Step(tick, late)))
  {
    LateWritesRaise(w.motor, late, tick.t);
    var motor, now := Landed(w.motor, late), LastAt(tick.t, late);
    OnTimeGrows(motor, tick.t, now);
    LateOnTime(w.motor, late, tick.t);
    if w.started {
      ReadingIsBounded(w, tick.t, late);
      if tick.t > w.lastT {
        DriveStaysInRange(w.drive, motor, w.lastT, tick);
      }
    }
    hide Strength, Blend, RawDuty, Clamp, Landed, InOrder, StampedAfter;
  }

  /** From the sample to the last late write no more on-time is booked than time passes. */
  lemma {:induction false} LateOnTime(m: Motor, writes: seq<Write>, t: int)
    requires InOrder(t, writes) && (m.on ==> m.onSince <= t)
    ensures 0 <= OnTime(Landed(m, writes), LastAt(t, writes)) - OnTime(m, t) <= LastAt(t, writes) - t
  {
    LateWritesRaise(m, writes, t);
    OnTimeGrows(Landed(m, writes), t, LastAt(t, writes));
  }

  lemma ApplyKeeps(w: World, e: Event)
    requires Inv(w) && Time(e) >= w.now && EventOk(e)
    ensures Inv(Apply(w, e)) && Apply(w, e).now == Finish(e)
  {
    match e
    case Switch(on, at) => SwitchKeeps(w, on, at);
    case Step(tick, late) => StepKeeps(w, tick, late);
  }

  lemma {:induction false} RunKeeps(t0: int, events: seq<Event>)
    requires Monotone(t0, events)
    ensures Inv(Run(t0, events)) && Run(t0, events).now == End(t0, events)
  {
    if events != [] {
      var last := |events| - 1;
      RunKeeps(t0, events[..last]);
      ApplyKeeps(Run(t0, events[..last]), events[last]);
    }
  }

  // ----- what holds in every run -----

  /** Time of the interval for which no on-time has been counted when the clock is sampled. */
  function Slack(w: World, t: int): int { (t - w.lastT) - (OnTime(w.motor, t) - w.drive.lastOn) }

  /** In every history, overtaken steps included: the duty before clamping is never negative, and it is at most 1 if
      and only if the on-time stamped after the sample fits the slack left in the interval. */
  lemma DutyIsAShareIff(t0: int, events: seq<Event>, tick: Tick, late: seq<Write>)
    requires Monotone(t0, events + [Step(tick, late)])
    requires Run(t0, events).started && tick.t > Run(t0, events).lastT
    ensures var w := Run(t0, events);
            var duty := RawDuty(w.drive, Landed(w.motor, late), tick.t, w.lastT);
            && 0.0 <= duty && 0 <= Slack(w, tick.t) <= tick.t - w.lastT
            && (duty <= 1.0 <==> StampedAfter(w.motor, late, tick.t) <= Slack(w, tick.t))
            && (late == [] ==> duty <= 1.0)
  {
    MonotonePrefix(t0, events, Step(tick, late));
    RunKeeps(t0, events);
    var w := Run(t0, events);
    hide Run, Monotone;
    ReadingIsBounded(w, tick.t, late);
    QuotientBounds(OnTime(Landed(w.motor, late), tick.t) - w.drive.lastOn, tick.t - w.lastT);
  }

  /** And whatever overtakes it, a step leaves the level a level, moved towards the clamped duty without passing it. */
  lemma LevelFollowsDuty(t0: int, events: seq<Event>, tick: Tick, late: seq<Write>)
    requires Monotone(t0, events + [Step(tick, late)])
    requires Run(t0, events).started && tick.t > Run(t0, events).lastT
    ensures var w, w' := Run(t0, events), Run(t0, events + [Step(tick, late)]);
            var duty := Clamp(RawDuty(w.drive, Landed(w.motor, late), tick.t, w.lastT), 0.0, 1.0);
            && 0.0 <= w'.drive.level <= 1.0
            && (w.drive.level <= duty ==> w.drive.level <= w'.drive.level <= duty)
            && (duty <= w.drive.level ==> duty <= w'.drive.level <= w.drive.level)
  {
    MonotonePrefix(t0, events, Step(tick, late));
    RunKeeps(t0, events);
    var w := Run(t0, events);
    hide Run, Monotone, Blend, RawDuty, Strength, Clamp;
    var motor := Landed(w.motor, late);
    DriveStaysInRange(w.drive, motor, w.lastT, tick);
    BlendStaysBetween(w.drive.level, Clamp(RawDuty(w.drive, motor, tick.t, w.lastT), 0.0, 1.0), tick);
  }

  /** No bound holds in general: a write delayed past the next sample makes the duty before clamping any number. */
  lemma OvertakenDutyIsUnbounded(n: nat)
    requires n > 0
    ensures var events := [Step(Tick(0, 100.0, false, 0.5, 0.5), []), Switch(true, 0)];
            var tick := Tick(1, 100.0, false, 0.5, 0.5);
            var late := [Write(false, n)];
            && Monotone(0, events + [Step(tick, late)]) && Run(0, events).started && tick.t > Run(0, events).lastT
            && RawDuty(Run(0, events).drive, Landed(Run(0, events).motor, late), tick.t, Run(0, events).lastT) ==
               n as real
  {
    var first, on := Step(Tick(0, 100.0, false, 0.5, 0.5), []), Switch(true, 0);
    var late := [Write(false, n)];
    RunSteps(0, [], first);
    RunSteps(0, [first], on);
    RunSteps(0, [first, on], Step(Tick(1, 100.0, false, 0.5, 0.5), late));
    assert [] + [first] == [first] && [first] + [on] == [first, on];
    assert Run(0, [first, on]) == World(Motor(true, 0, 0), Drive(0, 0.0, -1, 0), true, 0, 0);
    assert late[..0] == [];
    assert InOrder(1, late) && Landed(Motor(true, 0, 0), late) == Motor(false, 0, n);
  }

  lemma RunSteps(t0: int, events: seq<Event>, e: Event)
    ensures Run(t0, events + [e]) == Apply(Run(t0, events), e)
    ensures Monotone(t0, events + [e]) <==> Monotone(t0, events) && Time(e) >= End(t0, events) && EventOk(e)
  {
    assert (events + [e])[..|events|] == events;
  }

  lemma MonotonePrefix(t0: int, events: seq<Event>, e: Event)
    requires Monotone(t0, events + [e])
    ensures Monotone(t0, events) && Time(e) >= End(t0, events) && EventOk(e)
    ensures Run(t0, events + [e]) == Apply(Run(t0, events), e)
  {
    RunSteps(t0, events, e);
  }

  /** After every advancing step the value last sent is within 0x800 of the strength wanted, and zero exactly when it
      is. */
  lemma SentValueTracksStrength(d: Drive, m: Motor, lastT: int, tick: Tick)
    requires tick.t > lastT
    ensures var (d', strength, send) := Advance(d, m, lastT, tick);
            && -0x800 < strength - d'.lastSent < 0x800 && (strength == 0 <==> d'.lastSent == 0)
            && (send ==> d'.lastSent == strength && d'.lastSend == tick.t)
            && (!send ==> d'.lastSent == d.lastSent && d'.lastSend == d.lastSend)
  {
  }

  /** With steps at most 150 ms apart a nonzero strength is never more than 250 ms old when the next step comes, so
      it is renewed before the pad lets it lapse. */
  lemma HeldStrengthNeverLapses(t0: int, events: seq<Event>, tick: Tick, late: seq<Write>)
    requires Monotone(t0, events + [Step(tick, late)])
    requires Run(t0, events).drive.lastSent > 0 && tick.t - Run(t0, events).lastT <= STEP_GAP_NS
    ensures var w := Run(t0, events);
            && tick.t - w.drive.lastSend <= SEND_DURATION_NS
            && (tick.t > w.lastT && tick.t - w.drive.lastSend > REFRESH_NS ==>
                  Advance(w.drive, Landed(w.motor, late), w.lastT, tick).2)
  {
    MonotonePrefix(t0, events, Step(tick, late));
    RunKeeps(t0, events);
  }
}
