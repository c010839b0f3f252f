/** The system clock: a tick counter, a seconds counter, and the catch-up after ticks were suppressed. */
module OsClock {
  import opened Bytes

  // ticks in a second
  const FCLK_SECOND: nat := 500

  /** current_clock, current_seconds and second_countdown. */
  datatype Time = Time(clock: nat, seconds: nat, countdown: nat)

  predicate Running(t: Time) {
    t.clock < U32 && t.seconds < U32 && 1 <= t.countdown <= FCLK_SECOND
  }

  /** One tick. */
  function Tick(t: Time): (t': Time)
    requires Running(t)
    ensures Running(t')
  {
    var clock := (t.clock + 1) % U32;
    if t.countdown == 1 then Time(clock, (t.seconds + 1) % U32, FCLK_SECOND)
    else Time(clock, t.seconds, t.countdown - 1)
  }

  /** n ticks, one at a time. */
  function Ticks(n: nat, t: Time): (t': Time)
    requires Running(t)
    ensures Running(t')
  {
    if n == 0 then t else Tick(Ticks(n - 1, t))
  }

  /** Where n ticks lead: a second passes whenever the ticks since the last one reach 500. */
  function After(n: nat, t: Time): (t': Time)
    requires Running(t)
  {
    var sum := FCLK_SECOND - t.countdown + n;
    Time((t.clock + n) % U32, (t.seconds + sum / FCLK_SECOND) % U32, FCLK_SECOND - sum % FCLK_SECOND)
  }

  lemma {:induction false} TicksAre(n: nat, t: Time)
    ensures Running(t) ==> Ticks(n, t) == After(n, t)
  {
    if n > 0 && Running(t) {
      TicksAre(n - 1, t);
      AfterSteps(n - 1, t);
    }
  }

  lemma AfterSteps(n: nat, t: Time)
    requires Running(t) && Running(After(n, t))
    ensures Tick(After(n, t)) == After(n + 1, t)
  {
    var sum := FCLK_SECOND - t.countdown + n;
    var (q, r) := (sum / FCLK_SECOND, sum % FCLK_SECOND);
    if r == FCLK_SECOND - 1 {
      DivModUnique(sum + 1, FCLK_SECOND, q + 1, 0);
    } else {
      DivModUnique(sum + 1, FCLK_SECOND, q, r + 1);
    }
    CounterAdds(t.clock + n, 1);
    CounterAdds(t.seconds + q, 1);
  }

  lemma CounterAdds(x: nat, n: nat)
    ensures (x % U32 + n) % U32 == (x + n) % U32
  {
  }

  class Clock {
    var currentClock: nat
    var currentSeconds: nat
    var secondCountdown: nat

    ghost predicate Valid()
      reads this
    {
      Running(View())
    }

    ghost function View(): Time
      reads this
    {
      Time(currentClock, currentSeconds, secondCountdown)
    }

    constructor ()
      ensures Valid() && View() == Time(0, 0, FCLK_SECOND)
    {
      currentClock, currentSeconds, secondCountdown := 0, 0, FCLK_SECOND;
    }

    /** fclk_hdl: the timer interrupt. */
    method Hdl()
      requires Valid()
      modifies this
      ensures Valid() && View() == Tick(old(View()))
    {
      currentClock := (currentClock + 1) % U32;
      secondCountdown := secondCountdown - 1;
      if secondCountdown == 0 {
        currentSeconds := (currentSeconds + 1) % U32;
        secondCountdown := FCLK_SECOND;
      }
    }

    /** fclk_freertos_update_tick: the catch-up has the effect of that many interrupts. */
    method UpdateTick(n: nat)
      requires Valid() && n < U32
      modifies this
      ensures Valid() && View() == Ticks(n, old(View()))
    {
      var tick: nat := n;
      ghost var whole := 0;
      currentClock := (currentClock + tick) % U32;
      while tick >= FCLK_SECOND
        invariant whole >= 0 && n == tick + FCLK_SECOND * whole
        invariant currentSeconds == (old(currentSeconds) + whole) % U32
        modifies this`currentSeconds
      {
        CounterAdds(old(currentSeconds) + whole, 1);
        currentSeconds := (currentSeconds + 1) % U32;
        tick, whole := tick - FCLK_SECOND, whole + 1;
      }
      TicksAre(n, old(View()));
      CatchUp(whole, tick, old(View()));
      if secondCountdown <= tick {
        currentSeconds := (currentSeconds + 1) % U32;
        secondCountdown := FCLK_SECOND - (tick - secondCountdown);
      } else {
        secondCountdown := secondCountdown - tick;
      }
    }

    /** fclk_reset_count, which leaves the countdown alone. */
    method ResetCount()
      requires Valid()
      modifies this
      ensures Valid() && View() == Time(0, 0, old(secondCountdown))
    {
      currentClock, currentSeconds := 0, 0;
    }

    /** fclk_get_second. */
    function GetSecond(): (r: nat)
      reads this
      ensures FCLK_SECOND * r <= currentClock < FCLK_SECOND * (r + 1)
    {
      currentClock / FCLK_SECOND
    }
  }

  /** The last step of the catch-up, when whole seconds have been taken off. */
  lemma CatchUp(whole: nat, tick: nat, t: Time)
    requires Running(t) && tick < FCLK_SECOND
    ensures var (t', s) := (After(tick + FCLK_SECOND * whole, t), (t.seconds + whole) % U32);
      if t.countdown <= tick then t'.countdown == FCLK_SECOND - (tick - t.countdown) && t'.seconds == (s + 1) % U32
      else t'.countdown == t.countdown - tick && t'.seconds == s
  {
    var (n, p) := (tick + FCLK_SECOND * whole, FCLK_SECOND - t.countdown + tick);
    if t.countdown <= tick {
      DivModUnique(FCLK_SECOND - t.countdown + n, FCLK_SECOND, whole + 1, p - FCLK_SECOND);
    } else {
      DivModUnique(FCLK_SECOND - t.countdown + n, FCLK_SECOND, whole, p);
    }
    CounterAdds(t.seconds + whole, 1);
  }

  // ----- runs -----

  datatype Event = Interrupt | CatchUpBy(n: nat) | Reset

  function Step(t: Time, e: Event): (t': Time)
    requires Running(t)
    ensures Running(t')
  {
    match e
    case Interrupt => Tick(t)
    case CatchUpBy(n) => Ticks(n, t)
    case Reset => Time(0, 0, t.countdown)
  }

  /** The clock after a run from power-up. */
  function Run(events: seq<Event>): (t: Time)
    ensures Running(t)
  {
    if events == [] then Time(0, 0, FCLK_SECOND) else Step(Run(events[..|events| - 1]), events[|events| - 1])
  }

  function Length(e: Event): nat {
    match e
    case Interrupt => 1
    case CatchUpBy(n) => n
    case Reset => 0
  }

  /** Ticks since the last reset, or since power-up. */
  function Since(events: seq<Event>): nat {
    if events == [] || events[|events| - 1].Reset? then 0
    else Since(events[..|events| - 1]) + Length(events[|events| - 1])
  }

  /** How far into a second the clock was at the last reset. */
  function Phase(events: seq<Event>): (p: nat)
    ensures p < FCLK_SECOND
    ensures (forall i :: 0 <= i < |events| ==> !events[i].Reset?) ==> p == 0
  {
    if events == [] then 0
    else
      var before := events[..|events| - 1];
      if events[|events| - 1].Reset? then (Phase(before) + Since(before)) % FCLK_SECOND else Phase(before)
  }

  /** The clock t ticks after it was p ticks into a second and its counters were 0. */
  function Closed(p: nat, t: nat): Time {
    Time(t % U32, (p + t) / FCLK_SECOND % U32, FCLK_SECOND - (p + t) % FCLK_SECOND)
  }

  /** Every run in closed form. */
  lemma {:induction false} RunIs(events: seq<Event>)
    ensures Run(events) == Closed(Phase(events), Since(events))
  {
    if events != [] {
      var (before, e) := (events[..|events| - 1], events[|events| - 1]);
      RunIs(before);
      if !e.Reset? {
        StepIsTicks(Run(before), e);
        TicksAre(Length(e), Run(before));
        AfterAdds(Phase(before), Since(before), Length(e));
      }
    }
  }

  lemma StepIsTicks(t: Time, e: Event)
    requires Running(t) && !e.Reset?
    ensures Step(t, e) == Ticks(Length(e), t)
  {
    assert Ticks(1, t) == Tick(Ticks(0, t));
  }

  lemma AfterAdds(p: nat, t: nat, n: nat)
    requires p < FCLK_SECOND
    ensures After(n, Closed(p, t)) == Closed(p, t + n)
  {
    var (q, r) := ((p + t) / FCLK_SECOND, (p + t) % FCLK_SECOND);
    var (q', r') := ((r + n) / FCLK_SECOND, (r + n) % FCLK_SECOND);
    DivModUnique(p + t + n, FCLK_SECOND, q + q', r');
    CounterAdds(t, n);
    CounterAdds(q, q');
  }

  /**
   The seconds counter agrees with what fclk_get_second derives from the tick counter, except that a second in
   progress at a reset may end early: then it is one ahead, and only as long as the phase carries over.
   */
  lemma SecondsAgree(c: Clock, events: seq<Event>)
    requires c.View() == Run(events) && Since(events) < U32
    ensures c.currentSeconds - c.GetSecond()
         == if Since(events) % FCLK_SECOND + Phase(events) >= FCLK_SECOND then 1 else 0
    ensures (forall i :: 0 <= i < |events| ==> !events[i].Reset?) ==> c.currentSeconds == c.GetSecond()
  {
    RunIs(events);
    Carry(Phase(events), Since(events));
    DivModUnique(c.currentClock, FCLK_SECOND, c.GetSecond(), c.currentClock - FCLK_SECOND * c.GetSecond());
  }

  lemma Carry(p: nat, t: nat)
    requires p < FCLK_SECOND && t < U32
    ensures var c := Closed(p, t);
      c.seconds - c.clock / FCLK_SECOND == if t % FCLK_SECOND + p >= FCLK_SECOND then 1 else 0
  {
    SecondsSplit(p, t);
    SmallMod(t);
    SmallMod((p + t) / FCLK_SECOND);
  }

  lemma SecondsSplit(p: nat, t: nat)
    requires p < FCLK_SECOND
    ensures (p + t) / FCLK_SECOND == t / FCLK_SECOND + if t % FCLK_SECOND + p >= FCLK_SECOND then 1 else 0
    ensures t < U32 ==> (p + t) / FCLK_SECOND < U32
  {
    var (q, r) := (t / FCLK_SECOND, t % FCLK_SECOND);
    if r + p >= FCLK_SECOND {
      DivModUnique(p + t, FCLK_SECOND, q + 1, r + p - FCLK_SECOND);
    } else {
      DivModUnique(p + t, FCLK_SECOND, q, r + p);
    }
  }

  lemma SmallMod(x: nat)
    requires x < U32
    ensures x % U32 == x
  {
  }
}
