/**
 * The clock-accumulator worker `gptimer_task`: a software clock
 * `{hora, minuto, segundo}` of `uint8_t` fields that advances by one second
 * for each tick taken from the timer queue and, when the receive times out,
 * only emits a "missed one count event" warning.
 */
module SoftClock {

  /** An `uint8_t` value. */
  type Uint8 = x: int | 0 <= x < 256


  /** `relogio_t`. */
  datatype Clock = Clock(hora: Uint8, minuto: Uint8, segundo: Uint8) {
    /** Every field within its modular range. */
    predicate Valid() {
      hora < 24 && minuto < 60 && segundo < 60
    }
  }

  /** The clock at start-up: 00:00:00. */
  const Midnight: Clock := Clock(0, 0, 0)

  /** The outcome of one `xQueueReceive` on the timer queue. */
  datatype Receive = Arrived | TimedOut

  /** The `++` operator on an `uint8_t` field. */
  function Inc8(x: Uint8): (r: Uint8)
    ensures x < 255 ==> r == x + 1
    ensures x == 255 ==> r == 0
  {
    (x + 1) % 256
  }

  /** Seconds since midnight. */
  function ToSeconds(c: Clock): nat {
    c.hora * 3600 + c.minuto * 60 + c.segundo
  }

  /** The clock showing `t` seconds after midnight. */
  function FromSeconds(t: nat): (c: Clock)
    requires t < 86400
    ensures c.Valid()
    ensures ToSeconds(c) == t
  {
    Clock(t / 3600, (t / 60) % 60, t % 60)
  }

  /** A valid clock is determined by its seconds since midnight. */
  lemma FromToSeconds(c: Clock)
    requires c.Valid()
    ensures ToSeconds(c) < 86400
    ensures FromSeconds(ToSeconds(c)) == c
  {
    var t := ToSeconds(c);
    assert t == (c.hora * 60 + c.minuto) * 60 + c.segundo;
    assert t % 60 == c.segundo && t / 60 == c.hora * 60 + c.minuto;
    assert t / 3600 == (t / 60) / 60;
  }

  /** One tick: the seconds increment with carry into minutes and hours. */
  function Advance(c: Clock): (r: Clock)
    ensures c.Valid() ==> r.Valid()
  {
    var s := Inc8(c.segundo);
    if s < 60 then c.(segundo := s)
    else
      var m := Inc8(c.minuto);
      if m < 60 then c.(segundo := 0, minuto := m)
      else
        var h := Inc8(c.hora);
        if h < 24 then Clock(h, 0, 0) else Clock(0, 0, 0)
  }

  /** `n` ticks in a row. */
  function AdvanceN(c: Clock, n: nat): Clock
    decreases n
  {
    if n == 0 then c else Advance(AdvanceN(c, n - 1))
  }

  /** The clock after a sequence of receive outcomes, in order. */
  function Apply(c: Clock, events: seq<Receive>): Clock
    decreases |events|
  {
    if events == [] then c
    else
      var before := Apply(c, events[..|events| - 1]);
      if events[|events| - 1] == Arrived then Advance(before) else before
  }

  /** Number of ticks that arrived in `events`. */
  function Arrivals(events: seq<Receive>): (n: nat)
    ensures n <= |events|
    decreases |events|
  {
    if events == [] then 0
    else Arrivals(events[..|events| - 1]) + (if events[|events| - 1] == Arrived then 1 else 0)
  }

  /** Number of receive timeouts in `events`. */
  function Timeouts(events: seq<Receive>): (n: nat)
    ensures n + Arrivals(events) == |events|
    decreases |events|
  {
    if events == [] then 0
    else Timeouts(events[..|events| - 1]) + (if events[|events| - 1] == TimedOut then 1 else 0)
  }

  /** A valid clock shows less than one day of seconds. */
  lemma SecondsBelowDay(c: Clock)
    requires c.Valid()
    ensures ToSeconds(c) < 86400
  {
    assert c.hora * 3600 <= 23 * 3600;
    assert c.minuto * 60 <= 59 * 60;
  }

  /** Valid clocks with the same seconds since midnight are equal. */
  lemma SecondsDetermineClock(a: Clock, b: Clock)
    requires a.Valid() && b.Valid()
    requires ToSeconds(a) == ToSeconds(b)
    ensures a == b
  {
    var ra, rb := a.minuto * 60 + a.segundo, b.minuto * 60 + b.segundo;
    assert ra < 3600 && rb < 3600;
    assert a.hora * 3600 + ra == b.hora * 3600 + rb;
  }

  /** One tick moves to the next second of the day; the last one, 23:59:59, is followed by 0. */
  lemma AdvanceStep(c: Clock)
    requires c.Valid()
    ensures ToSeconds(Advance(c)) == if ToSeconds(c) == 86399 then 0 else ToSeconds(c) + 1
  {
    if ToSeconds(c) == 86399 {
      assert c == Clock(23, 59, 59);
    }
  }

  /** The last second of the day is followed by 0; every other one by its successor. */
  lemma DayNext(t: nat)
    requires t < 86400
    ensures (t + 1) % 86400 == if t == 86399 then 0 else t + 1
  {
  }

  /** One tick advances a valid clock by exactly one second modulo one day. */
  lemma AdvanceSeconds(c: Clock)
    requires c.Valid()
    ensures ToSeconds(Advance(c)) == (ToSeconds(c) + 1) % 86400
  {
    AdvanceStep(c);
    SecondsBelowDay(c);
    DayNext(ToSeconds(c));
  }

  /**
   * `n` ticks count seconds exactly: the starting seconds plus `n` equal the
   * seconds shown afterwards plus `w` whole days, `w` being the number of
   * times the clock passed midnight.
   */
  lemma {:induction false} AdvanceNWraps(c: Clock, n: nat) returns (w: nat)
    requires c.Valid()
    ensures AdvanceN(c, n).Valid()
    ensures ToSeconds(c) + n == w * 86400 + ToSeconds(AdvanceN(c, n))
    decreases n
  {
    if n == 0 {
      w := 0;
    } else {
      var before := AdvanceN(c, n - 1);
      var v := AdvanceNWraps(c, n - 1);
      AdvanceStep(before);
      w := if ToSeconds(before) == 86399 then v + 1 else v;
    }
  }

  /** A count of seconds split into whole days and a remainder below one day: the remainder is the count modulo one day. */
  lemma DayRemainder(x: nat, w: nat, r: nat)
    requires r < 86400 && x == w * 86400 + r
    ensures r == x % 86400
  {
  }

  /** `n` ticks advance a valid clock by exactly `n` seconds modulo one day. */
  lemma AdvanceNSeconds(c: Clock, n: nat)
    requires c.Valid()
    ensures AdvanceN(c, n).Valid()
    ensures ToSeconds(AdvanceN(c, n)) == (ToSeconds(c) + n) % 86400
  {
    var w := AdvanceNWraps(c, n);
    SecondsBelowDay(AdvanceN(c, n));
    DayRemainder(ToSeconds(c) + n, w, ToSeconds(AdvanceN(c, n)));
  }

  /**
   * Closed form of `n` ticks: the seconds field is `t % 60`, the minutes field
   * `(t / 60) % 60` and the hours field `t / 3600`, for `t` the starting
   * seconds plus `n`, modulo one day.
   */
  lemma {:induction false} AdvanceNClosedForm(c: Clock, n: nat)
    requires c.Valid()
    ensures AdvanceN(c, n) == FromSeconds((ToSeconds(c) + n) % 86400)
  {
    AdvanceNSeconds(c, n);
    var t := (ToSeconds(c) + n) % 86400;
    SecondsDetermineClock(AdvanceN(c, n), FromSeconds(t));
  }

  /** Timeouts do not advance the clock: only arrived ticks count. */
  lemma {:induction false} ApplyCountsArrivals(c: Clock, events: seq<Receive>)
    ensures Apply(c, events) == AdvanceN(c, Arrivals(events))
    decreases |events|
  {
    if events != [] {
      ApplyCountsArrivals(c, events[..|events| - 1]);
    }
  }

  /** 23:59:59 plus one tick is 00:00:00. */
  lemma EndOfDayWraps()
    ensures Advance(Clock(23, 59, 59)) == Midnight
  {
  }

  /**
   * The receive loop in seconds: the clock stays valid and shows its starting
   * time plus one second per arrived tick, modulo one day; timeouts add nothing.
   */
  lemma {:induction false} ApplySeconds(c: Clock, events: seq<Receive>)
    requires c.Valid()
    ensures Apply(c, events).Valid()
    ensures ToSeconds(Apply(c, events)) == (ToSeconds(c) + Arrivals(events)) % 86400
  {
    ApplyCountsArrivals(c, events);
    AdvanceNSeconds(c, Arrivals(events));
  }

  /** A run of receives that all delivered a tick advances the clock once per receive. */
  lemma {:induction false} AllArrived(events: seq<Receive>)
    requires forall i | 0 <= i < |events| :: events[i] == Arrived
    ensures Arrivals(events) == |events|
    decreases |events|
  {
    if events != [] {
      AllArrived(events[..|events| - 1]);
    }
  }

  /** Within one day no wrap-around happens: the ticks add exactly their number of seconds. */
  lemma {:induction false} ApplyWithinDay(c: Clock, events: seq<Receive>)
    requires c.Valid()
    requires ToSeconds(c) + Arrivals(events) < 86400
    ensures ToSeconds(Apply(c, events)) == ToSeconds(c) + Arrivals(events)
  {
    ApplyCountsArrivals(c, events);
    var w := AdvanceNWraps(c, Arrivals(events));
    SecondsBelowDay(Apply(c, events));
  }

  /** Within one day, the clock reached is the one showing the starting time plus the arrived ticks. */
  lemma {:induction false} ApplyReaches(c: Clock, events: seq<Receive>, d: Clock)
    requires c.Valid() && d.Valid()
    requires ToSeconds(c) + Arrivals(events) == ToSeconds(d)
    ensures Apply(c, events) == d
  {
    SecondsBelowDay(d);
    ApplyWithinDay(c, events);
    ApplySeconds(c, events);
    SecondsDetermineClock(Apply(c, events), d);
  }

  /** 61 ticks from 00:00:00 give 00:01:01. */
  lemma {:induction false} SixtyOneTicks(events: seq<Receive>)
    requires |events| == 61
    requires forall i | 0 <= i < |events| :: events[i] == Arrived
    ensures Apply(Midnight, events) == Clock(0, 1, 1)
  {
    AllArrived(events);
    ApplyReaches(Midnight, events, Clock(0, 1, 1));
  }

  /** Receives that all timed out leave the clock exactly as it was. */
  lemma {:induction false} TimeoutsKeepClock(c: Clock, events: seq<Receive>)
    requires forall i | 0 <= i < |events| :: events[i] == TimedOut
    ensures Apply(c, events) == c
    ensures Timeouts(events) == |events|
  {
    AllTimedOut(events);
    ApplyCountsArrivals(c, events);
  }

  lemma {:induction false} AllTimedOut(events: seq<Receive>)
    requires forall i | 0 <= i < |events| :: events[i] == TimedOut
    ensures Arrivals(events) == 0
    decreases |events|
  {
    if events != [] {
      AllTimedOut(events[..|events| - 1]);
    }
  }

  /**
   * The worker's clock (`relogio`) and the number of missed-tick warnings it
   * has emitted.
   */
  class ClockTask {
    var hora: Uint8
    var minuto: Uint8
    var segundo: Uint8
    var missed: nat

    function Time(): Clock
      reads this
    {
      Clock(hora, minuto, segundo)
    }

    ghost predicate Valid()
      reads this
    {
      Time().Valid()
    }

    constructor ()
      ensures Valid()
      ensures Time() == Midnight && missed == 0
    {
      segundo := 0;
      minuto := 0;
      hora := 0;
      missed := 0;
    }

    /** A tick arrived: advance one second with carry. */
    method Tick()
      requires Valid()
      modifies this
      ensures Valid()
      ensures Time() == Advance(old(Time()))
      ensures missed == old(missed)
    {
      ghost var c := Time();
      segundo := Inc8(segundo);
      if segundo >= 60 {
        segundo := 0;
        minuto := Inc8(minuto);
        if minuto >= 60 {
          minuto := 0;
          hora := Inc8(hora);
          if hora >= 24 {
            hora := 0;
          }
        }
      }
      assert Time() == Advance(c);
    }

    /** The receive timed out: warn, leave the clock alone. */
    method Timeout()
      modifies this`missed
      ensures Time() == old(Time())
      ensures missed == old(missed) + 1
    {
      missed := missed + 1;
    }

    /** The `while(1)` loop, run over the receive outcomes, in order. */
    method Serve(events: seq<Receive>)
      requires Valid()
      modifies this
      ensures Valid()
      ensures Time() == Apply(old(Time()), events)
      ensures missed == old(missed) + Timeouts(events)
    {
      var i := 0;
      while i < |events|
        invariant 0 <= i <= |events|
        invariant Valid()
        invariant Time() == Apply(old(Time()), events[..i])
        invariant missed == old(missed) + Timeouts(events[..i])
      {
        assert events[..i + 1][..i] == events[..i];
        if events[i] == Arrived {
          Tick();
        } else {
          Timeout();
        }
        i := i + 1;
      }
      assert events[..|events|] == events;
    }
  }
}
