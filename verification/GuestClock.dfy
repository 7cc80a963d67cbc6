/** The guest's cycle counter and virtual clock (qemu-timer.c), which stop and restart with the guest
    and survive a host counter that jumps back.  Instruction counting is switched off; the host's raw
    counter and clock are inputs. */
module GuestClock {
  import opened Common

  datatype State = State(ticksPrev: int, ticksOffset: int, clockOffset: int, enabled: bool)

  /** One call into the clock, with the host's raw counter and host time at that moment. */
  datatype Event =
    | ReadTicks(raw: int)
    | Enable(raw: int, host: int)
    | Disable(raw: int, host: int)

  // ----- What the calls do -----

  function TicksValue(s: State, raw: int): int {
    if !s.enabled then s.ticksOffset
    else if s.ticksPrev > raw then s.ticksPrev + s.ticksOffset
    else raw + s.ticksOffset
  }

  function AfterTicks(s: State, raw: int): State {
    if s.enabled then s.(ticksPrev := raw, ticksOffset := TicksValue(s, raw) - raw) else s
  }

  function ClockValue(s: State, host: int): int {
    if s.enabled then host + s.clockOffset else s.clockOffset
  }

  function Step(s: State, e: Event): State {
    match e
    case ReadTicks(raw) => AfterTicks(s, raw)
    case Enable(raw, host) =>
      if s.enabled then s
      else s.(ticksOffset := s.ticksOffset - raw, clockOffset := s.clockOffset - host, enabled := true)
    case Disable(raw, host) =>
      if !s.enabled then s
      else AfterTicks(s, raw).(ticksOffset := TicksValue(s, raw), clockOffset := ClockValue(s, host), enabled := false)
  }

  function Run(s: State, es: seq<Event>): State
    decreases |es|
  {
    if es == [] then s else Run(Step(s, es[0]), es[1..])
  }

  class TimersState {
    var ticksPrev: int
    var ticksOffset: int
    var clockOffset: int
    var ticksEnabled: bool

    ghost function Value(): State
      reads this
    {
      State(ticksPrev, ticksOffset, clockOffset, ticksEnabled)
    }

    method GetTicks(raw: int) returns (ticks: int)
      modifies this
      ensures ticks == TicksValue(old(Value()), raw)
      ensures Value() == Step(old(Value()), ReadTicks(raw))
    {
      if !ticksEnabled {
        return ticksOffset;
      }
      if ticksPrev > raw {
        ticksOffset := ticksOffset + (ticksPrev - raw);
      }
      ticksPrev := raw;
      ticks := raw + ticksOffset;
    }

    method GetClock(host: int) returns (time: int)
      ensures time == ClockValue(Value(), host)
    {
      if !ticksEnabled {
        return clockOffset;
      }
      time := host + clockOffset;
    }

    method EnableTicks(raw: int, host: int)
      modifies this
      ensures Value() == Step(old(Value()), Enable(raw, host))
    {
      if !ticksEnabled {
        ticksOffset := ticksOffset - raw;
        clockOffset := clockOffset - host;
        ticksEnabled := true;
      }
    }

    method DisableTicks(raw: int, host: int)
      modifies this
      ensures Value() == Step(old(Value()), Disable(raw, host))
    {
      if ticksEnabled {
        var ticks := GetTicks(raw);
        ticksOffset := ticks;
        var time := GetClock(host);
        clockOffset := time;
        ticksEnabled := false;
      }
    }
  }

  // ----- The cycle counter never goes back -----

  /** The cycle counts handed out along a run: the results of reads, and the count at which the
      counter is stopped. */
  function Observed(s: State, es: seq<Event>): seq<int>
    decreases |es|
  {
    if es == [] then []
    else
      (if es[0].ReadTicks? || (es[0].Disable? && s.enabled) then [TicksValue(s, es[0].raw)] else [])
      + Observed(Step(s, es[0]), es[1..])
  }

  predicate NonDecreasing(xs: seq<int>) {
    forall i, j :: 0 <= i <= j < |xs| ==> xs[i] <= xs[j]
  }

  /** The raw counter at the last Enable, until it is read for the first time. */
  function Pending(s: State, pending: Option<int>, e: Event): Option<int> {
    match e
    case Enable(raw, _) => if s.enabled then pending else Some(raw)
    case ReadTicks(_) => if s.enabled then None else pending
    case Disable(_, _) => if s.enabled then None else pending
  }

  /** Whenever the counter is read for the first time after an Enable, the raw counter has not fallen
      below its value at the Enable, unless an earlier reading was at least that high. */
  predicate NoEarlyRegression(s: State, pending: Option<int>, es: seq<Event>)
    decreases |es|
  {
    es == [] ||
    (
      && (s.enabled && pending.Some? && !es[0].Enable? ==> es[0].raw >= pending.value || s.ticksPrev >= pending.value)
      && NoEarlyRegression(Step(s, es[0]), Pending(s, pending, es[0]), es[1..])
    )
  }

  /** The cycle count the guest has reached. */
  function Reached(s: State, pending: Option<int>): int {
    if !s.enabled then s.ticksOffset
    else if pending.Some? then s.ticksOffset + pending.value
    else s.ticksOffset + s.ticksPrev
  }

  /** Starting from a stopped counter, the counts handed out never decrease - whatever the raw
      counter does - if and only if every first read after an Enable finds the raw counter no lower
      than it was at the Enable, or the last reading before the Enable was at least that high. */
  lemma TicksNeverDecrease(s: State, es: seq<Event>)
    requires !s.enabled
    ensures NonDecreasing([s.ticksOffset] + Observed(s, es)) <==> NoEarlyRegression(s, None, es)
  {
    TicksFromReached(s, None, es);
  }

  /** For example, a raw counter that falls from 10 to 5 between the first Enable and the first read takes a
      fresh counter back from 0 to -5: this is the case s == State(0, 0, 0, false), raw == 10, later == 5. */
  lemma FirstReadFalls(s: State, raw: int, host: int, later: int)
    requires !s.enabled && s.ticksPrev <= later < raw
    ensures Observed(s, [Enable(raw, host), ReadTicks(later)]) == [s.ticksOffset - (raw - later)]
    ensures !NonDecreasing([s.ticksOffset] + Observed(s, [Enable(raw, host), ReadTicks(later)]))
  {
    var es, rest := [Enable(raw, host), ReadTicks(later)], [ReadTicks(later)];
    var s' := Step(s, es[0]);
    assert es[1..] == rest && rest[1..] == [];
    assert Observed(s', rest) == [TicksValue(s', later)] + Observed(Step(s', rest[0]), []);
    var all := [s.ticksOffset] + Observed(s, es);
    assert all[0] > all[1];
  }

  lemma {:induction false} TicksFromReached(s: State, pending: Option<int>, es: seq<Event>)
    requires !s.enabled ==> pending == None
    ensures NonDecreasing([Reached(s, pending)] + Observed(s, es)) <==> NoEarlyRegression(s, pending, es)
    decreases |es|
  {
    var level := Reached(s, pending);
    if es == [] {
      assert Observed(s, es) == [];
    } else {
      var s', pending' := Step(s, es[0]), Pending(s, pending, es[0]);
      TicksFromReached(s', pending', es[1..]);
      var rest := Observed(s', es[1..]);
      if es[0].ReadTicks? || (es[0].Disable? && s.enabled) {
        var v := TicksValue(s, es[0].raw);
        assert Reached(s', pending') == v;
        assert Observed(s, es) == [v] + rest;
        NonDecreasingCons(level, v, rest);
      } else {
        assert Observed(s, es) == rest;
      }
    }
  }

  lemma NonDecreasingCons(x: int, y: int, rest: seq<int>)
    ensures NonDecreasing([x] + ([y] + rest)) <==> x <= y && NonDecreasing([y] + rest)
  {
    var tail := [y] + rest;
    var all := [x] + tail;
    assert all[1] == y;
    if NonDecreasing(all) {
      assert all[0] <= all[1];
      forall i, j | 0 <= i <= j < |tail| ensures tail[i] <= tail[j] {
        assert all[i + 1] <= all[j + 1];
      }
    }
    if x <= y && NonDecreasing(tail) {
      forall i, j | 0 <= i <= j < |all| ensures all[i] <= all[j] {
        if j > 0 {
          assert tail[0] <= tail[j - 1];
          if i > 0 { assert tail[i - 1] <= tail[j - 1]; }
        }
      }
    }
  }

  // ----- The cycle counter measures the cycles while enabled -----

  /** What the raw counter advances by while enabled during a run, up to the reading "now"; "since" is the reading at
      the start of the interval that is open at the beginning, if any. */
  function EnabledTicks(since: Option<int>, es: seq<Event>, now: int): int
    decreases |es|
  {
    if es == [] then (if since.Some? then now - since.value else 0)
    else match es[0]
      case ReadTicks(_) => EnabledTicks(since, es[1..], now)
      case Enable(raw, _) => EnabledTicks(if since.Some? then since else Some(raw), es[1..], now)
      case Disable(raw, _) =>
        (if since.Some? then raw - since.value else 0) + EnabledTicks(None, es[1..], now)
  }

  function Drop(last: int, raw: int): (d: int)
    ensures d >= 0 && (d == 0 <==> last <= raw)
  {
    if last > raw then last - raw else 0
  }

  /** How far in all the readings of a run fall below the readings before them; only an enabled counter is read. */
  function Fallen(last: int, enabled: bool, es: seq<Event>, now: int): (d: int)
    ensures d >= 0
    decreases |es|
  {
    if es == [] then (if enabled then Drop(last, now) else 0)
    else if es[0].Enable? then Fallen(last, true, es[1..], now)
    else if !enabled then Fallen(last, false, es[1..], now)
    else Drop(last, es[0].raw) + Fallen(es[0].raw, es[0].ReadTicks?, es[1..], now)
  }

  /** From a stopped counter, the count advances by exactly what the raw counter does while enabled, and by what it
      fell in between. */
  lemma TicksMeasureEnabledTicks(s: State, es: seq<Event>, now: int)
    requires !s.enabled
    ensures TicksValue(Run(s, es), now) == s.ticksOffset + EnabledTicks(None, es, now)
                                           + Fallen(s.ticksPrev, false, es, now)
  {
    TicksFrom(s, None, es, now);
  }

  lemma {:induction false} TicksFrom(s: State, since: Option<int>, es: seq<Event>, now: int)
    requires s.enabled <==> since.Some?
    ensures TicksValue(Run(s, es), now) == s.ticksOffset + (if s.enabled then since.value else 0)
                                           + EnabledTicks(since, es, now) + Fallen(s.ticksPrev, s.enabled, es, now)
    decreases |es|
  {
    if es != [] {
      var since' := match es[0]
        case ReadTicks(_) => since
        case Enable(raw, _) => if since.Some? then since else Some(raw)
        case Disable(_, _) => None;
      TicksFrom(Step(s, es[0]), since', es[1..], now);
    }
  }

  /** No reading of an enabled counter is lower than the one before. */
  predicate NeverFalls(last: int, enabled: bool, es: seq<Event>, now: int)
    decreases |es|
  {
    if es == [] then enabled ==> last <= now
    else if es[0].Enable? then NeverFalls(last, true, es[1..], now)
    else if !enabled then NeverFalls(last, false, es[1..], now)
    else last <= es[0].raw && NeverFalls(es[0].raw, es[0].ReadTicks?, es[1..], now)
  }

  /** So it advances by exactly what the raw counter does while enabled if and only if that never falls. */
  lemma TicksExactly(s: State, es: seq<Event>, now: int)
    requires !s.enabled
    ensures TicksValue(Run(s, es), now) == s.ticksOffset + EnabledTicks(None, es, now)
       <==> NeverFalls(s.ticksPrev, false, es, now)
  {
    TicksMeasureEnabledTicks(s, es, now);
    FallenIff(s.ticksPrev, false, es, now);
  }

  lemma {:induction false} FallenIff(last: int, enabled: bool, es: seq<Event>, now: int)
    ensures Fallen(last, enabled, es, now) == 0 <==> NeverFalls(last, enabled, es, now)
    decreases |es|
  {
    if es == [] {
    } else if es[0].Enable? {
      FallenIff(last, true, es[1..], now);
    } else if !enabled {
      FallenIff(last, false, es[1..], now);
    } else {
      FallenIff(es[0].raw, es[0].ReadTicks?, es[1..], now);
    }
  }

  // ----- The virtual clock measures the time while enabled -----

  /** Host time spent enabled during a run, up to host time "now"; "since" is the start of the
      interval that is open at the beginning, if any. */
  function EnabledTime(since: Option<int>, es: seq<Event>, now: int): int
    decreases |es|
  {
    if es == [] then (if since.Some? then now - since.value else 0)
    else match es[0]
      case ReadTicks(_) => EnabledTime(since, es[1..], now)
      case Enable(_, host) => EnabledTime(if since.Some? then since else Some(host), es[1..], now)
      case Disable(_, host) =>
        (if since.Some? then host - since.value else 0) + EnabledTime(None, es[1..], now)
  }

  /** From a stopped clock, the virtual clock advances by exactly the host time spent enabled. */
  lemma ClockMeasuresEnabledTime(s: State, es: seq<Event>, now: int)
    requires !s.enabled
    ensures ClockValue(Run(s, es), now) == s.clockOffset + EnabledTime(None, es, now)
  {
    ClockFrom(s, None, es, now);
  }

  lemma {:induction false} ClockFrom(s: State, since: Option<int>, es: seq<Event>, now: int)
    requires s.enabled <==> since.Some?
    ensures ClockValue(Run(s, es), now)
         == s.clockOffset + (if s.enabled then since.value else 0) + EnabledTime(since, es, now)
    decreases |es|
  {
    if es != [] {
      var since' := match es[0]
        case ReadTicks(_) => since
        case Enable(_, host) => if since.Some? then since else Some(host)
        case Disable(_, _) => None;
      ClockFrom(Step(s, es[0]), since', es[1..], now);
    }
  }
}
