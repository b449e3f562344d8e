/**
 * The per-agent disease state machine of the epidemic simulation, as pure values:
 * the stage timer (class Counter in agent.py) and the stage transitions of an
 * Agent. The classes in agents.dfy are proved against these functions.
 */
module Disease {

  datatype Option<T> = None | Some(value: T)

  /** Disease stages, numbered as the simulation numbers them. */
  type Stage = s: int | 0 <= s <= 4

  const SUSCEPTIBLE: Stage := 0
  const INCUBATING: Stage := 1
  const INFECTIOUS: Stage := 2
  const RECOVERED: Stage := 3
  const DECEASED: Stage := 4

  /** Only the incubating and infectious stages run a stage timer. */
  predicate IsTimed(s: Stage) {
    s == INCUBATING || s == INFECTIOUS
  }

  function Max(a: int, b: int): int {
    if a < b then b else a
  }

  // ---------------------------------------------------------------------------
  // Stage timer
  // ---------------------------------------------------------------------------

  /** The observable state of a stage timer: its duration, the tick count and the expiry flag. */
  datatype Timer = Timer(tmax: int, time: int, expired: bool)

  /** A newly created timer. */
  function Fresh(tmax: int): Timer {
    Timer(tmax, 1, false)
  }

  /** The tick count stays between 1 and the larger of 1 and the duration. */
  predicate InRange(t: Timer) {
    1 <= t.time <= Max(1, t.tmax)
  }

  /** Resetting a timer gives back a new timer of the same duration. */
  function Reset(t: Timer): (r: Timer)
    ensures r == Fresh(t.tmax)
    ensures InRange(r) && !r.expired
  {
    t.(time := 1, expired := false)
  }

  /** One tick: count up while below the duration, otherwise flag expiry. */
  function Tick(t: Timer): (r: Timer)
    ensures r.tmax == t.tmax
    ensures t.expired ==> r.expired
    ensures r.expired != t.expired ==> t.time >= t.tmax
    ensures r.time != t.time ==> r.time == t.time + 1 && r.time <= t.tmax
    ensures t.time < t.tmax ==> r.time == t.time + 1
    ensures t.time >= t.tmax ==> r.expired
    ensures InRange(t) ==> InRange(r)
  {
    if t.time < t.tmax then t.(time := t.time + 1) else t.(expired := true)
  }

  /** n ticks in a row. */
  function Ticks(t: Timer, n: nat): Timer
    decreases n
  {
    if n == 0 then t else Ticks(Tick(t), n - 1)
  }

  /** How many more ticks an unexpired timer needs before it expires. */
  function Remaining(t: Timer): int {
    Max(1, t.tmax) - t.time + 1
  }

  /** An unexpired timer counts up for Remaining(t) - 1 ticks and expires on the next one. */
  lemma {:induction false} TicksUntilExpiry(t: Timer, n: nat)
    requires InRange(t) && !t.expired
    ensures n < Remaining(t) ==> Ticks(t, n) == t.(time := t.time + n)
    ensures Ticks(t, n).expired <==> n >= Remaining(t)
    decreases n
  {
    if n > 0 {
      if t.time < t.tmax {
        TicksUntilExpiry(Tick(t), n - 1);
      } else {
        ExpiredStaysExpired(Tick(t), n - 1);
      }
    }
  }

  /** Once a timer has expired at its limit, further ticks change nothing. */
  lemma {:induction false} ExpiredStaysExpired(t: Timer, n: nat)
    requires t.expired && t.time >= t.tmax
    ensures Ticks(t, n) == t
    decreases n
  {
    if n > 0 {
      ExpiredStaysExpired(Tick(t), n - 1);
    }
  }

  /** A new timer of duration k >= 1 expires on exactly the k-th tick, and a reset one replays that. */
  lemma ExpiresOnTickK(k: int, n: nat, t: Timer)
    requires k >= 1 && t.tmax == k
    ensures Ticks(Fresh(k), n).expired <==> n >= k
    ensures Ticks(Reset(t), n) == Ticks(Fresh(k), n)
  {
    TicksUntilExpiry(Fresh(k), n);
  }

  // ---------------------------------------------------------------------------
  // Agent disease state
  // ---------------------------------------------------------------------------

  /**
   * The per-agent attributes that are fixed once the agent exists: its type label,
   * size, whether it will recover, the three stage durations, and its transmission
   * (disease) and susceptibility (infection) profiles as functions of distance.
   */
  datatype Traits = Traits(
    kind: string,
    size: real,
    willRecover: bool,
    timeToRecover: int,
    timeToDie: int,
    timeToIncubate: int,
    diseaseProfile: real -> real,
    infectionProfile: real -> real)

  /** The mutable disease state of an agent. */
  datatype Health = Health(stage: Stage, counter: Option<Timer>, immobile: bool, transparent: bool)

  /** The duration a timed stage's counter is created with. */
  function Duration(s: Stage, t: Traits): int
    requires IsTimed(s)
  {
    if s == INCUBATING then t.timeToIncubate
    else if t.willRecover then t.timeToRecover
    else t.timeToDie
  }

  /** What a timed stage demands of handle_state: a counter to step. */
  predicate HasCounter(h: Health) {
    IsTimed(h.stage) ==> h.counter.Some?
  }

  /**
   * The agent invariant: a counter exists exactly in the timed stages, it was
   * created with that stage's duration, and it has not expired yet.
   */
  predicate Consistent(h: Health, t: Traits) {
    (h.counter.Some? <==> IsTimed(h.stage)) &&
    (h.counter.Some? ==>
      h.counter.value.tmax == Duration(h.stage, t) &&
      InRange(h.counter.value) && !h.counter.value.expired)
  }

  /** The counter a stage gets on entry (set_counter_status). */
  function CounterFor(s: Stage, t: Traits): (c: Option<Timer>)
    ensures c.Some? <==> IsTimed(s)
    ensures c.Some? ==> c.value == Fresh(Duration(s, t))
  {
    if s == INCUBATING then Some(Fresh(t.timeToIncubate))
    else if s == INFECTIOUS then Some(Fresh(if t.willRecover then t.timeToRecover else t.timeToDie))
    else None
  }

  function EnterIncubation(h: Health, t: Traits): (r: Health)
    ensures r.stage == INCUBATING && Consistent(r, t)
    ensures r.counter == Some(Fresh(t.timeToIncubate))
    ensures r.immobile == h.immobile && r.transparent == h.transparent
  {
    h.(stage := INCUBATING, counter := CounterFor(INCUBATING, t))
  }

  function BecomeSick(h: Health, t: Traits): (r: Health)
    ensures r.stage == INFECTIOUS && Consistent(r, t)
    ensures r.counter == Some(Fresh(if t.willRecover then t.timeToRecover else t.timeToDie))
    ensures r.immobile == h.immobile && r.transparent == h.transparent
  {
    h.(stage := INFECTIOUS, counter := CounterFor(INFECTIOUS, t))
  }

  function Recover(h: Health, t: Traits): (r: Health)
    ensures r.stage == RECOVERED && r.counter == None && Consistent(r, t)
    ensures r.immobile == h.immobile && r.transparent == h.transparent
  {
    h.(stage := RECOVERED, counter := CounterFor(RECOVERED, t))
  }

  function Death(h: Health, t: Traits): (r: Health)
    ensures r.stage == DECEASED && r.counter == None && Consistent(r, t)
    ensures r.immobile && r.transparent
  {
    h.(transparent := true, immobile := true, stage := DECEASED, counter := CounterFor(DECEASED, t))
  }

  /**
   * handle_state: a timed stage steps its counter and, when the counter has
   * expired, moves on (incubating to infectious, infectious to recovered or
   * deceased by willRecover). Untimed stages are left alone.
   */
  function Handle(h: Health, t: Traits): (r: Health)
    requires HasCounter(h)
    ensures !IsTimed(h.stage) ==> r == h
    ensures IsTimed(h.stage) ==>
      (r.stage != h.stage <==> Tick(h.counter.value).expired)
    ensures r.stage != DECEASED ==> r.immobile == h.immobile && r.transparent == h.transparent
    ensures r.stage == h.stage && IsTimed(h.stage) ==> r.counter == Some(Tick(h.counter.value))
    ensures r.stage != h.stage ==>
      (h.stage == INCUBATING && r.stage == INFECTIOUS) ||
      (h.stage == INFECTIOUS && t.willRecover && r.stage == RECOVERED) ||
      (h.stage == INFECTIOUS && !t.willRecover && r.stage == DECEASED && r.immobile && r.transparent)
    ensures r.stage != h.stage ==> r.counter == CounterFor(r.stage, t)
    ensures h.stage <= r.stage
    ensures HasCounter(r)
    ensures Consistent(h, t) ==> Consistent(r, t)
  {
    if IsTimed(h.stage) then
      var stepped := h.(counter := Some(Tick(h.counter.value)));
      if stepped.counter.value.expired then
        if h.stage == INCUBATING then BecomeSick(stepped, t)
        else if t.willRecover then Recover(stepped, t)
        else Death(stepped, t)
      else stepped
    else h
  }

  /** handle_state called n times in a row. */
  function Handles(h: Health, t: Traits, n: nat): (r: Health)
    requires HasCounter(h)
    ensures HasCounter(r)
    decreases n
  {
    if n == 0 then h else Handles(Handle(h, t), t, n - 1)
  }

  /** Recovered and deceased agents never change, however often they are handled. */
  lemma {:induction false} TerminalIsFinal(h: Health, t: Traits, n: nat)
    requires h.stage == RECOVERED || h.stage == DECEASED
    ensures Handles(h, t, n) == h
    decreases n
  {
    if n > 0 {
      TerminalIsFinal(Handle(h, t), t, n - 1);
    }
  }

  /**
   * A timed stage lasts exactly as long as its counter has ticks remaining: for a
   * fresh counter of duration k >= 1 that is k calls of handle_state, the last of
   * which performs the stage's programmed transition.
   */
  lemma {:induction false} TimedStageLasts(h: Health, t: Traits, n: nat)
    requires Consistent(h, t) && IsTimed(h.stage)
    ensures n < Remaining(h.counter.value) ==>
      Handles(h, t, n) == h.(counter := Some(Ticks(h.counter.value, n)))
    ensures n == Remaining(h.counter.value) ==>
      Handles(h, t, n) ==
        if h.stage == INCUBATING then BecomeSick(h.(counter := Some(Ticks(h.counter.value, n))), t)
        else if t.willRecover then Recover(h.(counter := Some(Ticks(h.counter.value, n))), t)
        else Death(h.(counter := Some(Ticks(h.counter.value, n))), t)
    decreases n
  {
    var c := h.counter.value;
    if n > 0 {
      TicksUntilExpiry(c, 1);
      if Remaining(c) == 1 {
        assert Tick(c).expired;
      } else {
        var h' := Handle(h, t);
        assert h' == h.(counter := Some(Tick(c)));
        TimedStageLasts(h', t, n - 1);
        assert Remaining(Tick(c)) == Remaining(c) - 1;
        TicksUntilExpiry(c, n);
        TicksUntilExpiry(c, n - 1);
        TicksUntilExpiry(Tick(c), n - 1);
      }
    }
  }

  /**
   * get_infection: the agent enters incubation, with a fresh incubation counter,
   * exactly when the uniform draw falls below the probability.
   */
  function GetInfection(h: Health, t: Traits, probability: real, draw: real): (r: Health)
    ensures draw < probability ==> r.stage == INCUBATING && r.counter == Some(Fresh(t.timeToIncubate))
    ensures !(draw < probability) ==> r == h
    ensures r.immobile == h.immobile && r.transparent == h.transparent
    ensures Consistent(h, t) ==> Consistent(r, t)
    ensures 0.0 <= draw < 1.0 && probability <= 0.0 ==> r == h
    ensures 0.0 <= draw < 1.0 && probability >= 1.0 ==> r.stage == INCUBATING
  {
    if draw < probability then EnterIncubation(h, t) else h
  }
}
