/**
 * The device-ownership arbitration, stated on values. A `State` is the
 * device table (name to device state) and the rule state. The two
 * mutators `On` and `Off` carry the sprayer and mist cascades; the expiry
 * sweep, the timer engine, the temperature-rule engine and the sprayer
 * rule engine are defined on top of them. The imperative `Terrarium`
 * class is proved to compute exactly these functions.
 */
module Engine {
  import opened Common
  import opened DeviceStates
  import opened RuleStates
  import opened TemperatureRules
  import opened Config

  /** A physical device of the registry: its name and whether its burning hours are counted. */
  datatype Device = Device(name: string, hasLifetime: bool)

  datatype State = State(devs: map<string, DevVal>, rs: RuleStateVal)

  const FAN_IN: string := "fan_in"
  const FAN_OUT: string := "fan_out"

  predicate IsMist(d: string) { EqualsIgnoreCase(d, "mist") }
  predicate IsSprayer(d: string) { EqualsIgnoreCase(d, "sprayer") }
  predicate IsNoDevice(d: string) { EqualsIgnoreCase(d, "no device") }
  predicate IsFan(d: string) { d == FAN_IN || d == FAN_OUT }

  /**
   * What every state of the engine satisfies: both fans are in the
   * table, every entry is stored under its own name, and the rule state
   * tracks only devices of the table.
   */
  predicate WF(s: State)
  {
    && FAN_IN in s.devs && FAN_OUT in s.devs
    && (forall n :: n in s.devs ==> s.devs[n].name == n)
    && (forall x :: x in s.rs.devices ==> x in s.devs)
  }

  /** The device state of `d` with a new end time and owner; nothing else changes. */
  function Put(s: State, d: string, onPeriod: int, owner: int): State
    requires d in s.devs
  {
    s.(devs := s.devs[d := s.devs[d].(onPeriod := onPeriod, controlledBy := owner)])
  }

  // ---------------------------------------------------------------------------
  // The two mutators

  /**
   * `setDeviceOff(d, o)`: `d` is off and owned by `o`. Switching the mist
   * off also switches both fans off and frees them. Nothing else changes.
   */
  function Off(s: State, d: string, o: int): (r: State)
    requires WF(s) && d in s.devs
    ensures WF(r) && r.devs.Keys == s.devs.Keys && r.rs == s.rs
    ensures r.devs[d] == s.devs[d].(onPeriod := ENDTIME_OFF, controlledBy := o)
    ensures IsMist(d) ==> r.devs[FAN_IN] == s.devs[FAN_IN].(onPeriod := ENDTIME_OFF, controlledBy := NOT_CONTROLLED)
    ensures IsMist(d) ==> r.devs[FAN_OUT] == s.devs[FAN_OUT].(onPeriod := ENDTIME_OFF, controlledBy := NOT_CONTROLLED)
    ensures forall n :: n in s.devs && n != d && !(IsMist(d) && IsFan(n)) ==> r.devs[n] == s.devs[n]
    decreases if IsMist(d) then 1 else 0
  {
    var s1 := Put(s, d, ENDTIME_OFF, o);
    if IsMist(d) then
      Off(Off(s1, FAN_IN, NOT_CONTROLLED), FAN_OUT, NOT_CONTROLLED)
    else
      s1
  }

  /** Switching a device on with this end time and owner starts the sprayer rule. */
  predicate EntersSprayerMode(d: string, e: int, o: int)
  {
    e > 0 && IsSprayer(d) && (o == CONTROLLED_BY_TIMER || o == NOT_CONTROLLED)
  }

  /**
   * `setDeviceOn(d, e, o)`: `d` gets end time `e` and owner `o`. When the
   * sprayer is switched on with an end time by a timer or by nobody, the
   * sprayer rule becomes active: it is delayed by `sprayerDelay` minutes
   * and both fans are switched off under its control and tracked. In
   * every other case the rule state and all other devices are untouched.
   */
  function On(s: State, d: string, e: int, o: int, now: Clock, sprayerDelay: int): (r: State)
    requires WF(s) && d in s.devs
    ensures WF(r) && r.devs.Keys == s.devs.Keys
    ensures r.devs[d] == s.devs[d].(onPeriod := e, controlledBy := o)
    ensures !EntersSprayerMode(d, e, o) ==>
      r.rs == s.rs && forall n :: n in s.devs && n != d ==> r.devs[n] == s.devs[n]
    ensures EntersSprayerMode(d, e, o) ==>
      && r.rs == RuleStateVal(SPRAYER_RULENR, now.epochSecond + sprayerDelay * 60,
                              Added(Added(s.rs.devices, FAN_IN), FAN_OUT))
      && r.devs[FAN_IN] == s.devs[FAN_IN].(onPeriod := ENDTIME_OFF, controlledBy := CONTROLLED_BY_SPRAYER_RULE)
      && r.devs[FAN_OUT] == s.devs[FAN_OUT].(onPeriod := ENDTIME_OFF, controlledBy := CONTROLLED_BY_SPRAYER_RULE)
      && forall n :: n in s.devs && n != d && !IsFan(n) ==> r.devs[n] == s.devs[n]
  {
    var s1 := Put(s, d, e, o);
    if EntersSprayerMode(d, e, o) then
      assert Lower(d[0]) == 's' && d != FAN_IN && d != FAN_OUT;
      StartSprayerEffect(s1, now, sprayerDelay);
      StartSprayer(s1, now, sprayerDelay)
    else
      s1
  }

  /**
   * The sprayer rule takes charge: it is delayed by `sprayerDelay`
   * minutes from now, and both fans are switched off under its control
   * and tracked.
   */
  function StartSprayer(s: State, now: Clock, sprayerDelay: int): (r: State)
    requires WF(s)
    ensures WF(r) && r.devs.Keys == s.devs.Keys
  {
    FanHeld(FanHeld(Armed(s, now, sprayerDelay), FAN_IN), FAN_OUT)
  }

  /** The sprayer rule's number and delay end, stored in the rule state. */
  function Armed(s: State, now: Clock, sprayerDelay: int): (r: State)
    requires WF(s)
    ensures WF(r) && r.devs == s.devs && r.rs.devices == s.rs.devices
  {
    s.(rs := s.rs.(rulenr := SPRAYER_RULENR, delayed := now.epochSecond + sprayerDelay * 60))
  }

  /** One fan switched off under the sprayer rule and tracked by it. */
  function FanHeld(s: State, fan: string): (r: State)
    requires WF(s) && fan in s.devs
    ensures WF(r) && r.devs.Keys == s.devs.Keys
  {
    Tracked(Off(s, fan, CONTROLLED_BY_SPRAYER_RULE), fan)
  }

  /** What the start of the sprayer rule does to the rule state and the table. */
  lemma StartSprayerEffect(s: State, now: Clock, sprayerDelay: int)
    requires WF(s)
    ensures var r := StartSprayer(s, now, sprayerDelay);
      && r.rs == RuleStateVal(SPRAYER_RULENR, now.epochSecond + sprayerDelay * 60,
                              Added(Added(s.rs.devices, FAN_IN), FAN_OUT))
      && r.devs[FAN_IN] == s.devs[FAN_IN].(onPeriod := ENDTIME_OFF, controlledBy := CONTROLLED_BY_SPRAYER_RULE)
      && r.devs[FAN_OUT] == s.devs[FAN_OUT].(onPeriod := ENDTIME_OFF, controlledBy := CONTROLLED_BY_SPRAYER_RULE)
      && forall n :: n in s.devs && !IsFan(n) ==> r.devs[n] == s.devs[n]
  {
  }

  // ---------------------------------------------------------------------------
  // Expiry sweep (once per second)

  /** The rule state tracks `d` as well. */
  function Tracked(s: State, d: string): (r: State)
    requires WF(s) && d in s.devs
    ensures WF(r) && r.devs == s.devs
    ensures r.rs == s.rs.(devices := Added(s.rs.devices, d))
  {
    s.(rs := s.rs.(devices := Added(s.rs.devices, d)))
  }

  /** A device whose positive end time has been reached. */
  predicate Expired(v: DevVal, now: int) { v.onPeriod > 0 && now >= v.onPeriod }

  function Freed(v: DevVal): DevVal
  {
    v.(onPeriod := ENDTIME_OFF, controlledBy := NOT_CONTROLLED)
  }

  predicate MistExpiredAmong(s: State, done: set<string>, now: int)
  {
    exists m :: m in done && m in s.devs && IsMist(m) && Expired(s.devs[m], now)
  }

  /**
   * The table once the devices in `done` have been visited by the sweep,
   * in any order: those that had expired are off and free, and so are the
   * fans when a visited mist device had expired.
   */
  function SweepPart(s: State, done: set<string>, now: int): State
  {
    s.(devs := map n | n in s.devs :: Swept(s, done, now, n))
  }

  function Swept(s: State, done: set<string>, now: int, n: string): DevVal
    requires n in s.devs
  {
    if (n in done && Expired(s.devs[n], now)) || (IsFan(n) && MistExpiredAmong(s, done, now))
    then Freed(s.devs[n]) else s.devs[n]
  }

  /**
   * `checkDevices()`: after the sweep no device has an end time in
   * `(0, now]`; a device that had not expired changes only when it is a
   * fan and an expired mist device cascaded into it.
   */
  function Sweep(s: State, now: int): (r: State)
    ensures r.devs.Keys == s.devs.Keys && r.rs == s.rs
    ensures forall n :: n in r.devs ==> !Expired(r.devs[n], now)
    ensures forall n :: n in s.devs && Expired(s.devs[n], now) ==> r.devs[n] == Freed(s.devs[n])
    ensures forall n :: n in s.devs && !Expired(s.devs[n], now) && !IsFan(n) ==> r.devs[n] == s.devs[n]
    ensures forall n :: n in s.devs && IsFan(n) && !Expired(s.devs[n], now) ==>
      r.devs[n] == (if MistExpiredAmong(s, s.devs.Keys, now) then Freed(s.devs[n]) else s.devs[n])
  {
    SweepPart(s, s.devs.Keys, now)
  }

  /** A visited set grown by `k` holds an expired mist device when the old one did or `k` is one. */
  lemma MistAmongGrows(s: State, done: set<string>, k: string, now: int)
    requires k in s.devs
    ensures MistExpiredAmong(s, done + {k}, now) <==>
            MistExpiredAmong(s, done, now) || (IsMist(k) && Expired(s.devs[k], now))
  {
    if MistExpiredAmong(s, done + {k}, now) && !(IsMist(k) && Expired(s.devs[k], now)) {
      var m :| m in done + {k} && m in s.devs && IsMist(m) && Expired(s.devs[m], now);
      assert m in done;
    }
  }

  /** Visiting one more device is one step of the sweep, whatever was visited before. */
  lemma SweepStep(s: State, done: set<string>, k: string, now: int)
    requires WF(s) && k in s.devs && k !in done && done <= s.devs.Keys
    ensures WF(SweepPart(s, done, now))
    ensures var cur := SweepPart(s, done, now);
      (if Expired(cur.devs[k], now) then Off(cur, k, NOT_CONTROLLED) else cur)
      == SweepPart(s, done + {k}, now)
  {
    var cur := SweepPart(s, done, now);
    var nxt := SweepPart(s, done + {k}, now);
    MistAmongGrows(s, done, k, now);
    assert WF(cur);
    if Expired(cur.devs[k], now) {
      SweepStepExpired(s, done, k, now);
    } else {
      forall n | n in s.devs ensures cur.devs[n] == nxt.devs[n] {
        assert cur.devs[n] == Swept(s, done, now, n);
        assert nxt.devs[n] == Swept(s, done + {k}, now, n);
      }
      assert cur.devs == nxt.devs;
    }
  }

  lemma SweepStepExpired(s: State, done: set<string>, k: string, now: int)
    requires WF(s) && k in s.devs && k !in done && done <= s.devs.Keys
    requires WF(SweepPart(s, done, now)) && Expired(SweepPart(s, done, now).devs[k], now)
    requires MistExpiredAmong(s, done + {k}, now) <==>
             MistExpiredAmong(s, done, now) || (IsMist(k) && Expired(s.devs[k], now))
    ensures Off(SweepPart(s, done, now), k, NOT_CONTROLLED) == SweepPart(s, done + {k}, now)
  {
    var cur := SweepPart(s, done, now);
    var nxt := SweepPart(s, done + {k}, now);
    var res := Off(cur, k, NOT_CONTROLLED);
    forall n | n in s.devs ensures res.devs[n] == nxt.devs[n] {
      SweepStepExpiredAt(s, done, k, now, n);
    }
    assert res.devs == nxt.devs;
  }

  lemma SweepStepExpiredAt(s: State, done: set<string>, k: string, now: int, n: string)
    requires WF(s) && k in s.devs && k !in done && done <= s.devs.Keys && n in s.devs
    requires WF(SweepPart(s, done, now)) && Expired(SweepPart(s, done, now).devs[k], now)
    requires MistExpiredAmong(s, done + {k}, now) <==>
             MistExpiredAmong(s, done, now) || (IsMist(k) && Expired(s.devs[k], now))
    ensures Off(SweepPart(s, done, now), k, NOT_CONTROLLED).devs[n] == Swept(s, done + {k}, now, n)
  {
    var cur := SweepPart(s, done, now);
    assert cur.devs[k] == Swept(s, done, now, k) == s.devs[k];
    if n == k {
      assert Off(cur, k, NOT_CONTROLLED).devs[k] == Freed(s.devs[k]);
    } else if IsMist(k) && IsFan(n) {
      SweepFanOfExpiredMist(s, done, k, now, n);
    } else {
      assert Off(cur, k, NOT_CONTROLLED).devs[n] == cur.devs[n] == Swept(s, done, now, n);
    }
  }

  /** The fans after an expired mist device is switched off during the sweep. */
  lemma SweepFanOfExpiredMist(s: State, done: set<string>, k: string, now: int, n: string)
    requires WF(s) && k in s.devs && k !in done && done <= s.devs.Keys && n in s.devs
    requires WF(SweepPart(s, done, now)) && SweepPart(s, done, now).devs[k] == s.devs[k]
    requires IsMist(k) && IsFan(n) && Expired(s.devs[k], now)
    requires MistExpiredAmong(s, done + {k}, now)
    ensures Off(SweepPart(s, done, now), k, NOT_CONTROLLED).devs[n] == Swept(s, done + {k}, now, n)
  {
    var cur := SweepPart(s, done, now);
    assert Off(cur, k, NOT_CONTROLLED).devs[n] == Freed(cur.devs[n]) == Freed(s.devs[n]);
  }

  // ---------------------------------------------------------------------------
  // Timer engine (once per minute)

  /** The devices of active timers are all in the table. */
  predicate TimersKnown(ts: seq<Timer>, names: set<string>)
  {
    forall i :: 0 <= i < |ts| && ts[i].repeat != 0 ==> ts[i].device in names
  }

  function OnMinutes(t: Timer): int { t.hourOn * 60 + t.minuteOn }
  function OffMinutes(t: Timer): int { t.hourOff * 60 + t.minuteOff }

  /**
   * One timer of `checkTimers()`.
   * - An inactive timer (`repeat == 0`) changes nothing.
   * - An on/off timer at its on-minute switches its device on
   *   indefinitely under timer control only when the device is free or
   *   owned by a temperature rule; a mist timer also puts both fans off
   *   under the mist rule. Devices owned by the sprayer rule, the mist
   *   rule or a timer are left alone.
   * - At a non-zero off-minute it switches the device off and frees it,
   *   only when the device is on and owned by a timer.
   * - A period timer at its on-minute switches on, until `now + period`,
   *   only a device that is off and free.
   */
  function TimerStep(s: State, t: Timer, now: Clock, sprayerDelay: int): (r: State)
    requires WF(s) && (t.repeat != 0 ==> t.device in s.devs)
    ensures WF(r) && r.devs.Keys == s.devs.Keys
  {
    if t.repeat == 0 then s
    else if t.period == 0 then OnOffTimerStep(s, t, now, sprayerDelay)
    else PeriodTimerStep(s, t, now, sprayerDelay)
  }

  /** An active timer with an on and an off time. */
  function OnOffTimerStep(s: State, t: Timer, now: Clock, sprayerDelay: int): (r: State)
    requires WF(s) && t.device in s.devs
    ensures WF(r) && r.devs.Keys == s.devs.Keys
  {
    var cur := now.hour * 60 + now.minute;
    if cur == OnMinutes(t) then
      var owner := s.devs[t.device].controlledBy;
      if owner == NOT_CONTROLLED || owner > 0 then TimerOn(s, t, now, sprayerDelay) else s
    else if OffMinutes(t) != 0 && cur == OffMinutes(t) then
      if s.devs[t.device].onPeriod != 0 && s.devs[t.device].controlledBy == CONTROLLED_BY_TIMER then
        Off(s, t.device, NOT_CONTROLLED)
      else
        s
    else
      s
  }

  /**
   * An on/off timer takes its device: on indefinitely under timer
   * control; a mist timer also puts both fans off under the mist rule.
   */
  function TimerOn(s: State, t: Timer, now: Clock, sprayerDelay: int): (r: State)
    requires WF(s) && t.device in s.devs
    ensures WF(r) && r.devs.Keys == s.devs.Keys
  {
    var s1 := On(s, t.device, ENDTIME_INDEFINITE, CONTROLLED_BY_TIMER, now, sprayerDelay);
    if IsMist(t.device) then
      Off(Off(s1, FAN_IN, CONTROLLED_BY_MIST_RULE), FAN_OUT, CONTROLLED_BY_MIST_RULE)
    else
      s1
  }

  /** An active timer with an on time and a period: only a device that is off and free is taken. */
  function PeriodTimerStep(s: State, t: Timer, now: Clock, sprayerDelay: int): (r: State)
    requires WF(s) && t.device in s.devs
    ensures WF(r) && r.devs.Keys == s.devs.Keys
  {
    var cur := now.hour * 60 + now.minute;
    var endtime := now.epochSecond + t.period;
    if cur == OnMinutes(t) && s.devs[t.device].onPeriod == 0
       && s.devs[t.device].controlledBy == NOT_CONTROLLED then
      On(s, t.device, endtime, CONTROLLED_BY_TIMER, now, sprayerDelay)
    else
      s
  }

  /** What one timer does to the table and the rule state, case by case. */
  lemma TimerStepEffect(s: State, t: Timer, now: Clock, sprayerDelay: int)
    requires WF(s) && (t.repeat != 0 ==> t.device in s.devs)
    ensures t.repeat == 0 ==> TimerStep(s, t, now, sprayerDelay) == s
    ensures t.repeat != 0 && t.period == 0 && now.MinuteOfDay() == OnMinutes(t) ==>
      var r := TimerStep(s, t, now, sprayerDelay);
      var owner := s.devs[t.device].controlledBy;
      if owner == NOT_CONTROLLED || owner > 0 then
        && r.rs == s.rs
        && r.devs[t.device] == s.devs[t.device].(onPeriod := ENDTIME_INDEFINITE, controlledBy := CONTROLLED_BY_TIMER)
        && (IsMist(t.device) ==> r.devs[FAN_IN].controlledBy == CONTROLLED_BY_MIST_RULE
                                 && r.devs[FAN_OUT].controlledBy == CONTROLLED_BY_MIST_RULE
                                 && !r.devs[FAN_IN].IsOn() && !r.devs[FAN_OUT].IsOn())
        && (forall n :: n in s.devs && n != t.device && !(IsMist(t.device) && IsFan(n)) ==> r.devs[n] == s.devs[n])
      else r == s
    ensures (t.repeat != 0 && t.period == 0 && now.MinuteOfDay() != OnMinutes(t)
             && OffMinutes(t) != 0 && now.MinuteOfDay() == OffMinutes(t)) ==>
      var r := TimerStep(s, t, now, sprayerDelay);
      if s.devs[t.device].IsOn() && s.devs[t.device].controlledBy == CONTROLLED_BY_TIMER
      then r == Off(s, t.device, NOT_CONTROLLED)
      else r == s
    ensures (t.repeat != 0 && t.period == 0 && now.MinuteOfDay() != OnMinutes(t)
             && (OffMinutes(t) == 0 || now.MinuteOfDay() != OffMinutes(t))) ==> TimerStep(s, t, now, sprayerDelay) == s
    ensures t.repeat != 0 && t.period != 0 ==>
      var r := TimerStep(s, t, now, sprayerDelay);
      if now.MinuteOfDay() == OnMinutes(t) && !s.devs[t.device].IsOn()
         && s.devs[t.device].controlledBy == NOT_CONTROLLED
      then r == On(s, t.device, now.epochSecond + t.period, CONTROLLED_BY_TIMER, now, sprayerDelay)
      else r == s
  {
    if t.repeat != 0 && t.period == 0 && now.MinuteOfDay() == OnMinutes(t) {
      var owner := s.devs[t.device].controlledBy;
      if owner == NOT_CONTROLLED || owner > 0 {
        TimerOnEffect(s, t, now, sprayerDelay);
      }
    }
  }

  /** An on/off timer taking its device leaves the rule state and every other device alone, the fans of mist aside. */
  lemma TimerOnEffect(s: State, t: Timer, now: Clock, sprayerDelay: int)
    requires WF(s) && t.device in s.devs
    ensures var r := TimerOn(s, t, now, sprayerDelay);
      && r.rs == s.rs
      && r.devs[t.device] == s.devs[t.device].(onPeriod := ENDTIME_INDEFINITE, controlledBy := CONTROLLED_BY_TIMER)
      && (IsMist(t.device) ==> r.devs[FAN_IN].controlledBy == CONTROLLED_BY_MIST_RULE
                               && r.devs[FAN_OUT].controlledBy == CONTROLLED_BY_MIST_RULE
                               && !r.devs[FAN_IN].IsOn() && !r.devs[FAN_OUT].IsOn())
      && (forall n :: n in s.devs && n != t.device && !(IsMist(t.device) && IsFan(n)) ==> r.devs[n] == s.devs[n])
  {
    var s1 := On(s, t.device, ENDTIME_INDEFINITE, CONTROLLED_BY_TIMER, now, sprayerDelay);
    assert !EntersSprayerMode(t.device, ENDTIME_INDEFINITE, CONTROLLED_BY_TIMER);
    if IsMist(t.device) {
      assert !IsMist(FAN_IN) && !IsMist(FAN_OUT);
      assert t.device != FAN_IN && t.device != FAN_OUT;
    }
  }

  /** `checkTimers()`: every timer in configuration order. */
  function RunTimers(s: State, ts: seq<Timer>, now: Clock, sprayerDelay: int): (r: State)
    requires WF(s) && TimersKnown(ts, s.devs.Keys)
    ensures WF(r) && r.devs.Keys == s.devs.Keys
    decreases |ts|
  {
    if ts == [] then s
    else
      var prev := RunTimers(s, ts[..|ts| - 1], now, sprayerDelay);
      TimerStep(prev, ts[|ts| - 1], now, sprayerDelay)
  }

  /** Extending the processed prefix of the timers by one is one more `TimerStep`. */
  lemma RunTimersStep(s: State, ts: seq<Timer>, i: int, now: Clock, sprayerDelay: int, before: State, after: State)
    requires WF(s) && TimersKnown(ts, s.devs.Keys) && 0 <= i < |ts|
    requires TimersKnown(ts[..i], s.devs.Keys) && before == RunTimers(s, ts[..i], now, sprayerDelay)
    requires after == TimerStep(before, ts[i], now, sprayerDelay)
    ensures TimersKnown(ts[..i + 1], s.devs.Keys) && after == RunTimers(s, ts[..i + 1], now, sprayerDelay)
  {
    assert ts[..i + 1][..i] == ts[..i];
  }

  /** Whether an active timer's inclusive `[on, off]` window holds the current minute. */
  predicate InInitWindow(t: Timer, now: Clock)
  {
    t.repeat != 0 && OnMinutes(t) <= now.MinuteOfDay() <= OffMinutes(t)
  }

  /**
   * One timer of `initTimers(now)`: inside the inclusive window the device
   * is switched on indefinitely under timer control, whoever owned it.
   */
  function InitTimerStep(s: State, t: Timer, now: Clock, sprayerDelay: int): (r: State)
    requires WF(s) && (t.repeat != 0 ==> t.device in s.devs)
    ensures WF(r) && r.devs.Keys == s.devs.Keys && r.rs == s.rs
  {
    if t.repeat != 0 then
      var on := OnMinutes(t);
      var off := OffMinutes(t);
      var cur := now.hour * 60 + now.minute;
      if cur >= on && cur <= off then
        On(s, t.device, ENDTIME_INDEFINITE, CONTROLLED_BY_TIMER, now, sprayerDelay)
      else
        s
    else
      s
  }

  function InitTimers(s: State, ts: seq<Timer>, now: Clock, sprayerDelay: int): (r: State)
    requires WF(s) && TimersKnown(ts, s.devs.Keys)
    ensures WF(r) && r.devs.Keys == s.devs.Keys && r.rs == s.rs
    decreases |ts|
  {
    if ts == [] then s
    else InitTimerStep(InitTimers(s, ts[..|ts| - 1], now, sprayerDelay), ts[|ts| - 1], now, sprayerDelay)
  }

  lemma InitTimersStep(s: State, ts: seq<Timer>, i: int, now: Clock, sprayerDelay: int)
    requires WF(s) && TimersKnown(ts, s.devs.Keys) && 0 <= i < |ts|
    ensures TimersKnown(ts[..i], s.devs.Keys) && TimersKnown(ts[..i + 1], s.devs.Keys)
    ensures InitTimers(s, ts[..i + 1], now, sprayerDelay)
         == InitTimerStep(InitTimers(s, ts[..i], now, sprayerDelay), ts[i], now, sprayerDelay)
  {
    assert ts[..i + 1][..i] == ts[..i];
  }

  /** One timer at start-up changes its own device only, and only inside its window. */
  lemma InitTimerStepAt(s: State, t: Timer, now: Clock, sprayerDelay: int, n: string)
    requires WF(s) && (t.repeat != 0 ==> t.device in s.devs) && n in s.devs
    ensures InitTimerStep(s, t, now, sprayerDelay).devs[n]
         == if t.device == n && InInitWindow(t, now)
            then s.devs[n].(onPeriod := ENDTIME_INDEFINITE, controlledBy := CONTROLLED_BY_TIMER)
            else s.devs[n]
  {
  }

  /** Some timer of `ts` is for `n` and holds the current minute in its inclusive window. */
  predicate InitClaims(ts: seq<Timer>, now: Clock, n: string)
  {
    exists i :: 0 <= i < |ts| && ts[i].device == n && InInitWindow(ts[i], now)
  }

  lemma InitClaimsSnoc(ts: seq<Timer>, now: Clock, n: string)
    requires ts != []
    ensures InitClaims(ts, now, n) <==>
            InitClaims(ts[..|ts| - 1], now, n) || (ts[|ts| - 1].device == n && InInitWindow(ts[|ts| - 1], now))
  {
    var init := ts[..|ts| - 1];
    if InitClaims(ts, now, n) {
      var i :| 0 <= i < |ts| && ts[i].device == n && InInitWindow(ts[i], now);
      if i < |ts| - 1 {
        assert init[i] == ts[i];
      }
    }
    if InitClaims(init, now, n) {
      var i :| 0 <= i < |init| && init[i].device == n && InInitWindow(init[i], now);
      assert ts[i] == init[i];
    }
  }

  /**
   * `initTimers(now)` as a whole: a device that some active timer for it
   * claims (the current minute is in its inclusive window) ends up on
   * indefinitely under timer control; every device no timer claims is
   * untouched (and `InitTimers` keeps the rule state).
   */
  lemma {:induction false} InitTimersEffect(s: State, ts: seq<Timer>, now: Clock, sprayerDelay: int, n: string)
    requires WF(s) && TimersKnown(ts, s.devs.Keys) && n in s.devs
    ensures InitTimers(s, ts, now, sprayerDelay).devs[n]
         == if InitClaims(ts, now, n)
            then s.devs[n].(onPeriod := ENDTIME_INDEFINITE, controlledBy := CONTROLLED_BY_TIMER)
            else s.devs[n]
    decreases |ts|
  {
    if ts != [] {
      var init := ts[..|ts| - 1];
      assert TimersKnown(init, s.devs.Keys);
      InitTimersEffect(s, init, now, sprayerDelay, n);
      var prev := InitTimers(s, init, now, sprayerDelay);
      assert InitTimers(s, ts, now, sprayerDelay) == InitTimerStep(prev, ts[|ts| - 1], now, sprayerDelay);
      InitTimerStepAt(prev, ts[|ts| - 1], now, sprayerDelay, n);
      InitClaimsSnoc(ts, now, n);
    }
  }

  // ---------------------------------------------------------------------------
  // Actions of the temperature and sprayer rules

  /** Every action that names a device (not "no device") names one of the table. */
  predicate ActionsKnown(acts: seq<Action>, names: set<string>)
  {
    forall i :: 0 <= i < |acts| && !IsNoDevice(acts[i].device) ==> acts[i].device in names
  }

  /** The end time an action asks for: `now + p` for a positive period, else `p` itself. */
  function EndTime(p: int, now: Clock): int
  {
    if p > 0 then now.epochSecond + p else p
  }

  /**
   * One action: switch the device on under `owner` and track it. When
   * `onlyFree` holds (temperature rules) a device that is not free is
   * skipped.
   */
  function ActionStep(s: State, a: Action, owner: int, onlyFree: bool, now: Clock, sprayerDelay: int): (r: State)
    requires WF(s) && (!IsNoDevice(a.device) ==> a.device in s.devs)
    ensures WF(r) && r.devs.Keys == s.devs.Keys
    ensures owner != CONTROLLED_BY_TIMER && owner != NOT_CONTROLLED ==>
      r.rs.rulenr == s.rs.rulenr && r.rs.delayed == s.rs.delayed
  {
    if !IsNoDevice(a.device) && (!onlyFree || s.devs[a.device].controlledBy == NOT_CONTROLLED) then
      Tracked(On(s, a.device, EndTime(a.onPeriod, now), owner, now, sprayerDelay), a.device)
    else
      s
  }

  function RunActions(s: State, acts: seq<Action>, owner: int, onlyFree: bool, now: Clock, sprayerDelay: int): (r: State)
    requires WF(s) && ActionsKnown(acts, s.devs.Keys)
    ensures WF(r) && r.devs.Keys == s.devs.Keys
    ensures owner != CONTROLLED_BY_TIMER && owner != NOT_CONTROLLED ==>
      r.rs.rulenr == s.rs.rulenr && r.rs.delayed == s.rs.delayed
    decreases |acts|
  {
    if acts == [] then s
    else
      var prev := RunActions(s, acts[..|acts| - 1], owner, onlyFree, now, sprayerDelay);
      ActionStep(prev, acts[|acts| - 1], owner, onlyFree, now, sprayerDelay)
  }

  lemma RunActionsStep(s: State, acts: seq<Action>, j: int, owner: int, onlyFree: bool, now: Clock, sprayerDelay: int)
    requires WF(s) && ActionsKnown(acts, s.devs.Keys) && 0 <= j < |acts|
    ensures ActionsKnown(acts[..j], s.devs.Keys) && ActionsKnown(acts[..j + 1], s.devs.Keys)
    ensures RunActions(s, acts[..j + 1], owner, onlyFree, now, sprayerDelay)
         == ActionStep(RunActions(s, acts[..j], owner, onlyFree, now, sprayerDelay), acts[j], owner, onlyFree, now, sprayerDelay)
  {
    assert acts[..j + 1][..j] == acts[..j];
  }

  /** Some action names `n` (an action for "no device" names nothing). */
  predicate Names(acts: seq<Action>, n: string)
  {
    exists i :: 0 <= i < |acts| && acts[i].device == n && !IsNoDevice(n)
  }

  lemma NamesSnoc(acts: seq<Action>, n: string)
    requires acts != []
    ensures Names(acts, n) <==> Names(acts[..|acts| - 1], n) || (acts[|acts| - 1].device == n && !IsNoDevice(n))
  {
    var init := acts[..|acts| - 1];
    if Names(init, n) {
      var i :| 0 <= i < |init| && init[i].device == n && !IsNoDevice(n);
      assert acts[i] == init[i];
    }
    if Names(acts, n) {
      var i :| 0 <= i < |acts| && acts[i].device == n && !IsNoDevice(n);
      if i < |init| {
        assert acts[i] == init[i];
      }
    }
  }

  /**
   * One action under an owner other than a timer or nobody: when it acts,
   * exactly its device gets the action's end time and the owner and is
   * tracked; otherwise nothing changes.
   */
  lemma ActionStepEffect(s: State, a: Action, owner: int, onlyFree: bool, now: Clock, sprayerDelay: int)
    requires WF(s) && (!IsNoDevice(a.device) ==> a.device in s.devs)
    requires owner != CONTROLLED_BY_TIMER && owner != NOT_CONTROLLED
    ensures var r := ActionStep(s, a, owner, onlyFree, now, sprayerDelay);
      if !IsNoDevice(a.device) && (!onlyFree || s.devs[a.device].controlledBy == NOT_CONTROLLED) then
        && r.devs == s.devs[a.device := s.devs[a.device].(onPeriod := EndTime(a.onPeriod, now), controlledBy := owner)]
        && r.rs == s.rs.(devices := Added(s.rs.devices, a.device))
      else
        r == s
  {
    if !IsNoDevice(a.device) && (!onlyFree || s.devs[a.device].controlledBy == NOT_CONTROLLED) {
      var d := a.device;
      var r := ActionStep(s, a, owner, onlyFree, now, sprayerDelay);
      var m := s.devs[d := s.devs[d].(onPeriod := EndTime(a.onPeriod, now), controlledBy := owner)];
      assert r.devs.Keys == m.Keys;
      forall n | n in m ensures r.devs[n] == m[n] {
      }
    }
  }

  /**
   * What the actions of temperature rule `nr` do, from table `devs` and
   * tracked list `tracked` to `devs'` and `tracked'`: a free device that
   * some action names ends up on under `nr`, with the end time of the
   * first action naming it, and tracked; every other device keeps its
   * state, and nothing else is added to the tracked list.
   */
  ghost predicate TakesFreeDevices(devs: map<string, DevVal>, tracked: seq<string>,
                                   devs': map<string, DevVal>, tracked': seq<string>,
                                   acts: seq<Action>, nr: int, now: Clock)
  {
    && devs'.Keys == devs.Keys
    && (forall n :: n in devs && !(devs[n].controlledBy == NOT_CONTROLLED && Names(acts, n)) ==> devs'[n] == devs[n])
    && (forall n :: n in devs && devs[n].controlledBy == NOT_CONTROLLED && Names(acts, n) ==> devs'[n].controlledBy == nr)
    && (forall i :: 0 <= i < |acts| && acts[i].device in devs && !IsNoDevice(acts[i].device)
                    && devs[acts[i].device].controlledBy == NOT_CONTROLLED
                    && (forall j :: 0 <= j < i ==> acts[j].device != acts[i].device) ==>
          devs'[acts[i].device] == devs[acts[i].device].(onPeriod := EndTime(acts[i].onPeriod, now), controlledBy := nr))
    && (forall x :: x in tracked' <==> x in tracked || (x in devs && devs[x].controlledBy == NOT_CONTROLLED && Names(acts, x)))
  }

  /**
   * The actions of a temperature rule (owner 1..5) switch on exactly the
   * free devices they name, each with the end time of the first action
   * naming it, under the rule and tracked; every other device keeps its
   * state. The rule number and the delay stay as they were.
   */
  lemma {:induction false} RuleActionsTouchOnlyFree(s: State, acts: seq<Action>, nr: int, now: Clock, sprayerDelay: int)
    requires WF(s) && ActionsKnown(acts, s.devs.Keys) && nr > 0
    ensures var r := RunActions(s, acts, nr, true, now, sprayerDelay);
      && r.rs.rulenr == s.rs.rulenr && r.rs.delayed == s.rs.delayed
      && TakesFreeDevices(s.devs, s.rs.devices, r.devs, r.rs.devices, acts, nr, now)
    decreases |acts|
  {
    if acts != [] {
      var init := acts[..|acts| - 1];
      assert ActionsKnown(init, s.devs.Keys);
      RuleActionsTouchOnlyFree(s, init, nr, now, sprayerDelay);
      RuleActionStep(s, RunActions(s, init, nr, true, now, sprayerDelay), acts, nr, now, sprayerDelay);
    }
  }

  /** One more action of a temperature rule keeps `TakesFreeDevices`. */
  lemma RuleActionStep(s: State, prev: State, acts: seq<Action>, nr: int, now: Clock, sprayerDelay: int)
    requires WF(s) && WF(prev) && nr > 0 && acts != []
    requires !IsNoDevice(acts[|acts| - 1].device) ==> acts[|acts| - 1].device in s.devs
    requires TakesFreeDevices(s.devs, s.rs.devices, prev.devs, prev.rs.devices, acts[..|acts| - 1], nr, now)
    ensures var r := ActionStep(prev, acts[|acts| - 1], nr, true, now, sprayerDelay);
      TakesFreeDevices(s.devs, s.rs.devices, r.devs, r.rs.devices, acts, nr, now)
  {
    var r := ActionStep(prev, acts[|acts| - 1], nr, true, now, sprayerDelay);
    forall n | n in s.devs
      ensures !(s.devs[n].controlledBy == NOT_CONTROLLED && Names(acts, n)) ==> r.devs[n] == s.devs[n]
      ensures s.devs[n].controlledBy == NOT_CONTROLLED && Names(acts, n) ==> r.devs[n].controlledBy == nr
      ensures n in r.rs.devices <==> n in s.rs.devices || (s.devs[n].controlledBy == NOT_CONTROLLED && Names(acts, n))
    {
      RuleActionStepAt(s, prev, acts, nr, now, sprayerDelay, n);
    }
    forall i | 0 <= i < |acts| && acts[i].device in s.devs && !IsNoDevice(acts[i].device)
               && s.devs[acts[i].device].controlledBy == NOT_CONTROLLED
               && (forall j :: 0 <= j < i ==> acts[j].device != acts[i].device)
      ensures r.devs[acts[i].device] == s.devs[acts[i].device].(onPeriod := EndTime(acts[i].onPeriod, now), controlledBy := nr)
    {
      RuleActionStepFirst(s, prev, acts, nr, now, sprayerDelay, i);
    }
  }

  /** `RuleActionStep` for one device of the table. */
  lemma RuleActionStepAt(s: State, prev: State, acts: seq<Action>, nr: int, now: Clock, sprayerDelay: int, n: string)
    requires WF(s) && WF(prev) && nr > 0 && acts != [] && n in s.devs
    requires !IsNoDevice(acts[|acts| - 1].device) ==> acts[|acts| - 1].device in s.devs
    requires TakesFreeDevices(s.devs, s.rs.devices, prev.devs, prev.rs.devices, acts[..|acts| - 1], nr, now)
    ensures var r := ActionStep(prev, acts[|acts| - 1], nr, true, now, sprayerDelay);
      && (!(s.devs[n].controlledBy == NOT_CONTROLLED && Names(acts, n)) ==> r.devs[n] == s.devs[n])
      && (s.devs[n].controlledBy == NOT_CONTROLLED && Names(acts, n) ==> r.devs[n].controlledBy == nr)
      && (n in r.rs.devices <==> n in s.rs.devices || (s.devs[n].controlledBy == NOT_CONTROLLED && Names(acts, n)))
  {
    var init, a := acts[..|acts| - 1], acts[|acts| - 1];
    var d := a.device;
    ActionStepEffect(prev, a, nr, true, now, sprayerDelay);
    NamesSnoc(acts, n);
    NamesSnoc(acts, d);
    // a device still free before this action was free at the start and not named yet
    assert !IsNoDevice(d) && prev.devs[d].controlledBy == NOT_CONTROLLED ==>
      s.devs[d].controlledBy == NOT_CONTROLLED && !Names(init, d);
  }

  /** `RuleActionStep` for the first action naming a device. */
  lemma RuleActionStepFirst(s: State, prev: State, acts: seq<Action>, nr: int, now: Clock, sprayerDelay: int, i: int)
    requires WF(s) && WF(prev) && nr > 0 && acts != []
    requires !IsNoDevice(acts[|acts| - 1].device) ==> acts[|acts| - 1].device in s.devs
    requires TakesFreeDevices(s.devs, s.rs.devices, prev.devs, prev.rs.devices, acts[..|acts| - 1], nr, now)
    requires 0 <= i < |acts| && acts[i].device in s.devs && !IsNoDevice(acts[i].device)
    requires s.devs[acts[i].device].controlledBy == NOT_CONTROLLED
    requires forall j :: 0 <= j < i ==> acts[j].device != acts[i].device
    ensures var r := ActionStep(prev, acts[|acts| - 1], nr, true, now, sprayerDelay);
      r.devs[acts[i].device] == s.devs[acts[i].device].(onPeriod := EndTime(acts[i].onPeriod, now), controlledBy := nr)
  {
    var a := acts[|acts| - 1];
    ActionStepEffect(prev, a, nr, true, now, sprayerDelay);
    if i < |acts| - 1 {
      RuleEarlierAction(s, prev, acts, nr, now, i);
    } else {
      RuleLastActionFirst(s, prev, acts, nr, now);
    }
  }

  lemma RuleEarlierAction(s: State, prev: State, acts: seq<Action>, nr: int, now: Clock, i: int)
    requires acts != [] && nr > 0
    requires TakesFreeDevices(s.devs, s.rs.devices, prev.devs, prev.rs.devices, acts[..|acts| - 1], nr, now)
    requires 0 <= i < |acts| - 1 && acts[i].device in s.devs && !IsNoDevice(acts[i].device)
    requires s.devs[acts[i].device].controlledBy == NOT_CONTROLLED
    requires forall j :: 0 <= j < i ==> acts[j].device != acts[i].device
    ensures prev.devs[acts[i].device] == s.devs[acts[i].device].(onPeriod := EndTime(acts[i].onPeriod, now), controlledBy := nr)
    ensures prev.devs[acts[i].device].controlledBy != NOT_CONTROLLED
  {
    var init := acts[..|acts| - 1];
    assert acts[i] == init[i];
    forall j | 0 <= j < i ensures init[j].device != init[i].device {
      assert acts[j] == init[j];
    }
  }

  lemma RuleLastActionFirst(s: State, prev: State, acts: seq<Action>, nr: int, now: Clock)
    requires acts != []
    requires TakesFreeDevices(s.devs, s.rs.devices, prev.devs, prev.rs.devices, acts[..|acts| - 1], nr, now)
    requires acts[|acts| - 1].device in s.devs
    requires forall j :: 0 <= j < |acts| - 1 ==> acts[j].device != acts[|acts| - 1].device
    ensures prev.devs[acts[|acts| - 1].device] == s.devs[acts[|acts| - 1].device]
  {
    var init, d := acts[..|acts| - 1], acts[|acts| - 1].device;
    forall j | 0 <= j < |init| ensures init[j].device != d {
      assert acts[j] == init[j];
    }
  }

  /**
   * What the actions of the sprayer rule do, from table `devs` and
   * tracked list `tracked` to `devs'` and `tracked'`: every device some
   * action names ends up owned by `owner` with the end time of the last
   * action naming it, with only end time and owner changed, and tracked;
   * every other device keeps its state, and nothing else is tracked.
   */
  ghost predicate ClaimsDevices(devs: map<string, DevVal>, tracked: seq<string>,
                                devs': map<string, DevVal>, tracked': seq<string>,
                                acts: seq<Action>, owner: int, now: Clock)
  {
    && devs'.Keys == devs.Keys
    && (forall n :: n in devs && !Names(acts, n) ==> devs'[n] == devs[n])
    && (forall n :: n in devs && Names(acts, n) ==>
          && devs'[n].controlledBy == owner && devs'[n].name == devs[n].name
          && devs'[n].lifetime == devs[n].lifetime && devs'[n].manual == devs[n].manual)
    && (forall i :: 0 <= i < |acts| && acts[i].device in devs && !IsNoDevice(acts[i].device)
                    && (forall j :: i < j < |acts| ==> acts[j].device != acts[i].device) ==>
          devs'[acts[i].device] == devs[acts[i].device].(onPeriod := EndTime(acts[i].onPeriod, now), controlledBy := owner))
    && (forall x :: x in tracked' <==> x in tracked || Names(acts, x))
  }

  /**
   * The actions of the sprayer rule claim every device they name: each is
   * on under the sprayer rule with the end time of the last action naming
   * it, and tracked; no other device changes. They never start the
   * sprayer rule again: the rule number and the delay are untouched.
   */
  lemma {:induction false} SprayerActionsClaimDevices(s: State, acts: seq<Action>, now: Clock, sprayerDelay: int)
    requires WF(s) && ActionsKnown(acts, s.devs.Keys)
    ensures var r := RunActions(s, acts, CONTROLLED_BY_SPRAYER_RULE, false, now, sprayerDelay);
      && r.rs.rulenr == s.rs.rulenr && r.rs.delayed == s.rs.delayed
      && ClaimsDevices(s.devs, s.rs.devices, r.devs, r.rs.devices, acts, CONTROLLED_BY_SPRAYER_RULE, now)
      && (forall i :: 0 <= i < |acts| && !IsNoDevice(acts[i].device) ==>
            r.devs[acts[i].device].controlledBy == CONTROLLED_BY_SPRAYER_RULE && acts[i].device in r.rs.devices)
    decreases |acts|
  {
    var r := RunActions(s, acts, CONTROLLED_BY_SPRAYER_RULE, false, now, sprayerDelay);
    if acts != [] {
      var init := acts[..|acts| - 1];
      assert ActionsKnown(init, s.devs.Keys);
      SprayerActionsClaimDevices(s, init, now, sprayerDelay);
      SprayerActionStep(s, RunActions(s, init, CONTROLLED_BY_SPRAYER_RULE, false, now, sprayerDelay), acts, now, sprayerDelay);
    }
    forall i | 0 <= i < |acts| && !IsNoDevice(acts[i].device)
      ensures r.devs[acts[i].device].controlledBy == CONTROLLED_BY_SPRAYER_RULE && acts[i].device in r.rs.devices
    {
      assert Names(acts, acts[i].device);
    }
  }

  /** One more sprayer action keeps `ClaimsDevices`. */
  lemma SprayerActionStep(s: State, prev: State, acts: seq<Action>, now: Clock, sprayerDelay: int)
    requires WF(s) && WF(prev) && acts != []
    requires !IsNoDevice(acts[|acts| - 1].device) ==> acts[|acts| - 1].device in s.devs
    requires ClaimsDevices(s.devs, s.rs.devices, prev.devs, prev.rs.devices, acts[..|acts| - 1], CONTROLLED_BY_SPRAYER_RULE, now)
    ensures var r := ActionStep(prev, acts[|acts| - 1], CONTROLLED_BY_SPRAYER_RULE, false, now, sprayerDelay);
      ClaimsDevices(s.devs, s.rs.devices, r.devs, r.rs.devices, acts, CONTROLLED_BY_SPRAYER_RULE, now)
  {
    var r := ActionStep(prev, acts[|acts| - 1], CONTROLLED_BY_SPRAYER_RULE, false, now, sprayerDelay);
    var init, a := acts[..|acts| - 1], acts[|acts| - 1];
    ActionStepEffect(prev, a, CONTROLLED_BY_SPRAYER_RULE, false, now, sprayerDelay);
    forall n | n in s.devs
      ensures !Names(acts, n) ==> r.devs[n] == s.devs[n]
      ensures Names(acts, n) ==>
        && r.devs[n].controlledBy == CONTROLLED_BY_SPRAYER_RULE && r.devs[n].name == s.devs[n].name
        && r.devs[n].lifetime == s.devs[n].lifetime && r.devs[n].manual == s.devs[n].manual
    {
      NamesSnoc(acts, n);
    }
    forall x ensures x in r.rs.devices <==> x in s.rs.devices || Names(acts, x) {
      NamesSnoc(acts, x);
    }
    forall i | 0 <= i < |acts| && acts[i].device in s.devs && !IsNoDevice(acts[i].device)
               && (forall j :: i < j < |acts| ==> acts[j].device != acts[i].device)
      ensures r.devs[acts[i].device] == s.devs[acts[i].device].(onPeriod := EndTime(acts[i].onPeriod, now), controlledBy := CONTROLLED_BY_SPRAYER_RULE)
    {
      SprayerActionStepLast(s, prev, acts, now, sprayerDelay, i);
    }
  }

  /** `SprayerActionStep` for the last action naming a device. */
  lemma SprayerActionStepLast(s: State, prev: State, acts: seq<Action>, now: Clock, sprayerDelay: int, i: int)
    requires WF(s) && WF(prev) && acts != []
    requires !IsNoDevice(acts[|acts| - 1].device) ==> acts[|acts| - 1].device in s.devs
    requires ClaimsDevices(s.devs, s.rs.devices, prev.devs, prev.rs.devices, acts[..|acts| - 1], CONTROLLED_BY_SPRAYER_RULE, now)
    requires 0 <= i < |acts| && acts[i].device in s.devs && !IsNoDevice(acts[i].device)
    requires forall j :: i < j < |acts| ==> acts[j].device != acts[i].device
    ensures var r := ActionStep(prev, acts[|acts| - 1], CONTROLLED_BY_SPRAYER_RULE, false, now, sprayerDelay);
      r.devs[acts[i].device] == s.devs[acts[i].device].(onPeriod := EndTime(acts[i].onPeriod, now), controlledBy := CONTROLLED_BY_SPRAYER_RULE)
  {
    var a := acts[|acts| - 1];
    ActionStepEffect(prev, a, CONTROLLED_BY_SPRAYER_RULE, false, now, sprayerDelay);
    if i < |acts| - 1 {
      SprayerEarlierAction(s, prev, acts, now, i);
    } else {
      var e := a.device;
      // before this action the device was as at the start or already claimed: only end time and owner differ
      assert prev.devs[e].name == s.devs[e].name && prev.devs[e].lifetime == s.devs[e].lifetime
          && prev.devs[e].manual == s.devs[e].manual;
    }
  }

  lemma SprayerEarlierAction(s: State, prev: State, acts: seq<Action>, now: Clock, i: int)
    requires acts != []
    requires ClaimsDevices(s.devs, s.rs.devices, prev.devs, prev.rs.devices, acts[..|acts| - 1], CONTROLLED_BY_SPRAYER_RULE, now)
    requires 0 <= i < |acts| - 1 && acts[i].device in s.devs && !IsNoDevice(acts[i].device)
    requires forall j :: i < j < |acts| ==> acts[j].device != acts[i].device
    ensures acts[i].device != acts[|acts| - 1].device
    ensures prev.devs[acts[i].device] == s.devs[acts[i].device].(onPeriod := EndTime(acts[i].onPeriod, now), controlledBy := CONTROLLED_BY_SPRAYER_RULE)
  {
    var init := acts[..|acts| - 1];
    assert acts[i] == init[i];
    forall j | i < j < |init| ensures init[j].device != init[i].device {
      assert acts[j] == init[j];
    }
  }

  /** One action of a rule that lets go: a device it still holds and that is on is switched off and freed. */
  function ReleaseStep(s: State, a: Action, nr: int): (r: State)
    requires WF(s) && (!IsNoDevice(a.device) ==> a.device in s.devs)
    ensures WF(r) && r.devs.Keys == s.devs.Keys && r.rs == s.rs
  {
    if !IsNoDevice(a.device) && s.devs[a.device].onPeriod != 0 && s.devs[a.device].controlledBy == nr then
      Off(s, a.device, NOT_CONTROLLED)
    else
      s
  }

  function Release(s: State, acts: seq<Action>, nr: int): (r: State)
    requires WF(s) && ActionsKnown(acts, s.devs.Keys)
    ensures WF(r) && r.devs.Keys == s.devs.Keys && r.rs == s.rs
    decreases |acts|
  {
    if acts == [] then s
    else ReleaseStep(Release(s, acts[..|acts| - 1], nr), acts[|acts| - 1], nr)
  }

  lemma ReleasePrefixStep(s: State, acts: seq<Action>, j: int, nr: int)
    requires WF(s) && ActionsKnown(acts, s.devs.Keys) && 0 <= j < |acts|
    ensures ActionsKnown(acts[..j], s.devs.Keys) && ActionsKnown(acts[..j + 1], s.devs.Keys)
    ensures Release(s, acts[..j + 1], nr) == ReleaseStep(Release(s, acts[..j], nr), acts[j], nr)
  {
    assert acts[..j + 1][..j] == acts[..j];
  }

  /** Device `n` is on under rule `nr` and one of the rule's actions names it. */
  predicate HeldBy(s: State, acts: seq<Action>, nr: int, n: string)
  {
    n in s.devs && s.devs[n].IsOn() && s.devs[n].controlledBy == nr && Names(acts, n)
  }

  /** A mist device is among the devices that rule `nr` lets go. */
  ghost predicate MistHeldBy(s: State, acts: seq<Action>, nr: int)
  {
    exists m :: IsMist(m) && HeldBy(s, acts, nr, m)
  }

  /**
   * The state of device `n` once rule `nr` has let go, in closed form:
   * off and free when the rule held it, or when it is a fan and the rule
   * held a mist device; as it was otherwise.
   */
  ghost function Released(s: State, acts: seq<Action>, nr: int, n: string): DevVal
    requires n in s.devs
  {
    if HeldBy(s, acts, nr, n) || (IsFan(n) && MistHeldBy(s, acts, nr)) then Freed(s.devs[n]) else s.devs[n]
  }

  lemma MistHeldSnoc(s: State, acts: seq<Action>, nr: int)
    requires acts != []
    ensures MistHeldBy(s, acts, nr) <==>
      MistHeldBy(s, acts[..|acts| - 1], nr) || (IsMist(acts[|acts| - 1].device) && HeldBy(s, acts, nr, acts[|acts| - 1].device))
  {
    var init, d := acts[..|acts| - 1], acts[|acts| - 1].device;
    if MistHeldBy(s, init, nr) {
      var m :| IsMist(m) && HeldBy(s, init, nr, m);
      NamesSnoc(acts, m);
      assert HeldBy(s, acts, nr, m);
    }
    if MistHeldBy(s, acts, nr) {
      var m :| IsMist(m) && HeldBy(s, acts, nr, m);
      NamesSnoc(acts, m);
      if m != d {
        assert HeldBy(s, init, nr, m);
      }
    }
  }

  /**
   * After rule `nr` lets go, each device it held (on under the rule and
   * named by an action) is off and free, and so are the fans when it held
   * a mist device; every other device keeps its state. In particular none
   * of its action devices is still on under it, and no device is newly
   * owned by it.
   */
  lemma ReleaseFreesRuleDevices(s: State, acts: seq<Action>, nr: int)
    requires WF(s) && ActionsKnown(acts, s.devs.Keys) && nr > 0
    ensures var r := Release(s, acts, nr);
      && (forall n :: HeldBy(s, acts, nr, n) ==> r.devs[n] == Freed(s.devs[n]))
      && (forall n :: n in s.devs && IsFan(n) && MistHeldBy(s, acts, nr) ==> r.devs[n] == Freed(s.devs[n]))
      && (forall n :: n in s.devs && !HeldBy(s, acts, nr, n) && !(IsFan(n) && MistHeldBy(s, acts, nr)) ==>
            r.devs[n] == s.devs[n])
      && (forall i :: 0 <= i < |acts| && !IsNoDevice(acts[i].device) ==>
            !(r.devs[acts[i].device].IsOn() && r.devs[acts[i].device].controlledBy == nr))
      && (forall n :: n in r.devs && r.devs[n].controlledBy == nr ==> r.devs[n] == s.devs[n])
  {
    var r := Release(s, acts, nr);
    ReleaseClosedForm(s, acts, nr);
    forall i | 0 <= i < |acts| && !IsNoDevice(acts[i].device)
      ensures !(r.devs[acts[i].device].IsOn() && r.devs[acts[i].device].controlledBy == nr)
    {
      assert Names(acts, acts[i].device);
    }
  }

  /** The release, step by step, reaches the closed form `Released` on every device. */
  lemma {:induction false} ReleaseClosedForm(s: State, acts: seq<Action>, nr: int)
    requires WF(s) && ActionsKnown(acts, s.devs.Keys)
    ensures forall n :: n in s.devs ==> Release(s, acts, nr).devs[n] == Released(s, acts, nr, n)
    decreases |acts|
  {
    if acts != [] {
      var init := acts[..|acts| - 1];
      assert ActionsKnown(init, s.devs.Keys);
      ReleaseClosedForm(s, init, nr);
      var prev := Release(s, init, nr);
      forall n | n in s.devs ensures Release(s, acts, nr).devs[n] == Released(s, acts, nr, n) {
        ReleaseStepAt(s, prev, acts, nr, n);
      }
    }
  }

  /** One more release step keeps the closed form `Released`. */
  lemma ReleaseStepAt(s: State, prev: State, acts: seq<Action>, nr: int, n: string)
    requires WF(s) && WF(prev) && acts != [] && n in s.devs && prev.devs.Keys == s.devs.Keys
    requires !IsNoDevice(acts[|acts| - 1].device) ==> acts[|acts| - 1].device in s.devs
    requires forall m :: m in s.devs ==> prev.devs[m] == Released(s, acts[..|acts| - 1], nr, m)
    ensures ReleaseStep(prev, acts[|acts| - 1], nr).devs[n] == Released(s, acts, nr, n)
  {
    var a := acts[|acts| - 1];
    var d := a.device;
    NamesSnoc(acts, n);
    MistHeldSnoc(s, acts, nr);
    ReleaseStepFrees(prev, a, nr);
    if !IsNoDevice(d) && prev.devs[d].IsOn() && prev.devs[d].controlledBy == nr {
      ReleaseActed(s, prev, acts, nr, n);
    } else {
      ReleaseSkipped(s, prev, acts, nr, n);
    }
  }

  /** A step that lets go of its device: the device, and the fans with a mist device, become free. */
  lemma ReleaseActed(s: State, prev: State, acts: seq<Action>, nr: int, n: string)
    requires WF(s) && WF(prev) && acts != [] && n in s.devs && prev.devs.Keys == s.devs.Keys
    requires !IsNoDevice(acts[|acts| - 1].device) && acts[|acts| - 1].device in s.devs
    requires forall m :: m in s.devs ==> prev.devs[m] == Released(s, acts[..|acts| - 1], nr, m)
    requires prev.devs[acts[|acts| - 1].device].IsOn() && prev.devs[acts[|acts| - 1].device].controlledBy == nr
    ensures Off(prev, acts[|acts| - 1].device, NOT_CONTROLLED).devs[n] == Released(s, acts, nr, n)
  {
    var d := acts[|acts| - 1].device;
    var r := Off(prev, d, NOT_CONTROLLED);
    // a device still held before this step was untouched so far
    assert prev.devs[d] == s.devs[d];
    assert HeldBy(s, acts, nr, d) by {
      assert acts[|acts| - 1].device == d;
    }
    if n == d {
    } else if IsMist(d) && IsFan(n) {
      assert MistHeldBy(s, acts, nr);
    } else {
      NamesSnoc(acts, n);
      MistHeldSnoc(s, acts, nr);
      assert r.devs[n] == prev.devs[n];
    }
  }

  /** A step that lets go of nothing: the closed form does not change either. */
  lemma ReleaseSkipped(s: State, prev: State, acts: seq<Action>, nr: int, n: string)
    requires WF(s) && acts != [] && n in s.devs && prev.devs.Keys == s.devs.Keys
    requires !IsNoDevice(acts[|acts| - 1].device) ==> acts[|acts| - 1].device in s.devs
    requires forall m :: m in s.devs ==> prev.devs[m] == Released(s, acts[..|acts| - 1], nr, m)
    requires !IsNoDevice(acts[|acts| - 1].device) ==>
      !(prev.devs[acts[|acts| - 1].device].IsOn() && prev.devs[acts[|acts| - 1].device].controlledBy == nr)
    ensures Released(s, acts[..|acts| - 1], nr, n) == Released(s, acts, nr, n)
  {
    var init, d := acts[..|acts| - 1], acts[|acts| - 1].device;
    NamesSnoc(acts, n);
    NamesSnoc(acts, d);
    MistHeldSnoc(s, acts, nr);
    assert IsMist(d) ==> !IsFan(d);
    if !IsNoDevice(d) && s.devs[d].IsOn() && s.devs[d].controlledBy == nr && !HeldBy(s, init, nr, d) {
      // it was let go already, as a fan of a mist device
      assert IsFan(d) && MistHeldBy(s, init, nr);
    }
  }

  /**
   * One release step: a device the rule still holds and that is on is
   * switched off and freed, and with a mist device so are both fans;
   * every other device, and any step on a device the rule does not hold,
   * leaves the table as it was.
   */
  lemma ReleaseStepFrees(s: State, a: Action, nr: int)
    requires WF(s) && (!IsNoDevice(a.device) ==> a.device in s.devs)
    ensures var r := ReleaseStep(s, a, nr);
      if !IsNoDevice(a.device) && s.devs[a.device].IsOn() && s.devs[a.device].controlledBy == nr then
        && r.devs[a.device] == Freed(s.devs[a.device])
        && (IsMist(a.device) ==> r.devs[FAN_IN] == Freed(s.devs[FAN_IN]) && r.devs[FAN_OUT] == Freed(s.devs[FAN_OUT]))
        && (forall n :: n in s.devs && n != a.device && !(IsMist(a.device) && IsFan(n)) ==> r.devs[n] == s.devs[n])
      else
        r == s
  {
  }

  // ---------------------------------------------------------------------------
  // Temperature rule engine (once per minute)

  predicate RulesKnown(rules: seq<RuleVal>, names: set<string>)
  {
    forall i :: 0 <= i < |rules| ==> ActionsKnown(rules[i].actions, names)
  }

  /** The terrarium temperature crosses the rule's threshold (too cold or too hot). */
  predicate Crossed(r: RuleVal, temp: int)
  {
    (r.tempThreshold < 0 && temp < -r.tempThreshold) || (r.tempThreshold > 0 && temp > r.tempThreshold)
  }

  /** The rule is in its window and its threshold is crossed: it wins and ends the scan. */
  predicate Fires(r: RuleVal, now: Clock, temp: int)
  {
    r.Active(now) == 0 && Crossed(r, temp)
  }

  /**
   * The rule lets go of its devices and resets the rule state: it is in
   * its window with a threshold that is not crossed and the temperature is
   * exactly ideal, or it is enabled ("yes") but outside its window.
   */
  predicate LetsGo(r: RuleVal, now: Clock, temp: int)
  {
    (r.Active(now) == 0 && r.tempThreshold != 0 && !Crossed(r, temp) && temp == r.tempIdeal)
    || (r.Active(now) != 0 && IsYes(r.active))
  }

  /**
   * The winning rule `nr` takes charge. Without a pending delay its
   * actions switch on the free devices they name, under the rule, and a
   * positive delay is started; with one, no action runs and the delay is
   * cleared once it has passed.
   */
  function Fire(s: State, r: RuleVal, nr: int, now: Clock, sprayerDelay: int): (t: State)
    requires WF(s) && ActionsKnown(r.actions, s.devs.Keys) && nr > 0
    ensures WF(t) && t.devs.Keys == s.devs.Keys && t.rs.rulenr == nr
    ensures s.rs.delayed == 0 ==> t.rs.delayed == (if r.delay > 0 then now.epochSecond + r.delay else 0)
    ensures s.rs.delayed != 0 ==>
      && t.devs == s.devs && t.rs.devices == s.rs.devices
      && t.rs.delayed == (if now.epochSecond >= s.rs.delayed then 0 else s.rs.delayed)
  {
    var s1 := s.(rs := s.rs.(rulenr := nr));
    var tm := now.epochSecond;
    if s1.rs.delayed == 0 then
      var s2 := RunActions(s1, r.actions, nr, true, now, sprayerDelay);
      if r.delay > 0 then s2.(rs := s2.rs.(delayed := tm + r.delay)) else s2
    else if tm >= s1.rs.delayed then
      s1.(rs := s1.rs.(delayed := 0))
    else
      s1
  }

  /**
   * A firing rule without a pending delay switches on exactly the free
   * devices its actions name, under the rule, each with the end time of
   * the first action naming it; nothing else changes on the table.
   */
  lemma FireEffect(s: State, r: RuleVal, nr: int, now: Clock, sprayerDelay: int)
    requires WF(s) && ActionsKnown(r.actions, s.devs.Keys) && nr > 0 && s.rs.delayed == 0
    ensures var t := Fire(s, r, nr, now, sprayerDelay);
      TakesFreeDevices(s.devs, s.rs.devices, t.devs, t.rs.devices, r.actions, nr, now)
  {
    RuleActionsTouchOnlyFree(s.(rs := s.rs.(rulenr := nr)), r.actions, nr, now, sprayerDelay);
  }

  /** The rule lets go of its devices and the rule state is reset. */
  function ReleaseAndReset(s: State, r: RuleVal, nr: int): (t: State)
    requires WF(s) && ActionsKnown(r.actions, s.devs.Keys)
    ensures WF(t) && t.devs.Keys == s.devs.Keys && t.rs == Initial
    ensures forall n :: n in s.devs ==> t.devs[n] == Released(s, r.actions, nr, n)
  {
    ReleaseClosedForm(s, r.actions, nr);
    var s1 := Release(s, r.actions, nr);
    s1.(rs := Initial)
  }

  /**
   * The part shared by the too-cold and the too-hot branch of rule `nr`
   * in its window: a crossed threshold fires the rule and stops the scan;
   * otherwise an exactly ideal temperature lets go and resets.
   */
  function ThresholdStep(s: State, r: RuleVal, nr: int, crossed: bool, now: Clock, temp: int, sprayerDelay: int): (res: (State, bool))
    requires WF(s) && ActionsKnown(r.actions, s.devs.Keys) && nr > 0
    ensures WF(res.0) && res.0.devs.Keys == s.devs.Keys
    ensures res.1 == crossed
    ensures crossed ==> res.0.rs.rulenr == nr
    ensures !crossed ==> res.0.rs == s.rs || res.0.rs == Initial
  {
    if crossed then
      (Fire(s, r, nr, now, sprayerDelay), true)
    else if temp == r.tempIdeal then
      (ReleaseAndReset(s, r, nr), false)
    else
      (s, false)
  }

  /**
   * One rule (at position `i`, rule number `i + 1`) of the scan; the flag
   * says whether the scan stops here. A firing rule stops the scan. A
   * rule in its window whose temperature is exactly ideal lets go and
   * resets the rule state but does not stop the scan; so does an enabled
   * rule outside its window, whether or not it ever fired.
   */
  function RuleStep(s: State, r: RuleVal, i: nat, now: Clock, temp: int, sprayerDelay: int): (res: (State, bool))
    requires WF(s) && ActionsKnown(r.actions, s.devs.Keys)
    ensures WF(res.0) && res.0.devs.Keys == s.devs.Keys
    ensures res.1 <==> Fires(r, now, temp)
    ensures Fires(r, now, temp) ==> res.0.rs.rulenr == i + 1
    ensures !Fires(r, now, temp) ==> res.0.rs == s.rs || res.0.rs == Initial
  {
    var nr := i + 1;
    if r.Active(now) == 0 then
      if r.tempThreshold < 0 then
        ThresholdStep(s, r, nr, temp < -r.tempThreshold, now, temp, sprayerDelay)
      else if r.tempThreshold > 0 then
        ThresholdStep(s, r, nr, temp > r.tempThreshold, now, temp, sprayerDelay)
      else
        (s, false)
    else if IsYes(r.active) then
      (ReleaseAndReset(s, r, nr), false)
    else
      (s, false)
  }

  /**
   * Below the threshold test: an uncrossed threshold with the temperature
   * exactly ideal lets go of the rule's devices and resets the rule state;
   * any other uncrossed temperature changes nothing.
   */
  lemma ThresholdStepEffect(s: State, r: RuleVal, nr: int, crossed: bool, now: Clock, temp: int, sprayerDelay: int)
    requires WF(s) && ActionsKnown(r.actions, s.devs.Keys) && nr > 0 && !crossed
    ensures var res := ThresholdStep(s, r, nr, crossed, now, temp, sprayerDelay);
      temp == r.tempIdeal ==>
        res.0.rs == Initial && forall n :: n in s.devs ==> res.0.devs[n] == Released(s, r.actions, nr, n)
    ensures temp != r.tempIdeal ==> ThresholdStep(s, r, nr, crossed, now, temp, sprayerDelay) == (s, false)
  {
  }

  /**
   * A rule that lets go (ideal temperature in its window, or enabled but
   * outside it) switches off the action devices it holds, with the mist
   * cascade, and resets the rule state, without stopping the scan.
   */
  lemma RuleStepLetsGo(s: State, r: RuleVal, i: nat, now: Clock, temp: int, sprayerDelay: int)
    requires WF(s) && ActionsKnown(r.actions, s.devs.Keys) && LetsGo(r, now, temp)
    ensures var res := RuleStep(s, r, i, now, temp, sprayerDelay);
      !res.1 && res.0.rs == Initial && forall n :: n in s.devs ==> res.0.devs[n] == Released(s, r.actions, i + 1, n)
  {
  }

  /** A rule that neither fires nor lets go changes nothing and the scan goes on. */
  lemma RuleStepIdle(s: State, r: RuleVal, i: nat, now: Clock, temp: int, sprayerDelay: int)
    requires WF(s) && ActionsKnown(r.actions, s.devs.Keys) && !Fires(r, now, temp) && !LetsGo(r, now, temp)
    ensures RuleStep(s, r, i, now, temp, sprayerDelay) == (s, false)
  {
  }

  /** The scan from position `i` on, in array order, up to the first rule that fires. */
  function TempScan(s: State, rules: seq<RuleVal>, i: nat, now: Clock, temp: int, sprayerDelay: int): (r: State)
    requires WF(s) && RulesKnown(rules, s.devs.Keys)
    ensures WF(r) && r.devs.Keys == s.devs.Keys
    decreases |rules| - i
  {
    if i >= |rules| then s
    else
      var step := RuleStep(s, rules[i], i, now, temp, sprayerDelay);
      if step.1 then step.0 else TempScan(step.0, rules, i + 1, now, temp, sprayerDelay)
  }

  /** The scan past the last rule changes nothing. */
  lemma TempScanDone(s: State, rules: seq<RuleVal>, i: nat, now: Clock, temp: int, sprayerDelay: int)
    requires WF(s) && RulesKnown(rules, s.devs.Keys) && i >= |rules|
    ensures TempScan(s, rules, i, now, temp, sprayerDelay) == s
  {
  }

  /** One step of the scan: a rule that fires ends it, any other rule passes on to the next. */
  lemma TempScanUnfold(s: State, rules: seq<RuleVal>, i: nat, now: Clock, temp: int, sprayerDelay: int, t: State, stop: bool)
    requires WF(s) && RulesKnown(rules, s.devs.Keys) && i < |rules|
    requires (t, stop) == RuleStep(s, rules[i], i, now, temp, sprayerDelay)
    ensures WF(t) && RulesKnown(rules, t.devs.Keys)
    ensures stop ==> t == TempScan(s, rules, i, now, temp, sprayerDelay)
    ensures !stop ==> TempScan(t, rules, i + 1, now, temp, sprayerDelay) == TempScan(s, rules, i, now, temp, sprayerDelay)
  {
  }

  /**
   * `checkTemperatureRules()`: nothing changes while the sprayer rule is
   * active; otherwise the rules are scanned in their array order.
   */
  function CheckTemperatureRules(s: State, rules: seq<RuleVal>, now: Clock, temp: int, sprayerDelay: int): (r: State)
    requires WF(s) && RulesKnown(rules, s.devs.Keys)
    ensures WF(r) && r.devs.Keys == s.devs.Keys
    ensures s.rs.rulenr == SPRAYER_RULENR ==> r == s
  {
    if s.rs.rulenr != SPRAYER_RULENR then TempScan(s, rules, 0, now, temp, sprayerDelay) else s
  }

  /**
   * First match wins: when rule `k` is the first from position `i` on
   * that fires, the scan ends with rule `k + 1` in charge, and the rules
   * after it are never looked at.
   */
  lemma {:induction false} FirstFiringRuleWins(s: State, rules: seq<RuleVal>, i: nat, k: nat,
                                               now: Clock, temp: int, sprayerDelay: int, extra: seq<RuleVal>)
    requires WF(s) && RulesKnown(rules, s.devs.Keys) && RulesKnown(extra, s.devs.Keys)
    requires i <= k < |rules| && Fires(rules[k], now, temp)
    requires forall j :: i <= j < k ==> !Fires(rules[j], now, temp)
    ensures TempScan(s, rules, i, now, temp, sprayerDelay).rs.rulenr == k + 1
    ensures TempScan(s, rules[..k + 1] + extra, i, now, temp, sprayerDelay) == TempScan(s, rules, i, now, temp, sprayerDelay)
    decreases k - i
  {
    var rules' := rules[..k + 1] + extra;
    assert RulesKnown(rules', s.devs.Keys) by {
      forall j | 0 <= j < |rules'| ensures ActionsKnown(rules'[j].actions, s.devs.Keys) {
        if j <= k { assert rules'[j] == rules[j]; } else { assert rules'[j] == extra[j - k - 1]; }
      }
    }
    assert rules'[i] == rules[i];
    var step := RuleStep(s, rules[i], i, now, temp, sprayerDelay);
    TempScanUnfold(s, rules, i, now, temp, sprayerDelay, step.0, step.1);
    TempScanUnfold(s, rules', i, now, temp, sprayerDelay, step.0, step.1);
    if i < k {
      FirstFiringRuleWins(step.0, rules, i + 1, k, now, temp, sprayerDelay, extra);
    }
  }

  /**
   * Priority: when the rules are ordered by descending threshold and two
   * rules fire at the same time, the one with the higher threshold
   * prevents the lower one from taking charge.
   */
  lemma HigherThresholdWins(s: State, rules: seq<RuleVal>, j: nat, k: nat,
                            now: Clock, temp: int, sprayerDelay: int)
    requires WF(s) && RulesKnown(rules, s.devs.Keys)
    requires forall a, b :: 0 <= a < b < |rules| ==> rules[a].tempThreshold >= rules[b].tempThreshold
    requires j < |rules| && k < |rules| && Fires(rules[j], now, temp) && Fires(rules[k], now, temp)
    requires rules[j].tempThreshold > rules[k].tempThreshold
    ensures TempScan(s, rules, 0, now, temp, sprayerDelay).rs.rulenr != k + 1
  {
    var f := FirstFiring(rules, now, temp, j);
    // the first firing rule is at or before `j`, so its threshold is above rule k's
    assert rules[f].tempThreshold >= rules[j].tempThreshold;
    FirstFiringRuleWins(s, rules, 0, f, now, temp, sprayerDelay, []);
  }

  /** The first position at or before `j` whose rule fires, given that rule `j` fires. */
  function FirstFiring(rules: seq<RuleVal>, now: Clock, temp: int, j: nat): (f: nat)
    requires j < |rules| && Fires(rules[j], now, temp)
    ensures f <= j && Fires(rules[f], now, temp)
    ensures forall x :: 0 <= x < f ==> !Fires(rules[x], now, temp)
  {
    if j == 0 || !exists x :: 0 <= x < j && Fires(rules[x], now, temp) then j
    else
      var x :| 0 <= x < j && Fires(rules[x], now, temp);
      FirstFiring(rules, now, temp, x)
  }

  // ---------------------------------------------------------------------------
  // Sprayer rule engine (once per minute)

  /** The number of tracked entries that count as finished: off while no delay is pending. */
  function CountFinished(s: State, ds: seq<string>): (n: nat)
    requires forall k :: 0 <= k < |ds| ==> ds[k] in s.devs
    ensures n <= |ds|
  {
    if ds == [] then 0
    else
      var last := ds[|ds| - 1];
      CountFinished(s, ds[..|ds| - 1]) + (if !s.devs[last].IsOn() && s.rs.delayed == 0 then 1 else 0)
  }

  lemma CountFinishedStep(s: State, ds: seq<string>, k: int)
    requires (forall x :: 0 <= x < |ds| ==> ds[x] in s.devs) && 0 <= k < |ds|
    ensures CountFinished(s, ds[..k + 1])
         == CountFinished(s, ds[..k]) + (if !s.devs[ds[k]].IsOn() && s.rs.delayed == 0 then 1 else 0)
  {
    assert ds[..k + 1][..k] == ds[..k];
  }

  /** Every tracked entry is finished exactly when the finished count reaches the list length. */
  lemma {:induction false} AllFinished(s: State, ds: seq<string>)
    requires forall k :: 0 <= k < |ds| ==> ds[k] in s.devs
    ensures |ds| - CountFinished(s, ds) == 0 <==>
            forall k :: 0 <= k < |ds| ==> !s.devs[ds[k]].IsOn() && s.rs.delayed == 0
  {
    if ds != [] {
      var init := ds[..|ds| - 1];
      AllFinished(s, init);
      if forall k :: 0 <= k < |ds| ==> !s.devs[ds[k]].IsOn() && s.rs.delayed == 0 {
        forall k | 0 <= k < |init| ensures !s.devs[init[k]].IsOn() && s.rs.delayed == 0 {
          assert init[k] == ds[k];
        }
      }
      if |ds| - CountFinished(s, ds) == 0 {
        forall k | 0 <= k < |ds| ensures !s.devs[ds[k]].IsOn() && s.rs.delayed == 0 {
          if k < |ds| - 1 { assert init[k] == ds[k]; }
        }
      }
    }
  }

  /** `AllFinished` over the members of the list rather than its positions. */
  lemma AllFinishedMembers(s: State, ds: seq<string>)
    requires forall k :: 0 <= k < |ds| ==> ds[k] in s.devs
    ensures |ds| - CountFinished(s, ds) == 0 <==> forall x :: x in ds ==> !s.devs[x].IsOn() && s.rs.delayed == 0
  {
    AllFinished(s, ds);
    if forall k :: 0 <= k < |ds| ==> !s.devs[ds[k]].IsOn() && s.rs.delayed == 0 {
      forall x | x in ds ensures !s.devs[x].IsOn() && s.rs.delayed == 0 {
        var k :| 0 <= k < |ds| && ds[k] == x;
      }
    }
  }

  /** The sprayer actions at the end of the delay: each device on under the sprayer rule, delay cleared. */
  function SprayerFire(s: State, sr: SprayerRule, now: Clock): (r: State)
    requires WF(s) && ActionsKnown(sr.actions, s.devs.Keys)
    ensures WF(r) && r.devs.Keys == s.devs.Keys
  {
    var s1 := RunActions(s, sr.actions, CONTROLLED_BY_SPRAYER_RULE, false, now, sr.delay);
    s1.(rs := s1.rs.(delayed := 0))
  }

  /**
   * `checkSprayerRule()`: only while the sprayer rule is active. When the
   * delay ends exactly now the actions run; then the rule state is reset
   * once every tracked device is off and no delay is pending.
   */
  function CheckSprayerRule(s: State, sr: SprayerRule, now: Clock): (r: State)
    requires WF(s) && ActionsKnown(sr.actions, s.devs.Keys)
    ensures WF(r) && r.devs.Keys == s.devs.Keys
    ensures s.rs.rulenr != SPRAYER_RULENR ==> r == s
    ensures s.rs.rulenr == SPRAYER_RULENR && now.epochSecond != s.rs.delayed ==> r.devs == s.devs
    ensures s.rs.rulenr == SPRAYER_RULENR && now.epochSecond != s.rs.delayed ==>
      && (r.rs == Initial || r.rs == s.rs)
      && (r.rs == Initial <==> forall x :: x in s.rs.devices ==> !s.devs[x].IsOn() && s.rs.delayed == 0)
    ensures r.rs == Initial || r.rs.rulenr == s.rs.rulenr
  {
    if s.rs.rulenr == SPRAYER_RULENR then
      var s1 := if now.epochSecond == s.rs.delayed then SprayerFire(s, sr, now) else s;
      AllFinishedMembers(s1, s1.rs.devices);
      var n := |s1.rs.devices| - CountFinished(s1, s1.rs.devices);
      if n == 0 then s1.(rs := Initial) else s1
    else
      s
  }

  /**
   * At the end of the delay every configured sprayer action device ends
   * the tick owned by the sprayer rule, and the rule is still active
   * unless all tracked devices are already off.
   */
  lemma SprayerDelayEnds(s: State, sr: SprayerRule, now: Clock)
    requires WF(s) && ActionsKnown(sr.actions, s.devs.Keys)
    requires s.rs.rulenr == SPRAYER_RULENR && now.epochSecond == s.rs.delayed
    ensures var r := CheckSprayerRule(s, sr, now);
      && (forall i :: 0 <= i < |sr.actions| && !IsNoDevice(sr.actions[i].device) ==>
            r.devs[sr.actions[i].device].controlledBy == CONTROLLED_BY_SPRAYER_RULE)
      && (r.rs == Initial <==> forall x :: x in SprayerFire(s, sr, now).rs.devices ==> !r.devs[x].IsOn())
      && (r.rs != Initial ==> r.rs.rulenr == SPRAYER_RULENR && r.rs.delayed == 0)
  {
    SprayerActionsClaimDevices(s, sr.actions, now, sr.delay);
    var s1 := SprayerFire(s, sr, now);
    AllFinished(s1, s1.rs.devices);
    if forall x :: x in s1.rs.devices ==> !s1.devs[x].IsOn() {
      assert forall k :: 0 <= k < |s1.rs.devices| ==> !s1.devs[s1.rs.devices[k]].IsOn() && s1.rs.delayed == 0;
    }
    if forall k :: 0 <= k < |s1.rs.devices| ==> !s1.devs[s1.rs.devices[k]].IsOn() && s1.rs.delayed == 0 {
      forall x | x in s1.rs.devices ensures !s1.devs[x].IsOn() {
        var k :| 0 <= k < |s1.rs.devices| && s1.rs.devices[k] == x;
      }
    }
  }

  // ---------------------------------------------------------------------------
  // Lifetime counters

  /** The devices with a counter and a table entry. */
  predicate CountersKnown(devices: seq<Device>, names: set<string>)
  {
    forall i :: 0 <= i < |devices| && devices[i].hasLifetime ==> devices[i].name in names
  }

  /** One device's lifetime counter lowered by `h` hours. */
  function LifetimeDecreased(s: State, n: string, h: int): State
    requires n in s.devs
  {
    s.(devs := s.devs[n := s.devs[n].(lifetime := s.devs[n].lifetime - h)])
  }

  /** `decreaseLifetime(h)`: every counted device that is on loses `h` hours. */
  function DecreaseLifetimes(s: State, devices: seq<Device>, h: int): (r: State)
    requires CountersKnown(devices, s.devs.Keys)
    ensures r.devs.Keys == s.devs.Keys && r.rs == s.rs
    decreases |devices|
  {
    if devices == [] then s
    else
      var prev := DecreaseLifetimes(s, devices[..|devices| - 1], h);
      var d := devices[|devices| - 1];
      if d.hasLifetime && prev.devs[d.name].IsOn() then
        LifetimeDecreased(prev, d.name, h)
      else
        prev
  }

  /** Extending the processed prefix by one device is one more step. */
  lemma DecreaseLifetimesStep(s: State, devices: seq<Device>, i: int, h: int)
    requires CountersKnown(devices, s.devs.Keys) && 0 <= i < |devices|
    ensures CountersKnown(devices[..i], s.devs.Keys) && CountersKnown(devices[..i + 1], s.devs.Keys)
    ensures var prev := DecreaseLifetimes(s, devices[..i], h);
      var d := devices[i];
      DecreaseLifetimes(s, devices[..i + 1], h)
      == if d.hasLifetime && prev.devs[d.name].IsOn()
         then LifetimeDecreased(prev, d.name, h)
         else prev
  {
    assert devices[..i + 1][..i] == devices[..i];
  }

  /**
   * With one registry entry per name, exactly the counted devices that are
   * on lose `h` hours; no other field of any device changes.
   */
  lemma {:induction false} DecreaseLifetimesEffect(s: State, devices: seq<Device>, h: int, n: string)
    requires CountersKnown(devices, s.devs.Keys) && n in s.devs
    requires forall i, j :: 0 <= i < j < |devices| ==> devices[i].name != devices[j].name
    ensures var r := DecreaseLifetimes(s, devices, h);
      r.devs[n] == if s.devs[n].IsOn() && exists i :: 0 <= i < |devices| && devices[i].name == n && devices[i].hasLifetime
                   then s.devs[n].(lifetime := s.devs[n].lifetime - h)
                   else s.devs[n]
    decreases |devices|
  {
    if devices != [] {
      var init := devices[..|devices| - 1];
      var d := devices[|devices| - 1];
      assert CountersKnown(init, s.devs.Keys);
      DecreaseLifetimesEffect(s, init, h, n);
      if d.name == n {
        assert forall i :: 0 <= i < |init| ==> init[i].name != n;
        if d.hasLifetime {
          assert devices[|devices| - 1].name == n;
        }
      } else {
        if exists i :: 0 <= i < |devices| && devices[i].name == n && devices[i].hasLifetime {
          var i :| 0 <= i < |devices| && devices[i].name == n && devices[i].hasLifetime;
          assert i < |devices| - 1 && init[i] == devices[i];
        }
        if exists i :: 0 <= i < |init| && init[i].name == n && init[i].hasLifetime {
          var i :| 0 <= i < |init| && init[i].name == n && init[i].hasLifetime;
          assert devices[i] == init[i];
        }
      }
    }
  }
}
