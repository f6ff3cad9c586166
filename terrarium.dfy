/**
 * The controller singleton: the device-state table, the rule state and
 * the configuration, with the mutators and the four periodic engines.
 * Every method is proved to leave the state the corresponding function of
 * module `Engine` describes. The current time and the terrarium
 * temperature are parameters.
 */
module Terrariums {
  import opened Common
  import opened DeviceStates
  import opened RuleStates
  import opened TemperatureRules
  import opened Config
  import opened Engine

  // ---------------------------------------------------------------------------
  // Lookups in the configuration

  /**
   * `getDeviceIndex(device)`: the position of the first configured device
   * name equal to `device` ignoring case, or -1 when there is none.
   */
  function FirstMatch(names: seq<string>, device: string): (ix: int)
    ensures -1 <= ix < |names|
    ensures ix == -1 <==> forall j :: 0 <= j < |names| ==> !EqualsIgnoreCase(names[j], device)
    ensures ix >= 0 ==> EqualsIgnoreCase(names[ix], device)
                        && forall j :: 0 <= j < ix ==> !EqualsIgnoreCase(names[j], device)
  {
    if names == [] then -1
    else if EqualsIgnoreCase(names[0], device) then 0
    else
      var ix := FirstMatch(names[1..], device);
      if ix == -1 then -1 else ix + 1
  }

  /** The timers of `device` (compared ignoring case), in configuration order. */
  function TimersOf(ts: seq<Timer>, device: string): (r: seq<Timer>)
    ensures |r| <= |ts|
    ensures forall k :: 0 <= k < |r| ==> EqualsIgnoreCase(r[k].device, device) && r[k] in ts
  {
    if ts == [] then []
    else
      var prev := TimersOf(ts[..|ts| - 1], device);
      if EqualsIgnoreCase(ts[|ts| - 1].device, device) then prev + [ts[|ts| - 1]] else prev
  }

  /** The positions in `ts` of the timers of `device`. */
  function MatchPositions(ts: seq<Timer>, device: string): seq<int>
  {
    if ts == [] then []
    else
      var prev := MatchPositions(ts[..|ts| - 1], device);
      if EqualsIgnoreCase(ts[|ts| - 1].device, device) then prev + [|ts| - 1] else prev
  }

  /** The matching positions are exactly the positions of the device's timers, in increasing order. */
  lemma {:induction false} MatchPositionsIncreasing(ts: seq<Timer>, device: string)
    ensures var p := MatchPositions(ts, device);
      && (forall k :: 0 <= k < |p| ==> 0 <= p[k] < |ts|)
      && (forall k, l :: 0 <= k < l < |p| ==> p[k] < p[l])
      && (forall j :: 0 <= j < |ts| ==> (j in p <==> EqualsIgnoreCase(ts[j].device, device)))
  {
    if ts != [] {
      var init := ts[..|ts| - 1];
      MatchPositionsIncreasing(init, device);
      forall j | 0 <= j < |init| ensures init[j] == ts[j] {
      }
    }
  }

  /**
   * The timers of a device are exactly the configured timers at the
   * matching positions, in configuration order.
   */
  lemma {:induction false} TimersOfIsFilter(ts: seq<Timer>, device: string)
    ensures |TimersOf(ts, device)| == |MatchPositions(ts, device)|
    ensures forall k :: 0 <= k < |MatchPositions(ts, device)| ==>
      0 <= MatchPositions(ts, device)[k] < |ts| && TimersOf(ts, device)[k] == ts[MatchPositions(ts, device)[k]]
  {
    if ts != [] {
      var init := ts[..|ts| - 1];
      TimersOfIsFilter(init, device);
      MatchPositionsIncreasing(ts, device);
      var p, prev := MatchPositions(init, device), TimersOf(init, device);
      var q, r := MatchPositions(ts, device), TimersOf(ts, device);
      if EqualsIgnoreCase(ts[|ts| - 1].device, device) {
        assert q == p + [|ts| - 1] && r == prev + [ts[|ts| - 1]];
      } else {
        assert q == p && r == prev;
      }
      forall k | 0 <= k < |p| ensures 0 <= q[k] < |ts| && r[k] == ts[q[k]] {
        assert init[p[k]] == ts[p[k]];
      }
    }
  }

  /** Every configured timer of the device appears among its timers. */
  lemma TimersOfComplete(ts: seq<Timer>, device: string)
    ensures forall j :: 0 <= j < |ts| && EqualsIgnoreCase(ts[j].device, device) ==> ts[j] in TimersOf(ts, device)
  {
    TimersOfIsFilter(ts, device);
    MatchPositionsIncreasing(ts, device);
    var p, r := MatchPositions(ts, device), TimersOf(ts, device);
    forall j | 0 <= j < |ts| && EqualsIgnoreCase(ts[j].device, device) ensures ts[j] in r {
      var k :| 0 <= k < |p| && p[k] == j;
      assert r[k] == ts[j];
    }
  }

  function Slots(ts: seq<Timer>): (r: seq<Option<Timer>>)
    ensures |r| == |ts| && forall k :: 0 <= k < |ts| ==> r[k] == Some(ts[k])
  {
    seq(|ts|, k requires 0 <= k < |ts| => Some(ts[k]))
  }

  /**
   * `getTimersForDevice(device)`. The empty name yields every timer.
   * Otherwise the result has as many slots as the device is configured
   * to have timers: its timers in order, the remaining slots empty.
   * `None` stands for the array-index failure: an unknown device, or
   * more timers than slots (or a negative slot count).
   */
  function TimersForDevice(names: seq<string>, perDevice: seq<int>, ts: seq<Timer>, device: string): (r: Option<seq<Option<Timer>>>)
    ensures device == "" ==> r == Some(Slots(ts))
    ensures device != "" ==>
      var ix := FirstMatch(names, device);
      (r.None? <==> ix < 0 || ix >= |perDevice| || perDevice[ix] < 0 || |TimersOf(ts, device)| > perDevice[ix])
      && (r.Some? ==> |r.value| == perDevice[ix]
                      && r.value[..|TimersOf(ts, device)|] == Slots(TimersOf(ts, device))
                      && forall k :: |TimersOf(ts, device)| <= k < |r.value| ==> r.value[k] == None)
  {
    if device == "" then Some(Slots(ts))
    else
      var ix := FirstMatch(names, device);
      if ix < 0 || ix >= |perDevice| || perDevice[ix] < 0 then None
      else
        SlotsOf(ts, device, perDevice[ix])
  }

  /** `nr` slots holding the timers of `device` in order, or `None` when they do not fit. */
  function SlotsOf(ts: seq<Timer>, device: string, nr: nat): (r: Option<seq<Option<Timer>>>)
  {
    var mine := TimersOf(ts, device);
    if |mine| > nr then None
    else Some(Slots(mine) + seq(nr - |mine|, _ => None))
  }

  /** The slot-filling loop of `getTimersForDevice`. */
  method CollectSlots(ts: array<Timer>, device: string, nr: nat) returns (r: Option<seq<Option<Timer>>>)
    ensures r == SlotsOf(ts[..], device, nr)
  {
    var tmrs := new Option<Timer>[nr](_ => None);
    var i := 0;
    for k := 0 to ts.Length
      invariant i == |TimersOf(ts[..k], device)| && i <= nr
      invariant tmrs[..i] == Slots(TimersOf(ts[..k], device))
      invariant forall m :: i <= m < nr ==> tmrs[m] == None
    {
      TimersOfStep(ts[..], k, device);
      assert ts[..][..k] == ts[..k] && ts[..][..k + 1] == ts[..k + 1];
      var t := ts[k];
      if EqualsIgnoreCase(t.device, device) {
        if i >= nr {
          TimersOfMonotone(ts[..], k + 1, device);
          return None;
        }
        tmrs[i] := Some(t);
        i := i + 1;
      }
    }
    assert ts[..ts.Length] == ts[..];
    assert tmrs[..] == tmrs[..i] + seq(nr - i, _ => None);
    return Some(tmrs[..]);
  }

  /** A new timer replaces an old one with the same device (ignoring case) and the same index. */
  predicate SameSlot(told: Timer, tnew: Timer)
  {
    EqualsIgnoreCase(told.device, tnew.device) && told.index == tnew.index
  }

  /** One new timer written over every slot it matches. */
  function ReplaceOne(ts: seq<Timer>, tnew: Timer): (r: seq<Timer>)
    ensures |r| == |ts|
    ensures forall i :: 0 <= i < |ts| ==> r[i] == if SameSlot(ts[i], tnew) then tnew else ts[i]
  {
    seq(|ts|, i requires 0 <= i < |ts| => if SameSlot(ts[i], tnew) then tnew else ts[i])
  }

  /** `replaceTimers(tmrs)`: each new timer in turn. */
  function ReplaceAll(ts: seq<Timer>, news: seq<Timer>): (r: seq<Timer>)
    ensures |r| == |ts|
    decreases |news|
  {
    if news == [] then ts else ReplaceOne(ReplaceAll(ts, news[..|news| - 1]), news[|news| - 1])
  }

  /**
   * After `replaceTimers`, a slot that no new timer matches is unchanged,
   * a slot always holds a timer for its own device and index, and a slot
   * that some new timer matches holds the last new timer that matches it.
   */
  lemma ReplaceAllEffect(ts: seq<Timer>, news: seq<Timer>, i: int)
    requires 0 <= i < |ts|
    ensures (forall j :: 0 <= j < |news| ==> !SameSlot(ts[i], news[j])) ==> ReplaceAll(ts, news)[i] == ts[i]
    ensures SameSlot(ts[i], ReplaceAll(ts, news)[i])
    ensures forall j :: 0 <= j < |news| && SameSlot(ts[i], news[j])
                        && (forall k :: j < k < |news| ==> !SameSlot(ts[i], news[k])) ==>
      ReplaceAll(ts, news)[i] == news[j]
  {
    ReplaceAllUnmatched(ts, news, i);
    ReplaceAllSameSlot(ts, news, i);
    ReplaceAllLastMatch(ts, news, i);
  }

  lemma {:induction false} ReplaceAllSameSlot(ts: seq<Timer>, news: seq<Timer>, i: int)
    requires 0 <= i < |ts|
    ensures SameSlot(ts[i], ReplaceAll(ts, news)[i])
    decreases |news|
  {
    if news == [] {
      EqualsIgnoreCaseIsEquivalence(ts[i].device, ts[i].device, ts[i].device);
    } else {
      var prev := ReplaceAll(ts, news[..|news| - 1]);
      var last := news[|news| - 1];
      ReplaceAllSameSlot(ts, news[..|news| - 1], i);
      assert ReplaceAll(ts, news)[i] == if SameSlot(prev[i], last) then last else prev[i];
      EqualsIgnoreCaseIsEquivalence(ts[i].device, prev[i].device, last.device);
    }
  }

  lemma {:induction false} ReplaceAllUnmatched(ts: seq<Timer>, news: seq<Timer>, i: int)
    requires 0 <= i < |ts|
    ensures (forall j :: 0 <= j < |news| ==> !SameSlot(ts[i], news[j])) ==> ReplaceAll(ts, news)[i] == ts[i]
    decreases |news|
  {
    if news != [] && forall j :: 0 <= j < |news| ==> !SameSlot(ts[i], news[j]) {
      var init := news[..|news| - 1];
      forall j | 0 <= j < |init| ensures !SameSlot(ts[i], init[j]) {
        assert init[j] == news[j];
      }
      ReplaceAllUnmatched(ts, init, i);
      assert !SameSlot(ts[i], news[|news| - 1]);
    }
  }

  lemma {:induction false} ReplaceAllLastMatch(ts: seq<Timer>, news: seq<Timer>, i: int)
    requires 0 <= i < |ts|
    ensures forall j :: 0 <= j < |news| && SameSlot(ts[i], news[j])
                        && (forall k :: j < k < |news| ==> !SameSlot(ts[i], news[k])) ==>
      ReplaceAll(ts, news)[i] == news[j]
    decreases |news|
  {
    if news != [] {
      var init := news[..|news| - 1];
      var last := news[|news| - 1];
      var prev := ReplaceAll(ts, init);
      ReplaceAllSameSlot(ts, init, i);
      assert ReplaceAll(ts, news)[i] == if SameSlot(prev[i], last) then last else prev[i];
      // prev[i] and ts[i] name the same slot, so a new timer matches one iff it matches the other
      EqualsIgnoreCaseIsEquivalence(ts[i].device, prev[i].device, last.device);
      EqualsIgnoreCaseIsEquivalence(prev[i].device, ts[i].device, last.device);
      if !SameSlot(ts[i], last) {
        ReplaceAllLastMatch(ts, init, i);
        forall j | 0 <= j < |news| && SameSlot(ts[i], news[j])
                   && (forall k :: j < k < |news| ==> !SameSlot(ts[i], news[k]))
          ensures prev[i] == news[j]
        {
          assert j < |news| - 1 && init[j] == news[j];
          forall k | j < k < |init| ensures !SameSlot(ts[i], init[k]) {
            assert init[k] == news[k];
          }
        }
      }
    }
  }

  // ---------------------------------------------------------------------------

  class Terrarium {
    const cfg: TerrariumConfig
    const devices: seq<Device>
    const devStates: map<string, DeviceState>
    const ruleState: RuleState

    /** The values of the device table. */
    ghost function Devs(): map<string, DevVal>
      reads this, devStates.Values
    {
      map n | n in devStates :: devStates[n].Val()
    }

    /** The engines' view of the device table and the rule state. */
    ghost function Snap(): State
      reads this, ruleState, devStates.Values
    {
      State(Devs(), ruleState.Val())
    }

    /** Each name has its own device-state object, and the table satisfies `WF`. */
    ghost predicate Valid()
      reads this, ruleState, devStates.Values
    {
      && (forall a, b :: a in devStates && b in devStates && a != b ==> devStates[a] != devStates[b])
      && WF(Snap())
    }

    /**
     * A controller for `cfg`, with `initDeviceState()` done: one fresh
     * device state per configured name, all off and free, and a fresh
     * rule state.
     */
    constructor (cfg: TerrariumConfig, devices: seq<Device>)
      requires FAN_IN in cfg.deviceList && FAN_OUT in cfg.deviceList
      ensures Valid()
      ensures this.cfg == cfg && this.devices == devices
      ensures Snap() == State(map n | n in cfg.deviceList :: DevVal(n, ENDTIME_OFF, 0, false, NOT_CONTROLLED), Initial)
      ensures fresh(ruleState) && forall n :: n in devStates ==> fresh(devStates[n])
    {
      var m := InitDeviceStates(cfg.deviceList);
      this.cfg := cfg;
      this.devices := devices;
      this.devStates := m;
      this.ruleState := new RuleState();
      new;
      assert Devs() == map n | n in cfg.deviceList :: DevVal(n, ENDTIME_OFF, 0, false, NOT_CONTROLLED);
    }

    /** `isDeviceOn(device)`: the device's end time is not `ENDTIME_OFF`. */
    function IsDeviceOn(device: string): (on: bool)
      reads this, ruleState, devStates.Values
      requires device in devStates
      ensures on <==> Snap().devs[device].onPeriod != ENDTIME_OFF
    {
      devStates[device].onPeriod != 0
    }

    /** `isSprayerRuleActive()`: the sprayer rule is the rule in charge. */
    function IsSprayerRuleActive(): (active: bool)
      reads this, ruleState, devStates.Values
      ensures active <==> Snap().rs.rulenr == SPRAYER_RULENR
    {
      ruleState.rulenr == SPRAYER_RULENR
    }

    /** `initRules()`: the rule state is reset; the devices are untouched. */
    method InitRules()
      requires Valid()
      modifies ruleState
      ensures Valid() && Snap() == old(Snap()).(rs := Initial)
    {
      ruleState.Reset();
      assert Devs() == old(Snap()).devs;
    }

    /** `ruleState.setDelayed(delayed)`. */
    method SetDelayed(delayed: int)
      requires Valid()
      modifies ruleState
      ensures Valid() && Snap() == old(Snap()).(rs := old(Snap()).rs.(delayed := delayed))
    {
      ruleState.SetDelayed(delayed);
      assert Devs() == old(Snap()).devs;
    }

    // -------------------------------------------------------------------------
    // Mutators

    /** `setDeviceOff(device, controlledBy)`, including the mist cascade. */
    method SetDeviceOff(device: string, controlledBy: int)
      requires Valid() && device in devStates
      modifies devStates.Values
      ensures Valid() && Snap() == Off(old(Snap()), device, controlledBy)
      decreases if IsMist(device) then 1 else 0
    {
      Assign(device, ENDTIME_OFF, controlledBy);
      if EqualsIgnoreCase(device, "mist") {
        SetDeviceOff(FAN_IN, NOT_CONTROLLED);
        SetDeviceOff(FAN_OUT, NOT_CONTROLLED);
      }
    }

    /** `setDeviceOn(device, endtime, controlledBy)`, including the start of the sprayer rule. */
    method SetDeviceOn(device: string, endtime: int, controlledBy: int, now: Clock)
      requires Valid() && device in devStates
      modifies ruleState, devStates.Values
      ensures Valid() && Snap() == On(old(Snap()), device, endtime, controlledBy, now, cfg.sprayerRule.delay)
    {
      Assign(device, endtime, controlledBy);
      if endtime > 0 {
        if EqualsIgnoreCase(device, "sprayer")
           && (controlledBy == CONTROLLED_BY_TIMER || controlledBy == NOT_CONTROLLED) {
          StartSprayerRule(now);
        }
      }
    }

    /** The end time and owner of one device; nothing else changes. */
    method Assign(device: string, onPeriod: int, owner: int)
      requires Valid() && device in devStates
      modifies devStates[device]
      ensures Valid() && Snap() == Put(old(Snap()), device, onPeriod, owner)
    {
      ghost var before := Devs();
      var d := devStates[device];
      d.SetOnPeriod(onPeriod);
      d.SetControlledBy(owner);
      ghost var after := before[device := before[device].(onPeriod := onPeriod, controlledBy := owner)];
      forall n | n in devStates ensures devStates[n].Val() == after[n] {
        if n != device {
          assert devStates[n] != d;
        }
      }
      assert Devs() == after;
    }

    /** The sprayer rule takes charge: the delay starts and both fans are held off. */
    method StartSprayerRule(now: Clock)
      requires Valid()
      modifies ruleState, devStates.Values
      ensures Valid() && Snap() == StartSprayer(old(Snap()), now, cfg.sprayerRule.delay)
    {
      ruleState.SetRulenr(SPRAYER_RULENR);
      ruleState.SetDelayed(now.epochSecond + cfg.sprayerRule.delay * 60);
      assert Devs() == old(Devs());
      assert Snap() == Armed(old(Snap()), now, cfg.sprayerRule.delay);
      HoldFan(FAN_IN);
      HoldFan(FAN_OUT);
    }

    /** One fan is switched off under the sprayer rule and tracked by it. */
    method HoldFan(fan: string)
      requires Valid() && fan in devStates
      modifies ruleState, devStates.Values
      ensures Valid() && Snap() == FanHeld(old(Snap()), fan)
    {
      SetDeviceOff(fan, CONTROLLED_BY_SPRAYER_RULE);
      Track(fan);
    }

    /** `ruleState.addDevice(device)`. */
    method Track(device: string)
      requires Valid() && device in devStates
      modifies ruleState
      ensures Valid() && Snap() == Tracked(old(Snap()), device)
    {
      ruleState.AddDevice(device);
      assert Devs() == old(Snap()).devs;
    }

    /** `setDeviceManualOn(device)`: only the manual flag of that device changes. */
    method SetDeviceManualOn(device: string)
      requires Valid() && device in devStates
      modifies devStates[device]
      ensures Valid()
      ensures Snap() == old(Snap()).(devs := old(Snap()).devs[device := old(Snap()).devs[device].(manual := true)])
    {
      devStates[device].SetManual(true);
      assert Snap().devs == old(Snap()).devs[device := old(Snap()).devs[device].(manual := true)];
    }

    /** `setDeviceManualOff(device)`: only the manual flag of that device changes. */
    method SetDeviceManualOff(device: string)
      requires Valid() && device in devStates
      modifies devStates[device]
      ensures Valid()
      ensures Snap() == old(Snap()).(devs := old(Snap()).devs[device := old(Snap()).devs[device].(manual := false)])
    {
      devStates[device].SetManual(false);
      assert Snap().devs == old(Snap()).devs[device := old(Snap()).devs[device].(manual := false)];
    }

    /** `decreaseLifetime(nrOfHours)`: the counters of the counted devices that are on. */
    method DecreaseLifetime(nrOfHours: int)
      requires Valid() && CountersKnown(devices, devStates.Keys)
      modifies devStates.Values
      ensures Valid() && Snap() == DecreaseLifetimes(old(Snap()), devices, nrOfHours)
    {
      assert old(Snap()).devs.Keys == devStates.Keys;
      for i := 0 to |devices|
        invariant Valid()
        invariant CountersKnown(devices[..i], old(Snap()).devs.Keys)
        invariant Snap() == DecreaseLifetimes(old(Snap()), devices[..i], nrOfHours)
      {
        var d := devices[i];
        DecreaseLifetimesStep(old(Snap()), devices, i, nrOfHours);
        ghost var prev := Snap();
        if d.hasLifetime && IsDeviceOn(d.name) {
          DecreaseLifetimeOf(d.name, nrOfHours);
        } else {
          assert Snap() == prev;
        }
      }
      assert devices[..|devices|] == devices;
    }

    method DecreaseLifetimeOf(device: string, nrOfHours: int)
      requires Valid() && device in devStates
      modifies devStates[device]
      ensures Valid()
      ensures Snap() == LifetimeDecreased(old(Snap()), device, nrOfHours)
    {
      devStates[device].DecreaseLifetime(nrOfHours);
      assert Snap().devs == old(Snap()).devs[device := old(Snap()).devs[device].(lifetime := old(Snap()).devs[device].lifetime - nrOfHours)];
    }

    // -------------------------------------------------------------------------
    // The periodic engines

    /**
     * `checkDevices()`: the keys are visited in an order the hash map
     * chooses; the result is the same for every order.
     */
    method CheckDevices(now: Clock)
      requires Valid()
      modifies devStates.Values
      ensures Valid() && Snap() == Sweep(old(Snap()), now.epochSecond)
    {
      var todo := devStates.Keys;
      assert todo == old(Snap()).devs.Keys;
      ghost var done: set<string> := {};
      while todo != {}
        invariant Valid()
        invariant todo + done == old(Snap()).devs.Keys && todo !! done
        invariant Snap() == SweepPart(old(Snap()), done, now.epochSecond)
        decreases todo
      {
        var devnm :| devnm in todo;
        SweepStep(old(Snap()), done, devnm, now.epochSecond);
        CheckDevice(devnm, now);
        todo := todo - {devnm};
        done := done + {devnm};
      }
      assert done == old(Snap()).devs.Keys;
    }

    /** One device of `checkDevices()`: switched off and freed once its end time has passed. */
    method CheckDevice(devnm: string, now: Clock)
      requires Valid() && devnm in devStates
      modifies devStates.Values
      ensures Valid()
      ensures Snap() == if Expired(old(Snap()).devs[devnm], now.epochSecond)
                        then Off(old(Snap()), devnm, NOT_CONTROLLED) else old(Snap())
    {
      var d := devStates[devnm];
      assert d.Val() == Snap().devs[devnm];
      if d.onPeriod > 0 {
        // Terrarium.checkDevices compares with the absolute value, which is the end time itself here
        if now.epochSecond >= d.onPeriod {
          SetDeviceOff(d.name, NOT_CONTROLLED);
        }
      }
    }

    /** One timer of `checkTimers()`. */
    method CheckTimer(t: Timer, now: Clock)
      requires Valid() && (t.repeat != 0 ==> t.device in devStates)
      modifies ruleState, devStates.Values
      ensures Valid() && Snap() == TimerStep(old(Snap()), t, now, cfg.sprayerRule.delay)
    {
      if t.repeat != 0 {
        if t.period == 0 {
          CheckOnOffTimer(t, now);
        } else {
          CheckPeriodTimer(t, now);
        }
      }
    }

    /** The on-time-and-period branch of `checkTimers()` for an active timer. */
    method CheckPeriodTimer(t: Timer, now: Clock)
      requires Valid() && t.device in devStates
      modifies ruleState, devStates.Values
      ensures Valid() && Snap() == PeriodTimerStep(old(Snap()), t, now, cfg.sprayerRule.delay)
    {
      var timerMinutesOn := t.hourOn * 60 + t.minuteOn;
      var curMinutes := now.hour * 60 + now.minute;
      var endtime := now.epochSecond + t.period;
      if curMinutes == timerMinutesOn {
        if !IsDeviceOn(t.device) && devStates[t.device].controlledBy == NOT_CONTROLLED {
          SetDeviceOn(t.device, endtime, CONTROLLED_BY_TIMER, now);
        }
      }
    }

    /** The on/off branch of `checkTimers()` for an active timer. */
    method CheckOnOffTimer(t: Timer, now: Clock)
      requires Valid() && t.device in devStates
      modifies ruleState, devStates.Values
      ensures Valid() && Snap() == OnOffTimerStep(old(Snap()), t, now, cfg.sprayerRule.delay)
    {
      var timerMinutesOn := t.hourOn * 60 + t.minuteOn;
      var timerMinutesOff := t.hourOff * 60 + t.minuteOff;
      var curMinutes := now.hour * 60 + now.minute;
      if curMinutes == timerMinutesOn {
        if devStates[t.device].controlledBy == NOT_CONTROLLED || devStates[t.device].controlledBy > 0 {
          TimerTakesDevice(t, now);
        }
      } else if timerMinutesOff != 0 && curMinutes == timerMinutesOff {
        if IsDeviceOn(t.device) && devStates[t.device].controlledBy == CONTROLLED_BY_TIMER {
          SetDeviceOff(t.device, NOT_CONTROLLED);
        }
      }
    }

    /** At its on-minute an on/off timer switches its device on, and a mist timer puts the fans off. */
    method TimerTakesDevice(t: Timer, now: Clock)
      requires Valid() && t.device in devStates
      modifies ruleState, devStates.Values
      ensures Valid() && Snap() == TimerOn(old(Snap()), t, now, cfg.sprayerRule.delay)
    {
      SetDeviceOn(t.device, ENDTIME_INDEFINITE, CONTROLLED_BY_TIMER, now);
      if EqualsIgnoreCase(t.device, "mist") {
        ghost var s1 := Snap();
        SetDeviceOff(FAN_IN, CONTROLLED_BY_MIST_RULE);
        SetDeviceOff(FAN_OUT, CONTROLLED_BY_MIST_RULE);
        assert Snap() == Off(Off(s1, FAN_IN, CONTROLLED_BY_MIST_RULE), FAN_OUT, CONTROLLED_BY_MIST_RULE);
      }
    }

    /** `checkTimers()`: every timer in configuration order. */
    method CheckTimers(now: Clock)
      requires Valid() && TimersKnown(cfg.timers[..], devStates.Keys)
      modifies ruleState, devStates.Values
      ensures Valid() && Snap() == RunTimers(old(Snap()), cfg.timers[..], now, cfg.sprayerRule.delay)
    {
      assert old(Snap()).devs.Keys == devStates.Keys;
      var timers := cfg.timers;
      ghost var ts := timers[..];
      for i := 0 to timers.Length
        invariant Valid() && devStates.Keys == old(Snap()).devs.Keys
        invariant Snap() == RunTimers(old(Snap()), ts[..i], now, cfg.sprayerRule.delay)
      {
        CheckTimerAt(old(Snap()), ts, i, timers[i], now);
      }
      assert ts[..timers.Length] == ts;
    }

    /** Timer `i` of the `checkTimers()` loop, advancing the run over the timers before it. */
    method CheckTimerAt(ghost s0: State, ghost ts: seq<Timer>, i: nat, t: Timer, now: Clock)
      requires Valid() && WF(s0) && devStates.Keys == s0.devs.Keys && TimersKnown(ts, s0.devs.Keys)
      requires i < |ts| && ts[i] == t
      requires Snap() == RunTimers(s0, ts[..i], now, cfg.sprayerRule.delay)
      modifies ruleState, devStates.Values
      ensures Valid() && Snap() == RunTimers(s0, ts[..i + 1], now, cfg.sprayerRule.delay)
    {
      ghost var before := Snap();
      CheckTimer(t, now);
      RunTimersStep(s0, ts, i, now, cfg.sprayerRule.delay, before, Snap());
    }

    /**
     * `initTimers(now)`: at start-up every device whose active timer's
     * inclusive window holds the current minute is switched on.
     */
    method InitTimers(now: Clock)
      requires Valid() && TimersKnown(cfg.timers[..], devStates.Keys)
      modifies ruleState, devStates.Values
      ensures Valid() && Snap() == Engine.InitTimers(old(Snap()), cfg.timers[..], now, cfg.sprayerRule.delay)
    {
      assert old(Snap()).devs.Keys == devStates.Keys;
      var timers := cfg.timers;
      ghost var ts := timers[..];
      for i := 0 to timers.Length
        invariant Valid() && devStates.Keys == old(Snap()).devs.Keys
        invariant Snap() == Engine.InitTimers(old(Snap()), ts[..i], now, cfg.sprayerRule.delay)
      {
        InitTimerAt(old(Snap()), ts, i, timers[i], now);
      }
      assert ts[..timers.Length] == ts;
    }

    /** Timer `i` of the `initTimers(now)` loop, advancing the run over the timers before it. */
    method InitTimerAt(ghost s0: State, ghost ts: seq<Timer>, i: nat, t: Timer, now: Clock)
      requires Valid() && WF(s0) && devStates.Keys == s0.devs.Keys && TimersKnown(ts, s0.devs.Keys)
      requires i < |ts| && ts[i] == t
      requires Snap() == Engine.InitTimers(s0, ts[..i], now, cfg.sprayerRule.delay)
      modifies ruleState, devStates.Values
      ensures Valid() && Snap() == Engine.InitTimers(s0, ts[..i + 1], now, cfg.sprayerRule.delay)
    {
      InitTimersStep(s0, ts, i, now, cfg.sprayerRule.delay);
      InitTimer(t, now);
    }

    /** One timer of `initTimers(now)`. */
    method InitTimer(t: Timer, now: Clock)
      requires Valid() && (t.repeat != 0 ==> t.device in devStates)
      modifies ruleState, devStates.Values
      ensures Valid() && Snap() == InitTimerStep(old(Snap()), t, now, cfg.sprayerRule.delay)
    {
      if t.repeat != 0 {
        var timerMinutesOn := t.hourOn * 60 + t.minuteOn;
        var timerMinutesOff := t.hourOff * 60 + t.minuteOff;
        var curMinutes := now.hour * 60 + now.minute;
        if curMinutes >= timerMinutesOn && curMinutes <= timerMinutesOff {
          SetDeviceOn(t.device, ENDTIME_INDEFINITE, CONTROLLED_BY_TIMER, now);
        }
      }
    }

    /**
     * The action loop of a rule: every named device is switched on under
     * `owner` and tracked; with `onlyFree`, a device that is not free is
     * skipped.
     */
    method SwitchActionsOn(acts: seq<Action>, owner: int, onlyFree: bool, now: Clock)
      requires Valid() && ActionsKnown(acts, devStates.Keys)
      modifies ruleState, devStates.Values
      ensures Valid() && Snap() == RunActions(old(Snap()), acts, owner, onlyFree, now, cfg.sprayerRule.delay)
    {
      assert old(Snap()).devs.Keys == devStates.Keys;
      for j := 0 to |acts|
        invariant Valid() && devStates.Keys == old(Snap()).devs.Keys
        invariant Snap() == RunActions(old(Snap()), acts[..j], owner, onlyFree, now, cfg.sprayerRule.delay)
      {
        RunActionsStep(old(Snap()), acts, j, owner, onlyFree, now, cfg.sprayerRule.delay);
        ActionOn(acts[j], owner, onlyFree, now);
      }
      assert acts[..|acts|] == acts;
    }

    /** One action of the loop above. */
    method ActionOn(a: Action, owner: int, onlyFree: bool, now: Clock)
      requires Valid() && (!IsNoDevice(a.device) ==> a.device in devStates)
      modifies ruleState, devStates.Values
      ensures Valid() && Snap() == ActionStep(old(Snap()), a, owner, onlyFree, now, cfg.sprayerRule.delay)
    {
      if !EqualsIgnoreCase(a.device, "no device") {
        if !onlyFree || devStates[a.device].controlledBy == NOT_CONTROLLED {
          var endtime := if a.onPeriod > 0 then now.epochSecond + a.onPeriod else a.onPeriod;
          assert endtime == EndTime(a.onPeriod, now);
          SetDeviceOn(a.device, endtime, owner, now);
          Track(a.device);
        }
      }
    }

    /** The release loop of rule `nr`: its devices that are on under it are switched off and freed. */
    method ReleaseActions(acts: seq<Action>, nr: int)
      requires Valid() && ActionsKnown(acts, devStates.Keys)
      modifies devStates.Values
      ensures Valid() && Snap() == Release(old(Snap()), acts, nr)
    {
      assert old(Snap()).devs.Keys == devStates.Keys;
      for j := 0 to |acts|
        invariant Valid() && devStates.Keys == old(Snap()).devs.Keys
        invariant Snap() == Release(old(Snap()), acts[..j], nr)
      {
        ReleasePrefixStep(old(Snap()), acts, j, nr);
        var a := acts[j];
        if !EqualsIgnoreCase(a.device, "no device") && IsDeviceOn(a.device)
           && devStates[a.device].controlledBy == nr {
          SetDeviceOff(a.device, NOT_CONTROLLED);
        }
      }
      assert acts[..|acts|] == acts;
    }

    /** Rule `nr` fires: it takes charge, then acts or counts down its delay. */
    method FireRule(r: TemperatureRule, nr: int, now: Clock)
      requires Valid() && ActionsKnown(r.actions, devStates.Keys) && nr > 0
      modifies ruleState, devStates.Values
      ensures Valid() && Snap() == Fire(old(Snap()), old(r.Val()), nr, now, cfg.sprayerRule.delay)
    {
      ruleState.SetRulenr(nr);
      assert Devs() == old(Snap()).devs;
      ghost var s1 := Snap();
      assert s1 == old(Snap()).(rs := old(Snap()).rs.(rulenr := nr));
      var tm := now.epochSecond;
      if ruleState.delayed == 0 {
        ghost var rv := r.Val();
        SwitchActionsOn(r.actions, nr, true, now);
        assert r.Val() == rv;
        if r.delay > 0 {
          SetDelayed(tm + r.delay);
        }
      } else if tm >= ruleState.delayed {
        SetDelayed(0);
      }
    }

    /** Rule `nr` lets go of its devices and the rule state is reset. */
    method ReleaseRule(r: TemperatureRule, nr: int)
      requires Valid() && ActionsKnown(r.actions, devStates.Keys)
      modifies ruleState, devStates.Values
      ensures Valid() && Snap() == ReleaseAndReset(old(Snap()), old(r.Val()), nr)
    {
      ReleaseActions(r.actions, nr);
      InitRules();
    }

    /**
     * `checkTemperatureRules()` with the terrarium temperature `temp`:
     * skipped while the sprayer rule is active, otherwise the rules are
     * scanned in array order up to the first one that fires.
     */
    method CheckTemperatureRules(now: Clock, temp: int)
      requires Valid() && RulesKnown(cfg.RuleVals(), devStates.Keys)
      modifies ruleState, devStates.Values
      ensures Valid()
      ensures Snap() == Engine.CheckTemperatureRules(old(Snap()), old(cfg.RuleVals()), now, temp, cfg.sprayerRule.delay)
    {
      if ruleState.rulenr != SPRAYER_RULENR {
        ScanRules(now, temp);
      }
    }

    /** The loop over the rules of `checkTemperatureRules()`. */
    method ScanRules(now: Clock, temp: int)
      requires Valid() && RulesKnown(cfg.RuleVals(), devStates.Keys)
      modifies ruleState, devStates.Values
      ensures Valid()
      ensures Snap() == TempScan(old(Snap()), old(cfg.RuleVals()), 0, now, temp, cfg.sprayerRule.delay)
    {
      ghost var rules := cfg.RuleVals();
      ghost var sd := cfg.sprayerRule.delay;
      ghost var goal := TempScan(old(Snap()), rules, 0, now, temp, sd);
      var rulenr := 0;
      while rulenr < cfg.rules.Length
        invariant 0 <= rulenr <= cfg.rules.Length == |rules|
        invariant Valid() && cfg.sprayerRule.delay == sd
        invariant TempScan(Snap(), rules, rulenr, now, temp, sd) == goal
      {
        var r := cfg.rules[rulenr];
        assert r.Val() == rules[rulenr];
        var stop := ApplyRule(r, rulenr, now, temp, rules);
        if stop {
          assert Snap() == goal;
          break;
        }
        rulenr := rulenr + 1;
        if rulenr == cfg.rules.Length {
          TempScanDone(Snap(), rules, rulenr, now, temp, sd);
        }
      }
      assert Snap() == goal;
    }

    /**
     * The rule at position `rulenr` of the scan over `rules`: when it
     * stops the scan (the `break` in Terrarium.checkTemperatureRules) the scan's result is reached;
     * otherwise the scan goes on from the next position.
     */
    method ApplyRule(r: TemperatureRule, rulenr: nat, now: Clock, temp: int, ghost rules: seq<RuleVal>) returns (stop: bool)
      requires Valid() && rulenr < |rules| && rules[rulenr] == r.Val() && RulesKnown(rules, devStates.Keys)
      modifies ruleState, devStates.Values
      ensures Valid()
      ensures stop ==> Snap() == TempScan(old(Snap()), rules, rulenr, now, temp, cfg.sprayerRule.delay)
      ensures !stop ==> TempScan(Snap(), rules, rulenr + 1, now, temp, cfg.sprayerRule.delay)
                        == TempScan(old(Snap()), rules, rulenr, now, temp, cfg.sprayerRule.delay)
    {
      stop := EvaluateRule(r, rulenr, now, temp);
      TempScanUnfold(old(Snap()), rules, rulenr, now, temp, cfg.sprayerRule.delay, Snap(), stop);
    }

    /** The body of the rule scan for the rule at position `rulenr`. */
    method EvaluateRule(r: TemperatureRule, rulenr: nat, now: Clock, temp: int) returns (stop: bool)
      requires Valid() && ActionsKnown(r.actions, devStates.Keys)
      modifies ruleState, devStates.Values
      ensures Valid() && (Snap(), stop) == RuleStep(old(Snap()), old(r.Val()), rulenr, now, temp, cfg.sprayerRule.delay)
    {
      stop := false;
      if r.Active(now) == 0 {
        stop := EvaluateInWindow(r, rulenr, now, temp);
      } else if EqualsIgnoreCase(r.active, "yes") {
        ReleaseRule(r, rulenr + 1);
      }
    }

    /** The rule scan's body for a rule inside its time window: the threshold decides. */
    method EvaluateInWindow(r: TemperatureRule, rulenr: nat, now: Clock, temp: int) returns (stop: bool)
      requires Valid() && ActionsKnown(r.actions, devStates.Keys) && r.Val().Active(now) == 0
      modifies ruleState, devStates.Values
      ensures Valid() && (Snap(), stop) == RuleStep(old(Snap()), old(r.Val()), rulenr, now, temp, cfg.sprayerRule.delay)
    {
      stop := false;
      if r.tempThreshold < 0 {
        stop := CheckThreshold(r, rulenr + 1, temp < -r.tempThreshold, now, temp);
      } else if r.tempThreshold > 0 {
        stop := CheckThreshold(r, rulenr + 1, temp > r.tempThreshold, now, temp);
      }
    }

    /**
     * The body shared by the too-cold and the too-hot branch: `crossed`
     * fires rule `nr` and stops the scan, an ideal temperature releases it.
     */
    method CheckThreshold(r: TemperatureRule, nr: int, crossed: bool, now: Clock, temp: int) returns (stop: bool)
      requires Valid() && ActionsKnown(r.actions, devStates.Keys) && nr > 0
      modifies ruleState, devStates.Values
      ensures Valid() && (Snap(), stop) == ThresholdStep(old(Snap()), old(r.Val()), nr, crossed, now, temp, cfg.sprayerRule.delay)
    {
      if crossed {
        FireRule(r, nr, now);
        return true;
      }
      if temp == r.tempIdeal {
        ReleaseRule(r, nr);
      }
      return false;
    }

    /**
     * `checkSprayerRule()`: while the sprayer rule is active, its actions
     * run when the delay ends exactly now; the rule state is reset once
     * every tracked device is off and no delay is pending.
     */
    method CheckSprayerRule(now: Clock)
      requires Valid() && ActionsKnown(cfg.sprayerRule.actions, devStates.Keys)
      modifies ruleState, devStates.Values
      ensures Valid() && Snap() == Engine.CheckSprayerRule(old(Snap()), cfg.sprayerRule, now)
    {
      if IsSprayerRuleActive() {
        if now.epochSecond == ruleState.delayed {
          RunSprayerActions(now);
        }
        ghost var s1 := Snap();
        assert s1 == if now.epochSecond == old(Snap()).rs.delayed then SprayerFire(old(Snap()), cfg.sprayerRule, now) else old(Snap());
        var n := CountUnfinished();
        if n == 0 {
          InitRules();
          assert Snap() == s1.(rs := Initial);
        }
      }
    }

    /** The end of the sprayer delay: every sprayer action runs and the delay is cleared. */
    method RunSprayerActions(now: Clock)
      requires Valid() && ActionsKnown(cfg.sprayerRule.actions, devStates.Keys)
      modifies ruleState, devStates.Values
      ensures Valid() && Snap() == SprayerFire(old(Snap()), cfg.sprayerRule, now)
    {
      SwitchActionsOn(cfg.sprayerRule.actions, CONTROLLED_BY_SPRAYER_RULE, false, now);
      SetDelayed(0);
    }

    /** The finishing count of `checkSprayerRule()`: tracked devices still on, or all of them while delayed. */
    method CountUnfinished() returns (n: int)
      requires Valid()
      ensures n == |Snap().rs.devices| - CountFinished(Snap(), Snap().rs.devices)
      ensures Snap() == old(Snap())
    {
      ghost var s := Snap();
      var ds := ruleState.devices;
      n := |ds|;
      for k := 0 to |ds|
        invariant n == |ds| - CountFinished(s, ds[..k])
      {
        CountFinishedStep(s, ds, k);
        if !IsDeviceOn(ds[k]) && ruleState.delayed == 0 {
          n := n - 1;
        }
      }
      assert ds[..|ds|] == ds;
    }

    // -------------------------------------------------------------------------
    // Configuration access

    /** `getDeviceIndex(device)`: a linear search for the first match. */
    method GetDeviceIndex(device: string) returns (ix: int)
      ensures ix == FirstMatch(cfg.deviceList, device)
    {
      ix := -1;
      var names := cfg.deviceList;
      var i := 0;
      while i < |names|
        invariant 0 <= i <= |names|
        invariant forall j :: 0 <= j < i ==> !EqualsIgnoreCase(names[j], device)
      {
        if EqualsIgnoreCase(names[i], device) {
          ix := i;
          break;
        }
        i := i + 1;
      }
    }

    /** `getTimersForDevice(device)`; `None` where the controller fails on an array index. */
    method GetTimersForDevice(device: string) returns (r: Option<seq<Option<Timer>>>)
      ensures r == TimersForDevice(cfg.deviceList, cfg.timersPerDevice, cfg.timers[..], device)
    {
      if device == "" {
        return Some(Slots(cfg.timers[..]));
      }
      var ix := GetDeviceIndex(device);
      if ix < 0 || ix >= |cfg.timersPerDevice| {
        return None;
      }
      var nr := cfg.timersPerDevice[ix];
      if nr < 0 {
        return None;
      }
      r := CollectSlots(cfg.timers, device, nr);
    }

    /** `replaceTimers(tmrs)`: every slot matching a new timer's device and index gets it. */
    method ReplaceTimers(tmrs: seq<Timer>)
      modifies cfg.timers
      ensures cfg.timers[..] == ReplaceAll(old(cfg.timers[..]), tmrs)
    {
      for k := 0 to |tmrs|
        invariant cfg.timers[..] == ReplaceAll(old(cfg.timers[..]), tmrs[..k])
      {
        assert tmrs[..k + 1][..k] == tmrs[..k];
        var tnew := tmrs[k];
        ghost var before := cfg.timers[..];
        for i := 0 to cfg.timers.Length
          invariant forall m :: 0 <= m < i ==> cfg.timers[m] == if SameSlot(before[m], tnew) then tnew else before[m]
          invariant forall m :: i <= m < cfg.timers.Length ==> cfg.timers[m] == before[m]
        {
          var told := cfg.timers[i];
          if EqualsIgnoreCase(told.device, tnew.device) && told.index == tnew.index {
            cfg.SetTimer(i, tnew);
          }
        }
        assert cfg.timers[..] == ReplaceOne(before, tnew);
      }
      assert tmrs[..|tmrs|] == tmrs;
    }

    /** `replaceRule(nr, rule)`: slot `nr - 1` only; the rules are not sorted again. */
    method ReplaceRule(nr: int, rule: TemperatureRule)
      requires 1 <= nr <= cfg.rules.Length
      modifies cfg.rules
      ensures cfg.rules[..] == old(cfg.rules[..])[nr - 1 := rule]
    {
      cfg.SetRule(nr - 1, rule);
    }
  }

  /**
   * `initDeviceState()`: one fresh device state per configured name, off
   * and free; a name listed twice keeps the state made last.
   */
  method InitDeviceStates(names: seq<string>) returns (m: map<string, DeviceState>)
    ensures forall n :: n in m <==> n in names
    ensures forall n :: n in m ==> fresh(m[n]) && m[n].Val() == DevVal(n, ENDTIME_OFF, 0, false, NOT_CONTROLLED)
    ensures forall a, b :: a in m && b in m && a != b ==> m[a] != m[b]
  {
    m := map[];
    for i := 0 to |names|
      invariant forall n :: n in m <==> n in names[..i]
      invariant forall n :: n in m ==> fresh(m[n]) && m[n].Val() == DevVal(n, ENDTIME_OFF, 0, false, NOT_CONTROLLED)
      invariant forall a, b :: a in m && b in m && a != b ==> m[a] != m[b]
    {
      var nm := names[i];
      var ds := new DeviceState(nm);
      m := m[nm := ds];
      assert names[..i + 1] == names[..i] + [nm];
    }
    assert names[..|names|] == names;
  }

  lemma TimersOfStep(ts: seq<Timer>, k: int, device: string)
    requires 0 <= k < |ts|
    ensures TimersOf(ts[..k + 1], device)
         == TimersOf(ts[..k], device) + (if EqualsIgnoreCase(ts[k].device, device) then [ts[k]] else [])
  {
    assert ts[..k + 1][..k] == ts[..k];
  }

  /** A prefix has no more timers of a device than the whole sequence. */
  lemma {:induction false} TimersOfMonotone(ts: seq<Timer>, k: int, device: string)
    requires 0 <= k <= |ts|
    ensures |TimersOf(ts[..k], device)| <= |TimersOf(ts, device)|
    decreases |ts|
  {
    if k < |ts| {
      var init := ts[..|ts| - 1];
      TimersOfMonotone(init, k, device);
      assert init[..k] == ts[..k];
    } else {
      assert ts[..k] == ts;
    }
  }
}
