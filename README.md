# Terrarium controller: device-ownership arbitration

This project models the arbitration core of a terrarium controller. The
controller switches twelve named devices: lights, a pump, a sprayer, a
mist maker and two fans. Four engines compete for those devices:

- fixed daily timers, run once per minute;
- up to five temperature rules, tried in priority order once per minute;
- the sprayer follow-up rule, run once per minute;
- an expiry sweep, run once per second, which switches off every device
  whose end time has passed.

Every device has a state. Its `onPeriod` is `0` for off, `-1` for on
indefinitely, `-2` for on until the ideal temperature is reached, and a
positive epoch second for an end time. Its `controlledBy` names the owner:
`1..5` is a temperature rule, `0` is free, `-1` is the sprayer rule, `-2` is
the mist rule and `-3` is a timer.

One global rule state records which rule is in charge, the delay timestamp
and the devices that rule has switched. All engines write through two
mutators. `setDeviceOn` starts the sprayer rule when the sprayer is switched
on with an end time by a timer or by nobody. `setDeviceOff` frees both fans
when the mist maker is switched off.

## How the model is laid out

- `common.dfy` (module `Common`): `Option`, the `Clock` value, and
  `equalsIgnoreCase` on ASCII text.
  - The `Clock` value holds the epoch second, the hour and the minute.
- `device_state.dfy` (`DeviceStates`): the owner and end-time codes, the
  `DeviceState` class with its setters, and the status texts.
- `rule_state.dfy` (`RuleStates`): the `RuleState` class, plus the list
  operations `Added` and `RemovedFirst` that its methods are proved against.
- `temperature_rule.dfy` (`TemperatureRules`): the window classifier
  `Classify` and the `TemperatureRule` class.
- `terrarium_config.dfy` (`Config`): the `TerrariumConfig` class and the
  record types `Timer` and `SprayerRule`.
  - It also holds the stable descending sort that `setRules` performs.
  - The sort is proved ordered, stable and a permutation.
- `engine.dfy` (`Engine`): the whole arbitration stated on values.
  - A `State` is the device table (a map from name to device value)
    together with the rule-state value.
  - `On` and `Off` are the two mutators. `Sweep`, `RunTimers`,
    `InitTimers`, `CheckTemperatureRules`, `CheckSprayerRule` and
    `DecreaseLifetimes` are the engines.
  - The lemmas state what each engine does and does not touch.
- `terrarium.dfy` (`Terrariums`): the `Terrarium` class itself.
  - It holds a map from names to `DeviceState` objects, a `RuleState`
    object and the configuration.
  - Its methods update those objects in place, with the same loops and
    branches as the controller.
  - Each method that changes the device table or the rule state is proved
    to leave `Snap()` equal to the corresponding `Engine` function of the
    state before the call. The lookups and the timer and rule replacements
    are proved against functions of this module: `GetDeviceIndex` against
    `FirstMatch`, `GetTimersForDevice` against `TimersForDevice`,
    `ReplaceTimers` against `ReplaceAll`, `ReplaceRule` against a one-slot
    update, and `CountUnfinished` against `Engine.CountFinished`.
  - `Snap()` is the value of the device table and the rule state.

The current time and the terrarium temperature are parameters. The time is
a `Clock`; the temperature is an integer.

These quirks of the controller are kept as they are:

- **Sprayer mode:** it is entered only for a positive end time.
- **Sprayer delay:** it ends only when the current second equals the delay
  timestamp exactly.
- **Ideal temperature:** the ideal-temperature branch of a rule in its
  window does not stop the scan.
- **Rule outside its window:** an enabled rule outside its window resets
  the rule state, even when it never fired.
- **`initTimers`:** it uses an inclusive `[on, off]` window.
- **`replaceRule`:** it does not sort the rules again.

## Model

All paths are below `src/main/java/nl/das/tcu/objects/`.

| member | source | states |
|---|---|---|
| Common.EqualsIgnoreCaseIsEquivalence | src/main/java/nl/das/tcu/objects/Terrarium.java:350 | Comparing names ignoring case is reflexive, symmetric and transitive. So timer slots matched by device name form consistent groups. |
| Common.NatToString | src/main/java/nl/das/tcu/objects/DeviceState.java:139 | Renders a natural number as a non-empty string of decimal digits, without a leading zero unless it is "0". The digits read back as the number (`DigitsValue`). |
| Common.IntToString | src/main/java/nl/das/tcu/objects/DeviceState.java:155 | Renders a signed number with a leading '-' exactly when it is negative. The digits after the sign read back as the number's magnitude (`DigitsValue`), with no leading zero unless the magnitude is the single digit 0. |
| DeviceStates.OwnerCodesDistinct | src/main/java/nl/das/tcu/objects/DeviceState.java:21-29 | The nine owner codes are pairwise distinct. A code counts as a temperature-rule owner (positive) exactly when it is one of 1..5. Every other owner code is at most 0. |
| DeviceStates.DeviceState.constructor | src/main/java/nl/das/tcu/objects/DeviceState.java:43-49 | A new device state has the given name, is off, has a zero lifetime counter, is not manual and is free. |
| DeviceStates.DeviceState.DecreaseLifetime | src/main/java/nl/das/tcu/objects/DeviceState.java:51-53 | The lifetime counter drops by exactly the given number of hours. No other field changes. |
| DeviceStates.DeviceState.SetLifetime | src/main/java/nl/das/tcu/objects/DeviceState.java:67-69 | Only the lifetime counter changes. |
| DeviceStates.DeviceState.SetOnPeriod | src/main/java/nl/das/tcu/objects/DeviceState.java:75-77 | Only the end time changes. |
| DeviceStates.DeviceState.SetManual | src/main/java/nl/das/tcu/objects/DeviceState.java:83-85 | Only the manual flag changes. |
| DeviceStates.DeviceState.SetControlledBy | src/main/java/nl/das/tcu/objects/DeviceState.java:92-94 | Only the owner changes. |
| DeviceStates.DeviceState.ToJson | src/main/java/nl/das/tcu/objects/DeviceState.java:96-106 | The status reports "off" exactly when the end time is 0, and "on" otherwise. It has an `end_time` field exactly when the device is on. |
| DeviceStates.ControlledByText | src/main/java/nl/das/tcu/objects/DeviceState.java:108-142 | Total over all codes. The timer, mist rule, sprayer rule and free codes get "Timer", "Mist Rule", "Sprayer Rule" and "free". A code n in 1..5 gets "Temp Rule " followed by the digit n, and only those codes get an 11-character "Temp Rule " label. A code outside -3..5 gets "Unknown code: " followed by its decimal rendering; a known code never gets that prefix. |
| DeviceStates.ControlledByTextInjective | src/main/java/nl/das/tcu/objects/DeviceState.java:108-142 | The nine known owner codes have nine different labels. |
| DeviceStates.EndtimeText | src/main/java/nl/das/tcu/objects/DeviceState.java:144-158 | -2, -1 and 0 map to their fixed texts. A positive end time is rendered as a time. Any other negative value is reported as an unknown end time, with the value. |
| RuleStates.Added | src/main/java/nl/das/tcu/objects/RuleState.java:51-55 | After adding d, the list holds d, and its members are the old members plus d. The old list is a prefix of the new one, which grows by at most one entry. A list without duplicates stays without duplicates. |
| RuleStates.AddedIdempotent | src/main/java/nl/das/tcu/objects/RuleState.java:51-55 | Adding the same device a second time leaves the list unchanged. |
| RuleStates.FirstIndex | src/main/java/nl/das/tcu/objects/RuleState.java:57-59 | The position of the first occurrence of a device in the list. |
| RuleStates.RemovedFirst | src/main/java/nl/das/tcu/objects/RuleState.java:57-59 | Removing an absent device changes nothing. Otherwise exactly the first occurrence is dropped, and the rest keep their order. |
| RuleStates.RuleState.constructor | src/main/java/nl/das/tcu/objects/RuleState.java:23-25 | A new rule state is the initial one: no rule, no delay, no devices. That is the state `reset()` produces. |
| RuleStates.RuleState.SetRulenr | src/main/java/nl/das/tcu/objects/RuleState.java:31-33 | Only the rule number changes. |
| RuleStates.RuleState.SetDelayed | src/main/java/nl/das/tcu/objects/RuleState.java:39-41 | Only the delay timestamp changes. |
| RuleStates.RuleState.AddDevice | src/main/java/nl/das/tcu/objects/RuleState.java:51-55 | The device list becomes `Added(old list, d)`. Rule number and delay are unchanged. |
| RuleStates.RuleState.RemoveDevice | src/main/java/nl/das/tcu/objects/RuleState.java:57-59 | The device list loses its first occurrence of d. Rule number and delay are unchanged. |
| RuleStates.RuleState.Reset | src/main/java/nl/das/tcu/objects/RuleState.java:61-65 | Rule number 0, delay 0, empty device list. |
| TemperatureRules.Classify | src/main/java/nl/das/tcu/objects/TemperatureRule.java:44-58 | The result is one of -2, -1, 0 and 1. It is 0 exactly when the flag is "yes" (ignoring case) and from <= now < to. Otherwise it is -1 exactly when now < from, and 1 exactly when now > to. It is -2 for everything else: now == to, or a disabled rule inside its window. |
| TemperatureRules.EmptyWindowNeverActive | src/main/java/nl/das/tcu/objects/TemperatureRule.java:47-48 | A window whose end is not after its start, such as one meant to run past midnight, is never active. |
| TemperatureRules.TemperatureRule.constructor | src/main/java/nl/das/tcu/objects/TemperatureRule.java:21-29 | The flag is stored as the text "yes" or "no", and it reads back as the boolean it was made from. The other fields are stored as given. |
| TemperatureRules.TemperatureRule.MakeActive | src/main/java/nl/das/tcu/objects/TemperatureRule.java:31-33 | The flag becomes "yes". Nothing else changes. |
| TemperatureRules.TemperatureRule.MakeInactive | src/main/java/nl/das/tcu/objects/TemperatureRule.java:36-38 | The flag becomes "no". Nothing else changes. |
| TemperatureRules.TemperatureRule.Active | src/main/java/nl/das/tcu/objects/TemperatureRule.java:44-58 | The object's `active(now)` is the value-level `Classify` of its fields at the minute of the day. |
| Config.InsertByThreshold | src/main/java/nl/das/tcu/objects/TerrariumConfig.java:56-80 | Inserting one rule adds exactly that rule. The result has the same multiset plus the rule, and is one longer. |
| Config.SortByThreshold | src/main/java/nl/das/tcu/objects/TerrariumConfig.java:54-82 | The sorted rules are a permutation of the input, with the same length. |
| Config.InsertKeepsOrder | src/main/java/nl/das/tcu/objects/TerrariumConfig.java:56-80 | Inserting a rule into rules in non-increasing threshold order keeps that order. |
| Config.SortIsOrdered | src/main/java/nl/das/tcu/objects/TerrariumConfig.java:56-81 | After sorting, the thresholds are non-increasing. |
| Config.SortIsStable | src/main/java/nl/das/tcu/objects/TerrariumConfig.java:56-80 | For every threshold value, the rules with that threshold keep their input order. |
| Config.TerrariumConfig.constructor | src/main/java/nl/das/tcu/objects/TerrariumConfig.java:23-27 | The configuration holds the given device list, timer counts, timers, rules and sprayer rule. |
| Config.TerrariumConfig.SetTimer | src/main/java/nl/das/tcu/objects/TerrariumConfig.java:48-50 | Slot ix gets the new timer. Every other timer is unchanged. |
| Config.TerrariumConfig.SetRules | src/main/java/nl/das/tcu/objects/TerrariumConfig.java:54-82 | The caller's array is reordered in place into the stable descending order. A fresh array with that same order becomes the rule list. The other fields are unchanged. |
| Config.TerrariumConfig.SetRule | src/main/java/nl/das/tcu/objects/TerrariumConfig.java:84-86 | Slot ix gets the new rule, with no re-sorting. Every other rule is unchanged. |
| Engine.Off | src/main/java/nl/das/tcu/objects/Terrarium.java:666-677 | The device is off and owned by the given owner. Switching the mist maker off also switches both fans off and frees them. No other device and nothing in the rule state changes. |
| Engine.On | src/main/java/nl/das/tcu/objects/Terrarium.java:633-660 | The device gets the end time and owner. If it is the sprayer, with end time > 0, switched by a timer or by nobody: the sprayer rule takes charge, the delay becomes now + delay*60, and both fans are off under the sprayer rule and tracked. In every other case the rule state and all other devices are untouched. |
| Engine.StartSprayer | src/main/java/nl/das/tcu/objects/Terrarium.java:646-653 | Starting the sprayer rule keeps the table well formed and keeps its set of devices. |
| Engine.StartSprayerEffect | src/main/java/nl/das/tcu/objects/Terrarium.java:646-653 | Starting the sprayer rule sets rule number -1 and the delay, and tracks both fans. Both fans are off under the sprayer rule. No other device changes. |
| Engine.Armed | src/main/java/nl/das/tcu/objects/Terrarium.java:646-648 | Recording the sprayer rule and its delay end leaves the table and the tracked list unchanged. |
| Engine.FanHeld | src/main/java/nl/das/tcu/objects/Terrarium.java:650-653 | Holding a fan keeps the table well formed and keeps its set of devices. |
| Engine.Tracked | src/main/java/nl/das/tcu/objects/Terrarium.java:651 | Tracking a device adds it to the rule's device list as `addDevice` does. The table is unchanged. |
| Engine.Sweep | src/main/java/nl/das/tcu/objects/Terrarium.java:726-738 | After the sweep no device has an end time in (0, now]. Every expired device is off and free. A device that had not expired is unchanged, unless it is a fan and some expired mist device cascaded into it. The rule state is unchanged. |
| Engine.SweepStep | src/main/java/nl/das/tcu/objects/Terrarium.java:727-736 | Visiting any further device, after any set of visited devices, is one switch-off step of the same closed form. So the sweep's result does not depend on the hash-map order. |
| Engine.TimerStep | src/main/java/nl/das/tcu/objects/Terrarium.java:381-413 | One timer keeps the table well formed and keeps its set of devices. Its case-by-case effect is `TimerStepEffect`. |
| Engine.OnOffTimerStep | src/main/java/nl/das/tcu/objects/Terrarium.java:383-402 | An on/off timer keeps the table well formed and keeps its set of devices. |
| Engine.TimerOn | src/main/java/nl/das/tcu/objects/Terrarium.java:392-396 | An on/off timer taking its device keeps the table well formed and keeps its set of devices. |
| Engine.PeriodTimerStep | src/main/java/nl/das/tcu/objects/Terrarium.java:403-411 | A period timer keeps the table well formed and keeps its set of devices. |
| Engine.TimerStepEffect | src/main/java/nl/das/tcu/objects/Terrarium.java:381-413 | The effect of one timer, case by case. See the notes below this table. |
| Engine.TimerOnEffect | src/main/java/nl/das/tcu/objects/Terrarium.java:392-396 | When an on/off timer takes its device, the device is on indefinitely under timer control and the rule state is untouched. For the mist maker both fans are off under the mist rule. No other device changes. |
| Engine.RunTimers | src/main/java/nl/das/tcu/objects/Terrarium.java:379-415 | Running all timers in configuration order keeps the table well formed and keeps its set of devices. |
| Engine.InitTimerStep | src/main/java/nl/das/tcu/objects/Terrarium.java:359-366 | One start-up timer keeps the table well formed. It keeps the set of devices and the rule state. |
| Engine.InitTimers | src/main/java/nl/das/tcu/objects/Terrarium.java:357-368 | Start-up timers never change the rule state. They keep the table well formed. |
| Engine.InitTimerStepAt | src/main/java/nl/das/tcu/objects/Terrarium.java:359-366 | One start-up timer changes only its own device, and only when its inclusive window holds the current minute. Then it turns the device on indefinitely under a timer, whoever owned it. |
| Engine.InitTimersEffect | src/main/java/nl/das/tcu/objects/Terrarium.java:357-368 | After start-up, a device that some active timer for it claims (the current minute is in the timer's inclusive window) is its old state with end time "indefinitely" and owner the timer, whoever owned it before. Every device no timer claims is exactly as it was. |
| Engine.ActionStep | src/main/java/nl/das/tcu/objects/Terrarium.java:450-457 | One action by a rule or the sprayer rule never changes the rule number or the delay. |
| Engine.RunActions | src/main/java/nl/das/tcu/objects/Terrarium.java:450-458 | A rule's actions never change the rule number or the delay, and keep the set of devices. |
| Engine.ActionStepEffect | src/main/java/nl/das/tcu/objects/Terrarium.java:451-456 | When an action acts, exactly its device gets the end time (now + p for p > 0, else p) and the owner, and is tracked. Otherwise nothing changes. |
| Engine.RuleActionsTouchOnlyFree | src/main/java/nl/das/tcu/objects/Terrarium.java:450-458 | A temperature rule's actions switch on exactly the free devices they name. Each such device gets the end time of the first action naming it (now + p for p > 0, else p) and the rule as owner, and is tracked. Every other device is unchanged, and nothing else is tracked. Rule number and delay are unchanged. |
| Engine.SprayerActionsClaimDevices | src/main/java/nl/das/tcu/objects/Terrarium.java:557-563 | Every device the sprayer actions name is on under the sprayer rule and tracked. It has the end time of the last action naming it; name, lifetime and manual flag are unchanged. Every other device is unchanged. Rule number and delay are unchanged. |
| Engine.ReleaseStep | src/main/java/nl/das/tcu/objects/Terrarium.java:474-479 | Releasing one action never touches the rule state. |
| Engine.Release | src/main/java/nl/das/tcu/objects/Terrarium.java:474-479 | Releasing a rule's actions never touches the rule state and keeps the set of devices. |
| Engine.ReleaseFreesRuleDevices | src/main/java/nl/das/tcu/objects/Terrarium.java:474-479 | Every action device that was on under the rule is off and free afterwards. Both fans are too when that device was a mist maker. Every other device is unchanged. No action device is still on under the rule. |
| Engine.ReleaseClosedForm | src/main/java/nl/das/tcu/objects/Terrarium.java:474-479 | The release loop over the actions reaches, for every device, the closed form: freed if the rule held it or it is a fan and the rule held a mist maker, unchanged otherwise. |
| Engine.ReleaseStepFrees | src/main/java/nl/das/tcu/objects/Terrarium.java:475-478 | A step on a device that is on under the rule switches it off and frees it, and for a mist maker frees both fans. All other devices are unchanged. Any other step changes nothing. |
| Engine.Fire | src/main/java/nl/das/tcu/objects/Terrarium.java:446-470 | The rule is in charge afterwards. With no pending delay, a positive rule delay starts at now + delay, and otherwise the delay stays 0. With a pending delay no action runs: the table and tracked list are unchanged, and the delay is cleared once now has reached it. |
| Engine.FireEffect | src/main/java/nl/das/tcu/objects/Terrarium.java:449-458 | With no pending delay, the firing rule switches on exactly the free devices its actions name, under the rule, with the end time of the first action naming each. Every other device is unchanged. |
| Engine.ReleaseAndReset | src/main/java/nl/das/tcu/objects/Terrarium.java:472-481 | Every device ends as `Released`: the action devices the rule holds (on and owned by it) are off and free, so are both fans when one of them is a mist device, and every other device is unchanged. The rule state is the initial one. |
| Engine.ThresholdStep | src/main/java/nl/das/tcu/objects/Terrarium.java:444-481 | The scan stops exactly when the threshold is crossed, and then the rule is in charge. Otherwise the rule state is unchanged or reset; `Engine.ThresholdStepEffect` says which. |
| Engine.ThresholdStepEffect | src/main/java/nl/das/tcu/objects/Terrarium.java:472-481 | With the threshold not crossed, an exactly ideal temperature frees the devices the rule holds (the `Released` form, with the mist cascade) and resets the rule state; any other temperature leaves the whole state unchanged. |
| Engine.RuleStep | src/main/java/nl/das/tcu/objects/Terrarium.java:441-536 | One rule stops the scan exactly when it is in its window and its threshold is crossed. Rule i+1 is then in charge. Any other rule leaves the rule state unchanged or resets it; `Engine.RuleStepLetsGo` and `Engine.RuleStepIdle` say which. |
| Engine.RuleStepLetsGo | src/main/java/nl/das/tcu/objects/Terrarium.java:472-536 | A rule in its window whose threshold is set but not crossed and whose temperature is exactly ideal, or an enabled ("yes") rule outside its window, does not stop the scan. It frees the action devices it holds, with the mist cascade (`Released`), and resets the rule state. |
| Engine.RuleStepIdle | src/main/java/nl/das/tcu/objects/Terrarium.java:441-536 | A rule that neither fires nor lets go leaves the whole state unchanged and does not stop the scan. |
| Engine.TempScan | src/main/java/nl/das/tcu/objects/Terrarium.java:439-538 | The scan keeps the table well formed and keeps its set of devices. |
| Engine.CheckTemperatureRules | src/main/java/nl/das/tcu/objects/Terrarium.java:435-539 | Nothing changes while the sprayer rule is active. Otherwise the result is the rule scan, whose steps are stated by `RuleStep`, `RuleStepLetsGo`, `RuleStepIdle`, `FirstFiringRuleWins` and `HigherThresholdWins`. |
| Engine.FirstFiringRuleWins | src/main/java/nl/das/tcu/objects/Terrarium.java:439-512 | If rule k is the first rule that fires, rule k+1 ends in charge. Replacing every rule after it changes nothing, because later rules are never looked at. |
| Engine.HigherThresholdWins | src/main/java/nl/das/tcu/objects/Terrarium.java:439-512 | The rules are in descending-threshold order. When two rules fire, the one with the lower threshold never ends in charge. |
| Engine.CountFinished | src/main/java/nl/das/tcu/objects/Terrarium.java:567-572 | The count of finished entries is at most the list length. |
| Engine.AllFinished | src/main/java/nl/das/tcu/objects/Terrarium.java:567-576 | The unfinished count is 0 exactly when every tracked device is off and no delay is pending. |
| Engine.AllFinishedMembers | src/main/java/nl/das/tcu/objects/Terrarium.java:566-576 | The unfinished count is 0 exactly when every device in the tracked list is off and no delay is pending. |
| Engine.SprayerFire | src/main/java/nl/das/tcu/objects/Terrarium.java:556-565 | The sprayer actions keep the table well formed and keep its set of devices. |
| Engine.CheckSprayerRule | src/main/java/nl/das/tcu/objects/Terrarium.java:553-578 | Nothing changes unless the sprayer rule is active. On a tick where the delay does not end exactly now, no device changes. The rule state is reset exactly when every tracked device is off and no delay is pending; otherwise it is unchanged. |
| Engine.SprayerDelayEnds | src/main/java/nl/das/tcu/objects/Terrarium.java:556-576 | When the delay ends exactly now, every configured sprayer action device is owned by the sprayer rule. The rule state is reset exactly when every tracked device is off. Otherwise the sprayer rule stays in charge with the delay cleared. |
| Engine.DecreaseLifetimes | src/main/java/nl/das/tcu/objects/Terrarium.java:691-698 | Lowering the lifetime counters changes neither the rule state nor the set of devices. |
| Engine.DecreaseLifetimesEffect | src/main/java/nl/das/tcu/objects/Terrarium.java:691-698 | Assume one registry entry per name. Then exactly the devices with a lifetime counter that are on lose h hours. No other field of any device changes. |
| Terrariums.FirstMatch | src/main/java/nl/das/tcu/objects/Terrarium.java:711-720 | The result is -1 exactly when no configured name equals the device, ignoring case. Otherwise it is the first position that matches. |
| Terrariums.TimersOf | src/main/java/nl/das/tcu/objects/Terrarium.java:336-341 | Every timer in the result belongs to the device (ignoring case) and is a configured timer. There are no more of them than there are timers. |
| Terrariums.MatchPositionsIncreasing | src/main/java/nl/das/tcu/objects/Terrarium.java:336-341 | The matching positions are in range and strictly increasing. A position is among them exactly when its timer belongs to the device. |
| Terrariums.TimersOfIsFilter | src/main/java/nl/das/tcu/objects/Terrarium.java:336-341 | The device's timers are, one for one and in order, the configured timers at the matching positions. |
| Terrariums.TimersOfComplete | src/main/java/nl/das/tcu/objects/Terrarium.java:336-341 | Every configured timer of the device is among its timers. |
| Terrariums.Slots | src/main/java/nl/das/tcu/objects/Terrarium.java:331 | Slot k holds timer k, for every k. |
| Terrariums.TimersForDevice | src/main/java/nl/das/tcu/objects/Terrarium.java:328-344 | The empty name yields every timer. For any other name, the device's timers fill its configured number of slots in order, and the rest of the slots are empty. The result is `None` exactly where the lookup would fail on an array index. |
| Terrariums.CollectSlots | src/main/java/nl/das/tcu/objects/Terrarium.java:333-341 | The slot-filling loop yields exactly the device's timers in order, padded with empty slots. It yields `None` when they do not fit. |
| Terrariums.ReplaceOne | src/main/java/nl/das/tcu/objects/Terrarium.java:348-353 | Every slot whose device (ignoring case) and index match the new timer gets it. Every other slot is unchanged. |
| Terrariums.ReplaceAll | src/main/java/nl/das/tcu/objects/Terrarium.java:346-355 | Replacing timers keeps the number of timer slots. |
| Terrariums.ReplaceAllEffect | src/main/java/nl/das/tcu/objects/Terrarium.java:346-355 | A slot no new timer matches is unchanged. A slot always holds a timer for its own device and index. A slot that some new timer matches holds the last new timer that matches it. |
| Terrariums.ReplaceAllSameSlot | src/main/java/nl/das/tcu/objects/Terrarium.java:346-355 | A slot always holds a timer for its own device (ignoring case) and index. |
| Terrariums.ReplaceAllUnmatched | src/main/java/nl/das/tcu/objects/Terrarium.java:346-355 | A slot that no new timer matches is unchanged. |
| Terrariums.ReplaceAllLastMatch | src/main/java/nl/das/tcu/objects/Terrarium.java:346-355 | A matched slot holds the last new timer that matches it. |
| Terrariums.InitDeviceStates | src/main/java/nl/das/tcu/objects/Terrarium.java:586-593 | There is one fresh, distinct device state per configured name, off and free. |
| Terrariums.Terrarium.constructor | src/main/java/nl/das/tcu/objects/Terrarium.java:586-593 | The controller starts with every configured device off, free, not manual and at lifetime 0. The rule state is the initial one. |
| Terrariums.Terrarium.IsDeviceOn | src/main/java/nl/das/tcu/objects/Terrarium.java:624-626 | A device is on exactly when its end time is not 0. |
| Terrariums.Terrarium.IsSprayerRuleActive | src/main/java/nl/das/tcu/objects/Terrarium.java:580-582 | True exactly when the sprayer rule (-1) is in charge. |
| Terrariums.Terrarium.InitRules | src/main/java/nl/das/tcu/objects/Terrarium.java:427-429 | The rule state is reset. The devices are untouched. |
| Terrariums.Terrarium.SetDeviceOff | src/main/java/nl/das/tcu/objects/Terrarium.java:666-677 | The new state is `Off` of the old one, mist cascade included. |
| Terrariums.Terrarium.SetDeviceOn | src/main/java/nl/das/tcu/objects/Terrarium.java:633-660 | The new state is `On` of the old one, start of the sprayer rule included. |
| Terrariums.Terrarium.StartSprayerRule | src/main/java/nl/das/tcu/objects/Terrarium.java:646-653 | The new state is `StartSprayer` of the old one. |
| Terrariums.Terrarium.HoldFan | src/main/java/nl/das/tcu/objects/Terrarium.java:650-651 | One fan is off under the sprayer rule and tracked. |
| Terrariums.Terrarium.Track | src/main/java/nl/das/tcu/objects/Terrarium.java:651 | `ruleState.addDevice`: the device is added to the tracked list, and the table is unchanged. |
| Terrariums.Terrarium.SetDeviceManualOn | src/main/java/nl/das/tcu/objects/Terrarium.java:679-681 | Only that device's manual flag changes, to true. |
| Terrariums.Terrarium.SetDeviceManualOff | src/main/java/nl/das/tcu/objects/Terrarium.java:683-685 | Only that device's manual flag changes, to false. |
| Terrariums.Terrarium.DecreaseLifetime | src/main/java/nl/das/tcu/objects/Terrarium.java:691-698 | The new state is `DecreaseLifetimes` of the old one. |
| Terrariums.Terrarium.DecreaseLifetimeOf | src/main/java/nl/das/tcu/objects/Terrarium.java:694 | Only that device's lifetime counter changes, by exactly the given hours. |
| Terrariums.Terrarium.CheckDevices | src/main/java/nl/das/tcu/objects/Terrarium.java:726-738 | Keys are visited in any order, and the new state is `Sweep` of the old one. |
| Terrariums.Terrarium.CheckDevice | src/main/java/nl/das/tcu/objects/Terrarium.java:728-735 | One device is switched off and freed if its positive end time has passed. Otherwise nothing changes. |
| Terrariums.Terrarium.CheckTimer | src/main/java/nl/das/tcu/objects/Terrarium.java:382-412 | The new state is `TimerStep` of the old one. |
| Terrariums.Terrarium.CheckPeriodTimer | src/main/java/nl/das/tcu/objects/Terrarium.java:403-411 | The new state is `PeriodTimerStep` of the old one. |
| Terrariums.Terrarium.CheckOnOffTimer | src/main/java/nl/das/tcu/objects/Terrarium.java:383-402 | The new state is `OnOffTimerStep` of the old one. |
| Terrariums.Terrarium.TimerTakesDevice | src/main/java/nl/das/tcu/objects/Terrarium.java:392-396 | The new state is `TimerOn` of the old one. |
| Terrariums.Terrarium.CheckTimers | src/main/java/nl/das/tcu/objects/Terrarium.java:379-415 | The new state is `RunTimers` over the configured timers, in order. |
| Terrariums.Terrarium.InitTimers | src/main/java/nl/das/tcu/objects/Terrarium.java:357-368 | The new state is `Engine.InitTimers` over the configured timers. |
| Terrariums.Terrarium.InitTimer | src/main/java/nl/das/tcu/objects/Terrarium.java:359-366 | The new state is `InitTimerStep` of the old one. |
| Terrariums.Terrarium.SwitchActionsOn | src/main/java/nl/das/tcu/objects/Terrarium.java:450-458 | The new state is `RunActions` over the action list. |
| Terrariums.Terrarium.ActionOn | src/main/java/nl/das/tcu/objects/Terrarium.java:451-456 | The new state is `ActionStep` of the old one. |
| Terrariums.Terrarium.ReleaseActions | src/main/java/nl/das/tcu/objects/Terrarium.java:474-479 | The new state is `Release` over the action list. |
| Terrariums.Terrarium.FireRule | src/main/java/nl/das/tcu/objects/Terrarium.java:446-470 | The new state is `Fire` of the old one. |
| Terrariums.Terrarium.ReleaseRule | src/main/java/nl/das/tcu/objects/Terrarium.java:472-481 | The new state is `ReleaseAndReset` of the old one. |
| Terrariums.Terrarium.CheckTemperatureRules | src/main/java/nl/das/tcu/objects/Terrarium.java:435-539 | The new state is `Engine.CheckTemperatureRules` over the configured rules, in array order. |
| Terrariums.Terrarium.ScanRules | src/main/java/nl/das/tcu/objects/Terrarium.java:439-538 | The rule loop, with its `break`, reaches `TempScan` from position 0. |
| Terrariums.Terrarium.EvaluateRule | src/main/java/nl/das/tcu/objects/Terrarium.java:441-536 | The new state and the stop flag are `RuleStep` of the old state. |
| Terrariums.Terrarium.EvaluateInWindow | src/main/java/nl/das/tcu/objects/Terrarium.java:441-524 | For a rule inside its window, the new state and the stop flag are `RuleStep` of the old state. |
| Terrariums.Terrarium.CheckThreshold | src/main/java/nl/das/tcu/objects/Terrarium.java:444-481 | The new state and the stop flag are `ThresholdStep` of the old state. |
| Terrariums.Terrarium.CheckSprayerRule | src/main/java/nl/das/tcu/objects/Terrarium.java:553-578 | The new state is `Engine.CheckSprayerRule` of the old one. |
| Terrariums.Terrarium.RunSprayerActions | src/main/java/nl/das/tcu/objects/Terrarium.java:556-565 | The new state is `SprayerFire` of the old one. |
| Terrariums.Terrarium.CountUnfinished | src/main/java/nl/das/tcu/objects/Terrarium.java:567-572 | The counting loop yields the number of tracked entries minus the finished ones, and changes nothing. |
| Terrariums.Terrarium.GetDeviceIndex | src/main/java/nl/das/tcu/objects/Terrarium.java:711-720 | The linear search with `break` yields `FirstMatch`. |
| Terrariums.Terrarium.GetTimersForDevice | src/main/java/nl/das/tcu/objects/Terrarium.java:328-344 | Yields `TimersForDevice` of the configuration. |
| Terrariums.Terrarium.ReplaceTimers | src/main/java/nl/das/tcu/objects/Terrarium.java:346-355 | The nested loops leave the timer array equal to `ReplaceAll` of the old timers. |
| Terrariums.Terrarium.ReplaceRule | src/main/java/nl/das/tcu/objects/Terrarium.java:423-425 | Only slot nr-1 is replaced, and the rules are not sorted again. |

`Engine.TimerStepEffect` states the effect of one timer in these cases:

- An inactive timer changes nothing.
- An on/off timer at its on-minute takes its device only when the device is
  free or owned by a temperature rule.
  - It sets the device on indefinitely under a timer.
  - For the mist maker, both fans are off under the mist rule.
  - The rule state is untouched.
  - A device owned by the sprayer rule, the mist rule or a timer is left
    alone.
- At a non-zero off-minute the timer frees its device only when the device
  is on and owned by a timer.
- A period timer at its on-minute takes only a device that is off and free,
  until now + period.

`Terrariums.Terrarium.Valid` holds before and after every method. It says
that each device name has its own state object, every entry is stored under
its own name, both fans exist, and the rule tracks only known devices.

## Left out

- GPIO actuation. The `Device.switchOn`/`switchOff` calls and the pin map
  drive hardware, so the model keeps only the device-state table.
- Tracing, lifecycle files and settings files. `traceState`, `setTrace`,
  `saveLifecycleCounters`, `updateLifecycle` and `saveSettings` are side
  effects on files. `decreaseLifetime` keeps only the in-memory decrement.
- JSON through the binding library: `getInstance(json)`, `getState` and
  `getProperties`. They serialise through a library that is not part of
  this model.
  - `DeviceStates.DeviceState.ToJson` gives the ordered list of fields and
    values, not the formatted text.
  - The end-time formatter is a parameter of `ToJson`.
- Sensors. The terrarium temperature is an integer parameter of
  `CheckTemperatureRules`.
- The real-time clock. The current time is a `Clock` parameter: the epoch
  second, the hour and the minute.
  - The epoch conversion and the time-string helpers are not part of this
    model.
  - A rule's `from` and `to` are stored as minutes of the day.
  - A positive end time is rendered by a formatter parameter.
- The singleton and the static fields. One `Terrarium` object owns the
  device table, the rule state and the configuration.
  - `NR_OF_DEVICES` is the length of the device list.
  - `init()`, `getRule`, `setSprayerRule` and the plain getters and setters
    only move values around.
- Integer widths. Java's `int` and `long`, and the overflow of
  `delay * 60`, are modelled as unbounded integers.
- Null rules. A null rule is treated as "equal" by the comparator, and a
  null rule in the array would make the scan throw. The model has no null
  rules.
- `equalsIgnoreCase` is modelled for ASCII letters only.
- The reference comparison `device == ""` in `getTimersForDevice` is
  modelled as value equality.
- Exceptions. Where the controller would throw for a name that is not in
  the device table, the model requires the name to be there instead. These
  are the lines starting with member names below. The one exception is
  `getTimersForDevice`, which returns `None` in those cases.
- Terrariums.Terrarium.constructor: requires `fan_in` and `fan_out` among
  the configured names, so that the mist and sprayer cascades always find
  them. The controller's own device list always has both.
- Terrariums.Terrarium.ReplaceRule: requires 1 <= nr <= the number of
  rules, where the controller would throw an array-index exception.
- Terrariums.Terrarium.SetDeviceOn: requires the device to be in the table,
  where the controller would fail on the missing (null) entry.
- Terrariums.Terrarium.SetDeviceOff: requires the device to be in the
  table, for the same reason.
- Terrariums.Terrarium.IsDeviceOn: requires the device to be in the table,
  for the same reason.
- Terrariums.Terrarium.SetDeviceManualOn: requires the device to be in the
  table, for the same reason.
- Terrariums.Terrarium.SetDeviceManualOff: requires the device to be in the
  table, for the same reason.
- Terrariums.Terrarium.CheckTimers: requires every active timer's device to
  be in the table.
- Terrariums.Terrarium.InitTimers: requires every active timer's device to
  be in the table.
- Terrariums.Terrarium.CheckTemperatureRules: requires every action device
  of every rule, other than "no device", to be in the table.
- Terrariums.Terrarium.CheckSprayerRule: requires every sprayer action
  device, other than "no device", to be in the table.
- Terrariums.Terrarium.DecreaseLifetime: requires every counted device to
  be in the table.
- Terrariums.Terrarium.CheckDevice: `Math.abs` of the end time is the end
  time itself, because the branch is taken only for a positive end time.
- Terrariums.Terrarium.CheckDevices: the hash-map iteration order is
  modelled as an arbitrary choice of the next key. `Engine.SweepStep`
  proves that the result is the same for every order.
- Engine.CheckTemperatureRules: its contract states only the sprayer-rule
  guard. The first-match and priority behaviour is stated by
  `Engine.FirstFiringRuleWins` and `Engine.HigherThresholdWins`. What each
  rule that does not fire does is stated per step: `Engine.RuleStepLetsGo`
  covers the release and reset, and `Engine.RuleStepIdle` covers the case
  that changes nothing.
- `Sensors`, the test classes, and the classes whose source is not shown
  (`Timer`, `Action`, `SprayerRule`, `Device`, `Util`) are not part of this
  model. The first four are records with the fields their uses reveal.
