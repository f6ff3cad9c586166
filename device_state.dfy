/**
 * The per-device state record: how long a device stays on (`onPeriod`),
 * who currently owns it (`controlledBy`), the manual pin flag and the
 * lamp/pump lifetime counter, together with the owner and end-time
 * codes and their display texts.
 */
module DeviceStates {
  import opened Common

  // Owner codes (`controlledBy`).
  const CONTROLLED_BY_TEMPRULE_1: int := 1
  const CONTROLLED_BY_TEMPRULE_2: int := 2
  const CONTROLLED_BY_TEMPRULE_3: int := 3
  const CONTROLLED_BY_TEMPRULE_4: int := 4
  const CONTROLLED_BY_TEMPRULE_5: int := 5
  const NOT_CONTROLLED: int := 0
  const CONTROLLED_BY_SPRAYER_RULE: int := -1
  const CONTROLLED_BY_MIST_RULE: int := -2
  const CONTROLLED_BY_TIMER: int := -3

  // End-time codes (`onPeriod`); a positive value is an epoch second.
  const ENDTIME_UNTIL_IDEAL: int := -2
  const ENDTIME_INDEFINITE: int := -1
  const ENDTIME_OFF: int := 0

  /** The owner codes of the nine known owners. */
  const OwnerCodes: seq<int> := [
    CONTROLLED_BY_TEMPRULE_1, CONTROLLED_BY_TEMPRULE_2, CONTROLLED_BY_TEMPRULE_3,
    CONTROLLED_BY_TEMPRULE_4, CONTROLLED_BY_TEMPRULE_5, NOT_CONTROLLED,
    CONTROLLED_BY_SPRAYER_RULE, CONTROLLED_BY_MIST_RULE, CONTROLLED_BY_TIMER]

  /** A temperature rule owns a device exactly when the code is its rule number 1..5. */
  predicate IsTemperatureRuleOwner(code: int) { code > 0 }

  /**
   * The owner codes are pairwise distinct, the temperature-rule codes are
   * exactly 1..5 and every other owner code is at most 0.
   */
  lemma {:induction false} OwnerCodesDistinct()
    ensures forall i, j :: 0 <= i < j < |OwnerCodes| ==> OwnerCodes[i] != OwnerCodes[j]
    ensures forall i :: 0 <= i < |OwnerCodes| ==>
      (IsTemperatureRuleOwner(OwnerCodes[i]) <==> 1 <= OwnerCodes[i] <= 5)
    ensures forall i :: 5 <= i < |OwnerCodes| ==> OwnerCodes[i] <= 0
  {
  }

  /** The value of one device's state, as seen by the engines. */
  datatype DevVal = DevVal(name: string, onPeriod: int, lifetime: int, manual: bool, controlledBy: int)
  {
    /** A device is on exactly when its end time is not `ENDTIME_OFF`. */
    predicate IsOn() { onPeriod != ENDTIME_OFF }
  }

  class DeviceState {
    var name: string
    var onPeriod: int      // 0 off, -1 indefinite, -2 until ideal, > 0 end time in epoch seconds
    var lifetime: int      // in hours
    var manual: bool
    var controlledBy: int  // 1..5 temperature rule, 0 free, -1 sprayer rule, -2 mist rule, -3 timer

    function Val(): DevVal
      reads this
    {
      DevVal(name, onPeriod, lifetime, manual, controlledBy)
    }

    /** A fresh state is off, free, not manual and has a zero lifetime counter. */
    constructor (name: string)
      ensures Val() == DevVal(name, ENDTIME_OFF, 0, false, NOT_CONTROLLED)
    {
      this.name := name;
      this.onPeriod := 0;
      this.lifetime := 0;
      this.manual := false;
      this.controlledBy := NOT_CONTROLLED;
    }

    method DecreaseLifetime(nrOfHours: int)
      modifies this
      ensures Val() == old(Val()).(lifetime := old(lifetime) - nrOfHours)
    {
      lifetime := lifetime - nrOfHours;
    }

    method SetLifetime(lifetime: int)
      modifies this
      ensures Val() == old(Val()).(lifetime := lifetime)
    {
      this.lifetime := lifetime;
    }

    method SetOnPeriod(onPeriod: int)
      modifies this
      ensures Val() == old(Val()).(onPeriod := onPeriod)
    {
      this.onPeriod := onPeriod;
    }

    method SetManual(manual: bool)
      modifies this
      ensures Val() == old(Val()).(manual := manual)
    {
      this.manual := manual;
    }

    method SetControlledBy(controlledBy: int)
      modifies this
      ensures Val() == old(Val()).(controlledBy := controlledBy)
    {
      this.controlledBy := controlledBy;
    }

    /**
     * The fields of the status object, in order. `endtimeText` renders a
     * positive end time (the time formatter is not part of this model).
     */
    function ToJson(endtimeText: int -> string): (fields: seq<(string, string)>)
      reads this
      ensures (exists i :: 0 <= i < |fields| && fields[i].0 == "end_time") <==> onPeriod != ENDTIME_OFF
      ensures |fields| >= 2 && fields[1].0 == "state"
      ensures fields[1].1 == "off" <==> onPeriod == ENDTIME_OFF
      ensures fields[1].1 == "on" <==> onPeriod != ENDTIME_OFF
    {
      var owner := ControlledByText(controlledBy);
      var hours := IntToString(lifetime);
      var manualText := if manual then "yes" else "no";
      if onPeriod == 0 then OffFields(name, owner, hours, manualText)
      else OnFields(name, owner, EndtimeText(onPeriod, endtimeText), hours, manualText)
    }
  }

  /** The status fields of a device that is off: there is no "end_time" field. */
  function OffFields(name: string, owner: string, hours: string, manualText: string): (fields: seq<(string, string)>)
    ensures |fields| >= 2 && fields[1] == ("state", "off")
    ensures forall i :: 0 <= i < |fields| ==> fields[i].0 != "end_time"
  {
    var fields := [("device", name), ("state", "off"), ("controlledby", owner), ("hours_on", hours), ("manual", manualText)];
    assert fields[0].0 != "end_time" && fields[1].0 != "end_time" && fields[2].0 != "end_time";
    assert fields[3].0 != "end_time" && fields[4].0 != "end_time";
    fields
  }

  /** The status fields of a device that is on, with its "end_time" field. */
  function OnFields(name: string, owner: string, endtime: string, hours: string, manualText: string): (fields: seq<(string, string)>)
    ensures |fields| >= 4 && fields[1] == ("state", "on") && fields[3].0 == "end_time"
  {
    [("device", name), ("state", "on"), ("controlledby", owner), ("end_time", endtime), ("hours_on", hours), ("manual", manualText)]
  }

  const UnknownCodePrefix: string := "Unknown code: "

  /**
   * The label of an owner code. Total: every code outside -3..5 is
   * reported as unknown, followed by the code itself.
   */
  function ControlledByText(code: int): (text: string)
    ensures -3 <= code <= 5 <==> !(|text| >= |UnknownCodePrefix| && text[..|UnknownCodePrefix|] == UnknownCodePrefix)
    ensures !(-3 <= code <= 5) ==> text[|UnknownCodePrefix|..] == IntToString(code)
    ensures IsTemperatureRuleOwner(code) && code <= 5 <==> |text| == 11 && text[..10] == "Temp Rule "
    ensures code == CONTROLLED_BY_TIMER ==> text == "Timer"
    ensures code == CONTROLLED_BY_MIST_RULE ==> text == "Mist Rule"
    ensures code == CONTROLLED_BY_SPRAYER_RULE ==> text == "Sprayer Rule"
    ensures code == NOT_CONTROLLED ==> text == "free"
    ensures 1 <= code <= 5 ==> text == "Temp Rule " + [DigitChar(code)]
  {
    if code == CONTROLLED_BY_TIMER then "Timer"
    else if code == CONTROLLED_BY_MIST_RULE then "Mist Rule"
    else if code == CONTROLLED_BY_SPRAYER_RULE then "Sprayer Rule"
    else if code == NOT_CONTROLLED then "free"
    else if code == CONTROLLED_BY_TEMPRULE_1 then "Temp Rule 1"
    else if code == CONTROLLED_BY_TEMPRULE_2 then "Temp Rule 2"
    else if code == CONTROLLED_BY_TEMPRULE_3 then "Temp Rule 3"
    else if code == CONTROLLED_BY_TEMPRULE_4 then "Temp Rule 4"
    else if code == CONTROLLED_BY_TEMPRULE_5 then "Temp Rule 5"
    else UnknownCodePrefix + IntToString(code)
  }

  /** The nine known owner codes have nine different labels. */
  lemma ControlledByTextInjective(c1: int, c2: int)
    requires -3 <= c1 <= 5 && -3 <= c2 <= 5 && c1 != c2
    ensures ControlledByText(c1) != ControlledByText(c2)
  {
  }

  /**
   * The text of an end time: the three special codes have fixed texts,
   * a positive end time is rendered by `formatTime`, and any other
   * negative value is reported as unknown.
   */
  function EndtimeText(endtime: int, formatTime: int -> string): (text: string)
    ensures endtime == ENDTIME_UNTIL_IDEAL ==> text == "until Ideal Temperature is reached"
    ensures endtime == ENDTIME_INDEFINITE ==> text == "indefinitely"
    ensures endtime == ENDTIME_OFF ==> text == "off"
    ensures endtime > 0 ==> text == formatTime(endtime)
    ensures endtime < -2 ==> text == "Unknown endtime: " + IntToString(endtime)
  {
    if endtime == ENDTIME_UNTIL_IDEAL then "until Ideal Temperature is reached"
    else if endtime == ENDTIME_INDEFINITE then "indefinitely"
    else if endtime == ENDTIME_OFF then "off"
    else if endtime > 0 then formatTime(endtime)
    else "Unknown endtime: " + IntToString(endtime)
  }
}
