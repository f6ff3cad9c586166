/**
 * A temperature rule: an enable flag, a minute-of-day window, an ideal
 * temperature, a threshold (negative: "too cold" below minus the
 * threshold; positive: "too hot" above it), a delay in seconds and up to
 * five device actions.
 */
module TemperatureRules {
  import opened Common

  /** One device action: the device name and its on period in seconds (or -1/-2). */
  datatype Action = Action(device: string, onPeriod: int)

  /** The flag value that enables a rule, compared ignoring case. */
  predicate IsYes(flag: string) { EqualsIgnoreCase(flag, "yes") }

  /**
   * Where `nowMinutes` lies relative to a rule's `[from, to)` window:
   * 0 when the rule is enabled and inside it, otherwise -1 before `from`,
   * 1 after `to`, and -2 for everything else (exactly at `to`, or a
   * disabled rule inside its window).
   */
  function Classify(flag: string, from: int, to: int, nowMinutes: int): (r: int)
    ensures r == 0 || r == -1 || r == 1 || r == -2
    ensures r == 0 <==> IsYes(flag) && from <= nowMinutes < to
    ensures r == -1 <==> !(IsYes(flag) && from <= nowMinutes < to) && nowMinutes < from
    ensures r == 1 <==> from <= nowMinutes && nowMinutes > to
    ensures r == -2 <==> from <= nowMinutes <= to && !(IsYes(flag) && nowMinutes < to)
  {
    if IsYes(flag) && nowMinutes >= from && nowMinutes < to then 0
    else if nowMinutes < from then -1
    else if nowMinutes > to then 1
    else -2
  }

  /**
   * A window whose end is not after its start (one meant to wrap past
   * midnight, say) never classifies as active.
   */
  lemma EmptyWindowNeverActive(flag: string, from: int, to: int, nowMinutes: int)
    requires to <= from
    ensures Classify(flag, from, to, nowMinutes) != 0
  {
  }

  /** The value of a rule, as the temperature engine reads it. */
  datatype RuleVal = RuleVal(active: string, from: int, to: int, tempIdeal: int,
                             tempThreshold: int, delay: int, actions: seq<Action>)
  {
    function Active(now: Clock): int
    {
      Classify(active, from, to, now.MinuteOfDay())
    }
  }

  class TemperatureRule {
    var active: string
    var from: int          // minute of the day
    var to: int            // minute of the day
    var tempIdeal: int
    var tempThreshold: int
    var delay: int         // seconds
    var actions: seq<Action>

    function Val(): RuleVal
      reads this
    {
      RuleVal(active, from, to, tempIdeal, tempThreshold, delay, actions)
    }

    /** The boolean flag is stored as the text "yes" or "no". */
    constructor (active: bool, from: int, to: int, tempIdeal: int, tempThreshold: int, delay: int, actions: seq<Action>)
      ensures Val() == RuleVal(if active then "yes" else "no", from, to, tempIdeal, tempThreshold, delay, actions)
      ensures IsYes(this.active) == active
    {
      this.active := if active then "yes" else "no";
      this.from := from;
      this.to := to;
      this.tempIdeal := tempIdeal;
      this.tempThreshold := tempThreshold;
      this.delay := delay;
      this.actions := actions;
    }

    method MakeActive()
      modifies this
      ensures Val() == old(Val()).(active := "yes")
    {
      active := "yes";
    }

    method MakeInactive()
      modifies this
      ensures Val() == old(Val()).(active := "no")
    {
      active := "no";
    }

    /** `active(now)`: the window classification at the current hour and minute. */
    function Active(now: Clock): (r: int)
      reads this
      ensures r == Val().Active(now)
    {
      Classify(active, from, to, now.hour * 60 + now.minute)
    }
  }
}
