/**
 * The controller configuration: the device list, the timers, the
 * temperature rules (kept in priority order, highest threshold first)
 * and the sprayer rule.
 */
module Config {
  import opened TemperatureRules

  /**
   * A daily timer for one device: either an on and an off time
   * (`period == 0`) or an on time and a period in seconds. A timer with
   * `repeat == 0` is inactive.
   */
  datatype Timer = Timer(device: string, index: int, hourOn: int, minuteOn: int,
                         hourOff: int, minuteOff: int, period: int, repeat: int)

  /** The follow-up rule run after the sprayer: a delay in minutes and up to four actions. */
  datatype SprayerRule = SprayerRule(delay: int, actions: seq<Action>)

  // ---------------------------------------------------------------------------
  // Priority order of the temperature rules

  /** Rules in non-increasing threshold order: the evaluation priority. */
  ghost predicate ByDescendingThreshold(s: seq<TemperatureRule>)
    reads s
  {
    forall i, j :: 0 <= i < j < |s| ==> s[i].tempThreshold >= s[j].tempThreshold
  }

  /** The rules of `s` whose threshold is `v`, in their order in `s`. */
  ghost function WithThreshold(s: seq<TemperatureRule>, v: int): seq<TemperatureRule>
    reads s
  {
    if s == [] then []
    else (if s[0].tempThreshold == v then [s[0]] else []) + WithThreshold(s[1..], v)
  }

  /**
   * `x` placed in front of the first rule whose threshold is not greater
   * than its own, so that it stays ahead of the rules it ties with.
   */
  function InsertByThreshold(x: TemperatureRule, s: seq<TemperatureRule>): (r: seq<TemperatureRule>)
    reads x, s
    ensures multiset(r) == multiset(s) + multiset{x}
    ensures forall i :: 0 <= i < |r| ==> r[i] in s || r[i] == x
    ensures |r| == |s| + 1
  {
    if s == [] || x.tempThreshold >= s[0].tempThreshold then [x] + s
    else
      assert s == [s[0]] + s[1..];
      [s[0]] + InsertByThreshold(x, s[1..])
  }

  /**
   * The order `Collections.sort` with the descending-threshold comparator
   * produces. That sort is stable; this definition is the stable
   * insertion sort, which yields the same sequence.
   */
  function SortByThreshold(s: seq<TemperatureRule>): (r: seq<TemperatureRule>)
    reads s
    ensures multiset(r) == multiset(s)
    ensures forall i :: 0 <= i < |r| ==> r[i] in s
    ensures |r| == |s|
  {
    if s == [] then []
    else
      assert s == [s[0]] + s[1..];
      InsertByThreshold(s[0], SortByThreshold(s[1..]))
  }

  /** A rule whose threshold bounds all of an ordered sequence may go in front of it. */
  lemma ConsKeepsOrder(y: TemperatureRule, t: seq<TemperatureRule>)
    requires ByDescendingThreshold(t)
    requires forall k :: 0 <= k < |t| ==> y.tempThreshold >= t[k].tempThreshold
    ensures ByDescendingThreshold([y] + t)
  {
    var r := [y] + t;
    forall i, j | 0 <= i < j < |r| ensures r[i].tempThreshold >= r[j].tempThreshold {
      assert r[j] == t[j - 1];
      if i > 0 {
        assert r[i] == t[i - 1];
      }
    }
  }

  lemma {:induction false} InsertKeepsOrder(x: TemperatureRule, s: seq<TemperatureRule>)
    requires ByDescendingThreshold(s)
    ensures ByDescendingThreshold(InsertByThreshold(x, s))
  {
    if s == [] || x.tempThreshold >= s[0].tempThreshold {
      ConsKeepsOrder(x, s);
    } else {
      InsertKeepsOrder(x, s[1..]);
      var t := InsertByThreshold(x, s[1..]);
      forall k | 0 <= k < |t| ensures s[0].tempThreshold >= t[k].tempThreshold {
        if t[k] != x {
          assert t[k] in s[1..];
          var m :| 1 <= m < |s| && s[m] == t[k];
        }
      }
      ConsKeepsOrder(s[0], t);
    }
  }

  lemma {:induction false} InsertWithThreshold(x: TemperatureRule, s: seq<TemperatureRule>, v: int)
    ensures WithThreshold(InsertByThreshold(x, s), v)
         == (if x.tempThreshold == v then [x] else []) + WithThreshold(s, v)
  {
    if s == [] || x.tempThreshold >= s[0].tempThreshold {
      assert ([x] + s)[1..] == s;
    } else {
      InsertWithThreshold(x, s[1..], v);
      assert ([s[0]] + InsertByThreshold(x, s[1..]))[1..] == InsertByThreshold(x, s[1..]);
    }
  }

  /** The sorted rules are in non-increasing threshold order. */
  lemma {:induction false} SortIsOrdered(s: seq<TemperatureRule>)
    ensures ByDescendingThreshold(SortByThreshold(s))
  {
    if s != [] {
      SortIsOrdered(s[1..]);
      InsertKeepsOrder(s[0], SortByThreshold(s[1..]));
    }
  }

  /** The sort is stable: rules with the same threshold keep their input order. */
  lemma {:induction false} SortIsStable(s: seq<TemperatureRule>, v: int)
    ensures WithThreshold(SortByThreshold(s), v) == WithThreshold(s, v)
  {
    if s != [] {
      SortIsStable(s[1..], v);
      InsertWithThreshold(s[0], SortByThreshold(s[1..]), v);
    }
  }

  // ---------------------------------------------------------------------------

  class TerrariumConfig {
    var deviceList: seq<string>
    var timersPerDevice: seq<int>
    var timers: array<Timer>
    var rules: array<TemperatureRule>
    var sprayerRule: SprayerRule

    constructor (deviceList: seq<string>, timersPerDevice: seq<int>, timers: array<Timer>,
                 rules: array<TemperatureRule>, sprayerRule: SprayerRule)
      ensures this.deviceList == deviceList && this.timersPerDevice == timersPerDevice
      ensures this.timers == timers && this.rules == rules && this.sprayerRule == sprayerRule
    {
      this.deviceList := deviceList;
      this.timersPerDevice := timersPerDevice;
      this.timers := timers;
      this.rules := rules;
      this.sprayerRule := sprayerRule;
    }

    /** The values of the rules, in their evaluation order. */
    ghost function RuleVals(): (vs: seq<RuleVal>)
      reads this, rules, rules[..]
      ensures |vs| == rules.Length
      ensures forall i :: 0 <= i < rules.Length ==> vs[i] == rules[i].Val()
    {
      seq(rules.Length, i reads this, rules, rules[..] requires 0 <= i < rules.Length => rules[i].Val())
    }

    /** `setTimer(ix, t)`: replaces slot `ix` only. */
    method SetTimer(ix: int, t: Timer)
      requires 0 <= ix < timers.Length
      modifies timers
      ensures timers[..] == old(timers[..])[ix := t]
    {
      timers[ix] := t;
    }

    /**
     * `setRules(rs)`: sorts `rs` in place (the list view shares its
     * array) by descending threshold and stores a new array holding the
     * same order.
     */
    method SetRules(rs: array<TemperatureRule>)
      modifies this, rs
      ensures rs[..] == old(SortByThreshold(rs[..]))
      ensures fresh(rules) && rules[..] == rs[..]
      ensures deviceList == old(deviceList) && timersPerDevice == old(timersPerDevice)
      ensures timers == old(timers) && sprayerRule == old(sprayerRule)
    {
      var sorted := SortByThreshold(rs[..]);
      forall i | 0 <= i < rs.Length {
        rs[i] := sorted[i];
      }
      assert rs[..] == sorted;
      var copy := new TemperatureRule[rs.Length](i reads rs requires 0 <= i < rs.Length => rs[i]);
      assert copy[..] == rs[..];
      rules := copy;
    }

    /** `setRule(ix, r)`: replaces slot `ix` only, without sorting again. */
    method SetRule(ix: int, r: TemperatureRule)
      requires 0 <= ix < rules.Length
      modifies rules
      ensures rules[..] == old(rules[..])[ix := r]
    {
      rules[ix] := r;
    }
  }
}
