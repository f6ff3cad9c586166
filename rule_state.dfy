/**
 * The global rule state: which rule is in charge (0 none, 1..5 a
 * temperature rule, -1 the sprayer rule), the epoch second until which
 * that rule is delayed (0 for none) and the devices it has switched.
 */
module RuleStates {

  const SPRAYER_RULENR: int := -1

  datatype RuleStateVal = RuleStateVal(rulenr: int, delayed: int, devices: seq<string>)

  /** The state of a new rule state, and of one that has just been reset. */
  const Initial: RuleStateVal := RuleStateVal(0, 0, [])

  predicate NoDuplicates(ds: seq<string>)
  {
    forall i, j :: 0 <= i < j < |ds| ==> ds[i] != ds[j]
  }

  /** The device list after `addDevice(d)`: `d` is appended unless it is already tracked. */
  function Added(ds: seq<string>, d: string): (r: seq<string>)
    ensures d in r
    ensures forall x :: x in r <==> x in ds || x == d
    ensures |ds| <= |r| <= |ds| + 1 && r[..|ds|] == ds
    ensures NoDuplicates(ds) ==> NoDuplicates(r)
  {
    if d in ds then ds else ds + [d]
  }

  /** Adding a device that is already tracked changes nothing. */
  lemma AddedIdempotent(ds: seq<string>, d: string)
    ensures Added(Added(ds, d), d) == Added(ds, d)
  {
  }

  /** The position of the first occurrence of `d` in `ds`. */
  function FirstIndex(ds: seq<string>, d: string): (i: nat)
    requires d in ds
    ensures i < |ds| && ds[i] == d && d !in ds[..i]
  {
    if ds[0] == d then 0 else 1 + FirstIndex(ds[1..], d)
  }

  /**
   * The device list after `removeDevice(d)`: the first occurrence of `d`,
   * if any, is dropped and the others keep their order.
   */
  function RemovedFirst(ds: seq<string>, d: string): (r: seq<string>)
    ensures d !in ds ==> r == ds
    ensures d in ds ==> r == ds[..FirstIndex(ds, d)] + ds[FirstIndex(ds, d) + 1..]
  {
    if ds == [] then []
    else if ds[0] == d then
      ds[1..]
    else
      var t := ds[1..];
      if d in t then
        var k := FirstIndex(t, d);
        assert FirstIndex(ds, d) == k + 1;
        assert ds[..k + 1] == [ds[0]] + t[..k];
        assert ds[k + 2..] == t[k + 1..];
        [ds[0]] + RemovedFirst(t, d)
      else
        assert ds == [ds[0]] + t;
        [ds[0]] + RemovedFirst(t, d)
  }

  class RuleState {
    var rulenr: int
    var delayed: int
    var devices: seq<string>

    function Val(): RuleStateVal
      reads this
    {
      RuleStateVal(rulenr, delayed, devices)
    }

    constructor ()
      ensures Val() == Initial
    {
      rulenr := 0;
      delayed := 0;
      devices := [];
    }

    method SetRulenr(rulenr: int)
      modifies this
      ensures Val() == old(Val()).(rulenr := rulenr)
    {
      this.rulenr := rulenr;
    }

    method SetDelayed(delay: int)
      modifies this
      ensures Val() == old(Val()).(delayed := delay)
    {
      this.delayed := delay;
    }

    method AddDevice(dev: string)
      modifies this
      ensures Val() == old(Val()).(devices := Added(old(devices), dev))
    {
      if dev !in devices {
        devices := devices + [dev];
      }
    }

    method RemoveDevice(dev: string)
      modifies this
      ensures Val() == old(Val()).(devices := RemovedFirst(old(devices), dev))
    {
      devices := RemovedFirst(devices, dev);
    }

    method Reset()
      modifies this
      ensures Val() == Initial
    {
      rulenr := 0;
      delayed := 0;
      devices := [];
    }
  }
}
