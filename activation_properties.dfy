/**
 * What the activation handler guarantees, for one invocation and for any
 * sequence of invocations run one after another against the same table.
 */
module ActivationProperties {
  import opened VerifyLicense

  // ---------------------------------------------------------------------------
  // One invocation
  // ---------------------------------------------------------------------------

  /** An unknown key, or a failed lookup, answers 404 and writes nothing. */
  lemma NotFoundLeavesTable(t: map<string, License>, c: Call)
    requires c.faults.lookupFails || c.key !in t
    ensures Step(t, c).outcome == NotFound
    ensures Status(Step(t, c).outcome) == 404
    ensures Step(t, c).table == t
  {
  }

  /** A device already on the license is confirmed with 200 and nothing is written. */
  lemma AlreadyActiveLeavesTable(t: map<string, License>, c: Call)
    requires !c.faults.lookupFails && c.key in t
    requires IsRegistered(t[c.key], c.device)
    ensures Step(t, c).outcome == AlreadyActive
    ensures Status(Step(t, c).outcome) == 200
    ensures Step(t, c).table == t
  {
  }

  /** The registration check comes first: a registered device on a full license is not refused. */
  lemma RegisteredBeatsLimit(t: map<string, License>, c: Call)
    requires !c.faults.lookupFails && c.key in t
    requires IsRegistered(t[c.key], c.device) && AtLimit(t[c.key])
    ensures Step(t, c).outcome != LimitReached
    ensures Step(t, c).outcome == AlreadyActive
  {
  }

  /**
   * A new device on a license whose stored counter has reached the capacity is
   * refused with 403 and nothing is written, whatever the length of the list.
   */
  lemma LimitReachedLeavesTable(t: map<string, License>, c: Call)
    requires !c.faults.lookupFails && c.key in t
    requires !IsRegistered(t[c.key], c.device)
    requires t[c.key].usedCount >= t[c.key].maxDevices
    ensures Step(t, c).outcome == LimitReached
    ensures Status(Step(t, c).outcome) == 403
    ensures Step(t, c).table == t
  {
  }

  /**
   * A new device on a license with room is activated: the keyed record gets one
   * more use and the device at the end of its list; every other record stays.
   */
  lemma ActivationWritesOneRecord(t: map<string, License>, c: Call)
    requires !c.faults.lookupFails && !c.faults.updateFails && c.key in t
    requires !IsRegistered(t[c.key], c.device) && !AtLimit(t[c.key])
    ensures Step(t, c).outcome == Activated
    ensures Status(Step(t, c).outcome) == 200
    ensures Step(t, c).table
            == t[c.key := License(t[c.key].maxDevices, t[c.key].usedCount + 1,
                                  Some(Devices(t[c.key]) + [c.device]))]
  {
  }

  /** A failed update after all checks passed answers 500, never a success. */
  lemma UpdateFailureIsServerError(t: map<string, License>, c: Call)
    requires !c.faults.lookupFails && c.faults.updateFails && c.key in t
    requires !IsRegistered(t[c.key], c.device) && !AtLimit(t[c.key])
    ensures Step(t, c).outcome == PersistenceFailed
    ensures Status(Step(t, c).outcome) == 500
    ensures Step(t, c).table == t
  {
  }

  /** One invocation keeps the data invariant of every record. */
  lemma StepPreservesValid(t: map<string, License>, c: Call)
    requires ValidTable(t)
    ensures ValidTable(Step(t, c).table)
  {
  }

  /**
   * Activating the same device twice: the first call activates, the second only
   * confirms, and the second call leaves the table as the first left it, so the
   * counter rises by exactly one in all.
   */
  lemma ActivateTwice(t: map<string, License>, key: string, device: string, second: Faults)
    requires key in t && !IsRegistered(t[key], device) && !AtLimit(t[key])
    requires !second.lookupFails
    ensures var first := Step(t, Call(key, device, Faults(false, false)));
            var again := Step(first.table, Call(key, device, second));
            && first.outcome == Activated
            && again.outcome == AlreadyActive
            && again.table == first.table
            && again.table[key].usedCount == t[key].usedCount + 1
  {
  }

  /** A valid license holding as many devices as its capacity refuses every new device. */
  lemma FullLicenseRefusesNewDevice(t: map<string, License>, c: Call)
    requires ValidTable(t) && !c.faults.lookupFails && c.key in t
    requires |Devices(t[c.key])| == t[c.key].maxDevices
    requires !IsRegistered(t[c.key], c.device)
    ensures Step(t, c).outcome == LimitReached
  {
  }

  // ---------------------------------------------------------------------------
  // A sequence of invocations, one after another
  // ---------------------------------------------------------------------------

  /** The outcomes of a sequence of invocations and the table they leave. */
  datatype Trace = Trace(outcomes: seq<Outcome>, table: map<string, License>)

  /** Runs the calls in order, each against the table the previous one left. */
  function Run(t: map<string, License>, calls: seq<Call>): (r: Trace)
    ensures |r.outcomes| == |calls|
    ensures r.table.Keys == t.Keys
    decreases |calls|
  {
    if calls == [] then Trace([], t)
    else
      var first := Step(t, calls[0]);
      var rest := Run(first.table, calls[1..]);
      Trace([first.outcome] + rest.outcomes, rest.table)
  }

  /** How many of the calls on key `k` were answered Activated. */
  function ActivationsOn(calls: seq<Call>, outcomes: seq<Outcome>, k: string): nat
    requires |calls| == |outcomes|
    decreases |calls|
  {
    if calls == [] then 0
    else
      (if calls[0].key == k && outcomes[0] == Activated then 1 else 0)
      + ActivationsOn(calls[1..], outcomes[1..], k)
  }

  /** After any sequence of invocations every record still keeps the data invariant. */
  lemma {:induction false} RunPreservesValid(t: map<string, License>, calls: seq<Call>)
    requires ValidTable(t)
    ensures ValidTable(Run(t, calls).table)
    decreases |calls|
  {
    if calls != [] {
      StepPreservesValid(t, calls[0]);
      RunPreservesValid(Step(t, calls[0]).table, calls[1..]);
    }
  }

  /**
   * The counter of a license rises by exactly the number of calls on its key
   * answered Activated, and its capacity never changes.
   */
  lemma {:induction false} RunCountsActivations(t: map<string, License>, calls: seq<Call>, k: string)
    requires k in t
    ensures Run(t, calls).table[k].usedCount
            == t[k].usedCount + ActivationsOn(calls, Run(t, calls).outcomes, k)
    ensures Run(t, calls).table[k].maxDevices == t[k].maxDevices
    decreases |calls|
  {
    if calls != [] {
      var first := Step(t, calls[0]);
      RunCountsActivations(first.table, calls[1..], k);
      var r := Run(t, calls);
      assert r.outcomes[1..] == Run(first.table, calls[1..]).outcomes;
    }
  }

  /**
   * Run one after another, calls on a valid license are answered Activated at
   * most as many times as it has free places: a device beyond the capacity is
   * never bound.
   */
  lemma {:induction false} ActivationsBounded(t: map<string, License>, calls: seq<Call>, k: string)
    requires ValidTable(t) && k in t
    ensures ActivationsOn(calls, Run(t, calls).outcomes, k) <= t[k].maxDevices - t[k].usedCount
  {
    RunPreservesValid(t, calls);
    RunCountsActivations(t, calls, k);
  }

  /** No invocation removes or reorders a registered device: the old list is a prefix of the new. */
  lemma {:induction false} RunKeepsDevices(t: map<string, License>, calls: seq<Call>, k: string)
    requires k in t
    ensures Devices(t[k]) <= Devices(Run(t, calls).table[k])
    decreases |calls|
  {
    if calls != [] {
      var first := Step(t, calls[0]);
      RunKeepsDevices(first.table, calls[1..], k);
    }
  }

  /**
   * A one-seat license: D1 is activated, D1 again is confirmed, D2 is refused,
   * and the record ends with one use and D1 alone; an unknown key is not found.
   */
  lemma OneSeatScenario()
    ensures var t := map["ABC" := License(1, 0, Some([]))];
            var ok := Faults(false, false);
            var r := Run(t, [Call("ABC", "D1", ok), Call("ABC", "D1", ok), Call("ABC", "D2", ok), Call("ZZZ", "D1", ok)]);
            && r.outcomes == [Activated, AlreadyActive, LimitReached, NotFound]
            && r.table == map["ABC" := License(1, 1, Some(["D1"]))]
  {
    var t := map["ABC" := License(1, 0, Some([]))];
    var ok := Faults(false, false);
    var c1, c2, c3 := Call("ABC", "D1", ok), Call("ABC", "D2", ok), Call("ZZZ", "D1", ok);
    var t1 := t["ABC" := License(1, 1, Some(["D1"]))];
    assert Devices(t["ABC"]) + ["D1"] == ["D1"];
    assert Step(t, c1) == Response(Activated, t1);
    assert Step(t1, c1) == Response(AlreadyActive, t1);
    assert Step(t1, c2) == Response(LimitReached, t1);
    assert Step(t1, c3) == Response(NotFound, t1);
    var calls := [c1, c1, c2, c3];
    assert calls[1..] == [c1, c2, c3] && calls[2..] == [c2, c3] && calls[3..] == [c3];
    assert Run(t1, [c3]) == Trace([NotFound], t1);
    assert Run(t1, [c2, c3]) == Trace([LimitReached, NotFound], t1);
    assert Run(t1, [c1, c2, c3]) == Trace([AlreadyActive, LimitReached, NotFound], t1);
  }

  /** The same scenario driven through the table object, as a client sees it. */
  method OneSeatClient()
  {
    var ok := Faults(false, false);
    var table := new LicenseTable(map["ABC" := License(1, 0, Some([]))]);
    var o := table.Activate("ABC", "D1", ok);
    assert Devices(License(1, 0, Some([]))) + ["D1"] == ["D1"];
    assert o == Activated && table.rows["ABC"] == License(1, 1, Some(["D1"]));
    o := table.Activate("ABC", "D1", ok);
    assert o == AlreadyActive;
    o := table.Activate("ABC", "D2", ok);
    assert o == LimitReached && Status(o) == 403;
    o := table.Activate("ZZZ", "D1", ok);
    assert o == NotFound && Status(o) == 404;
    assert table.rows == map["ABC" := License(1, 1, Some(["D1"]))];
  }
}
