/**
 * The license-activation handler of the `verify-license` edge function.
 *
 * A request carries a license key and a device identifier. The handler looks
 * the license up in the `licenses` table, confirms a device that is already
 * registered, refuses a new device once the license is full, and otherwise
 * appends the device and bumps the counter. The store is modelled as a map
 * from license key to record; whether a store round trip fails is an input.
 */
module VerifyLicense {

  /** A nullable column value. */
  datatype Option<T> = None | Some(value: T)

  /** A row of the `licenses` table (the key is the map key of the table). */
  datatype License = License(maxDevices: int, usedCount: int, devices: Option<seq<string>>)

  /** The outcome of one activation request. */
  datatype Outcome = Activated | AlreadyActive | NotFound | LimitReached | PersistenceFailed

  /** How the store answers this request's two round trips. */
  datatype Faults = Faults(lookupFails: bool, updateFails: bool)

  /** One invocation of the handler. */
  datatype Call = Call(key: string, device: string, faults: Faults)

  /** What one invocation returns and the table it leaves behind. */
  datatype Response = Response(outcome: Outcome, table: map<string, License>)

  /** The registered devices; a missing (null) list reads as empty. */
  function Devices(l: License): seq<string> {
    match l.devices
    case None => []
    case Some(ds) => ds
  }

  predicate NoDuplicates(s: seq<string>) {
    forall i, j :: 0 <= i < j < |s| ==> s[i] != s[j]
  }

  /**
   * The data invariant every writer is meant to keep: the stored counter is the
   * number of registered devices, it never exceeds the capacity, and no device
   * is registered twice.
   */
  predicate ValidLicense(l: License) {
    && l.usedCount == |Devices(l)|
    && |Devices(l)| <= l.maxDevices
    && NoDuplicates(Devices(l))
  }

  predicate ValidTable(t: map<string, License>) {
    forall k :: k in t ==> ValidLicense(t[k])
  }

  /** Guard of step 2: the device is already bound to this license. */
  predicate IsRegistered(l: License, device: string) {
    device in Devices(l)
  }

  /** Guard of step 3: the stored counter has reached the capacity. */
  predicate AtLimit(l: License) {
    l.usedCount >= l.maxDevices
  }

  /** The record written by step 4: one more use, the device appended at the end. */
  function WithDevice(l: License, device: string): (r: License)
    ensures r.maxDevices == l.maxDevices
    ensures r.usedCount == l.usedCount + 1
    ensures Devices(r) == Devices(l) + [device]
    ensures IsRegistered(r, device)
  {
    License(l.maxDevices, l.usedCount + 1, Some(Devices(l) + [device]))
  }

  /** The HTTP status the handler answers each outcome with. */
  function Status(o: Outcome): (code: int)
    ensures code == 200 <==> o == Activated || o == AlreadyActive
    ensures o == NotFound ==> code == 404
    ensures o == LimitReached ==> code == 403
    ensures o == PersistenceFailed ==> code == 500
  {
    match o
    case Activated => 200
    case AlreadyActive => 200
    case NotFound => 404
    case LimitReached => 403
    case PersistenceFailed => 500
  }

  /** Whether the outcome reaches the update of step 4. */
  predicate ReachesUpdate(o: Outcome) {
    o == Activated || o == PersistenceFailed
  }

  /** The outcome the handler decides on, with its guards taken in the handler's order. */
  function Classify(t: map<string, License>, c: Call): (o: Outcome)
    ensures o == NotFound <==> c.faults.lookupFails || c.key !in t
    ensures !c.faults.lookupFails && c.key in t && IsRegistered(t[c.key], c.device) ==> o == AlreadyActive
    ensures o == AlreadyActive ==> c.key in t && IsRegistered(t[c.key], c.device)
    ensures o == LimitReached <==>
              && !c.faults.lookupFails && c.key in t
              && !IsRegistered(t[c.key], c.device) && AtLimit(t[c.key])
    ensures ReachesUpdate(o) ==>
              && c.key in t && !IsRegistered(t[c.key], c.device) && !AtLimit(t[c.key])
    ensures ReachesUpdate(o) ==> (o == PersistenceFailed <==> c.faults.updateFails)
  {
    if c.faults.lookupFails || c.key !in t then NotFound
    else if IsRegistered(t[c.key], c.device) then AlreadyActive
    else if AtLimit(t[c.key]) then LimitReached
    else if c.faults.updateFails then PersistenceFailed
    else Activated
  }

  /**
   * One invocation as a whole: its outcome and the table afterwards. Only an
   * activation writes, and it writes only the record under the request's key.
   */
  function Step(t: map<string, License>, c: Call): (r: Response)
    ensures r.outcome == Classify(t, c)
    ensures r.table.Keys == t.Keys
    ensures r.outcome != Activated ==> r.table == t
    ensures r.outcome == Activated ==>
              && c.key in t
              && r.table[c.key].maxDevices == t[c.key].maxDevices
              && r.table[c.key].usedCount == t[c.key].usedCount + 1
              && Devices(r.table[c.key]) == Devices(t[c.key]) + [c.device]
    ensures forall k :: k in t && k != c.key ==> r.table[k] == t[k]
  {
    var o := Classify(t, c);
    if o == Activated then Response(o, t[c.key := WithDevice(t[c.key], c.device)])
    else Response(o, t)
  }

  /** The `licenses` table as the handler sees it, updated in place. */
  class LicenseTable {
    var rows: map<string, License>

    constructor (initial: map<string, License>)
      ensures rows == initial
    {
      rows := initial;
    }

    /** Handles one request for `key` and `device`, the store answering as `faults` says. */
    method Activate(key: string, device: string, faults: Faults) returns (outcome: Outcome)
      modifies this
      ensures outcome == Step(old(rows), Call(key, device, faults)).outcome
      ensures rows == Step(old(rows), Call(key, device, faults)).table
    {
      if faults.lookupFails || key !in rows {
        return NotFound;
      }
      var license := rows[key];
      if IsRegistered(license, device) {
        return AlreadyActive;
      }
      if AtLimit(license) {
        return LimitReached;
      }
      if faults.updateFails {
        return PersistenceFailed;
      }
      rows := rows[key := WithDevice(license, device)];
      outcome := Activated;
    }
  }
}
