# verify-license: a verified model of license activation

The `verify-license` edge function binds a device to a software license. A
request names a `license_key` and a `device_id`. The handler looks the license
up in the `licenses` table and answers in one of five ways:

- 404 when the key is unknown or the lookup fails;
- 200 "Already active" when the device is already in the license's `devices` list;
- 403 when the stored `used_count` has reached `max_devices`;
- 200 after writing `used_count + 1` and the device appended to `devices`;
- 500 when that write fails.

The model has two modules.

- `VerifyLicense` (`verify_license.dfy`) holds the data model. A `License` row
  has `maxDevices`, `usedCount` and a nullable `devices` list. The table is a
  `map<string, License>` keyed by license key. The module also holds the
  handler's guards as predicates and the decision as the function `Classify`.
  `Step` gives the outcome and the table after one call. The class
  `LicenseTable` keeps the table in a field. Its `Activate` method runs the
  handler's early-return sequence and is proved against `Step`.
- `ActivationProperties` (`activation_properties.dfy`) proves what the handler
  guarantees. Single-call lemmas cover each branch and the branch order. Other
  lemmas cover invariant preservation and idempotence. `Run` plays any sequence
  of calls one after another. Three inductive lemmas over `Run` show that every
  record keeps the invariant, that a counter rises by exactly the number of
  activations on its key, and that no call removes or reorders a registered
  device. `ActivationsBounded` combines the first two: a license is never
  activated beyond its capacity.

Whether the store's lookup or update fails is an input to each call (`Faults`).
The network and the store client are not modelled.

Three facts about the code shape the model:

- `devices` is a list, and a new device is appended at its end (index.ts:57);
- a failed lookup gets the same 404 as an unknown key (index.ts:31);
- the limit is decided on the stored `used_count`, not on the list's length
  (index.ts:46).

## Model

| member | source | states |
|---|---|---|
| VerifyLicense.Status | supabase/functions/verify-license/index.ts:31-70 | 200 exactly for Activated and AlreadyActive; 404 for an unknown key, 403 for a full license, 500 for a failed update |
| VerifyLicense.WithDevice | supabase/functions/verify-license/index.ts:53-59 | the written record keeps the capacity, has one more use, and lists the device after all old devices |
| VerifyLicense.Classify | supabase/functions/verify-license/index.ts:25-61 | with its guards `Devices` (a null list reads as empty, index.ts:38), `IsRegistered` (index.ts:39) and `AtLimit` (index.ts:46): NotFound exactly when the lookup fails or the key is absent; a registered device is always AlreadyActive, whatever the capacity; LimitReached exactly for an unregistered device on a counter at capacity; the update is reached only with room and a new device, and fails exactly when the store fails it |
| VerifyLicense.Step | supabase/functions/verify-license/index.ts:24-65 | the keys stay the same; every outcome other than Activated leaves the table unchanged; Activated raises the keyed counter by one and appends the device; every other record is unchanged |
| VerifyLicense.LicenseTable.Activate | supabase/functions/verify-license/index.ts:22-70 | the outcome and the new table are those of `Step` on the old table |
| ActivationProperties.NotFoundLeavesTable | supabase/functions/verify-license/index.ts:25-35 | an unknown key or failed lookup gives NotFound, status 404, table unchanged |
| ActivationProperties.AlreadyActiveLeavesTable | supabase/functions/verify-license/index.ts:37-43 | a registered device gives AlreadyActive, status 200, table unchanged |
| ActivationProperties.RegisteredBeatsLimit | supabase/functions/verify-license/index.ts:38-50 | the registration check comes before the limit check: a registered device on a full license is not refused |
| ActivationProperties.LimitReachedLeavesTable | supabase/functions/verify-license/index.ts:45-50 | an unregistered device with the stored counter at or above the capacity gives LimitReached, status 403, table unchanged |
| ActivationProperties.ActivationWritesOneRecord | supabase/functions/verify-license/index.ts:52-65 | with room and a new device, the outcome is Activated (200); only the keyed record changes, to one more use and the device appended |
| ActivationProperties.UpdateFailureIsServerError | supabase/functions/verify-license/index.ts:61-70 | a failed update after all checks gives status 500, never a success, and writes nothing |
| ActivationProperties.StepPreservesValid | supabase/functions/verify-license/index.ts:39-57 | one call keeps the invariant in every record: the counter equals the list length, which is within the capacity, and no device is listed twice |
| ActivationProperties.ActivateTwice | supabase/functions/verify-license/index.ts:39-59 | the same key and device twice: Activated, then AlreadyActive; the second call changes nothing; the counter rises by one in all |
| ActivationProperties.FullLicenseRefusesNewDevice | supabase/functions/verify-license/index.ts:45-50 | on a valid license whose list is as long as its capacity, a new device is refused |
| ActivationProperties.RunPreservesValid | supabase/functions/verify-license/index.ts:38-59 | after any sequence of calls every record still keeps the data invariant |
| ActivationProperties.RunCountsActivations | supabase/functions/verify-license/index.ts:53-59 | after any sequence of calls a license's counter equals its old counter plus the number of calls on its key answered Activated; its capacity is unchanged |
| ActivationProperties.ActivationsBounded | supabase/functions/verify-license/index.ts:45-59 | calls run one after another on a valid license are answered Activated at most `maxDevices - usedCount` times |
| ActivationProperties.RunKeepsDevices | supabase/functions/verify-license/index.ts:57 | no sequence of calls removes or reorders a registered device: the old list is a prefix of the new |
| ActivationProperties.OneSeatScenario | supabase/functions/verify-license/index.ts:24-65 | on a one-seat license: D1 is activated, D1 again is confirmed, D2 is refused, an unknown key is not found; the record ends as one use with D1 |

## Left out

- The `serve` wrapper, the OPTIONS preflight reply and the CORS headers (lines 1-13): HTTP transport with no decision in it.
- Building the store client from `SUPABASE_URL` and `SUPABASE_SERVICE_ROLE_KEY` (lines 17-20): ambient configuration and a foreign library.
- Parsing the request body (line 22): the model takes the key and the device as strings; a body without them is not modelled.
- Response bodies and headers: only the pairing of outcome and status code is modelled.
- The catch-all that turns any thrown error into a 500 with its message (lines 67-70): only the failed update reaches it in the model. Other exceptions, such as a malformed body, are not modelled.
- The query builder (`from`, `select`, `eq`, `single`, `update`): the table is a map from key to record, so at most one row matches a key. A lookup or update error is an input flag. A failed update is taken to write nothing.
- The check-then-act race between concurrent calls on the same key: the model runs calls one after another only, so the capacity bound holds for sequential calls only.
- JavaScript number semantics: counters are unbounded integers. A `null` or non-numeric `used_count` or `max_devices`, and float precision above 2^53, are not modelled.
