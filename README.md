# Feature flags registry, modelled in Dafny

The package keeps one process-wide registry of named boolean feature flags
(`FeatureFlags` in `src/features.ts`). Callers register flag records with
`add`, each record holding a name, an `enabled` state, an optional
description and an optional `onToggled` callback. They read one flag with
`enabled` and all flags with `status`, and flip a flag with `toggle`, which
also calls the flag's callback with the new state. Unknown names are never an
error: `enabled` and `toggle` both answer `false` for them, and `toggle`
changes nothing.

The model has three files:

- `registry.dfy` (module `Registry`) gives the meaning of the registry as a
  value. A `Store` holds the map from name to `Feature` record and,
  separately, the enumeration order of its keys (the order `Object.entries`
  yields them). A new name is appended to that order. An overwritten name
  keeps its place. `Store.Valid` is the invariant: each key is enumerated
  once, exactly the stored names are enumerated, and each record sits under
  its own name. `AddAll`, `Snapshot`, `IsEnabled` and `ToggleStep` are the
  four operations as functions. The lemmas beside them state what the
  operations promise.
- `features.dfy` (module `Features`) is the registry object itself. The class
  `FeatureFlags` has the fields `keys` and `features`, which the methods
  update in place. It also has a ghost log `calls` that records every
  callback invocation as an `Invocation(flag, callback, arg)`. `Add` and
  `Status` loop as the source does, and each method is proved to do what the
  matching `Registry` function says. `Enabled` is a pure read, so it is a
  function.
- `scenario.dfy` (module `Scenario`) is a client of the class. It replays the
  package's test suite (`src/features.test.ts`) as assertions that follow
  from the class's contracts and the definitions and lemmas of module
  `Registry`: the three flags `simple`, `descriptive` and
  `dynamic`, the late `late entry` flag, the flips, the callback count of 3,
  and the unknown names `false` and `fake`.

A callback is modelled by its identity (`Callback(id)`), because its body is
arbitrary caller code.

## Model

| member | source | states |
|---|---|---|
| `Registry.IsEnabled` | src/features.ts:38-40 | answers true only for a registered name, and for a registered name it answers that flag's stored `enabled`; an unknown name reads as false |
| `Registry.Insert` | src/features.ts:20 | one assignment stores the record under its name; a name already present keeps its place in the key order, a new name is enumerated last, and the store invariant is kept |
| `Registry.InsertLeavesOthers` | src/features.ts:20 | one assignment leaves every other name as it was, registered with the same record or unregistered |
| `Registry.AddAll` | src/features.ts:18-22 | storing the records one after another in argument order keeps the store invariant (no key enumerated twice, keys equal to the stored names, each record under its own name), and the previous key order survives as a prefix of the new one |
| `Registry.AddAllDomain` | src/features.ts:18-22 | after `add`, the registered names are exactly the names registered before plus the names supplied in the call |
| `Registry.AddAllLastWins` | src/features.ts:19-21 | a name supplied in the call holds the last record supplied for it (later entries win), including that record's callback and description |
| `Registry.AddAllUntouched` | src/features.ts:18-22 | a name not supplied in the call keeps its record, or stays unregistered |
| `Registry.AddAllKeepsPosition` | src/features.ts:20 | re-adding an already registered name does not move it in the enumeration order |
| `Registry.AddAllAppendsInOrder` | src/features.ts:18-22 | a new name first supplied at position j is enumerated after every name supplied before position j, so new names are appended in order of first appearance |
| `Registry.AddAllFresh` | src/features.test.ts:22-25 | adding records with distinct, unregistered names appends exactly those names, in argument order; on an empty registry `status()` then lists exactly the names added |
| `Registry.Entries` | src/features.ts:28-30 | the entries built from the key order hold one pair per key, in key order, each key paired with its record's `enabled` |
| `Registry.Snapshot` | src/features.ts:26-32 | `status()` holds one entry per enumerated key, in key order, each name paired with what `enabled` answers for it |
| `Registry.SnapshotAgreesWithEnabled` | src/features.ts:26-32 | `status()` names a flag if and only if it is registered, names no flag twice, and pairs each name with what `enabled` answers for it |
| `Registry.ToggleStep` | src/features.ts:49-56 | for an unknown name: returns false, the store is unchanged and no callback fires. For a registered name: returns the negation of the old state, `enabled` afterwards equals the result, only that flag's `enabled` changes, the key order is unchanged, its callback (if any) fires once with the new state, and a flag without a callback fires nothing |
| `Registry.ToggleParity` | src/features.ts:51 | n toggles of a registered flag leave it flipped exactly when n is odd, leave every other flag and the key order unchanged, and the last call returns the state the flag is left in |
| `Registry.ToggleCallbackCount` | src/features.ts:52-54 | n toggles of a registered flag with a callback invoke it exactly n times, with alternating new states starting from the negated original; a flag without a callback invokes nothing |
| `Registry.ToggleUnknownIsInert` | src/features.ts:50 | any number of toggles of an unregistered name return false, change nothing and invoke no callback |
| `Registry.ToggleTwiceRestores` | src/features.ts:51 | two toggles of the same name restore the registry exactly |
| `Features.FeatureFlags.constructor` | src/features.ts:12-17 | the instance starts with an empty store, an empty key order and no callback invocations |
| `Features.FeatureFlags.Add` | src/features.ts:18-22 | the loop leaves the store equal to `AddAll` of the old store and the arguments, keeps the invariant, and invokes no callback |
| `Features.FeatureFlags.Status` | src/features.ts:26-32 | the loop returns a fresh list of entries equal to `Snapshot` of the store, which it does not modify |
| `Features.FeatureFlags.Enabled` | src/features.ts:38-40 | a read-only query: true only for a registered name, and for a registered name exactly that flag's stored `enabled` |
| `Features.FeatureFlags.Toggle` | src/features.ts:49-56 | the new store, the returned value and the callback invocations appended to the log are those of `ToggleStep` on the old store; the invariant is kept |
| `Scenario.AddedInOrder` | src/features.test.ts:12-18 | adding `simple`, `descriptive` and `dynamic` to an empty registry yields exactly those three records, enumerated in that order |

## Left out

- `listen`, `attachListener` and `removeListener` (src/features.ts:61-89) are not modelled. They only install a `toggleFeature` function on the host's `window` or `global` object, or delete it. That function calls `toggle` and drops its result.
- The singleton guard in the constructor and the exported `Features` instance are not modelled. The model has one `FeatureFlags` object. `add` writes through `FeatureFlags.instance` while the other methods use `this`; under the singleton these are the same object, and the model treats them as one.
- Callback bodies are not modelled. Each invocation is recorded in the ghost log `calls`. The model assumes a callback neither calls into nor modifies the registry or its records. This matters because `toggle` calls `onToggled` as a method of the stored record, so the record is the callback's `this`, and it reads the returned `enabled` from the record again after the callback runs. A callback that sets `this.enabled`, or a caller that changes the record through the reference it passed to `add`, would change what `toggle` returns; `ToggleStep` takes the result to be the state the callback was called with. A callback that throws would propagate out of `toggle` after the flip is committed; exceptions are not modelled.
- Plain JavaScript object behaviour is replaced by a clean map plus an insertion-ordered key list. The model does not capture these quirks of the object:
  - Names that are array indices (decimal integers 0 to 4294967294 without leading zeros) are enumerated before all other names, in ascending numeric order; the model enumerates every name in insertion order. So after adding `10` and then `9`, `status` lists `9` first, where the model lists `10` first. Integer-looking names that are not array indices, such as `-1`, `01` or `4294967295`, keep insertion order in the source as in the model.
  - Inherited names such as `toString` are not `undefined` in the object, so `toggle("toString")` would write onto a prototype function instead of returning false.
  - The name `__proto__` is not stored as a key. `add` with that name calls the prototype setter, so `status` leaves the flag out. The record's own fields (`name`, `enabled`, ...) then become inherited names of the store, and a later `toggle("enabled")` passes the `undefined` test and writes onto a primitive, which throws. The model registers `__proto__` like any other name.
  - `add` stores the caller's record by reference, so `toggle` also changes the caller's object, and a later change by the caller would show in the registry.
- The status object is returned as a sequence of name and state pairs in enumeration order. It is a value, so it is always a copy; the object identity of the JavaScript result is not modelled.
- The `description` field is kept in `Feature` so that overwriting replaces the whole record, but nothing reads it, as in the source.
- `toggle` returns false both for an unknown name and for a flag that was just switched off. The model keeps this ambiguity as the source has it.
