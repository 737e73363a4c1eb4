# k6 external module registry, in Dafny

This project models the registry of external JavaScript modules in k6
(`js/modules/modules.go`). The registry is a process-wide table from a module
name to the opaque value an extension supplied. It has two operations:

- `Register(name, mod)` adds an entry. It panics when the name does not start
  with `k6/x/` and when the name is already taken.
- `GetJSModules()` returns a freshly built copy of the table.

The model is one Dafny module, `Modules` (`modules.dfy`):

- `Registry<V>` is a class whose field `modules: map<string, V>` is the
  package-level map. `V` stands for Go's `interface{}` values, which the
  registry never inspects. Its constructor builds the empty table.
- `Registry.Register` updates the field in place. It returns an `Outcome`:
  `Ok`, `BadPrefix` or `Duplicate`. The two failure outcomes stand for the two
  panics.
- `Registry.GetJSModules` builds its result with a loop that copies one key at
  a time, as the Go `for name, module := range modules` loop does.
- The pure functions `Admit` (the outcome of one call) and `Apply` (the table
  after one call) specify `Register`. `Outcomes` and `Final` replay a series of
  calls, and the lemmas about them state what holds over the registry's
  lifetime.
- `HasPrefix` is Go's `strings.HasPrefix`: the string is long enough and its
  leading slice equals the prefix.
- `Exports` is the export descriptor (a default value and a map of named
  values, lines 113-118). It is a plain datatype with no operations, as in
  the source, so it carries no contract and has no row below.
- `ExtPrefix` is the constant `extPrefix` (line 35). It is a constant, not an
  operation, so it has no row below; the rows for `Admit`, `FinalKeepsPrefix`
  and `Registry.Register` state what it guards.

Dafny maps are values, so the copy returned by `GetJSModules` can never alias
the registry's table. Later updates to the copy cannot reach the table, and
later registrations cannot reach the copy. `GetJSModules` has no `modifies`
clause, so the verifier also checks that it leaves the registry unchanged.

## Model

| member | source | states |
|---|---|---|
| `Modules.HasPrefix` | js/modules/modules.go:47 | The prefix test used by `Register` holds exactly when the prefix is a leading part of the name. |
| `Modules.Admit` | js/modules/modules.go:46-58 | Both directions of each case: the outcome is `BadPrefix` iff the name lacks `k6/x/`; it is `Duplicate` iff the name is prefixed and already present; it is `Ok` iff the name is prefixed and free. |
| `Modules.Apply` | js/modules/modules.go:46-58 | A failed call leaves the table unchanged. A successful call maps `name` to exactly the supplied module, adds only that key and grows the size by one. No earlier entry is removed or changed, and no key other than `name` appears. |
| `Modules.Outcomes` | js/modules/modules.go:46-58 | A series of `Register` calls yields exactly one outcome per call. What each outcome is follows in `OutcomeAt`. |
| `Modules.FinalKeepsPrefix` | js/modules/modules.go:35-57 | If every key starts with `k6/x/`, that stays true after any series of `Register` calls, because the prefix is checked before the only write. |
| `Modules.FinalKeepsEntries` | js/modules/modules.go:54-57 | Across any series of `Register` calls, every entry present before keeps its original module: entries are never overwritten or removed. |
| `Modules.OutcomeAt` | js/modules/modules.go:46-58 | In any series of `Register` calls, the outcome of the i-th call is the outcome of one call on the table left by the i calls before it. |
| `Modules.SecondRegisterNeverSucceeds` | js/modules/modules.go:54-55 | With no condition on the table, the name or the modules, registering a name right after registering it once never returns `Ok`. |
| `Modules.SecondRegisterFails` | js/modules/modules.go:54-57 | Registering a free, valid name twice gives `Ok` and then `Duplicate`, whatever the second module is. The table keeps the first module, so `Register` is not idempotent. |
| `Modules.DistinctRegistrationsSucceed` | js/modules/modules.go:46-58 | A series of calls with pairwise distinct, prefixed, unused names all return `Ok`. Afterwards the table holds each call's module under its name, holds nothing beyond the old keys and the new names, and has grown by exactly the number of calls. No update is lost. |
| `Modules.Registry.constructor` | js/modules/modules.go:39 | The registry starts empty and satisfies its invariant. |
| `Modules.Registry.Register` | js/modules/modules.go:46-58 | The invariant that every key starts with `k6/x/` is kept. The outcome is `Admit` of the old table and the new table is `Apply` of the old table. So a bad prefix or a duplicate leaves the table untouched, and success adds exactly `name -> mod`. |
| `Modules.Registry.GetJSModules` | js/modules/modules.go:68-78 | The returned map has the same keys and values as the table, and so (stated as a corollary) the same size. The loop invariant says the keys copied so far are carried over unchanged. |
| `Modules.MetricsScenario` | js/modules/modules.go:46-78 | On a fresh registry, registering `k6/x/metrics` succeeds. Registering `metrics` fails for its prefix. Registering `k6/x/metrics` again fails as a duplicate. The copy taken afterwards is exactly `{"k6/x/metrics": m}`. |

## Left out

- Locking (`mx`, `sync.RWMutex`, lines 40, 51-52 and 69-70): every operation is modelled as sequential and atomic. Concurrent registrations are covered only as some sequential order of atomic calls.
- Panic messages (`fmt.Errorf`, `fmt.Sprintf`, lines 48 and 55): the model records which failure happened, not its text. A panic is modelled as a returned outcome, not as the end of the process.
- `getInterfaceMethods` (lines 85-95): it uses Go reflection over the `Instance` interface, which has no counterpart in Dafny.
- The `Module`, `Instance` and `VU` interfaces (lines 61-65, 81-83 and 98-110): they only declare method signatures. `VU` also returns types defined outside this file (`context.Context`, `common.InitEnvironment`, `lib.State`, `goja.Runtime`), which are not part of this model. The one-instance-per-import promise in the comment on line 63 belongs to implementations outside this file.
- Names are modelled as `seq<char>`, but Go strings are byte strings. The prefix `k6/x/` is ASCII, so the guard is the same in both readings.
- `GetJSModules` takes the exclusive lock (line 69) although it only reads. Locking is left out, so the model does not distinguish the two kinds of lock.
