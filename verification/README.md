# AuthStore — a Dafny model of the proxy's credential registry

The proxy authenticates requests of the form `http://endpoint?key=value`
against an in-memory registry, `AuthStore`, which maps each authentication key
to its secret value. The registry has four operations:

- `NewAuthStore` creates an empty registry.
- `Add(key, value)` inserts or overwrites the entry for `key`. It silently
  ignores an empty `value`. The empty key itself is accepted.
- `Remove(key)` deletes the entry for `key`. It does nothing if the key is
  absent.
- `Valid(key, value)` returns true only when neither input is empty and the
  value stored under `key` is exactly `value`. An absent key reads as the empty
  string, so it never matches.

The model has two modules:

- `Auth` (`auth.dfy`) holds the registry. It is an immutable datatype around a
  `map<string, string>`, with pure functions for the four operations. The
  invariant `NoEmptyValues` says that no stored value is empty. It holds of a
  fresh store and is preserved by `Add` and `Remove`. `Valid` is a pure
  function, so checking a credential can never change the store. The helper
  `ReadKey` models how the source indexes a map: a missing key gives `""`.
- `Sessions` (`sessions.dfy`) covers sequences of `Add`/`Remove` calls.
  Replaying a session is proved equal, key by key, to an independent
  reference, `Expected`. That reference scans backwards for the last call on the key
  that took effect. From this the model proves exactly which credential
  pairs a store accepts after any session.

## Model

| member | source | states |
|---|---|---|
| Auth.NewAuthStore | auth.go:9-13 | a fresh store holds no key, satisfies the no-empty-values invariant, and accepts no (key, value) pair at all |
| Auth.Add | auth.go:16-22 | an empty value leaves the store unchanged; otherwise `key` maps to `value` afterwards, the key set grows by exactly `key`, every other key keeps its presence and its value, and the invariant is preserved |
| Auth.Remove | auth.go:25-27 | afterwards `key` is absent and the key set shrinks by exactly `key`; other entries keep their values; removing an absent key changes nothing; the invariant is preserved; no value validates for the removed key |
| Auth.Valid | auth.go:30-36 | true if and only if key and value are both non-empty, the key is stored, and its stored value equals the value given (an absent key's zero-value read never matches) |
| Auth.ValidUnderInvariant | auth.go:30-36 | in a store with no empty values, validity is exactly "key non-empty, stored, and stored with this value" |
| Auth.EmptyInputsNeverValid | auth.go:31-33 | an empty key or an empty value is rejected whatever the store holds |
| Auth.AddThenValid | auth.go:16-36 | after adding a non-empty value under a non-empty key, that pair is valid and it is the only valid value for the key |
| Auth.AddKeepsOtherKeys | auth.go:21 | adding under one key does not change whether any pair on another key validates |
| Auth.RemoveKeepsOtherKeys | auth.go:26 | removing one key does not change whether any pair on another key validates |
| Auth.EmptyKeyStoredButNeverValid | auth.go:16-33 | a non-empty value can be stored under the empty key, but no pair with the empty key is ever valid |
| Auth.AddIdempotent | auth.go:16-22 | adding the same pair twice gives the same store as adding it once |
| Auth.AddOverwrites | auth.go:16-22 | a later non-empty value for a key fully replaces an earlier one |
| Auth.RemoveIdempotent | auth.go:25-27 | removing a key twice gives the same store as removing it once |
| Auth.RemoveCancelsAdd | auth.go:16-27 | removing a key after adding it gives the same store as only removing it |
| Auth.AddThenRemoveRestores | auth.go:16-27 | adding and then removing a key that was absent restores the original store |
| Auth.DistinctKeysCommute | auth.go:16-27 | adds on distinct keys commute, and an add commutes with a remove of a different key |
| Auth.AddValidRemoveScenario | auth_test.go:6-22 | on a fresh store, ("key", "value") is valid after adding it and invalid after removing "key" |
| Sessions.ReplaySnoc | auth.go:16-27 | replaying a session extended by one call equals replaying the session, then performing that call |
| Sessions.ReplayMatchesExpected | auth.go:16-27 | after any session, every key reads as the value of its last effective add, as absent if its last effective call was a remove, and otherwise as it read before the session |
| Sessions.ReplayPreservesInvariant | auth.go:9-27 | no session of adds and removes can put an empty value into a store that had none |
| Sessions.SessionValid | auth.go:16-36 | from any starting store, a pair is accepted after a session if and only if both parts are non-empty and the key reads as that value under the reference outcome: the value of the last effective add of the key, the empty string after a later remove, or the starting store's value if the session never touched the key |
| Sessions.LastCallDecides | auth.go:16-36 | whatever came before, a session ending in a remove of a key rejects every pair on that key, and one ending in a non-empty add under a non-empty key accepts that pair |

## Left out

- `Get`, which the package's unit test calls (auth_test.go:26), is not defined in auth.go. It is not modelled. The same test compares `Valid`'s boolean result with a string (auth_test.go:12, auth_test.go:20), so it was written against a different version of the code. Only its add/valid/remove steps are kept, as `Auth.AddValidRemoveScenario`.
- Durable write-through operations (upsert, soft-disable, hydration from a SQL table) and connection handling are not part of this model. No such code exists in auth.go, and all of it would be database I/O.
- Concurrency: the source uses a bare map with no locking. The model is sequential.
- Pointer identity: the source's `*AuthStore` receiver mutates shared state in place. The model threads an immutable store value through each call instead. Every caller sees the same sequence of states either way.
- Logging and configuration are not part of this model.
- Zero-value and nil stores: the model covers only stores built by `NewAuthStore`. Code outside the package can also build a zero-value `AuthStore`, whose `keys` is a nil map. On such a store a non-empty `Add` panics at auth.go:21 ("assignment to entry in nil map"). `Remove` does nothing on it, and `Valid` reads "" and returns false. A nil `*AuthStore` receiver panics only once a method reads its map. `Remove` always panics (auth.go:26). `Add` panics only for a non-empty value, because an empty value returns first (auth.go:17-18). `Valid` panics only when both inputs are non-empty, because an empty input returns false first (auth.go:31-32). The datatype has no nil-map or nil-pointer state, so these panics are not modelled.
- Byte strings: Go strings are byte sequences, while the model's `string` is a sequence of Unicode characters. Keys or values that are not valid UTF-8 therefore cannot be represented. The operations only test equality and emptiness, so no behaviour on representable strings is lost.
