/**
 The in-memory credential registry of the proxy: a map from an authentication
 key (the query-parameter name in `http://endpoint?key=value`) to its secret
 value. The store is an immutable value here; each mutating operation returns
 the updated store.
 */
module Auth {

  /** The registry. `keys` is the only state the store has. */
  datatype AuthStore = AuthStore(keys: map<string, string>)

  /** The store invariant: no key is ever mapped to the empty string. */
  predicate NoEmptyValues(s: AuthStore)
  {
    forall k :: k in s.keys ==> s.keys[k] != ""
  }

  /** Reading a key the way a map index reads it in the source: an absent key
      yields the zero value of the value type, the empty string. */
  function ReadKey(s: AuthStore, key: string): string
  {
    if key in s.keys then s.keys[key] else ""
  }

  /** A fresh store: it holds nothing, so it accepts no credential pair. */
  function NewAuthStore(): (s: AuthStore)
    ensures forall k :: k !in s.keys
    ensures NoEmptyValues(s)
    ensures forall k, v :: !Valid(s, k, v)
  {
    AuthStore(map[])
  }

  /** Inserts or overwrites the entry for `key`; an empty `value` is silently
      ignored. The empty key is accepted. */
  function Add(s: AuthStore, key: string, value: string): (r: AuthStore)
    ensures value == "" ==> r == s
    ensures value != "" ==> key in r.keys && r.keys[key] == value
    ensures value != "" ==> r.keys.Keys == s.keys.Keys + {key}
    ensures forall k :: k != key ==> (k in r.keys <==> k in s.keys)
    ensures forall k :: k != key && k in r.keys ==> r.keys[k] == s.keys[k]
    ensures NoEmptyValues(s) ==> NoEmptyValues(r)
  {
    if value == "" then s else AuthStore(s.keys[key := value])
  }

  /** Deletes the entry for `key`, if there is one. */
  function Remove(s: AuthStore, key: string): (r: AuthStore)
    ensures key !in r.keys
    ensures r.keys.Keys == s.keys.Keys - {key}
    ensures forall k :: k != key && k in r.keys ==> r.keys[k] == s.keys[k]
    ensures key !in s.keys ==> r == s
    ensures NoEmptyValues(s) ==> NoEmptyValues(r)
    ensures forall v :: !Valid(r, key, v)
  {
    AuthStore(s.keys - {key})
  }

  /** True exactly when neither input is empty and `key` is stored with
      exactly `value`. An absent key reads as "", which never equals a
      non-empty `value`, so absence means rejection. */
  function Valid(s: AuthStore, key: string, value: string): (b: bool)
    ensures b <==> key != "" && value != "" && key in s.keys && s.keys[key] == value
  {
    if key == "" || value == "" then false else ReadKey(s, key) == value
  }

  /** Under the store invariant the emptiness check on `value` is implied by
      the lookup: validity is just "the key is non-empty and stored with this
      value". */
  lemma ValidUnderInvariant(s: AuthStore, key: string, value: string)
    requires NoEmptyValues(s)
    ensures Valid(s, key, value) <==> key != "" && key in s.keys && s.keys[key] == value
  {
  }

  /** Empty inputs never validate, whatever the store holds. */
  lemma EmptyInputsNeverValid(s: AuthStore, key: string, value: string)
    ensures !Valid(s, "", value)
    ensures !Valid(s, key, "")
  {
  }

  /** After adding a non-empty value under a non-empty key, that pair is valid
      and no other value is valid for the key. */
  lemma AddThenValid(s: AuthStore, key: string, value: string)
    requires key != "" && value != ""
    ensures Valid(Add(s, key, value), key, value)
    ensures forall v :: Valid(Add(s, key, value), key, v) <==> v == value
  {
  }

  /** Adding leaves the validity of every other key untouched. */
  lemma AddKeepsOtherKeys(s: AuthStore, key: string, value: string, other: string, v: string)
    requires other != key
    ensures Valid(Add(s, key, value), other, v) == Valid(s, other, v)
  {
  }

  /** Removing leaves the validity of every other key untouched. */
  lemma RemoveKeepsOtherKeys(s: AuthStore, key: string, other: string, v: string)
    requires other != key
    ensures Valid(Remove(s, key), other, v) == Valid(s, other, v)
  {
  }

  /** The empty key may be stored, yet it can never be presented successfully. */
  lemma EmptyKeyStoredButNeverValid(s: AuthStore, value: string)
    requires value != ""
    ensures "" in Add(s, "", value).keys
    ensures forall v :: !Valid(Add(s, "", value), "", v)
  {
  }

  /** Adding the same pair twice is the same as adding it once. */
  lemma AddIdempotent(s: AuthStore, key: string, value: string)
    ensures Add(Add(s, key, value), key, value) == Add(s, key, value)
  {
  }

  /** A later non-empty value for a key replaces an earlier one completely. */
  lemma AddOverwrites(s: AuthStore, key: string, v1: string, v2: string)
    requires v2 != ""
    ensures Add(Add(s, key, v1), key, v2) == Add(s, key, v2)
  {
  }

  /** Removing a key twice is the same as removing it once. */
  lemma RemoveIdempotent(s: AuthStore, key: string)
    ensures Remove(Remove(s, key), key) == Remove(s, key)
  {
  }

  /** Removing a key undoes any earlier add of it. */
  lemma RemoveCancelsAdd(s: AuthStore, key: string, value: string)
    ensures Remove(Add(s, key, value), key) == Remove(s, key)
  {
  }

  /** Removing a key that was absent before an add restores the original store. */
  lemma AddThenRemoveRestores(s: AuthStore, key: string, value: string)
    requires key !in s.keys
    ensures Remove(Add(s, key, value), key) == s
  {
  }

  /** Operations on distinct keys commute. */
  lemma DistinctKeysCommute(s: AuthStore, k1: string, v1: string, k2: string, v2: string)
    requires k1 != k2
    ensures Add(Add(s, k1, v1), k2, v2) == Add(Add(s, k2, v2), k1, v1)
    ensures Remove(Add(s, k1, v1), k2) == Add(Remove(s, k2), k1, v1)
  {
    if v1 != "" && v2 != "" {
      assert s.keys[k1 := v1][k2 := v2] == s.keys[k2 := v2][k1 := v1];
    }
    if v1 != "" {
      assert s.keys[k1 := v1] - {k2} == (s.keys - {k2})[k1 := v1];
    }
  }

  /** The add / check / remove / check sequence the package's unit test walks
      through: the pair is accepted while stored and refused after removal. */
  lemma AddValidRemoveScenario()
    ensures Valid(Add(NewAuthStore(), "key", "value"), "key", "value")
    ensures !Valid(Remove(Add(NewAuthStore(), "key", "value"), "key"), "key", "value")
  {
  }
}
