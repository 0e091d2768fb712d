/**
 Sequences of administrative calls on the registry. A session is the list of
 `Add` and `Remove` calls a caller makes in order; replaying it on a store is
 proved equal to an independent, per-key description of the outcome: the value a
 key holds is decided by the last call on that key that took effect.
 */
module Sessions {
  import opened Auth

  /** One mutating call on the registry. */
  datatype Call = AddCall(key: string, value: string) | RemoveCall(key: string)

  /** Performs one call. */
  function Apply(s: AuthStore, c: Call): AuthStore
  {
    match c
    case AddCall(k, v) => Add(s, k, v)
    case RemoveCall(k) => Remove(s, k)
  }

  /** Performs the calls in order, first call first. */
  function Replay(s: AuthStore, calls: seq<Call>): AuthStore
    decreases |calls|
  {
    if calls == [] then s else Replay(Apply(s, calls[0]), calls[1..])
  }

  /** Reference outcome for one key: scanning the session from its end, the
      first add of a non-empty value to `key` gives that value, the first
      remove of `key` gives the empty string (absent), and if neither occurs
      the key reads as it did in the starting store. Adds of the empty value
      are skipped, since they take no effect. */
  function Expected(s: AuthStore, calls: seq<Call>, key: string): string
    decreases |calls|
  {
    if calls == [] then ReadKey(s, key)
    else
      var last := calls[|calls| - 1];
      var before := calls[..|calls| - 1];
      match last
      case AddCall(k, v) => if k == key && v != "" then v else Expected(s, before, key)
      case RemoveCall(k) => if k == key then "" else Expected(s, before, key)
  }

  /** Replaying a session extended by one call is replaying the session and
      then performing that call. */
  lemma {:induction false} ReplaySnoc(s: AuthStore, calls: seq<Call>, c: Call)
    ensures Replay(s, calls + [c]) == Apply(Replay(s, calls), c)
    decreases |calls|
  {
    if calls == [] {
      assert [] + [c] == [c];
      assert [c][1..] == [];
    } else {
      assert (calls + [c])[0] == calls[0];
      assert (calls + [c])[1..] == calls[1..] + [c];
      ReplaySnoc(Apply(s, calls[0]), calls[1..], c);
    }
  }

  /** Replay agrees with the reference outcome on every key. */
  lemma {:induction false} ReplayMatchesExpected(s: AuthStore, calls: seq<Call>, key: string)
    ensures ReadKey(Replay(s, calls), key) == Expected(s, calls, key)
    decreases |calls|
  {
    if calls != [] {
      var before := calls[..|calls| - 1];
      var last := calls[|calls| - 1];
      assert calls == before + [last];
      ReplaySnoc(s, before, last);
      ReplayMatchesExpected(s, before, key);
    }
  }

  /** The store invariant survives any session. */
  lemma {:induction false} ReplayPreservesInvariant(s: AuthStore, calls: seq<Call>)
    requires NoEmptyValues(s)
    ensures NoEmptyValues(Replay(s, calls))
    decreases |calls|
  {
    if calls != [] {
      var t := Apply(s, calls[0]);
      assert NoEmptyValues(t);
      ReplayPreservesInvariant(t, calls[1..]);
    }
  }

  /** From any starting store, a credential pair is accepted after a session
      exactly when both parts are non-empty and the key reads as that very
      value under the reference outcome. For a fresh store this reference is
      the value of the last effective add of the key, if no remove follows it. */
  lemma SessionValid(s: AuthStore, calls: seq<Call>, key: string, value: string)
    ensures Valid(Replay(s, calls), key, value)
        <==> key != "" && value != "" && Expected(s, calls, key) == value
  {
    ReplayMatchesExpected(s, calls, key);
  }

  /** A session that ends with removing a key leaves that key rejected, and
      one that ends with adding a non-empty value under a non-empty key leaves
      that pair accepted, whatever came before. */
  lemma LastCallDecides(s: AuthStore, calls: seq<Call>, key: string, value: string)
    ensures !Valid(Replay(s, calls + [RemoveCall(key)]), key, value)
    ensures key != "" && value != "" ==> Valid(Replay(s, calls + [AddCall(key, value)]), key, value)
  {
    ReplaySnoc(s, calls, RemoveCall(key));
    ReplaySnoc(s, calls, AddCall(key, value));
  }
}
