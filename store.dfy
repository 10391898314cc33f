/** The variable store: a stack of scopes, each a map from names to values.
    Writes and reads see the innermost scope only. */
module Stores {
  import opened Common
  import opened Values

  type Scope = map<string, SizedValue>

  /** The scope stack after `set(key, value)`; panics when there is no scope. */
  function Assign(scopes: seq<Scope>, key: string, value: SizedValue): Result<seq<Scope>> {
    if scopes == [] then Fail(NoScope)
    else Ok(scopes[..|scopes| - 1] + [scopes[|scopes| - 1][key := value]])
  }

  /** What `get(key)` returns: the binding in the innermost scope, or a panic
      when there is no scope or the innermost scope does not bind `key`. */
  function Lookup(scopes: seq<Scope>, key: string): Result<SizedValue> {
    if scopes == [] then Fail(NoScope)
    else if key in scopes[|scopes| - 1] then Ok(scopes[|scopes| - 1][key])
    else Fail(UnboundName)
  }

  /** The scope stack after `push()`: a new, empty innermost scope. */
  function PushScope(scopes: seq<Scope>): seq<Scope> {
    scopes + [map[]]
  }

  /** The scope stack after `pop()`: the innermost scope dropped, and nothing
      done (no panic) when there is none. */
  function PopScope(scopes: seq<Scope>): seq<Scope> {
    if scopes == [] then scopes else scopes[..|scopes| - 1]
  }

  class Store {
    /** Outermost first: the innermost scope is the last element. */
    var scopes: seq<Scope>

    constructor ()
      ensures scopes == []
    {
      scopes := [];
    }

    method Set(key: string, value: SizedValue) returns (outcome: Outcome)
      modifies this
      ensures Assign(old(scopes), key, value).Ok? ==>
        outcome == Done && scopes == Assign(old(scopes), key, value).value
      ensures Assign(old(scopes), key, value).Fail? ==>
        outcome == Aborted(NoScope) && scopes == old(scopes)
    {
      if |scopes| == 0 {
        return Aborted(NoScope);
      }
      var last := |scopes| - 1;
      scopes := scopes[..last] + [scopes[last][key := value]];
      outcome := Done;
    }

    method Get(key: string) returns (r: Result<SizedValue>)
      ensures r == Lookup(scopes, key)
    {
      if |scopes| == 0 {
        return Fail(NoScope);
      }
      var innermost := scopes[|scopes| - 1];
      if key !in innermost {
        return Fail(UnboundName);
      }
      r := Ok(innermost[key]);
    }

    method Push()
      modifies this
      ensures scopes == PushScope(old(scopes))
    {
      scopes := scopes + [map[]];
    }

    method Pop()
      modifies this
      ensures scopes == PopScope(old(scopes))
    {
      if |scopes| > 0 {
        scopes := scopes[..|scopes| - 1];
      }
    }
  }

  /** A store with no scope rejects both `set` and `get`, and ignores `pop`. */
  lemma NoScopeFails(key: string, value: SizedValue)
    ensures Assign([], key, value) == Fail(NoScope)
    ensures Lookup([], key) == Fail(NoScope)
    ensures PopScope([]) == []
  {
  }

  /** `set(k, v)` then `get(k)` returns `v`. */
  lemma GetAfterSet(scopes: seq<Scope>, key: string, value: SizedValue)
    requires scopes != []
    ensures Assign(scopes, key, value).Ok?
    ensures Lookup(Assign(scopes, key, value).value, key) == Ok(value)
  {
  }

  /** A second `set` of the same key overwrites the first. */
  lemma SetOverwrites(scopes: seq<Scope>, key: string, v: SizedValue, w: SizedValue)
    requires scopes != []
    ensures Assign(scopes, key, v).Ok?
    ensures Assign(Assign(scopes, key, v).value, key, w) == Assign(scopes, key, w)
  {
    var n := |scopes|;
    var once := Assign(scopes, key, v).value;
    assert once[..n - 1] == scopes[..n - 1];
    assert once[n - 1][key := w] == scopes[n - 1][key := w];
  }

  /** `set(k, v)` changes only key `k` of the innermost scope: the number of
      scopes, every outer scope, every other key, and every other lookup stay. */
  lemma SetChangesOnlyKey(scopes: seq<Scope>, key: string, value: SizedValue, other: string)
    requires scopes != [] && other != key
    ensures Assign(scopes, key, value).Ok?
    ensures var after := Assign(scopes, key, value).value;
      && |after| == |scopes|
      && after[..|scopes| - 1] == scopes[..|scopes| - 1]
      && after[|scopes| - 1] - {key} == scopes[|scopes| - 1] - {key}
      && Lookup(after, other) == Lookup(scopes, other)
  {
  }

  /** `get` looks in the innermost scope only: a binding in an outer scope is
      invisible, and a name missing from the innermost scope panics. */
  lemma LookupSeesInnermostOnly(outer: seq<Scope>, innermost: Scope, key: string)
    ensures Lookup(outer + [innermost], key) == Lookup([innermost], key)
    ensures key !in innermost ==> Lookup(outer + [innermost], key) == Fail(UnboundName)
  {
  }

  /** `push` adds an empty innermost scope, in which every `get` panics, and
      `pop` after `push` restores the scope stack exactly. */
  lemma PopUndoesPush(scopes: seq<Scope>, key: string)
    ensures |PushScope(scopes)| == |scopes| + 1
    ensures Lookup(PushScope(scopes), key) == Fail(UnboundName)
    ensures PopScope(PushScope(scopes)) == scopes
  {
    assert PushScope(scopes)[..|scopes|] == scopes;
  }
}
