/** The registry of named crypto implementations in crypto/crypto.go. The `Crypto`
    interface is left abstract as the type parameter `C`; a nil interface value is `None`.
    Where Go panics, the model returns the error, and the registry is left as it was (the
    panic happens before the map is written). The mutex is not modelled. */
module Crypto {
  import opened Wrappers

  datatype RegistryError =
    | NilInstance              // RegisterCrypto with a nil instance
    | DuplicateName(name: string)  // RegisterCrypto with a name already taken
    | UnknownName(name: string)    // NewCrypto with a name never registered

  /** The registry after registering `c` under `n`, or the reason it is refused: a nil
      instance is refused first, then a name already present. */
  function Register<C>(m: map<string, C>, n: string, c: Option<C>): (r: Result<map<string, C>, RegistryError>)
    ensures c.None? ==> r == Failure(NilInstance)
    ensures c.Some? && n in m ==> r == Failure(DuplicateName(n))
    ensures r.Success? <==> c.Some? && n !in m
    ensures r.Success? ==>
      r.value.Keys == m.Keys + {n} && r.value[n] == c.value &&
      forall k :: k in m ==> r.value[k] == m[k]
  {
    if c.None? then Failure(NilInstance)
    else if n in m then Failure(DuplicateName(n))
    else Success(m[n := c.value])
  }

  /** The instance registered under `n`, or `UnknownName`. */
  function Lookup<C>(m: map<string, C>, n: string): (r: Result<C, RegistryError>)
    ensures r.Success? <==> n in m
    ensures r.Success? ==> r.value == m[n]
    ensures r.Failure? ==> r.error == UnknownName(n)
  {
    if n in m then Success(m[n]) else Failure(UnknownName(n))
  }

  /** A series of registrations made one after the other, stopping at the first that
      panics. */
  function Replay<C>(m: map<string, C>, calls: seq<(string, Option<C>)>): Result<map<string, C>, RegistryError>
    decreases |calls|
  {
    if calls == [] then Success(m)
    else
      var m' :- Register(m, calls[0].0, calls[0].1);
      Replay(m', calls[1..])
  }

  /** A successful registration is what `NewCrypto` then finds under that name; every
      other name looks up as before. */
  lemma LookupAfterRegister<C>(m: map<string, C>, n: string, c: Option<C>, other: string)
    requires Register(m, n, c).Success?
    ensures Lookup(Register(m, n, c).value, n) == Success(c.value)
    ensures other != n ==> Lookup(Register(m, n, c).value, other) == Lookup(m, other)
  {
  }

  /** A name can be registered once: any later registration under it fails, whatever the
      instance, and leaves the first one in place. */
  lemma RegisterOnce<C>(m: map<string, C>, n: string, c: Option<C>, c': Option<C>)
    requires Register(m, n, c).Success?
    ensures Register(Register(m, n, c).value, n, c').Failure?
  {
  }

  /** A series of registrations all succeed exactly when every instance is non-nil, no name
      is already registered, and no name occurs twice. */
  lemma {:induction false} ReplaySucceeds<C>(m: map<string, C>, calls: seq<(string, Option<C>)>)
    ensures Replay(m, calls).Success? <==>
      (forall i :: 0 <= i < |calls| ==> calls[i].1.Some? && calls[i].0 !in m) &&
      (forall i, j :: 0 <= i < j < |calls| ==> calls[i].0 != calls[j].0)
    decreases |calls|
  {
    if calls != [] {
      var (n, c) := calls[0];
      var rest := calls[1..];
      if Register(m, n, c).Success? {
        var m' := Register(m, n, c).value;
        ReplaySucceeds(m', rest);
        assert forall i :: 1 <= i < |calls| ==> calls[i] == rest[i - 1];
        if (forall i :: 0 <= i < |calls| ==> calls[i].1.Some? && calls[i].0 !in m) &&
           (forall i, j :: 0 <= i < j < |calls| ==> calls[i].0 != calls[j].0) {
          forall i | 0 <= i < |rest|
            ensures rest[i].1.Some? && rest[i].0 !in m'
          {
            assert rest[i] == calls[i + 1];
          }
          forall i, j | 0 <= i < j < |rest|
            ensures rest[i].0 != rest[j].0
          {
            assert rest[i] == calls[i + 1] && rest[j] == calls[j + 1];
          }
        }
        if Replay(m, calls).Success? {
          forall i | 0 <= i < |calls|
            ensures calls[i].1.Some? && calls[i].0 !in m
          {
            if i > 0 {
              assert calls[i] == rest[i - 1];
            }
          }
          forall i, j | 0 <= i < j < |calls|
            ensures calls[i].0 != calls[j].0
          {
            if i > 0 {
              assert calls[i] == rest[i - 1] && calls[j] == rest[j - 1];
            } else {
              assert calls[j] == rest[j - 1];
            }
          }
        }
      } else {
        assert !(calls[0].1.Some? && calls[0].0 !in m);
      }
    }
  }

  /** After a successful series, each name finds the instance registered under it, and
      nothing else was added. */
  lemma {:induction false} ReplayContents<C>(m: map<string, C>, calls: seq<(string, Option<C>)>)
    requires Replay(m, calls).Success?
    ensures forall i :: 0 <= i < |calls| ==>
      calls[i].1.Some? && Lookup(Replay(m, calls).value, calls[i].0) == Success(calls[i].1.value)
    ensures forall n :: n in Replay(m, calls).value ==>
      n in m || exists i :: 0 <= i < |calls| && calls[i].0 == n
    decreases |calls|
  {
    if calls != [] {
      var (n, c) := calls[0];
      var rest := calls[1..];
      var m' := Register(m, n, c).value;
      ReplayContents(m', rest);
      ReplayKeeps(m', rest, n);
      forall i | 1 <= i < |calls|
        ensures calls[i] == rest[i - 1]
      {
      }
      forall k | k in Replay(m, calls).value
        ensures k in m || exists i :: 0 <= i < |calls| && calls[i].0 == k
      {
        if k !in m && k != n {
          var i :| 0 <= i < |rest| && rest[i].0 == k;
          assert calls[i + 1].0 == k;
        } else if k == n {
          assert calls[0].0 == k;
        }
      }
    }
  }

  /** Later successful registrations keep every entry already present. */
  lemma {:induction false} ReplayKeeps<C>(m: map<string, C>, calls: seq<(string, Option<C>)>, n: string)
    requires Replay(m, calls).Success? && n in m
    ensures n in Replay(m, calls).value && Replay(m, calls).value[n] == m[n]
    decreases |calls|
  {
    if calls != [] {
      ReplayKeeps(Register(m, calls[0].0, calls[0].1).value, calls[1..], n);
    }
  }

  /** The process-wide registry, initially empty. */
  class Registry<C> {
    var instances: map<string, C>

    constructor ()
      ensures instances == map[]
    {
      instances := map[];
    }

    /** `RegisterCrypto`: on success the instance is added; on failure (a Go panic) the
        error is returned and the registry is unchanged. */
    method RegisterCrypto(n: string, c: Option<C>) returns (err: Option<RegistryError>)
      modifies this
      ensures Register(old(instances), n, c).Success? ==>
        err.None? && instances == Register(old(instances), n, c).value
      ensures Register(old(instances), n, c).Failure? ==>
        err == Some(Register(old(instances), n, c).error) && instances == old(instances)
    {
      if c.None? {
        return Some(NilInstance);
      }
      if n in instances {
        return Some(DuplicateName(n));
      }
      instances := instances[n := c.value];
      err := None;
    }

    /** `NewCrypto`: the instance registered under `n`, or `UnknownName` (a Go panic). */
    method NewCrypto(n: string) returns (r: Result<C, RegistryError>)
      ensures r == Lookup(instances, n)
    {
      if n !in instances {
        return Failure(UnknownName(n));
      }
      r := Success(instances[n]);
    }
  }
}
