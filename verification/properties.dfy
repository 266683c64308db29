/** Properties of the utility registry that relate several calls. */
module UtilityProperties {
  import opened Wrappers
  import opened Utilities
  import opened Garakta

  /** An ancestry has at most one answer: the first non-`None` entry. */
  lemma AnswerUnique<V>(r: UtilityRegistry<V>, mro: seq<TypeKey>, v1: V, v2: V)
    requires HasAnswer(r, mro, v1) && HasAnswer(r, mro, v2)
    ensures v1 == v2
  {
  }

  /** The walk agrees exactly with its reference definition, in both
      directions: it succeeds with `v` iff `v` is the first non-`None` entry
      before the sentinel, and it fails iff there is none. */
  lemma WalkMatchesSpec<V>(r: UtilityRegistry<V>, target: TypeKey, mro: seq<TypeKey>, v: V)
    ensures WalkForParent(r, target, mro) == Success(v) <==> HasAnswer(r, mro, v)
    ensures WalkForParent(r, target, mro) == Failure(ComponentNotFound(target)) <==> NoAnswer(r, mro)
  {
  }

  /** The walk reads only the entries of the types it reaches: two registries
      with the same sentinel that agree on those entries give the same walk. */
  lemma WalkReadsOnlyReached<V>(r1: UtilityRegistry<V>, r2: UtilityRegistry<V>, target: TypeKey, mro: seq<TypeKey>)
    requires r1.sentinel == r2.sentinel
    requires forall i :: Reached(mro, r1.sentinel, i) ==> Get(r1.registry, mro[i]) == Get(r2.registry, mro[i])
    ensures WalkForParent(r1, target, mro) == WalkForParent(r2, target, mro)
  {
  }

  /** Registering a type the walk never reaches (a sibling, the sentinel, or
      anything after the sentinel) does not change the walk. */
  lemma UnreachedRegistrationIrrelevant<V>(r: UtilityRegistry<V>, k: TypeKey, instance: Option<V>, target: TypeKey, mro: seq<TypeKey>)
    requires forall i :: Reached(mro, r.sentinel, i) ==> mro[i] != k
    ensures WalkForParent(Register(r, k, instance), target, mro) == WalkForParent(r, target, mro)
  {
  }

  /** Storing `None` under a type is, for the walk, the same as storing
      nothing there. */
  lemma NoneIsAbsence<V>(r: UtilityRegistry<V>, k: TypeKey, target: TypeKey, mro: seq<TypeKey>)
    requires Get(r.registry, k).None?
    ensures WalkForParent(Register(r, k, None), target, mro) == WalkForParent(r, target, mro)
  {
  }

  /** A value registered under the sentinel is never returned for a
      different type: the lookup result is the same as if nothing were
      registered there. */
  lemma SentinelEntryNeverReturned<V>(r: UtilityRegistry<V>, instance: Option<V>, cls: TypeKey, mro: Ancestry)
    requires cls != r.sentinel
    ensures Lookup(Register(r, r.sentinel, instance), cls, mro).result == Lookup(r, cls, mro).result
  {
  }

  /** Registering only under the sentinel is not a catch-all default: every
      other type still fails with `ComponentNotFound` naming itself. */
  lemma SentinelIsNotCatchAll<V>(sentinel: TypeKey, instance: V, cls: TypeKey, mro: Ancestry)
    requires cls != sentinel
    ensures Lookup(Register(NewUtilityRegistry(sentinel), sentinel, Some(instance)), cls, mro).result
         == Failure(ComponentNotFound(cls))
  {
  }

  /** Direct hit: after `register(k, v)`, looking `k` up returns exactly `v`
      (even `None`) and changes nothing, whatever the ancestry says. */
  lemma RegisterThenLookup<V>(r: UtilityRegistry<V>, k: TypeKey, instance: Option<V>, mro: Ancestry)
    ensures Lookup(Register(r, k, instance), k, mro) == LookupOutcome(Success(instance), Register(r, k, instance))
  {
  }

  /** Memoization: once a lookup of `cls` succeeded, the next lookup of `cls`
      is served from the map, returns the same value and changes nothing; the
      ancestry is not consulted, so any ancestry gives the same outcome. */
  lemma MemoizedLookupIsStable<V>(r: UtilityRegistry<V>, cls: TypeKey, mro: Ancestry, mro2: Ancestry)
    requires Lookup(r, cls, mro).result.Success?
    ensures cls in Lookup(r, cls, mro).after.registry
    ensures Lookup(Lookup(r, cls, mro).after, cls, mro2) == LookupOutcome(Lookup(r, cls, mro).result, Lookup(r, cls, mro).after)
  {
  }

  /** Memoization is per key: a lookup of `cls` memoizes nothing under any
      other type, so a type not yet looked up still walks. */
  lemma MemoizationIsPerKey<V>(r: UtilityRegistry<V>, cls: TypeKey, other: TypeKey, mro: Ancestry)
    requires other != cls && other !in r.registry
    ensures other !in Lookup(r, cls, mro).after.registry
  {
  }

  /** Cache monotonicity: a memoized answer for `cls` survives any later
      registration under another type, even one that would now change what
      the walk finds. */
  lemma MemoSurvivesRegistration<V>(r: UtilityRegistry<V>, cls: TypeKey, k: TypeKey, instance: Option<V>, mro: Ancestry)
    requires Lookup(r, cls, mro).result.Success?
    requires k != cls
    ensures Lookup(Register(Lookup(r, cls, mro).after, k, instance), cls, mro).result == Lookup(r, cls, mro).result
  {
  }

  /** A failed lookup has no side effect: looking the same type up again
      fails the same way. */
  lemma FailedLookupRepeats<V>(r: UtilityRegistry<V>, cls: TypeKey, mro: Ancestry)
    requires Lookup(r, cls, mro).result.Failure?
    ensures Lookup(Lookup(r, cls, mro).after, cls, mro) == Lookup(r, cls, mro)
  {
  }

  /** On a fresh registry every subscript fails with `ComponentNotFound`
      naming the queried type, and leaves the registry empty. */
  lemma FreshRegistryFindsNothing<V>(k: TypeKey, mro: Ancestry)
    ensures GetItem(CreateRegistry<V>(), k, mro) == (Failure(ComponentNotFound(k)), CreateRegistry<V>())
  {
  }

  /** The class hierarchy `object <- Storage <- {FileStorage, MockStorage}`. */
  function StorageAncestry(k: TypeKey): seq<TypeKey>
  {
    match k
    case Object => [Object]
    case Class(id) =>
      if id == "Storage" then [k, Object]
      else if id == "FileStorage" || id == "MockStorage" then [k, Class("Storage"), Object]
      else [k, Object]
  }

  /** With `FileStorage` and `Storage` registered on a fresh registry,
      `reg[MockStorage]` resolves to the `Storage` entry, not its sibling's,
      and the answer is memoized under `MockStorage` alone. */
  lemma InheritedLookupScenario<V>(file: V, mock: V)
    ensures var reg := CreateRegistry<V>();
      var reg' := Registry(Register(Register(reg.utilities, Class("FileStorage"), Some(file)), Class("Storage"), Some(mock)));
      && GetItem(reg', Class("MockStorage"), StorageAncestry).0 == Success(Some(mock))
      && GetItem(reg', Class("MockStorage"), StorageAncestry).1.utilities.registry.Keys
         == {Class("FileStorage"), Class("Storage"), Class("MockStorage")}
  {
    var r := Register(Register(CreateRegistry<V>().utilities, Class("FileStorage"), Some(file)), Class("Storage"), Some(mock));
    var mro := StorageAncestry(Class("MockStorage"));
    assert AnswersAt(r, mro, 1, mock);
    WalkMatchesSpec(r, Class("MockStorage"), mro, mock);
  }
}
