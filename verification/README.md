# garakta utility registry in Dafny

garakta is a small Python component registry. Its utility registry
(`UtilitiyRegistry`) is one dictionary from types to instances. `register(k, v)`
writes one key. `lookup(cls)` returns the stored value on a direct hit. On a
miss it walks `cls.__mro__` until it meets the sentinel type (by default
`object`). It returns the first entry that is not `None`, and stores that answer
under `cls` in the same dictionary. If no such entry exists, it raises
`ComponentNotFound(cls)`. The façade `Registry` forwards `reg[k]` to
that lookup, and `create_registry` builds a façade around a fresh utility
registry.

The model is functional:

- `Utilities.TypeKey` stands for a Python type. `Object` is the root. Any other
  class is `Class(id)`, where `id` is the class's identity, not its name.
- `Utilities.Ancestry` gives every type's method-resolution order. It is an
  input of the model, most specific first.
- Python's `None` is `Wrappers.Option.None`. It may be stored under a key:
  a direct hit returns it, and the walk skips it as if it were absent.
- An operation that can raise returns a `Wrappers.Result`.
  `ComponentNotFound` carries the queried type.
- `Lookup` returns the registry after the call together with its result,
  because the source memoizes in place.

The walk has a reference definition in `Utilities`. `Reached` says the walk
gets to a given position. `AnswersAt` and `HasAnswer` say that position holds
the first non-`None` entry. `NoAnswer` says no reached position holds one.
`WalkMatchesSpec` proves that the walk agrees with this definition in both
directions.

Registering under the sentinel is not a catch-all default. The walk compares
each type with the sentinel (garakta/__init__.py:32) before it reads that
type's entry (line 34), so an entry under the sentinel is never read.
`UtilityProperties.SentinelIsNotCatchAll` proves this. Registrations and
memoized answers live in one dictionary (line 27), and the model keeps them
together.

## Model

| member | source | states |
|---|---|---|
| Utilities.NewUtilityRegistry | garakta/__init__.py:16-18 | a new utility registry is empty and uses the given sentinel, which defaults to the root `object` |
| Utilities.Register | garakta/__init__.py:20-21 | after `register(k, v)`, `k` maps to `v`; no other key changes; only `k` is added; the sentinel is kept |
| Utilities.WalkForParent | garakta/__init__.py:30-37 | on success, the result is the first non-`None` entry in ancestry order before the sentinel; on failure, no such entry exists and the error names the queried type |
| Utilities.WalkForParentLoop | garakta/__init__.py:31-37 | the `for` loop over the ancestry meets the same success and failure characterisation and gives the same result as the recursive walk |
| Utilities.Lookup | garakta/__init__.py:23-28 | a direct hit returns the stored value (even `None`) and changes nothing; on a miss, success memoizes a non-`None` walk answer under the queried type only; failure names the queried type, means no ancestor answers, and leaves the registry unchanged; existing entries are never changed |
| Garakta.GetItem | garakta/__init__.py:11-12 | `reg[k]` gives the utility lookup's result and post-state; a direct hit returns the stored value and leaves the façade unchanged |
| Garakta.CreateRegistry | garakta/__init__.py:44-48 | the façade starts with an empty utility registry whose sentinel is `object` |
| UtilityProperties.AnswerUnique | garakta/__init__.py:31-36 | an ancestry has at most one answer, so the walk is a function of the registry and the ancestry |
| UtilityProperties.WalkMatchesSpec | garakta/__init__.py:30-37 | the walk returns `v` if and only if `v` is the first non-`None` entry before the sentinel; it raises `ComponentNotFound(target)` if and only if there is none |
| UtilityProperties.WalkReadsOnlyReached | garakta/__init__.py:31-36 | the walk reads only the entries of types before the first occurrence of the sentinel; two registries that agree on those entries give the same walk |
| UtilityProperties.UnreachedRegistrationIrrelevant | garakta/__init__.py:31-34 | registering a type the walk does not reach (a sibling, the sentinel, anything after it) does not change the walk |
| UtilityProperties.NoneIsAbsence | garakta/__init__.py:34-36 | storing `None` under a type that has no non-`None` entry does not change any walk |
| UtilityProperties.SentinelEntryNeverReturned | garakta/__init__.py:32-34 | a value registered under the sentinel does not change the lookup result of any other type |
| UtilityProperties.SentinelIsNotCatchAll | garakta/__init__.py:32-33 | when only the sentinel is registered, every other type's lookup fails with `ComponentNotFound` naming that type |
| UtilityProperties.RegisterThenLookup | garakta/__init__.py:20-25 | after `register(k, v)`, `lookup(k)` returns exactly `v` and changes nothing, whatever the ancestry |
| UtilityProperties.MemoizedLookupIsStable | garakta/__init__.py:24-27 | after a successful lookup, the answer is stored under the queried type; the next lookup returns the same value from the map for any ancestry, so it never walks |
| UtilityProperties.MemoizationIsPerKey | garakta/__init__.py:27 | a lookup memoizes under the queried type only; any other unregistered type still walks on its first lookup |
| UtilityProperties.MemoSurvivesRegistration | garakta/__init__.py:20-27 | a memoized answer is not invalidated by a later registration under any other type, ancestors included |
| UtilityProperties.FailedLookupRepeats | garakta/__init__.py:26-27 | a failed lookup has no side effect, so repeating it fails in the same way |
| UtilityProperties.FreshRegistryFindsNothing | garakta/__init__.py:44-48 | on a fresh registry, every subscript fails with `ComponentNotFound` naming the queried type and leaves the registry empty |
| UtilityProperties.InheritedLookupScenario | garakta/tests/test_utilities.py:56-64 | on a `create_registry()` registry with `FileStorage` and `Storage` registered, `reg[MockStorage]` resolves to the `Storage` entry; the answer is memoized under `MockStorage` alone |

## Left out

- The adapter registry: `Adapters` is an empty class, and `create_registry` passes `None` for it. So `Garakta.Registry` holds only the utility registry.
- Validation hooks and `InvalidComponent`: the tests name them, but `garakta/__init__.py` does not define them.
- Computing `__mro__`: Python's C3 linearisation is runtime behaviour. The ancestry is a given function from types to sequences.
- Non-type keys: only types are keys here. In the source, a hashable non-type key that is not stored raises `AttributeError` when the walk reads its `__mro__` (garakta/__init__.py:31). An unhashable key raises `TypeError` at the dictionary access (line 25 in `lookup`, line 21 in `register`).
- Python object identity: keys and values are compared by equality. Identity and `is not None` become constructor tests on `Option`.
- Replacing `walk_for_parent` on an instance at run time (the test does this): it is modelled only as "the lookup is served from the map". `MemoizedLookupIsStable` states this for every ancestry.
- The example domain classes and their `save` behaviour, including JSON file output: they are used only as lookup targets.
