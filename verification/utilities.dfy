/** The utility registry: a map from type keys to instances, with a lookup
    that falls back to the queried type's ancestry and memoizes its answer. */
module Utilities {
  import opened Wrappers

  /** A Python type used as a dictionary key. `Object` is the root of every
      class hierarchy and the registry's default sentinel; `Class(id)` is any
      other class, and `id` is that class's identity (not its `__name__`: two
      distinct classes may share a name). Only types are keys: in Python a
      hashable non-type key that is not stored raises `AttributeError` when
      the walk reads its `__mro__`, and an unhashable key raises `TypeError`
      at the dictionary access; this model covers neither. */
  datatype TypeKey = Object | Class(id: string)

  /** The method-resolution order of every type: most specific first,
      starting (in Python) with the type itself. It is an input of the model,
      never computed by it. */
  type Ancestry = TypeKey -> seq<TypeKey>

  /** The exception raised when no entry answers a query; it carries the
      queried type. */
  datatype ComponentNotFound = ComponentNotFound(target: TypeKey)

  /** `registry` is the one dictionary holding both registrations and
      memoized answers; the walk stops when it meets `sentinel`. */
  datatype UtilityRegistry<V> = UtilityRegistry(registry: map<TypeKey, Option<V>>, sentinel: TypeKey)

  /** What a lookup returns, together with the registry after it. */
  datatype LookupOutcome<V> = LookupOutcome(result: Result<Option<V>, ComponentNotFound>, after: UtilityRegistry<V>)

  /** A fresh registry: no entries, and the given sentinel (by default the root). */
  function NewUtilityRegistry<V>(sentinel: TypeKey := Object): (r: UtilityRegistry<V>)
    ensures r.registry == map[]
    ensures r.sentinel == sentinel
  {
    UtilityRegistry(map[], sentinel)
  }

  /** `dict.get`: the stored value, or `None` when the key is absent. */
  function Get<V>(m: map<TypeKey, Option<V>>, k: TypeKey): (v: Option<V>)
  {
    if k in m then m[k] else None
  }

  /** Stores `instance` under `k`, replacing whatever was there. */
  function Register<V>(r: UtilityRegistry<V>, k: TypeKey, instance: Option<V>): (r': UtilityRegistry<V>)
    ensures r'.sentinel == r.sentinel
    ensures r'.registry.Keys == r.registry.Keys + {k}
    ensures r'.registry[k] == instance
    ensures forall j :: j in r.registry && j != k ==> r'.registry[j] == r.registry[j]
  {
    UtilityRegistry(r.registry[k := instance], r.sentinel)
  }

  /** The walk reaches position `i` of `mro`: neither it nor anything before it
      is the sentinel. */
  ghost predicate Reached(mro: seq<TypeKey>, sentinel: TypeKey, i: int)
  {
    0 <= i < |mro| && forall j :: 0 <= j <= i ==> mro[j] != sentinel
  }

  /** Position `i` is the first reached position with a non-`None` entry, and
      that entry is `v`. */
  ghost predicate AnswersAt<V>(r: UtilityRegistry<V>, mro: seq<TypeKey>, i: int, v: V)
  {
    && Reached(mro, r.sentinel, i)
    && Get(r.registry, mro[i]) == Some(v)
    && forall j :: 0 <= j < i ==> Get(r.registry, mro[j]).None?
  }

  /** `v` is the answer the ancestry `mro` gives in `r`. */
  ghost predicate HasAnswer<V>(r: UtilityRegistry<V>, mro: seq<TypeKey>, v: V)
  {
    exists i :: AnswersAt(r, mro, i, v)
  }

  /** No reached position of `mro` has a non-`None` entry in `r`. */
  ghost predicate NoAnswer<V>(r: UtilityRegistry<V>, mro: seq<TypeKey>)
  {
    forall i :: Reached(mro, r.sentinel, i) ==> Get(r.registry, mro[i]).None?
  }

  /** An answer found in the tail of an ancestry whose head was passed over is
      an answer of the whole ancestry. */
  lemma AnswerShift<V>(r: UtilityRegistry<V>, mro: seq<TypeKey>, v: V)
    requires |mro| > 0 && mro[0] != r.sentinel && Get(r.registry, mro[0]).None?
    requires HasAnswer(r, mro[1..], v)
    ensures HasAnswer(r, mro, v)
  {
    var i :| AnswersAt(r, mro[1..], i, v);
    assert AnswersAt(r, mro, i + 1, v) by {
      forall j | 0 <= j <= i + 1
        ensures mro[j] != r.sentinel
      {
        if j > 0 { assert mro[j] == mro[1..][j - 1]; }
      }
      forall j | 0 <= j < i + 1
        ensures Get(r.registry, mro[j]).None?
      {
        if j > 0 { assert mro[j] == mro[1..][j - 1]; }
      }
    }
  }

  /** `walk_for_parent`: the first entry, in ancestry order and before the
      sentinel, that is not `None`; otherwise `ComponentNotFound(target)`. */
  function WalkForParent<V>(r: UtilityRegistry<V>, target: TypeKey, mro: seq<TypeKey>): (res: Result<V, ComponentNotFound>)
    ensures res.Success? ==> HasAnswer(r, mro, res.value)
    ensures res.Failure? ==> res.error == ComponentNotFound(target) && NoAnswer(r, mro)
    decreases |mro|
  {
    if |mro| == 0 then
      Failure(ComponentNotFound(target))
    else if r.sentinel == mro[0] then
      Failure(ComponentNotFound(target))
    else
      match Get(r.registry, mro[0])
      case Some(v) =>
        assert AnswersAt(r, mro, 0, v);
        Success(v)
      case None =>
        var res := WalkForParent(r, target, mro[1..]);
        if res.Success? then
          AnswerShift(r, mro, res.value);
          res
        else
          assert forall i :: Reached(mro, r.sentinel, i) && i > 0 ==> Reached(mro[1..], r.sentinel, i - 1);
          res
  }

  /** The same walk as a loop over the ancestry, as the source writes it. */
  method WalkForParentLoop<V>(r: UtilityRegistry<V>, target: TypeKey, mro: seq<TypeKey>) returns (res: Result<V, ComponentNotFound>)
    ensures res.Success? ==> HasAnswer(r, mro, res.value)
    ensures res.Failure? ==> res.error == ComponentNotFound(target) && NoAnswer(r, mro)
    ensures res == WalkForParent(r, target, mro)
  {
    var i := 0;
    while i < |mro|
      invariant 0 <= i <= |mro|
      invariant forall j :: 0 <= j < i ==> mro[j] != r.sentinel && Get(r.registry, mro[j]).None?
      invariant WalkForParent(r, target, mro[i..]) == WalkForParent(r, target, mro)
    {
      if r.sentinel == mro[i] {
        return Failure(ComponentNotFound(target));
      }
      var v := Get(r.registry, mro[i]);
      if v.Some? {
        assert AnswersAt(r, mro, i, v.value);
        return Success(v.value);
      }
      assert mro[i..][1..] == mro[i + 1..];
      i := i + 1;
    }
    return Failure(ComponentNotFound(target));
  }

  /** `lookup`: a direct hit returns the stored value (even `None`) and changes
      nothing; a miss walks the queried type's ancestry, memoizes a found
      answer under the queried type, and on failure leaves the registry as it
      was. */
  function Lookup<V>(r: UtilityRegistry<V>, cls: TypeKey, mro: Ancestry): (out: LookupOutcome<V>)
    ensures out.after.sentinel == r.sentinel
    ensures cls in r.registry ==> out.result == Success(r.registry[cls]) && out.after == r
    ensures cls !in r.registry && out.result.Success? ==>
      && out.result.value.Some?
      && HasAnswer(r, mro(cls), out.result.value.value)
      && out.after.registry.Keys == r.registry.Keys + {cls}
      && out.after.registry[cls] == out.result.value
    ensures out.result.Failure? ==>
      && cls !in r.registry
      && out.result.error == ComponentNotFound(cls)
      && NoAnswer(r, mro(cls))
      && out.after == r
    ensures forall k :: k in r.registry ==> k in out.after.registry && out.after.registry[k] == r.registry[k]
  {
    if cls in r.registry then
      LookupOutcome(Success(r.registry[cls]), r)
    else
      match WalkForParent(r, cls, mro(cls))
      case Success(v) => LookupOutcome(Success(Some(v)), Register(r, cls, Some(v)))
      case Failure(e) => LookupOutcome(Failure(e), r)
  }
}
