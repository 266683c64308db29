/** The registry façade and its factory. */
module Garakta {
  import opened Wrappers
  import opened Utilities

  /** The façade: subscripting forwards to the utility registry. The adapter
      slot is always `None` and is not modelled. */
  datatype Registry<V> = Registry(utilities: UtilityRegistry<V>)

  /** `create_registry`: an empty utility registry whose sentinel is the root. */
  function CreateRegistry<V>(): (reg: Registry<V>)
    ensures reg.utilities.registry == map[]
    ensures reg.utilities.sentinel == Object
  {
    Registry(NewUtilityRegistry())
  }

  /** `reg[k]`: the utility lookup of `k`, and the registry after it. */
  function GetItem<V>(reg: Registry<V>, k: TypeKey, mro: Ancestry): (out: (Result<Option<V>, ComponentNotFound>, Registry<V>))
    ensures out.0 == Lookup(reg.utilities, k, mro).result
    ensures out.1.utilities == Lookup(reg.utilities, k, mro).after
    ensures k in reg.utilities.registry ==> out == (Success(reg.utilities.registry[k]), reg)
  {
    var o := Lookup(reg.utilities, k, mro);
    (o.result, Registry(o.after))
  }
}
