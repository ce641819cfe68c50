// dfx-core's function registry: one slot per reference key. Registering a
// key twice is refused; resolving an unknown key is an error.
module DfxCoreRegistry {
  import opened Wrappers
  import opened Slots

  class FunctionRegistry {
    /** The slots, by reference key; a slot holds `None` until resolved. */
    var references: Refs

    /** `new`: no references. */
    constructor ()
      ensures references == map[]
    {
      references := map[];
    }

    /**
     * `register`: add a slot holding `fref` under a key not yet present;
     * a present key is refused and the registry stays as it was.
     */
    method Register(key: string, fref: Option<Func>) returns (r: Result<(), RegistryError>)
      modifies this
      ensures key in old(references) ==> r == Err(AlreadyExists(key)) && references == old(references)
      ensures key !in old(references) ==> r == Ok(()) && references == old(references)[key := fref]
    {
      if key in references {
        return Err(AlreadyExists(key));
      }
      references := references[key := fref];
      return Ok(());
    }

    /** `resolve`: fill the slot of a registered key; an unknown key is `NotFound`. */
    method Resolve(k: string, f: Func) returns (r: Result<(), RegistryError>)
      modifies this
      ensures k !in old(references) ==> r == Err(NotFound(k)) && references == old(references)
      ensures k in old(references) ==> r == Ok(()) && references == old(references)[k := Some(f)]
    {
      if k !in references {
        return Err(NotFound(k));
      }
      references := references[k := Some(f)];
      return Ok(());
    }

    /** `len` */
    function Len(): nat
      reads this
    {
      |references|
    }

    /** `is_empty`: no slot registered at all. */
    function IsEmpty(): (b: bool)
      reads this
      ensures b <==> Len() == 0
      ensures b <==> references == map[]
    {
      |references| == 0
    }

    /** `resolved_count`: never more than `len`. */
    function ResolvedCountOf(): (n: nat)
      reads this
      ensures n <= Len()
      ensures n == Len() <==> (forall k :: k in references ==> references[k].Some?)
    {
      ResolvedCountAll(references);
      ResolvedCount(references)
    }

    /** `contains` */
    predicate Contains(k: string)
      reads this
    {
      k in references
    }

    /** `is_resolved`: registered and filled; an unknown key is not resolved. */
    predicate IsResolved(k: string)
      reads this
      ensures IsResolved(k) ==> Contains(k)
    {
      k in references && references[k].Some?
    }
  }
}
