// The workspace CLI's function registry: one slot per reference key. Registering
// replaces whatever the key held; resolving reports whether the key was
// known.
module SrcRegistry {
  import opened Wrappers
  import opened Slots

  class FunctionRegistry {
    /** The slots, by reference key; a slot holds `None` until resolved. */
    var references: Refs

    /** `new`: no references. */
    constructor ()
      ensures references == map[]
    {
      references := map[];
    }

    /** `register`: put a slot holding `fref` under `key`, replacing an earlier one. */
    method Register(key: string, fref: Option<Func>)
      modifies this
      ensures references == old(references)[key := fref]
    {
      references := references[key := fref];
    }

    /** `resolve`: fill the slot of a registered key; `false`, and no change, for an unknown key. */
    method Resolve(k: string, f: Func) returns (found: bool)
      modifies this
      ensures found <==> k in old(references)
      ensures found ==> references == old(references)[k := Some(f)]
      ensures !found ==> references == old(references)
    {
      if k in references {
        references := references[k := Some(f)];
        return true;
      }
      return false;
    }

    /** `len` */
    function Len(): nat
      reads this
    {
      |references|
    }

    /** `resolved_count`: never more than `len`. */
    function ResolvedCountOf(): (n: nat)
      reads this
      ensures n <= Len()
      ensures n == Len() <==> (forall k :: k in references ==> references[k].Some?)
    {
      ResolvedCountAll(references);
      ResolvedCount(references)
    }
  }

  /** The key format of the registry's own test. */
  lemma ScopedKeyExample()
    ensures ScopedKey("ext-a", "math/lib", "add") == "ext-a:math/lib:add"
  {
  }
}
