// Function references shared between extensions. An importing extension
// gets a slot per imported library function; the slot starts empty and is
// filled when the exporting extension's function is resolved. A registry
// maps reference keys to the current content of their slots.
module Slots {
  import opened Wrappers
  import opened Graphs

  /** A component function handle, compared by identity only. */
  datatype Func = Func(id: nat)

  /** Reference key to slot content (`None` until resolved). */
  type Refs = map<string, Option<Func>>

  /** The registry's errors (icp-core and dfx-core). */
  datatype RegistryError = NotFound(key: string) | AlreadyExists(key: string)

  /** `create_key(interface, function)`: `interface:function`. */
  function Key(iface: string, f: string): string {
    iface + ":" + f
  }

  /** The workspace CLI's `create_key(extension, interface, function)`: `extension:interface:function`. */
  function ScopedKey(ext: string, iface: string, f: string): string {
    ext + ":" + Key(iface, f)
  }

  /**
   * Keys tell their parts apart when the function name holds no `:`
   * (function names are identifiers): the part after the last `:` is the
   * function, the rest the interface.
   */
  lemma {:induction false} KeyParts(i1: string, f1: string, i2: string, f2: string)
    requires ':' !in f1 && ':' !in f2
    requires Key(i1, f1) == Key(i2, f2)
    ensures i1 == i2 && f1 == f2
  {
    var k := Key(i1, f1);
    if |f1| < |f2| {
      SeparatorBeforeFunction(i1, f1);
      assert false;
    } else if |f2| < |f1| {
      SeparatorBeforeFunction(i2, f2);
      assert false;
    }
    assert |f1| == |f2|;
    assert f1 == k[|k| - |f1|..] == f2;
    assert i1 == k[..|i1|] == i2;
  }

  lemma SeparatorBeforeFunction(iface: string, f: string)
    ensures Key(iface, f)[|iface|] == ':'
    ensures Key(iface, f)[|iface| + 1..] == f
  {
  }

  /** The keys whose slots hold a function. */
  function ResolvedKeys(refs: Refs): (s: set<string>)
    ensures s <= refs.Keys
    ensures forall k :: k in s <==> k in refs && refs[k].Some?
  {
    set k | k in refs && refs[k].Some?
  }

  /** `resolved_count`: how many slots hold a function, never more than there are slots. */
  function ResolvedCount(refs: Refs): (n: nat)
    ensures n <= |refs|
  {
    SubsetCard(ResolvedKeys(refs), refs.Keys);
    |ResolvedKeys(refs)|
  }

  /** Filling slots never lowers the resolved count. */
  lemma ResolvedCountGrows(before: Refs, after: Refs)
    requires before.Keys == after.Keys
    requires forall k :: k in before && before[k].Some? ==> after[k].Some?
    ensures ResolvedCount(before) <= ResolvedCount(after)
  {
    SubsetCard(ResolvedKeys(before), ResolvedKeys(after));
  }

  /** Filling one empty slot raises the resolved count by exactly one. */
  lemma ResolvedCountFill(refs: Refs, k: string, f: Func)
    requires k in refs && refs[k].None?
    ensures ResolvedCount(refs[k := Some(f)]) == ResolvedCount(refs) + 1
  {
    assert ResolvedKeys(refs[k := Some(f)]) == ResolvedKeys(refs) + {k};
  }

  /** Every slot is filled exactly when the resolved count reaches the number of slots. */
  lemma ResolvedCountAll(refs: Refs)
    ensures ResolvedCount(refs) == |refs| <==> forall k :: k in refs ==> refs[k].Some?
  {
    if forall k :: k in refs ==> refs[k].Some? {
      assert ResolvedKeys(refs) == refs.Keys;
    } else {
      var k :| k in refs && refs[k].None?;
      SubsetCard(ResolvedKeys(refs), refs.Keys - {k});
    }
  }
}
