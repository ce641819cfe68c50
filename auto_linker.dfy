// The prototype automatic linker: the components loaded, their imports and
// exports as interface items, and one shared slot per imported function.
// The engine, store and component handles are left out; loading leaves the
// three tables keyed by the same component names.
module AutoLinking {
  import opened Wrappers
  import opened Graphs
  import opened Slots
  import opened AutoLinkerSpec

  /** Why no instantiation order exists. */
  datatype OrderError =
    | CircularDependency(component: string)
    | UnsatisfiedDependency(component: string, iface: string)

  class AutoLinker {
    /** The loaded components' names, in the components map's iteration order. */
    var components: seq<string>
    var imports: Table
    var exports: Table
    /** Reference key (`component:interface:item`) to slot. */
    var functionRefs: Refs

    predicate Valid()
      reads this
    {
      && TableValid(imports) && TableValid(exports) && Distinct(components)
      && Elems(components) == imports.entries.Keys && imports.entries.Keys == exports.entries.Keys
    }

    /** The linker once its components are loaded, with no slot yet. */
    constructor (components: seq<string>, imports: Table, exports: Table)
      requires TableValid(imports) && TableValid(exports) && Distinct(components)
      requires Elems(components) == imports.entries.Keys == exports.entries.Keys
      ensures this.components == components && this.imports == imports && this.exports == exports
      ensures functionRefs == map[]
      ensures Valid()
    {
      this.components := components;
      this.imports := imports;
      this.exports := exports;
      functionRefs := map[];
    }

    /**
     * `init_function_refs`: nothing once any slot exists; otherwise one
     * empty slot per import that names both an interface and an item,
     * under its reference key, and no other slot.
     */
    method InitFunctionRefs()
      requires Valid()
      modifies this`functionRefs
      ensures old(functionRefs) != map[] ==> functionRefs == old(functionRefs)
      ensures old(functionRefs) == map[] ==>
        (forall k :: k in functionRefs <==> IsImportRef(imports, imports.entries.Keys, k))
        && (forall k :: k in functionRefs ==> functionRefs[k] == None)
    {
      if functionRefs != map[] {
        return;
      }
      for i := 0 to |imports.order|
        invariant functionRefs.Keys == ImportRefKeys(imports, imports.order[..i])
        invariant forall k :: k in functionRefs ==> functionRefs[k] == None
      {
        assert imports.order[..i + 1][..i] == imports.order[..i];
        var c := imports.order[i];
        assert c in imports.entries by {
          assert c in Elems(imports.order);
        }
        AddImportRefs(c, imports.entries[c]);
      }
      assert imports.order[..|imports.order|] == imports.order;
      forall k ensures k in functionRefs <==> IsImportRef(imports, imports.entries.Keys, k) {
        ImportRefKeysMeaning(imports, imports.order, k);
      }
    }

    /**
     * The inner loop of `init_function_refs` for component `c`: an empty
     * slot for each of its imports that names both an interface and an
     * item; every other slot stays as it was.
     */
    method AddImportRefs(c: string, items: seq<InterfaceItem>)
      modifies this`functionRefs
      ensures functionRefs.Keys == old(functionRefs.Keys) + ItemRefKeys(c, items)
      ensures forall k :: k in functionRefs ==>
        functionRefs[k] == if k in ItemRefKeys(c, items) then None else old(functionRefs)[k]
    {
      for j := 0 to |items|
        invariant functionRefs.Keys == old(functionRefs.Keys) + ItemRefKeys(c, items[..j])
        invariant forall k :: k in functionRefs ==>
          functionRefs[k] == if k in ItemRefKeys(c, items[..j]) then None else old(functionRefs)[k]
      {
        assert items[..j + 1][..j] == items[..j];
        if items[j].interfaceName == "" || items[j].itemName == "" {
          continue;
        }
        var key := CreateRefKey(c, items[j].interfaceName, items[j].itemName);
        functionRefs := functionRefs[key := None];
      }
      assert items[..|items|] == items;
    }

    /**
     * `discover_functions`: every import and export item of every loaded
     * component is replaced by its discovered form; the tables keep their
     * keys and iteration orders.
     */
    method DiscoverFunctions()
      requires Valid()
      modifies this`imports, this`exports
      ensures Valid()
      ensures Rediscovered(old(exports), exports) && Rediscovered(old(imports), imports)
    {
      for i := 0 to |components|
        invariant Valid()
        invariant PartlyRediscovered(old(exports), exports, components[..i])
        invariant PartlyRediscovered(old(imports), imports, components[..i])
      {
        var c := components[i];
        assert components[..i + 1] == components[..i] + [c];
        DistinctPrefix(components, i);
        assert c in Elems(components);
        var exps := DiscoverItems(exports.entries[c]);
        RediscoverStep(old(exports), exports, components[..i], c, exps);
        exports := exports.(entries := exports.entries[c := exps]);
        var imps := DiscoverItems(imports.entries[c]);
        RediscoverStep(old(imports), imports, components[..i], c, imps);
        imports := imports.(entries := imports.entries[c := imps]);
      }
      assert components[..|components|] == components;
    }

    /**
     * `determine_instantiation_order`: visiting the components in the
     * components map's order, each after the first-found exporter of each
     * of its non-empty imports. On success every component is listed once,
     * providers first; the search fails exactly when the dependency graph
     * has a cycle or some import has no exporter, and the error names one.
     */
    method DetermineInstantiationOrder() returns (r: Result<seq<string>, OrderError>)
      requires Valid()
      ensures r.Ok? ==> IsTopoOrder(DepGraph(imports, exports), r.value)
      ensures r.Ok? <==> (!HasCycle(DepGraph(imports, exports))
        && forall c :: c in exports.entries ==> ImportsSatisfied(imports, exports, c))
      ensures r.Err? && r.error.CircularDependency? ==> HasCycle(DepGraph(imports, exports))
      ensures r.Err? && r.error.UnsatisfiedDependency? ==>
        r.error.component in exports.entries && Unsatisfied(imports, exports, r.error.component, r.error.iface)
    {
      var order: seq<string> := [];
      var visited: set<string> := {};
      var visiting: set<string> := {};
      for i := 0 to |components|
        invariant Searching(imports, exports, order, visited, {}, [])
        invariant visiting == {}
        invariant Elems(components[..i]) <= visited
      {
        assert components[..i + 1] == components[..i] + [components[i]];
        ElemsSnoc(components[..i], components[i]);
        var c := components[i];
        assert c in Elems(components);
        if c !in visited {
          var res;
          res, order, visited, visiting := Visit(c, order, visited, visiting, [], imports, exports);
          if res.Err? {
            UnsatisfiedBreaks(imports, exports, res.error);
            return Err(res.error);
          }
        }
      }
      assert components[..|components|] == components;
      CompleteOrderAcyclic(imports, exports, order);
      return Ok(order);
    }

    /**
     * `check_dependencies_satisfied`: every non-empty import of `c` is
     * exported by some component of `instantiated`.
     */
    method CheckDependenciesSatisfied(c: string, instantiated: set<string>) returns (b: bool)
      requires Valid()
      ensures b <==> forall k :: 0 <= k < |ItemsOf(imports, c)| && ItemsOf(imports, c)[k].interfaceName != "" ==>
        ExportedAmong(exports, instantiated, ItemsOf(imports, c)[k].interfaceName)
    {
      var imps := if c in imports.entries then imports.entries[c] else [];
      assert imps == ItemsOf(imports, c);
      for j := 0 to |imps|
        invariant forall k :: 0 <= k < j && imps[k].interfaceName != "" ==>
          ExportedAmong(exports, instantiated, imps[k].interfaceName)
      {
        if imps[j].interfaceName == "" {
          continue;
        }
        var found := ExporterAmong(exports, instantiated, imps[j].interfaceName);
        if !found {
          assert ItemsOf(imports, c)[j].interfaceName != "";
          return false;
        }
      }
      return true;
    }
  }

  /** `after` lists, under the same keys and order, the discovered items of `before`. */
  predicate Rediscovered(before: Table, after: Table) {
    && after.order == before.order && after.entries.Keys == before.entries.Keys
    && forall n :: n in after.entries ==> DiscoveredFrom(before.entries[n], after.entries[n])
  }

  /** The components in `done` are rediscovered, the others untouched. */
  predicate PartlyRediscovered(before: Table, after: Table, done: seq<string>) {
    && after.order == before.order && after.entries.Keys == before.entries.Keys
    && (forall n :: n in after.entries && n in done ==> DiscoveredFrom(before.entries[n], after.entries[n]))
    && (forall n :: n in after.entries && n !in done ==> after.entries[n] == before.entries[n])
  }

  /** Rewriting one more component's items. */
  lemma RediscoverStep(before: Table, after: Table, done: seq<string>, c: string, items: seq<InterfaceItem>)
    requires PartlyRediscovered(before, after, done)
    requires c in after.entries && c !in done
    requires DiscoveredFrom(after.entries[c], items)
    ensures PartlyRediscovered(before, after.(entries := after.entries[c := items]), done + [c])
    ensures TableValid(after) ==> TableValid(after.(entries := after.entries[c := items]))
  {
  }

  lemma DistinctPrefix(s: seq<string>, i: nat)
    requires Distinct(s) && i < |s|
    ensures s[i] !in s[..i]
  {
    forall m | 0 <= m < i ensures s[..i][m] != s[i] {
      assert s[..i][m] == s[m];
    }
  }

  /** The inner loops of `discover_functions`: each item rewritten in place. */
  method DiscoverItems(items: seq<InterfaceItem>) returns (out: seq<InterfaceItem>)
    ensures DiscoveredFrom(items, out)
  {
    out := items;
    for k := 0 to |out|
      invariant |out| == |items|
      invariant forall m :: 0 <= m < k ==> out[m] == Discovered(items[m])
      invariant forall m :: k <= m < |items| ==> out[m] == items[m]
    {
      out := out[k := Discovered(out[k])];
    }
  }

  /** Some component of `among` exports `iface`. */
  predicate ExportedAmong(exports: Table, among: set<string>, iface: string) {
    exists n :: n in among && n in exports.entries && ExportsInterface(exports.entries[n], iface)
  }

  /** The inner search of `check_dependencies_satisfied`, over the exports in iteration order. */
  method ExporterAmong(exports: Table, among: set<string>, iface: string) returns (found: bool)
    requires TableValid(exports)
    ensures found <==> ExportedAmong(exports, among, iface)
  {
    for i := 0 to |exports.order|
      invariant forall m :: 0 <= m < i && exports.order[m] in among ==>
        !ExportsInterface(exports.entries[exports.order[m]], iface)
    {
      var name := exports.order[i];
      assert name in Elems(exports.order);
      if name in among {
        var named := NamesInterface(exports.entries[name], iface);
        if named {
          return true;
        }
      }
    }
    forall n | n in among && n in exports.entries ensures !ExportsInterface(exports.entries[n], iface) {
      assert n in Elems(exports.order);
    }
    return false;
  }

  /** The search for an interface's exporter in `visit`: the first in iteration order. */
  method FindExporter(exports: Table, iface: string) returns (found: Option<string>)
    requires TableValid(exports)
    ensures found == Provider(exports, iface)
  {
    assert forall n :: n in exports.order ==> n in Elems(exports.order);
    var i := 0;
    while i < |exports.order|
      invariant 0 <= i <= |exports.order|
      invariant FirstExporter(exports.order[i..], exports.entries, iface) == Provider(exports, iface)
    {
      var name := exports.order[i];
      var named := NamesInterface(exports.entries[name], iface);
      FirstExporterAt(exports.order, exports.entries, iface, i);
      if named {
        return Some(name);
      }
      i := i + 1;
    }
    return None;
  }

  /** The innermost loop of both searches: does some item name `iface`? */
  method NamesInterface(items: seq<InterfaceItem>, iface: string) returns (b: bool)
    ensures b <==> ExportsInterface(items, iface)
  {
    for k := 0 to |items|
      invariant forall m :: 0 <= m < k ==> items[m].interfaceName != iface
    {
      if items[k].interfaceName == iface {
        return true;
      }
    }
    return false;
  }

  /** One step of the search over the names from position `i` on. */
  lemma FirstExporterAt(names: seq<string>, entries: map<string, seq<InterfaceItem>>, iface: string, i: nat)
    requires forall n :: n in names ==> n in entries
    requires i < |names|
    ensures forall n :: n in names[i..] ==> n in entries
    ensures forall n :: n in names[i + 1..] ==> n in entries
    ensures ExportsInterface(entries[names[i]], iface) ==> FirstExporter(names[i..], entries, iface) == Some(names[i])
    ensures !ExportsInterface(entries[names[i]], iface) ==>
      FirstExporter(names[i..], entries, iface) == FirstExporter(names[i + 1..], entries, iface)
  {
    assert names[i..][0] == names[i];
    assert names[i..][1..] == names[i + 1..];
  }

  /**
   * `visit`: nothing for a listed component; a cycle error for one on the
   * stack; otherwise push it, visit the exporter of each non-empty import
   * (an unsatisfied error when there is none), then list it and pop it.
   * On success the stack is as before and the component is listed.
   */
  method Visit(c: string, order: seq<string>, visited: set<string>, visiting: set<string>, ghost path: seq<string>,
               imports: Table, exports: Table)
    returns (r: Result<(), OrderError>, order': seq<string>, visited': set<string>, visiting': set<string>)
    requires TableValid(exports)
    requires Searching(imports, exports, order, visited, visiting, path)
    requires c in exports.entries
    requires |path| > 0 ==> c in DepGraph(imports, exports)[path[|path| - 1]]
    ensures r.Ok? ==> (Searching(imports, exports, order', visited', visiting', path)
      && visiting' == visiting && visited <= visited' && c in visited')
    ensures r.Err? && r.error.CircularDependency? ==> HasCycle(DepGraph(imports, exports))
    ensures r.Err? && r.error.UnsatisfiedDependency? ==>
      r.error.component in exports.entries && Unsatisfied(imports, exports, r.error.component, r.error.iface)
    decreases exports.entries.Keys - visiting
  {
    order', visited', visiting' := order, visited, visiting;
    if c in visited {
      return Ok(()), order', visited', visiting';
    }
    if c in visiting {
      SearchCycle(imports, exports, order, visited, visiting, path, c);
      return Err(CircularDependency(c)), order', visited', visiting';
    }
    SearchEnter(imports, exports, order, visited, visiting, path, c);
    visiting' := visiting' + {c};
    ghost var inner := path + [c];
    var imps := if c in imports.entries then imports.entries[c] else [];
    assert imps == ItemsOf(imports, c);
    for j := 0 to |imps|
      invariant Searching(imports, exports, order', visited', visiting', inner)
      invariant visiting' == visiting + {c} && visited <= visited'
      invariant forall k :: 0 <= k < j && imps[k].interfaceName != "" ==>
        Provider(exports, imps[k].interfaceName).Some? && Provider(exports, imps[k].interfaceName).value in visited'
    {
      var iface := imps[j].interfaceName;
      if iface == "" {
        continue;
      }
      var p := FindExporter(exports, iface);
      if p.None? {
        return Err(UnsatisfiedDependency(c, iface)), order', visited', visiting';
      }
      assert p.value in DepSet(imports, exports, c);
      assert exports.entries.Keys - visiting' < exports.entries.Keys - visiting;
      var res;
      res, order', visited', visiting' := Visit(p.value, order', visited', visiting', inner, imports, exports);
      if res.Err? {
        return res, order', visited', visiting';
      }
    }
    ProvidersListed(imports, exports, c, visited');
    SearchLeave(imports, exports, order', visited', visiting', path, c);
    order' := order' + [c];
    visited' := visited' + {c};
    visiting' := visiting' - {c};
    assert visiting' == visiting;
    return Ok(()), order', visited', visiting';
  }

  /** An unsatisfied import leaves its component unsatisfied. */
  lemma UnsatisfiedBreaks(imports: Table, exports: Table, e: OrderError)
    requires TableValid(exports)
    requires e.UnsatisfiedDependency? ==> Unsatisfied(imports, exports, e.component, e.iface)
    ensures e.UnsatisfiedDependency? ==> !ImportsSatisfied(imports, exports, e.component)
  {
  }

  /** `check_dependencies_satisfied` over every component agrees with the search's satisfaction. */
  lemma SatisfiedByAll(imports: Table, exports: Table, c: string)
    requires TableValid(exports)
    ensures ImportsSatisfied(imports, exports, c) <==>
      forall k :: 0 <= k < |ItemsOf(imports, c)| && ItemsOf(imports, c)[k].interfaceName != "" ==>
        ExportedAmong(exports, exports.entries.Keys, ItemsOf(imports, c)[k].interfaceName)
  {
    forall k | 0 <= k < |ItemsOf(imports, c)|
      ensures Provider(exports, ItemsOf(imports, c)[k].interfaceName).Some? <==>
        ExportedAmong(exports, exports.entries.Keys, ItemsOf(imports, c)[k].interfaceName)
    {
      ProviderExists(exports, ItemsOf(imports, c)[k].interfaceName);
    }
  }
}
