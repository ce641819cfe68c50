// icp-core's dynamic linker. Linking gives every function of an imported
// library interface (by base name) a slot under `interface:function`,
// keeping a slot that already exists so that importers share it; resolving
// fills the slots from an instantiated extension's exports, once per
// extension.
module IcpLinker {
  import opened Wrappers
  import opened Strings
  import opened Graphs
  import opened Slots
  import opened InterfaceName
  import opened Linking
  import opened ComponentTypes
  import opened IcpRegistry

  class DynamicLinker {
    /** The registry the linker owns. */
    const registry: FunctionRegistry
    /** Extension name to whether its exports have been resolved. */
    var resolvedExports: map<string, bool>

    /** `new`: nothing resolved yet. */
    constructor (registry: FunctionRegistry)
      ensures this.registry == registry && resolvedExports == map[]
      ensures AllMarked()
    {
      this.registry := registry;
      resolvedExports := map[];
    }

    /**
     * `link`: adds an empty slot for every wanted key that has none and
     * leaves the existing slots as they were; after registering a slot it
     * has the host linker define the function, and a refused definition
     * ends the walk with that error (the slot stays registered). A key
     * that already has a slot is shared, so only refused definitions fail.
     */
    method Link(lnk: Definer, ifaces: seq<Interface>) returns (r: Result<(), LinkError>)
      modifies registry
      ensures var (refs, err) := LinkAll(old(registry.references), InterfaceEntries(ifaces), BaseName(LIBRARY_SUFFIX), Keep, lnk);
        registry.references == refs && r == (if err.None? then Ok(()) else Err(err.value))
      ensures DefinesAll(lnk, InterfaceEntries(ifaces), BaseName(LIBRARY_SUFFIX)) ==> r == Ok(())
      ensures r.Err? ==> r.error.DefinitionFailed? && !lnk(r.error.iface, r.error.func)
    {
      ghost var refs0 := registry.references;
      ghost var entries := InterfaceEntries(ifaces);
      ghost var test := BaseName(LIBRARY_SUFFIX);
      LinkAllDefined(refs0, entries, test, Keep, lnk);
      LinkAllFails(refs0, entries, test, Keep, lnk);
      for i := 0 to |ifaces|
        invariant LinkAll(refs0, entries[..i], test, Keep, lnk) == (registry.references, None)
      {
        var iface := ifaces[i];
        LinkAllNext(refs0, entries, i, test, Keep, lnk, registry.references, Entry(None, iface.name, iface.funcs));
        var (name, _) := ParseInterfaceName(iface.name);
        if !EndsWith(name, LIBRARY_SUFFIX) {
          continue;
        }
        var err := LinkInterface(lnk, iface);
        if err.Some? {
          LinkAllStops(refs0, entries, i + 1, test, Keep, lnk);
          return Err(err.value);
        }
      }
      assert entries[..|ifaces|] == entries;
      return Ok(());
    }

    /**
     * One library interface of `link`: skip a key that has a slot,
     * otherwise register an empty one and define the function, stopping at
     * the first refused definition.
     */
    method LinkInterface(lnk: Definer, iface: Interface) returns (err: Option<LinkError>)
      modifies registry
      ensures (registry.references, err) == LinkFuncs(old(registry.references), None, iface.name, iface.funcs, Keep, lnk)
    {
      for j := 0 to |iface.funcs|
        invariant LinkFuncs(old(registry.references), None, iface.name, iface.funcs[..j], Keep, lnk) == (registry.references, None)
      {
        var f := iface.funcs[j];
        LinkFuncsNext(old(registry.references), None, iface.name, iface.funcs, j, Keep, lnk, registry.references, f);
        var k := Key(iface.name, f);
        assert k == RefKey(None, iface.name, f);
        if registry.Contains(k) {
          continue;
        }
        // The key was just found absent, so registering cannot be refused.
        var registered := registry.Register(k, None);
        if !lnk(iface.name, f) {
          LinkFuncsStops(old(registry.references), None, iface.name, iface.funcs, j + 1, Keep, lnk);
          return Some(DefinitionFailed(iface.name, f));
        }
      }
      assert iface.funcs[..|iface.funcs|] == iface.funcs;
      return None;
    }

    /**
     * `resolve`: nothing to do for an extension already resolved;
     * otherwise fill the slots of its exported functions, stopping at the
     * first missing export, missing function or unregistered key (slots
     * filled before the error stay filled), and mark the extension resolved
     * only when all succeeded.
     */
    method Resolve(extension: string, inst: Instance, exports: seq<Interface>) returns (r: Result<(), LinkError>)
      modifies this, registry
      ensures old(IsExtensionResolved(extension)) ==>
        r == Ok(()) && registry.references == old(registry.references) && resolvedExports == old(resolvedExports)
      ensures !old(IsExtensionResolved(extension)) ==>
        var (refs, err) := ResolveAll(old(registry.references), inst, InterfaceEntries(exports), true);
        registry.references == refs
        && r == (if err.None? then Ok(()) else Err(err.value))
        && resolvedExports == (if err.None? then old(resolvedExports)[extension := true] else old(resolvedExports))
      ensures old(AllMarked()) ==> AllMarked()
    {
      if extension in resolvedExports && resolvedExports[extension] {
        return Ok(());
      }
      ghost var refs0 := registry.references;
      ghost var entries := InterfaceEntries(exports);
      for i := 0 to |exports|
        invariant registry.references == ResolveAll(refs0, inst, entries[..i], true).0
        invariant ResolveAll(refs0, inst, entries[..i], true).1 == None
        invariant resolvedExports == old(resolvedExports)
      {
        var exp := exports[i];
        ResolveAllNext(refs0, inst, entries, i, true, registry.references, Entry(None, exp.name, exp.funcs));
        if exp.name !in inst {
          ResolveAllStops(refs0, inst, entries, i + 1, true);
          return Err(MissingExport);
        }
        var err := ResolveInterface(inst, exp);
        if err.Some? {
          ResolveAllStops(refs0, inst, entries, i + 1, true);
          return Err(err.value);
        }
      }
      assert entries[..|exports|] == entries;
      resolvedExports := resolvedExports[extension := true];
      return Ok(());
    }

    /** One exported interface of `resolve`: fill the slot of each listed function, stopping at the first error. */
    method ResolveInterface(inst: Instance, exp: Interface) returns (err: Option<LinkError>)
      requires exp.name in inst
      modifies registry
      ensures (registry.references, err) == ResolveFuncs(old(registry.references), inst, None, exp.name, exp.funcs, true)
    {
      var e := inst[exp.name];
      for j := 0 to |exp.funcs|
        invariant registry.references == ResolveFuncs(old(registry.references), inst, None, exp.name, exp.funcs[..j], true).0
        invariant ResolveFuncs(old(registry.references), inst, None, exp.name, exp.funcs[..j], true).1 == None
      {
        assert exp.funcs[..j + 1][..j] == exp.funcs[..j];
        var fname := exp.funcs[j];
        var k := Key(exp.name, fname);
        if fname !in e || e[fname].None? {
          ResolveFuncsStops(old(registry.references), inst, None, exp.name, exp.funcs, j + 1, true);
          return Some(if fname !in e then MissingExport else MissingFunction);
        }
        var res := registry.Resolve(k, e[fname].value);
        if res.Err? {
          ResolveFuncsStops(old(registry.references), inst, None, exp.name, exp.funcs, j + 1, true);
          return Some(RegistryFailure(res.error));
        }
      }
      assert exp.funcs[..|exp.funcs|] == exp.funcs;
      return None;
    }

    /** Every recorded extension is marked resolved (`resolve` records nothing else). */
    predicate AllMarked()
      reads this
    {
      forall e :: e in resolvedExports ==> resolvedExports[e]
    }

    /** `resolved_export_count`: at most `export_count`, and equal to it while every record is a `true`. */
    function ResolvedExportCount(): (n: nat)
      reads this
      ensures n <= ExportCount()
      ensures AllMarked() ==> n == ExportCount()
    {
      var marked := Marked();
      SubsetCard(marked, resolvedExports.Keys);
      assert AllMarked() ==> marked == resolvedExports.Keys;
      |marked|
    }

    /** The extensions whose record says `true`. */
    function Marked(): set<string>
      reads this
    {
      set e | e in resolvedExports && resolvedExports[e]
    }

    /** `export_count` */
    function ExportCount(): nat
      reads this
    {
      |resolvedExports|
    }

    /**
     * `is_extension_resolved`: an extension without a record is not
     * resolved, a resolved one is counted by `resolved_export_count`, and
     * while every record is `true` having a record is enough.
     */
    predicate IsExtensionResolved(extension: string): (r: bool)
      reads this
      ensures r ==> extension in resolvedExports && ResolvedExportCount() > 0
      ensures AllMarked() ==> (r <==> extension in resolvedExports)
    {
      var r := extension in resolvedExports && resolvedExports[extension];
      assert r ==> extension in Marked();
      r
    }
  }

  /**
   * Linking the same interfaces again, after a link that succeeded, changes
   * nothing and defines nothing (so cannot fail): an importer that comes
   * second shares the slots.
   */
  lemma LinkIdempotent(refs: Refs, ifaces: seq<Interface>, lnk: Definer, lnk2: Definer)
    requires LinkAll(refs, InterfaceEntries(ifaces), BaseName(LIBRARY_SUFFIX), Keep, lnk).1.None?
    ensures var once := LinkAll(refs, InterfaceEntries(ifaces), BaseName(LIBRARY_SUFFIX), Keep, lnk).0;
      LinkAll(once, InterfaceEntries(ifaces), BaseName(LIBRARY_SUFFIX), Keep, lnk2) == (once, None)
  {
    var entries := InterfaceEntries(ifaces);
    var test := BaseName(LIBRARY_SUFFIX);
    LinkAllSpec(refs, entries, test, Keep, lnk);
    LinkAllLinked(LinkAll(refs, entries, test, Keep, lnk).0, entries, test, lnk2);
  }
}
