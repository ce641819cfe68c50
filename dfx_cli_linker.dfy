// dfx-cli's dynamic linker. Linking gives every function of an imported
// library interface (by full name) a fresh empty slot under
// `interface:function`, replacing any earlier slot of that key; resolving
// fills the registered slots from an instantiated extension's exports and
// silently skips keys nobody registered.
module DfxCliLinker {
  import opened Wrappers
  import opened Strings
  import opened Slots
  import opened InterfaceName
  import opened Linking
  import opened Manifests
  import opened DfxCliRegistry

  class DynamicLinker {
    /** The registry the linker owns. */
    const registry: FunctionRegistry
    /** Extension name to whether its exports have been resolved. */
    var resolvedExports: map<string, bool>

    /** `new`: nothing resolved yet. */
    constructor (registry: FunctionRegistry)
      ensures this.registry == registry && resolvedExports == map[]
    {
      this.registry := registry;
      resolvedExports := map[];
    }

    /**
     * `link_imports`: puts an empty slot under the key of every function of
     * every imported library interface (by full name), replacing a slot the
     * key already had, and has the host linker define the function; a
     * refused definition ends the walk with that error (the slot stays
     * registered). It succeeds exactly when every definition is accepted.
     */
    method LinkImports(lnk: Definer, imps: seq<ImportedInterface>) returns (r: Result<(), LinkError>)
      modifies registry
      ensures var (refs, err) := LinkAll(old(registry.references), ImportEntries(None, imps), FullName, Replace, lnk);
        registry.references == refs && r == (if err.None? then Ok(()) else Err(err.value))
      ensures r.Ok? <==> DefinesAll(lnk, ImportEntries(None, imps), FullName)
      ensures r.Err? ==> r.error.DefinitionFailed? && !lnk(r.error.iface, r.error.func)
    {
      ghost var refs0 := registry.references;
      ghost var entries := ImportEntries(None, imps);
      LinkAllDefined(refs0, entries, FullName, Replace, lnk);
      LinkAllFails(refs0, entries, FullName, Replace, lnk);
      for i := 0 to |imps|
        invariant LinkAll(refs0, entries[..i], FullName, Replace, lnk) == (registry.references, None)
      {
        var imp := imps[i];
        LinkAllNext(refs0, entries, i, FullName, Replace, lnk, registry.references, Entry(None, imp.name, imp.functions));
        if !EndsWith(imp.name, LIBRARY_SUFFIX) {
          continue;
        }
        var err := LinkInterface(lnk, imp);
        if err.Some? {
          LinkAllStops(refs0, entries, i + 1, FullName, Replace, lnk);
          return Err(err.value);
        }
      }
      assert entries[..|imps|] == entries;
      return Ok(());
    }

    /**
     * One imported interface of `link_imports`: register an empty slot
     * under each function's key and define the function, stopping at the
     * first refused definition.
     */
    method LinkInterface(lnk: Definer, imp: ImportedInterface) returns (err: Option<LinkError>)
      modifies registry
      ensures (registry.references, err) == LinkFuncs(old(registry.references), None, imp.name, imp.functions, Replace, lnk)
    {
      for j := 0 to |imp.functions|
        invariant LinkFuncs(old(registry.references), None, imp.name, imp.functions[..j], Replace, lnk) == (registry.references, None)
      {
        var f := imp.functions[j];
        LinkFuncsNext(old(registry.references), None, imp.name, imp.functions, j, Replace, lnk, registry.references, f);
        var k := Key(imp.name, f);
        assert k == RefKey(None, imp.name, f);
        registry.Register(k, None);
        if !lnk(imp.name, f) {
          LinkFuncsStops(old(registry.references), None, imp.name, imp.functions, j + 1, Replace, lnk);
          return Some(DefinitionFailed(imp.name, f));
        }
      }
      assert imp.functions[..|imp.functions|] == imp.functions;
      return None;
    }

    /**
     * `resolve_exports`: nothing to do for an extension already resolved;
     * otherwise fill the slots of its exported functions, skipping keys
     * nobody registered and stopping at the first missing export or missing
     * function (slots filled before the error stay filled), and mark the
     * extension resolved only when all succeeded.
     */
    method ResolveExports(extension: string, inst: Instance, exports: seq<ExportedInterface>) returns (r: Result<(), LinkError>)
      modifies this, registry
      ensures old(IsExtensionResolved(extension)) ==>
        r == Ok(()) && registry.references == old(registry.references) && resolvedExports == old(resolvedExports)
      ensures !old(IsExtensionResolved(extension)) ==>
        var (refs, err) := ResolveAll(old(registry.references), inst, ExportEntries(None, exports), false);
        registry.references == refs
        && r == (if err.None? then Ok(()) else Err(err.value))
        && resolvedExports == (if err.None? then old(resolvedExports)[extension := true] else old(resolvedExports))
    {
      if extension in resolvedExports && resolvedExports[extension] {
        return Ok(());
      }
      var err := ResolveInterfaces(inst, exports);
      if err.Some? {
        return Err(err.value);
      }
      resolvedExports := resolvedExports[extension := true];
      return Ok(());
    }

    /** The exported interfaces of `resolve_exports`, in order, stopping at the first error. */
    method ResolveInterfaces(inst: Instance, exports: seq<ExportedInterface>) returns (err: Option<LinkError>)
      modifies registry
      ensures (registry.references, err) == ResolveAll(old(registry.references), inst, ExportEntries(None, exports), false)
    {
      ghost var refs0 := registry.references;
      ghost var entries := ExportEntries(None, exports);
      for i := 0 to |exports|
        invariant registry.references == ResolveAll(refs0, inst, entries[..i], false).0
        invariant ResolveAll(refs0, inst, entries[..i], false).1 == None
      {
        var exp := exports[i];
        ResolveAllNext(refs0, inst, entries, i, false, registry.references, Entry(None, exp.name, exp.funcs));
        if exp.name !in inst {
          ResolveAllStops(refs0, inst, entries, i + 1, false);
          return Some(MissingExport);
        }
        err := ResolveInterface(inst, exp);
        if err.Some? {
          ResolveAllStops(refs0, inst, entries, i + 1, false);
          return err;
        }
      }
      assert entries[..|exports|] == entries;
      return None;
    }

    /** One exported interface of `resolve_exports`: fill the slot of each listed function, stopping at the first error. */
    method ResolveInterface(inst: Instance, exp: ExportedInterface) returns (err: Option<LinkError>)
      requires exp.name in inst
      modifies registry
      ensures (registry.references, err) == ResolveFuncs(old(registry.references), inst, None, exp.name, exp.funcs, false)
    {
      var e := inst[exp.name];
      for j := 0 to |exp.funcs|
        invariant registry.references == ResolveFuncs(old(registry.references), inst, None, exp.name, exp.funcs[..j], false).0
        invariant ResolveFuncs(old(registry.references), inst, None, exp.name, exp.funcs[..j], false).1 == None
      {
        assert exp.funcs[..j + 1][..j] == exp.funcs[..j];
        var fname := exp.funcs[j];
        var k := Key(exp.name, fname);
        if fname !in e || e[fname].None? {
          ResolveFuncsStops(old(registry.references), inst, None, exp.name, exp.funcs, j + 1, false);
          return Some(if fname !in e then MissingExport else MissingFunction);
        }
        // Whether the key was registered is ignored.
        var found := registry.Resolve(k, e[fname].value);
      }
      assert exp.funcs[..|exp.funcs|] == exp.funcs;
      return None;
    }

    /** The test that makes `resolve_exports` return at once: a record saying `true`. */
    predicate IsExtensionResolved(extension: string)
      reads this
    {
      extension in resolvedExports && resolvedExports[extension]
    }
  }
}
