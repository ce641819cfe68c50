// dfx-core's dynamic linker. Linking gives every function of an imported
// library interface (by full name) a slot under `interface:function` and
// refuses a key that already has one; resolving fills the slots from an
// instantiated extension's exports, once per extension.
module DfxCoreLinker {
  import opened Wrappers
  import opened Strings
  import opened Graphs
  import opened Slots
  import opened InterfaceName
  import opened Linking
  import opened Manifests
  import opened DfxCoreRegistry

  class DynamicLinker {
    /** The registry the linker owns. */
    const registry: FunctionRegistry
    /** Extension name to whether its exports have been resolved. */
    var resolvedExports: map<string, bool>

    /** `new`: nothing resolved yet. */
    constructor (registry: FunctionRegistry)
      ensures this.registry == registry && resolvedExports == map[]
      ensures AllMarked()
    {
      this.registry := registry;
      resolvedExports := map[];
    }

    /**
     * `link_imports`: adds an empty slot for every function of every
     * imported library interface (by full name) and has the host linker
     * define the function; a key that already has a slot is refused with
     * `AlreadyExists`, and a refused definition is passed on, either ending
     * the walk there (a slot registered before a refused definition stays).
     */
    method LinkImports(lnk: Definer, imps: seq<ImportedInterface>) returns (r: Result<(), LinkError>)
      modifies registry
      ensures var (refs, err) := LinkAll(old(registry.references), ImportEntries(None, imps), FullName, Refuse, lnk);
        registry.references == refs && r == (if err.None? then Ok(()) else Err(err.value))
      ensures r.Err? ==> LinkFailure(r.error, lnk, Refuse)
    {
      ghost var refs0 := registry.references;
      ghost var entries := ImportEntries(None, imps);
      LinkAllFails(refs0, entries, FullName, Refuse, lnk);
      for i := 0 to |imps|
        invariant LinkAll(refs0, entries[..i], FullName, Refuse, lnk) == (registry.references, None)
      {
        var imp := imps[i];
        LinkAllNext(refs0, entries, i, FullName, Refuse, lnk, registry.references, Entry(None, imp.name, imp.functions));
        if !EndsWith(imp.name, LIBRARY_SUFFIX) {
          continue;
        }
        var err := LinkInterface(lnk, imp);
        if err.Some? {
          LinkAllStops(refs0, entries, i + 1, FullName, Refuse, lnk);
          return Err(err.value);
        }
      }
      assert entries[..|imps|] == entries;
      return Ok(());
    }

    /**
     * One imported interface of `link_imports`: register each function's
     * key and define the function, stopping at the first refusal.
     */
    method LinkInterface(lnk: Definer, imp: ImportedInterface) returns (err: Option<LinkError>)
      modifies registry
      ensures (registry.references, err) == LinkFuncs(old(registry.references), None, imp.name, imp.functions, Refuse, lnk)
    {
      for j := 0 to |imp.functions|
        invariant LinkFuncs(old(registry.references), None, imp.name, imp.functions[..j], Refuse, lnk) == (registry.references, None)
      {
        var f := imp.functions[j];
        LinkFuncsNext(old(registry.references), None, imp.name, imp.functions, j, Refuse, lnk, registry.references, f);
        var k := Key(imp.name, f);
        assert k == RefKey(None, imp.name, f);
        var res := registry.Register(k, None);
        if res.Err? {
          LinkFuncsStops(old(registry.references), None, imp.name, imp.functions, j + 1, Refuse, lnk);
          return Some(RegistryFailure(res.error));
        }
        if !lnk(imp.name, f) {
          LinkFuncsStops(old(registry.references), None, imp.name, imp.functions, j + 1, Refuse, lnk);
          return Some(DefinitionFailed(imp.name, f));
        }
      }
      assert imp.functions[..|imp.functions|] == imp.functions;
      return None;
    }

    /**
     * `resolve_exports`: nothing to do for an extension already resolved;
     * otherwise fill the slots of its exported functions, stopping at the
     * first missing export, missing function or unregistered key (slots
     * filled before the error stay filled), and mark the extension resolved
     * only when all succeeded.
     */
    method ResolveExports(extension: string, inst: Instance, exports: seq<ExportedInterface>) returns (r: Result<(), LinkError>)
      modifies this, registry
      ensures old(IsExtensionResolved(extension)) ==>
        r == Ok(()) && registry.references == old(registry.references) && resolvedExports == old(resolvedExports)
      ensures !old(IsExtensionResolved(extension)) ==>
        var (refs, err) := ResolveAll(old(registry.references), inst, ExportEntries(None, exports), true);
        registry.references == refs
        && r == (if err.None? then Ok(()) else Err(err.value))
        && resolvedExports == (if err.None? then old(resolvedExports)[extension := true] else old(resolvedExports))
      ensures old(AllMarked()) ==> AllMarked()
    {
      if extension in resolvedExports && resolvedExports[extension] {
        return Ok(());
      }
      ghost var refs0 := registry.references;
      ghost var entries := ExportEntries(None, exports);
      for i := 0 to |exports|
        invariant registry.references == ResolveAll(refs0, inst, entries[..i], true).0
        invariant ResolveAll(refs0, inst, entries[..i], true).1 == None
        invariant resolvedExports == old(resolvedExports)
      {
        var exp := exports[i];
        ResolveAllNext(refs0, inst, entries, i, true, registry.references, Entry(None, exp.name, exp.funcs));
        if exp.name !in inst {
          ResolveAllStops(refs0, inst, entries, i + 1, true);
          return Err(MissingExport);
        }
        var err := ResolveInterface(inst, exp);
        if err.Some? {
          ResolveAllStops(refs0, inst, entries, i + 1, true);
          return Err(err.value);
        }
      }
      assert entries[..|exports|] == entries;
      resolvedExports := resolvedExports[extension := true];
      return Ok(());
    }

    /** One exported interface of `resolve_exports`: fill the slot of each listed function, stopping at the first error. */
    method ResolveInterface(inst: Instance, exp: ExportedInterface) returns (err: Option<LinkError>)
      requires exp.name in inst
      modifies registry
      ensures (registry.references, err) == ResolveFuncs(old(registry.references), inst, None, exp.name, exp.funcs, true)
    {
      var e := inst[exp.name];
      for j := 0 to |exp.funcs|
        invariant registry.references == ResolveFuncs(old(registry.references), inst, None, exp.name, exp.funcs[..j], true).0
        invariant ResolveFuncs(old(registry.references), inst, None, exp.name, exp.funcs[..j], true).1 == None
      {
        assert exp.funcs[..j + 1][..j] == exp.funcs[..j];
        var fname := exp.funcs[j];
        var k := Key(exp.name, fname);
        if fname !in e || e[fname].None? {
          ResolveFuncsStops(old(registry.references), inst, None, exp.name, exp.funcs, j + 1, true);
          return Some(if fname !in e then MissingExport else MissingFunction);
        }
        var res := registry.Resolve(k, e[fname].value);
        if res.Err? {
          ResolveFuncsStops(old(registry.references), inst, None, exp.name, exp.funcs, j + 1, true);
          return Some(RegistryFailure(res.error));
        }
      }
      assert exp.funcs[..|exp.funcs|] == exp.funcs;
      return None;
    }

    /** Every recorded extension is marked resolved (`resolve_exports` records nothing else). */
    predicate AllMarked()
      reads this
    {
      forall e :: e in resolvedExports ==> resolvedExports[e]
    }

    /** `resolved_export_count`: at most `export_count`, and equal to it while every record is a `true`. */
    function ResolvedExportCount(): (n: nat)
      reads this
      ensures n <= ExportCount()
      ensures AllMarked() ==> n == ExportCount()
    {
      var marked := Marked();
      SubsetCard(marked, resolvedExports.Keys);
      assert AllMarked() ==> marked == resolvedExports.Keys;
      |marked|
    }

    /** The extensions whose record says `true`. */
    function Marked(): set<string>
      reads this
    {
      set e | e in resolvedExports && resolvedExports[e]
    }

    /** `export_count` */
    function ExportCount(): nat
      reads this
    {
      |resolvedExports|
    }

    /**
     * `is_extension_resolved`: an extension without a record is not
     * resolved, a resolved one is counted by `resolved_export_count`, and
     * while every record is `true` having a record is enough.
     */
    predicate IsExtensionResolved(extension: string): (r: bool)
      reads this
      ensures r ==> extension in resolvedExports && ResolvedExportCount() > 0
      ensures AllMarked() ==> (r <==> extension in resolvedExports)
    {
      var r := extension in resolvedExports && resolvedExports[extension];
      assert r ==> extension in Marked();
      r
    }
  }

  /**
   * A second extension importing a library function that an earlier one
   * already linked fails to link: the key has a slot, so it is refused
   * there unless a refused definition ended the walk before.
   */
  lemma SecondImporterRefused(refs: Refs, first: seq<ImportedInterface>, second: seq<ImportedInterface>, k: string,
                              lnk: Definer, lnk2: Definer)
    requires LinkAll(refs, ImportEntries(None, first), FullName, Refuse, lnk).1.None?
    requires k in Wanted(ImportEntries(None, first), FullName) && k in Wanted(ImportEntries(None, second), FullName)
    ensures LinkAll(LinkAll(refs, ImportEntries(None, first), FullName, Refuse, lnk).0, ImportEntries(None, second), FullName, Refuse, lnk2).1.Some?
  {
    LinkAllSpec(refs, ImportEntries(None, first), FullName, Refuse, lnk);
    LinkAllSpec(LinkAll(refs, ImportEntries(None, first), FullName, Refuse, lnk).0, ImportEntries(None, second), FullName, Refuse, lnk2);
  }
}
