// The workspace CLI's dynamic linker. Keys carry an extension name in
// front: linking an importer `x` registers `x:interface:function`, while
// resolving an exporter registers nothing and fills
// `exporter:interface:function`.
module SrcLinker {
  import opened Wrappers
  import opened Strings
  import opened Slots
  import opened InterfaceName
  import opened Linking
  import opened Manifests
  import opened SrcRegistry

  class DynamicLinker {
    /** The registry the linker owns. */
    const registry: FunctionRegistry
    /** Extension name to whether its exports have been resolved. */
    var resolvedExports: map<string, bool>

    /** `new`: nothing resolved yet. */
    constructor (registry: FunctionRegistry)
      ensures this.registry == registry && resolvedExports == map[]
    {
      this.registry := registry;
      resolvedExports := map[];
    }

    /**
     * `link_imports`: puts an empty slot under the key `x:interface:function`
     * of every function of every imported library interface (by full name),
     * replacing a slot the key already had, and has the host linker define
     * the function; a refused definition ends the walk with that error (the
     * slot stays registered). It succeeds exactly when every definition is
     * accepted.
     */
    method LinkImports(lnk: Definer, x: string, imps: seq<ImportedInterface>) returns (r: Result<(), LinkError>)
      modifies registry
      ensures var (refs, err) := LinkAll(old(registry.references), ImportEntries(Some(x), imps), FullName, Replace, lnk);
        registry.references == refs && r == (if err.None? then Ok(()) else Err(err.value))
      ensures r.Ok? <==> DefinesAll(lnk, ImportEntries(Some(x), imps), FullName)
      ensures r.Err? ==> r.error.DefinitionFailed? && !lnk(r.error.iface, r.error.func)
    {
      ghost var refs0 := registry.references;
      ghost var entries := ImportEntries(Some(x), imps);
      LinkAllDefined(refs0, entries, FullName, Replace, lnk);
      LinkAllFails(refs0, entries, FullName, Replace, lnk);
      for i := 0 to |imps|
        invariant LinkAll(refs0, entries[..i], FullName, Replace, lnk) == (registry.references, None)
      {
        var imp := imps[i];
        LinkAllNext(refs0, entries, i, FullName, Replace, lnk, registry.references, Entry(Some(x), imp.name, imp.functions));
        if !EndsWith(imp.name, LIBRARY_SUFFIX) {
          continue;
        }
        var err := LinkInterface(lnk, x, imp);
        if err.Some? {
          LinkAllStops(refs0, entries, i + 1, FullName, Replace, lnk);
          return Err(err.value);
        }
      }
      assert entries[..|imps|] == entries;
      return Ok(());
    }

    /**
     * One imported interface of `link_imports`: register an empty slot
     * under each function's key in scope `x` and define the function,
     * stopping at the first refused definition.
     */
    method LinkInterface(lnk: Definer, x: string, imp: ImportedInterface) returns (err: Option<LinkError>)
      modifies registry
      ensures (registry.references, err) == LinkFuncs(old(registry.references), Some(x), imp.name, imp.functions, Replace, lnk)
    {
      for j := 0 to |imp.functions|
        invariant LinkFuncs(old(registry.references), Some(x), imp.name, imp.functions[..j], Replace, lnk) == (registry.references, None)
      {
        var f := imp.functions[j];
        LinkFuncsNext(old(registry.references), Some(x), imp.name, imp.functions, j, Replace, lnk, registry.references, f);
        var k := ScopedKey(x, imp.name, f);
        assert k == RefKey(Some(x), imp.name, f);
        registry.Register(k, None);
        if !lnk(imp.name, f) {
          LinkFuncsStops(old(registry.references), Some(x), imp.name, imp.functions, j + 1, Replace, lnk);
          return Some(DefinitionFailed(imp.name, f));
        }
      }
      assert imp.functions[..|imp.functions|] == imp.functions;
      return None;
    }

    /**
     * `link_imports` keyed by each import's provider: the slot of a
     * function imported from `y` is `y:interface:function`, the key under
     * which `y`'s own `resolve_exports` fills it.
     */
    method LinkImportsByProvider(lnk: Definer, imps: seq<ImportedInterface>) returns (r: Result<(), LinkError>)
      modifies registry
      ensures var (refs, err) := LinkAll(old(registry.references), ProviderEntries(imps), FullName, Replace, lnk);
        registry.references == refs && r == (if err.None? then Ok(()) else Err(err.value))
      ensures r.Ok? <==> DefinesAll(lnk, ProviderEntries(imps), FullName)
      ensures r.Err? ==> r.error.DefinitionFailed? && !lnk(r.error.iface, r.error.func)
    {
      ghost var refs0 := registry.references;
      ghost var entries := ProviderEntries(imps);
      LinkAllDefined(refs0, entries, FullName, Replace, lnk);
      LinkAllFails(refs0, entries, FullName, Replace, lnk);
      for i := 0 to |imps|
        invariant LinkAll(refs0, entries[..i], FullName, Replace, lnk) == (registry.references, None)
      {
        var imp := imps[i];
        LinkAllNext(refs0, entries, i, FullName, Replace, lnk, registry.references, Entry(Some(imp.provider), imp.name, imp.functions));
        if !EndsWith(imp.name, LIBRARY_SUFFIX) {
          continue;
        }
        var err := LinkInterface(lnk, imp.provider, imp);
        if err.Some? {
          LinkAllStops(refs0, entries, i + 1, FullName, Replace, lnk);
          return Err(err.value);
        }
      }
      assert entries[..|imps|] == entries;
      return Ok(());
    }

    /**
     * `resolve_exports`: nothing to do for an extension already resolved;
     * otherwise fill the slots of its exported functions, skipping keys
     * nobody registered and stopping at the first missing export or missing
     * function (slots filled before the error stay filled), and mark the
     * extension resolved only when all succeeded.
     */
    method ResolveExports(extension: string, inst: Instance, exports: seq<ExportedInterface>) returns (r: Result<(), LinkError>)
      modifies this, registry
      ensures old(IsExtensionResolved(extension)) ==>
        r == Ok(()) && registry.references == old(registry.references) && resolvedExports == old(resolvedExports)
      ensures !old(IsExtensionResolved(extension)) ==>
        var (refs, err) := ResolveAll(old(registry.references), inst, ExportEntries(Some(extension), exports), false);
        registry.references == refs
        && r == (if err.None? then Ok(()) else Err(err.value))
        && resolvedExports == (if err.None? then old(resolvedExports)[extension := true] else old(resolvedExports))
    {
      if extension in resolvedExports && resolvedExports[extension] {
        return Ok(());
      }
      ghost var refs0 := registry.references;
      ghost var entries := ExportEntries(Some(extension), exports);
      for i := 0 to |exports|
        invariant registry.references == ResolveAll(refs0, inst, entries[..i], false).0
        invariant ResolveAll(refs0, inst, entries[..i], false).1 == None
        invariant resolvedExports == old(resolvedExports)
      {
        var exp := exports[i];
        ResolveAllNext(refs0, inst, entries, i, false, registry.references, Entry(Some(extension), exp.name, exp.funcs));
        if exp.name !in inst {
          ResolveAllStops(refs0, inst, entries, i + 1, false);
          return Err(MissingExport);
        }
        var err := ResolveInterface(extension, inst, exp);
        if err.Some? {
          ResolveAllStops(refs0, inst, entries, i + 1, false);
          return Err(err.value);
        }
      }
      assert entries[..|exports|] == entries;
      resolvedExports := resolvedExports[extension := true];
      return Ok(());
    }

    /** One exported interface of `resolve_exports`: fill the slot of each listed function, stopping at the first error. */
    method ResolveInterface(extension: string, inst: Instance, exp: ExportedInterface) returns (err: Option<LinkError>)
      requires exp.name in inst
      modifies registry
      ensures (registry.references, err) == ResolveFuncs(old(registry.references), inst, Some(extension), exp.name, exp.funcs, false)
    {
      var e := inst[exp.name];
      for j := 0 to |exp.funcs|
        invariant registry.references == ResolveFuncs(old(registry.references), inst, Some(extension), exp.name, exp.funcs[..j], false).0
        invariant ResolveFuncs(old(registry.references), inst, Some(extension), exp.name, exp.funcs[..j], false).1 == None
      {
        assert exp.funcs[..j + 1][..j] == exp.funcs[..j];
        var fname := exp.funcs[j];
        var k := ScopedKey(extension, exp.name, fname);
        if fname !in e || e[fname].None? {
          ResolveFuncsStops(old(registry.references), inst, Some(extension), exp.name, exp.funcs, j + 1, false);
          return Some(if fname !in e then MissingExport else MissingFunction);
        }
        // Whether the key was registered is ignored.
        var found := registry.Resolve(k, e[fname].value);
      }
      assert exp.funcs[..|exp.funcs|] == exp.funcs;
      return None;
    }

    /** The test that makes `resolve_exports` return at once: a record saying `true`. */
    predicate IsExtensionResolved(extension: string)
      reads this
    {
      extension in resolvedExports && resolvedExports[extension]
    }
  }

  lemma PrefixChar(k: string, p: string, i: nat)
    requires StartsWith(k, p) && i < |p|
    ensures k[i] == p[i]
  {
    assert k[..|p|][i] == k[i];
  }

  /** Two colon-free extension names that both prefix one key are the same name. */
  lemma ScopesApart(x: string, y: string, k: string)
    requires ':' !in x && ':' !in y
    requires StartsWith(k, x + ":") && StartsWith(k, y + ":")
    ensures x == y
  {
    if |x| < |y| {
      PrefixChar(k, x + ":", |x|);
      PrefixChar(k, y + ":", |x|);
      assert false;
    } else if |y| < |x| {
      PrefixChar(k, y + ":", |y|);
      PrefixChar(k, x + ":", |y|);
      assert false;
    }
    assert x == k[..|x|] == y;
  }

  /**
   * As written: an importer `x` links its slots under `x:…`, and an
   * exporter `y` other than `x` fills only keys under `y:…`; so after
   * linking `x` without error and resolving `y`, every slot `x` asked for
   * is still empty and every call through it fails as an unresolved
   * reference.
   */
  lemma ImportSlotsStayEmpty(refs: Refs, x: string, imps: seq<ImportedInterface>, lnk: Definer,
                             y: string, inst: Instance, exps: seq<ExportedInterface>, k: string)
    requires ':' !in x && ':' !in y && x != y
    requires k in Wanted(ImportEntries(Some(x), imps), FullName)
    ensures var linked := LinkAll(refs, ImportEntries(Some(x), imps), FullName, Replace, lnk);
      var resolved := ResolveAll(linked.0, inst, ExportEntries(Some(y), exps), false).0;
      linked.1.None? ==> k in resolved && resolved[k].None?
  {
    var imports := ImportEntries(Some(x), imps);
    var exports := ExportEntries(Some(y), exps);
    LinkAllSpec(refs, imports, FullName, Replace, lnk);
    var linked := LinkAll(refs, imports, FullName, Replace, lnk).0;
    ResolveAllSpec(linked, inst, exports, false);
    WantedOffered(imports, FullName);
    OfferedScoped(imports, x, k);
    if k in Offered(exports) {
      OfferedScoped(exports, y, k);
      ScopesApart(x, y, k);
    }
  }

  /**
   * The discrepancy on one import: `ext-a` takes `add` of `math/lib` from
   * `ext-b`; with the host accepting the definition, linking and `ext-b`'s
   * exports resolve without error, yet the slot `ext-a:math/lib:add` stays
   * empty.
   */
  lemma ImportSlotsStayEmptyExample(lnk: Definer)
    requires lnk("math/lib", "add")
    ensures var imps := [ImportedInterface("math/lib", "ext-b", ["add"])];
      var exps := [ExportedInterface("math/lib", ["add"])];
      var inst: Instance := map["math/lib" := map["add" := Some(Func(0))]];
      var linked := LinkAll(map[], ImportEntries(Some("ext-a"), imps), FullName, Replace, lnk);
      var resolved := ResolveAll(linked.0, inst, ExportEntries(Some("ext-b"), exps), false);
      linked.1.None? && resolved.1.None? && "ext-a:math/lib:add" in resolved.0 && resolved.0["ext-a:math/lib:add"].None?
  {
    var imps := [ImportedInterface("math/lib", "ext-b", ["add"])];
    var exps := [ExportedInterface("math/lib", ["add"])];
    var inst: Instance := map["math/lib" := map["add" := Some(Func(0))]];
    var imports := ImportEntries(Some("ext-a"), imps);
    assert imports[0] == Entry(Some("ext-a"), "math/lib", ["add"]);
    assert Defines(lnk, "math/lib", ["add"]);
    assert DefinesAll(lnk, imports, FullName);
    LinkAllDefined(map[], imports, FullName, Replace, lnk);
    ExampleImportWanted(imps);
    ImportSlotsStayEmpty(map[], "ext-a", imps, lnk, "ext-b", inst, exps, "ext-a:math/lib:add");
    ExampleExportsResolve(LinkAll(map[], imports, FullName, Replace, lnk).0, inst, exps);
  }

  /** In the example, `ext-a` wants a slot for `add` of `math/lib`. */
  lemma ExampleImportWanted(imps: seq<ImportedInterface>)
    requires imps == [ImportedInterface("math/lib", "ext-b", ["add"])]
    ensures "ext-a:math/lib:add" in Wanted(ImportEntries(Some("ext-a"), imps), FullName)
  {
    var imports := ImportEntries(Some("ext-a"), imps);
    assert "math/lib"[|"math/lib"| - 4..] == "/lib";
    assert ScopedKey("ext-a", "math/lib", "add") == "ext-a:math/lib:add";
    assert imports[0] == Entry(Some("ext-a"), "math/lib", ["add"]);
    assert RefKey(Some("ext-a"), "math/lib", "add") in FuncKeys(Some("ext-a"), "math/lib", ["add"]);
    assert WantsFrom(imports[0], FullName, "ext-a:math/lib:add");
    WantedMeaning(imports, FullName, "ext-a:math/lib:add");
  }

  /** In the example, `ext-b`'s exports resolve without error, whatever the slots. */
  lemma ExampleExportsResolve(refs: Refs, inst: Instance, exps: seq<ExportedInterface>)
    requires inst == map["math/lib" := map["add" := Some(Func(0))]]
    requires exps == [ExportedInterface("math/lib", ["add"])]
    ensures ResolveAll(refs, inst, ExportEntries(Some("ext-b"), exps), false).1.None?
  {
    var exports := ExportEntries(Some("ext-b"), exps);
    assert exports[0] == Entry(Some("ext-b"), "math/lib", ["add"]);
    assert Provides(inst, exports);
    ResolveAllSpec(refs, inst, exports, false);
  }

  /**
   * Corrected: with imports keyed by their provider, once linking and the
   * provider's exports resolve without error, every function imported from
   * it that the provider lists has its slot filled.
   */
  lemma ProviderSlotsFilled(refs: Refs, imps: seq<ImportedInterface>, lnk: Definer, j: nat, f: string,
                            inst: Instance, exps: seq<ExportedInterface>, m: nat)
    requires j < |imps| && IsLibraryName(imps[j].name) && f in imps[j].functions
    requires m < |exps| && exps[m].name == imps[j].name && f in exps[m].funcs
    requires LinkAll(refs, ProviderEntries(imps), FullName, Replace, lnk).1.None?
    requires ResolveAll(LinkAll(refs, ProviderEntries(imps), FullName, Replace, lnk).0, inst,
                        ExportEntries(Some(imps[j].provider), exps), false).1.None?
    ensures var r := ResolveAll(LinkAll(refs, ProviderEntries(imps), FullName, Replace, lnk).0, inst,
                                ExportEntries(Some(imps[j].provider), exps), false).0;
      var k := ScopedKey(imps[j].provider, imps[j].name, f);
      k in r && r[k].Some?
  {
    var imports := ProviderEntries(imps);
    var exports := ExportEntries(Some(imps[j].provider), exps);
    var k := ScopedKey(imps[j].provider, imps[j].name, f);
    assert WantsFrom(imports[j], FullName, k);
    WantedMeaning(imports, FullName, k);
    OfferedContains(exports, m, f);
    LinkAllSpec(refs, imports, FullName, Replace, lnk);
    LinkThenResolve(refs, imports, FullName, Replace, lnk, inst, exports, false, k);
  }
}
