// What the dynamic linkers do to a registry, as functions of the registry's
// slots. Linking walks an extension's imported library interfaces and gives
// every imported function a slot under its reference key; resolving walks
// an instantiated extension's exported interfaces and fills the slot of
// every exported function. The four linkers differ in which interfaces count
// as libraries, in how keys are scoped, in what happens to a key that
// already has a slot, and in whether resolving an unknown key is an error;
// those choices are the parameters here.
module Linking {
  import opened Wrappers
  import opened Strings
  import opened Slots
  import opened InterfaceName
  import opened Manifests
  import ComponentTypes

  /** An interface with the function names listed under it; `scope` prefixes its reference keys. */
  datatype Entry = Entry(scope: Option<string>, iface: string, funcs: seq<string>)

  /**
   * An instantiated component's exports, as `get_export` and `get_func`
   * see them: interface name to export name to the function, or `None`
   * when that export is not a function.
   */
  type Instance = map<string, map<string, Option<Func>>>

  /**
   * `missing export`, `missing function`, the registry's own error, or the
   * host linker's refusal to define a function (wasmtime's error, which the
   * linkers pass on as their unexpected error).
   */
  datatype LinkError = MissingExport | MissingFunction | RegistryFailure(err: RegistryError)
                     | DefinitionFailed(iface: string, func: string)

  /**
   * The host linker (wasmtime's `Linker`), as far as linking sees it:
   * whether it accepts a host function `f` in the instance `iface`, the
   * calls `instance(iface)?.func_new(f, …)?`.
   */
  type Definer = (string, string) -> bool

  /** Library interfaces by base name (version dropped) or by full name. */
  datatype LibraryTest = BaseName(suffix: string) | FullName

  /** What linking does with a key that already has a slot. */
  datatype Existing = Keep | Refuse | Replace

  predicate IsLibrary(test: LibraryTest, name: string) {
    match test
    case BaseName(suffix) => IsLibraryBase(name, suffix)
    case FullName => IsLibraryName(name)
  }

  function RefKey(scope: Option<string>, iface: string, f: string): string {
    match scope
    case None => Key(iface, f)
    case Some(e) => ScopedKey(e, iface, f)
  }

  function InterfaceEntries(ifaces: seq<ComponentTypes.Interface>): (r: seq<Entry>)
    ensures |r| == |ifaces|
    ensures forall k :: 0 <= k < |ifaces| ==> r[k] == Entry(None, ifaces[k].name, ifaces[k].funcs)
  {
    seq(|ifaces|, k requires 0 <= k < |ifaces| => Entry(None, ifaces[k].name, ifaces[k].funcs))
  }

  function ImportEntries(scope: Option<string>, imps: seq<ImportedInterface>): (r: seq<Entry>)
    ensures |r| == |imps|
    ensures forall k :: 0 <= k < |imps| ==> r[k] == Entry(scope, imps[k].name, imps[k].functions)
  {
    seq(|imps|, k requires 0 <= k < |imps| => Entry(scope, imps[k].name, imps[k].functions))
  }

  /** Imports keyed by the extension that provides them. */
  function ProviderEntries(imps: seq<ImportedInterface>): (r: seq<Entry>)
    ensures |r| == |imps|
    ensures forall k :: 0 <= k < |imps| ==> r[k] == Entry(Some(imps[k].provider), imps[k].name, imps[k].functions)
  {
    seq(|imps|, k requires 0 <= k < |imps| => Entry(Some(imps[k].provider), imps[k].name, imps[k].functions))
  }

  function ExportEntries(scope: Option<string>, exps: seq<ExportedInterface>): (r: seq<Entry>)
    ensures |r| == |exps|
    ensures forall k :: 0 <= k < |exps| ==> r[k] == Entry(scope, exps[k].name, exps[k].funcs)
  {
    seq(|exps|, k requires 0 <= k < |exps| => Entry(scope, exps[k].name, exps[k].funcs))
  }

  // ---------------------------------------------------------------------
  // Linking

  /**
   * One imported function: its key gets a fresh empty slot, then the host
   * gets its definition. Under `Keep` a key that already has a slot is
   * skipped and nothing is defined; under `Refuse` it is refused; under
   * `Replace` its slot is emptied. A definition the host refuses is an
   * error that comes after the slot is in place.
   */
  function LinkOne(refs: Refs, scope: Option<string>, iface: string, f: string, existing: Existing, define: Definer): (Refs, Option<LinkError>) {
    var key := RefKey(scope, iface, f);
    if key in refs && existing == Keep then (refs, None)
    else if key in refs && existing == Refuse then (refs, Some(RegistryFailure(AlreadyExists(key))))
    else (refs[key := None], if define(iface, f) then None else Some(DefinitionFailed(iface, f)))
  }

  /** The functions of one interface, in order, stopping at the first error. */
  function LinkFuncs(refs: Refs, scope: Option<string>, iface: string, fs: seq<string>, existing: Existing, define: Definer): (Refs, Option<LinkError>) {
    if |fs| == 0 then (refs, None)
    else
      var prev := LinkFuncs(refs, scope, iface, fs[..|fs| - 1], existing, define);
      if prev.1.Some? then prev
      else LinkOne(prev.0, scope, iface, fs[|fs| - 1], existing, define)
  }

  /** The library interfaces among `entries`, in order, stopping at the first error. */
  function LinkAll(refs: Refs, entries: seq<Entry>, test: LibraryTest, existing: Existing, define: Definer): (Refs, Option<LinkError>) {
    if |entries| == 0 then (refs, None)
    else
      var prev := LinkAll(refs, entries[..|entries| - 1], test, existing, define);
      var last := entries[|entries| - 1];
      if prev.1.Some? || !IsLibrary(test, last.iface) then prev
      else LinkFuncs(prev.0, last.scope, last.iface, last.funcs, existing, define)
  }

  /** The reference keys of one interface's functions. */
  function FuncKeys(scope: Option<string>, iface: string, fs: seq<string>): set<string> {
    set f | f in fs :: RefKey(scope, iface, f)
  }

  lemma FuncKeysSnoc(scope: Option<string>, iface: string, fs: seq<string>)
    requires |fs| > 0
    ensures FuncKeys(scope, iface, fs) == FuncKeys(scope, iface, fs[..|fs| - 1]) + {RefKey(scope, iface, fs[|fs| - 1])}
  {
    assert fs == fs[..|fs| - 1] + [fs[|fs| - 1]];
  }

  /** The reference keys linking asks for: those of the library interfaces' functions. */
  function Wanted(entries: seq<Entry>, test: LibraryTest): set<string> {
    if |entries| == 0 then {}
    else
      var last := entries[|entries| - 1];
      Wanted(entries[..|entries| - 1], test)
        + (if IsLibrary(test, last.iface) then FuncKeys(last.scope, last.iface, last.funcs) else {})
  }

  /** The host accepts every function of `fs` in the instance `iface`. */
  predicate Defines(define: Definer, iface: string, fs: seq<string>) {
    forall f :: f in fs ==> define(iface, f)
  }

  /** The host accepts every function of every library interface among `entries`. */
  predicate DefinesAll(define: Definer, entries: seq<Entry>, test: LibraryTest) {
    forall j :: 0 <= j < |entries| && IsLibrary(test, entries[j].iface) ==>
      Defines(define, entries[j].iface, entries[j].funcs)
  }

  lemma DefinesSnoc(define: Definer, iface: string, fs: seq<string>)
    requires |fs| > 0
    ensures Defines(define, iface, fs) <==> Defines(define, iface, fs[..|fs| - 1]) && define(iface, fs[|fs| - 1])
  {
    assert fs == fs[..|fs| - 1] + [fs[|fs| - 1]];
  }

  lemma DefinesAllSnoc(define: Definer, entries: seq<Entry>, test: LibraryTest)
    requires |entries| > 0
    ensures var n := |entries| - 1;
      DefinesAll(define, entries, test) <==>
        DefinesAll(define, entries[..n], test)
        && (IsLibrary(test, entries[n].iface) ==> Defines(define, entries[n].iface, entries[n].funcs))
  {
    var n := |entries| - 1;
    assert forall j :: 0 <= j < n ==> entries[..n][j] == entries[j];
  }

  /** What linking can fail with: a definition the host refused, or, under `Refuse`, a key that already had a slot. */
  predicate LinkFailure(err: LinkError, define: Definer, existing: Existing) {
    || (err.DefinitionFailed? && !define(err.iface, err.func))
    || (existing == Refuse && err.RegistryFailure? && err.err.AlreadyExists?)
  }

  /**
   * `r` is `refs` after linking the keys `w`: exactly the keys `w` were
   * added; a slot that was there keeps its content unless `existing` is
   * `Replace` and its key was linked again, and every other slot is empty.
   */
  predicate LinkedFrom(refs: Refs, r: Refs, w: set<string>, existing: Existing) {
    r.Keys == refs.Keys + w &&
    forall k :: k in r ==> r[k] == (if existing == Replace && k in w then None else if k in refs then refs[k] else None)
  }

  lemma LinkOneStep(refs: Refs, r: Refs, w: set<string>, scope: Option<string>, iface: string, f: string, existing: Existing, define: Definer)
    requires LinkedFrom(refs, r, w, existing)
    requires LinkOne(r, scope, iface, f, existing, define).1.None?
    ensures LinkedFrom(refs, LinkOne(r, scope, iface, f, existing, define).0, w + {RefKey(scope, iface, f)}, existing)
    ensures existing == Refuse ==> RefKey(scope, iface, f) !in r
    ensures existing == Replace ==> define(iface, f)
  {
  }

  /**
   * One interface linked without error adds its keys, with each policy's
   * effect on a key that had a slot.
   */
  lemma {:induction false} LinkFuncsSpec(refs: Refs, r: Refs, w: set<string>, scope: Option<string>, iface: string, fs: seq<string>,
                                         existing: Existing, define: Definer)
    requires LinkedFrom(refs, r, w, existing)
    ensures LinkFuncs(r, scope, iface, fs, existing, define).1.None? ==>
      LinkedFrom(refs, LinkFuncs(r, scope, iface, fs, existing, define).0, w + FuncKeys(scope, iface, fs), existing)
    ensures existing == Refuse && LinkFuncs(r, scope, iface, fs, existing, define).1.None? ==>
      FuncKeys(scope, iface, fs) !! r.Keys
    decreases |fs|
  {
    if |fs| == 0 {
      assert FuncKeys(scope, iface, fs) == {};
    } else {
      var init := fs[..|fs| - 1];
      var f := fs[|fs| - 1];
      var key := RefKey(scope, iface, f);
      LinkFuncsSpec(refs, r, w, scope, iface, init, existing, define);
      var prev := LinkFuncs(r, scope, iface, init, existing, define);
      assert LinkFuncs(r, scope, iface, fs, existing, define) ==
        if prev.1.Some? then prev else LinkOne(prev.0, scope, iface, f, existing, define);
      FuncKeysSnoc(scope, iface, fs);
      if prev.1.None? && LinkOne(prev.0, scope, iface, f, existing, define).1.None? {
        LinkOneStep(refs, prev.0, w + FuncKeys(scope, iface, init), scope, iface, f, existing, define);
        assert w + FuncKeys(scope, iface, fs) == (w + FuncKeys(scope, iface, init)) + {key};
      }
    }
  }

  /**
   * With `Keep` or `Replace` one interface links without error whenever the
   * host accepts every definition, and with `Replace`, which defines every
   * function, only then.
   */
  lemma {:induction false} LinkFuncsDefined(r: Refs, scope: Option<string>, iface: string, fs: seq<string>, existing: Existing, define: Definer)
    ensures existing != Refuse && Defines(define, iface, fs) ==> LinkFuncs(r, scope, iface, fs, existing, define).1.None?
    ensures existing == Replace && LinkFuncs(r, scope, iface, fs, existing, define).1.None? ==> Defines(define, iface, fs)
    decreases |fs|
  {
    if |fs| > 0 {
      var init := fs[..|fs| - 1];
      var f := fs[|fs| - 1];
      LinkFuncsDefined(r, scope, iface, init, existing, define);
      var prev := LinkFuncs(r, scope, iface, init, existing, define);
      assert LinkFuncs(r, scope, iface, fs, existing, define) ==
        if prev.1.Some? then prev else LinkOne(prev.0, scope, iface, f, existing, define);
      DefinesSnoc(define, iface, fs);
    }
  }

  /**
   * A failed link of one interface: the error is either the host's refusal
   * of one of its functions, whose slot is already in place, or (under
   * `Refuse`) a key that had a slot.
   */
  lemma {:induction false} LinkFuncsFails(r: Refs, scope: Option<string>, iface: string, fs: seq<string>, existing: Existing, define: Definer)
    ensures LinkFuncs(r, scope, iface, fs, existing, define).1.Some? ==>
      LinkFailure(LinkFuncs(r, scope, iface, fs, existing, define).1.value, define, existing)
    ensures LinkFuncs(r, scope, iface, fs, existing, define).1.Some? &&
            LinkFuncs(r, scope, iface, fs, existing, define).1.value.DefinitionFailed? ==>
      var e := LinkFuncs(r, scope, iface, fs, existing, define).1.value;
      e.iface == iface && e.func in fs && RefKey(scope, iface, e.func) in LinkFuncs(r, scope, iface, fs, existing, define).0
    decreases |fs|
  {
    if |fs| > 0 {
      var init := fs[..|fs| - 1];
      var f := fs[|fs| - 1];
      LinkFuncsFails(r, scope, iface, init, existing, define);
      var prev := LinkFuncs(r, scope, iface, init, existing, define);
      var res := LinkFuncs(r, scope, iface, fs, existing, define);
      assert res == if prev.1.Some? then prev else LinkOne(prev.0, scope, iface, f, existing, define);
      if prev.1.Some? {
        assert init <= fs;
      }
    }
  }

  /** Linking one interface never drops a slot and adds only keys of its functions. */
  lemma {:induction false} LinkFuncsKeys(r: Refs, scope: Option<string>, iface: string, fs: seq<string>, existing: Existing, define: Definer)
    ensures r.Keys <= LinkFuncs(r, scope, iface, fs, existing, define).0.Keys <= r.Keys + FuncKeys(scope, iface, fs)
    decreases |fs|
  {
    if |fs| > 0 {
      var init := fs[..|fs| - 1];
      var f := fs[|fs| - 1];
      LinkFuncsKeys(r, scope, iface, init, existing, define);
      var prev := LinkFuncs(r, scope, iface, init, existing, define);
      assert LinkFuncs(r, scope, iface, fs, existing, define) ==
        if prev.1.Some? then prev else LinkOne(prev.0, scope, iface, f, existing, define);
      FuncKeysSnoc(scope, iface, fs);
    }
  }

  /**
   * Linking without error adds exactly the wanted keys. With `Keep` it
   * leaves every existing slot as it was, with `Replace` it empties the
   * wanted slots, and with `Refuse` it succeeds only when no wanted key had
   * a slot before.
   */
  lemma {:induction false} LinkAllSpec(refs: Refs, entries: seq<Entry>, test: LibraryTest, existing: Existing, define: Definer)
    ensures LinkAll(refs, entries, test, existing, define).1.None? ==>
      LinkedFrom(refs, LinkAll(refs, entries, test, existing, define).0, Wanted(entries, test), existing)
    ensures existing == Refuse && LinkAll(refs, entries, test, existing, define).1.None? ==>
      Wanted(entries, test) !! refs.Keys
    decreases |entries|
  {
    if |entries| > 0 {
      var init := entries[..|entries| - 1];
      var last := entries[|entries| - 1];
      LinkAllSpec(refs, init, test, existing, define);
      var prev := LinkAll(refs, init, test, existing, define);
      if prev.1.None? && IsLibrary(test, last.iface) {
        LinkFuncsSpec(refs, prev.0, Wanted(init, test), last.scope, last.iface, last.funcs, existing, define);
      }
    }
  }

  /**
   * With `Keep` or `Replace` linking succeeds whenever the host accepts
   * every definition of every library interface, and with `Replace` only then.
   */
  lemma {:induction false} LinkAllDefined(refs: Refs, entries: seq<Entry>, test: LibraryTest, existing: Existing, define: Definer)
    ensures existing != Refuse && DefinesAll(define, entries, test) ==> LinkAll(refs, entries, test, existing, define).1.None?
    ensures existing == Replace && LinkAll(refs, entries, test, existing, define).1.None? ==> DefinesAll(define, entries, test)
    decreases |entries|
  {
    if |entries| > 0 {
      var init := entries[..|entries| - 1];
      var last := entries[|entries| - 1];
      LinkAllDefined(refs, init, test, existing, define);
      DefinesAllSnoc(define, entries, test);
      var prev := LinkAll(refs, init, test, existing, define);
      if prev.1.None? && IsLibrary(test, last.iface) {
        LinkFuncsDefined(prev.0, last.scope, last.iface, last.funcs, existing, define);
      }
    }
  }

  /** A failed link ends with a refused definition or, under `Refuse`, a key that had a slot; no slot is dropped and only wanted keys are added. */
  lemma {:induction false} LinkAllFails(refs: Refs, entries: seq<Entry>, test: LibraryTest, existing: Existing, define: Definer)
    ensures LinkAll(refs, entries, test, existing, define).1.Some? ==>
      LinkFailure(LinkAll(refs, entries, test, existing, define).1.value, define, existing)
    ensures refs.Keys <= LinkAll(refs, entries, test, existing, define).0.Keys <= refs.Keys + Wanted(entries, test)
    decreases |entries|
  {
    if |entries| > 0 {
      var init := entries[..|entries| - 1];
      var last := entries[|entries| - 1];
      LinkAllFails(refs, init, test, existing, define);
      var prev := LinkAll(refs, init, test, existing, define);
      if prev.1.None? && IsLibrary(test, last.iface) {
        LinkFuncsFails(prev.0, last.scope, last.iface, last.funcs, existing, define);
        LinkFuncsKeys(prev.0, last.scope, last.iface, last.funcs, existing, define);
      }
    }
  }

  /** Under `Keep`, interfaces whose keys all have slots link without error, change nothing and define nothing. */
  lemma {:induction false} LinkFuncsLinked(r: Refs, scope: Option<string>, iface: string, fs: seq<string>, define: Definer)
    requires FuncKeys(scope, iface, fs) <= r.Keys
    ensures LinkFuncs(r, scope, iface, fs, Keep, define) == (r, None)
    decreases |fs|
  {
    if |fs| > 0 {
      FuncKeysSnoc(scope, iface, fs);
      LinkFuncsLinked(r, scope, iface, fs[..|fs| - 1], define);
    }
  }

  lemma {:induction false} LinkAllLinked(r: Refs, entries: seq<Entry>, test: LibraryTest, define: Definer)
    requires Wanted(entries, test) <= r.Keys
    ensures LinkAll(r, entries, test, Keep, define) == (r, None)
    decreases |entries|
  {
    if |entries| > 0 {
      var last := entries[|entries| - 1];
      LinkAllLinked(r, entries[..|entries| - 1], test, define);
      if IsLibrary(test, last.iface) {
        LinkFuncsLinked(r, last.scope, last.iface, last.funcs, define);
      }
    }
  }

  /** `e` is a library interface with a function under key `k`. */
  predicate WantsFrom(e: Entry, test: LibraryTest, k: string) {
    IsLibrary(test, e.iface) && k in FuncKeys(e.scope, e.iface, e.funcs)
  }

  /** A wanted key is the key of a function of one of the library interfaces. */
  lemma {:induction false} WantedMeaning(entries: seq<Entry>, test: LibraryTest, k: string)
    ensures k in Wanted(entries, test) <==> exists j :: 0 <= j < |entries| && WantsFrom(entries[j], test, k)
    decreases |entries|
  {
    if |entries| > 0 {
      var n := |entries| - 1;
      var init := entries[..n];
      WantedMeaning(init, test, k);
      WantedSnoc(entries, test, k);
      if k in Wanted(entries, test) {
        if k in Wanted(init, test) {
          var j :| 0 <= j < n && WantsFrom(init[j], test, k);
          assert init[j] == entries[j];
        } else {
          assert WantsFrom(entries[n], test, k);
        }
      }
      if j :| 0 <= j < |entries| && WantsFrom(entries[j], test, k) {
        if j < n {
          assert init[j] == entries[j];
          assert k in Wanted(init, test);
        }
      }
    }
  }

  /** One more entry adds the keys of its functions when it is a library interface. */
  lemma WantedSnoc(entries: seq<Entry>, test: LibraryTest, k: string)
    requires |entries| > 0
    ensures k in Wanted(entries, test) <==>
      k in Wanted(entries[..|entries| - 1], test) || WantsFrom(entries[|entries| - 1], test, k)
  {
  }

  /** One more function `f`: linking it after the functions before it, which stopped at no error. */
  lemma LinkFuncsNext(refs: Refs, scope: Option<string>, iface: string, fs: seq<string>, j: nat, existing: Existing, define: Definer,
                      prev: Refs, f: string)
    requires j < |fs| && fs[j] == f
    requires LinkFuncs(refs, scope, iface, fs[..j], existing, define) == (prev, None)
    ensures LinkFuncs(refs, scope, iface, fs[..j + 1], existing, define) == LinkOne(prev, scope, iface, f, existing, define)
  {
    assert fs[..j + 1][..j] == fs[..j];
  }

  /** One more entry `e`: linking it after the entries before it, which stopped at no error. */
  lemma LinkAllNext(refs: Refs, entries: seq<Entry>, i: nat, test: LibraryTest, existing: Existing, define: Definer,
                    prev: Refs, e: Entry)
    requires i < |entries| && entries[i] == e
    requires LinkAll(refs, entries[..i], test, existing, define) == (prev, None)
    ensures LinkAll(refs, entries[..i + 1], test, existing, define) ==
      if IsLibrary(test, e.iface) then LinkFuncs(prev, e.scope, e.iface, e.funcs, existing, define) else (prev, None)
  {
    assert entries[..i + 1][..i] == entries[..i];
  }

  /** Once an error is returned, later entries are not looked at. */
  lemma {:induction false} LinkFuncsStops(refs: Refs, scope: Option<string>, iface: string, fs: seq<string>, i: nat,
                                          existing: Existing, define: Definer)
    requires i <= |fs|
    requires LinkFuncs(refs, scope, iface, fs[..i], existing, define).1.Some?
    ensures LinkFuncs(refs, scope, iface, fs, existing, define) == LinkFuncs(refs, scope, iface, fs[..i], existing, define)
    decreases |fs| - i
  {
    if i < |fs| {
      assert fs[..|fs| - 1][..i] == fs[..i];
      LinkFuncsStops(refs, scope, iface, fs[..|fs| - 1], i, existing, define);
    } else {
      assert fs[..i] == fs;
    }
  }

  lemma {:induction false} LinkAllStops(refs: Refs, entries: seq<Entry>, i: nat, test: LibraryTest, existing: Existing, define: Definer)
    requires i <= |entries|
    requires LinkAll(refs, entries[..i], test, existing, define).1.Some?
    ensures LinkAll(refs, entries, test, existing, define) == LinkAll(refs, entries[..i], test, existing, define)
    decreases |entries| - i
  {
    if i < |entries| {
      assert entries[..|entries| - 1][..i] == entries[..i];
      LinkAllStops(refs, entries[..|entries| - 1], i, test, existing, define);
    } else {
      assert entries[..i] == entries;
    }
  }

  // ---------------------------------------------------------------------
  // Resolving

  /**
   * One exported function: look it up in the instance and fill its slot.
   * An unknown key is an error when `strict`, and skipped otherwise.
   */
  function ResolveOne(refs: Refs, inst: Instance, iface: string, f: string, key: string, strict: bool): (Refs, Option<LinkError>)
    requires iface in inst
  {
    if f !in inst[iface] then (refs, Some(MissingExport))
    else if inst[iface][f].None? then (refs, Some(MissingFunction))
    else if key in refs then (refs[key := inst[iface][f]], None)
    else if strict then (refs, Some(RegistryFailure(NotFound(key))))
    else (refs, None)
  }

  /** The functions of one exported interface, in order, stopping at the first error. */
  function ResolveFuncs(refs: Refs, inst: Instance, scope: Option<string>, iface: string, fs: seq<string>, strict: bool): (Refs, Option<LinkError>)
    requires iface in inst
  {
    if |fs| == 0 then (refs, None)
    else
      var prev := ResolveFuncs(refs, inst, scope, iface, fs[..|fs| - 1], strict);
      if prev.1.Some? then prev
      else ResolveOne(prev.0, inst, iface, fs[|fs| - 1], RefKey(scope, iface, fs[|fs| - 1]), strict)
  }

  /** Every exported interface, in order, stopping at the first error. */
  function ResolveAll(refs: Refs, inst: Instance, entries: seq<Entry>, strict: bool): (Refs, Option<LinkError>) {
    if |entries| == 0 then (refs, None)
    else
      var prev := ResolveAll(refs, inst, entries[..|entries| - 1], strict);
      var last := entries[|entries| - 1];
      if prev.1.Some? then prev
      else if last.iface !in inst then (prev.0, Some(MissingExport))
      else ResolveFuncs(prev.0, inst, last.scope, last.iface, last.funcs, strict)
  }

  /** The instance exports the interface and every listed function of it, as functions. */
  predicate ProvidesAll(inst: Instance, iface: string, fs: seq<string>) {
    iface in inst && forall f :: f in fs ==> f in inst[iface] && inst[iface][f].Some?
  }

  predicate Provides(inst: Instance, entries: seq<Entry>) {
    forall j :: 0 <= j < |entries| ==> ProvidesAll(inst, entries[j].iface, entries[j].funcs)
  }

  /** The reference keys of every listed function. */
  function Offered(entries: seq<Entry>): set<string> {
    if |entries| == 0 then {}
    else
      var last := entries[|entries| - 1];
      Offered(entries[..|entries| - 1]) + FuncKeys(last.scope, last.iface, last.funcs)
  }

  /** `r` has the keys of `refs`; a slot differs only if its key is in `o`, and then holds a function. */
  predicate Grows(refs: Refs, r: Refs, o: set<string>) {
    r.Keys == refs.Keys && forall k :: k in r ==> r[k] == refs[k] || (k in o && r[k].Some?)
  }

  /** No filled slot is emptied. */
  predicate KeepsFilled(refs: Refs, r: Refs) {
    forall k :: k in refs && refs[k].Some? ==> k in r && r[k].Some?
  }

  lemma ResolveOneStep(refs: Refs, r: Refs, o: set<string>, inst: Instance, iface: string, f: string, key: string, strict: bool)
    requires iface in inst
    requires Grows(refs, r, o)
    ensures Grows(refs, ResolveOne(r, inst, iface, f, key, strict).0, o + {key})
    ensures KeepsFilled(r, ResolveOne(r, inst, iface, f, key, strict).0)
    ensures ResolveOne(r, inst, iface, f, key, strict).1.None? <==>
      f in inst[iface] && inst[iface][f].Some? && (strict ==> key in r)
    ensures ResolveOne(r, inst, iface, f, key, strict).1.None? && key in r ==>
      ResolveOne(r, inst, iface, f, key, strict).0[key].Some?
  {
  }

  lemma {:induction false} ResolveFuncsFrame(refs: Refs, r: Refs, o: set<string>, inst: Instance, scope: Option<string>, iface: string, fs: seq<string>, strict: bool)
    requires iface in inst
    requires Grows(refs, r, o)
    ensures Grows(refs, ResolveFuncs(r, inst, scope, iface, fs, strict).0, o + FuncKeys(scope, iface, fs))
    ensures KeepsFilled(r, ResolveFuncs(r, inst, scope, iface, fs, strict).0)
    decreases |fs|
  {
    if |fs| == 0 {
      assert FuncKeys(scope, iface, fs) == {};
    } else {
      var init := fs[..|fs| - 1];
      var f := fs[|fs| - 1];
      var key := RefKey(scope, iface, f);
      ResolveFuncsFrame(refs, r, o, inst, scope, iface, init, strict);
      FuncKeysSnoc(scope, iface, fs);
      var prev := ResolveFuncs(r, inst, scope, iface, init, strict);
      if prev.1.None? {
        ResolveOneStep(refs, prev.0, o + FuncKeys(scope, iface, init), inst, iface, f, key, strict);
      }
    }
  }

  lemma {:induction false} ResolveFuncsSpec(r: Refs, inst: Instance, scope: Option<string>, iface: string, fs: seq<string>, strict: bool)
    requires iface in inst
    ensures ResolveFuncs(r, inst, scope, iface, fs, strict).1.None? <==>
      ProvidesAll(inst, iface, fs) && (strict ==> FuncKeys(scope, iface, fs) <= r.Keys)
    ensures ResolveFuncs(r, inst, scope, iface, fs, strict).1.None? ==>
      forall k :: k in FuncKeys(scope, iface, fs) && k in r ==>
        k in ResolveFuncs(r, inst, scope, iface, fs, strict).0 && ResolveFuncs(r, inst, scope, iface, fs, strict).0[k].Some?
    decreases |fs|
  {
    if |fs| > 0 {
      var init := fs[..|fs| - 1];
      var f := fs[|fs| - 1];
      var key := RefKey(scope, iface, f);
      ResolveFuncsSpec(r, inst, scope, iface, init, strict);
      ResolveFuncsFrame(r, r, {}, inst, scope, iface, init, strict);
      FuncKeysSnoc(scope, iface, fs);
      var prev := ResolveFuncs(r, inst, scope, iface, init, strict);
      if prev.1.None? {
        ResolveOneStep(r, prev.0, FuncKeys(scope, iface, init), inst, iface, f, key, strict);
        if !ProvidesAll(inst, iface, fs) && ProvidesAll(inst, iface, init) {
          assert !(f in inst[iface] && inst[iface][f].Some?);
        }
      } else {
        if ProvidesAll(inst, iface, fs) {
          assert ProvidesAll(inst, iface, init);
        }
      }
    }
  }

  /**
   * Resolution never adds or drops a key and never empties a slot; it
   * changes only offered keys, filling them. It succeeds exactly when the
   * instance provides every listed function (and, when `strict`, every
   * offered key has a slot), and then every offered key that has a slot
   * holds a function.
   */
  lemma {:induction false} ResolveAllSpec(refs: Refs, inst: Instance, entries: seq<Entry>, strict: bool)
    ensures Grows(refs, ResolveAll(refs, inst, entries, strict).0, Offered(entries))
    ensures KeepsFilled(refs, ResolveAll(refs, inst, entries, strict).0)
    ensures ResolveAll(refs, inst, entries, strict).1.None? <==>
      Provides(inst, entries) && (strict ==> Offered(entries) <= refs.Keys)
    ensures ResolveAll(refs, inst, entries, strict).1.None? ==>
      forall k :: k in Offered(entries) && k in refs ==> ResolveAll(refs, inst, entries, strict).0[k].Some?
    decreases |entries|
  {
    if |entries| > 0 {
      var n := |entries| - 1;
      var init := entries[..n];
      var last := entries[n];
      ResolveAllSpec(refs, inst, init, strict);
      var prev := ResolveAll(refs, inst, init, strict);
      ProvidesSnoc(inst, entries);
      if prev.1.None? && last.iface in inst {
        ResolveFuncsFrame(refs, prev.0, Offered(init), inst, last.scope, last.iface, last.funcs, strict);
        ResolveFuncsSpec(prev.0, inst, last.scope, last.iface, last.funcs, strict);
      }
    }
  }

  /** The instance provides some entries and one more exactly when it provides all of them. */
  lemma ProvidesSnoc(inst: Instance, entries: seq<Entry>)
    requires |entries| > 0
    ensures var n := |entries| - 1;
      Provides(inst, entries) <==>
        Provides(inst, entries[..n]) && ProvidesAll(inst, entries[n].iface, entries[n].funcs)
  {
    var n := |entries| - 1;
    assert forall j :: 0 <= j < n ==> entries[..n][j] == entries[j];
  }

  lemma {:induction false} ResolveFuncsStops(refs: Refs, inst: Instance, scope: Option<string>, iface: string, fs: seq<string>, i: nat, strict: bool)
    requires iface in inst
    requires i <= |fs|
    requires ResolveFuncs(refs, inst, scope, iface, fs[..i], strict).1.Some?
    ensures ResolveFuncs(refs, inst, scope, iface, fs, strict) == ResolveFuncs(refs, inst, scope, iface, fs[..i], strict)
    decreases |fs| - i
  {
    if i < |fs| {
      assert fs[..|fs| - 1][..i] == fs[..i];
      ResolveFuncsStops(refs, inst, scope, iface, fs[..|fs| - 1], i, strict);
    } else {
      assert fs[..i] == fs;
    }
  }

  lemma {:induction false} ResolveAllStops(refs: Refs, inst: Instance, entries: seq<Entry>, i: nat, strict: bool)
    requires i <= |entries|
    requires ResolveAll(refs, inst, entries[..i], strict).1.Some?
    ensures ResolveAll(refs, inst, entries, strict) == ResolveAll(refs, inst, entries[..i], strict)
    decreases |entries| - i
  {
    if i < |entries| {
      assert entries[..|entries| - 1][..i] == entries[..i];
      ResolveAllStops(refs, inst, entries[..|entries| - 1], i, strict);
    } else {
      assert entries[..i] == entries;
    }
  }

  /** One more entry `e`: resolving it after the entries before it, which stopped at no error. */
  lemma ResolveAllNext(refs: Refs, inst: Instance, entries: seq<Entry>, i: nat, strict: bool, prev: Refs, e: Entry)
    requires i < |entries| && entries[i] == e
    requires ResolveAll(refs, inst, entries[..i], strict) == (prev, None)
    ensures ResolveAll(refs, inst, entries[..i + 1], strict) ==
      if e.iface !in inst then (prev, Some(MissingExport))
      else ResolveFuncs(prev, inst, e.scope, e.iface, e.funcs, strict)
  {
    assert entries[..i + 1][..i] == entries[..i];
  }

  /** A listed function's key is offered. */
  lemma {:induction false} OfferedContains(entries: seq<Entry>, j: nat, f: string)
    requires j < |entries| && f in entries[j].funcs
    ensures RefKey(entries[j].scope, entries[j].iface, f) in Offered(entries)
    decreases |entries|
  {
    var n := |entries| - 1;
    if j < n {
      assert entries[..n][j] == entries[j];
      OfferedContains(entries[..n], j, f);
    }
  }

  /** Every wanted key is offered by the same entries. */
  lemma {:induction false} WantedOffered(entries: seq<Entry>, test: LibraryTest)
    ensures Wanted(entries, test) <= Offered(entries)
    decreases |entries|
  {
    if |entries| > 0 {
      WantedOffered(entries[..|entries| - 1], test);
    }
  }

  /** The offered keys of entries all scoped by `e` start with `e:`. */
  lemma {:induction false} OfferedScoped(entries: seq<Entry>, e: string, k: string)
    requires forall j :: 0 <= j < |entries| ==> entries[j].scope == Some(e)
    requires k in Offered(entries)
    ensures StartsWith(k, e + ":")
    decreases |entries|
  {
    var n := |entries| - 1;
    var init := entries[..n];
    if k in Offered(init) {
      forall j | 0 <= j < n ensures init[j].scope == Some(e) {
        assert init[j] == entries[j];
      }
      OfferedScoped(init, e, k);
    } else {
      var f :| f in entries[n].funcs && k == RefKey(Some(e), entries[n].iface, f);
      assert k == (e + ":") + Key(entries[n].iface, f);
    }
  }

  // ---------------------------------------------------------------------
  // Linking and resolving together

  /**
   * After an importer is linked and an exporter resolved without error,
   * every function that is both wanted and offered under the same key has
   * its slot filled: the importer's calls reach the exporter.
   */
  lemma LinkThenResolve(refs: Refs, imports: seq<Entry>, test: LibraryTest, existing: Existing, define: Definer,
                        inst: Instance, exports: seq<Entry>, strict: bool, k: string)
    requires LinkAll(refs, imports, test, existing, define).1.None?
    requires ResolveAll(LinkAll(refs, imports, test, existing, define).0, inst, exports, strict).1.None?
    requires k in Wanted(imports, test) && k in Offered(exports)
    ensures var r := ResolveAll(LinkAll(refs, imports, test, existing, define).0, inst, exports, strict).0;
      k in r && r[k].Some?
  {
    LinkAllSpec(refs, imports, test, existing, define);
    ResolveAllSpec(LinkAll(refs, imports, test, existing, define).0, inst, exports, strict);
  }
}
