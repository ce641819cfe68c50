// The extension dependency graph: built from a manifest in four passes
// (names, imports, exports, edges), searched depth-first for cycles, sorted
// with Kahn's algorithm into a loading order, and used to check a manifest's
// imports and a new extension's imports against the exports.
module Dependency {
  import opened Wrappers
  import opened Strings
  import opened Graphs
  import opened Manifests
  import opened DependencySpec
  import opened GraphSearch

  /** The dependency lists hold, once each, the providers reached through the imports `l`. */
  ghost predicate DepsMatch(deps: map<string, seq<string>>, l: seq<Import>, P: map<string, string>) {
    forall n {:trigger deps[n]} :: n in deps ==>
      Distinct(deps[n]) && forall p :: p in deps[n] <==> EdgeIn(l, P, n, p)
  }

  /** The dependent lists hold, once each, exactly the extensions whose dependency lists name the key. */
  ghost predicate DependentsMatch(deps: map<string, seq<string>>, dependents: map<string, seq<string>>) {
    forall p {:trigger dependents[p]} :: p in dependents ==>
      Distinct(dependents[p]) && forall n :: n in dependents[p] <==> n in deps && p in deps[n]
  }

  /** The dependency half of the edge pass over one import `q`: its provider joins the importer's list once. */
  lemma DepsStep(deps: map<string, seq<string>>, deps2: map<string, seq<string>>,
                 l: seq<Import>, P: map<string, string>, q: Import)
    requires q.0 in deps && DepsMatch(deps, l, P)
    requires deps2 == if q.1.name in P && P[q.1.name] !in deps[q.0]
                      then deps[q.0 := deps[q.0] + [P[q.1.name]]] else deps
    ensures deps2.Keys == deps.Keys && DepsMatch(deps2, l + [q], P)
    ensures forall n {:trigger deps2[n]} :: n in deps2 ==> forall p ::
      p in deps2[n] <==> p in deps[n] || (n == q.0 && q.1.name in P && P[q.1.name] == p)
  {
    forall n, p ensures EdgeIn(l + [q], P, n, p) <==>
      EdgeIn(l, P, n, p) || (q.0 == n && q.1.name in P && P[q.1.name] == p)
    {
      EdgeInAppend(l, q, P, n, p);
    }
    if q.1.name in P && P[q.1.name] !in deps[q.0] {
      DistinctSnoc(deps[q.0], P[q.1.name]);
    }
  }

  /** The dependent half: the importer joins its provider's list once. */
  lemma DependentsStep(deps: map<string, seq<string>>, deps2: map<string, seq<string>>,
                       dependents: map<string, seq<string>>, dependents2: map<string, seq<string>>,
                       P: map<string, string>, q: Import)
    requires deps2.Keys == deps.Keys && dependents.Keys == deps.Keys
    requires q.1.name in P ==> P[q.1.name] in dependents
    requires DependentsMatch(deps, dependents)
    requires forall n {:trigger deps2[n]} :: n in deps2 ==> forall p ::
      p in deps2[n] <==> p in deps[n] || (n == q.0 && q.1.name in P && P[q.1.name] == p)
    requires q.0 in deps
    requires dependents2 == if q.1.name in P && q.0 !in dependents[P[q.1.name]]
                            then dependents[P[q.1.name] := dependents[P[q.1.name]] + [q.0]] else dependents
    ensures dependents2.Keys == dependents.Keys && DependentsMatch(deps2, dependents2)
  {
    if q.1.name in P && q.0 !in dependents[P[q.1.name]] {
      DistinctSnoc(dependents[P[q.1.name]], q.0);
    }
    forall p | p in dependents2
      ensures Distinct(dependents2[p]) && forall n :: n in dependents2[p] <==> n in deps2 && p in deps2[n]
    {
      forall n ensures n in dependents2[p] <==> n in deps2 && p in deps2[n] {
        if n in deps2 {
          assert p in deps2[n] <==> p in deps[n] || (n == q.0 && q.1.name in P && P[q.1.name] == p);
        }
      }
    }
  }

  /** Both halves of the edge pass over one import `q`: the two matching invariants carry over to `l + [q]`. */
  lemma EdgeStep(deps: map<string, seq<string>>, deps2: map<string, seq<string>>,
                 dependents: map<string, seq<string>>, dependents2: map<string, seq<string>>,
                 l: seq<Import>, P: map<string, string>, q: Import)
    requires deps.Keys == dependents.Keys && q.0 in deps
    requires q.1.name in P ==> P[q.1.name] in dependents
    requires DepsMatch(deps, l, P) && DependentsMatch(deps, dependents)
    requires deps2 == if q.1.name in P && P[q.1.name] !in deps[q.0]
                      then deps[q.0 := deps[q.0] + [P[q.1.name]]] else deps
    requires dependents2 == if q.1.name in P && q.0 !in dependents[P[q.1.name]]
                            then dependents[P[q.1.name] := dependents[P[q.1.name]] + [q.0]] else dependents
    ensures deps2.Keys == deps.Keys && dependents2.Keys == dependents.Keys
    ensures DepsMatch(deps2, l + [q], P) && DependentsMatch(deps2, dependents2)
  {
    DepsStep(deps, deps2, l, P, q);
    DependentsStep(deps, deps2, dependents, dependents2, P, q);
  }

  /** Every provider is one of the extensions. */
  lemma ProvidersListed(xs: seq<Extension>)
    ensures forall iface :: iface in Providers(xs) ==> Providers(xs)[iface] in Elems(Names(xs))
  {
    forall iface | iface in Providers(xs) ensures Providers(xs)[iface] in Elems(Names(xs)) {
      ProvidersAreExtensions(xs, iface);
    }
  }

  /** Empty lists match the imports of no extension. */
  lemma EdgesStart(deps: map<string, seq<string>>, dependents: map<string, seq<string>>, xs: seq<Extension>, P: map<string, string>)
    requires deps.Keys == dependents.Keys
    requires forall n :: n in deps ==> deps[n] == []
    requires forall n :: n in dependents ==> dependents[n] == []
    ensures DepsMatch(deps, ImportList(xs[..0]), P) && DependentsMatch(deps, dependents)
  {
    assert xs[..0] == [];
  }

  /** Scanning a request's functions against a function set (the inner loops of both checks). */
  method FindAbsent(fs: seq<string>, have: set<string>) returns (r: Option<string>)
    ensures r == FirstAbsent(fs, have)
  {
    for k := 0 to |fs|
      invariant FirstAbsent(fs[..k], have).None?
    {
      FirstAbsentStep(fs, have, k);
      if fs[k] !in have {
        return Some(fs[k]);
      }
    }
    assert fs[..|fs|] == fs;
    return None;
  }

  /** The graph's check of one extension's imports against providers `P` and function sets `F`. */
  method CheckImports(x: Extension, P: map<string, string>, F: map<string, set<string>>)
    returns (r: Option<DependencyError>)
    ensures r == FirstProblem(ImportPairs(x), P, F)
  {
    ghost var ps := ImportPairs(x);
    for k := 0 to |x.imports|
      invariant FirstProblem(ps[..k], P, F).None?
    {
      var imp := x.imports[k];
      assert ps[k] == (x.name, imp);
      FirstProblemStep(ps, P, F, k);
      if imp.name in P {
        var p := P[imp.name];
        if imp.name in F {
          var missing := FindAbsent(imp.functions, F[imp.name]);
          if missing.Some? {
            return Some(MissingFunction(x.name, imp.name, missing.value, p));
          }
        }
      } else {
        return Some(MissingInterface(x.name, imp.name));
      }
    }
    assert ps[..|ps|] == ps;
    return None;
  }

  /**
   * One extension's exports, scanned for the interface `imp` requests: the
   * first exporter of it lacking a requested function, and whether it was
   * exported at all (`found0` carries the flag over from earlier extensions).
   */
  method ScanExports(imp: ImportedInterface, y: Extension, found0: bool)
    returns (found: bool, short: Option<(string, string)>)
    ensures short == FirstShortExporter(imp, ExportPairs(y))
    ensures short.None? ==> (found <==> found0 || Exported(ExportPairs(y), imp.name))
  {
    ghost var es := ExportPairs(y);
    found := found0;
    for e := 0 to |y.exports|
      invariant FirstShortExporter(imp, es[..e]).None?
      invariant found <==> found0 || Exported(es[..e], imp.name)
    {
      var exp := y.exports[e];
      assert es[e] == (y.name, exp);
      ShortExporterStep(imp, es, e);
      if exp.name == imp.name {
        found := true;
        var missing := FindAbsent(imp.functions, Elems(exp.funcs));
        if missing.Some? {
          return found, Some((y.name, missing.value));
        }
      }
    }
    assert es[..|es|] == es;
    short := None;
  }

  /** Every extension's exports, scanned for `imp` in manifest order. */
  method ScanManifest(imp: ImportedInterface, xs: seq<Extension>)
    returns (found: bool, short: Option<(string, string)>)
    ensures short == FirstShortExporter(imp, ExportList(xs))
    ensures short.None? ==> (found <==> Exported(ExportList(xs), imp.name))
  {
    found := false;
    for i := 0 to |xs|
      invariant FirstShortExporter(imp, ExportList(xs[..i])).None?
      invariant found <==> Exported(ExportList(xs[..i]), imp.name)
    {
      ghost var before := ExportList(xs[..i]);
      found, short := ScanExports(imp, xs[i], found);
      ListsSnoc(xs, i);
      ShortExporterConcat(imp, before, ExportPairs(xs[i]));
      ExportedConcat(before, ExportPairs(xs[i]), imp.name);
      if short.Some? {
        var _, re := ListsExtend(xs, i + 1);
        ShortExporterConcat(imp, ExportList(xs[..i + 1]), re);
        return;
      }
    }
    assert xs[..|xs|] == xs;
    short := None;
  }

  /**
   * Kahn's inner loop over the dependents of the extension just scheduled:
   * each counter drops by one, and a dependent whose counter reaches zero
   * is queued.
   */
  method ReleaseDependents(ds: seq<string>, inDegree: map<string, int>, queue: seq<string>,
                           ghost g: Graph, ghost done: seq<string>, ghost unique: bool)
    returns (inDegree': map<string, int>, queue': seq<string>)
    requires Elems(ds) <= inDegree.Keys
    requires unique ==> KahnState(g, inDegree, done, queue, ds)
    ensures inDegree'.Keys == inDegree.Keys
    ensures |Pending(inDegree')| + |queue'| <= |Pending(inDegree)| + |queue|
    ensures unique ==> KahnState(g, inDegree', done, queue', [])
  {
    inDegree', queue' := inDegree, queue;
    for j := 0 to |ds|
      invariant inDegree'.Keys == inDegree.Keys
      invariant |Pending(inDegree')| + |queue'| <= |Pending(inDegree)| + |queue|
      invariant unique ==> KahnState(g, inDegree', done, queue', ds[j..])
    {
      var dependent := ds[j];
      assert dependent in Elems(ds);
      if unique {
        KahnDecrement(g, inDegree', done, queue', ds[j..]);
        assert ds[j..][1..] == ds[j + 1..];
      }
      PendingDecrement(inDegree', dependent);
      inDegree' := inDegree'[dependent := inDegree'[dependent] - 1];
      if inDegree'[dependent] == 0 {
        queue' := queue' + [dependent];
      }
    }
  }

  /** One numbered line of the cycle report, joined arrow by arrow. */
  method CycleText(number: nat, c: seq<string>) returns (s: string)
    requires |c| > 0
    ensures s == CycleEntry(number, c)
  {
    var arrow := " \U{2192} ";
    var before := "Cycle " + Decimal(number) + ": ";
    s := before;
    for j := 0 to |c|
      invariant s == before + (if j == 0 then "" else Join(c[..j], arrow) + (if j < |c| then arrow else ""))
    {
      if j > 0 {
        JoinSnoc(c[..j], c[j], arrow);
        assert c[..j + 1] == c[..j] + [c[j]];
      } else {
        assert c[..1] == [c[0]];
      }
      s := s + c[j];
      if j < |c| - 1 {
        s := s + arrow;
      }
    }
    assert c[..|c|] == c;
    s := s + arrow + c[0] + "\n";
  }

  class DependencyGraph {
    /** Extension name to the extensions it depends on. */
    var dependencies: map<string, seq<string>>
    /** Extension name to the extensions that depend on it. */
    var dependents: map<string, seq<string>>
    /** Interface name to the extension that exports it. */
    var interfaceProviders: map<string, string>
    /** Extension name to the interfaces it exports. */
    var exports: map<string, seq<string>>
    /** Extension name to the interfaces it imports. */
    var imports: map<string, seq<string>>
    /** Interface name to the functions it provides. */
    var interfaceFunctions: map<string, set<string>>
    /** Every extension name, in manifest order. */
    var extensionNames: seq<string>
    /** The cycles the depth-first search found. */
    var cycles: seq<seq<string>>
    /** The manifest the graph was built from. */
    ghost const xs: seq<Extension>

    /** The dependency relation as a graph. */
    ghost function Graph(): Graph
      reads this`dependencies
    {
      map n | n in dependencies :: Elems(dependencies[n])
    }

    /** Every field but the cycles is what the manifest determines. */
    ghost predicate Built()
      reads this`dependencies, this`dependents, this`interfaceProviders, this`exports,
            this`imports, this`interfaceFunctions, this`extensionNames
    {
      && extensionNames == Names(xs)
      && dependencies.Keys == Elems(extensionNames) && dependents.Keys == Elems(extensionNames)
      && imports == ByName(xs, ImportNames) && exports == ByName(xs, ExportNames)
      && interfaceProviders == Providers(xs) && interfaceFunctions == Functions(xs)
      && DepsMatch(dependencies, ImportList(xs), interfaceProviders)
      && DependentsMatch(dependencies, dependents)
    }

    /** The recorded cycles are cycles of the graph, and there are none only if the graph has none. */
    ghost predicate Valid()
      reads this
    {
      && Built()
      && (forall i :: 0 <= i < |cycles| ==> IsCycle(Graph(), cycles[i]))
      && (cycles == [] <==> !HasCycle(Graph()))
    }

    /** The graph is the manifest's dependency graph; its dependents lists are its reverse. */
    lemma BuiltGraph()
      requires Built()
      ensures Graph() == SpecGraph(xs)
      ensures Closed(Graph()) && Reverse(Graph(), dependents)
      ensures forall n {:trigger dependencies[n]} :: n in dependencies ==>
        Distinct(dependencies[n]) && Elems(dependencies[n]) == Graph()[n]
    {
      var g := Graph();
      var s := SpecGraph(xs);
      forall n | n in dependencies ensures g[n] == s[n] {
        forall p ensures p in g[n] <==> p in s[n] {
          if p in dependencies[n] {
            DependencyEndsAreExtensions(xs, n, p);
          }
        }
      }
      assert g.Keys == s.Keys;
      forall n | n in g ensures g[n] <= g.Keys {
        forall p | p in g[n] ensures p in g.Keys {
          DependencyEndsAreExtensions(xs, n, p);
        }
      }
    }

    /** `new`: build the graph from the manifest, then look for cycles. */
    constructor (m: Manifest)
      ensures Valid() && xs == m.xs
    {
      dependencies := map[];
      dependents := map[];
      interfaceProviders := map[];
      exports := map[];
      imports := map[];
      interfaceFunctions := map[];
      extensionNames := [];
      cycles := [];
      xs := m.xs;
      new;
      Build(m);
      BuiltGraph();
      DetectCycles();
    }

    /** `build`: the four passes over the manifest. */
    method Build(m: Manifest)
      requires m.xs == xs
      modifies this`dependencies, this`dependents, this`interfaceProviders, this`exports,
               this`imports, this`interfaceFunctions, this`extensionNames
      requires dependencies == map[] && dependents == map[] && interfaceProviders == map[]
      requires exports == map[] && imports == map[] && interfaceFunctions == map[] && extensionNames == []
      ensures Built()
    {
      TrackNames(m);
      TrackImports(m);
      TrackExports(m);
      BuildEdges(m);
    }

    /** First pass: every name, with empty dependency and dependent lists. */
    method TrackNames(m: Manifest)
      requires m.xs == xs
      modifies this`extensionNames, this`dependencies, this`dependents
      requires extensionNames == [] && dependencies == map[] && dependents == map[]
      ensures extensionNames == Names(xs)
      ensures dependencies.Keys == Elems(extensionNames) && dependents.Keys == Elems(extensionNames)
      ensures forall n :: n in dependencies ==> dependencies[n] == []
      ensures forall n :: n in dependents ==> dependents[n] == []
    {
      for i := 0 to |m.xs|
        invariant |extensionNames| == i && forall k :: 0 <= k < i ==> extensionNames[k] == m.xs[k].name
        invariant dependencies.Keys == Elems(extensionNames) && dependents.Keys == Elems(extensionNames)
        invariant forall n :: n in dependencies ==> dependencies[n] == []
        invariant forall n :: n in dependents ==> dependents[n] == []
      {
        ElemsSnoc(extensionNames, m.xs[i].name);
        extensionNames := extensionNames + [m.xs[i].name];
        dependencies := dependencies[m.xs[i].name := []];
        dependents := dependents[m.xs[i].name := []];
      }
    }

    /** Second pass: each extension's imported interface names. */
    method TrackImports(m: Manifest)
      requires m.xs == xs
      modifies this`imports
      requires imports == map[]
      ensures imports == ByName(xs, ImportNames)
    {
      for i := 0 to |m.xs|
        invariant imports == ByName(m.xs[..i], ImportNames)
      {
        var x := m.xs[i];
        var imps: seq<string> := [];
        for k := 0 to |x.imports|
          invariant |imps| == k && forall k2 :: 0 <= k2 < k ==> imps[k2] == x.imports[k2].name
        {
          imps := imps + [x.imports[k].name];
        }
        assert imps == ImportNames(x);
        ByNameSnoc(m.xs, ImportNames, i);
        imports := imports[x.name := imps];
      }
      assert m.xs[..|m.xs|] == xs;
    }

    /** Third pass: each extension's exported interface names. */
    method TrackExports(m: Manifest)
      requires m.xs == xs
      modifies this`exports, this`interfaceProviders, this`interfaceFunctions
      requires exports == map[] && interfaceProviders == map[] && interfaceFunctions == map[]
      ensures exports == ByName(xs, ExportNames)
      ensures interfaceProviders == Providers(xs) && interfaceFunctions == Functions(xs)
    {
      for i := 0 to |m.xs|
        invariant exports == ByName(m.xs[..i], ExportNames)
        invariant interfaceProviders == ProviderMap(ExportList(m.xs[..i]))
        invariant interfaceFunctions == FunctionMap(ExportList(m.xs[..i]))
      {
        var x := m.xs[i];
        var exps := TrackInterfaces(x, ExportList(m.xs[..i]));
        ListsSnoc(m.xs, i);
        ByNameSnoc(m.xs, ExportNames, i);
        exports := exports[x.name := exps];
      }
      assert m.xs[..|m.xs|] == xs;
    }

    /** One extension's exports: each names its extension as the interface's provider, with its functions. */
    method TrackInterfaces(x: Extension, ghost es: seq<Export>) returns (exps: seq<string>)
      modifies this`interfaceProviders, this`interfaceFunctions
      requires interfaceProviders == ProviderMap(es) && interfaceFunctions == FunctionMap(es)
      ensures exps == ExportNames(x)
      ensures interfaceProviders == ProviderMap(es + ExportPairs(x))
      ensures interfaceFunctions == FunctionMap(es + ExportPairs(x))
    {
      ghost var ps := ExportPairs(x);
      exps := [];
      assert es + ps[..0] == es;
      for e := 0 to |x.exports|
        invariant |exps| == e && forall e2 :: 0 <= e2 < e ==> exps[e2] == x.exports[e2].name
        invariant interfaceProviders == ProviderMap(es + ps[..e])
        invariant interfaceFunctions == FunctionMap(es + ps[..e])
      {
        var iface := x.exports[e];
        exps := exps + [iface.name];
        assert ps[e] == (x.name, iface);
        MapsSnoc(es + ps[..e], ps[e]);
        AppendPrefixSnoc(es, ps, e);
        interfaceProviders := interfaceProviders[iface.name := x.name];
        interfaceFunctions := interfaceFunctions[iface.name := Elems(iface.funcs)];
      }
      assert ps[..|ps|] == ps;
    }

    /** The dependency and dependent lists hold exactly the edges of the imports `l`. */
    ghost predicate EdgesFor(l: seq<Import>)
      reads this`dependencies, this`dependents, this`interfaceProviders
    {
      DepsMatch(dependencies, l, interfaceProviders) && DependentsMatch(dependencies, dependents)
    }

    /** Every provider is a node of the graph. */
    ghost predicate ProvidersKnown()
      reads this`dependencies, this`interfaceProviders
    {
      forall iface :: iface in interfaceProviders ==> interfaceProviders[iface] in dependencies
    }

    /** Fourth pass: for each import with a provider, a dependency edge and its reverse. */
    method BuildEdges(m: Manifest)
      requires m.xs == xs
      modifies this`dependencies, this`dependents
      requires extensionNames == Names(xs)
      requires dependencies.Keys == Elems(extensionNames) && dependents.Keys == Elems(extensionNames)
      requires forall n :: n in dependencies ==> dependencies[n] == []
      requires forall n :: n in dependents ==> dependents[n] == []
      requires interfaceProviders == Providers(xs)
      ensures dependencies.Keys == old(dependencies.Keys) && dependents.Keys == old(dependents.Keys)
      ensures EdgesFor(ImportList(xs))
    {
      ProvidersListed(m.xs);
      EdgesStart(dependencies, dependents, m.xs, interfaceProviders);
      LinkExtensions(m.xs);
    }

    /** The loop of the fourth pass, over the extensions `es` in order. */
    method LinkExtensions(es: seq<Extension>)
      modifies this`dependencies, this`dependents
      requires dependencies.Keys == dependents.Keys && dependencies.Keys == Elems(Names(es))
      requires ProvidersKnown() && EdgesFor(ImportList(es[..0]))
      ensures dependencies.Keys == old(dependencies.Keys) && dependents.Keys == old(dependents.Keys)
      ensures EdgesFor(ImportList(es))
    {
      for i := 0 to |es|
        invariant dependencies.Keys == old(dependencies.Keys) && dependents.Keys == old(dependents.Keys)
        invariant EdgesFor(ImportList(es[..i]))
      {
        LinkExtension(es, i);
      }
      assert es[..|es|] == es;
    }

    /** The edges of the imports of the `i`-th extension, after those of the extensions before it. */
    method LinkExtension(es: seq<Extension>, i: nat)
      modifies this`dependencies, this`dependents
      requires i < |es| && dependencies.Keys == dependents.Keys && dependencies.Keys == Elems(Names(es))
      requires ProvidersKnown() && EdgesFor(ImportList(es[..i]))
      ensures dependencies.Keys == old(dependencies.Keys) && dependents.Keys == old(dependents.Keys)
      ensures EdgesFor(ImportList(es[..i + 1]))
    {
      assert es[i].name == Names(es)[i];
      LinkImports(es[i], ImportList(es[..i]));
      ListsSnoc(es, i);
    }

    /** The edges of one extension's imports, after the edges of the imports `l` before them. */
    method LinkImports(x: Extension, ghost l: seq<Import>)
      modifies this`dependencies, this`dependents
      requires dependencies.Keys == dependents.Keys && x.name in dependencies
      requires ProvidersKnown() && EdgesFor(l)
      ensures dependencies.Keys == old(dependencies.Keys) && dependents.Keys == old(dependents.Keys)
      ensures EdgesFor(l + ImportPairs(x))
    {
      ghost var ps := ImportPairs(x);
      assert l + ps[..0] == l;
      for k := 0 to |x.imports|
        invariant dependencies.Keys == old(dependencies.Keys) && dependents.Keys == old(dependents.Keys)
        invariant EdgesFor(l + ps[..k])
      {
        var imp := x.imports[k];
        assert ps[k] == (x.name, imp);
        AppendPrefixSnoc(l, ps, k);
        ghost var deps0, dependents0 := dependencies, dependents;
        AddEdge(x.name, imp);
        EdgeStep(deps0, dependencies, dependents0, dependents, l + ps[..k], interfaceProviders, ps[k]);
      }
      assert ps[..|ps|] == ps;
    }

    /** The edge of one import of extension `n`, in both directions, each added only if absent. */
    method AddEdge(n: string, imp: ImportedInterface)
      modifies this`dependencies, this`dependents
      ensures dependencies == if imp.name in interfaceProviders && n in old(dependencies)
                                 && interfaceProviders[imp.name] !in old(dependencies)[n]
        then old(dependencies)[n := old(dependencies)[n] + [interfaceProviders[imp.name]]]
        else old(dependencies)
      ensures dependents == if imp.name in interfaceProviders && interfaceProviders[imp.name] in old(dependents)
                               && n !in old(dependents)[interfaceProviders[imp.name]]
        then old(dependents)[interfaceProviders[imp.name] := old(dependents)[interfaceProviders[imp.name]] + [n]]
        else old(dependents)
    {
      if imp.name in interfaceProviders {
        var p := interfaceProviders[imp.name];
        if n in dependencies {
          var deps := dependencies[n];
          if p !in deps {
            dependencies := dependencies[n := deps + [p]];
          }
        }
        if p in dependents {
          var ds := dependents[p];
          if n !in ds {
            dependents := dependents[p := ds + [n]];
          }
        }
      }
    }

    // -------------------------------------------------------------------
    // Cycle detection

    /** `detect_cycles`: record the cycles the depth-first search finds; nothing else changes. */
    method DetectCycles()
      modifies this`cycles
      requires Closed(Graph()) && dependencies.Keys == Elems(extensionNames)
      requires forall n {:trigger dependencies[n]} :: n in dependencies ==> Elems(dependencies[n]) == Graph()[n]
      requires Built()
      ensures forall i :: 0 <= i < |cycles| ==> IsCycle(Graph(), cycles[i])
      ensures cycles == [] <==> !HasCycle(Graph())
      ensures Built()
    {
      var found := FindCycles();
      cycles := found;
    }

    /** The search of `detect_cycles`: from every extension not yet visited, in order. */
    method FindCycles() returns (found: seq<seq<string>>)
      requires Closed(Graph()) && dependencies.Keys == Elems(extensionNames)
      requires forall n {:trigger dependencies[n]} :: n in dependencies ==> Elems(dependencies[n]) == Graph()[n]
      ensures forall i :: 0 <= i < |found| ==> IsCycle(Graph(), found[i])
      ensures found == [] <==> !HasCycle(Graph())
    {
      ghost var g := Graph();
      var visited: set<string> := {};
      found := [];
      ghost var finished: seq<string> := [];
      for i := 0 to |extensionNames|
        invariant DfsState(g, visited, [], found, finished)
        invariant Elems(extensionNames[..i]) <= visited
      {
        var extension := extensionNames[i];
        if extension !in visited {
          visited, found, finished := Dfs(extension, visited, [], found, finished);
        }
        assert extensionNames[..i + 1] == extensionNames[..i] + [extension];
        ElemsSnoc(extensionNames[..i], extension);
      }
      assert extensionNames[..|extensionNames|] == extensionNames;
      DfsComplete(g, visited, found, finished);
    }

    /**
     * `dfs_detect_cycles`: visit `current`, recurse into unvisited
     * dependencies, and record the path from a dependency still on the path
     * back to it as a cycle. The path is restored on return, so it is passed
     * by value; the path's set is its elements.
     */
    method Dfs(current: string, visited: set<string>, path: seq<string>,
               cycles0: seq<seq<string>>, ghost finished: seq<string>)
      returns (visited': set<string>, cycles': seq<seq<string>>, ghost finished': seq<string>)
      requires Closed(Graph()) && current in dependencies && current !in visited
      requires forall n {:trigger dependencies[n]} :: n in dependencies ==> Elems(dependencies[n]) == Graph()[n]
      requires DfsState(Graph(), visited, path, cycles0, finished)
      requires |path| > 0 ==> current in Graph()[path[|path| - 1]]
      ensures DfsState(Graph(), visited', path, cycles', finished')
      ensures visited + {current} <= visited' && |cycles0| <= |cycles'|
      decreases dependencies.Keys - visited
    {
      ghost var g := Graph();
      DfsEnter(g, visited, path, cycles0, finished, current);
      visited' := visited + {current};
      cycles' := cycles0;
      finished' := finished;
      var p := path + [current];
      var deps := dependencies[current];
      for j := 0 to |deps|
        invariant DfsState(g, visited', p, cycles', finished')
        invariant visited + {current} <= visited' && |cycles0| <= |cycles'|
        invariant cycles' == [] ==> forall j2 :: 0 <= j2 < j ==> deps[j2] in Elems(finished')
      {
        var dep := deps[j];
        assert dep in g[current];
        if dep !in visited' {
          visited', cycles', finished' := Dfs(dep, visited', p, cycles', finished');
        } else if dep in p {
          var start := Position(p, dep);
          DfsRecord(g, visited', p, cycles', finished', dep);
          cycles' := cycles' + [p[start..]];
        }
      }
      assert cycles' == [] ==> g[current] <= Elems(finished');
      DfsLeave(g, visited', path, cycles', finished', current);
      finished' := finished' + [current];
    }

    /** `has_cycles` */
    function HasCycles(): (b: bool)
      reads this
      requires Valid()
      ensures b <==> HasCycle(SpecGraph(xs))
    {
      BuiltGraph();
      cycles != []
    }

    /** `format_cycles`: the report, built line by line. */
    method FormatCyclesText() returns (s: string)
      requires forall i :: 0 <= i < |cycles| ==> |cycles[i]| > 0
      ensures s == FormatCycles(cycles)
    {
      if |cycles| == 0 {
        return "No cycles detected";
      }
      s := "";
      for i := 0 to |cycles|
        invariant s == CycleReport(cycles[..i])
      {
        var line := CycleText(i + 1, cycles[i]);
        assert cycles[..i + 1][..i] == cycles[..i];
        s := s + line;
      }
      assert cycles[..|cycles|] == cycles;
    }

    /** `resolve_loading_order`'s first loop: each extension's counter, and the queue of those without dependencies. */
    method InitialDegrees() returns (inDegree: map<string, int>, queue: seq<string>)
      ensures inDegree.Keys == Elems(extensionNames)
      ensures forall n {:trigger inDegree[n]} :: n in inDegree ==>
        inDegree[n] == if n in dependencies then |dependencies[n]| else 0
      ensures queue == Seeds(extensionNames, dependencies)
    {
      inDegree, queue := map[], [];
      for i := 0 to |extensionNames|
        invariant inDegree.Keys == Elems(extensionNames[..i])
        invariant forall n {:trigger inDegree[n]} :: n in inDegree ==>
          inDegree[n] == if n in dependencies then |dependencies[n]| else 0
        invariant queue == Seeds(extensionNames[..i], dependencies)
      {
        var ext := extensionNames[i];
        SeedsNext(extensionNames, i, dependencies);
        assert extensionNames[..i + 1] == extensionNames[..i] + [ext];
        ElemsSnoc(extensionNames[..i], ext);
        var deps := if ext in dependencies then dependencies[ext] else [];
        inDegree := inDegree[ext := |deps|];
        if |deps| == 0 {
          queue := queue + [ext];
        }
      }
      assert extensionNames[..|extensionNames|] == extensionNames;
    }

    /**
     * `resolve_loading_order`: Kahn's algorithm. With the extensions' names
     * unique (the manifest's invariant), the result is a dependency order of
     * the whole manifest, and it fails only when the graph has a cycle.
     */
    method ResolveLoadingOrder() returns (r: Result<seq<string>, DependencyError>)
      requires Valid()
      ensures cycles != [] ==> r == Err(CircularDependency(FormatCycles(cycles)))
      ensures cycles == [] && r.Err? ==>
        r == Err(CircularDependency("Unexpected cycle detected during topological sort"))
      ensures r.Ok? ==> |r.value| == |extensionNames|
      ensures UniqueNames(xs) ==> (r.Ok? <==> !HasCycle(SpecGraph(xs)))
      ensures UniqueNames(xs) && r.Ok? ==> IsTopoOrder(SpecGraph(xs), r.value)
    {
      if HasCycles() {
        var text := FormatCyclesText();
        return Err(CircularDependency(text));
      }
      BuiltGraph();
      ghost var g := Graph();
      ghost var unique := UniqueNames(xs);
      var inDegree, queue := InitialDegrees();
      var result: seq<string> := [];
      if unique {
        NamesDistinct(xs);
        KahnStart(g, dependencies, extensionNames, inDegree);
      }
      while |queue| > 0
        invariant inDegree.Keys == g.Keys
        invariant unique ==> KahnState(g, inDegree, result, queue, [])
        decreases |Pending(inDegree)| + |queue|
      {
        var ext := queue[0];
        if unique {
          KahnPop(g, dependents, inDegree, result, queue);
        }
        queue := queue[1..];
        result := result + [ext];
        var ds := if ext in dependents then dependents[ext] else [];
        inDegree, queue := ReleaseDependents(ds, inDegree, queue, g, result, unique);
      }
      if unique {
        KahnFinish(g, inDegree, result);
        NamesDistinct(xs);
        DistinctCard(result);
        DistinctCard(extensionNames);
      }
      if |result| != |extensionNames| {
        return Err(CircularDependency("Unexpected cycle detected during topological sort"));
      }
      return Ok(result);
    }

    // -------------------------------------------------------------------
    // Checks

    /**
     * `validate_dependencies`: every import of the manifest `m` must have a
     * provider, and every function it requests must be in the provider's
     * function set; the first failure, in manifest order, is reported.
     */
    method ValidateDependencies(m: Manifest) returns (r: Outcome<DependencyError>)
      ensures r == if FirstProblem(ImportList(m.xs), interfaceProviders, interfaceFunctions).None? then Pass
                   else Fail(FirstProblem(ImportList(m.xs), interfaceProviders, interfaceFunctions).value)
      ensures r.Pass? <==> forall j :: 0 <= j < |ImportList(m.xs)| ==>
        ImportProblem(ImportList(m.xs)[j], interfaceProviders, interfaceFunctions).None?
    {
      var P, F := interfaceProviders, interfaceFunctions;
      FirstProblemMeaning(ImportList(m.xs), P, F);
      for i := 0 to |m.xs|
        invariant FirstProblem(ImportList(m.xs[..i]), P, F).None?
      {
        var problem := CheckImports(m.xs[i], P, F);
        ListsSnoc(m.xs, i);
        FirstProblemConcat(ImportList(m.xs[..i]), ImportPairs(m.xs[i]), P, F);
        if problem.Some? {
          var ri, _ := ListsExtend(m.xs, i + 1);
          FirstProblemConcat(ImportList(m.xs[..i + 1]), ri, P, F);
          return Fail(problem.value);
        }
      }
      assert m.xs[..|m.xs|] == m.xs;
      return Pass;
    }

    /**
     * `validate_extension_dependencies`: each import of the new extension
     * `x` must be exported by some extension of `m`, and every exporter of
     * it must provide all the requested functions; then `m` with `x`
     * appended must have no cycle. A missing function is reported with `x`
     * as the importer.
     */
    method ValidateExtensionDependencies(x: Extension, m: Manifest) returns (r: Outcome<DependencyError>)
      ensures FirstGap(x.imports, ExportList(m.xs)).Some? ==>
        r == Fail(GapErrorIntended(x, FirstGap(x.imports, ExportList(m.xs)).value))
      ensures FirstGap(x.imports, ExportList(m.xs)).None? ==>
        (r.Pass? <==> !HasCycle(SpecGraph(m.xs + [x])))
      ensures FirstGap(x.imports, ExportList(m.xs)).None? && r.Fail? ==> r.error.CircularDependency?
    {
      ghost var es := ExportList(m.xs);
      for k := 0 to |x.imports|
        invariant FirstGap(x.imports[..k], es).None?
      {
        var imp := x.imports[k];
        FirstGapStep(x.imports, es, k);
        var providerFound, short := ScanManifest(imp, m.xs);
        if short.Some? {
          return Fail(MissingFunction(x.name, imp.name, short.value.1, short.value.0));
        }
        if !providerFound {
          return Fail(MissingInterface(x.name, imp.name));
        }
      }
      assert x.imports[..|x.imports|] == x.imports;
      var extended := new DependencyGraph(Manifest(m.xs + [x]));
      if extended.HasCycles() {
        var text := extended.FormatCyclesText();
        return Fail(CircularDependency(text));
      }
      return Pass;
    }
  }

  /** Unique extension names make the name list duplicate-free. */
  lemma NamesDistinct(xs: seq<Extension>)
    requires UniqueNames(xs)
    ensures Distinct(Names(xs))
  {
  }
}
