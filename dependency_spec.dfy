// What the extension dependency graph is built from, stated on the
// manifest alone: the exports and imports flattened in manifest order, the
// interface-to-provider and interface-to-functions maps they produce (a
// later exporter overwrites an earlier one), the dependency relation the
// imports induce, the checks of imports against exports, and the text of a
// cycle report.
module DependencySpec {
  import opened Wrappers
  import opened Strings
  import opened Graphs
  import opened Manifests

  datatype DependencyError =
    | CircularDependency(message: string)
    | MissingInterface(importer: string, iface: string)
    | MissingFunction(importer: string, iface: string, fn: string, exporter: string)

  // ---------------------------------------------------------------------
  // Exports and imports in manifest order, each with its extension's name

  type Export = (string, ExportedInterface)

  type Import = (string, ImportedInterface)

  function ExportPairs(x: Extension): (r: seq<Export>)
    ensures |r| == |x.exports|
  {
    seq(|x.exports|, e requires 0 <= e < |x.exports| => (x.name, x.exports[e]))
  }

  function ImportPairs(x: Extension): (r: seq<Import>)
    ensures |r| == |x.imports|
  {
    seq(|x.imports|, k requires 0 <= k < |x.imports| => (x.name, x.imports[k]))
  }

  function ExportList(xs: seq<Extension>): seq<Export> {
    if |xs| == 0 then [] else ExportList(xs[..|xs| - 1]) + ExportPairs(xs[|xs| - 1])
  }

  function ImportList(xs: seq<Extension>): seq<Import> {
    if |xs| == 0 then [] else ImportList(xs[..|xs| - 1]) + ImportPairs(xs[|xs| - 1])
  }

  /** Every exporter and importer named in the flat lists is an extension of the manifest. */
  lemma {:induction false} ListedNamesAreExtensions(xs: seq<Extension>)
    ensures forall j :: 0 <= j < |ExportList(xs)| ==> ExportList(xs)[j].0 in Names(xs)
    ensures forall j :: 0 <= j < |ImportList(xs)| ==> ImportList(xs)[j].0 in Names(xs)
    decreases |xs|
  {
    if |xs| > 0 {
      var n := |xs| - 1;
      ListedNamesAreExtensions(xs[..n]);
      assert Names(xs) == Names(xs[..n]) + [xs[n].name];
      var es, ims := ExportList(xs[..n]), ImportList(xs[..n]);
      forall j | 0 <= j < |ExportList(xs)| ensures ExportList(xs)[j].0 in Names(xs) {
        if j < |es| {
          assert ExportList(xs)[j] == es[j];
        } else {
          assert ExportList(xs)[j] == ExportPairs(xs[n])[j - |es|];
        }
      }
      forall j | 0 <= j < |ImportList(xs)| ensures ImportList(xs)[j].0 in Names(xs) {
        if j < |ims| {
          assert ImportList(xs)[j] == ims[j];
        } else {
          assert ImportList(xs)[j] == ImportPairs(xs[n])[j - |ims|];
        }
      }
    }
  }

  /** One more extension appends its own pairs to both flat lists. */
  lemma ListsSnoc(xs: seq<Extension>, i: nat)
    requires i < |xs|
    ensures ImportList(xs[..i + 1]) == ImportList(xs[..i]) + ImportPairs(xs[i])
    ensures ExportList(xs[..i + 1]) == ExportList(xs[..i]) + ExportPairs(xs[i])
  {
    assert xs[..i + 1][..i] == xs[..i];
  }

  /** The flat lists of a prefix of the manifest are prefixes of the whole lists. */
  lemma {:induction false} ListsExtend(xs: seq<Extension>, j: nat) returns (ri: seq<Import>, re: seq<Export>)
    requires j <= |xs|
    ensures ImportList(xs) == ImportList(xs[..j]) + ri
    ensures ExportList(xs) == ExportList(xs[..j]) + re
    decreases |xs|
  {
    if j == |xs| {
      assert xs[..j] == xs;
      ri, re := [], [];
    } else {
      var n := |xs| - 1;
      assert xs[..n][..j] == xs[..j];
      var ri0, re0 := ListsExtend(xs[..n], j);
      ri, re := ri0 + ImportPairs(xs[n]), re0 + ExportPairs(xs[n]);
    }
  }

  // ---------------------------------------------------------------------
  // Per-extension interface lists

  function ImportNames(x: Extension): seq<string> {
    seq(|x.imports|, k requires 0 <= k < |x.imports| => x.imports[k].name)
  }

  function ExportNames(x: Extension): seq<string> {
    seq(|x.exports|, e requires 0 <= e < |x.exports| => x.exports[e].name)
  }

  /** A map from extension name to `f` of that extension; a later extension of the same name overwrites. */
  function ByName(xs: seq<Extension>, f: Extension -> seq<string>): map<string, seq<string>> {
    if |xs| == 0 then map[]
    else ByName(xs[..|xs| - 1], f)[xs[|xs| - 1].name := f(xs[|xs| - 1])]
  }

  lemma ByNameSnoc(xs: seq<Extension>, f: Extension -> seq<string>, i: nat)
    requires i < |xs|
    ensures ByName(xs[..i + 1], f) == ByName(xs[..i], f)[xs[i].name := f(xs[i])]
  {
    assert xs[..i + 1][..i] == xs[..i];
  }

  /**
   * The map has one key per extension name, and each extension whose name
   * no later extension reuses (every one, when names are unique) finds its
   * own entry.
   */
  lemma {:induction false} ByNameLastWins(xs: seq<Extension>, f: Extension -> seq<string>, i: nat)
    requires i < |xs|
    requires forall j :: i < j < |xs| ==> xs[j].name != xs[i].name
    ensures ByName(xs, f).Keys == Elems(Names(xs))
    ensures xs[i].name in ByName(xs, f) && ByName(xs, f)[xs[i].name] == f(xs[i])
    decreases |xs|
  {
    var n := |xs| - 1;
    assert Names(xs) == Names(xs[..n]) + [xs[n].name];
    if i < n {
      ByNameLastWins(xs[..n], f, i);
    } else if n > 0 {
      ByNameLastWins(xs[..n], f, n - 1);
    }
  }

  // ---------------------------------------------------------------------
  // Interface providers and interface functions

  function ProviderMap(es: seq<Export>): map<string, string> {
    if |es| == 0 then map[]
    else ProviderMap(es[..|es| - 1])[es[|es| - 1].1.name := es[|es| - 1].0]
  }

  function FunctionMap(es: seq<Export>): map<string, set<string>> {
    if |es| == 0 then map[]
    else FunctionMap(es[..|es| - 1])[es[|es| - 1].1.name := Elems(es[|es| - 1].1.funcs)]
  }

  function Providers(xs: seq<Extension>): map<string, string> {
    ProviderMap(ExportList(xs))
  }

  function Functions(xs: seq<Extension>): map<string, set<string>> {
    FunctionMap(ExportList(xs))
  }

  /** One more export sets its interface's provider and function set. */
  lemma MapsSnoc(es: seq<Export>, y: Export)
    ensures ProviderMap(es + [y]) == ProviderMap(es)[y.1.name := y.0]
    ensures FunctionMap(es + [y]) == FunctionMap(es)[y.1.name := Elems(y.1.funcs)]
  {
    assert (es + [y])[..|es|] == es;
  }

  predicate ExportedAt(es: seq<Export>, j: int, iface: string) {
    0 <= j < |es| && es[j].1.name == iface
  }

  /**
   * An interface has a provider iff some extension exports it, and then the
   * provider and the function set both come from its LAST export.
   */
  lemma {:induction false} LastExportWins(es: seq<Export>, iface: string)
    ensures iface in ProviderMap(es) <==> iface in FunctionMap(es)
    ensures iface in ProviderMap(es) <==> exists j :: ExportedAt(es, j, iface)
    ensures iface in ProviderMap(es) ==>
      exists j :: ExportedAt(es, j, iface) && (forall j2 :: ExportedAt(es, j2, iface) ==> j2 <= j)
        && ProviderMap(es)[iface] == es[j].0 && FunctionMap(es)[iface] == Elems(es[j].1.funcs)
    decreases |es|
  {
    if |es| > 0 {
      var n := |es| - 1;
      var init := es[..n];
      LastExportWins(init, iface);
      if es[n].1.name == iface {
        assert ExportedAt(es, n, iface);
      } else if iface in ProviderMap(init) {
        var j :| ExportedAt(init, j, iface) && (forall j2 :: ExportedAt(init, j2, iface) ==> j2 <= j)
          && ProviderMap(init)[iface] == init[j].0 && FunctionMap(init)[iface] == Elems(init[j].1.funcs);
        LastExportKept(es, init, iface, j);
      } else {
        NotExportedKept(es, init, iface);
      }
    }
  }

  /** An export of `iface` that is last among all but the final export stays last when the final one exports something else. */
  lemma LastExportKept(es: seq<Export>, init: seq<Export>, iface: string, j: int)
    requires |es| > 0 && init == es[..|es| - 1] && es[|es| - 1].1.name != iface
    requires ExportedAt(init, j, iface)
    requires forall j2 :: ExportedAt(init, j2, iface) ==> j2 <= j
    ensures ExportedAt(es, j, iface) && init[j] == es[j]
    ensures forall j2 :: ExportedAt(es, j2, iface) ==> j2 <= j
  {
    var n := |es| - 1;
    ExportedAtInit(es, n, j, iface);
    forall j2 | ExportedAt(es, j2, iface) ensures j2 <= j {
      ExportedAtInit(es, n, j2, iface);
    }
  }

  /** An interface that no export but the final one names, and the final one does not name, is exported nowhere. */
  lemma NotExportedKept(es: seq<Export>, init: seq<Export>, iface: string)
    requires |es| > 0 && init == es[..|es| - 1] && es[|es| - 1].1.name != iface
    requires !exists j :: ExportedAt(init, j, iface)
    ensures !exists j :: ExportedAt(es, j, iface)
  {
    forall j | 0 <= j < |es| ensures !ExportedAt(es, j, iface) {
      ExportedAtInit(es, |es| - 1, j, iface);
    }
  }

  /** An export position among the first `n` exports is one of all the exports, below `n`. */
  lemma ExportedAtInit(es: seq<Export>, n: nat, j: int, iface: string)
    requires n <= |es|
    ensures ExportedAt(es[..n], j, iface) <==> j < n && ExportedAt(es, j, iface)
    ensures 0 <= j < n ==> es[..n][j] == es[j]
  {
  }

  /** Every provider is an extension of the manifest. */
  lemma ProvidersAreExtensions(xs: seq<Extension>, iface: string)
    requires iface in Providers(xs)
    ensures Providers(xs)[iface] in Names(xs)
  {
    LastExportWins(ExportList(xs), iface);
    ListedNamesAreExtensions(xs);
  }

  // ---------------------------------------------------------------------
  // Dependency edges

  /** Import `j` of the list is made by `n` and resolves, through the provider map, to `p`. */
  predicate ImportEdge(ims: seq<Import>, P: map<string, string>, j: int, n: string, p: string) {
    0 <= j < |ims| && ims[j].0 == n && ims[j].1.name in P && P[ims[j].1.name] == p
  }

  ghost predicate EdgeIn(ims: seq<Import>, P: map<string, string>, n: string, p: string) {
    exists j :: ImportEdge(ims, P, j, n, p)
  }

  /** One more import adds at most the edge from its importer to its interface's provider. */
  lemma EdgeInAppend(ims: seq<Import>, q: Import, P: map<string, string>, n: string, p: string)
    ensures EdgeIn(ims + [q], P, n, p) <==>
      EdgeIn(ims, P, n, p) || (q.0 == n && q.1.name in P && P[q.1.name] == p)
  {
    var t := ims + [q];
    if EdgeIn(t, P, n, p) {
      var j :| ImportEdge(t, P, j, n, p);
      if j < |ims| { assert ImportEdge(ims, P, j, n, p); }
    }
    if EdgeIn(ims, P, n, p) {
      var j :| ImportEdge(ims, P, j, n, p);
      assert ImportEdge(t, P, j, n, p);
    }
    if q.0 == n && q.1.name in P && P[q.1.name] == p {
      assert ImportEdge(t, P, |ims|, n, p);
    }
  }

  /** Extension `n` imports an interface whose provider is `p`. */
  ghost predicate DependsOn(xs: seq<Extension>, n: string, p: string) {
    EdgeIn(ImportList(xs), Providers(xs), n, p)
  }

  /** Both ends of a dependency are extensions of the manifest. */
  lemma DependencyEndsAreExtensions(xs: seq<Extension>, n: string, p: string)
    requires DependsOn(xs, n, p)
    ensures n in Names(xs) && p in Names(xs)
  {
    var j :| ImportEdge(ImportList(xs), Providers(xs), j, n, p);
    ListedNamesAreExtensions(xs);
    ProvidersAreExtensions(xs, ImportList(xs)[j].1.name);
  }

  /** The graph the manifest induces: each extension and the providers of its imports. */
  ghost function SpecGraph(xs: seq<Extension>): Graph {
    map n | n in Names(xs) :: set p | p in Names(xs) && DependsOn(xs, n, p)
  }

  // ---------------------------------------------------------------------
  // Checking imports against exports

  /** The first of `fs` that is not in `have`. */
  function FirstAbsent(fs: seq<string>, have: set<string>): (r: Option<string>)
    ensures r.None? <==> forall k :: 0 <= k < |fs| ==> fs[k] in have
    ensures r.Some? ==>
      exists k :: 0 <= k < |fs| && fs[k] == r.value && r.value !in have
        && forall k2 :: 0 <= k2 < k ==> fs[k2] in have
  {
    if |fs| == 0 then None
    else if fs[0] !in have then
      assert fs[0] == fs[0];
      Some(fs[0])
    else
      var r := FirstAbsent(fs[1..], have);
      if r.Some? then
        var k :| 0 <= k < |fs[1..]| && fs[1..][k] == r.value && r.value !in have
          && forall k2 :: 0 <= k2 < k ==> fs[1..][k2] in have;
        assert fs[k + 1] == r.value;
        assert forall k2 :: 0 <= k2 < k + 1 ==> fs[k2] in have by {
          forall k2 | 0 <= k2 < k + 1 ensures fs[k2] in have {
            if k2 > 0 { assert fs[k2] == fs[1..][k2 - 1]; }
          }
        }
        r
      else
        assert forall k :: 1 <= k < |fs| ==> fs[k] == fs[1..][k - 1];
        r
  }

  /** The first absent function of a concatenation: the first part's, else the second part's. */
  lemma {:induction false} FirstAbsentConcat(a: seq<string>, b: seq<string>, have: set<string>)
    ensures FirstAbsent(a + b, have) == if FirstAbsent(a, have).Some? then FirstAbsent(a, have) else FirstAbsent(b, have)
    decreases |a|
  {
    if |a| == 0 {
      assert a + b == b;
    } else {
      assert (a + b)[1..] == a[1..] + b;
      FirstAbsentConcat(a[1..], b, have);
    }
  }

  /** Scanning one more function: the first absent one is found there, or the prefix stays clear. */
  lemma FirstAbsentStep(fs: seq<string>, have: set<string>, k: nat)
    requires k < |fs| && FirstAbsent(fs[..k], have).None?
    ensures fs[k] !in have ==> FirstAbsent(fs, have) == Some(fs[k])
    ensures fs[k] in have ==> FirstAbsent(fs[..k + 1], have).None?
  {
    var one := [fs[k]];
    assert fs[..k + 1] == fs[..k] + one;
    assert fs == fs[..k + 1] + fs[k + 1..];
    FirstAbsentConcat(fs[..k], one, have);
    FirstAbsentConcat(fs[..k + 1], fs[k + 1..], have);
    assert one[1..] == [];
  }

  /**
   * The problem with one import, as the graph's check sees it: no provider
   * for the interface, or a requested function missing from the
   * interface's function set (checked only when that set is known).
   */
  function ImportProblem(q: Import, P: map<string, string>, F: map<string, set<string>>): Option<DependencyError> {
    if q.1.name !in P then Some(MissingInterface(q.0, q.1.name))
    else if q.1.name in F && FirstAbsent(q.1.functions, F[q.1.name]).Some? then
      Some(MissingFunction(q.0, q.1.name, FirstAbsent(q.1.functions, F[q.1.name]).value, P[q.1.name]))
    else None
  }

  /** The problem with the first import that has one. */
  function FirstProblem(ims: seq<Import>, P: map<string, string>, F: map<string, set<string>>): Option<DependencyError> {
    if |ims| == 0 then None
    else if ImportProblem(ims[0], P, F).Some? then ImportProblem(ims[0], P, F)
    else FirstProblem(ims[1..], P, F)
  }

  lemma {:induction false} FirstProblemConcat(a: seq<Import>, b: seq<Import>, P: map<string, string>, F: map<string, set<string>>)
    ensures FirstProblem(a + b, P, F) == if FirstProblem(a, P, F).Some? then FirstProblem(a, P, F) else FirstProblem(b, P, F)
    decreases |a|
  {
    if |a| == 0 {
      assert a + b == b;
    } else {
      assert (a + b)[1..] == a[1..] + b;
      FirstProblemConcat(a[1..], b, P, F);
    }
  }

  /** Checking one more import: its problem is the first one, or the prefix stays clear. */
  lemma FirstProblemStep(ims: seq<Import>, P: map<string, string>, F: map<string, set<string>>, k: nat)
    requires k < |ims| && FirstProblem(ims[..k], P, F).None?
    ensures ImportProblem(ims[k], P, F).Some? ==> FirstProblem(ims, P, F) == ImportProblem(ims[k], P, F)
    ensures ImportProblem(ims[k], P, F).None? ==> FirstProblem(ims[..k + 1], P, F).None?
  {
    var one := [ims[k]];
    assert ims[..k + 1] == ims[..k] + one;
    assert ims == ims[..k + 1] + ims[k + 1..];
    FirstProblemConcat(ims[..k], one, P, F);
    FirstProblemConcat(ims[..k + 1], ims[k + 1..], P, F);
    assert one[1..] == [];
  }

  /**
   * The check passes iff every import has a provider and, where the
   * interface's function set is known, all its requested functions; a
   * failure is the problem of the first failing import.
   */
  lemma {:induction false} FirstProblemMeaning(ims: seq<Import>, P: map<string, string>, F: map<string, set<string>>)
    ensures FirstProblem(ims, P, F).None? <==> forall j :: 0 <= j < |ims| ==> ImportProblem(ims[j], P, F).None?
    ensures FirstProblem(ims, P, F).Some? ==>
      exists j :: 0 <= j < |ims| && FirstProblem(ims, P, F) == ImportProblem(ims[j], P, F)
        && forall j2 :: 0 <= j2 < j ==> ImportProblem(ims[j2], P, F).None?
    decreases |ims|
  {
    if |ims| > 0 {
      FirstProblemMeaning(ims[1..], P, F);
      assert forall j :: 1 <= j < |ims| ==> ims[j] == ims[1..][j - 1];
      if ImportProblem(ims[0], P, F).None? && FirstProblem(ims[1..], P, F).Some? {
        var j :| 0 <= j < |ims[1..]| && FirstProblem(ims[1..], P, F) == ImportProblem(ims[1..][j], P, F)
          && forall j2 :: 0 <= j2 < j ==> ImportProblem(ims[1..][j2], P, F).None?;
        assert FirstProblem(ims, P, F) == ImportProblem(ims[j + 1], P, F);
        forall j2 | 0 <= j2 < j + 1 ensures ImportProblem(ims[j2], P, F).None? {
          if j2 > 0 { assert ims[j2] == ims[1..][j2 - 1]; }
        }
      }
    }
  }

  // ---------------------------------------------------------------------
  // Checking a new extension's imports against every exporter

  /** A problem found for a new extension's import. */
  datatype ImportGap =
    | NoExporter(iface: string)
    | AbsentFunction(iface: string, exporter: string, fn: string)

  /** The first exporter of `q`'s interface that lacks one of its functions, and that function. */
  function FirstShortExporter(q: ImportedInterface, es: seq<Export>): Option<(string, string)> {
    if |es| == 0 then None
    else if es[0].1.name == q.name && FirstAbsent(q.functions, Elems(es[0].1.funcs)).Some? then
      Some((es[0].0, FirstAbsent(q.functions, Elems(es[0].1.funcs)).value))
    else FirstShortExporter(q, es[1..])
  }

  predicate Exported(es: seq<Export>, iface: string) {
    exists j :: 0 <= j < |es| && ExportedAt(es, j, iface)
  }

  /**
   * The first import of the new extension that is exported by nobody, or
   * whose exporters do not all provide its functions.
   */
  function FirstGap(imps: seq<ImportedInterface>, es: seq<Export>): Option<ImportGap> {
    if |imps| == 0 then None
    else
      var q := imps[0];
      match FirstShortExporter(q, es)
      case Some((y, f)) => Some(AbsentFunction(q.name, y, f))
      case None =>
        if !Exported(es, q.name) then Some(NoExporter(q.name))
        else FirstGap(imps[1..], es)
  }

  /** The reported error, as written: a missing function names the exporter in both roles. */
  function GapError(x: Extension, g: ImportGap): DependencyError {
    match g
    case NoExporter(iface) => MissingInterface(x.name, iface)
    case AbsentFunction(iface, y, f) => MissingFunction(y, iface, f, y)
  }

  /**
   * The error as written names the exporter as the importer: an extension
   * `ext-c` asking `math/lib` for `mul` from `ext-b`, which exports only
   * `add`, is reported as `ext-b` importing from itself.
   */
  lemma ShadowedImporter()
    ensures var x := Extension("ext-c", "", "", [ImportedInterface("math/lib", "ext-b", ["mul"])], []);
      var y := Extension("ext-b", "", "", [], [ExportedInterface("math/lib", ["add"])]);
      var g := FirstGap(x.imports, ExportList([y]));
      g == Some(AbsentFunction("math/lib", "ext-b", "mul"))
      && GapError(x, g.value) == MissingFunction("ext-b", "math/lib", "mul", "ext-b")
      && GapErrorIntended(x, g.value) == MissingFunction("ext-c", "math/lib", "mul", "ext-b")
  {
    var x := Extension("ext-c", "", "", [ImportedInterface("math/lib", "ext-b", ["mul"])], []);
    var y := Extension("ext-b", "", "", [], [ExportedInterface("math/lib", ["add"])]);
    var es := ExportList([y]);
    assert [y][..0] == [];
    assert ExportList([y][..0]) == [];
    assert ExportPairs(y) == [("ext-b", ExportedInterface("math/lib", ["add"]))];
    assert es == [("ext-b", ExportedInterface("math/lib", ["add"]))];
    assert "mul" !in Elems(["add"]);
    assert FirstAbsent(["mul"], Elems(["add"])) == Some("mul");
    assert FirstShortExporter(x.imports[0], es) == Some(("ext-b", "mul"));
  }

  /** The reported error, corrected: the importer is the extension being checked. */
  function GapErrorIntended(x: Extension, g: ImportGap): (r: DependencyError)
    ensures !r.CircularDependency? && r.importer == x.name
    ensures g.AbsentFunction? ==> r.MissingFunction? && r.exporter == g.exporter && r.fn == g.fn
    ensures g.NoExporter? ==> r == MissingInterface(x.name, g.iface)
  {
    match g
    case NoExporter(iface) => MissingInterface(x.name, iface)
    case AbsentFunction(iface, y, f) => MissingFunction(x.name, iface, f, y)
  }

  /** A short exporter exists iff some exporter of the interface lacks a requested function. */
  lemma {:induction false} ShortExporterMeaning(q: ImportedInterface, es: seq<Export>)
    ensures FirstShortExporter(q, es).None? <==>
      forall j :: ExportedAt(es, j, q.name) ==> FirstAbsent(q.functions, Elems(es[j].1.funcs)).None?
    ensures FirstShortExporter(q, es).Some? ==>
      exists j :: ExportedAt(es, j, q.name) && FirstShortExporter(q, es).value.0 == es[j].0
        && FirstAbsent(q.functions, Elems(es[j].1.funcs)) == Some(FirstShortExporter(q, es).value.1)
    decreases |es|
  {
    if |es| > 0 {
      ShortExporterMeaning(q, es[1..]);
      assert forall j :: 1 <= j < |es| ==> es[j] == es[1..][j - 1];
      assert forall j :: 1 <= j < |es| ==> (ExportedAt(es, j, q.name) <==> ExportedAt(es[1..], j - 1, q.name));
      if es[0].1.name == q.name && FirstAbsent(q.functions, Elems(es[0].1.funcs)).Some? {
        assert ExportedAt(es, 0, q.name);
      } else if FirstShortExporter(q, es[1..]).Some? {
        var j :| ExportedAt(es[1..], j, q.name) && FirstShortExporter(q, es[1..]).value.0 == es[1..][j].0
          && FirstAbsent(q.functions, Elems(es[1..][j].1.funcs)) == Some(FirstShortExporter(q, es[1..]).value.1);
        assert ExportedAt(es, j + 1, q.name);
      }
    }
  }

  /**
   * No gap iff every import of the new extension is exported by someone and
   * every exporter of it provides all the requested functions.
   */
  lemma {:induction false} FirstGapMeaning(imps: seq<ImportedInterface>, es: seq<Export>)
    ensures FirstGap(imps, es).None? <==>
      forall k :: 0 <= k < |imps| ==> Exported(es, imps[k].name) && FirstShortExporter(imps[k], es).None?
    decreases |imps|
  {
    if |imps| > 0 {
      FirstGapMeaning(imps[1..], es);
      assert forall k :: 1 <= k < |imps| ==> imps[k] == imps[1..][k - 1];
    }
  }

  lemma {:induction false} ShortExporterConcat(q: ImportedInterface, a: seq<Export>, b: seq<Export>)
    ensures FirstShortExporter(q, a + b) ==
      if FirstShortExporter(q, a).Some? then FirstShortExporter(q, a) else FirstShortExporter(q, b)
    decreases |a|
  {
    if |a| == 0 {
      assert a + b == b;
    } else {
      assert (a + b)[1..] == a[1..] + b;
      ShortExporterConcat(q, a[1..], b);
    }
  }

  /** Looking at one more export: it is the first short exporter, or the prefix stays clear. */
  lemma ShortExporterStep(q: ImportedInterface, es: seq<Export>, e: nat)
    requires e < |es| && FirstShortExporter(q, es[..e]).None?
    ensures es[e].1.name == q.name && FirstAbsent(q.functions, Elems(es[e].1.funcs)).Some? ==>
      FirstShortExporter(q, es) == Some((es[e].0, FirstAbsent(q.functions, Elems(es[e].1.funcs)).value))
    ensures !(es[e].1.name == q.name && FirstAbsent(q.functions, Elems(es[e].1.funcs)).Some?) ==>
      FirstShortExporter(q, es[..e + 1]).None?
    ensures Exported(es[..e + 1], q.name) <==> Exported(es[..e], q.name) || es[e].1.name == q.name
  {
    var one := [es[e]];
    assert es[..e + 1] == es[..e] + one;
    assert es == es[..e + 1] + es[e + 1..];
    ShortExporterConcat(q, es[..e], one);
    ShortExporterConcat(q, es[..e + 1], es[e + 1..]);
    ExportedAppend(es[..e], es[e], q.name);
    assert one[1..] == [];
  }

  lemma ExportedAppend(es: seq<Export>, y: Export, iface: string)
    ensures Exported(es + [y], iface) <==> Exported(es, iface) || y.1.name == iface
  {
    if Exported(es + [y], iface) && y.1.name != iface {
      var j :| 0 <= j < |es + [y]| && ExportedAt(es + [y], j, iface);
      assert ExportedAt(es, j, iface);
    }
    if Exported(es, iface) {
      var j :| 0 <= j < |es| && ExportedAt(es, j, iface);
      assert ExportedAt(es + [y], j, iface);
    }
    if y.1.name == iface {
      assert ExportedAt(es + [y], |es|, iface);
    }
  }

  lemma ExportedConcat(a: seq<Export>, b: seq<Export>, iface: string)
    ensures Exported(a + b, iface) <==> Exported(a, iface) || Exported(b, iface)
  {
    if Exported(a + b, iface) {
      var j :| 0 <= j < |a + b| && ExportedAt(a + b, j, iface);
      if j < |a| { assert ExportedAt(a, j, iface); } else { assert ExportedAt(b, j - |a|, iface); }
    }
    if Exported(a, iface) {
      var j :| 0 <= j < |a| && ExportedAt(a, j, iface);
      assert ExportedAt(a + b, j, iface);
    }
    if Exported(b, iface) {
      var j :| 0 <= j < |b| && ExportedAt(b, j, iface);
      assert ExportedAt(a + b, j + |a|, iface);
    }
  }

  lemma {:induction false} FirstGapConcat(a: seq<ImportedInterface>, b: seq<ImportedInterface>, es: seq<Export>)
    ensures FirstGap(a + b, es) == if FirstGap(a, es).Some? then FirstGap(a, es) else FirstGap(b, es)
    decreases |a|
  {
    if |a| == 0 {
      assert a + b == b;
    } else {
      assert (a + b)[1..] == a[1..] + b;
      FirstGapConcat(a[1..], b, es);
    }
  }

  /** Checking one more import of the new extension: its gap is the first one, or the prefix stays clear. */
  lemma FirstGapStep(imps: seq<ImportedInterface>, es: seq<Export>, k: nat)
    requires k < |imps| && FirstGap(imps[..k], es).None?
    ensures FirstShortExporter(imps[k], es).Some? ==>
      FirstGap(imps, es) == Some(AbsentFunction(imps[k].name, FirstShortExporter(imps[k], es).value.0,
                                                FirstShortExporter(imps[k], es).value.1))
    ensures FirstShortExporter(imps[k], es).None? && !Exported(es, imps[k].name) ==>
      FirstGap(imps, es) == Some(NoExporter(imps[k].name))
    ensures FirstShortExporter(imps[k], es).None? && Exported(es, imps[k].name) ==>
      FirstGap(imps[..k + 1], es).None?
  {
    var one := [imps[k]];
    assert imps[..k + 1] == imps[..k] + one;
    assert imps == imps[..k + 1] + imps[k + 1..];
    FirstGapConcat(imps[..k], one, es);
    FirstGapConcat(imps[..k + 1], imps[k + 1..], es);
    assert one[1..] == [];
  }

  // ---------------------------------------------------------------------
  // The cycle report

  function DigitChar(d: nat): char
    requires d < 10
  {
    "0123456789"[d]
  }

  /** The decimal numeral of `n`, as `format!("{}", n)` writes it. */
  function Decimal(n: nat): (r: string)
    ensures |r| > 0
    ensures forall k :: 0 <= k < |r| ==> '0' <= r[k] <= '9'
    decreases n
  {
    if n < 10 then [DigitChar(n)] else Decimal(n / 10) + [DigitChar(n % 10)]
  }

  /** The value a decimal numeral denotes. */
  function NumeralValue(s: string): nat
    requires forall k :: 0 <= k < |s| ==> '0' <= s[k] <= '9'
  {
    if |s| == 0 then 0 else NumeralValue(s[..|s| - 1]) * 10 + (s[|s| - 1] as int - '0' as int)
  }

  /** The numeral reads back as the number it was written from. */
  lemma {:induction false} DecimalRoundTrip(n: nat)
    ensures NumeralValue(Decimal(n)) == n
    decreases n
  {
    if n >= 10 {
      DecimalRoundTrip(n / 10);
      var s := Decimal(n);
      assert s[..|s| - 1] == Decimal(n / 10);
    }
  }

  /** The members of one cycle joined by arrows, closed back to the first member. */
  function CycleLine(c: seq<string>): string
    requires |c| > 0
  {
    Join(c, " \U{2192} ") + " \U{2192} " + c[0]
  }

  /** One numbered entry of the report. */
  function CycleEntry(number: nat, c: seq<string>): string
    requires |c| > 0
  {
    "Cycle " + Decimal(number) + ": " + CycleLine(c) + "\n"
  }

  /** The entries of all cycles, numbered from 1, in order. */
  function CycleReport(cycles: seq<seq<string>>): string
    requires forall i :: 0 <= i < |cycles| ==> |cycles[i]| > 0
  {
    if |cycles| == 0 then ""
    else CycleReport(cycles[..|cycles| - 1]) + CycleEntry(|cycles|, cycles[|cycles| - 1])
  }

  /** `format_cycles`: a fixed message when there are none, one numbered line per cycle otherwise. */
  function FormatCycles(cycles: seq<seq<string>>): string
    requires forall i :: 0 <= i < |cycles| ==> |cycles[i]| > 0
  {
    if |cycles| == 0 then "No cycles detected" else CycleReport(cycles)
  }

  lemma {:induction false} ReportOpensWithFirst(cycles: seq<seq<string>>)
    requires |cycles| > 0 && forall i :: 0 <= i < |cycles| ==> |cycles[i]| > 0
    ensures StartsWith(CycleReport(cycles), CycleEntry(1, cycles[0]))
    decreases |cycles|
  {
    var n := |cycles| - 1;
    var init := cycles[..n];
    if n == 0 {
      assert CycleReport(cycles) == "" + CycleEntry(1, cycles[0]);
      StartsWithConcat(CycleEntry(1, cycles[0]), "");
    } else {
      ReportOpensWithFirst(init);
      var head := CycleEntry(1, cycles[0]);
      var r := CycleReport(init);
      assert r[..|head|] == head;
      assert (r + CycleEntry(|cycles|, cycles[n]))[..|head|] == r[..|head|];
    }
  }

  /** The report says no cycles exactly when there are none; otherwise it opens with the first one. */
  lemma FormatCyclesMeaning(cycles: seq<seq<string>>)
    requires forall i :: 0 <= i < |cycles| ==> |cycles[i]| > 0
    ensures FormatCycles(cycles) == "No cycles detected" <==> cycles == []
    ensures cycles != [] ==> StartsWith(FormatCycles(cycles), "Cycle 1: " + CycleLine(cycles[0]) + "\n")
  {
    if cycles != [] {
      ReportOpensWithFirst(cycles);
      assert Decimal(1) == "1";
      var r := FormatCycles(cycles);
      assert r[0] == 'C';
    }
  }
}
