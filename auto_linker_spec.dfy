// The prototype automatic linker's bookkeeping, stated on values: interface
// items named by a component's imports and exports, the derivation of a
// function name from an interface name, the reference keys of the imported
// functions, and the dependency graph its depth-first search orders (each
// component depends on the first exporter, in the exports table's iteration
// order, of every interface it imports).
module AutoLinkerSpec {
  import opened Wrappers
  import opened Strings
  import opened Graphs

  /** One import or export: an interface name, or an item (function) name, or both. */
  datatype InterfaceItem = InterfaceItem(interfaceName: string, itemName: string)

  /**
   * A `HashMap<String, Vec<InterfaceItem>>` keyed by component name,
   * together with the order in which iterating over it yields its keys
   * (fixed for an unchanged map, but unspecified).
   */
  datatype Table = Table(entries: map<string, seq<InterfaceItem>>, order: seq<string>)

  predicate TableValid(t: Table) {
    Distinct(t.order) && Elems(t.order) == t.entries.Keys
  }

  /** The items a table lists for a component (`get` on a missing key gives none). */
  function ItemsOf(t: Table, c: string): seq<InterfaceItem> {
    if c in t.entries then t.entries[c] else []
  }

  // ---------------------------------------------------------------------
  // Names

  /**
   * `parse_name`: a name holding both `:` and `/` is an interface name,
   * any other name an item name; exactly one part is the whole name.
   */
  function ParseName(name: string): (r: (string, string))
    ensures r.0 + r.1 == name
    ensures r.0 == "" || r.1 == ""
    ensures r.0 != "" <==> ':' in name && '/' in name
  {
    if ':' in name && '/' in name then (name, "") else ("", name)
  }

  /** The test components' names: an interface name and a function name. */
  lemma ParseNameExamples()
    ensures ParseName("local:cmpnt-a/interface-a") == ("local:cmpnt-a/interface-a", "")
    ensures ParseName("fn-a") == ("", "fn-a")
  {
    assert "local:cmpnt-a/interface-a"[5] == ':' && "local:cmpnt-a/interface-a"[13] == '/';
    assert forall k :: 0 <= k < 4 ==> "fn-a"[k] != ':';
  }

  /** `create_ref_key(component, interface, item)`: `component:interface:item`. */
  function CreateRefKey(c: string, iface: string, item: string): string {
    c + ":" + iface + ":" + item
  }

  /**
   * Reference keys are unique: with component and item names free of `:`
   * (interface names such as `local:cmpnt-b/interface-b` may hold one),
   * equal keys have equal parts.
   */
  lemma {:induction false} RefKeyParts(c1: string, i1: string, f1: string, c2: string, i2: string, f2: string)
    requires ':' !in c1 && ':' !in c2 && ':' !in f1 && ':' !in f2
    requires CreateRefKey(c1, i1, f1) == CreateRefKey(c2, i2, f2)
    ensures c1 == c2 && i1 == i2 && f1 == f2
  {
    var k := CreateRefKey(c1, i1, f1);
    var t1 := i1 + ":" + f1;
    var t2 := i2 + ":" + f2;
    assert k == c1 + ":" + t1 && k == c2 + ":" + t2;
    if |c1| < |c2| {
      SeparatorAt(c1, t1);
      assert false;
    } else if |c2| < |c1| {
      SeparatorAt(c2, t2);
      assert false;
    }
    assert c1 == k[..|c1|] == c2;
    assert t1 == k[|c1| + 1..] == t2;
    // The last `:` of the rest separates interface and item.
    if |f1| < |f2| {
      SeparatorAt(i2, f2);
      SeparatorAt(i1, f1);
      assert false;
    } else if |f2| < |f1| {
      SeparatorAt(i1, f1);
      SeparatorAt(i2, f2);
      assert false;
    }
    assert f1 == t1[|t1| - |f1|..] == f2;
    assert i1 == t1[..|i1|] == i2;
  }

  lemma SeparatorAt(a: string, b: string)
    ensures (a + ":" + b)[|a|] == ':'
    ensures (a + ":" + b)[..|a|] == a
    ensures (a + ":" + b)[|a| + 1..] == b
  {
  }

  // ---------------------------------------------------------------------
  // Discovering function names

  /**
   * The function name `discover_functions` derives from an interface name
   * `ns:pkg/x`: `fn-` followed by the last character of `pkg`; nothing for
   * any other shape (not exactly one `/`, not exactly one `:` before it, or
   * an empty `pkg`).
   */
  function FunctionNameFor(iface: string): Option<string> {
    var parts := Split(iface, '/');
    if |parts| != 2 then None
    else
      var inner := Split(parts[0], ':');
      if |inner| != 2 || |inner[1]| == 0 then None
      else Some("fn-" + [inner[1][|inner[1]| - 1]])
  }

  /** A name of the shape `ns:pkg/x` with a non-empty `pkg` gets `fn-` and the last character of `pkg`. */
  lemma FunctionNameOfShape(ns: string, pkg: string, x: string)
    requires ':' !in ns && ':' !in pkg && '/' !in ns && '/' !in pkg && '/' !in x
    requires |pkg| > 0
    ensures FunctionNameFor(ns + ":" + pkg + "/" + x) == Some("fn-" + [pkg[|pkg| - 1]])
  {
    var head := ns + ":" + pkg;
    assert Join([ns, pkg], ":") == head by {
      assert [ns, pkg][1..] == [pkg];
    }
    assert Join([head, x], "/") == head + "/" + x by {
      assert [head, x][1..] == [x];
    }
    SplitJoin([head, x], '/');
    SplitJoin([ns, pkg], ':');
  }

  /** Conversely, a derived name comes from a name of that shape. */
  lemma FunctionNameShape(iface: string, f: string)
    requires FunctionNameFor(iface) == Some(f)
    ensures exists ns, pkg, x ::
      && ':' !in ns && ':' !in pkg && '/' !in ns && '/' !in pkg && '/' !in x && |pkg| > 0
      && iface == ns + ":" + pkg + "/" + x && f == "fn-" + [pkg[|pkg| - 1]]
  {
    var parts := Split(iface, '/');
    var inner := Split(parts[0], ':');
    assert |parts| == 2 && |inner| == 2 && |inner[1]| > 0;
    TwoPieces(iface, '/');
    TwoPieces(parts[0], ':');
    var ns, pkg, x := inner[0], inner[1], parts[1];
    assert '/' !in ns && '/' !in pkg by {
      assert parts[0] == ns + ":" + pkg;
    }
    assert iface == ns + ":" + pkg + "/" + x;
  }

  /** A text that splits into two pieces is the pieces around one separator. */
  lemma TwoPieces(s: string, c: char)
    requires |Split(s, c)| == 2
    ensures s == Split(s, c)[0] + [c] + Split(s, c)[1]
    ensures c !in Split(s, c)[0] && c !in Split(s, c)[1]
  {
    var pieces := Split(s, c);
    JoinSplit(s, c);
    assert pieces[1..] == [pieces[1]];
  }

  /**
   * One item as `discover_functions` leaves it: an interface item without
   * an item name gets the derived function name when there is one; every
   * other item is unchanged.
   */
  function Discovered(it: InterfaceItem): (d: InterfaceItem)
    ensures d.interfaceName == it.interfaceName
    ensures d != it <==> it.interfaceName != "" && it.itemName == "" && FunctionNameFor(it.interfaceName).Some?
    ensures d != it ==> d.itemName == FunctionNameFor(it.interfaceName).value
  {
    if it.interfaceName != "" && it.itemName == "" then
      match FunctionNameFor(it.interfaceName)
      case Some(f) => it.(itemName := f)
      case None => it
    else it
  }

  /** Discovering twice is discovering once: a derived name is never empty. */
  lemma DiscoveredIdempotent(it: InterfaceItem)
    ensures Discovered(Discovered(it)) == Discovered(it)
  {
    if Discovered(it) != it {
      assert |Discovered(it).itemName| > 0;
    }
  }

  /** `after` is `before` with every item discovered, in place. */
  predicate DiscoveredFrom(before: seq<InterfaceItem>, after: seq<InterfaceItem>) {
    |after| == |before| && forall k :: 0 <= k < |before| ==> after[k] == Discovered(before[k])
  }

  // ---------------------------------------------------------------------
  // Reference keys of the imported functions

  /** An import `init_function_refs` and `auto_link` act on: both names present. */
  predicate Linkable(it: InterfaceItem) {
    it.interfaceName != "" && it.itemName != ""
  }

  function RefKeyOf(c: string, it: InterfaceItem): string {
    CreateRefKey(c, it.interfaceName, it.itemName)
  }

  /** The keys of one component's linkable imports, in the order they are visited. */
  function ItemRefKeys(c: string, items: seq<InterfaceItem>): set<string> {
    if |items| == 0 then {}
    else
      var last := items[|items| - 1];
      ItemRefKeys(c, items[..|items| - 1]) + (if Linkable(last) then {RefKeyOf(c, last)} else {})
  }

  /** The keys of the linkable imports of the components `names`, in that order. */
  function ImportRefKeys(imports: Table, names: seq<string>): set<string> {
    if |names| == 0 then {}
    else
      var c := names[|names| - 1];
      ImportRefKeys(imports, names[..|names| - 1]) + ItemRefKeys(c, ItemsOf(imports, c))
  }

  /** `k` is the key of a linkable import of a component in `among`. */
  ghost predicate IsImportRef(imports: Table, among: set<string>, k: string) {
    exists c, j :: c in among && 0 <= j < |ItemsOf(imports, c)|
      && Linkable(ItemsOf(imports, c)[j]) && k == RefKeyOf(c, ItemsOf(imports, c)[j])
  }

  lemma {:induction false} ItemRefKeysMeaning(c: string, items: seq<InterfaceItem>, k: string)
    ensures k in ItemRefKeys(c, items) <==>
      exists j :: 0 <= j < |items| && Linkable(items[j]) && k == RefKeyOf(c, items[j])
    decreases |items|
  {
    if |items| > 0 {
      var init := items[..|items| - 1];
      ItemRefKeysMeaning(c, init, k);
      if exists j :: 0 <= j < |items| && Linkable(items[j]) && k == RefKeyOf(c, items[j]) {
        var j :| 0 <= j < |items| && Linkable(items[j]) && k == RefKeyOf(c, items[j]);
        if j < |init| {
          assert init[j] == items[j];
        }
      }
      if exists j :: 0 <= j < |init| && Linkable(init[j]) && k == RefKeyOf(c, init[j]) {
        var j :| 0 <= j < |init| && Linkable(init[j]) && k == RefKeyOf(c, init[j]);
        assert items[j] == init[j];
      }
    }
  }

  /** The keys collected over `names` are exactly the import keys of those components, in any order. */
  lemma {:induction false} ImportRefKeysMeaning(imports: Table, names: seq<string>, k: string)
    ensures k in ImportRefKeys(imports, names) <==> IsImportRef(imports, Elems(names), k)
    decreases |names|
  {
    if |names| == 0 {
    } else {
      var init := names[..|names| - 1];
      var c := names[|names| - 1];
      assert names == init + [c];
      ElemsSnoc(init, c);
      ImportRefKeysMeaning(imports, init, k);
      ItemRefKeysMeaning(c, ItemsOf(imports, c), k);
      if IsImportRef(imports, Elems(names), k) {
        var d, j :| d in Elems(names) && 0 <= j < |ItemsOf(imports, d)|
          && Linkable(ItemsOf(imports, d)[j]) && k == RefKeyOf(d, ItemsOf(imports, d)[j]);
        if d != c {
          assert IsImportRef(imports, Elems(init), k);
        }
      }
      if k in ItemRefKeys(c, ItemsOf(imports, c)) {
        var j :| 0 <= j < |ItemsOf(imports, c)| && Linkable(ItemsOf(imports, c)[j])
          && k == RefKeyOf(c, ItemsOf(imports, c)[j]);
        assert c in Elems(names);
      }
    }
  }

  // ---------------------------------------------------------------------
  // The dependency graph of the depth-first search

  /** Some item of `items` names interface `iface`. */
  predicate ExportsInterface(items: seq<InterfaceItem>, iface: string) {
    exists k :: 0 <= k < |items| && items[k].interfaceName == iface
  }

  /** The first of `names` whose exports name `iface`. */
  function FirstExporter(names: seq<string>, entries: map<string, seq<InterfaceItem>>, iface: string): (r: Option<string>)
    requires forall n :: n in names ==> n in entries
    ensures r.Some? ==> r.value in names && ExportsInterface(entries[r.value], iface)
    ensures r.None? <==> forall n :: n in names ==> !ExportsInterface(entries[n], iface)
  {
    if |names| == 0 then None
    else if ExportsInterface(entries[names[0]], iface) then Some(names[0])
    else
      assert forall n :: n in names ==> n == names[0] || n in names[1..];
      FirstExporter(names[1..], entries, iface)
  }

  /** The exporter found is the first in the order: no earlier name exports the interface. */
  lemma {:induction false} FirstExporterIsFirst(names: seq<string>, entries: map<string, seq<InterfaceItem>>, iface: string, i: nat)
    requires forall n :: n in names ==> n in entries
    requires FirstExporter(names, entries, iface).Some?
    requires i < |names| && names[i] == FirstExporter(names, entries, iface).value
    requires Distinct(names)
    ensures forall j :: 0 <= j < i ==> !ExportsInterface(entries[names[j]], iface)
    decreases |names|
  {
    if !ExportsInterface(entries[names[0]], iface) {
      assert i > 0;
      assert forall n :: n in names[1..] ==> n in names;
      DistinctTail(names);
      assert names[1..][i - 1] == names[i];
      FirstExporterIsFirst(names[1..], entries, iface, i - 1);
      forall j | 0 < j < i ensures !ExportsInterface(entries[names[j]], iface) {
        assert names[j] == names[1..][j - 1];
      }
    } else {
      assert i == 0;
    }
  }

  /** The component that provides `iface` to importers. */
  function Provider(exports: Table, iface: string): Option<string>
    requires TableValid(exports)
  {
    assert forall n :: n in exports.order ==> n in Elems(exports.order);
    FirstExporter(exports.order, exports.entries, iface)
  }

  /** The providers of `c`'s non-empty imports that have one. */
  function DepSet(imports: Table, exports: Table, c: string): set<string>
    requires TableValid(exports)
  {
    var imps := ItemsOf(imports, c);
    set k | 0 <= k < |imps| && imps[k].interfaceName != "" && Provider(exports, imps[k].interfaceName).Some?
      :: Provider(exports, imps[k].interfaceName).value
  }

  /** Each exporting component with the providers it depends on; dependencies are themselves nodes. */
  function DepGraph(imports: Table, exports: Table): (g: Graph)
    requires TableValid(exports)
    ensures g.Keys == exports.entries.Keys
    ensures Closed(g)
  {
    map c | c in exports.entries :: DepSet(imports, exports, c)
  }

  /** Every non-empty import of `c` has an exporter. */
  predicate ImportsSatisfied(imports: Table, exports: Table, c: string)
    requires TableValid(exports)
  {
    forall k :: 0 <= k < |ItemsOf(imports, c)| && ItemsOf(imports, c)[k].interfaceName != "" ==>
      Provider(exports, ItemsOf(imports, c)[k].interfaceName).Some?
  }

  /** `c` imports the non-empty interface `iface`, which no component exports. */
  predicate Unsatisfied(imports: Table, exports: Table, c: string, iface: string)
    requires TableValid(exports)
  {
    && iface != ""
    && (exists k :: 0 <= k < |ItemsOf(imports, c)| && ItemsOf(imports, c)[k].interfaceName == iface)
    && Provider(exports, iface).None?
  }

  /** A component that is the first exporter of an interface it imports depends on itself. */
  lemma SelfImportIsCycle(imports: Table, exports: Table, c: string, k: nat)
    requires TableValid(exports) && c in exports.entries
    requires k < |ItemsOf(imports, c)| && ItemsOf(imports, c)[k].interfaceName != ""
    requires Provider(exports, ItemsOf(imports, c)[k].interfaceName) == Some(c)
    ensures IsCycle(DepGraph(imports, exports), [c])
  {
    assert c in DepSet(imports, exports, c);
  }

  /** An interface is exported by some component exactly when it has a provider. */
  lemma ProviderExists(exports: Table, iface: string)
    requires TableValid(exports)
    ensures Provider(exports, iface).Some? <==>
      exists n :: n in exports.entries && ExportsInterface(exports.entries[n], iface)
  {
    assert forall n :: n in exports.entries ==> n in exports.order by {
      forall n | n in exports.entries ensures n in exports.order {
        assert n in Elems(exports.order);
      }
    }
  }

  // ---------------------------------------------------------------------
  // The search's state

  /**
   * `visited` holds the listed components, `visiting` the ones on the
   * recursion stack `path`, a walk along dependency edges; the order lists
   * each component once with its providers first, and every listed
   * component has all its imports satisfied.
   */
  predicate Searching(imports: Table, exports: Table, order: seq<string>, visited: set<string>,
                      visiting: set<string>, path: seq<string>)
    requires TableValid(exports)
  {
    var g := DepGraph(imports, exports);
    && visited == Elems(order) && visiting == Elems(path)
    && Distinct(order) && Distinct(path) && Elems(order) !! Elems(path)
    && Elems(path) <= g.Keys
    && IsPath(g, path)
    && DependenciesFirst(g, order)
    && (forall n :: n in visited ==> ImportsSatisfied(imports, exports, n))
  }

  /** Entering a component reached along an edge from the top of the stack. */
  lemma SearchEnter(imports: Table, exports: Table, order: seq<string>, visited: set<string>,
                    visiting: set<string>, path: seq<string>, c: string)
    requires TableValid(exports)
    requires Searching(imports, exports, order, visited, visiting, path)
    requires c in exports.entries && c !in visited && c !in visiting
    requires |path| > 0 ==> c in DepGraph(imports, exports)[path[|path| - 1]]
    ensures Searching(imports, exports, order, visited, visiting + {c}, path + [c])
  {
    var g := DepGraph(imports, exports);
    var p := path + [c];
    ElemsSnoc(path, c);
    DistinctSnoc(path, c);
    forall i | 0 <= i < |p| - 1 ensures p[i] in g && p[i + 1] in g[p[i]] {
      if i < |path| - 1 {
        assert p[i] == path[i] && p[i + 1] == path[i + 1];
      } else {
        assert p[i] == path[|path| - 1] && p[i + 1] == c;
        assert path[|path| - 1] in Elems(path);
      }
    }
  }

  /** Leaving a component whose providers are all listed: it is listed next and leaves the stack. */
  lemma SearchLeave(imports: Table, exports: Table, order: seq<string>, visited: set<string>,
                    visiting: set<string>, path: seq<string>, c: string)
    requires TableValid(exports)
    requires Searching(imports, exports, order, visited, visiting, path + [c])
    requires DepSet(imports, exports, c) <= visited
    requires ImportsSatisfied(imports, exports, c)
    ensures Searching(imports, exports, order + [c], visited + {c}, visiting - {c}, path)
  {
    var g := DepGraph(imports, exports);
    var p := path + [c];
    ElemsSnoc(path, c);
    ElemsSnoc(order, c);
    assert c in Elems(p);
    assert c !in path by {
      forall i | 0 <= i < |path| ensures path[i] != c {
        assert path[i] == p[i] && p[|path|] == c;
      }
    }
    assert visiting - {c} == Elems(path);
    DistinctSnoc(order, c);
    DependenciesFirstSnoc(g, order, c);
    forall i | 0 <= i < |path| - 1 ensures path[i] in g && path[i + 1] in g[path[i]] {
      assert path[i] == p[i] && path[i + 1] == p[i + 1];
    }
    forall i, j | 0 <= i < j < |path| ensures path[i] != path[j] {
      assert path[i] == p[i] && path[j] == p[j];
    }
  }

  /** A component met again while on the stack closes a cycle. */
  lemma SearchCycle(imports: Table, exports: Table, order: seq<string>, visited: set<string>,
                    visiting: set<string>, path: seq<string>, c: string)
    requires TableValid(exports)
    requires Searching(imports, exports, order, visited, visiting, path)
    requires c in visiting
    requires |path| > 0 ==> c in DepGraph(imports, exports)[path[|path| - 1]]
    ensures HasCycle(DepGraph(imports, exports))
  {
    var g := DepGraph(imports, exports);
    var k :| 0 <= k < |path| && path[k] == c;
    assert path[|path| - 1] in Elems(path);
    SuffixIsCycle(g, path, k);
  }

  /** Every non-empty import's provider listed: the providers are listed and the imports satisfied. */
  lemma ProvidersListed(imports: Table, exports: Table, c: string, visited: set<string>)
    requires TableValid(exports)
    requires forall k :: 0 <= k < |ItemsOf(imports, c)| && ItemsOf(imports, c)[k].interfaceName != "" ==>
      Provider(exports, ItemsOf(imports, c)[k].interfaceName).Some?
      && Provider(exports, ItemsOf(imports, c)[k].interfaceName).value in visited
    ensures DepSet(imports, exports, c) <= visited
    ensures ImportsSatisfied(imports, exports, c)
  {
  }

  /** A listing of every component with providers first rules out a cycle. */
  lemma CompleteOrderAcyclic(imports: Table, exports: Table, order: seq<string>)
    requires TableValid(exports)
    requires Searching(imports, exports, order, Elems(order), {}, [])
    requires exports.entries.Keys <= Elems(order)
    ensures IsTopoOrder(DepGraph(imports, exports), order)
    ensures !HasCycle(DepGraph(imports, exports))
  {
    var g := DepGraph(imports, exports);
    forall c ensures !IsCycle(g, c) {
      TopoOrderExcludesCycle(g, order, c);
    }
  }
}
