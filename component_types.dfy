// The part of a component's type that interface detection inspects: named
// import and export items, each an instance (with its own named items), a
// function, or something else (a module, a type, a resource). The detected
// interfaces are the instance items, each with the names of its function
// items, in the order the component type yields them.
module ComponentTypes {

  datatype Item =
    | InstanceItem(members: seq<(string, Item)>)
    | FuncItem
    | OtherItem

  datatype ComponentType = ComponentType(imports: seq<(string, Item)>, exports: seq<(string, Item)>)

  /** A detected interface: its name and the functions it holds. */
  datatype Interface = Interface(name: string, funcs: seq<string>)

  datatype ComponentInterfaces = ComponentInterfaces(imports: seq<Interface>, exports: seq<Interface>)

  /** The names of the function members, in order; other members (nested instances included) are skipped. */
  function FuncNames(members: seq<(string, Item)>): seq<string> {
    if |members| == 0 then []
    else
      var last := members[|members| - 1];
      FuncNames(members[..|members| - 1]) + (if last.1.FuncItem? then [last.0] else [])
  }

  /** The interface an instance item stands for. */
  function AsInterface(name: string, item: Item): Interface
    requires item.InstanceItem?
  {
    Interface(name, FuncNames(item.members))
  }

  /** One interface per instance item, in order; no deduplication. */
  function Interfaces(items: seq<(string, Item)>): seq<Interface> {
    if |items| == 0 then []
    else
      var last := items[|items| - 1];
      Interfaces(items[..|items| - 1]) + (if last.1.InstanceItem? then [AsInterface(last.0, last.1)] else [])
  }

  /** What `detect` returns for a component type. */
  function Detected(typ: ComponentType): ComponentInterfaces {
    ComponentInterfaces(Interfaces(typ.imports), Interfaces(typ.exports))
  }

  /** Some member is itself an instance (reported as not fully supported). */
  predicate HasNestedInstance(members: seq<(string, Item)>) {
    exists k :: 0 <= k < |members| && members[k].1.InstanceItem?
  }

  /** How many interfaces carry the name `n`. */
  function Count(ifaces: seq<Interface>, n: string): nat {
    if |ifaces| == 0 then 0
    else Count(ifaces[..|ifaces| - 1], n) + (if ifaces[|ifaces| - 1].name == n then 1 else 0)
  }

  // ---------------------------------------------------------------------
  // Properties

  /** Function names are gathered member by member: detection of a longer list extends that of its prefix. */
  lemma {:induction false} FuncNamesAppend(a: seq<(string, Item)>, b: seq<(string, Item)>)
    ensures FuncNames(a + b) == FuncNames(a) + FuncNames(b)
    decreases |b|
  {
    if |b| == 0 {
      assert a + b == a;
    } else {
      var n := |b| - 1;
      assert (a + b)[..|a + b| - 1] == a + b[..n];
      FuncNamesAppend(a, b[..n]);
    }
  }

  /** A name is listed exactly when some member of that name is a function. */
  lemma {:induction false} FuncNamesMeaning(members: seq<(string, Item)>, f: string)
    ensures f in FuncNames(members) <==> exists k :: 0 <= k < |members| && members[k] == (f, FuncItem)
    decreases |members|
  {
    if |members| > 0 {
      var n := |members| - 1;
      var init := members[..n];
      FuncNamesMeaning(init, f);
      if f in FuncNames(init) {
        var k :| 0 <= k < n && init[k] == (f, FuncItem);
        assert members[k] == (f, FuncItem);
      }
      if exists k :: 0 <= k < |members| && members[k] == (f, FuncItem) {
        var k :| 0 <= k < |members| && members[k] == (f, FuncItem);
        if k < n { assert init[k] == members[k]; }
      }
    }
  }

  /** Interfaces are gathered item by item: the result for `a + b` is that of `a` followed by that of `b`. */
  lemma {:induction false} InterfacesAppend(a: seq<(string, Item)>, b: seq<(string, Item)>)
    ensures Interfaces(a + b) == Interfaces(a) + Interfaces(b)
    decreases |b|
  {
    if |b| == 0 {
      assert a + b == a;
    } else {
      var n := |b| - 1;
      assert (a + b)[..|a + b| - 1] == a + b[..n];
      InterfacesAppend(a, b[..n]);
    }
  }

  /**
   * Exactly the instance items become interfaces: every instance item's
   * interface is listed, and every listed interface comes from an
   * instance item.
   */
  lemma {:induction false} InterfacesMeaning(items: seq<(string, Item)>)
    ensures forall k :: 0 <= k < |items| && items[k].1.InstanceItem? ==>
      AsInterface(items[k].0, items[k].1) in Interfaces(items)
    ensures forall i :: i in Interfaces(items) ==>
      exists k :: 0 <= k < |items| && items[k].1.InstanceItem? && i == AsInterface(items[k].0, items[k].1)
    decreases |items|
  {
    if |items| > 0 {
      var n := |items| - 1;
      var init := items[..n];
      InterfacesMeaning(init);
      forall k | 0 <= k < |items| && items[k].1.InstanceItem?
        ensures AsInterface(items[k].0, items[k].1) in Interfaces(items)
      {
        if k < n { assert items[k] == init[k]; }
      }
      forall i | i in Interfaces(items)
        ensures exists k :: 0 <= k < |items| && items[k].1.InstanceItem? && i == AsInterface(items[k].0, items[k].1)
      {
        if i in Interfaces(init) {
          var k :| 0 <= k < n && init[k].1.InstanceItem? && i == AsInterface(init[k].0, init[k].1);
          assert items[k] == init[k];
        } else {
          assert items[n].1.InstanceItem? && i == AsInterface(items[n].0, items[n].1);
        }
      }
    }
  }

  /** A component without instance imports or exports yields two empty lists. */
  lemma {:induction false} NoInstancesNoInterfaces(items: seq<(string, Item)>)
    requires forall k :: 0 <= k < |items| ==> !items[k].1.InstanceItem?
    ensures Interfaces(items) == []
    decreases |items|
  {
    if |items| > 0 {
      NoInstancesNoInterfaces(items[..|items| - 1]);
    }
  }

  /** Function members of nested instances are not collected. */
  lemma NestedFunctionsIgnored(members: seq<(string, Item)>, name: string, inner: seq<(string, Item)>)
    ensures FuncNames(members + [(name, InstanceItem(inner))]) == FuncNames(members)
  {
    assert (members + [(name, InstanceItem(inner))])[..|members|] == members;
  }

  /** Two instances with one name stay two interfaces, in order, each with its own functions. */
  lemma DuplicatesKept(name: string, a: seq<(string, Item)>, b: seq<(string, Item)>)
    ensures Interfaces([(name, InstanceItem(a)), (name, InstanceItem(b))])
         == [Interface(name, FuncNames(a)), Interface(name, FuncNames(b))]
  {
    var items := [(name, InstanceItem(a)), (name, InstanceItem(b))];
    var first := items[..1];
    assert first == [(name, InstanceItem(a))];
    assert first[..0] == [];
    assert Interfaces(first[..0]) == [];
    assert Interfaces(first) == [Interface(name, FuncNames(a))];
    assert items[..|items| - 1] == first;
  }

  /** Counting names over a concatenation adds up. */
  lemma {:induction false} CountAppend(a: seq<Interface>, b: seq<Interface>, n: string)
    ensures Count(a + b, n) == Count(a, n) + Count(b, n)
    decreases |b|
  {
    if |b| == 0 {
      assert a + b == a;
    } else {
      var m := |b| - 1;
      assert (a + b)[..|a + b| - 1] == a + b[..m];
      CountAppend(a, b[..m], n);
    }
  }

  /** A name is counted iff some interface carries it. */
  lemma {:induction false} CountPositive(ifaces: seq<Interface>, n: string)
    ensures Count(ifaces, n) > 0 <==> exists k :: 0 <= k < |ifaces| && ifaces[k].name == n
    decreases |ifaces|
  {
    if |ifaces| > 0 {
      var m := |ifaces| - 1;
      CountPositive(ifaces[..m], n);
      if exists k :: 0 <= k < |ifaces| && ifaces[k].name == n {
        var k :| 0 <= k < |ifaces| && ifaces[k].name == n;
        if k < m { assert ifaces[..m][k] == ifaces[k]; }
      }
      if exists k :: 0 <= k < m && ifaces[..m][k].name == n {
        var k :| 0 <= k < m && ifaces[..m][k].name == n;
        assert ifaces[k] == ifaces[..m][k];
      }
    }
  }
}
