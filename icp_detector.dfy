// icp-core's interface detector: every instance-typed import and export of
// a component becomes an interface listing the instance's functions.
// Nested instances and repeated interface names are only reported as
// warnings; here the repeated names are returned so a caller can see which
// warnings the detector prints.
module IcpDetector {
  import opened Wrappers
  import opened ComponentTypes

  /** The function members of an instance, and whether it nests another instance. */
  method InstanceFuncs(members: seq<(string, Item)>) returns (funcs: seq<string>, nested: bool)
    ensures funcs == FuncNames(members)
    ensures nested == HasNestedInstance(members)
  {
    funcs, nested := [], false;
    for k := 0 to |members|
      invariant funcs == FuncNames(members[..k])
      invariant nested == HasNestedInstance(members[..k])
    {
      var (name, item) := members[k];
      assert members[..k + 1][..k] == members[..k];
      match item {
        case FuncItem =>
          funcs := funcs + [name];
        case InstanceItem(_) =>
          nested := true;
          assert members[..k + 1][k].1.InstanceItem?;
        case OtherItem =>
      }
      if HasNestedInstance(members[..k + 1]) {
        var j :| 0 <= j < k + 1 && members[..k + 1][j].1.InstanceItem?;
        if j < k { assert members[..k][j] == members[..k + 1][j]; }
      }
    }
    assert members[..|members|] == members;
  }

  /**
   * One pass over imports or exports: the interfaces, in order, and how
   * often each name occurs (the counters behind the duplicate warnings).
   */
  method CollectInterfaces(items: seq<(string, Item)>) returns (ifaces: seq<Interface>, names: map<string, nat>)
    ensures ifaces == Interfaces(items)
    ensures forall n :: n in names <==> Count(ifaces, n) > 0
    ensures forall n :: n in names ==> names[n] == Count(ifaces, n)
  {
    ifaces, names := [], map[];
    for k := 0 to |items|
      invariant ifaces == Interfaces(items[..k])
      invariant forall n :: n in names <==> Count(ifaces, n) > 0
      invariant forall n :: n in names ==> names[n] == Count(ifaces, n)
    {
      var (name, item) := items[k];
      assert items[..k + 1][..k] == items[..k];
      if !item.InstanceItem? {
        continue;
      }
      var funcs, nested := InstanceFuncs(item.members);
      // `nested` only selects a warning on standard error.
      var next := ifaces + [Interface(name, funcs)];
      forall n ensures Count(next, n) == Count(ifaces, n) + (if n == name then 1 else 0) {
        assert next[..|next| - 1] == ifaces;
      }
      if name in names {
        names := names[name := names[name] + 1];
      } else {
        names := names[name := 1];
      }
      ifaces := next;
    }
    assert items[..|items|] == items;
  }

  /** The names of the interfaces that occur more than once. */
  function Duplicated(names: map<string, nat>): set<string> {
    set n | n in names && names[n] > 1
  }

  /**
   * `IfaceDetector::detect`: always succeeds with the component's instance
   * imports and exports; the sets are the names it warns about as duplicated.
   */
  method Detect(typ: ComponentType) returns (r: Result<ComponentInterfaces, string>, dupImports: set<string>, dupExports: set<string>)
    ensures r == Ok(Detected(typ))
    ensures forall n :: n in dupImports <==> Count(Interfaces(typ.imports), n) > 1
    ensures forall n :: n in dupExports <==> Count(Interfaces(typ.exports), n) > 1
  {
    var imports, importNames := CollectInterfaces(typ.imports);
    var exports, exportNames := CollectInterfaces(typ.exports);
    dupImports := Duplicated(importNames);
    dupExports := Duplicated(exportNames);
    r := Ok(ComponentInterfaces(imports, exports));
  }
}
