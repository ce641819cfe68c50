// The workspace-level interface detector: the same selection as icp-core's
// (instance imports and exports, each with its function members), without
// warnings or counters.
module SrcIface {
  import opened Wrappers
  import opened ComponentTypes

  /** The functions of one instance (the inner loop). */
  method Functions(members: seq<(string, Item)>) returns (fs: seq<string>)
    ensures fs == FuncNames(members)
  {
    fs := [];
    for k := 0 to |members|
      invariant fs == FuncNames(members[..k])
    {
      assert members[..k + 1][..k] == members[..k];
      if members[k].1.FuncItem? {
        fs := fs + [members[k].0];
      }
    }
    assert members[..|members|] == members;
  }

  /** The interfaces of one list of items (the outer loop). */
  method Instances(items: seq<(string, Item)>) returns (ifaces: seq<Interface>)
    ensures ifaces == Interfaces(items)
  {
    ifaces := [];
    for k := 0 to |items|
      invariant ifaces == Interfaces(items[..k])
    {
      assert items[..k + 1][..k] == items[..k];
      var (iface, itm) := items[k];
      if itm.InstanceItem? {
        var fs := Functions(itm.members);
        ifaces := ifaces + [Interface(iface, fs)];
      }
    }
    assert items[..|items|] == items;
  }

  /** `IfaceDetector::detect`: always succeeds. */
  method Detect(typ: ComponentType) returns (r: Result<ComponentInterfaces, string>)
    ensures r == Ok(Detected(typ))
  {
    var imps := Instances(typ.imports);
    var exps := Instances(typ.exports);
    r := Ok(ComponentInterfaces(imps, exps));
  }

  /** The detector's own test: one `misc` import with `print`, one `cli` export with `run`. */
  lemma HostGuestExample()
    ensures Detected(ComponentType(
              [("local:host/misc", InstanceItem([("print", FuncItem)]))],
              [("local:guest/cli", InstanceItem([("run", FuncItem)]))]))
         == ComponentInterfaces(
              [Interface("local:host/misc", ["print"])],
              [Interface("local:guest/cli", ["run"])])
  {
    var imps := [("local:host/misc", InstanceItem([("print", FuncItem)]))];
    var exps := [("local:guest/cli", InstanceItem([("run", FuncItem)]))];
    assert imps[..0] == [] && exps[..0] == [];
    assert [("print", FuncItem)][..0] == [];
    assert [("run", FuncItem)][..0] == [];
    assert FuncNames([("print", FuncItem)]) == ["print"];
    assert FuncNames([("run", FuncItem)]) == ["run"];
  }
}
