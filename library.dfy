// Library interfaces: an interface name with its functions keyed by name,
// valid when the name ends with `/lib`; and the placeholder detector that
// recognises the `ext-js` extension by its name alone.
module Library {
  import opened Wrappers
  import opened Strings
  import opened InterfaceName

  datatype LibraryFunction = LibraryFunction(name: string)

  class LibraryInterface {
    /** The interface name, such as `math/lib`. */
    var name: string
    /** The functions, keyed by their names. */
    var functions: map<string, LibraryFunction>

    /** `new`: a named interface without functions. */
    constructor (name: string)
      ensures this.name == name && functions == map[]
    {
      this.name := name;
      functions := map[];
    }

    /** `add_function`: insert under the function's name, replacing an entry of the same name. */
    method AddFunction(f: LibraryFunction)
      modifies this`functions
      ensures functions == old(functions)[f.name := f]
      ensures f.name in old(functions) ==> |functions| == |old(functions)|
      ensures f.name !in old(functions) ==> |functions| == |old(functions)| + 1
    {
      functions := functions[f.name := f];
    }

    /** `is_valid`: the name follows the library pattern. */
    function IsValid(): (b: bool)
      reads this`name
      ensures b <==> IsLibraryName(name)
    {
      EndsWith(name, "/lib")
    }
  }

  /** The test's names: `math/lib` is a library interface, `math/util` is not. */
  lemma ValidityExamples()
    ensures IsLibraryName("math/lib")
    ensures !IsLibraryName("math/util")
  {
    assert "math/lib"[|"math/lib"| - 4..] == "/lib";
    assert "math/util"[|"math/util"| - 4..] == "util";
  }

  /**
   * `LibraryInterfaceDetector::detect`: one `local:js/lib` interface with
   * an `add` function when the extension's name contains `ext-js`, none
   * otherwise; the component itself is not inspected.
   */
  method Detect(extensionName: string) returns (r: Result<seq<LibraryInterface>, string>)
    ensures r.Ok?
    ensures |r.value| == if Contains(extensionName, "ext-js") then 1 else 0
    ensures |r.value| == 1 ==>
      r.value[0].name == "local:js/lib" && r.value[0].functions == map["add" := LibraryFunction("add")]
    ensures |r.value| == 1 ==> r.value[0].IsValid()
  {
    var interfaces: seq<LibraryInterface> := [];
    if Contains(extensionName, "ext-js") {
      var iface := new LibraryInterface("local:js/lib");
      iface.AddFunction(LibraryFunction("add"));
      ValidityJs();
      interfaces := interfaces + [iface];
    }
    return Ok(interfaces);
  }

  lemma ValidityJs()
    ensures IsLibraryName("local:js/lib")
  {
    assert "local:js/lib"[|"local:js/lib"| - 4..] == "/lib";
  }

  /** `ext-add` is not recognised; `ext-js` is. */
  lemma DetectExamples()
    ensures !Contains("ext-add", "ext-js")
    ensures Contains("ext-js", "ext-js")
  {
    assert OccursAt("ext-js", 0, "ext-js");
    forall i | 0 <= i <= |"ext-add"| ensures !OccursAt("ext-add", i, "ext-js") {
      if i + 6 <= |"ext-add"| {
        assert "ext-add"[i + 4] != "ext-js"[4];
      }
    }
  }
}
