// Interface names such as `math/lib@1.0.0`: the version follows the last
// `@`. Library interfaces are the ones whose name ends with `/lib`.
module InterfaceName {
  import opened Wrappers
  import opened Strings

  /** The suffix that marks a library interface (dfx-core's `LIBRARY_SUFFIX`). */
  const LIBRARY_SUFFIX: string := "/lib"

  /**
   * `parse_interface_name`: split at the last `@` into the base name and
   * the version; a name without `@` has no version.
   */
  function ParseInterfaceName(name: string): (r: (string, Option<string>))
    ensures '@' !in name ==> r == (name, None)
    ensures '@' in name ==> r.1.Some?
    ensures r.1.Some? ==> r.0 + "@" + r.1.value == name && '@' !in r.1.value
  {
    match LastIndexOf(name, '@')
    case None => (name, None)
    case Some(i) =>
      assert name == name[..i] + "@" + name[i + 1..];
      (name[..i], Some(name[i + 1..]))
  }

  /** The split is the only one with a version free of `@`: any such split is the one returned. */
  lemma {:induction false} ParseInterfaceNameUnique(base: string, version: string)
    requires '@' !in version
    ensures ParseInterfaceName(base + "@" + version) == (base, Some(version))
  {
    var name := base + "@" + version;
    assert name[|base|] == '@';
    assert name[..|base|] == base && name[|base| + 1..] == version;
  }

  /** The documented examples. */
  lemma ParseInterfaceNameExamples()
    ensures ParseInterfaceName("math/lib@1.0.0") == ("math/lib", Some("1.0.0"))
    ensures ParseInterfaceName("math/lib") == ("math/lib", None)
  {
    assert "math/lib" + "@" + "1.0.0" == "math/lib@1.0.0";
    ParseInterfaceNameUnique("math/lib", "1.0.0");
    assert '@' !in "math/lib";
  }

  /** The base name keeps any earlier `@`: only the last one separates the version. */
  lemma BaseMayHoldAt()
    ensures ParseInterfaceName("a@b@c") == ("a@b", Some("c"))
  {
    assert "a@b" + "@" + "c" == "a@b@c";
    ParseInterfaceNameUnique("a@b", "c");
  }

  /** A library interface by its base name, the version dropped (icp-core's linker). */
  predicate IsLibraryBase(name: string, suffix: string) {
    EndsWith(ParseInterfaceName(name).0, suffix)
  }

  /** A library interface by its full name, the version kept (dfx-core's and the CLIs' linkers). */
  predicate IsLibraryName(name: string) {
    EndsWith(name, LIBRARY_SUFFIX)
  }

  /** A versioned library name passes the base-name test but not the full-name test. */
  lemma VersionedLibrary()
    ensures IsLibraryBase("math/lib@1.0.0", LIBRARY_SUFFIX)
    ensures !IsLibraryName("math/lib@1.0.0")
  {
    ParseInterfaceNameExamples();
    assert "math/lib@1.0.0"[|"math/lib@1.0.0"| - 4..] == ".0.0";
  }
}
