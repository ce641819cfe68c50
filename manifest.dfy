// The extension manifest: each installed extension with the interfaces it
// imports (naming the functions it uses) and the interfaces it exports
// (naming the functions it provides), in manifest order.
module Manifests {

  datatype ExportedInterface = ExportedInterface(name: string, funcs: seq<string>)

  datatype ImportedInterface = ImportedInterface(name: string, provider: string, functions: seq<string>)

  /** `wasm` and `pre` are the component and precompiled-artifact paths. */
  datatype Extension = Extension(
    name: string,
    wasm: string,
    pre: string,
    imports: seq<ImportedInterface>,
    exports: seq<ExportedInterface>)

  datatype Manifest = Manifest(xs: seq<Extension>)

  function Names(xs: seq<Extension>): (r: seq<string>)
    ensures |r| == |xs|
  {
    seq(|xs|, i requires 0 <= i < |xs| => xs[i].name)
  }

  /** A manifest in which no two extensions share a name. */
  predicate UniqueNames(xs: seq<Extension>) {
    forall i, j :: 0 <= i < j < |xs| ==> xs[i].name != xs[j].name
  }
}
