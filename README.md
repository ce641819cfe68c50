# icp-cli core, modelled in Dafny

This project models the algorithmic core of icp-cli. icp-cli is a host for
WebAssembly components ("extensions") that import and export WIT interfaces
from one another. The model covers:

- **WIT package ordering** (`scripts/order_wit_packages.py`): locating each
  directory's main `.wit` file, the `package`/`import`/`include` line rules,
  building the package graph with batched errors, and emitting directories
  dependencies-first or failing on a cycle (modules `WitOrder`, `Graphs`,
  `GraphSearch`, `Strings`).
- **Extension dependency graph** (`src/dependency.rs`): the provider,
  dependency and dependent maps, DFS cycle detection, Kahn's loading order
  and the import/export checks (modules `Manifests`, `DependencySpec`,
  `Dependency`).
- **Prototype auto-linker** (`tmp/src/auto_linker.rs`): function
  reference keys, name parsing, function discovery, the DFS instantiation
  order and the satisfied-imports check (modules `AutoLinkerSpec`,
  `AutoLinking`).
- **Interfaces, registries and linkers**: `parse_interface_name`, the two
  interface detectors over an abstract component-type tree, the `/lib`
  library check, the four function registries (classes over a map of
  optional function slots) and the four dynamic linkers that fill them
  (modules `InterfaceName`, `ComponentTypes`, `IcpDetector`, `SrcIface`,
  `Library`, `Slots`, `IcpRegistry`, `DfxCoreRegistry`, `DfxCliRegistry`,
  `SrcRegistry`, `Linking`, `IcpLinker`, `DfxCoreLinker`, `DfxCliLinker`,
  `SrcLinker`).
- **Value conversions**: `Val` to the runtime value and back, and byte
  lists to `U8` lists and back (modules `Ints`, `WasmValues`, `ComponentInvoke`,
  `CliInvoke`).
- **Distribution strings**: URL building, distribution names, binary file
  names with `.sha256` checksums, and `checksums.txt` parsing (modules
  `DistributionErrors`, `DistributionUrl`, `Distributions`,
  `DistributionBinary`, `GenerateScripts`).
- **The project extension's `list` and `build`** over injected
  collaborators, with their exit codes (modules `ProjectList`,
  `ProjectBuild`).
- **The arithmetic extensions** `add`, `multiply`, `power` and `square`,
  and the example `multiply`. Their `u32` arithmetic wraps modulo 2^32
  (modules `U32`, `ExampleMultiply`, `AddExtension`, `MultiplyExtension`,
  `PowerExtension`, `SquareExtension`).

Code that updates state in place is modelled as classes and methods. Each
method is proved against a specification function of the old state. Pure
code is modelled as functions, and lemmas about those functions state what
the source promises.

## Model

| member | source | states |
|---|---|---|
| WitOrder.VersionCut | scripts/order_wit_packages.py:18-20 | the optional `@[\w.-]+` suffix is cut off greedily: the two pieces rebuild the text and the first is a version suffix or empty |
| WitOrder.VersionCutConcat | scripts/order_wit_packages.py:18-20 | a version suffix followed by a character outside `[\w.-]` is cut exactly at that boundary |
| WitOrder.MatchHead | scripts/order_wit_packages.py:18-20 | a match of `^\s*kw\s+id(@v)?` splits the line into well-formed pieces that rebuild it |
| WitOrder.MatchHeadComplete | scripts/order_wit_packages.py:18-20 | every well-formed head followed by a character that stops the id is matched, with the same pieces |
| WitOrder.MatchPackage | scripts/order_wit_packages.py:18 | a `package` match is well formed and rebuilds the line |
| WitOrder.PackageTail | scripts/order_wit_packages.py:18 | the trailing `\s*;` after the head is matched only when it is there |
| WitOrder.MatchPackageComplete | scripts/order_wit_packages.py:18 | every well-formed package line is matched and yields its own id |
| WitOrder.PackageTailComplete | scripts/order_wit_packages.py:18 | the tail of a well-formed package line is recognised |
| WitOrder.MatchUse | scripts/order_wit_packages.py:19-20 | an import or include match is well formed, keeps the keyword and rebuilds the line |
| WitOrder.MatchUseComplete | scripts/order_wit_packages.py:19-20 | every well-formed import or include line (`/` then a later `;`) is matched with its own pieces |
| WitOrder.PackageLineDeclares | scripts/order_wit_packages.py:72-76 | a package line sets the package id to the captured base id |
| WitOrder.OtherKeywordFails | scripts/order_wit_packages.py:73-84 | a line led by one keyword is never matched by a pattern for another keyword |
| WitOrder.UseLineReferences | scripts/order_wit_packages.py:78-86 | an import or include line adds its base id (before `@` and `/`) to the dependencies |
| WitOrder.ClassifyUse | scripts/order_wit_packages.py:73-86 | the patterns are tried in the order package, import, include, and the first match decides |
| WitOrder.Classify | scripts/order_wit_packages.py:72-86 | one directive per line |
| WitOrder.ReferencedIdsAreDependencyLines | scripts/order_wit_packages.py:78-86 | an id is a dependency exactly when some import or include line names it |
| WitOrder.LastPackageWins | scripts/order_wit_packages.py:73-76 | the package id is the one of the last package line, and None when there is none |
| WitOrder.ExtractDirectives | scripts/order_wit_packages.py:69-86 | the line loop yields the last package id and the set of referenced ids |
| WitOrder.WitEntries | scripts/order_wit_packages.py:29 | the glob keeps exactly the entries whose names end in `.wit` |
| WitOrder.FirstExpected | scripts/order_wit_packages.py:25-27 | finds the `<dirname>.wit` file when it is present, and nothing otherwise |
| WitOrder.FindMainWitFile | scripts/order_wit_packages.py:23-40 | the named file wins; otherwise the single `.wit` file, and nothing when there are none or several |
| WitOrder.ScanResults | scripts/order_wit_packages.py:56-103 | one scan result per target path |
| WitOrder.CollectKeepsFirst | scripts/order_wit_packages.py:88-95 | an id is registered iff some directory declares it, to the first such directory and its dependencies |
| WitOrder.CollectErrorFree | scripts/order_wit_packages.py:56-103 | no error iff every directory has a main file with a package line and no id is declared twice |
| WitOrder.BuildDependencyGraph | scripts/order_wit_packages.py:43-104 | the graph and the id-to-directory map have the same keys, agree with the scan, and the errors are collected in order |
| WitOrder.NoMissingMeansClosed | scripts/order_wit_packages.py:110-113 | no missing dependency iff every dependency is a node of the graph |
| WitOrder.ScheduleReady | scripts/order_wit_packages.py:130-131 | a node whose dependencies are all scheduled can come next in a dependency order |
| WitOrder.TopologicalSort | scripts/order_wit_packages.py:129-136 | a returned order lists every node once, dependencies first; no order is returned only on a cycle |
| WitOrder.SortSucceedsIffAcyclic | scripts/order_wit_packages.py:129-136 | a graph that has a dependency order has no cycle |
| WitOrder.OrderPackages | scripts/order_wit_packages.py:105-144 | aborts on scan errors, then on missing dependencies (sorted), then on a cycle; otherwise prints the directories in dependency order |
| WitOrder.ScanDirectory | scripts/order_wit_packages.py:57-99 | one target path yields what the scan specification gives it: skipped if not a directory, else the locator, read or missing-package error, else its package id and dependencies |
| DependencySpec.ListedNamesAreExtensions | src/dependency.rs:148-150 | every importer and exporter in the flat import and export lists is an extension of the manifest |
| DependencySpec.ByNameLastWins | src/dependency.rs:108-145 | the per-name import and export maps have one key per extension name, and an extension whose name is not reused later finds its own list |
| DependencySpec.LastExportWins | src/dependency.rs:126-138 | an interface has a provider iff some extension exports it, and provider and function set both come from its last export in manifest order |
| DependencySpec.ProvidersAreExtensions | src/dependency.rs:129-132 | every recorded provider is an extension of the manifest |
| DependencySpec.EdgeInAppend | src/dependency.rs:148-166 | one more import adds at most the edge from its importer to its interface's provider, and none when there is no provider |
| DependencySpec.DependencyEndsAreExtensions | src/dependency.rs:148-166 | both ends of every dependency edge are extensions of the manifest |
| DependencySpec.FirstAbsent | src/dependency.rs:313-321 | the first requested function missing from a set: none iff all are present, otherwise every earlier one is present |
| DependencySpec.FirstProblemMeaning | src/dependency.rs:306-337 | the check passes iff no import lacks a provider or a requested function, and a failure is the first failing import's problem |
| DependencySpec.ShortExporterMeaning | src/dependency.rs:349-366 | a short exporter is found iff some exporter of the interface lacks a requested function, and it names that exporter and function |
| DependencySpec.FirstGapMeaning | src/dependency.rs:345-375 | no gap iff every import of the new extension is exported by someone and no exporter lacks a requested function |
| DependencySpec.FirstGapStep | src/dependency.rs:345-375 | one more import: a short exporter gives a missing-function gap, no exporter gives a missing-interface gap, otherwise the prefix stays clear |
| DependencySpec.ShadowedImporter | src/dependency.rs:349-362 | as written, a missing function is reported with the exporter in the importer field; the intended error names the new extension |
| DependencySpec.GapErrorIntended | src/dependency.rs:357-373 | the corrected error always names the new extension as importer, and carries the exporter and the function, or the interface |
| DependencySpec.Decimal | src/dependency.rs:242 | `format!("{}", n)` writes a non-empty string of decimal digits |
| DependencySpec.DecimalRoundTrip | src/dependency.rs:242 | the decimal numeral reads back as the number it was written from |
| DependencySpec.ReportOpensWithFirst | src/dependency.rs:240-253 | a non-empty cycle report opens with the entry `Cycle 1: …` of the first cycle |
| DependencySpec.FormatCyclesMeaning | src/dependency.rs:235-254 | the report reads `No cycles detected` iff there are no cycles, and otherwise opens with the first cycle closed back on its start |
| Dependency.FindAbsent | src/dependency.rs:313-321 | the function loop returns exactly the first requested function absent from the set |
| Dependency.CheckImports | src/dependency.rs:308-333 | one extension's imports are checked in order and the result is their first problem |
| Dependency.ScanExports | src/dependency.rs:350-366 | one extension's exports give the first exporter lacking a requested function, and whether the interface was exported |
| Dependency.ScanManifest | src/dependency.rs:349-367 | all extensions' exports scanned in manifest order give the first short exporter and whether any exporter exists |
| Dependency.ReleaseDependents | src/dependency.rs:284-292 | each dependent's counter drops by one, a dependent reaching zero is queued, and Kahn's invariant is kept |
| Dependency.CycleText | src/dependency.rs:242-251 | one report line is the cycle's names joined by arrows and closed back on the first one |
| Dependency.DependencyGraph.BuiltGraph | src/dependency.rs:96-169 | after `build` the graph is the manifest's dependency graph, every dependency is a node, the dependents are its exact reverse and no list holds a duplicate |
| Dependency.DependencyGraph.constructor | src/dependency.rs:75-91 | `new` builds the graph and records its cycles, leaving the graph valid |
| Dependency.DependencyGraph.Build | src/dependency.rs:96-169 | the four passes leave the graph built from the manifest |
| Dependency.DependencyGraph.TrackNames | src/dependency.rs:97-106 | names kept in manifest order, each with empty dependency and dependent lists |
| Dependency.DependencyGraph.TrackImports | src/dependency.rs:108-120 | each extension's imported interface names, stored under its name |
| Dependency.DependencyGraph.TrackExports | src/dependency.rs:122-145 | each extension's exported names, and the provider and function maps of the whole manifest |
| Dependency.DependencyGraph.TrackInterfaces | src/dependency.rs:126-139 | one extension's exports each record it as the provider of the interface, with its function set |
| Dependency.DependencyGraph.BuildEdges | src/dependency.rs:147-166 | the edges are exactly those from each import to its provider, and the dependents are their reverse |
| Dependency.DependencyGraph.LinkExtensions | src/dependency.rs:148-165 | taking the extensions in manifest order, the edges become exactly those of all their imports, and the dependents stay their reverse |
| Dependency.DependencyGraph.LinkImports | src/dependency.rs:149-165 | one extension's imports add their edges and keep the dependents the reverse of the dependencies |
| Dependency.DependencyGraph.AddEdge | src/dependency.rs:150-163 | each direction of an edge is added only when the provider exists and the entry is absent |
| Dependency.DependencyGraph.DetectCycles | src/dependency.rs:174-192 | every recorded cycle is a cycle of the graph, and none are recorded iff the graph is acyclic |
| Dependency.DependencyGraph.FindCycles | src/dependency.rs:174-189 | the search from every unvisited extension returns only cycles of the graph, and returns none iff the graph is acyclic |
| Dependency.DependencyGraph.Dfs | src/dependency.rs:195-222 | the search marks `current` visited, keeps the search invariant and only adds cycles |
| Dependency.DependencyGraph.HasCycles | src/dependency.rs:225-227 | true iff the manifest's dependency graph has a directed cycle, a self-edge included |
| Dependency.DependencyGraph.FormatCyclesText | src/dependency.rs:235-254 | the report built line by line is the cycle report |
| Dependency.DependencyGraph.InitialDegrees | src/dependency.rs:269-277 | every extension's counter is its number of dependencies, and the queue is those without dependencies, in manifest order |
| Dependency.DependencyGraph.ResolveLoadingOrder | src/dependency.rs:259-303 | recorded cycles give `CircularDependency` with the report; with unique names it succeeds iff the graph is acyclic, with every extension once and dependencies first |
| Dependency.DependencyGraph.ValidateDependencies | src/dependency.rs:306-337 | the result is the first problem of the manifest's imports in manifest order, and passes iff no import has one |
| Dependency.DependencyGraph.ValidateExtensionDependencies | src/dependency.rs:340-389 | the first gap of the new extension's imports is reported with it as importer; otherwise it passes iff the manifest with it appended is acyclic |
| Dependency.NamesDistinct | src/dependency.rs:97-99 | unique extension names give a duplicate-free name list |
| Graphs.TopoOrderExcludesCycle | src/dependency.rs:259-303 | a graph that has a dependency order (each name after everything it depends on) has no cycle |
| Graphs.StuckHasCycle | src/dependency.rs:295-300 | a non-empty set of names that each wait on another name in the set contains a cycle, so a topological sort that stops short has met one |
| AutoLinkerSpec.ParseName | tmp/src/auto_linker.rs:98-106 | a name holding both `:` and `/` is returned whole as the interface part, any other name whole as the item part |
| AutoLinkerSpec.ParseNameExamples | tmp/src/auto_linker.rs:99-105 | `local:cmpnt-a/interface-a` is an interface name and `fn-a` a function name |
| AutoLinkerSpec.RefKeyParts | tmp/src/auto_linker.rs:57-59 | the key `c:i:f` is unique: with component and item names free of `:`, equal keys have equal parts |
| AutoLinkerSpec.FunctionNameOfShape | tmp/src/auto_linker.rs:377-384 | an interface `ns:pkg/x` with non-empty `pkg` gets the item name `fn-` followed by the last character of `pkg` |
| AutoLinkerSpec.FunctionNameShape | tmp/src/auto_linker.rs:377-384 | conversely, a name is derived only from an interface of exactly that shape |
| AutoLinkerSpec.TwoPieces | tmp/src/auto_linker.rs:377-380 | a text that splits into two pieces is those pieces around one separator |
| AutoLinkerSpec.Discovered | tmp/src/auto_linker.rs:372-418 | an item changes iff it has an interface, no item name, and a derivable name, and then only its item name becomes the derived one |
| AutoLinkerSpec.DiscoveredIdempotent | tmp/src/auto_linker.rs:374 | discovering twice changes nothing more: a derived name is never empty |
| AutoLinkerSpec.ItemRefKeysMeaning | tmp/src/auto_linker.rs:70-81 | one component's keys are exactly those of its imports naming both an interface and an item |
| AutoLinkerSpec.ImportRefKeysMeaning | tmp/src/auto_linker.rs:69-83 | the keys collected over the components are exactly their import keys, whatever the iteration order |
| AutoLinkerSpec.FirstExporter | tmp/src/auto_linker.rs:510-528 | the exporter found exports the interface, and none is found iff no component exports it |
| AutoLinkerSpec.FirstExporterIsFirst | tmp/src/auto_linker.rs:510-528 | the exporter found is the first in iteration order |
| AutoLinkerSpec.DepGraph | tmp/src/auto_linker.rs:500-538 | the dependency graph has one node per component and every dependency is a node |
| AutoLinkerSpec.SelfImportIsCycle | tmp/src/auto_linker.rs:491-496 | a component that is the first exporter of an interface it imports depends on itself |
| AutoLinkerSpec.ProviderExists | tmp/src/auto_linker.rs:510-536 | an interface has a provider iff some component exports it |
| AutoLinkerSpec.SearchEnter | tmp/src/auto_linker.rs:498 | entering a component reached along an edge keeps the search invariant |
| AutoLinkerSpec.SearchLeave | tmp/src/auto_linker.rs:540-543 | a component whose providers are all listed is listed next and leaves the stack, keeping the invariant |
| AutoLinkerSpec.SearchCycle | tmp/src/auto_linker.rs:491-496 | meeting a component still on the stack means the graph has a cycle |
| AutoLinkerSpec.ProvidersListed | tmp/src/auto_linker.rs:502-537 | every non-empty import's provider listed means the component's dependencies are listed and its imports satisfied |
| AutoLinkerSpec.CompleteOrderAcyclic | tmp/src/auto_linker.rs:548-562 | a finished search that lists every component gives a dependency order, so the graph is acyclic |
| AutoLinking.AutoLinker.constructor | tmp/src/auto_linker.rs:40-54 | the loaded components with no function slot yet |
| AutoLinking.AutoLinker.InitFunctionRefs | tmp/src/auto_linker.rs:62-90 | nothing happens once a slot exists; otherwise exactly one empty slot per import naming both an interface and an item |
| AutoLinking.AutoLinker.AddImportRefs | tmp/src/auto_linker.rs:70-83 | one component's imports: a fresh empty slot under the reference key of each import naming both an interface and an item; every other slot unchanged |
| AutoLinking.AutoLinker.DiscoverFunctions | tmp/src/auto_linker.rs:357-424 | every import and export item is replaced by its discovered form, keeping the tables' keys and orders |
| AutoLinking.AutoLinker.DetermineInstantiationOrder | tmp/src/auto_linker.rs:473-563 | success iff the graph is acyclic and every non-empty import has an exporter, and then a dependency order of all components; each error names a cycle or an unsatisfied import |
| AutoLinking.AutoLinker.CheckDependenciesSatisfied | tmp/src/auto_linker.rs:592-631 | true iff every non-empty import is exported by some component of the given set |
| AutoLinking.RediscoverStep | tmp/src/auto_linker.rs:369-421 | rewriting one more component's items keeps the table valid and rewritten so far |
| AutoLinking.DiscoverItems | tmp/src/auto_linker.rs:372-393 | the item loop rewrites each item into its discovered form |
| AutoLinking.ExporterAmong | tmp/src/auto_linker.rs:606-619 | true iff some component of the set exports the interface |
| AutoLinking.FindExporter | tmp/src/auto_linker.rs:509-528 | the exporter found is the first in iteration order |
| AutoLinking.NamesInterface | tmp/src/auto_linker.rs:511-512 | true iff some item names the interface |
| AutoLinking.FirstExporterAt | tmp/src/auto_linker.rs:510-528 | one step of the exporter search |
| AutoLinking.Visit | tmp/src/auto_linker.rs:479-546 | on success the component is listed and the stack is as before; a cycle error means a cycle, an unsatisfied error names an import no one exports |
| AutoLinking.UnsatisfiedBreaks | tmp/src/auto_linker.rs:530-536 | an unsatisfied import leaves its component unsatisfied |
| AutoLinking.SatisfiedByAll | tmp/src/auto_linker.rs:592-631 | the check over all components agrees with the search's notion of satisfied imports |
| InterfaceName.ParseInterfaceName | crates/icp-core/src/interface/mod.rs:111-119 | a name without `@` has no version; otherwise the split is at the last `@`, base + `@` + version rebuilds the name, and the version holds no `@` |
| InterfaceName.ParseInterfaceNameUnique | crates/icp-core/src/interface/mod.rs:112-115 | any split whose version holds no `@` is the one returned |
| InterfaceName.ParseInterfaceNameExamples | crates/icp-core/src/interface/mod.rs:103-109 | `math/lib@1.0.0` gives (`math/lib`, `1.0.0`) and `math/lib` gives (`math/lib`, no version) |
| InterfaceName.BaseMayHoldAt | crates/icp-core/src/interface/mod.rs:112 | only the last `@` separates: `a@b@c` gives (`a@b`, `c`) |
| InterfaceName.VersionedLibrary | crates/icp-core/src/component/linker.rs:75-79 | a versioned library name passes the linker's base-name test but not the full-name `/lib` test |
| ComponentTypes.FuncNamesAppend | crates/icp-core/src/interface/detector.rs:96-109 | function names are gathered member by member |
| ComponentTypes.FuncNamesMeaning | crates/icp-core/src/interface/detector.rs:96-109 | a name is listed exactly when some member of that name is a function |
| ComponentTypes.InterfacesAppend | crates/icp-core/src/interface/detector.rs:82-131 | interfaces are gathered item by item, in the order the component type yields them |
| ComponentTypes.InterfacesMeaning | crates/icp-core/src/interface/detector.rs:85-88 | exactly the instance items become interfaces; every other item is skipped |
| ComponentTypes.NoInstancesNoInterfaces | crates/icp-core/src/interface/detector.rs:222-244 | a component without instance imports or exports yields empty lists |
| ComponentTypes.NestedFunctionsIgnored | crates/icp-core/src/interface/detector.rs:103-106 | the functions of a nested instance are not collected |
| ComponentTypes.DuplicatesKept | crates/icp-core/src/interface/detector.rs:120-130 | two instances of one name stay two interfaces, in order, each with its own functions |
| ComponentTypes.CountPositive | crates/icp-core/src/interface/detector.rs:120-125 | a name is counted iff some interface carries it |
| IcpDetector.InstanceFuncs | crates/icp-core/src/interface/detector.rs:92-109 | the function members in order, and whether a nested instance occurs |
| IcpDetector.CollectInterfaces | crates/icp-core/src/interface/detector.rs:79-131 | the interfaces in order, and each name's number of occurrences |
| IcpDetector.Detect | crates/icp-core/src/interface/detector.rs:68-207 | always Ok with the instance imports and exports; the warned-about names are exactly those occurring more than once |
| SrcIface.Functions | src/iface.rs:46-57 | the function members of one instance, in order |
| SrcIface.Instances | src/iface.rs:38-63 | the interfaces of the instance items, in order |
| SrcIface.Detect | src/iface.rs:32-99 | always Ok with the instance imports and exports |
| SrcIface.HostGuestExample | src/iface.rs:108-160 | the detector's test component gives one `misc` import with `print` and one `cli` export with `run` |
| Library.LibraryInterface.constructor | src/library.rs:24-29 | a named interface without functions |
| Library.LibraryInterface.AddFunction | src/library.rs:32-34 | the function is stored under its name, replacing one of the same name, and the count grows only for a new name |
| Library.LibraryInterface.IsValid | src/library.rs:37-39 | true iff the name ends with `/lib` |
| Library.ValidityExamples | src/library.rs:109-115 | `math/lib` is valid and `math/util` is not |
| Library.Detect | src/library.rs:64-100 | Ok with one valid `local:js/lib` interface holding `add` when the name contains `ext-js`, and none otherwise |
| Library.ValidityJs | src/library.rs:86-90 | the interface name detected for `ext-js`, `local:js/lib`, is a valid library name |
| Library.DetectExamples | src/library.rs:133-146 | `ext-js` is recognised and `ext-add` is not |
| Slots.KeyParts | crates/icp-core/src/component/function_registry.rs:139-141 | `interface:function` keys are unique when function names hold no `:` |
| Slots.ResolvedCount | crates/icp-core/src/component/function_registry.rs:154-159 | the number of filled slots is never more than the number of slots |
| Slots.ResolvedKeys | crates/icp-core/src/component/function_registry.rs:154-159 | exactly the registered keys whose slot holds a function |
| Slots.ResolvedCountGrows | crates/icp-core/src/component/function_registry.rs:78-87 | filling slots never lowers the resolved count |
| Slots.ResolvedCountFill | crates/icp-core/src/component/function_registry.rs:78-87 | filling one empty slot raises the resolved count by exactly one |
| Slots.ResolvedCountAll | crates/icp-core/src/component/function_registry.rs:144-159 | the resolved count reaches `len` iff every slot is filled |
| IcpRegistry.FunctionRegistry.constructor | crates/icp-core/src/component/function_registry.rs:29-33 | no references |
| IcpRegistry.FunctionRegistry.Register | crates/icp-core/src/component/function_registry.rs:54-65 | a new key gets the slot; a present key is refused with `AlreadyExists` and nothing changes |
| IcpRegistry.FunctionRegistry.Resolve | crates/icp-core/src/component/function_registry.rs:78-87 | a registered key's slot is filled; an unknown key is `NotFound` and nothing changes |
| IcpRegistry.FunctionRegistry.Lookup | crates/icp-core/src/component/function_registry.rs:101-127 | `NotFound` iff `interface:function` was never registered; otherwise the slot, filled iff resolved |
| IcpRegistry.FunctionRegistry.IsEmpty | crates/icp-core/src/component/function_registry.rs:149-151 | true iff `len` is zero, that is iff nothing is registered |
| IcpRegistry.FunctionRegistry.ResolvedCountOf | crates/icp-core/src/component/function_registry.rs:154-159 | at most `len`, and equal to it iff every slot is filled |
| IcpRegistry.FunctionRegistry.IsResolved | crates/icp-core/src/component/function_registry.rs:167-172 | an unknown key is never resolved |
| DfxCoreRegistry.FunctionRegistry.constructor | crates/dfx-core/src/component/function_registry.rs:29-33 | no references |
| DfxCoreRegistry.FunctionRegistry.Register | crates/dfx-core/src/component/function_registry.rs:46-57 | a new key gets the slot; a present key is refused with `AlreadyExists` and nothing changes |
| DfxCoreRegistry.FunctionRegistry.Resolve | crates/dfx-core/src/component/function_registry.rs:70-79 | a registered key's slot is filled; an unknown key is `NotFound` and nothing changes |
| DfxCoreRegistry.FunctionRegistry.IsEmpty | crates/dfx-core/src/component/function_registry.rs:101-103 | true iff nothing is registered |
| DfxCoreRegistry.FunctionRegistry.ResolvedCountOf | crates/dfx-core/src/component/function_registry.rs:106-111 | at most `len`, and equal to it iff every slot is filled |
| DfxCoreRegistry.FunctionRegistry.IsResolved | crates/dfx-core/src/component/function_registry.rs:119-124 | an unknown key is never resolved |
| DfxCliRegistry.FunctionRegistry.constructor | crates/dfx-cli/src/function_registry.rs:13-17 | no references |
| DfxCliRegistry.FunctionRegistry.Register | crates/dfx-cli/src/function_registry.rs:20-25 | the slot is put under the key, replacing an earlier one |
| DfxCliRegistry.FunctionRegistry.Resolve | crates/dfx-cli/src/function_registry.rs:28-36 | true iff the key is registered, and then its slot is filled; otherwise nothing changes |
| DfxCliRegistry.FunctionRegistry.ResolvedCountOf | crates/dfx-cli/src/function_registry.rs:49-54 | at most `len`, and equal to it iff every slot is filled |
| SrcRegistry.FunctionRegistry.constructor | src/function_registry.rs:13-17 | no references |
| SrcRegistry.FunctionRegistry.Register | src/function_registry.rs:20-25 | the slot is put under the key, replacing an earlier one |
| SrcRegistry.FunctionRegistry.Resolve | src/function_registry.rs:28-36 | true iff the key is registered, and then its slot is filled; otherwise nothing changes |
| SrcRegistry.FunctionRegistry.ResolvedCountOf | src/function_registry.rs:49-54 | at most `len`, and equal to it iff every slot is filled |
| SrcRegistry.ScopedKeyExample | src/function_registry.rs:39-41 | the three-part key of the registry's test is `ext-a:math/lib:add` |
| Linking.InterfaceEntries | crates/icp-core/src/component/linker.rs:74-85 | one unscoped entry per interface, with its name and functions |
| Linking.ImportEntries | crates/dfx-core/src/component/linker.rs:72-84 | one entry per import, under the given scope, with its name and requested functions |
| Linking.ProviderEntries | src/dynamic_linker.rs:120-124 | one entry per import, scoped by the extension that provides it |
| Linking.ExportEntries | crates/dfx-core/src/component/linker.rs:154-167 | one entry per export, under the given scope, with its name and functions |
| Linking.LinkFuncsSpec | crates/icp-core/src/component/linker.rs:81-95 | one interface linked without error adds its keys; Keep leaves existing slots, Replace empties them, Refuse succeeds only when none of its keys had a slot |
| Linking.LinkFuncsDefined | crates/icp-core/src/component/linker.rs:95-124 | with Keep or Replace one interface links without error whenever the host accepts every definition, and with Replace only then |
| Linking.LinkFuncsFails | crates/dfx-core/src/component/linker.rs:88-117 | a failed link of one interface ends with a definition the host refused (of one of its functions, whose slot is already registered) or, under Refuse, `AlreadyExists` |
| Linking.LinkFuncsKeys | crates/dfx-core/src/component/linker.rs:78-117 | linking one interface never drops a slot and adds only keys of its functions |
| Linking.LinkFuncsLinked | crates/icp-core/src/component/linker.rs:87-89 | under Keep an interface whose keys all have slots links without error, changes nothing and defines nothing |
| Linking.LinkAllSpec | crates/icp-core/src/component/linker.rs:68-129 | linking without error adds exactly the wanted keys; Keep leaves existing slots as they were, Replace empties the wanted slots, Refuse succeeds only when no wanted key had a slot |
| Linking.LinkAllDefined | crates/dfx-cli/src/dynamic_linker.rs:49-101 | with Keep or Replace linking succeeds whenever the host accepts every definition of every library interface, and with Replace only then |
| Linking.LinkAllFails | crates/dfx-core/src/component/linker.rs:67-122 | a failed link ends with a refused definition or, under Refuse, `AlreadyExists`; no slot is dropped and only wanted keys are added |
| Linking.LinkAllLinked | crates/icp-core/src/component/linker.rs:74-95 | under Keep, interfaces whose wanted keys all have slots link without error and change nothing |
| Linking.WantedMeaning | crates/dfx-core/src/component/linker.rs:72-88 | a key is wanted iff it is the key of a function of a library interface |
| Linking.LinkAllStops | crates/dfx-core/src/component/linker.rs:88-117 | once registration or a definition is refused, later interfaces are not looked at |
| Linking.ResolveFuncsSpec | crates/icp-core/src/component/linker.rs:170-192 | one export's functions resolve without error iff the instance provides them all (and, when strict, all are registered), and then their registered slots are filled |
| Linking.ResolveAllSpec | crates/icp-core/src/component/linker.rs:161-193 | resolution keeps the keys, never empties a slot and fills only offered keys; it succeeds iff the instance provides every listed function (and, when strict, every key is registered), and then every registered offered key holds a function |
| Linking.ResolveAllStops | crates/icp-core/src/component/linker.rs:161-168 | after the first error no later export is looked at |
| Linking.WantedOffered | crates/icp-core/src/component/linker.rs:74-95 | every key that linking wants from a list of interfaces is offered when the same list is resolved |
| Linking.LinkThenResolve | crates/icp-core/src/component/linker.rs:68-199 | after an importer is linked and an exporter resolved, both without error, every key both wanted and offered has its slot filled |
| IcpLinker.DynamicLinker.constructor | crates/icp-core/src/component/linker.rs:49-54 | nothing resolved yet |
| IcpLinker.DynamicLinker.Link | crates/icp-core/src/component/linker.rs:68-129 | adds an empty slot for each function of each library interface (matched by base name) that has none, keeps existing slots, and defines each new function; a refused definition ends the walk with that error, the only error, and when the host accepts every definition it succeeds |
| IcpLinker.DynamicLinker.LinkInterface | crates/icp-core/src/component/linker.rs:81-125 | one interface: a key with a slot is skipped, otherwise an empty slot is registered and the function defined, stopping at the first refused definition |
| IcpLinker.DynamicLinker.Resolve | crates/icp-core/src/component/linker.rs:144-199 | an already resolved extension changes nothing; otherwise the strict resolution of its exports, and it is marked resolved only on success |
| IcpLinker.DynamicLinker.ResolveInterface | crates/icp-core/src/component/linker.rs:170-192 | one export's functions are resolved in order, stopping at the first error |
| IcpLinker.DynamicLinker.ResolvedExportCount | crates/icp-core/src/component/linker.rs:202-209 | at most `export_count`, and equal to it while every record is `true` |
| IcpLinker.DynamicLinker.IsExtensionResolved | crates/icp-core/src/component/linker.rs:212-217 | false for an extension without a record; a resolved extension is counted by `resolved_export_count`; while every record is `true`, resolved iff recorded |
| IcpLinker.LinkIdempotent | crates/icp-core/src/component/linker.rs:87-89 | linking the same interfaces again after a successful link changes nothing and defines nothing, so cannot fail: a second importer shares the slots |
| DfxCoreLinker.DynamicLinker.constructor | crates/dfx-core/src/component/linker.rs:49-54 | nothing resolved yet |
| DfxCoreLinker.DynamicLinker.LinkImports | crates/dfx-core/src/component/linker.rs:67-122 | registers an empty slot for each function of each `/lib` import and defines it; a key that already has a slot is refused with `AlreadyExists` and a refused definition is passed on, either ending the walk; no other error |
| DfxCoreLinker.DynamicLinker.LinkInterface | crates/dfx-core/src/component/linker.rs:78-117 | one import's functions are registered and defined in order, stopping at the first refusal |
| DfxCoreLinker.DynamicLinker.ResolveExports | crates/dfx-core/src/component/linker.rs:137-192 | an already resolved extension changes nothing; otherwise the strict resolution of its exports, and it is marked resolved only on success |
| DfxCoreLinker.DynamicLinker.ResolveInterface | crates/dfx-core/src/component/linker.rs:163-185 | one export's functions are resolved in order, stopping at the first error |
| DfxCoreLinker.DynamicLinker.ResolvedExportCount | crates/dfx-core/src/component/linker.rs:195-202 | at most `export_count`, and equal to it while every record is `true` |
| DfxCoreLinker.DynamicLinker.IsExtensionResolved | crates/dfx-core/src/component/linker.rs:205-210 | false for an extension without a record; a resolved extension is counted by `resolved_export_count`; while every record is `true`, resolved iff recorded |
| DfxCoreLinker.SecondImporterRefused | crates/dfx-core/src/component/linker.rs:78-88 | a second extension importing a library function already linked fails to link |
| DfxCliLinker.DynamicLinker.constructor | crates/dfx-cli/src/dynamic_linker.rs:35-40 | nothing resolved yet |
| DfxCliLinker.DynamicLinker.LinkImports | crates/dfx-cli/src/dynamic_linker.rs:43-101 | puts an empty slot under the key of each function of each `/lib` import, replacing an earlier slot, and defines it; it succeeds exactly when the host accepts every definition, and otherwise fails with a refused definition |
| DfxCliLinker.DynamicLinker.LinkInterface | crates/dfx-cli/src/dynamic_linker.rs:54-96 | one import's functions each get an empty slot and a definition, stopping at the first refused definition |
| DfxCliLinker.DynamicLinker.ResolveExports | crates/dfx-cli/src/dynamic_linker.rs:104-162 | an already resolved extension changes nothing; otherwise the lenient resolution (unregistered keys skipped), marked resolved only on success |
| DfxCliLinker.DynamicLinker.ResolveInterfaces | crates/dfx-cli/src/dynamic_linker.rs:121-156 | the exported interfaces are resolved in order, the registry ending as the lenient resolution specifies and the first missing export or function reported |
| DfxCliLinker.DynamicLinker.ResolveInterface | crates/dfx-cli/src/dynamic_linker.rs:130-155 | one export's functions are resolved in order, stopping at the first missing export or function |
| SrcLinker.DynamicLinker.constructor | src/dynamic_linker.rs:35-40 | nothing resolved yet |
| SrcLinker.DynamicLinker.LinkImports | src/dynamic_linker.rs:43-90 | puts an empty slot under `importer:interface:function` for each function of each `/lib` import and defines it; it succeeds exactly when the host accepts every definition, and otherwise fails with a refused definition |
| SrcLinker.DynamicLinker.LinkInterface | src/dynamic_linker.rs:55-85 | one import's functions each get an empty slot under the importer's key and a definition, stopping at the first refused definition |
| SrcLinker.DynamicLinker.LinkImportsByProvider | src/dynamic_linker.rs:55-69 | the corrected linking: each slot is keyed by the import's provider, as resolution expects; it succeeds exactly when the host accepts every definition |
| SrcLinker.DynamicLinker.ResolveExports | src/dynamic_linker.rs:93-150 | an already resolved extension changes nothing; otherwise the lenient resolution under `extension:interface:function`, marked resolved only on success |
| SrcLinker.DynamicLinker.ResolveInterface | src/dynamic_linker.rs:119-143 | one export's functions are resolved in order under the exporter's key, stopping at the first missing export or function |
| SrcLinker.ScopesApart | src/dynamic_linker.rs:56-60 | two colon-free extension names that both prefix one key are equal |
| SrcLinker.ImportSlotsStayEmpty | src/dynamic_linker.rs:56-60 | as written, after importer `x` is linked without error and a different exporter `y` resolved, every slot `x` asked for is still empty |
| SrcLinker.ImportSlotsStayEmptyExample | src/dynamic_linker.rs:120-124 | `ext-a` importing `add` from `ext-b`, the host accepting the definition: linking and `ext-b`'s resolution succeed and `ext-a:math/lib:add` stays empty |
| SrcLinker.ProviderSlotsFilled | src/dynamic_linker.rs:120-124 | with slots keyed by provider, once linking and the provider's resolution succeed every function imported from it that it lists is filled |
| ComponentInvoke.ToWasm | crates/icp-component-invoke/src/lib.rs:66-111 | each case maps to the runtime case of the same name, and the result never holds a resource |
| ComponentInvoke.ToWasmAll | crates/icp-component-invoke/src/lib.rs:66-111 | a list or tuple keeps its length and converts each element in place |
| ComponentInvoke.FieldsToWasm | crates/icp-component-invoke/src/lib.rs:66-111 | a record keeps its field names in order and converts each value |
| ComponentInvoke.PayloadToWasm | crates/icp-component-invoke/src/lib.rs:66-111 | an absent payload stays absent |
| ComponentInvoke.RoundTrip | crates/icp-component-invoke/src/lib.rs:66-161 | converting a value to the runtime form and back gives the value itself |
| ComponentInvoke.RoundTripAll | crates/icp-component-invoke/src/lib.rs:66-161 | the round trip holds for lists of values |
| ComponentInvoke.RoundTripFields | crates/icp-component-invoke/src/lib.rs:66-161 | the round trip holds for record fields |
| ComponentInvoke.BackAndForth | crates/icp-component-invoke/src/lib.rs:115-161 | converting a runtime value succeeds iff it holds no resource (a resource panics), and converting back gives the runtime value itself |
| ComponentInvoke.BackAndForthCollection | crates/icp-component-invoke/src/lib.rs:115-161 | the same for lists, tuples and records |
| ComponentInvoke.BackAndForthWrapper | crates/icp-component-invoke/src/lib.rs:115-161 | the same for options, variants and results |
| ComponentInvoke.BackAndForthAll | crates/icp-component-invoke/src/lib.rs:115-161 | the same for sequences of runtime values |
| ComponentInvoke.BackAndForthFields | crates/icp-component-invoke/src/lib.rs:115-161 | the same for record fields |
| CliInvoke.BytesToU8List | crates/icp-cli/src/component_invoke.rs:65-68 | one `U8` per byte, in order |
| CliInvoke.TryListToBytes | crates/icp-cli/src/component_invoke.rs:74-92 | a non-list fails; a list of `U8` gives its bytes in order; otherwise the first non-`U8` element is reported |
| CliInvoke.CollectBytes | crates/icp-cli/src/component_invoke.rs:77-84 | succeeds iff every element is a `U8`, stopping at the first that is not |
| CliInvoke.BytesRoundTrip | crates/icp-cli/src/component_invoke.rs:65-92 | bytes passed as a `U8` list read back as the same bytes |
| CliInvoke.ListRoundTrip | crates/icp-cli/src/component_invoke.rs:65-92 | a list that reads back as bytes is the `U8` list of those bytes |
| ComponentInvoke.FieldToWasm | crates/icp-component-invoke/src/lib.rs:66-111 | a record field keeps its name and its converted value holds no resource |
| ComponentInvoke.RoundTripField | crates/icp-component-invoke/src/lib.rs:66-161 | the round trip holds for one record field |
| ComponentInvoke.RoundTripPayload | crates/icp-component-invoke/src/lib.rs:66-161 | the round trip holds for an optional payload |
| ComponentInvoke.BackAndForthField | crates/icp-component-invoke/src/lib.rs:115-161 | a runtime record field converts iff it holds no resource, and converting back gives the field itself |
| ComponentInvoke.BackAndForthPayload | crates/icp-component-invoke/src/lib.rs:115-161 | the same for an optional payload |
| ComponentInvoke.FromWasm | crates/icp-component-invoke/src/lib.rs:115-161 | converting a runtime value succeeds iff no resource occurs anywhere in it; a resource is `None`, where the source panics as unimplemented |
| ComponentInvoke.FromWasmAll | crates/icp-component-invoke/src/lib.rs:132 | a list or tuple converts iff none of its elements holds a resource, and keeps its length |
| ComponentInvoke.FieldsFromWasm | crates/icp-component-invoke/src/lib.rs:140-142 | a record converts iff none of its fields holds a resource, and keeps its length and its field names in order |
| ComponentInvoke.FieldFromWasm | crates/icp-component-invoke/src/lib.rs:141 | one field converts iff its value holds no resource, and keeps its name |
| ComponentInvoke.PayloadFromWasm | crates/icp-component-invoke/src/lib.rs:133-139 | an absent payload converts to an absent payload, and a converted present payload stays present |
| DistributionUrl.New | crates/icp-distribution/src/url.rs:12-22 | the stored domain is the given one with every trailing `/` cut off; the base path is `binaries/icp` |
| DistributionUrl.WithBasePath | crates/icp-distribution/src/url.rs:25-28 | the new base path is the given path with its leading and trailing `/` removed: the piece of it with only slashes around it and no `/` at either end; domain and repository URL unchanged |
| Strings.Trim | crates/icp-distribution/src/url.rs:26 | `trim_matches`: the piece of the string with only the character around it and not starting or ending with it |
| Strings.TrimCharacterized | crates/icp-distribution/src/url.rs:26 | any piece of the string that meets that description is the trimmed string, so the description fixes the result |
| DistributionUrl.BaseUrl | crates/icp-distribution/src/url.rs:31-37 | always has a scheme and ends with the domain; it is the domain itself iff the domain already has a scheme |
| DistributionUrl.BinaryUrl | crates/icp-distribution/src/url.rs:40-47 | an error (`Domain cannot be empty`) iff the domain is empty; otherwise base URL, `/`, base path |
| DistributionUrl.ChecksumUrl | crates/icp-distribution/src/url.rs:50-52 | the binary URL, error included |
| DistributionUrl.PagesUrl | crates/icp-distribution/src/url.rs:55-62 | an error iff the domain is empty; otherwise the base URL |
| DistributionUrl.RepoUrl | crates/icp-distribution/src/url.rs:65-67 | never fails and returns the stored repository URL |
| DistributionUrl.BinaryFileUrl | crates/icp-distribution/src/url.rs:70-72 | the binary URL's error, or the binary URL, `/`, the file name |
| DistributionUrl.ChecksumsFileUrl | crates/icp-distribution/src/url.rs:75-77 | the binary URL's error, or the binary URL followed by `/checksums.txt` |
| DistributionUrl.ChecksumsFileIsBinaryFile | crates/icp-distribution/src/url.rs:70-77 | the checksums URL is the file URL of `checksums.txt` |
| DistributionUrl.TrailingSlashIgnored | crates/icp-distribution/src/url.rs:15 | an extra trailing `/` on the domain changes nothing |
| DistributionUrl.SlashesOnlyRefused | crates/icp-distribution/src/url.rs:122-128 | an empty domain, or one of slashes only, makes every download URL an error |
| DistributionUrl.SchemeKept | crates/icp-distribution/src/url.rs:31-47 | a domain with `http://` or `https://` is kept, any other gains `https://` |
| DistributionUrl.BasePathTrimmed | crates/icp-distribution/src/url.rs:26 | slashes around the base path make no difference |
| DistributionUrl.BasePathKept | crates/icp-distribution/src/url.rs:26 | a path with no `/` at either end is stored as given |
| DistributionUrl.BareDomainExample | crates/icp-distribution/src/url.rs:85-91 | `example.com` gives `https://example.com/binaries/icp` |
| DistributionUrl.SchemeDomainExample | crates/icp-distribution/src/url.rs:94-100 | `https://example.com` gives the same URL |
| DistributionUrl.TrailingSlashExample | crates/icp-distribution/src/url.rs:103-109 | `example.com/` gives the same URL |
| DistributionUrl.CustomPathExample | crates/icp-distribution/src/url.rs:112-119 | base path `custom/path` gives `https://example.com/custom/path` |
| DistributionUrl.FileUrlExamples | crates/icp-distribution/src/url.rs:131-146 | the file and checksums-file URLs of the tests |
| Distributions.Spellings | crates/icp-distribution/src/distribution.rs:21-25 | every distribution has at least one accepted spelling |
| Distributions.Name | crates/icp-distribution/src/distribution.rs:21-25 | every canonical name is one of the accepted spellings |
| Distributions.FromStr | crates/icp-distribution/src/distribution.rs:20-28 | `d` exactly when the lower-cased input is a spelling of `d`; otherwise `InvalidDistribution` carrying the input as given |
| Distributions.TryFrom | crates/icp-distribution/src/distribution.rs:34-36 | the same outcome as `from_str` on every input |
| Distributions.SpellingsDisjoint | crates/icp-distribution/src/distribution.rs:21-25 | no spelling belongs to two distributions |
| Distributions.NameRoundTrip | crates/icp-distribution/src/distribution.rs:45-66 | every canonical name parses back to its distribution |
| Distributions.CaseInsensitive | crates/icp-distribution/src/distribution.rs:21 | the input and its lower case parse to the same outcome |
| Distributions.MixedCaseExamples | crates/icp-distribution/src/distribution.rs:68-76 | `HOMEBREW` and `Standard` parse |
| Distributions.InvalidExample | crates/icp-distribution/src/distribution.rs:78-82 | `invalid` is refused with `InvalidDistribution` |
| DistributionBinary.NewProcessor | crates/icp-distribution/src/binary.rs:35-41 | a processor is made iff the binaries directory exists and holds that directory; otherwise `BinaryNotFound` names the directory |
| DistributionBinary.FirstWord | crates/icp-distribution/src/binary.rs:61-67 | the first word `split_whitespace` yields is the first whitespace-delimited token of the text |
| DistributionBinary.ReadChecksumFile | crates/icp-distribution/src/binary.rs:44-70 | `MissingFile` iff there is no `.sha256` file; `InvalidFormat` iff that file is blank; otherwise its first token |
| DistributionBinary.ValidateBinary | crates/icp-distribution/src/binary.rs:73-107 | the checks run in order (exists, well-formed name, readable checksum, digest equal), each with its own error; Ok iff all pass |
| DistributionBinary.Variant | crates/icp-distribution/src/binary.rs:138-149 | the last part, less `.exe` when the name ends with it |
| DistributionBinary.ParseBinaries | crates/icp-distribution/src/binary.rs:115-196 | the walk over the listing records exactly the listed entries, in order |
| DistributionBinary.ListedIffValid | crates/icp-distribution/src/binary.rs:124-186 | an entry is recorded iff it is not a directory, not a `.sha256` file, and validates |
| DistributionBinary.ParsedSound | crates/icp-distribution/src/binary.rs:115-196 | every record comes from a validated listing entry, and its checksum is the digest of the file's content |
| DistributionBinary.ParsedComplete | crates/icp-distribution/src/binary.rs:115-196 | every validated entry of the listing is recorded |
| DistributionBinary.IcpFirstPart | crates/icp-distribution/src/binary.rs:84-95 | a name starting `icp-` has at least two parts, the first being `icp` |
| DistributionBinary.NameReassembled | crates/icp-distribution/src/binary.rs:138-169 | a well-formed name is `icp-`, the target, `-` and the last part |
| DistributionBinary.ExeVariant | crates/icp-distribution/src/binary.rs:143-149 | for a Windows binary the variant is the last part without `.exe` |
| DistributionBinary.SingleTokenFile | crates/icp-distribution/src/binary.rs:61-69 | a checksum file holding one token reads as that token |
| DistributionBinary.ValidationOutcomes | crates/icp-distribution/src/binary.rs:230-273 | a matching digest passes, another token gives `ChecksumMismatch`, a name without `icp-` gives `InvalidFormat` |
| DistributionBinary.InvalidNameExample | crates/icp-distribution/src/binary.rs:276-296 | the test's `invalid-name` is refused as malformed |
| GenerateScripts.ChecksumEntries | crates/icp-distribution/src/bin/generate_scripts.rs:49-59 | a file is a key iff some line has two or more tokens with it second, and its value is the first token of the last such line |
| GenerateScripts.EntriesStep | crates/icp-distribution/src/bin/generate_scripts.rs:51-58 | one more line keeps that meaning |
| GenerateScripts.ParseBinaryInfo | crates/icp-distribution/src/bin/generate_scripts.rs:44-82 | fails iff `checksums.txt` cannot be read; otherwise one record per entry that is not `checksums.txt` and has four or more parts |
| GenerateScripts.RecordsSound | crates/icp-distribution/src/bin/generate_scripts.rs:62-79 | every record is for such an entry, with the target, the last part as variant and the mapped checksum |
| GenerateScripts.RecordsComplete | crates/icp-distribution/src/bin/generate_scripts.rs:62-79 | every such entry gets its record, without any `icp-` prefix check |
| GenerateScripts.MissingChecksumIsEmpty | crates/icp-distribution/src/bin/generate_scripts.rs:76 | a file the checksums do not mention gets an empty checksum |
| GenerateScripts.OneLine | crates/icp-distribution/src/bin/generate_scripts.rs:52-54 | the line `<sum> <file>` maps the file to the sum |
| ProjectList.ListExitCode | crates/extensions/project/src/ops/list.rs:33-41 | a manifest error exits with 1, an unexpected one with 2 and "no canisters" with 3, each code iff its error |
| ProjectList.ListMessage | crates/extensions/project/src/ops/list.rs:19-31 | a manifest or unexpected error is reported behind its own prefix and keeps its message; "no canisters" keeps its display text |
| ProjectList.CanisterTomlPath | crates/extensions/project/src/ops/list.rs:78 | the member's `canister.toml` path ends with the file name and starts with the member directory |
| ProjectList.ReadManifest | crates/extensions/project/src/ops/list.rs:60-72 | any failure while reading, decoding or parsing a manifest is a manifest-processing error |
| ProjectList.ReadAndParseCanisterToml | crates/extensions/project/src/ops/list.rs:107-119 | a canister manifest that cannot be read, decoded or parsed is a manifest-processing error |
| ProjectList.ReadManifestStages | crates/extensions/project/src/ops/list.rs:60-72 | a manifest is obtained exactly when the file reads, decodes and parses, and is then the parsed value; a read failure is reported with the path and the reader's message |
| ProjectList.ListMembers | crates/extensions/project/src/ops/list.rs:77-95 | a success has one record per member, in order, each the member's own manifest name and type with the member path; a failure is a manifest error |
| ProjectList.List | crates/extensions/project/src/ops/list.rs:58-102 | the method's loop returns exactly the listing outcome of the manifests |
| ProjectList.ListMembersStops | crates/extensions/project/src/ops/list.rs:90-93 | once a member fails, the remaining members do not change the error returned |
| ProjectList.FirstFailureReported | crates/extensions/project/src/ops/list.rs:90-93 | the error returned is that of the first member whose manifest fails, every member before it having been read |
| ProjectList.ListOutcomeCases | crates/extensions/project/src/ops/list.rs:97-101 | `NoCanistersFound` iff `icp.toml` reads but lists no member; a success lists every member's path, in order, and is never empty |
| ProjectBuild.BuildExitCode | crates/extensions/project/src/ops/build.rs:27-35 | a listing failure keeps the lister's exit code, a failed build is 4 and only it, an unexpected error is 2 |
| ProjectBuild.Paths | crates/extensions/project/src/ops/build.rs:79-85 | the paths handed to the builder are the canisters' paths, in order |
| ProjectBuild.Build | crates/extensions/project/src/ops/build.rs:59-106 | "no canisters" is success with nothing built; another listing error is `ListFailed` with nothing built; otherwise every canister is built in order, even after a failure, and the result is `BuildFailed` iff some build failed |
| ProjectBuild.NoCanistersNeverReported | crates/extensions/project/src/ops/build.rs:63-72 | a build failing in its listing never exits with the "no canisters" code 3 |
| U32.Wrap | crates/extensions/add/src/lib.rs:68 | a value reduced to a `u32` is its residue modulo 2^32, as wrapping arithmetic leaves it |
| U32.ParseU32 | crates/extensions/add/src/lib.rs:45-46 | `parse::<u32>` succeeds iff the text, less an optional leading '+', is a non-empty run of decimal digits below 2^32, and then yields their value |
| U32.Decimal | crates/examples/multiply/src/lib.rs:66 | a number is printed as non-empty decimal digits of its value, without a leading zero |
| U32.ParsePrinted | crates/extensions/add/src/lib.rs:45-46 | parsing a printed `u32` gives it back |
| U32.ParsePlus | crates/extensions/add/src/lib.rs:45-46 | a leading '+' is accepted and ignored |
| U32.Arg | crates/examples/multiply/src/lib.rs:39-44 | an argument parses iff present and a valid `u32`; a missing one and an unparsable one each panic with their own message |
| U32.Args2 | crates/extensions/add/src/lib.rs:41-53 | `a` is parsed before `b`: the first argument's panic wins, and both values come back iff both parse |
| ExampleMultiply.Multiply | crates/examples/multiply/src/lib.rs:65-74 | adding `b` to 0 `a` times gives `a * b` modulo 2^32, and 0 when `a` is 0 |
| ExampleMultiply.Run | crates/examples/multiply/src/lib.rs:39-55 | exits with 0 iff both arguments parse; otherwise panics with the message of the first bad argument |
| AddExtension.Add | crates/extensions/add/src/lib.rs:67-71 | the sum modulo 2^32, which is the exact sum whenever that fits in a `u32` |
| AddExtension.AddLaws | crates/extensions/add/src/lib.rs:67-71 | adding 0 changes nothing, and the operands commute |
| AddExtension.Run | crates/extensions/add/src/lib.rs:41-57 | exits with 0 iff both arguments parse; otherwise panics with `unwrap`'s message |
| MultiplyExtension.Multiply | crates/extensions/multiply/src/lib.rs:68-76 | `a` calls of `add` from 0 give `a * b` modulo 2^32, and 0 when `a` is 0 |
| MultiplyExtension.Run | crates/extensions/multiply/src/lib.rs:42-58 | exits with 0 iff both arguments parse; otherwise panics with `unwrap`'s message |
| PowerExtension.Power | crates/extensions/power/src/lib.rs:68-76 | `b` calls of `multiply` from 1 give `a^b` modulo 2^32, and 1 when `b` is 0 |
| PowerExtension.Run | crates/extensions/power/src/lib.rs:42-58 | exits with 0 iff both arguments parse; otherwise panics with `unwrap`'s message |
| SquareExtension.Square | crates/extensions/square/src/lib.rs:71-80 | `a^b` modulo 2^32 for `b >= 1` after `b - 1` calls of `multiply`, but `a` itself for `b = 0`; the square when `b` is 2 |
| SquareExtension.Run | crates/extensions/square/src/lib.rs:42-61 | exits with 0 iff `a` parses, `b` being fixed at 2; otherwise panics with the message for `a` |

## Left out

- The `Arc<Mutex<Option<Func>>>` slots are shared with host closures. They are modelled as entries of a map from key to optional function, so two holders of one slot are not modelled as aliases. Mutex poisoning is not modelled.
- `Linker::instance(..)?.func_new*(..)?` is modelled only by its outcome. A `Definer` parameter says whether the host accepts the definition of a function in an interface. A refusal becomes `DefinitionFailed(interface, function)`, which keeps those names but not wasmtime's error text.
- The other wasmtime calls are not modelled: the host closures that call through a slot, `get_export`, `get_func`, `Func::call*`, `post_return`, component loading and component-type iteration. `Func` is an opaque id, an instance is a map from interface to function name to an optional `Func`, and component types are an abstract item tree.
- The icp-core linker (crates/icp-core/src/component/linker.rs:11) and the src linker (src/dynamic_linker.rs:9) import `LIBRARY_SUFFIX` from modules whose definition is not part of this model. Both are taken to use dfx-core's `"/lib"` (crates/dfx-core/src/interface/mod.rs:8).
- The auto-linker's `load_component*`, `load_components_from_directory`, `instantiate*`, `resolve_references`, `instantiate_in_dependency_order`, `get_function`, `call_function`, `get_function_ref` and `print_*` do wasmtime, filesystem or logging work and are not modelled.
- The iteration order of Rust `HashMap`/`HashSet` is unspecified. Where it matters (roots and exporter choice in the auto-linker, map walks in the dependency graph), the model takes it as a parameter listing the keys.
- The model is sequential. `async` and `await` are dropped, and warnings printed with `eprintln!`/`println!` or the host `print` are not modelled.
- `format_text_representation` (src/dependency.rs:394-458) and `get_cycles` are only output and accessors. The registries' `registry()` getters are plain field reads, and so are `export_count` (crates/icp-core/src/component/linker.rs:207-209, crates/dfx-core/src/component/linker.rs:200-202) and the registries' `len` and `contains` (crates/icp-core/src/component/function_registry.rs:144-146 and 162-164, crates/dfx-core/src/component/function_registry.rs:96-98 and 114-116, crates/dfx-cli/src/function_registry.rs:44-46, src/function_registry.rs:44-46): `ExportCount`, `Len` and `Contains` carry no contract of their own and are used in other members' contracts.
- Lower-casing and whitespace are ASCII only. The source uses Unicode `to_lowercase` and `split_whitespace`, which agree with ASCII on ASCII input.
- Converting a runtime resource value panics in the source. The model returns `None` for it. Floating-point values are carried as opaque bit patterns, with no float arithmetic.
- AddExtension.Add: wraps modulo 2^32. A debug build would panic on overflow; the release build wraps, and the model follows the release build.
- MultiplyExtension.Multiply: wraps modulo 2^32 rather than panicking on overflow, as in the release build.
- PowerExtension.Power: wraps modulo 2^32 rather than panicking on overflow, as in the release build.
- SquareExtension.Square: wraps modulo 2^32 rather than panicking on overflow, as in the release build.
- ExampleMultiply.Multiply: wraps modulo 2^32 rather than panicking on overflow, as in the release build.
- The `run` functions model clap's argument matching as an optional string per argument. The command-spec JSON and clap's own errors are not modelled. A panic is modelled by its message; the fixed `unwrap` messages are constants.
- A panic from `expect` or `unwrap` on a failed number parse (crates/examples/multiply/src/lib.rs:44, crates/extensions/add/src/lib.rs:46) is modelled by its fixed message alone. Rust appends the error's Debug text (`: ParseIntError { kind: … }`), which the model drops.
- The host `print` and `time` calls in the extensions are output only and are not modelled.
- `Lister::new` and `Builder::new` only store their collaborators. The model passes those collaborators as parameters. The `BuildError` to `String` map is not modelled.
- File reads, UTF-8 decoding and TOML parsing in `list` are collaborators passed as parameters. `Path::join` is modelled for Unix paths.
- In `read_checksum_file`, file contents are text, and IO and UTF-8 failures other than a missing file are not modelled. The SHA-256 digest (FIPS 180-4) is a function parameter over the file's bytes. Error message texts are approximated by their variants and fields.
- `BinaryProcessor::new` (crates/icp-distribution/src/binary.rs:35-41) asks the filesystem whether the directory exists. `NewProcessor` takes the answer as the parameter `dirExists`.
- The `run` half of `generate_scripts.rs` is not modelled: templating, JSON and file writes. The directory listing it walks is an input.
- The WIT script's `TARGET_DIRS` listing is an input, and file reads are given as text. Its stderr messages are modelled only as error kinds.
- The WIT script's patterns use Python's `\w` and `\s` (scripts/order_wit_packages.py:18-20). In Python 3 these match Unicode word and space characters. `\s` also matches the ASCII separators `\x1c` to `\x1f`. The model's `\w` is ASCII letters, digits and `_`. Its `\s` is tab, line feed, vertical tab, form feed, carriage return and space.
- `graphlib.TopologicalSorter` is specified by its contract: every package exactly once, each after its dependencies, or a cycle when there is one. Its tie-break order is not modelled.
- In Kahn's algorithm (src/dependency.rs:269-292), `in_degree` is a `usize`. The model counts with `int`. The manifest loader (src/manifest.rs:80-92) does not refuse duplicate extension names, so a duplicate can reach this code. Only icp-cli's `add` refuses one (crates/icp-cli/src/extension.rs:99). A name listed twice can make `*in_deg -= 1` go below zero. A release build then wraps to a huge value, and the model goes negative. Both only decrease from there, and there are far fewer than 2^64 decrements, so neither reaches `0` again, and the `== 0` test that enqueues a dependent gives the same answer. A debug build panics on the overflow instead; that panic is not modelled.
- Dependency.DependencyGraph.ResolveLoadingOrder: proves that the result is a dependency order, and that it exists iff the graph has no cycle, only when extension names are distinct (`UniqueNames`). With duplicate names, only the error cases and the length of the result are stated.
- The stubs that always return nothing (the dfx-core detector, the dfx-cli detector, the `create` op) are not part of this model.

## Findings

| source | as written | input that shows it | evidently intended | confidence | as-written member | corrected member |
|---|---|---|---|---|---|---|
| src/dependency.rs:349-362 | the inner loop variable `x` (an exporting extension) shadows the parameter `x` (the extension being checked), so a `MissingFunction` error names the exporter as both importer and exporter | `ext-c` imports `mul` of `math/lib` from `ext-b`, which exports `math/lib` with only `add`: the error is `MissingFunction { importer: "ext-b", …, exporter: "ext-b" }` | `importer` is the extension being checked (`ext-c`) | not executed | DependencySpec.ShadowedImporter | DependencySpec.GapErrorIntended, used by Dependency.DependencyGraph.ValidateExtensionDependencies |
| src/dynamic_linker.rs:56-60 | `link_imports` keys each import slot by the importing extension (`x:iface:fn`), while `resolve_exports` (120-124) fills slots under the exporting extension's name, so an import from another extension is never filled | `ext-a` imports `add` of `math/lib` from `ext-b`; `ext-b` exports it and resolves without error, yet `ext-a:math/lib:add` stays empty | key each import slot by the import's provider (`ext-b:math/lib:add`) | not executed | SrcLinker.ImportSlotsStayEmpty, SrcLinker.ImportSlotsStayEmptyExample | SrcLinker.DynamicLinker.LinkImportsByProvider, SrcLinker.ProviderSlotsFilled |
