# Native-image planning, resource providers and package references

This project models four pieces of the runtime and project tooling.

**Crossgen manager** (`CrossGenManager.cs`). It builds a universe of
assemblies from a runtime directory and some input directories:

- the runtime images come first, then the input images;
- only valid images are kept;
- names are deduplicated ignoring case, keeping the first record of each name.

It sorts assemblies with a memoised depth-first post-order `Sort` over the
dependency names that resolve in the universe. An assembly's closure is the
sort from that assembly alone, with the assembly removed. In the global sort
order the manager then launches the native-image generator once per assembly.
An assembly is skipped when a member of its closure has not been generated.
An assembly is marked `Generated` when the generator exits with code 0. The
loop's `success && ...` stops attempting assemblies after the first failure.

**`.resx` resource provider.** It recognises `.resx`, `.restext` and
`.resources` files, ignoring case. It yields one descriptor per such file, in
project order.

**Embedded resource provider.** It names each resource by its path relative
to the project directory:

- a `/` is appended to the directory if it does not end with one;
- the relative path loses its leading `/`;
- every platform separator becomes `/`.

**`PackageReference` value equality.** This covers both `Equals` overloads,
`==`/`!=`, `GetHashCode` and `ToString`.

Modules:

- `Seqs` and `Strings`: sequence and string helpers, including LINQ `Except`
  semantics, ASCII `OrdinalIgnoreCase` comparison, `Join`/`Split` and `Replace`.
- `Universe`: `BuildUniverse` over values.
- `Assemblies`: the `AssemblyInformation` class. Its `Closure` and `Generated`
  fields are updated in place.
- `DependencyGraph`: the dependency relation, paths, acyclicity and the
  functional specification of `Sort`.
- `CrossGen`: the `CrossgenManager` class, and the generation run as a
  function with its lemmas.
- `ResxResources`, `EmbeddedResources` and `PackageReferences`.

The generator process is represented by two things:

- the manager's `invocations` log, which records the file name and argument
  string of every launch;
- an oracle `exitCode` from an invocation to its exit code.

Each of the following is a parameter of the model:

- directory listings;
- the image-validity probe;
- the dependency names an assembly reads from its metadata;
- `Uri.MakeRelativeUri` and `Uri.UnescapeDataString`;
- the manifest-name helpers;
- the version's equality, hash and text;
- string hashing.

**The driver stops at the first failure.** The code's `&&` at
`CrossGenManager.cs:37` short-circuits. After the first assembly whose
generation fails or is skipped, no further assembly is attempted and the
result is false. A design description of this system instead says that the
driver continues through the rest of the order so that independent branches
still get an attempt. The model follows the code. `RunAfterFailure` and
`AcyclicRunOutcome` state this behaviour.

## Model

| member | source | states |
|---|---|---|
| Universe.DistinctByName | src/Microsoft.Net.Project/CrossGenManager.cs:137-139 | every kept record comes from the candidates and is not among the names already taken; no two kept records share a name ignoring case |
| Universe.DistinctByNameCovers | src/Microsoft.Net.Project/CrossGenManager.cs:137-139 | every candidate name not already taken keeps an entry of that name |
| Universe.DistinctByNameKeepsFirst | src/Microsoft.Net.Project/CrossGenManager.cs:137-139 | every kept entry is the first candidate of its name |
| Universe.UniverseNamesDistinct | src/Microsoft.Net.Project/CrossGenManager.cs:137-142 | no two universe entries share a name, so `ToDictionary` never meets a duplicate key |
| Universe.UniverseCoversValidImages | src/Microsoft.Net.Project/CrossGenManager.cs:129-139 | every valid image of the runtime or an input directory has a universe entry of its name |
| Universe.UniverseEntriesAreValidImages | src/Microsoft.Net.Project/CrossGenManager.cs:129-139 | every universe entry describes a valid image of the runtime directory, flagged as a runtime assembly, or of an input directory, flagged as not |
| Universe.RuntimeAssembliesWin | src/Microsoft.Net.Project/CrossGenManager.cs:129-139 | when a valid runtime image has a name, the entry of that name is a runtime assembly whose path is a runtime-directory file |
| Assemblies.AssemblyInformation.constructor | src/Microsoft.Net.Project/CrossGenManager.cs:131-135 | a new descriptor carries the image's name, paths, dependency names and runtime flag, with an empty closure and not yet generated |
| DependencyGraph.Find | src/Microsoft.Net.Project/CrossGenManager.cs:167-168 | a found assembly is in the universe and has the looked-up name; a miss means no universe entry has that name |
| DependencyGraph.Visit | src/Microsoft.Net.Project/CrossGenManager.cs:158-178 | visiting a node only grows the seen set, and the node is seen afterwards |
| DependencyGraph.VisitCorrect | src/Microsoft.Net.Project/CrossGenManager.cs:158-178 | a visit keeps the sort invariant (no duplicate in the output, the seen set reachable from the roots, dependencies of output nodes seen), extends the output, leaves the in-progress nodes as they were, keeps dependency order on an acyclic graph, and appends a newly seen node last |
| DependencyGraph.VisitDepsCorrect | src/Microsoft.Net.Project/CrossGenManager.cs:165-172 | the loop over dependency names keeps the same invariant and leaves every resolved dependency of the parent seen |
| DependencyGraph.SortAllCorrect | src/Microsoft.Net.Project/CrossGenManager.cs:150-153 | the loop over the input nodes keeps the invariant and leaves no visit in progress |
| DependencyGraph.SortSpecCorrect | src/Microsoft.Net.Project/CrossGenManager.cs:145-178 | the sort output has no duplicates and holds exactly the input nodes and every node reachable from them through names found in the universe; on an acyclic graph every dependency precedes its dependent |
| DependencyGraph.ClosedContainsReachable | src/Microsoft.Net.Project/CrossGenManager.cs:158-178 | a list closed under dependency that holds every root holds every node reachable from the roots |
| DependencyGraph.GlobalOrderCoversUniverse | src/Microsoft.Net.Project/CrossGenManager.cs:145-156 | the sort of the whole universe lists every universe node exactly once |
| DependencyGraph.GlobalOrderTopologicalIffAcyclic | src/Microsoft.Net.Project/CrossGenManager.cs:158-177 | the global order lists every dependency before its dependent exactly when no assembly reaches itself through dependencies |
| DependencyGraph.ReachesMovesEarlier | src/Microsoft.Net.Project/CrossGenManager.cs:165-177 | in a dependency-ordered list covering the universe, whatever a node reaches sits at an earlier position |
| DependencyGraph.SingleSortEndsWithRoot | src/Microsoft.Net.Project/CrossGenManager.cs:174-177 | the sort from a single assembly ends with that assembly |
| DependencyGraph.ClosureIsSortWithoutRoot | src/Microsoft.Net.Project/CrossGenManager.cs:25-29 | the closure is the sort from the assembly with the assembly removed from its end, in the same order |
| DependencyGraph.ClosureCorrect | src/Microsoft.Net.Project/CrossGenManager.cs:23-30 | the closure never contains the assembly, has no duplicates, holds exactly the other nodes the assembly reaches, and is in dependency order on an acyclic graph |
| DependencyGraph.ClosureMembers | src/Microsoft.Net.Project/CrossGenManager.cs:25-29 | a node is in an assembly's closure exactly when it is not the assembly and the assembly reaches it through dependency names |
| DependencyGraph.ClosureOrdered | src/Microsoft.Net.Project/CrossGenManager.cs:25-29 | on an acyclic graph the closure lists every dependency before its dependent |
| DependencyGraph.ClosurePrecedesInGlobalOrder | src/Microsoft.Net.Project/CrossGenManager.cs:23-35 | on an acyclic graph every closure member comes before the assembly in the global order |
| Seqs.Except | src/Microsoft.Net.Project/CrossGenManager.cs:28 | LINQ `Except`: the result holds the distinct elements of the first sequence that are not in the second |
| CrossGen.NativeImagePaths | src/Microsoft.Net.Project/CrossGenManager.cs:69 | the closure's native-image paths, one per member, in closure order |
| CrossGen.GlobalOrder | src/Microsoft.Net.Project/CrossGenManager.cs:35 | the global order has no duplicates and holds exactly the universe's assemblies |
| CrossGen.ClosureInUniverse | src/Microsoft.Net.Project/CrossGenManager.cs:28 | every closure member belongs to the universe |
| CrossGen.CrossgenManager.constructor | src/Microsoft.Net.Project/CrossGenManager.cs:14-18 | the manager holds one fresh, distinct descriptor per `BuildUniverse` record, in order, and nothing has been launched yet |
| CrossGen.CrossgenManager.SortFrom | src/Microsoft.Net.Project/CrossGenManager.cs:158-178 | the recursive sort of one node produces exactly the output list and seen set of the specification's visit |
| CrossGen.CrossgenManager.Sort | src/Microsoft.Net.Project/CrossGenManager.cs:145-156 | the sort of an input sequence returns the specification's sort output |
| CrossGen.CrossgenManager.GenerateNativeImage | src/Microsoft.Net.Project/CrossGenManager.cs:43-115 | with an ungenerated closure member, returns false without launching and leaves `Generated` alone; otherwise launches once with the crossgen path and the assembly's arguments, succeeds exactly on exit code 0, and only then sets `Generated` |
| CrossGen.CrossgenManager.AssignClosures | src/Microsoft.Net.Project/CrossGenManager.cs:23-30 | every assembly's `Closure` becomes its closure, and no `Generated` flag changes |
| CrossGen.CrossgenManager.GenerateStep | src/Microsoft.Net.Project/CrossGenManager.cs:37 | one driver turn on the objects matches one step of the run function on the generated set and the launch log |
| CrossGen.CrossgenManager.GenerateInOrder | src/Microsoft.Net.Project/CrossGenManager.cs:32-40 | the driver loop over an order yields the success flag, generated set and launch log of the run function |
| CrossGen.CrossgenManager.GenerateNativeImages | src/Microsoft.Net.Project/CrossGenManager.cs:20-41 | the closures are assigned, then the run over the global order decides the result, the generated set and every launch |
| CrossGen.TrustedPlatformAssembliesLists | src/Microsoft.Net.Project/CrossGenManager.cs:58-76 | when no path holds `;`, the trusted list splits into the assembly's own IL path for `mscorlib` (any case), and into the closure's native images followed by the assembly's IL path otherwise |
| CrossGen.CrossgenArgumentsJoinsWords | src/Microsoft.Net.Project/CrossGenManager.cs:53 | the command line is `/in`, the input path, `/out`, the output path, `/MissingDependenciesOK`, `/Trusted_Platform_Assemblies` and the trusted list, separated by single spaces |
| CrossGen.CrossgenArgumentsSplit | src/Microsoft.Net.Project/CrossGenManager.cs:53-75 | when no path holds a space, the command line splits back into those seven words |
| CrossGen.RunAfterFailure | src/Microsoft.Net.Project/CrossGenManager.cs:37 | once `success` is false the remaining turns launch nothing and change nothing |
| CrossGen.RunGeneratedGrows | src/Microsoft.Net.Project/CrossGenManager.cs:108-114 | a run never removes an assembly from the generated set and never turns failure into success |
| CrossGen.RunOutcome | src/Microsoft.Net.Project/CrossGenManager.cs:32-40 | a run succeeds exactly when every turn finds its closure generated and exits with 0, and then has generated and launched every assembly in order; otherwise there is a first failing turn, after which nothing was attempted |
| CrossGen.GlobalOrderAlwaysReady | src/Microsoft.Net.Project/CrossGenManager.cs:35-45 | on an acyclic graph every closure member is generated before its assembly's turn in the global order |
| CrossGen.ReadyRunOutcome | src/Microsoft.Net.Project/CrossGenManager.cs:32-40 | when no closure is ever missing, a run succeeds exactly when every exit code is 0; otherwise it launches up to and including the first non-zero exit and generates exactly the assemblies before it |
| CrossGen.AcyclicRunOutcome | src/Microsoft.Net.Project/CrossGenManager.cs:20-41 | on an acyclic graph the run over the global order never skips an assembly: its result, generated set and launches are decided by the exit codes alone |
| ResxResources.ExtensionBeforeSpec | src/Microsoft.Framework.Runtime/ExportProviders/Resources/ResxResourceProvider.cs:36 | the backward scan of `Path.GetExtension` returns the suffix from the dot that starts the extension, and empty when there is none |
| ResxResources.GetExtensionSpec | src/Microsoft.Framework.Runtime/ExportProviders/Resources/ResxResourceProvider.cs:36 | the extension is the suffix from its dot: a dot that is not last and has no dot or separator after it; empty otherwise |
| ResxResources.ExtensionIgnoringCase | src/Microsoft.Framework.Runtime/ExportProviders/Resources/ResxResourceProvider.cs:36-41 | comparing the extension with a dot-and-letters extension, ignoring case, is the same as the file name ending with it ignoring case |
| ResxResources.IsResxResourceFileIffSuffix | src/Microsoft.Framework.Runtime/ExportProviders/Resources/ResxResourceProvider.cs:34-42 | a file is a resource file exactly when its name ends with `.resx`, `.restext` or `.resources` in any case; one without an extension never is |
| ResxResources.Describe | src/Microsoft.Framework.Runtime/ExportProviders/Resources/ResxResourceProvider.cs:23-30 | one descriptor per file, in order, named by its manifest name and reading that file |
| ResxResources.GetResourcesOnePerResourceFile | src/Microsoft.Framework.Runtime/ExportProviders/Resources/ResxResourceProvider.cs:20-31 | the descriptors' files are exactly the resource files in project order, each as often as it is listed, and every other file never; each is named by its manifest name |
| EmbeddedResources.NormalizeRootProperties | src/Microsoft.Framework.Runtime.Roslyn/EmbeddedResourceProvider.cs:17-21 | the normalised root extends the directory by at most one character; it is the directory itself exactly when that is empty or ends with `/`, and otherwise ends with `/`; normalising is idempotent |
| EmbeddedResources.StripLeadingSlash | src/Microsoft.Framework.Runtime.Roslyn/EmbeddedResourceProvider.cs:43-46 | a path starting with `/` loses exactly that character; any other path is unchanged |
| EmbeddedResources.GetResources | src/Microsoft.Framework.Runtime.Roslyn/EmbeddedResourceProvider.cs:27-31 | one public description per resource file, in order, reading that file and named by its normalised relative path |
| EmbeddedResources.GetResourcesNames | src/Microsoft.Framework.Runtime.Roslyn/EmbeddedResourceProvider.cs:27-31 | each name is the relative path with every separator turned into `/` and every other character kept, so no separator other than `/` remains |
| PackageReferences.EqualsBasics | src/Microsoft.Net.Runtime/Loader/PackageReference.cs:17-30 | null is never equal in either overload; the same object always is; an object of another type or of a different runtime type never is |
| PackageReferences.EqualsIffFields | src/Microsoft.Net.Runtime/Loader/PackageReference.cs:21-29 | with a reflexive version equality, two references of the same runtime type are equal exactly when their names are ordinally equal and their versions are equal |
| PackageReferences.EqualsSymmetric | src/Microsoft.Net.Runtime/Loader/PackageReference.cs:17-43 | with a symmetric version equality, both overloads and `==` are symmetric |
| PackageReferences.EqualsTransitive | src/Microsoft.Net.Runtime/Loader/PackageReference.cs:24-30 | with a reflexive and transitive version equality, `Equals(object)` is transitive |
| PackageReferences.OperatorsAgree | src/Microsoft.Net.Runtime/Loader/PackageReference.cs:40-48 | null `==` only null; a non-null left operand decides by its `Equals(object)`; `!=` is the negation of `==` |
| PackageReferences.HashCodeConsistent | src/Microsoft.Net.Runtime/Loader/PackageReference.cs:32-38 | equal references have equal 32-bit hash codes when the version hash respects version equality |
| PackageReferences.ToStringSplits | src/Microsoft.Net.Runtime/Loader/PackageReference.cs:12-15 | the text is the name and the version's text around one space, so it splits back into them when neither holds a space |

## Left out

Process and file-system effects:

- Launching and waiting for the generator process, draining its output, and
  the `Console` lines (`CrossGenManager.cs:47`, `51`, `79-106`, `117-125`).
  These are external-process and console I/O. A launch is an entry of the
  `invocations` log, and its exit code is the `exitCode` oracle.
- `Directory.CreateDirectory`, `Directory.EnumerateFiles`,
  `Path.GetFullPath`, `AssemblyInformation.IsValidImage` and
  `GetDependencies()`. These are file-system and metadata reads.
  - Directory listings are inputs, as image files already carrying their
    name, native-image path and dependency names.
  - Validity is a predicate parameter.
  - `AssemblyInformation.cs` is not part of this model.
- Exceptions from launching, from creating directories, from a path with
  invalid characters or from a relative URI. These are failures of I/O or
  library calls that the model does not perform.
- `ResxResourceProvider.GetResourceStream` and the `Stream` factories of
  both providers. These are stream I/O.

Parts written abstractly or as values:

- `CreateManifestName` and `ResourcePathUtility.GetResourceName` are one
  function parameter, `manifestName`. Their source is not part of this model.
- `Uri.MakeRelativeUri` and `Uri.UnescapeDataString` are function parameters.
  They belong to a foreign library.
- `Dictionary` iteration order is taken to be insertion order, and
  `TryGetValue` is a search by exact name. `_universe.Values` is therefore
  the `BuildUniverse` sequence.
- `HashSet` and `List` are threaded through `Sort` as a `set` and a `seq`
  value rather than aliased in-place collections. `HashSet` membership of
  `AssemblyInformation` is reference identity, which is object identity in
  the model.

Deliberately weaker or narrower contracts:

- Strings.EqualsIgnoreCase: ordinal case-insensitive comparison folds ASCII
  letters only. Full Unicode case mapping is outside the model.
- Universe.NameKey: `AssemblyInformation.NameComparer` is not part of this
  model. It is assumed to compare names ordinally, ignoring case, with ASCII
  folding.
- ResxResources.IsSeparator: `Path.GetExtension` stops at `\`, `/` and `:`,
  the Windows separators.
  - Invalid path characters, which make the .NET Framework throw, are not
    modelled.
  - ExtensionIgnoringCase and IsResxResourceFileIffSuffix are stated for
    extensions made of a dot and ASCII letters, which covers the three
    resource extensions.
- EmbeddedResources.GetResources: the platform's `Path.DirectorySeparatorChar`
  is a parameter.
- PackageReferences.VersionEquals: the reference-equality shortcut of the
  static `object.Equals` on two versions is folded into the version equality
  `veq`. The properties assume `veq` is reflexive, symmetric or transitive, as
  each needs. Null names and versions are `None`.
- PackageReferences.HashCodeConsistent: `string.GetHashCode` and
  `SemanticVersion.GetHashCode` are parameters. The property holds for any
  string hash and for any version hash that respects `veq`.
- CrossGen.CrossgenArgumentsSplit and CrossGen.TrustedPlatformAssembliesLists:
  the split-back properties assume that paths contain no space or `;`. The
  source does not quote paths, so with such characters the command line is
  ambiguous.
