# xsd-generator: the incremental build planner around XJC

This project is a Dafny model of the planning logic in alexanderwolz/xsd-generator, a Kotlin library that turns XML Schema documents into Java sources by calling the XJC compiler. XJC itself is a black box. The model covers everything the generator decides around it:

- **Scheduling.** The reference tree of a schema is walked bottom-up, so every dependency is compiled before its dependent. Include nodes are never compiled on their own.
- **Skipping.** A unit whose `outputDir/<base>.episode` file exists is skipped.
- **Episode collection.** The episodes of already-built descendants are collected and bound into a unit's compile.
- **Packages.** The package of a unit is derived from its target namespace and the version in its file name. `urlToPackage` turns a namespace URL into a package name.
- **Arguments.** The flat XJC argument list is assembled and checked. Every schema, binding, episode and catalog must exist, otherwise the call fails with `NoSuchElementException`.
- **Compiler errors.** A nonzero exit becomes an `XsdCompileException` carrying the error blocks parsed from the compiler's error stream.
- **Dependency-first generation.** `generateWithDependencies` compiles every dependency whose episode is missing, then the requested schemas with one episode per dependency.
- **Reference extraction.** `parseXsdReferences` reads the `include`, `import` and `redefine` elements of a parsed schema document. These are the composition elements of XML Schema 1.0 Part 1, sections 4.2.1 to 4.2.3.
- **Supporting types.** The append-only `Arguments` builder and the `Flags` table.

How the parts are modelled:

- **Files.** The file system is a map from path to content. A path is present exactly when the file exists.
- **XJC.** XJC is a function of the argument list and the files. It returns an exit code, the status and error texts, and the files it wrote.
- **World.** The generator threads a `World` value holding the files, every request handed to `generate` and every argument list handed to XJC.
- **Failures.** A thrown exception is a `Fail` outcome. A loop over units stops at the first failure, as an exception would stop a Kotlin `forEach`.
- **Methods.** Each step the source performs imperatively is a method. Each method is proved equal to a specification function, and the properties of the generator are lemmas about those functions.

Modules:

- `Wrappers`: the error taxonomy, `Option`, `Result` and `Outcome`.
- `Paths`: files and base names.
- `Text`: the Kotlin string operations used by the source (an ASCII model).
- `Flags` and `Args`: the flag table and the argument builder.
- `References`: the reference tree and the raw reference record.
- `Compiler`: `generate`, `parseStatus` and `parseErrors`, shared by the three generators.
- `Dependencies`: the dependency loop of `generateWithDependencies`, shared by the three generators.
- `DependencyMaps`: the dependency map built from dependency names.
- `RecursionUtils`: the traversals and `getDepth`.
- `XjcGenerator`: the main orchestrator.
- `XsdGenerator`: the generator module's `XsdJavaGenerator`.
- `InstanceGenerator`: the instance generator's reference extraction and its auto-resolve stub.

In these places the code does something its names or comments do not suggest, and the model follows the code:

- **Skip test.** `build` skips a unit whose episode file merely exists. It does not check that the episode is valid. `BuildSkipsBuiltUnit` states this.
- **Bindings.** The binding that `build` looks up is never passed on. Its compile always has an empty binding list; see `BuildRequestShape`.
- **Package override.** With file-name versions on, a package derived from a declared namespace replaces the caller's package name. The caller's name does not win; see `BuildPackageCases`.
- **Episode collection depth.** `getAllEpisodes` enters the collection with `includeTransitive = true`, so the episodes of every descendant are collected, not only those up to the first import. `CollectEpisodesRecursive` states this for either value of the flag.
- **Instance auto-resolve.** The instance generator's `generateAutoResolve` resolves only the direct references of the schema. It builds nothing and returns false.

## Model

| member | source | states |
|---|---|---|
| Args.Arguments.constructor | buildSrc/src/main/kotlin/de/alexanderwolz/xsd/generator/Arguments.kt:3-5 | a new builder holds no token |
| Args.Arguments.AddValue | buildSrc/src/main/kotlin/de/alexanderwolz/xsd/generator/Arguments.kt:7-9 | `add(value)` appends exactly that one token and cannot fail |
| Args.Arguments.Add | buildSrc/src/main/kotlin/de/alexanderwolz/xsd/generator/Arguments.kt:11-15 | fails with IllegalArgumentException("Key must start with -") exactly when the key lacks a leading `-`, and then leaves the list unchanged; otherwise appends the key, then the value when there is one; earlier tokens never change |
| Args.Arguments.GetArgs | buildSrc/src/main/kotlin/de/alexanderwolz/xsd/generator/Arguments.kt:17-19 | returns every token in insertion order |
| Flags.Value | buildSrc/src/main/kotlin/de/alexanderwolz/xsd/generator/Flags.kt:5-10 | every flag token starts with `-`, so adding it as a key never fails |
| Flags.AllFlagsComplete | buildSrc/src/main/kotlin/de/alexanderwolz/xsd/generator/Flags.kt:3-10 | there are exactly six flags and each of them is in the table |
| Flags.ValuesDistinct | buildSrc/src/main/kotlin/de/alexanderwolz/xsd/generator/Flags.kt:5-10 | the six tokens are pairwise distinct |
| Flags.DefaultTokens | buildSrc/src/main/kotlin/de/alexanderwolz/xsd/generator/Flags.kt:13-15 | the tokens of DEFAULTS are exactly `-extension`, `-XautoNameResolution` |
| Flags.Tokens | src/main/kotlin/de/alexanderwolz/xsd/generator/XjcJavaGenerator.kt:266-268 | one token per flag, in flag order |
| Paths.ChildInverse | src/main/kotlin/de/alexanderwolz/xsd/generator/XjcJavaGenerator.kt:35 | for a name without a separator, `File(parent, name)` has that name and that parent, and no parent when none is given |
| Paths.FileName | src/main/kotlin/de/alexanderwolz/xsd/generator/XjcJavaGenerator.kt:177 | `File.name` holds no separator |
| Paths.NameWithoutExtensionPrefix | src/main/kotlin/de/alexanderwolz/xsd/generator/XjcJavaGenerator.kt:177 | `nameWithoutExtension` is a prefix of the name: the whole name when it has no `.`, otherwise the part before a `.` after which no `.` follows |
| Paths.ParentDir | generator/src/main/kotlin/de/alexanderwolz/xsd/generator/XsdJavaGenerator.kt:62 | `File.parent` is absent exactly when the path has no separator, and then the name is the whole path; otherwise the path is the parent, `/` and the name |
| Text.FirstDiffersFromLastIffTwice | src/main/kotlin/de/alexanderwolz/xsd/generator/XjcJavaGenerator.kt:172-173 | a text contains a pattern with `indexOf != lastIndexOf` exactly when the pattern occurs at two or more positions |
| Compiler.FirstMissing | src/main/kotlin/de/alexanderwolz/xsd/generator/XjcJavaGenerator.kt:252-256 | none is reported exactly when every path exists; otherwise the reported index is the first path that does not exist |
| Compiler.MissingInput | src/main/kotlin/de/alexanderwolz/xsd/generator/XjcJavaGenerator.kt:248-300 | no error exactly when the schema list is non-empty and every schema, binding, episode and the catalog exist; any error is NoSuchElementException |
| Compiler.BindTokens | src/main/kotlin/de/alexanderwolz/xsd/generator/XjcJavaGenerator.kt:274-287 | two tokens per file, `-b` followed by the file, in file order |
| Compiler.XjcArgsLayout | generator/src/main/kotlin/de/alexanderwolz/xsd/generator/XsdJavaGenerator.kt:93-140 | the argument list is, in this order: `-d out -encoding enc`; the flag tokens (DEFAULTS when no flags are given); `-p pkg` only with a package; `-b` per binding, then `-b` per episode; `-episode out/<first schema base>.episode` only when asked; `-catalog path` only with a catalog; the schema paths as the final tokens |
| Compiler.Lines | src/main/kotlin/de/alexanderwolz/xsd/generator/XjcJavaGenerator.kt:337 | the split-and-filter keeps exactly the non-blank lines of the text, none holding a newline |
| Compiler.ParseStatus | src/main/kotlin/de/alexanderwolz/xsd/generator/XjcJavaGenerator.kt:331-333 | status lines are non-blank and hold no newline, and every non-blank line of the stream is among them |
| Compiler.ErrorBlocks | src/main/kotlin/de/alexanderwolz/xsd/generator/XjcJavaGenerator.kt:335-353 | the stream has one error block per `[ERROR] ` line, plus one when its first non-blank line is not such a line |
| Compiler.BlankTextHasNoErrors | generator/src/main/kotlin/de/alexanderwolz/xsd/generator/XsdJavaGenerator.kt:178-181 | a blank error stream yields no error block |
| Compiler.BlockCount | generator/src/main/kotlin/de/alexanderwolz/xsd/generator/XsdJavaGenerator.kt:181-194 | the number of blocks is the number of `[ERROR] ` lines, plus one when the first non-blank line is not such a marker |
| Compiler.BlocksAfterMarker | generator/src/main/kotlin/de/alexanderwolz/xsd/generator/XsdJavaGenerator.kt:184-188 | a marker line opens a new block holding the line from index 7, which keeps the space after `[ERROR]` |
| Compiler.BlocksAfterLine | generator/src/main/kotlin/de/alexanderwolz/xsd/generator/XsdJavaGenerator.kt:189-191 | a non-marker line extends the current block by a newline and the trimmed line, and alone it forms the first block |
| Compiler.ParseErrors | generator/src/main/kotlin/de/alexanderwolz/xsd/generator/XsdJavaGenerator.kt:178-196 | the loop with its reassigned builder yields exactly the error blocks of the stream, whose shape the four lemmas above state |
| Compiler.FindMissing | src/main/kotlin/de/alexanderwolz/xsd/generator/XjcJavaGenerator.kt:252-256 | the loop over the schemas finds the first missing one, or none |
| Compiler.AddFlags | src/main/kotlin/de/alexanderwolz/xsd/generator/XjcJavaGenerator.kt:266-268 | appends the tokens of the flags, in order, to the builder |
| Compiler.AddBindings | src/main/kotlin/de/alexanderwolz/xsd/generator/XjcJavaGenerator.kt:274-279 | reports the first missing binding; when none is missing, appends `-b` and the path for every binding |
| Compiler.AddSchemas | src/main/kotlin/de/alexanderwolz/xsd/generator/XjcJavaGenerator.kt:303-305 | appends the schema paths, in order |
| Compiler.BuildArgs | src/main/kotlin/de/alexanderwolz/xsd/generator/XjcJavaGenerator.kt:248-305 | the argument assembly fails with the missing-input error when there is one, and otherwise yields exactly the layout of XjcArgsLayout |
| Compiler.AddInputs | src/main/kotlin/de/alexanderwolz/xsd/generator/XjcJavaGenerator.kt:274-305 | after the schema check, fails on the first missing binding, episode or catalog, and otherwise completes the listed layout |
| Compiler.AddOutputs | src/main/kotlin/de/alexanderwolz/xsd/generator/XjcJavaGenerator.kt:289-305 | after bindings and episodes, adds the new episode, checks the catalog, and ends with the schemas |
| Compiler.GenerateContract | src/main/kotlin/de/alexanderwolz/xsd/generator/XjcJavaGenerator.kt:236-329 | a request with a missing input fails with NoSuchElementException before XJC runs and changes no file; a complete request runs XJC exactly once on the assembled arguments, keeps what it wrote, and succeeds exactly when the exit code is 0, failing otherwise with XsdCompileException(exit code, error blocks of stderr) |
| Compiler.Generate | src/main/kotlin/de/alexanderwolz/xsd/generator/XjcJavaGenerator.kt:236-329 | the imperative generate does exactly what GenerateContract states |
| Compiler.GenerateSpec | src/main/kotlin/de/alexanderwolz/xsd/generator/XjcJavaGenerator.kt:236-329 | generate records its request, never removes a file, runs XJC at most once and only on the assembled arguments of a request with no missing input, and passes only when no input is missing |
| Compiler.RunAllFailureSticks | src/main/kotlin/de/alexanderwolz/xsd/generator/XjcJavaGenerator.kt:222-231 | once one iteration of a loop fails, the loop ends with that failure and later items do nothing |
| Compiler.RunAllAppend | src/main/kotlin/de/alexanderwolz/xsd/generator/XjcJavaGenerator.kt:222-231 | running a loop over two concatenated lists is running the first, then the second unless the first failed |
| Dependencies.EpisodesOf | src/main/kotlin/de/alexanderwolz/xsd/generator/XjcJavaGenerator.kt:225-230 | one episode path per dependency, `outputDir/<base>.episode`, in dependency order |
| Dependencies.EnsureDependency | src/main/kotlin/de/alexanderwolz/xsd/generator/XjcJavaGenerator.kt:225-229 | one dependency is compiled only when its episode file does not exist |
| Dependencies.EnsureEpisodes | src/main/kotlin/de/alexanderwolz/xsd/generator/XjcJavaGenerator.kt:221-231 | the dependency loop stops at the first failing compile; when all pass, the collected episodes are exactly one per dependency, in order |
| Dependencies.EnsureOneContract | src/main/kotlin/de/alexanderwolz/xsd/generator/XjcJavaGenerator.kt:225-229 | a dependency with an episode changes nothing; one without makes exactly one request, its plan; no file is removed |
| Dependencies.EnsureAllBuiltIsNoOp | src/main/kotlin/de/alexanderwolz/xsd/generator/XjcJavaGenerator.kt:226 | when every dependency has its episode, the loop makes no request and changes nothing |
| Dependencies.EnsureAllGrowth | src/main/kotlin/de/alexanderwolz/xsd/generator/XjcJavaGenerator.kt:221-231 | the loop removes no file, only appends requests, and makes at most one per dependency |
| DependencyMaps.SchemaBindings | src/main/kotlin/de/alexanderwolz/xsd/generator/instance/XjcJavaGenerator.kt:110-111 | at most one binding, `<bindingFolder>/<base><ext>`, present exactly when that file exists |
| DependencyMaps.BuildDependencyMap | src/main/kotlin/de/alexanderwolz/xsd/generator/instance/XjcJavaGenerator.kt:107-113 | the loop filling the map yields the dependency map whose shape the two lemmas below state |
| DependencyMaps.DependencyMapKeys | src/main/kotlin/de/alexanderwolz/xsd/generator/instance/XjcJavaGenerator.kt:108-112 | the keys are exactly `File(schemaFolder, name)` for the dependency names |
| DependencyMaps.DependencyMapEntries | src/main/kotlin/de/alexanderwolz/xsd/generator/instance/XjcJavaGenerator.kt:109-112 | every dependency name has an entry: its schema's existing binding, at most one, and none exactly when the normalised-extension binding is missing |
| RecursionUtils.BottomUp | src/main/kotlin/de/alexanderwolz/xsd/generator/util/RecursionUtils.kt:17-22 | the bottom-up sequence has one entry per tree node and ends with the root |
| RecursionUtils.TopDown | src/main/kotlin/de/alexanderwolz/xsd/generator/util/RecursionUtils.kt:24-29 | the top-down sequence has one entry per tree node and starts with the root |
| RecursionUtils.BottomUpSubtreeBefore | src/main/kotlin/de/alexanderwolz/xsd/generator/util/RecursionUtils.kt:17-22 | the nodes visited just before any node are exactly the bottom-up sequence of its subtree, so every descendant comes before it |
| RecursionUtils.TopDownSubtreeAfter | src/main/kotlin/de/alexanderwolz/xsd/generator/util/RecursionUtils.kt:24-29 | the node and the nodes visited just after it are exactly the top-down sequence of its subtree, so it comes before every descendant |
| RecursionUtils.BottomUpChildBlocks | src/main/kotlin/de/alexanderwolz/xsd/generator/util/RecursionUtils.kt:18-20 | bottom-up, child i's whole subtree lies between those of the children before and after it |
| RecursionUtils.TopDownChildBlocks | src/main/kotlin/de/alexanderwolz/xsd/generator/util/RecursionUtils.kt:26-28 | top-down, child i's whole subtree lies between those of the children before and after it |
| RecursionUtils.TraversalsSameNodes | src/main/kotlin/de/alexanderwolz/xsd/generator/util/RecursionUtils.kt:17-29 | both traversals have the tree's size and hold the same nodes, counted with multiplicity |
| RecursionUtils.LeafTraversals | src/main/kotlin/de/alexanderwolz/xsd/generator/util/RecursionUtils.kt:17-29 | for a leaf, both traversals are the leaf alone |
| RecursionUtils.ParentTableSound | src/main/kotlin/de/alexanderwolz/xsd/generator/util/RecursionUtils.kt:9-12 | the parent links of the tree: the root has none, every other node's parent comes earlier top-down and lists it among its children |
| RecursionUtils.DepthIsChainLength | src/main/kotlin/de/alexanderwolz/xsd/generator/util/RecursionUtils.kt:7-15 | the depth is the number of parent links up to the root: the root has depth 0, a child its parent's depth plus one, and following that many links reaches a node without parent |
| RecursionUtils.GetDepth | src/main/kotlin/de/alexanderwolz/xsd/generator/util/RecursionUtils.kt:7-15 | the while loop terminates and returns the depth |
| XjcGenerator.NormalizeExtension | src/main/kotlin/de/alexanderwolz/xsd/generator/XjcJavaGenerator.kt:55 | the result starts with `.`; an extension that already does is kept, any other gets a `.` in front |
| XjcGenerator.NormalizeIdempotent | src/main/kotlin/de/alexanderwolz/xsd/generator/XjcJavaGenerator.kt:55 | normalising twice is normalising once |
| XjcGenerator.IsEpisodeValid | src/main/kotlin/de/alexanderwolz/xsd/generator/XjcJavaGenerator.kt:168-174 | an episode is valid exactly when it exists and `<bindings` occurs in it at least twice; so an empty file is never valid |
| XjcGenerator.EpisodeOf | src/main/kotlin/de/alexanderwolz/xsd/generator/XjcJavaGenerator.kt:176-178 | the episode is named `<base>.episode` after the schema and sits directly in the output directory |
| XjcGenerator.BindingOf | src/main/kotlin/de/alexanderwolz/xsd/generator/XjcJavaGenerator.kt:180-182 | for an extension without a separator, the binding is named `<base><ext>` after the schema and sits directly in the binding folder, or has no folder without one |
| XjcGenerator.CandidatesExact | src/main/kotlin/de/alexanderwolz/xsd/generator/XjcJavaGenerator.kt:150-158 | the episodes a scan offers are exactly those of visited non-include nodes whose episode exists and is valid |
| XjcGenerator.CandidatesAppend | src/main/kotlin/de/alexanderwolz/xsd/generator/XjcJavaGenerator.kt:150 | scanning two node lists one after the other offers their episodes in that order |
| XjcGenerator.Insert | src/main/kotlin/de/alexanderwolz/xsd/generator/XjcJavaGenerator.kt:156 | adding to an insertion-ordered set keeps it as is when the element is there and appends it otherwise |
| XjcGenerator.AddAllSet | src/main/kotlin/de/alexanderwolz/xsd/generator/XjcJavaGenerator.kt:140-142 | adding many elements keeps the earlier ones first, holds exactly the old and the new elements, and keeps the set duplicate-free |
| XjcGenerator.EpisodeSet.constructor | src/main/kotlin/de/alexanderwolz/xsd/generator/XjcJavaGenerator.kt:140 | the episode set starts empty |
| XjcGenerator.EpisodeSet.Add | src/main/kotlin/de/alexanderwolz/xsd/generator/XjcJavaGenerator.kt:156 | `episodes.add` inserts into the insertion-ordered set |
| XjcGenerator.CollectEpisodesRecursive | src/main/kotlin/de/alexanderwolz/xsd/generator/XjcJavaGenerator.kt:145-166 | whatever includeTransitive is, the recursion adds, in top-down order, the valid existing episodes of every non-include node below the reference |
| XjcGenerator.GetAllEpisodes | src/main/kotlin/de/alexanderwolz/xsd/generator/XjcJavaGenerator.kt:139-143 | the collected set, as a list in insertion order |
| XjcGenerator.AllEpisodesContents | src/main/kotlin/de/alexanderwolz/xsd/generator/XjcJavaGenerator.kt:139-166 | the list has no duplicates and holds exactly the episodes of the non-include descendants whose episode exists and is valid, over the whole subtree |
| XjcGenerator.EpisodeOfInjective | src/main/kotlin/de/alexanderwolz/xsd/generator/XjcJavaGenerator.kt:176-178 | two nodes share an episode path only when their files share a base name |
| XjcGenerator.OwnEpisodeNotCollected | src/main/kotlin/de/alexanderwolz/xsd/generator/XjcJavaGenerator.kt:139-166 | when no descendant shares the node's base name, its own episode is not among the collected ones |
| XjcGenerator.BuildPackage | src/main/kotlin/de/alexanderwolz/xsd/generator/XjcJavaGenerator.kt:107-113 | the package fails exactly when file-name versions are on and the schema file is missing, with FileNotFoundException for it; it differs from the caller's only with file-name versions on and a declared namespace |
| XjcGenerator.BuildPackageCases | src/main/kotlin/de/alexanderwolz/xsd/generator/XjcJavaGenerator.kt:107-113 | without file-name versions the package is the caller's; with them and a namespace it is the namespace's package, `.` and the version, whatever the caller passed; with them and no namespace it stays the caller's; reading the schema fails only when it is missing |
| XjcGenerator.BuildStep | src/main/kotlin/de/alexanderwolz/xsd/generator/XjcJavaGenerator.kt:96-137 | build keeps every file and hands at most one request to generate, and only when the node's episode is missing |
| XjcGenerator.BuildSkipsBuiltUnit | src/main/kotlin/de/alexanderwolz/xsd/generator/XjcJavaGenerator.kt:119-123 | a node whose episode exists changes nothing and reaches no compiler call |
| XjcGenerator.BuildRequestShape | src/main/kotlin/de/alexanderwolz/xsd/generator/XjcJavaGenerator.kt:115-135 | a build that calls generate does so once, with the node's file as the only schema, no bindings, the collected episodes, an episode to create, the derived package, and the caller's catalog and flags |
| XjcGenerator.Build | src/main/kotlin/de/alexanderwolz/xsd/generator/XjcJavaGenerator.kt:96-137 | the imperative build, with its reassigned package, does exactly what the build specification states |
| XjcGenerator.NonIncludes | src/main/kotlin/de/alexanderwolz/xsd/generator/XjcJavaGenerator.kt:80 | keeps, in order, exactly the nodes that are not includes |
| XjcGenerator.VisitsAreBuilds | src/main/kotlin/de/alexanderwolz/xsd/generator/XjcJavaGenerator.kt:79-93 | visiting every node and ignoring includes is building exactly the non-include nodes, each once, in visiting order |
| XjcGenerator.TraverseBuild | src/main/kotlin/de/alexanderwolz/xsd/generator/XjcJavaGenerator.kt:79-93 | the recursive traversal with its action applies the visit to the bottom-up sequence, stopping at the first failure |
| XjcGenerator.ChildFailureEndsTraversal | src/main/kotlin/de/alexanderwolz/xsd/generator/XjcJavaGenerator.kt:79-93 | a failure in a child's subtree is the outcome of the whole traversal; no later node is visited |
| XjcGenerator.BuildRecursiveSpec | src/main/kotlin/de/alexanderwolz/xsd/generator/XjcJavaGenerator.kt:69-94 | buildRecursive keeps every file, only appends requests, and makes at most one request per non-include node |
| XjcGenerator.BuildRecursive | src/main/kotlin/de/alexanderwolz/xsd/generator/XjcJavaGenerator.kt:69-94 | buildRecursive builds every non-include node once, in bottom-up order, until a build fails |
| XjcGenerator.GenerateLeavesEpisode | src/main/kotlin/de/alexanderwolz/xsd/generator/XjcJavaGenerator.kt:289-294 | when the compiler writes the `-episode` file it is given, a successful generate that asked for an episode leaves the first schema's episode |
| XjcGenerator.BuildStepBuilds | src/main/kotlin/de/alexanderwolz/xsd/generator/XjcJavaGenerator.kt:96-137 | a successful build leaves its unit built, with its episode present, and removes no file |
| XjcGenerator.RunBuildsAll | src/main/kotlin/de/alexanderwolz/xsd/generator/XjcJavaGenerator.kt:79-93 | a successful run over a list of nodes leaves every one of them built |
| XjcGenerator.RunOverBuiltIsNoOp | src/main/kotlin/de/alexanderwolz/xsd/generator/XjcJavaGenerator.kt:119-123 | a run over nodes that are all built makes no request and changes nothing |
| XjcGenerator.RebuildIsNoOp | src/main/kotlin/de/alexanderwolz/xsd/generator/XjcJavaGenerator.kt:69-137 | running buildRecursive again on the world a successful run left changes nothing and calls no compiler |
| XjcGenerator.FindByFile | src/main/kotlin/de/alexanderwolz/xsd/generator/XjcJavaGenerator.kt:47 | `find { it.file == schemaFile }`: the first reference with that file, or none exactly when no reference has it |
| XjcGenerator.AutoResolveSpec | src/main/kotlin/de/alexanderwolz/xsd/generator/XjcJavaGenerator.kt:35-56 | generateAutoResolve keeps every file, only appends requests, and changes the world only when the requested schema is among the resolved references |
| XjcGenerator.AutoResolveRejectsUnknownRoot | src/main/kotlin/de/alexanderwolz/xsd/generator/XjcJavaGenerator.kt:47-51 | when the requested schema is not among the resolved references, NoSuchElementException is raised and nothing is built |
| XjcGenerator.GenerateAutoResolve | src/main/kotlin/de/alexanderwolz/xsd/generator/XjcJavaGenerator.kt:24-58 | generateAutoResolve: the root check, then buildRecursive on the found node with the extension normalised |
| XjcGenerator.GenerateWithDependencies | src/main/kotlin/de/alexanderwolz/xsd/generator/XjcJavaGenerator.kt:210-234 | the map overload runs the dependency loop over the map's keys in iteration order, then the final generate |
| XjcGenerator.WithDependenciesFinalCall | src/main/kotlin/de/alexanderwolz/xsd/generator/XjcJavaGenerator.kt:221-233 | when reached, the final call is the last request, with the caller's schemas, bindings and episode flag and exactly one episode path per dependency, in iteration order |
| XjcGenerator.WithDependenciesAllBuilt | src/main/kotlin/de/alexanderwolz/xsd/generator/XjcJavaGenerator.kt:222-233 | when every dependency has its episode, the only compile is the final one |
| XjcGenerator.GenerateWithDependencyNames | src/main/kotlin/de/alexanderwolz/xsd/generator/XjcJavaGenerator.kt:184-207 | the name overload passes the schema under schemaFolder, its existing binding, and the map of one entry per dependency name to the map overload |
| XsdGenerator.UrlToPackage | generator/src/main/kotlin/de/alexanderwolz/xsd/generator/XsdJavaGenerator.kt:245-251 | the package derived from a URL contains no upper-case letter |
| XsdGenerator.UrlToPackageComponents | generator/src/main/kotlin/de/alexanderwolz/xsd/generator/XsdJavaGenerator.kt:245-251 | for a URL whose path has no `.`, the components between the dots of the package are exactly the lower-cased host labels reversed followed by the path segments, without blanks, and none of them is blank |
| XsdGenerator.UrlToPackageWellDotted | generator/src/main/kotlin/de/alexanderwolz/xsd/generator/XsdJavaGenerator.kt:250 | for such a URL with at least one component, the package neither starts nor ends with `.` and contains no `..` |
| XsdGenerator.UrlToPackageShape | generator/src/main/kotlin/de/alexanderwolz/xsd/generator/XsdJavaGenerator.kt:245-251 | `http://h1.h2/s1/s2` with lower-case labels and segments becomes `h2.h1.s1.s2`: scheme stripped, host at the first `/`, host labels reversed, segments appended |
| XsdGenerator.UrlToPackageExample | generator/src/main/kotlin/de/alexanderwolz/xsd/generator/XsdJavaGenerator.kt:245-251 | `http://alexanderwolz.de/schema/articles` becomes `de.alexanderwolz.schema.articles` |
| XsdGenerator.UrlToPackageDoubleDot | generator/src/main/kotlin/de/alexanderwolz/xsd/generator/XsdJavaGenerator.kt:249-250 | a `.` at the end of a path segment does produce `..`: `http://a.de/x./z` becomes `de.a.x..z` |
| XsdGenerator.UrlToPackageInnerDot | generator/src/main/kotlin/de/alexanderwolz/xsd/generator/XsdJavaGenerator.kt:249-250 | a `.` inside a path segment does no harm: `http://a.de/v1.0/x` becomes `de.a.v1.0.x`, with no `..` and no `.` at either end |
| XsdGenerator.PackageNameFromNamespace | generator/src/main/kotlin/de/alexanderwolz/xsd/generator/XsdJavaGenerator.kt:234-243 | the package fails exactly when the schema file is missing or it declares a namespace while its base name has no `_`; a result is `generated` exactly when there is no namespace |
| XsdGenerator.PackageNameCases | generator/src/main/kotlin/de/alexanderwolz/xsd/generator/XsdJavaGenerator.kt:234-243 | a missing schema file fails reading it; no namespace gives exactly `generated`; a namespace with a base name without `_` fails with IndexOutOfBoundsException, and only then |
| XsdGenerator.PackageNameVersioned | generator/src/main/kotlin/de/alexanderwolz/xsd/generator/XsdJavaGenerator.kt:238-240 | with a namespace and a `_` in the base name, the package is the namespace's package, `.`, and the base name after its first `_` |
| XsdGenerator.DefaultBindingOf | generator/src/main/kotlin/de/alexanderwolz/xsd/generator/XsdJavaGenerator.kt:62 | the default binding is named `<base>.xjb.xml` after the schema and sits in the schema's own directory |
| XsdGenerator.DefaultBindings | generator/src/main/kotlin/de/alexanderwolz/xsd/generator/XsdJavaGenerator.kt:61-63 | at most one binding per schema, and every binding exists |
| XsdGenerator.DefaultBindingsExact | generator/src/main/kotlin/de/alexanderwolz/xsd/generator/XsdJavaGenerator.kt:61-63 | the default bindings are exactly the existing `<base>.xjb.xml` files next to the schemas, at most one per schema |
| XsdGenerator.GenerateWithEpisode | generator/src/main/kotlin/de/alexanderwolz/xsd/generator/XsdJavaGenerator.kt:50-59 | generate with the schema alone, its default bindings, no episodes, and an episode to create |
| XsdGenerator.GenerateWithDependencies | generator/src/main/kotlin/de/alexanderwolz/xsd/generator/XsdJavaGenerator.kt:28-48 | the dependency loop through generateWithEpisode, then generate with the default bindings looked up after the loop and the episodes of all dependencies |
| XsdGenerator.DependencyCompile | generator/src/main/kotlin/de/alexanderwolz/xsd/generator/XsdJavaGenerator.kt:38-43 | a dependency is compiled alone, with no episodes and an episode to create, and only when its episode file is missing |
| XsdGenerator.WithDependenciesFinalCall | generator/src/main/kotlin/de/alexanderwolz/xsd/generator/XsdJavaGenerator.kt:37-47 | when reached, the final call is the last request, with the caller's schemas and episode flag and exactly one episode path per dependency, in order |
| XsdGenerator.WithDependenciesAllBuilt | generator/src/main/kotlin/de/alexanderwolz/xsd/generator/XsdJavaGenerator.kt:37-47 | when every dependency has its episode, the only compile is the final one, with the schemas' default bindings |
| XsdGenerator.ChildrenOf | generator/src/main/kotlin/de/alexanderwolz/xsd/generator/XsdJavaGenerator.kt:24 | each dependency name resolved under the schema directory, in order |
| XsdGenerator.GenerateWithDependencyNames | generator/src/main/kotlin/de/alexanderwolz/xsd/generator/XsdJavaGenerator.kt:14-26 | the name overload resolves the schema and the dependencies under the schema directory and calls the file overload |
| InstanceGenerator.ElementsNamed | src/main/kotlin/de/alexanderwolz/xsd/generator/instance/XjcJavaGenerator.kt:58-60 | `getElementsByTagNameNS` keeps, in document order, exactly the elements in the XML Schema namespace with that local name |
| InstanceGenerator.ReadIncludes | src/main/kotlin/de/alexanderwolz/xsd/generator/instance/XjcJavaGenerator.kt:60-67 | the include loop appends an `include` reference without namespace for each include with a non-empty location, in order |
| InstanceGenerator.ReadImports | src/main/kotlin/de/alexanderwolz/xsd/generator/instance/XjcJavaGenerator.kt:69-78 | the import loop appends an `import` reference with the namespace attribute for each import with a non-empty location, in order |
| InstanceGenerator.ReadRedefines | src/main/kotlin/de/alexanderwolz/xsd/generator/instance/XjcJavaGenerator.kt:80-87 | the redefine loop appends a `redefine` reference without namespace for each redefine with a non-empty location, in order |
| InstanceGenerator.ParseXsdReferences | src/main/kotlin/de/alexanderwolz/xsd/generator/instance/XjcJavaGenerator.kt:50-90 | the references are the includes, then the imports, then the redefines |
| InstanceGenerator.ReferencesOfExact | src/main/kotlin/de/alexanderwolz/xsd/generator/instance/XjcJavaGenerator.kt:61-66 | a loop yields exactly one reference per element with a non-empty location, and no other |
| InstanceGenerator.ReferencesOfAppend | src/main/kotlin/de/alexanderwolz/xsd/generator/instance/XjcJavaGenerator.kt:61-66 | within a kind, references keep element order: the references of two element runs are those of the first followed by those of the second |
| InstanceGenerator.ReferencesOfWellFormed | src/main/kotlin/de/alexanderwolz/xsd/generator/instance/XjcJavaGenerator.kt:63-84 | every reference carries its kind's tag and a non-empty location, and has a namespace exactly when it is an import |
| InstanceGenerator.ParsedReferencesExact | src/main/kotlin/de/alexanderwolz/xsd/generator/instance/XjcJavaGenerator.kt:58-89 | a reference is returned exactly when some `include`, `import` or `redefine` element of the XML Schema namespace with a non-empty location yields it |
| InstanceGenerator.ParsedReferencesShape | src/main/kotlin/de/alexanderwolz/xsd/generator/instance/XjcJavaGenerator.kt:60-89 | every position holds a non-empty location, the tag of its section and a namespace only in the import section, and the sections come as includes, imports, redefines |
| InstanceGenerator.IgnoredElement | src/main/kotlin/de/alexanderwolz/xsd/generator/instance/XjcJavaGenerator.kt:58-87 | an element outside the XML Schema namespace, with another local name, or with an empty location changes nothing in the result |
| InstanceGenerator.ImportWithoutNamespace | src/main/kotlin/de/alexanderwolz/xsd/generator/instance/XjcJavaGenerator.kt:72-75 | an import without a namespace attribute yields the empty string as its namespace |
| InstanceGenerator.LocationsUnder | src/main/kotlin/de/alexanderwolz/xsd/generator/instance/XjcJavaGenerator.kt:41 | one file under the schema folder per reference location, in order |
| InstanceGenerator.GenerateAutoResolve | src/main/kotlin/de/alexanderwolz/xsd/generator/instance/XjcJavaGenerator.kt:37-47 | fails reading a missing schema; otherwise returns false, builds nothing, and lists one dependency per direct reference, `File(schemaFolder, schemaLocation)` |

## Left out

- XJC (`Driver.run`) is not modelled: it is an arbitrary function of the arguments and the files. The Java code it emits is not modelled.
- `WritesEpisode` is an assumption, not something proved. Where a lemma needs XJC to write the requested episode, it says so in its precondition.
- File-system effects become a map from path to content. `mkdirs` of the output directory is left out because it creates no file the planner reads.
- `absolutePath` is the identity. Paths are compared as strings.
- Logging is left out: every `logger` call, `logTree` and the `println` of the instance generator. Only `getDepth`, which `logTree` uses, is modelled.
- The charset is an opaque name passed through to `-encoding`.
- Code from de.alexanderwolz.commons is not part of this model and becomes function-valued parameters. That covers `XsdUtils.getAllReferencedXsdSchemaFiles`, which builds the reference tree (its cycle handling is invisible), `XsdUtils.getTargetNamespace`, `XsdUtils.getPackageName` and `VersionUtils.getVersion`/`asString`.
- XML parsing becomes a parameter: a document is the elements below its root element, in document order. The root element itself is not among them, as with `getElementsByTagNameNS`. A malformed document, where parsing fails, is not modelled.
- The `targetNamespace` regular expression of `getPackageNameFromNamespace` becomes a parameter.
- Kotlin's `lowercase`, `isWhitespace` and `isNotBlank` are modelled on ASCII only.
- `HashMap` iteration order is a caller-supplied enumeration of the map's keys. `generateWithDependencies` requires it to enumerate the keys.
- The parent link of `XsdFileReference` is not modelled directly. It is a table of parent indices aligned with the top-down order, so depth is computed over that table.
- Generator copies are modelled once:
  - The instance generator's `generate`, `parseStatus`, `parseErrors` and both `generateWithDependencies` overloads repeat those of the main generator.
  - The generator module's `generate`, `parseErrors`, `Arguments` and `Flags` repeat Compiler, Args and Flags.
  - The `XsdJavaGenerator` of src/main/kotlin/de/alexanderwolz/xsd/generator and of the parser package are not part of this model.
- XsdGenerator.UrlToPackageWellDotted: "no `..` and no `.` at either end" is proved only for URLs whose path has no `.`. The property can fail when a path segment starts or ends with `.` (XsdGenerator.UrlToPackageDoubleDot). A `.` inside a segment, as in `v1.0`, does not break it (XsdGenerator.UrlToPackageInnerDot), but the general condition is not proved.
- XjcGenerator.OwnEpisodeNotCollected: "the node's own episode is never collected" is proved only when no descendant shares the node's base name. A descendant with the same base name has the same episode path.
- Compiler.ParseStatus: states that lines are kept, not their multiplicity and order. Those follow from the definition, which is the filter of the split.
- The Gradle tasks, the buildSrc generator interface and the build scripts are not part of this model.
- Concurrency is not modelled because the generator is single-threaded.
