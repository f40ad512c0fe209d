/** The incremental build planner of XjcJavaGenerator: generateAutoResolve
    finds the requested schema among the resolved references, walks the
    reference tree bottom-up and builds every unit that is not an include
    and has no episode file yet, handing it the episodes of the units below
    it. */
module XjcGenerator {
  import opened Wrappers
  import opened Text
  import opened Paths
  import opened Flags
  import opened References
  import opened RecursionUtils
  import opened Compiler
  import opened Dependencies
  import opened DependencyMaps

  /** The library code the generator calls into: the reference resolver
      (XsdUtils.getAllReferencedXsdSchemaFiles), the target namespace of a
      schema text (XsdUtils.getTargetNamespace), the package of a namespace
      (XsdUtils.getPackageName) and the version token of a file name
      (VersionUtils.getVersion(file).asString("_", "v")). */
  datatype Library = Library(
    resolve: (Path, Option<Path>, FileSystem) -> seq<FileReference>,
    targetNamespace: string -> Option<string>,
    packageOf: string -> string,
    versionOf: Path -> string)

  /** The parameters buildRecursive hands down to every build. */
  datatype BuildOptions = BuildOptions(
    bindingFolder: Option<Path>,
    bindingExtension: string,
    packageName: Option<string>,
    useFilenameVersions: bool,
    catalog: Option<Path>,
    flags: Option<seq<Flag>>)

  /** The binding extension with a leading '.', added when missing. */
  function NormalizeExtension(ext: string): (r: string)
    ensures StartsWith(r, ".")
    ensures StartsWith(ext, ".") ==> r == ext
    ensures !StartsWith(ext, ".") ==> r == "." + ext
  {
    if StartsWith(ext, ".") then ext
    else
      var r := "." + ext;
      assert r[..1] == ".";
      r
  }

  /** Normalising twice is normalising once. */
  lemma NormalizeIdempotent(ext: string)
    ensures NormalizeExtension(NormalizeExtension(ext)) == NormalizeExtension(ext)
  {
  }

  /** getEpisode: outputDir/<base>.episode, a file named after the
      schema's base name, directly in the output directory. */
  function EpisodeOf(env: Env, reference: FileReference): (e: Path)
    ensures FileName(e) == NameWithoutExtension(reference.file) + ".episode"
    ensures ParentDir(e) == Some(env.outputDir)
  {
    ChildInverse(Some(env.outputDir), NameWithoutExtension(reference.file) + ".episode");
    EpisodeFile(env, reference.file)
  }

  /** getBinding: bindingFolder/<base><ext>; for an extension without a
      separator, a file named after the schema's base name directly in the
      binding folder (a bare name without one). */
  function BindingOf(reference: FileReference, bindingFolder: Option<Path>, bindingExtension: string): (b: Path)
    ensures '/' !in bindingExtension ==>
      FileName(b) == NameWithoutExtension(reference.file) + bindingExtension && ParentDir(b) == bindingFolder
  {
    var name := NameWithoutExtension(reference.file) + bindingExtension;
    if '/' in bindingExtension then Child(bindingFolder, name)
    else
      ChildInverse(bindingFolder, name);
      Child(bindingFolder, name)
  }

  /** isEpisodeValid: a file of length zero (or one that does not exist) is
      not valid; otherwise the text must hold "<bindings" at two different
      positions. */
  predicate IsEpisodeValid(files: FileSystem, episode: Path): (valid: bool)
    ensures valid <==> episode in files && OccursTwice(files[episode], "<bindings")
  {
    if episode !in files then false
    else
      var content := files[episode];
      FirstDiffersFromLastIffTwice(content, "<bindings");
      if content == "" then
        assert !Contains(content, "<bindings");
        false
      else Contains(content, "<bindings") && IndexOf(content, "<bindings") != LastIndexOf(content, "<bindings")
  }

  // ---------------------------------------------------------------------
  // Episode collection

  /** The episode a descendant contributes: a unit that is not an include
      and whose episode exists and is valid. */
  predicate Contributes(env: Env, files: FileSystem, n: FileReference) {
    n.kind != Include && EpisodeOf(env, n) in files && IsEpisodeValid(files, EpisodeOf(env, n))
  }

  /** The contributed episodes of a list of nodes, in list order. */
  function Candidates(env: Env, files: FileSystem, nodes: seq<FileReference>): seq<Path> {
    if nodes == [] then []
    else
      var rest := Candidates(env, files, nodes[1..]);
      if Contributes(env, files, nodes[0]) then [EpisodeOf(env, nodes[0])] + rest else rest
  }

  /** A path is a candidate exactly when it is the episode of a
      contributing node. */
  lemma {:induction false} CandidatesExact(env: Env, files: FileSystem, nodes: seq<FileReference>, x: Path)
    ensures x in Candidates(env, files, nodes) <==>
      exists i :: 0 <= i < |nodes| && Contributes(env, files, nodes[i]) && x == EpisodeOf(env, nodes[i])
    decreases |nodes|
  {
    if nodes != [] {
      CandidatesExact(env, files, nodes[1..], x);
      assert forall i :: 1 <= i < |nodes| ==> nodes[i] == nodes[1..][i - 1];
      if x in Candidates(env, files, nodes[1..]) {
        var i :| 0 <= i < |nodes[1..]| && Contributes(env, files, nodes[1..][i]) && x == EpisodeOf(env, nodes[1..][i]);
        assert nodes[i + 1] == nodes[1..][i];
      }
    }
  }

  lemma {:induction false} CandidatesAppend(env: Env, files: FileSystem, a: seq<FileReference>, b: seq<FileReference>)
    ensures Candidates(env, files, a + b) == Candidates(env, files, a) + Candidates(env, files, b)
  {
    if a != [] {
      CandidatesAppend(env, files, a[1..], b);
      DropConcat(a, b);
    } else {
      assert a + b == b;
    }
  }

  /** No path twice. */
  predicate Distinct<T(==)>(s: seq<T>) {
    forall i, j :: 0 <= i < j < |s| ==> s[i] != s[j]
  }

  /** Adding to the insertion-ordered set: a new path goes at the end, a
      known one changes nothing. */
  function Insert<T(==)>(s: seq<T>, p: T): (r: seq<T>)
    ensures p in s ==> r == s
    ensures p !in s ==> r == s + [p]
  {
    if p in s then s else s + [p]
  }

  /** Adding every path of xs in order. */
  function AddAll<T(==)>(s: seq<T>, xs: seq<T>): seq<T>
    decreases |xs|
  {
    if xs == [] then s else AddAll(Insert(s, xs[0]), xs[1..])
  }

  lemma {:induction false} AddAllAppend<T>(s: seq<T>, a: seq<T>, b: seq<T>)
    ensures AddAll(s, a + b) == AddAll(AddAll(s, a), b)
    decreases |a|
  {
    if a != [] {
      DropConcat(a, b);
      AddAllAppend(Insert(s, a[0]), a[1..], b);
    } else {
      assert a + b == b;
    }
  }

  /** The set keeps what it had, in order, gains exactly the paths of xs,
      and holds no path twice if it held none twice. */
  lemma {:induction false} AddAllSet<T>(s: seq<T>, xs: seq<T>)
    ensures s <= AddAll(s, xs)
    ensures forall x :: x in AddAll(s, xs) <==> x in s || x in xs
    ensures Distinct(s) ==> Distinct(AddAll(s, xs))
    decreases |xs|
  {
    if xs != [] {
      AddAllSet(Insert(s, xs[0]), xs[1..]);
      assert forall x :: x in xs <==> x == xs[0] || x in xs[1..];
    }
  }

  /** The MutableSet the episodes are collected in (a LinkedHashSet: no
      duplicates, insertion order). */
  class EpisodeSet {
    var elements: seq<Path>

    constructor ()
      ensures elements == []
    {
      elements := [];
    }

    method Add(p: Path)
      modifies this
      ensures elements == Insert(old(elements), p)
    {
      if p !in elements {
        elements := elements + [p];
      }
    }
  }

  /** collectEpisodesRecursive: for every child in order, its episode when
      it contributes one, then everything below the child. The transitive
      flag selects between two identical recursive calls, so the whole
      subtree below the node is scanned whatever its value. */
  method CollectEpisodesRecursive(env: Env, files: FileSystem, reference: FileReference,
                                  episodes: EpisodeSet, includeTransitive: bool)
    modifies episodes
    ensures episodes.elements == AddAll(old(episodes.elements), Candidates(env, files, TopDownAll(reference.children)))
    decreases reference
  {
    ghost var start := episodes.elements;
    var children := reference.children;
    for i := 0 to |children|
      invariant episodes.elements == AddAll(start, Candidates(env, files, TopDownAll(children[..i])))
    {
      var child := children[i];
      ghost var before := episodes.elements;
      var isIncluded := child.kind == Include;
      if !isIncluded {
        var episode := EpisodeOf(env, child);
        if episode in files && IsEpisodeValid(files, episode) {
          episodes.Add(episode);
        }
      }
      ghost var own := Candidates(env, files, [child]);
      assert [child][1..] == [];
      assert own == if Contributes(env, files, child) then [EpisodeOf(env, child)] else [];
      assert episodes.elements == AddAll(before, own);
      if isIncluded || includeTransitive {
        CollectEpisodesRecursive(env, files, child, episodes, true);
      } else {
        CollectEpisodesRecursive(env, files, child, episodes, false);
      }
      ghost var below := Candidates(env, files, TopDownAll(child.children));
      TopDownAllSnoc(children, i);
      assert TopDown(child) == [child] + TopDownAll(child.children);
      CandidatesAppend(env, files, [child], TopDownAll(child.children));
      CandidatesAppend(env, files, TopDownAll(children[..i]), TopDown(child));
      AddAllAppend(start, Candidates(env, files, TopDownAll(children[..i])), Candidates(env, files, TopDown(child)));
      AddAllAppend(before, own, below);
    }
    assert children[..|children|] == children;
  }

  lemma TopDownAllSnoc(cs: seq<FileReference>, i: nat)
    requires i < |cs|
    ensures TopDownAll(cs[..i + 1]) == TopDownAll(cs[..i]) + TopDown(cs[i])
  {
    TopDownChildBlocks(cs[..i + 1], i);
    assert cs[..i + 1][..i] == cs[..i];
    assert cs[..i + 1][i + 1..] == [];
  }

  /** The episodes getAllEpisodes returns for a node, computed from the
      files present when the node is built. */
  function AllEpisodes(env: Env, files: FileSystem, reference: FileReference): seq<Path> {
    AddAll([], Candidates(env, files, TopDownAll(reference.children)))
  }

  /** getAllEpisodes: a fresh set, filled from the whole subtree. */
  method GetAllEpisodes(env: Env, files: FileSystem, reference: FileReference) returns (list: seq<Path>)
    ensures list == AllEpisodes(env, files, reference)
  {
    var episodes := new EpisodeSet();
    CollectEpisodesRecursive(env, files, reference, episodes, true);
    list := episodes.elements;
  }

  /** The episodes of a node are exactly the existing, valid episodes of
      its descendants that are not includes, each once. */
  lemma AllEpisodesContents(env: Env, files: FileSystem, reference: FileReference)
    ensures var below := TopDownAll(reference.children);
      && Distinct(AllEpisodes(env, files, reference))
      && forall x :: x in AllEpisodes(env, files, reference) <==>
        exists k :: 0 <= k < |below| && Contributes(env, files, below[k]) && x == EpisodeOf(env, below[k])
  {
    var below := TopDownAll(reference.children);
    var c := Candidates(env, files, below);
    AddAllFromEmpty(c);
    forall x
      ensures x in AllEpisodes(env, files, reference) <==>
        exists k :: 0 <= k < |below| && Contributes(env, files, below[k]) && x == EpisodeOf(env, below[k])
    {
      CandidatesExact(env, files, below, x);
    }
  }

  lemma AddAllFromEmpty<T>(c: seq<T>)
    ensures Distinct(AddAll([], c))
    ensures forall x :: x in AddAll([], c) <==> x in c
  {
    AddAllSet([], c);
  }

  /** Two nodes share an episode path only when they share a base name. */
  lemma EpisodeOfInjective(env: Env, a: FileReference, b: FileReference)
    requires EpisodeOf(env, a) == EpisodeOf(env, b)
    ensures NameWithoutExtension(a.file) == NameWithoutExtension(b.file)
  {
    var x, y := NameWithoutExtension(a.file), NameWithoutExtension(b.file);
    var pre := env.outputDir + "/";
    assert EpisodeOf(env, a) == pre + (x + ".episode");
    assert EpisodeOf(env, b) == pre + (y + ".episode");
    CancelAround(pre, x, y, ".episode");
  }

  lemma CancelAround<T>(pre: seq<T>, x: seq<T>, y: seq<T>, suf: seq<T>)
    requires pre + (x + suf) == pre + (y + suf)
    ensures x == y
  {
    assert |x| == |y|;
    assert x == (pre + (x + suf))[|pre|..|pre| + |x|];
    assert y == (pre + (y + suf))[|pre|..|pre| + |y|];
  }

  /** A node's own episode is never among its episodes unless a descendant
      has the same base name (the paths of the two episodes then coincide). */
  lemma OwnEpisodeNotCollected(env: Env, files: FileSystem, reference: FileReference)
    requires forall k :: 0 <= k < |TopDownAll(reference.children)| ==>
      NameWithoutExtension(TopDownAll(reference.children)[k].file) != NameWithoutExtension(reference.file)
    ensures EpisodeOf(env, reference) !in AllEpisodes(env, files, reference)
  {
    var below := TopDownAll(reference.children);
    AllEpisodesContents(env, files, reference);
    forall k | 0 <= k < |below|
      ensures EpisodeOf(env, below[k]) != EpisodeOf(env, reference)
    {
      if EpisodeOf(env, below[k]) == EpisodeOf(env, reference) {
        EpisodeOfInjective(env, below[k], reference);
      }
    }
  }

  // ---------------------------------------------------------------------
  // build

  /** The package build passes on: the caller's, unless file-name versions
      are on and the schema declares a target namespace, in which case the
      namespace's package followed by "." and the version token replaces
      it. Reading the schema fails when the file does not exist. */
  function BuildPackage(lib: Library, opts: BuildOptions, files: FileSystem, reference: FileReference): (r: Result<Option<string>>)
    ensures r.Err? <==> opts.useFilenameVersions && reference.file !in files
    ensures r.Err? ==> r.error == FileNotFound(reference.file)
    ensures r.Ok? && r.value != opts.packageName ==>
      opts.useFilenameVersions && lib.targetNamespace(files[reference.file]).Some?
  {
    if !opts.useFilenameVersions then Ok(opts.packageName)
    else if reference.file !in files then Err(FileNotFound(reference.file))
    else match lib.targetNamespace(files[reference.file])
      case None => Ok(opts.packageName)
      case Some(ns) => Ok(Some(lib.packageOf(ns) + "." + lib.versionOf(reference.file)))
  }

  /** The three cases of the package, and its failure only on a missing
      schema file: without file-name versions the caller's package is used
      unchanged; with them a declared namespace decides the package
      whatever the caller passed; without a namespace the caller's stays. */
  lemma BuildPackageCases(lib: Library, opts: BuildOptions, files: FileSystem, reference: FileReference, other: Option<string>)
    ensures BuildPackage(lib, opts, files, reference).Err? <==> opts.useFilenameVersions && reference.file !in files
    ensures !opts.useFilenameVersions ==> BuildPackage(lib, opts, files, reference) == Ok(opts.packageName)
    ensures opts.useFilenameVersions && reference.file in files ==>
      match lib.targetNamespace(files[reference.file])
      case Some(ns) =>
        && BuildPackage(lib, opts, files, reference) == Ok(Some(lib.packageOf(ns) + "." + lib.versionOf(reference.file)))
        && BuildPackage(lib, opts.(packageName := other), files, reference) == BuildPackage(lib, opts, files, reference)
      case None => BuildPackage(lib, opts, files, reference) == Ok(opts.packageName)
  {
  }

  /** The request build hands to generate: the node's file as the only
      schema, no bindings, the collected episodes, and an episode to be
      created. */
  function BuildRequest(env: Env, opts: BuildOptions, files: FileSystem, reference: FileReference, pkg: Option<string>): Request {
    Request([reference.file], [], AllEpisodes(env, files, reference), opts.catalog, true, opts.flags, pkg)
  }

  /** What build does to the world: it keeps every file and hands at most
      one request to generate, and that only when the episode is missing. */
  function BuildStep(env: Env, xjc: Xjc, lib: Library, opts: BuildOptions, w: World, reference: FileReference): (st: Step)
    ensures w.files.Keys <= st.world.files.Keys
    ensures w.requests <= st.world.requests && |st.world.requests| <= |w.requests| + 1
    ensures st.world.requests != w.requests ==> EpisodeOf(env, reference) !in w.files
  {
    match BuildPackage(lib, opts, w.files, reference)
    case Err(e) => Step(Fail(e), w)
    case Ok(pkg) =>
      if EpisodeOf(env, reference) in w.files then Step(Pass, w)
      else GenerateSpec(env, xjc, w, BuildRequest(env, opts, w.files, reference, pkg))
  }

  /** A node whose episode exists is not compiled: build changes nothing. */
  lemma BuildSkipsBuiltUnit(env: Env, xjc: Xjc, lib: Library, opts: BuildOptions, w: World, reference: FileReference)
    requires EpisodeOf(env, reference) in w.files
    ensures BuildStep(env, xjc, lib, opts, w, reference).world == w
  {
  }

  /** When build compiles, the one request it adds has the node's file as
      its only schema, no bindings, the node's collected episodes and
      createEpisode set, and it is made only when the episode is missing. */
  lemma BuildRequestShape(env: Env, xjc: Xjc, lib: Library, opts: BuildOptions, w: World, reference: FileReference)
    requires |BuildStep(env, xjc, lib, opts, w, reference).world.requests| > |w.requests|
    ensures EpisodeOf(env, reference) !in w.files
    ensures BuildPackage(lib, opts, w.files, reference).Ok?
    ensures var s := BuildStep(env, xjc, lib, opts, w, reference);
      var r := s.world.requests[|w.requests|];
      && s.world.requests == w.requests + [r]
      && r.schemas == [reference.file]
      && r.bindings == []
      && r.episodes == AllEpisodes(env, w.files, reference)
      && r.createEpisode
      && r.packageName == BuildPackage(lib, opts, w.files, reference).value
      && r.catalog == opts.catalog && r.flags == opts.flags
  {
  }

  /** build */
  method Build(env: Env, xjc: Xjc, lib: Library, opts: BuildOptions, w: World, reference: FileReference)
    returns (outcome: Outcome, w': World)
    ensures Step(outcome, w') == BuildStep(env, xjc, lib, opts, w, reference)
  {
    var pkg := opts.packageName;
    if opts.useFilenameVersions {
      var version := lib.versionOf(reference.file);
      if reference.file !in w.files {
        return Fail(FileNotFound(reference.file)), w;
      }
      var namespace := lib.targetNamespace(w.files[reference.file]);
      if namespace.Some? {
        pkg := Some(lib.packageOf(namespace.value) + "." + version);
      }
    }

    var episodes := GetAllEpisodes(env, w.files, reference);
    var schemas := [reference.file];
    var bindings: seq<Path> := [];

    var episode := EpisodeOf(env, reference);
    if episode in w.files {
      return Pass, w;
    } else {
      var binding := BindingOf(reference, opts.bindingFolder, opts.bindingExtension);
      if binding in w.files {
        bindings := bindings + [binding];
      }
    }

    outcome, w' := Generate(env, xjc, w, Request(schemas, [], episodes, opts.catalog, true, opts.flags, pkg));
  }

  // ---------------------------------------------------------------------
  // buildRecursive

  /** What one visit of buildRecursive does: an include is ignored, any
      other node is built. */
  function Visit(env: Env, xjc: Xjc, lib: Library, opts: BuildOptions, w: World, reference: FileReference): Step {
    if reference.kind == Include then Step(Pass, w) else BuildStep(env, xjc, lib, opts, w, reference)
  }

  function VisitAct(env: Env, xjc: Xjc, lib: Library, opts: BuildOptions): (World, FileReference) -> Step {
    (w: World, n: FileReference) => Visit(env, xjc, lib, opts, w, n)
  }

  function BuildAct(env: Env, xjc: Xjc, lib: Library, opts: BuildOptions): (World, FileReference) -> Step {
    (w: World, n: FileReference) => BuildStep(env, xjc, lib, opts, w, n)
  }

  /** The nodes that are not includes, in order. */
  function NonIncludes(nodes: seq<FileReference>): (r: seq<FileReference>)
    ensures forall x :: x in r <==> x in nodes && x.kind != Include
    ensures forall i :: 0 <= i < |r| ==> r[i].kind != Include
    ensures multiset(r) <= multiset(nodes)
  {
    if nodes == [] then []
    else
      var front := nodes[..|nodes| - 1];
      var last := nodes[|nodes| - 1];
      FrontLast(nodes);
      if last.kind == Include then NonIncludes(front) else NonIncludes(front) + [last]
  }

  /** buildRecursive, as the source promises it: build on every node that
      is not an include, once each, in bottom-up order, until one fails. */
  function BuildRecursiveSpec(env: Env, xjc: Xjc, lib: Library, opts: BuildOptions, w: World, root: FileReference): (st: Step)
    ensures w.files.Keys <= st.world.files.Keys
    ensures w.requests <= st.world.requests
    ensures |st.world.requests| <= |w.requests| + |NonIncludes(BottomUp(root))|
  {
    BuildActGrowth(env, xjc, lib, opts);
    RunAllGrowth(w, NonIncludes(BottomUp(root)), BuildAct(env, xjc, lib, opts));
    RunAll(w, NonIncludes(BottomUp(root)), BuildAct(env, xjc, lib, opts))
  }

  lemma BuildActGrowth(env: Env, xjc: Xjc, lib: Library, opts: BuildOptions)
    ensures forall v: World, x: FileReference ::
      && v.files.Keys <= BuildAct(env, xjc, lib, opts)(v, x).world.files.Keys
      && v.requests <= BuildAct(env, xjc, lib, opts)(v, x).world.requests
      && |BuildAct(env, xjc, lib, opts)(v, x).world.requests| <= |v.requests| + 1
  {
  }

  /** Visiting every node and ignoring the includes is building the
      non-includes in the same order. */
  lemma {:induction false} VisitsAreBuilds(env: Env, xjc: Xjc, lib: Library, opts: BuildOptions, w: World, nodes: seq<FileReference>)
    ensures RunAll(w, nodes, VisitAct(env, xjc, lib, opts)) == RunAll(w, NonIncludes(nodes), BuildAct(env, xjc, lib, opts))
    decreases |nodes|
  {
    if nodes != [] {
      var front := nodes[..|nodes| - 1];
      var last := nodes[|nodes| - 1];
      VisitsAreBuilds(env, xjc, lib, opts, w, front);
      FrontLast(nodes);
      RunAllSnoc(w, front, last, VisitAct(env, xjc, lib, opts));
      VisitStep(env, xjc, lib, opts, RunAll(w, front, VisitAct(env, xjc, lib, opts)).world, last);
      if last.kind != Include {
        assert NonIncludes(nodes) == NonIncludes(front) + [last];
        RunAllSnoc(w, NonIncludes(front), last, BuildAct(env, xjc, lib, opts));
      } else {
        assert NonIncludes(nodes) == NonIncludes(front);
      }
    }
  }

  lemma VisitStep(env: Env, xjc: Xjc, lib: Library, opts: BuildOptions, v: World, n: FileReference)
    ensures VisitAct(env, xjc, lib, opts)(v, n) ==
      if n.kind == Include then Step(Pass, v) else BuildAct(env, xjc, lib, opts)(v, n)
  {
  }

  lemma BottomUpAllSnoc(cs: seq<FileReference>, i: nat)
    requires i < |cs|
    ensures BottomUpAll(cs[..i + 1]) == BottomUpAll(cs[..i]) + BottomUp(cs[i])
  {
    BottomUpChildBlocks(cs[..i + 1], i);
    assert cs[..i + 1][..i] == cs[..i];
    assert cs[..i + 1][i + 1..] == [];
  }

  /** traverseBottomUp with the visit of buildRecursive as its action. */
  method TraverseBuild(env: Env, xjc: Xjc, lib: Library, opts: BuildOptions, w: World, reference: FileReference)
    returns (outcome: Outcome, w': World)
    ensures Step(outcome, w') == RunAll(w, BottomUp(reference), VisitAct(env, xjc, lib, opts))
    decreases reference
  {
    var act := VisitAct(env, xjc, lib, opts);
    var children := reference.children;
    w' := w;
    for i := 0 to |children|
      invariant RunAll(w, BottomUpAll(children[..i]), act) == Step(Pass, w')
    {
      var o, next := TraverseBuild(env, xjc, lib, opts, w', children[i]);
      ChildStep(w, w', children, i, act);
      if o.Fail? {
        ChildFailureEndsTraversal(w, reference, i, act);
        return o, next;
      }
      w' := next;
    }
    assert children[..|children|] == children;
    var o: Outcome := Pass;
    var next := w';
    if reference.kind != Include {
      o, next := Build(env, xjc, lib, opts, w', reference);
    }
    RunAllSnoc(w, BottomUpAll(children), reference, act);
    return o, next;
  }

  /** A list of subtrees splits into its front and its rest. */
  lemma {:induction false} BottomUpAllSplit(cs: seq<FileReference>, i: nat)
    requires i <= |cs|
    ensures BottomUpAll(cs) == BottomUpAll(cs[..i]) + BottomUpAll(cs[i..])
  {
    if i > 0 {
      BottomUpAllSplit(cs[1..], i - 1);
      assert cs[1..][..i - 1] == cs[1..i];
      assert cs[1..][i - 1..] == cs[i..];
      assert cs[..i][1..] == cs[1..i];
    } else {
      assert cs[i..] == cs;
    }
  }

  lemma ChildStep(w: World, cur: World, cs: seq<FileReference>, i: nat, act: (World, FileReference) -> Step)
    requires i < |cs| && RunAll(w, BottomUpAll(cs[..i]), act) == Step(Pass, cur)
    ensures RunAll(w, BottomUpAll(cs[..i + 1]), act) == RunAll(cur, BottomUp(cs[i]), act)
  {
    BottomUpAllSnoc(cs, i);
    RunAllAppend(w, BottomUpAll(cs[..i]), BottomUp(cs[i]), act);
  }

  /** A failing child subtree ends the traversal of its parent. */
  lemma ChildFailureEndsTraversal(w: World, reference: FileReference, i: nat, act: (World, FileReference) -> Step)
    requires i < |reference.children|
    requires RunAll(w, BottomUpAll(reference.children[..i + 1]), act).outcome.Fail?
    ensures RunAll(w, BottomUp(reference), act) == RunAll(w, BottomUpAll(reference.children[..i + 1]), act)
  {
    var cs := reference.children;
    BottomUpAllSplit(cs, i + 1);
    assert BottomUp(reference) == BottomUpAll(cs[..i + 1]) + (BottomUpAll(cs[i + 1..]) + [reference]);
    RunAllAppend(w, BottomUpAll(cs[..i + 1]), BottomUpAll(cs[i + 1..]) + [reference], act);
  }

  /** buildRecursive */
  method BuildRecursive(env: Env, xjc: Xjc, lib: Library, opts: BuildOptions, w: World, root: FileReference)
    returns (outcome: Outcome, w': World)
    ensures Step(outcome, w') == BuildRecursiveSpec(env, xjc, lib, opts, w, root)
  {
    outcome, w' := TraverseBuild(env, xjc, lib, opts, w, root);
    VisitsAreBuilds(env, xjc, lib, opts, w, BottomUp(root));
  }

  // ---------------------------------------------------------------------
  // Re-running a build

  /** The compiler writes the episode file it is asked for whenever it
      succeeds. */
  ghost predicate WritesEpisode(xjc: Xjc) {
    forall args: seq<string>, fs: FileSystem, i: nat ::
      i + 1 < |args| && args[i] == "-episode" && xjc(args, fs).exitCode == 0 ==> args[i + 1] in xjc(args, fs).written
  }

  /** A unit counts as built once its episode exists and, when file-name
      versions are on, its schema file can be read. */
  ghost predicate Built(env: Env, opts: BuildOptions, files: FileSystem, reference: FileReference) {
    EpisodeOf(env, reference) in files && (opts.useFilenameVersions ==> reference.file in files)
  }

  /** A successful generate that asked for an episode leaves it behind. */
  lemma GenerateLeavesEpisode(env: Env, xjc: Xjc, w: World, req: Request)
    requires WritesEpisode(xjc) && req.createEpisode
    requires GenerateSpec(env, xjc, w, req).outcome.Pass?
    ensures req.schemas != [] && EpisodeFile(env, req.schemas[0]) in GenerateSpec(env, xjc, w, req).world.files
  {
    GenerateContract(env, xjc, w, req);
    XjcArgsLayout(env, req);
    var args := XjcArgs(env, req);
    var n := NewEpisodeAt(req);
    var episode := EpisodeFile(env, req.schemas[0]);
    PairAt(args, n, CatalogAt(req), "-episode", episode);
    var run := xjc(args, w.files);
    assert episode in run.written by {
      assert args[n + 1] in xjc(args, w.files).written;
    }
  }

  lemma PairAt<T>(s: seq<T>, n: nat, m: nat, x: T, y: T)
    requires n <= m <= |s| && s[n..m] == [x, y]
    ensures n + 1 < |s| && s[n] == x && s[n + 1] == y
  {
    assert s[n..m][0] == s[n] && s[n..m][1] == s[n + 1];
  }

  /** A build that passes leaves its unit built and removes no file. */
  lemma BuildStepBuilds(env: Env, xjc: Xjc, lib: Library, opts: BuildOptions, w: World, reference: FileReference)
    requires WritesEpisode(xjc)
    ensures var s := BuildStep(env, xjc, lib, opts, w, reference);
      && w.files.Keys <= s.world.files.Keys
      && (s.outcome.Pass? ==> Built(env, opts, s.world.files, reference))
  {
    var s := BuildStep(env, xjc, lib, opts, w, reference);
    var p := BuildPackage(lib, opts, w.files, reference);
    if p.Ok? && EpisodeOf(env, reference) !in w.files {
      var req := BuildRequest(env, opts, w.files, reference, p.value);
      if s.outcome.Pass? {
        GenerateLeavesEpisode(env, xjc, w, req);
      }
    }
  }

  /** After a run that passes, every unit of the run is built. */
  lemma {:induction false} RunBuildsAll(env: Env, xjc: Xjc, lib: Library, opts: BuildOptions, w: World, nodes: seq<FileReference>)
    requires WritesEpisode(xjc)
    ensures var s := RunAll(w, nodes, BuildAct(env, xjc, lib, opts));
      && w.files.Keys <= s.world.files.Keys
      && (s.outcome.Pass? ==> forall i :: 0 <= i < |nodes| ==> Built(env, opts, s.world.files, nodes[i]))
    decreases |nodes|
  {
    if nodes != [] {
      var front := nodes[..|nodes| - 1];
      var last := nodes[|nodes| - 1];
      RunBuildsAll(env, xjc, lib, opts, w, front);
      var s := RunAll(w, front, BuildAct(env, xjc, lib, opts));
      RunAllSnoc(w, front, last, BuildAct(env, xjc, lib, opts));
      FrontLast(nodes);
      if s.outcome.Pass? {
        var s' := BuildStep(env, xjc, lib, opts, s.world, last);
        BuildStepBuilds(env, xjc, lib, opts, s.world, last);
        BuiltGrows(env, opts, s.world.files, s'.world.files, front);
      }
    }
  }

  /** Built only depends on files being present, so it survives new files. */
  lemma BuiltGrows(env: Env, opts: BuildOptions, f1: FileSystem, f2: FileSystem, nodes: seq<FileReference>)
    requires f1.Keys <= f2.Keys
    requires forall i :: 0 <= i < |nodes| ==> Built(env, opts, f1, nodes[i])
    ensures forall i :: 0 <= i < |nodes| ==> Built(env, opts, f2, nodes[i])
  {
  }

  /** A run over units that are all built compiles nothing and changes nothing. */
  lemma {:induction false} RunOverBuiltIsNoOp(env: Env, xjc: Xjc, lib: Library, opts: BuildOptions, w: World, nodes: seq<FileReference>)
    requires forall i :: 0 <= i < |nodes| ==> Built(env, opts, w.files, nodes[i])
    ensures RunAll(w, nodes, BuildAct(env, xjc, lib, opts)) == Step(Pass, w)
    decreases |nodes|
  {
    if nodes != [] {
      RunOverBuiltIsNoOp(env, xjc, lib, opts, w, nodes[..|nodes| - 1]);
      BuildSkipsBuiltUnit(env, xjc, lib, opts, w, nodes[|nodes| - 1]);
    }
  }

  /** Building a tree a second time, after a first run that passed, makes
      no compiler call and changes nothing, provided the compiler writes
      the episodes it is asked for. */
  lemma RebuildIsNoOp(env: Env, xjc: Xjc, lib: Library, opts: BuildOptions, w: World, root: FileReference)
    requires WritesEpisode(xjc)
    requires BuildRecursiveSpec(env, xjc, lib, opts, w, root).outcome.Pass?
    ensures var w1 := BuildRecursiveSpec(env, xjc, lib, opts, w, root).world;
      BuildRecursiveSpec(env, xjc, lib, opts, w1, root) == Step(Pass, w1)
  {
    var nodes := NonIncludes(BottomUp(root));
    RunBuildsAll(env, xjc, lib, opts, w, nodes);
    RunOverBuiltIsNoOp(env, xjc, lib, opts, BuildRecursiveSpec(env, xjc, lib, opts, w, root).world, nodes);
  }

  // ---------------------------------------------------------------------
  // generateAutoResolve

  /** Index of the first reference for the given file, if any (find). */
  function FindByFile(refs: seq<FileReference>, file: Path): (r: Option<nat>)
    ensures r.None? <==> forall j :: 0 <= j < |refs| ==> refs[j].file != file
    ensures r.Some? ==>
      r.value < |refs| && refs[r.value].file == file && (forall j :: 0 <= j < r.value ==> refs[j].file != file)
  {
    if refs == [] then None
    else if refs[0].file == file then Some(0)
    else match FindByFile(refs[1..], file)
      case None => None
      case Some(i) => Some(i + 1)
  }

  /** generateAutoResolve: the requested schema must be among the references
      the resolver returns, or NoSuchElementException is raised before
      anything is built; otherwise its tree is built with the binding
      extension normalised. */
  function AutoResolveSpec(env: Env, xjc: Xjc, lib: Library, w: World, schema: string, schemaFolder: Option<Path>, opts: BuildOptions): (st: Step)
    ensures w.files.Keys <= st.world.files.Keys && w.requests <= st.world.requests
    ensures var f := Child(schemaFolder, schema);
      var refs := lib.resolve(f, schemaFolder, w.files);
      st.world != w ==> exists j :: 0 <= j < |refs| && refs[j].file == f
  {
    var schemaFile := Child(schemaFolder, schema);
    var allReferences := lib.resolve(schemaFile, schemaFolder, w.files);
    match FindByFile(allReferences, schemaFile)
    case None => Step(Fail(NoSuchElement("Could not find root element (" + schemaFile + ")")), w)
    case Some(i) =>
      BuildRecursiveSpec(env, xjc, lib, opts.(bindingExtension := NormalizeExtension(opts.bindingExtension)), w, allReferences[i])
  }

  /** An unknown root fails with NoSuchElementException and builds nothing. */
  lemma AutoResolveRejectsUnknownRoot(env: Env, xjc: Xjc, lib: Library, w: World, schema: string, schemaFolder: Option<Path>, opts: BuildOptions)
    requires var f := Child(schemaFolder, schema);
      forall j :: 0 <= j < |lib.resolve(f, schemaFolder, w.files)| ==> lib.resolve(f, schemaFolder, w.files)[j].file != f
    ensures var s := AutoResolveSpec(env, xjc, lib, w, schema, schemaFolder, opts);
      s.outcome.Fail? && s.outcome.error.NoSuchElement? && s.world == w
  {
  }

  method GenerateAutoResolve(env: Env, xjc: Xjc, lib: Library, w: World, schema: string, schemaFolder: Option<Path>, opts: BuildOptions)
    returns (outcome: Outcome, w': World)
    ensures Step(outcome, w') == AutoResolveSpec(env, xjc, lib, w, schema, schemaFolder, opts)
  {
    var schemaFile := Child(schemaFolder, schema);
    var allReferences := lib.resolve(schemaFile, schemaFolder, w.files);
    var parent := FindByFile(allReferences, schemaFile);
    if parent.None? {
      return Fail(NoSuchElement("Could not find root element (" + schemaFile + ")")), w;
    }
    var bindingExt := NormalizeExtension(opts.bindingExtension);
    outcome, w' := BuildRecursive(env, xjc, lib, opts.(bindingExtension := bindingExt), w, allReferences[parent.value]);
  }

  // ---------------------------------------------------------------------
  // generateWithDependencies

  /** An iteration order of a map: each key once. */
  ghost predicate Enumerates(order: seq<Path>, keys: set<Path>) {
    Distinct(order) && forall k :: k in order <==> k in keys
  }

  /** The request that compiles one dependency of the map overload: the
      dependency alone, its own bindings, no episodes, an episode to be
      created. */
  function MapPlan(dependencies: map<Path, seq<Path>>, catalog: Option<Path>, flags: Option<seq<Flag>>, packageName: Option<string>): Plan {
    (dep: Path, files: FileSystem) =>
      Request([dep], if dep in dependencies then dependencies[dep] else [], [], catalog, true, flags, packageName)
  }

  /** generateWithDependencies over a dependency map visited in the given
      order: the dependencies with a missing episode are compiled, then the
      schemas are compiled with the episodes of all dependencies. */
  function WithDependenciesSpec(env: Env, xjc: Xjc, w: World, schemas: seq<Path>, bindings: seq<Path>,
                                dependencies: map<Path, seq<Path>>, order: seq<Path>, catalog: Option<Path>,
                                createEpisode: bool, flags: Option<seq<Flag>>, packageName: Option<string>): Step {
    var s := EnsureAll(env, xjc, MapPlan(dependencies, catalog, flags, packageName), w, order);
    if s.outcome.Fail? then s
    else GenerateSpec(env, xjc, s.world, Request(schemas, bindings, EpisodesOf(env, order), catalog, createEpisode, flags, packageName))
  }

  method GenerateWithDependencies(env: Env, xjc: Xjc, w: World, schemas: seq<Path>, bindings: seq<Path>,
                                  dependencies: map<Path, seq<Path>>, order: seq<Path>, catalog: Option<Path>,
                                  createEpisode: bool, flags: Option<seq<Flag>>, packageName: Option<string>)
    returns (outcome: Outcome, w': World)
    requires Enumerates(order, dependencies.Keys)
    ensures Step(outcome, w') == WithDependenciesSpec(env, xjc, w, schemas, bindings, dependencies, order, catalog, createEpisode, flags, packageName)
  {
    var episodes;
    outcome, w', episodes := EnsureEpisodes(env, xjc, MapPlan(dependencies, catalog, flags, packageName), w, order);
    if outcome.Fail? {
      return;
    }
    outcome, w' := Generate(env, xjc, w', Request(schemas, bindings, episodes, catalog, createEpisode, flags, packageName));
  }

  /** When the final call is reached it is the last request, and it passes
      exactly one episode per dependency, in visiting order, after the
      caller's bindings. */
  lemma WithDependenciesFinalCall(env: Env, xjc: Xjc, w: World, schemas: seq<Path>, bindings: seq<Path>,
                                  dependencies: map<Path, seq<Path>>, order: seq<Path>, catalog: Option<Path>,
                                  createEpisode: bool, flags: Option<seq<Flag>>, packageName: Option<string>)
    requires EnsureAll(env, xjc, MapPlan(dependencies, catalog, flags, packageName), w, order).outcome.Pass?
    ensures var s := WithDependenciesSpec(env, xjc, w, schemas, bindings, dependencies, order, catalog, createEpisode, flags, packageName);
      && s.world.requests != []
      && var r := Last(s.world.requests);
      && r.schemas == schemas && r.bindings == bindings && r.createEpisode == createEpisode
      && |r.episodes| == |order|
      && (forall i :: 0 <= i < |order| ==> r.episodes[i] == EpisodeFile(env, order[i]))
  {
    var s := EnsureAll(env, xjc, MapPlan(dependencies, catalog, flags, packageName), w, order);
    var req := Request(schemas, bindings, EpisodesOf(env, order), catalog, createEpisode, flags, packageName);
    GenerateContract(env, xjc, s.world, req);
    LastSnoc(s.world.requests, req);
  }

  /** With every dependency's episode present only the final call is made. */
  lemma WithDependenciesAllBuilt(env: Env, xjc: Xjc, w: World, schemas: seq<Path>, bindings: seq<Path>,
                                 dependencies: map<Path, seq<Path>>, order: seq<Path>, catalog: Option<Path>,
                                 createEpisode: bool, flags: Option<seq<Flag>>, packageName: Option<string>)
    requires forall i :: 0 <= i < |order| ==> EpisodeFile(env, order[i]) in w.files
    ensures WithDependenciesSpec(env, xjc, w, schemas, bindings, dependencies, order, catalog, createEpisode, flags, packageName)
      == GenerateSpec(env, xjc, w, Request(schemas, bindings, EpisodesOf(env, order), catalog, createEpisode, flags, packageName))
  {
    EnsureAllBuiltIsNoOp(env, xjc, MapPlan(dependencies, catalog, flags, packageName), w, order);
  }

  /** The overload taking dependency names: schema and dependencies are
      resolved against the schema folder, each gets the <base><ext> binding
      when it exists, and the map is visited in the given order. */
  method GenerateWithDependencyNames(env: Env, xjc: Xjc, w: World, schema: string, names: seq<string>,
                                     schemaFolder: Option<Path>, bindingFolder: Option<Path>, bindingExtension: string,
                                     catalog: Option<Path>, createEpisode: bool, flags: Option<seq<Flag>>,
                                     packageName: Option<string>, order: seq<Path>)
    returns (outcome: Outcome, w': World)
    requires Enumerates(order, DependencyKeys(schemaFolder, names))
    ensures var ext := NormalizeExtension(bindingExtension);
      var schemaFile := Child(schemaFolder, schema);
      Step(outcome, w') == WithDependenciesSpec(env, xjc, w, [schemaFile], SchemaBindings(w.files, bindingFolder, ext, schemaFile),
        DependencyMap(w.files, schemaFolder, bindingFolder, ext, names), order, catalog, createEpisode, flags, packageName)
  {
    var schemas := [Child(schemaFolder, schema)];
    var bindingExt := NormalizeExtension(bindingExtension);
    var bindings := SchemaBindings(w.files, bindingFolder, bindingExt, schemas[0]);
    var dependencyMap := BuildDependencyMap(w.files, schemaFolder, bindingFolder, bindingExt, names);
    MapOfShape(names, SchemaOf(schemaFolder), BindingsOf(w.files, bindingFolder, bindingExt));
    outcome, w' := GenerateWithDependencies(env, xjc, w, schemas, bindings, dependencyMap, order, catalog, createEpisode, flags, packageName);
  }
}
