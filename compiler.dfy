/** One call of the XJC compiler as the generator makes it: generate checks
    its inputs, assembles the flat argument list, runs the compiler and
    turns a nonzero exit into an XsdCompileException carrying the error
    blocks parsed from the compiler's error stream (generate, parseStatus
    and parseErrors; the generator module and the instance generator hold
    the same code). */
module Compiler {
  import opened Wrappers
  import opened Text
  import opened Paths
  import opened Flags
  import opened Args

  /** The generator instance: its output directory and charset name. */
  datatype Env = Env(outputDir: Path, encoding: string)

  /** What one run of XJC yields: exit code, the two text streams, and the
      files it wrote (partial output is kept whatever the exit code). */
  datatype XjcRun = XjcRun(exitCode: int, status: string, stderr: string, written: FileSystem)

  /** Driver.run, a black box: a function of the arguments and the files. */
  type Xjc = (seq<string>, FileSystem) -> XjcRun

  /** The parameters of one call of generate. */
  datatype Request = Request(
    schemas: seq<Path>,
    bindings: seq<Path>,
    episodes: seq<Path>,
    catalog: Option<Path>,
    createEpisode: bool,
    flags: Option<seq<Flag>>,
    packageName: Option<string>)

  /** What the generator has done to the world so far: the files, every
      request handed to generate, and every argument list handed to XJC. */
  datatype World = World(files: FileSystem, requests: seq<Request>, invocations: seq<seq<string>>)

  datatype Step = Step(outcome: Outcome, world: World)

  /** outputDir/<base>.episode, the episode XJC writes for a schema. */
  function EpisodeFile(env: Env, schema: Path): Path {
    Child(Some(env.outputDir), NameWithoutExtension(schema) + ".episode")
  }

  /** Index of the first path that does not exist, if any. */
  function FirstMissing(files: FileSystem, paths: seq<Path>): (r: Option<nat>)
    ensures r.None? <==> forall j :: 0 <= j < |paths| ==> paths[j] in files
    ensures r.Some? ==>
      r.value < |paths| && paths[r.value] !in files && (forall j :: 0 <= j < r.value ==> paths[j] in files)
  {
    if paths == [] then None
    else if paths[0] !in files then Some(0)
    else match FirstMissing(files, paths[1..])
      case None => None
      case Some(i) => Some(i + 1)
  }

  lemma {:induction false} FirstMissingAt(files: FileSystem, paths: seq<Path>, i: nat)
    requires i < |paths| && paths[i] !in files
    requires forall j :: 0 <= j < i ==> paths[j] in files
    ensures FirstMissing(files, paths) == Some(i)
  {
    if i > 0 {
      FirstMissingAt(files, paths[1..], i - 1);
    }
  }

  /** The NoSuchElementException generate raises before running XJC, in the
      order of its checks: no schema, a missing schema, binding, episode or
      catalog. */
  function MissingInput(files: FileSystem, req: Request): (e: Option<GeneratorError>)
    ensures e.Some? ==> e.value.NoSuchElement?
    ensures e.None? <==>
      && req.schemas != []
      && (forall j :: 0 <= j < |req.schemas| ==> req.schemas[j] in files)
      && (forall j :: 0 <= j < |req.bindings| ==> req.bindings[j] in files)
      && (forall j :: 0 <= j < |req.episodes| ==> req.episodes[j] in files)
      && (req.catalog.Some? ==> req.catalog.value in files)
  {
    if req.schemas == [] then Some(NoSuchElement("Schemas must be not be empty"))
    else match FirstMissing(files, req.schemas)
      case Some(i) => Some(NoSuchElement("Schema " + req.schemas[i] + " does not exist"))
      case None =>
        match FirstMissing(files, req.bindings)
        case Some(i) => Some(NoSuchElement("Binding " + req.bindings[i] + " does not exist"))
        case None =>
          match FirstMissing(files, req.episodes)
          case Some(i) => Some(NoSuchElement("Episode " + req.episodes[i] + " does not exist"))
          case None =>
            if req.catalog.Some? && req.catalog.value !in files
            then Some(NoSuchElement("Catalog " + req.catalog.value + " does not exist"))
            else None
  }

  /** The flags used: the caller's, or DEFAULTS when there are none. */
  function FlagsOrDefaults(flags: Option<seq<Flag>>): seq<Flag> {
    if flags.Some? then flags.value else Defaults
  }

  /** `-b <path>` for every path, in order. */
  function BindTokens(paths: seq<Path>): (ts: seq<string>)
    ensures |ts| == 2 * |paths|
    ensures forall j :: 0 <= j < |paths| ==> ts[2 * j] == "-b" && ts[2 * j + 1] == paths[j]
  {
    if paths == [] then []
    else BindTokens(paths[..|paths| - 1]) + ["-b", paths[|paths| - 1]]
  }

  function OptionTokens(key: string, value: Option<string>): seq<string> {
    if value.Some? then [key, value.value] else []
  }

  /** The argument list generate hands to XJC, group by group. */
  function ArgsHead(env: Env, req: Request): seq<string> {
    ["-d", env.outputDir, "-encoding", env.encoding]
  }

  function ArgsThroughFlags(env: Env, req: Request): seq<string> {
    ArgsHead(env, req) + Tokens(FlagsOrDefaults(req.flags))
  }

  function ArgsThroughPackage(env: Env, req: Request): seq<string> {
    ArgsThroughFlags(env, req) + OptionTokens("-p", req.packageName)
  }

  function ArgsThroughBindings(env: Env, req: Request): seq<string> {
    ArgsThroughPackage(env, req) + BindTokens(req.bindings)
  }

  function ArgsThroughEpisodes(env: Env, req: Request): seq<string> {
    ArgsThroughBindings(env, req) + BindTokens(req.episodes)
  }

  function ArgsThroughNewEpisode(env: Env, req: Request): seq<string>
    requires req.schemas != []
  {
    ArgsThroughEpisodes(env, req) +
      (if req.createEpisode then ["-episode", EpisodeFile(env, req.schemas[0])] else [])
  }

  function ArgsThroughCatalog(env: Env, req: Request): seq<string>
    requires req.schemas != []
  {
    ArgsThroughNewEpisode(env, req) + OptionTokens("-catalog", req.catalog)
  }

  /** The whole list: the schema paths are always the last tokens. */
  function XjcArgs(env: Env, req: Request): seq<string>
    requires req.schemas != []
  {
    ArgsThroughCatalog(env, req) + req.schemas
  }

  /** Where each group of XjcArgs starts. */
  function PackageAt(req: Request): nat {
    4 + |FlagsOrDefaults(req.flags)|
  }

  function BindingsAt(req: Request): nat {
    PackageAt(req) + (if req.packageName.Some? then 2 else 0)
  }

  function EpisodesAt(req: Request): nat {
    BindingsAt(req) + 2 * |req.bindings|
  }

  function NewEpisodeAt(req: Request): nat {
    EpisodesAt(req) + 2 * |req.episodes|
  }

  function CatalogAt(req: Request): nat {
    NewEpisodeAt(req) + (if req.createEpisode then 2 else 0)
  }

  function SchemasAt(req: Request): nat {
    CatalogAt(req) + (if req.catalog.Some? then 2 else 0)
  }

  /** The order of the argument groups: `-d out -encoding enc`, the flag
      tokens (DEFAULTS when no flags are given), `-p pkg` only for a
      package, `-b` for every binding and then every episode, `-episode`
      only when one is to be created, `-catalog` only for a catalog, and
      the schemas last. */
  lemma XjcArgsLayout(env: Env, req: Request)
    requires req.schemas != []
    ensures |XjcArgs(env, req)| == SchemasAt(req) + |req.schemas|
    ensures XjcArgs(env, req)[..4] == ["-d", env.outputDir, "-encoding", env.encoding]
    ensures XjcArgs(env, req)[4..PackageAt(req)] == Tokens(FlagsOrDefaults(req.flags))
    ensures req.flags.None? ==> XjcArgs(env, req)[4..PackageAt(req)] == ["-extension", "-XautoNameResolution"]
    ensures req.packageName.Some? ==>
      XjcArgs(env, req)[PackageAt(req)..BindingsAt(req)] == ["-p", req.packageName.value]
    ensures XjcArgs(env, req)[BindingsAt(req)..EpisodesAt(req)] == BindTokens(req.bindings)
    ensures XjcArgs(env, req)[EpisodesAt(req)..NewEpisodeAt(req)] == BindTokens(req.episodes)
    ensures req.createEpisode ==>
      XjcArgs(env, req)[NewEpisodeAt(req)..CatalogAt(req)] == ["-episode", EpisodeFile(env, req.schemas[0])]
    ensures req.catalog.Some? ==>
      XjcArgs(env, req)[CatalogAt(req)..SchemasAt(req)] == ["-catalog", req.catalog.value]
    ensures XjcArgs(env, req)[SchemasAt(req)..] == req.schemas
  {
    DefaultTokens();
    var args := XjcArgs(env, req);
    var g7 := ArgsThroughCatalog(env, req);
    var g6 := ArgsThroughNewEpisode(env, req);
    var g5 := ArgsThroughEpisodes(env, req);
    var g4 := ArgsThroughBindings(env, req);
    var g3 := ArgsThroughPackage(env, req);
    var g2 := ArgsThroughFlags(env, req);
    var g1 := ArgsHead(env, req);
    assert |g1| == 4;
    assert |g2| == PackageAt(req);
    assert |g3| == BindingsAt(req);
    assert |g4| == EpisodesAt(req);
    assert |g5| == NewEpisodeAt(req);
    assert |g6| == CatalogAt(req);
    assert |g7| == SchemasAt(req);
    Group(args, g7, req.schemas, args);
    Group(g7, g6, OptionTokens("-catalog", req.catalog), args);
    Group(g6, g5, if req.createEpisode then ["-episode", EpisodeFile(env, req.schemas[0])] else [], args);
    Group(g5, g4, BindTokens(req.episodes), args);
    Group(g4, g3, BindTokens(req.bindings), args);
    Group(g3, g2, OptionTokens("-p", req.packageName), args);
    Group(g2, g1, Tokens(FlagsOrDefaults(req.flags)), args);
  }

  /** When prefix + group is a prefix of args, the group is the slice of
      args after the prefix. */
  lemma Group(upTo: seq<string>, prefix: seq<string>, group: seq<string>, args: seq<string>)
    requires upTo == prefix + group && upTo <= args
    ensures prefix <= args
    ensures args[|prefix|..|upTo|] == group
  {
    assert args[..|upTo|] == upTo;
    assert upTo[|prefix|..] == group;
  }

  // ---------------------------------------------------------------------
  // The compiler's text streams.

  /** split("\n").filter { it.isNotBlank() } */
  function Lines(text: string): (lines: seq<string>)
    ensures forall i :: 0 <= i < |lines| ==> !IsBlank(lines[i]) && '\n' !in lines[i]
    ensures forall x :: x in lines <==> x in Split(text, '\n') && !IsBlank(x)
  {
    NonBlank(Split(text, '\n'))
  }

  /** parseStatus: the non-blank lines of the status stream, in order;
      every line of the stream that is not blank is among them. */
  function ParseStatus(statusText: string): (lines: seq<string>)
    ensures forall i :: 0 <= i < |lines| ==> !IsBlank(lines[i]) && '\n' !in lines[i]
    ensures forall x :: x in Split(statusText, '\n') && !IsBlank(x) ==> x in lines
  {
    Lines(statusText)
  }

  /** A line that opens an error block. */
  predicate IsMarker(line: string) {
    StartsWith(line, "[ERROR] ")
  }

  /** What one continuation line adds to a block: a newline and the line trimmed. */
  function Piece(line: string): string {
    "\n" + Trim(line)
  }

  /** What continuation lines add to a block, in order. */
  function Continuation(lines: seq<string>): string {
    if lines == [] then ""
    else Continuation(lines[..|lines| - 1]) + Piece(lines[|lines| - 1])
  }

  /** Index of the last marker line, if any. */
  function LastMarker(lines: seq<string>): (r: Option<nat>)
    ensures r.None? ==> forall j :: 0 <= j < |lines| ==> !IsMarker(lines[j])
    ensures r.Some? ==>
      r.value < |lines| && IsMarker(lines[r.value]) && (forall j :: r.value < j < |lines| ==> !IsMarker(lines[j]))
  {
    if lines == [] then None
    else if IsMarker(lines[|lines| - 1]) then Some(|lines| - 1)
    else LastMarker(lines[..|lines| - 1])
  }

  /** The error blocks of a list of non-blank lines, described from the
      last marker backwards: the last block is the last marker line without
      its first seven characters followed by the lines after it; the lines
      before the first marker, if any, form one block of their own. */
  function Blocks(lines: seq<string>): seq<string>
    decreases |lines|
  {
    if lines == [] then []
    else match LastMarker(lines)
      case None => [Continuation(lines)]
      case Some(k) => Blocks(lines[..k]) + [lines[k][7..] + Continuation(lines[k + 1..])]
  }

  /** The error blocks of the compiler's error stream: one per `[ERROR] `
      line, plus one for the lines before the first such line. */
  function ErrorBlocks(errorText: string): (blocks: seq<string>)
    ensures var lines := Lines(errorText);
      |blocks| == MarkerCount(lines) + (if lines != [] && !IsMarker(lines[0]) then 1 else 0)
  {
    BlockCount(Lines(errorText));
    Blocks(Lines(errorText))
  }

  /** Number of marker lines. */
  function MarkerCount(lines: seq<string>): nat {
    if lines == [] then 0
    else MarkerCount(lines[..|lines| - 1]) + (if IsMarker(lines[|lines| - 1]) then 1 else 0)
  }

  lemma {:induction false} MarkerCountNoMarkers(lines: seq<string>)
    requires forall j :: 0 <= j < |lines| ==> !IsMarker(lines[j])
    ensures MarkerCount(lines) == 0
  {
    if lines != [] {
      MarkerCountNoMarkers(lines[..|lines| - 1]);
    }
  }

  lemma {:induction false} MarkerCountAfterLast(lines: seq<string>, k: nat)
    requires k < |lines| && IsMarker(lines[k])
    requires forall j :: k < j < |lines| ==> !IsMarker(lines[j])
    ensures MarkerCount(lines) == MarkerCount(lines[..k]) + 1
    decreases |lines|
  {
    if k < |lines| - 1 {
      MarkerCountAfterLast(lines[..|lines| - 1], k);
      assert lines[..|lines| - 1][..k] == lines[..k];
    } else {
      assert lines[..|lines| - 1] == lines[..k];
    }
  }

  /** One block per marker line, plus one when the first line is not a
      marker. */
  lemma {:induction false} BlockCount(lines: seq<string>)
    ensures |Blocks(lines)| == MarkerCount(lines) + (if lines != [] && !IsMarker(lines[0]) then 1 else 0)
    decreases |lines|
  {
    if lines != [] {
      match LastMarker(lines)
      case None =>
        MarkerCountNoMarkers(lines);
      case Some(k) =>
        BlockCount(lines[..k]);
        MarkerCountAfterLast(lines, k);
        if k > 0 {
          assert lines[..k][0] == lines[0];
        }
    }
  }

  lemma BlankPiecesOfBlank(s: string, c: char)
    requires IsBlank(s)
    ensures forall i :: 0 <= i < |Split(s, c)| ==> IsBlank(Split(s, c)[i])
    decreases |s|
  {
    if s != [] {
      BlankPiecesOfBlank(s[1..], c);
    }
  }

  lemma {:induction false} NonBlankOfBlanks(parts: seq<string>)
    requires forall i :: 0 <= i < |parts| ==> IsBlank(parts[i])
    ensures NonBlank(parts) == []
  {
    if parts != [] {
      NonBlankOfBlanks(parts[1..]);
    }
  }

  /** Blank text has no error blocks. */
  lemma BlankTextHasNoErrors(errorText: string)
    requires IsBlank(errorText)
    ensures ErrorBlocks(errorText) == []
  {
    BlankPiecesOfBlank(errorText, '\n');
    NonBlankOfBlanks(Split(errorText, '\n'));
  }

  lemma Associative<T>(a: seq<T>, b: seq<T>, c: seq<T>)
    ensures a + (b + c) == a + b + c
  {
  }

  lemma ContinuationSnoc(lines: seq<string>, x: string)
    ensures Continuation(lines + [x]) == Continuation(lines) + Piece(x)
  {
    assert (lines + [x])[..|lines|] == lines;
  }

  /** A marker line closes the current block and opens a new one. */
  lemma BlocksAfterMarker(lines: seq<string>, x: string)
    requires IsMarker(x)
    ensures Blocks(lines + [x]) == Blocks(lines) + [x[7..]]
  {
    var l := lines + [x];
    assert l[|lines|] == x;
    assert LastMarker(l) == Some(|lines|);
    assert l[..|lines|] == lines;
    assert l[|lines| + 1..] == [];
    assert Continuation(l[|lines| + 1..]) == "";
    assert Blocks(l) == Blocks(lines) + [x[7..] + ""];
    assert x[7..] + "" == x[7..];
  }

  lemma {:induction false} LastMarkerAfterLine(lines: seq<string>, x: string)
    requires !IsMarker(x)
    ensures LastMarker(lines + [x]) == LastMarker(lines)
  {
    assert (lines + [x])[..|lines|] == lines;
  }

  /** Any other line is appended, trimmed, to the last block (to an
      initial empty block when there is none yet). */
  lemma BlocksAfterLine(lines: seq<string>, x: string)
    requires !IsMarker(x)
    ensures lines == [] ==> Blocks(lines + [x]) == [Piece(x)]
    ensures lines != [] ==>
      var b := Blocks(lines);
      |b| > 0 && Blocks(lines + [x]) == b[..|b| - 1] + [b[|b| - 1] + Piece(x)]
  {
    LastMarkerAfterLine(lines, x);
    ContinuationSnoc(lines, x);
    if LastMarker(lines).Some? {
      BlocksAfterLineInLastBlock(lines, x, LastMarker(lines).value);
    } else if lines == [] {
      var l := lines + [x];
      assert l == [x];
      assert LastMarker(l).None?;
      assert Blocks(l) == [Continuation(l)];
      assert Continuation(l) == [] + Piece(x);
      assert [] + Piece(x) == Piece(x);
    }
  }

  lemma BlocksAfterLineInLastBlock(lines: seq<string>, x: string, k: nat)
    requires !IsMarker(x)
    requires LastMarker(lines) == Some(k) && LastMarker(lines + [x]) == Some(k)
    ensures var b := Blocks(lines);
      |b| > 0 && Blocks(lines + [x]) == b[..|b| - 1] + [b[|b| - 1] + Piece(x)]
  {
    var l := lines + [x];
    var tail := lines[k + 1..];
    LastBlock(lines, k);
    LastBlockSnoc(lines, x, k);
    ContinuationSnoc(tail, x);
    ExtendLast(Blocks(lines), Blocks(l), Blocks(lines[..k]), lines[k][7..], Continuation(tail), Piece(x));
  }

  lemma LastBlockSnoc(lines: seq<string>, x: string, k: nat)
    requires k < |lines| && IsMarker(lines[k]) && LastMarker(lines + [x]) == Some(k)
    ensures var b := Blocks(lines + [x]);
      |b| > 0 && b[..|b| - 1] == Blocks(lines[..k]) && b[|b| - 1] == lines[k][7..] + Continuation(lines[k + 1..] + [x])
  {
    var l := lines + [x];
    LastBlock(l, k);
    SnocSlices(lines, x, k);
  }

  lemma SnocSlices<T>(a: seq<T>, x: T, k: nat)
    requires k < |a|
    ensures (a + [x])[..k] == a[..k] && (a + [x])[k] == a[k] && (a + [x])[k + 1..] == a[k + 1..] + [x]
  {
  }

  lemma ExtendLast<T>(b: seq<seq<T>>, b': seq<seq<T>>, front: seq<seq<T>>, h: seq<T>, c: seq<T>, p: seq<T>)
    requires |b| > 0 && b[..|b| - 1] == front && b[|b| - 1] == h + c
    requires |b'| > 0 && b'[..|b'| - 1] == front && b'[|b'| - 1] == h + (c + p)
    ensures b' == b[..|b| - 1] + [b[|b| - 1] + p]
  {
    assert b' == b'[..|b'| - 1] + [b'[|b'| - 1]];
    Associative(h, c, p);
  }

  /** The last block starts at the last marker. */
  lemma LastBlock(lines: seq<string>, k: nat)
    requires LastMarker(lines) == Some(k)
    ensures var b := Blocks(lines);
      |b| > 0 && b[..|b| - 1] == Blocks(lines[..k]) && b[|b| - 1] == lines[k][7..] + Continuation(lines[k + 1..])
  {
    var b := Blocks(lines);
    assert b == Blocks(lines[..k]) + [lines[k][7..] + Continuation(lines[k + 1..])];
  }

  /** One line more: a marker closes the open block and opens its own, any
      other line extends the open block. */
  lemma BlocksStep(prefix: seq<string>, line: string, errors: seq<string>, builder: string)
    requires prefix == [] ==> errors == [] && builder == ""
    requires prefix != [] ==> errors + [builder] == Blocks(prefix)
    ensures IsMarker(line) ==>
      (if prefix != [] then errors + [builder] else errors) + [line[7..]] == Blocks(prefix + [line])
    ensures !IsMarker(line) ==> errors + [builder + Piece(line)] == Blocks(prefix + [line])
  {
    if IsMarker(line) {
      BlocksAfterMarker(prefix, line);
    } else {
      BlocksAfterLine(prefix, line);
      if prefix == [] {
        assert builder + Piece(line) == Piece(line);
      } else {
        var b := Blocks(prefix);
        assert b[..|b| - 1] == errors && b[|b| - 1] == builder;
      }
    }
  }

  /** parseErrors: groups the non-blank lines of the error stream into
      blocks, a new block at every marker line. */
  method ParseErrors(errorText: string) returns (errors: seq<string>)
    ensures errors == ErrorBlocks(errorText)
  {
    errors := [];
    var splits := Lines(errorText);
    if |splits| > 0 {
      var builder := "";
      for i := 0 to |splits|
        invariant i == 0 ==> errors == [] && builder == ""
        invariant i > 0 ==> errors + [builder] == Blocks(splits[..i])
      {
        var line := splits[i];
        TakeSnoc(splits, i);
        ghost var before, built := errors, builder;
        if IsMarker(line) {
          if i > 0 {
            errors := errors + [builder];
          }
          builder := line[7..];
        } else {
          builder := builder + Piece(line);
        }
        BlocksStep(splits[..i], line, before, built);
      }
      assert splits[..|splits|] == splits;
      errors := errors + [builder];
    }
  }

  // ---------------------------------------------------------------------
  // generate

  /** What generate does: a request with a missing input is rejected with
      NoSuchElementException before XJC runs; otherwise XJC runs on
      XjcArgs, its written files are kept, and a nonzero exit becomes an
      XsdCompileException with the parsed error blocks. */
  function GenerateSpec(env: Env, xjc: Xjc, w: World, req: Request): (st: Step)
    ensures st.world.requests == w.requests + [req]
    ensures w.files.Keys <= st.world.files.Keys
    ensures st.world.invocations == w.invocations ||
      (MissingInput(w.files, req).None? && st.world.invocations == w.invocations + [XjcArgs(env, req)])
    ensures st.outcome.Pass? ==> MissingInput(w.files, req).None?
  {
    var handed := w.(requests := w.requests + [req]);
    match MissingInput(w.files, req)
    case Some(e) => Step(Fail(e), handed)
    case None =>
      var args := XjcArgs(env, req);
      var run := xjc(args, w.files);
      var after := handed.(files := w.files + run.written, invocations := w.invocations + [args]);
      if run.exitCode != 0 then Step(Fail(XsdCompile(run.exitCode, ErrorBlocks(run.stderr))), after)
      else Step(Pass, after)
  }

  /** A request with a missing input never reaches XJC: it fails with
      NoSuchElementException and changes no file. A complete request runs
      XJC exactly once and succeeds exactly when the exit code is 0. */
  lemma GenerateContract(env: Env, xjc: Xjc, w: World, req: Request)
    ensures var st := GenerateSpec(env, xjc, w, req);
      && st.world.requests == w.requests + [req]
      && (MissingInput(w.files, req).Some? <==> st.world.invocations == w.invocations)
      && (MissingInput(w.files, req).Some? ==>
            st.outcome == Fail(MissingInput(w.files, req).value) && st.world.files == w.files)
      && (MissingInput(w.files, req).None? ==>
            var args := XjcArgs(env, req);
            var run := xjc(args, w.files);
            && st.world.invocations == w.invocations + [args]
            && st.world.files == w.files + run.written
            && (st.outcome.Pass? <==> run.exitCode == 0)
            && (st.outcome.Fail? ==> st.outcome.error == XsdCompile(run.exitCode, ErrorBlocks(run.stderr))))
  {
    var st := GenerateSpec(env, xjc, w, req);
    if MissingInput(w.files, req).None? {
      assert |st.world.invocations| == |w.invocations| + 1;
    }
  }

  /** The existence checks over a list of files, first missing one first. */
  method FindMissing(files: FileSystem, paths: seq<Path>) returns (missing: Option<nat>)
    ensures missing == FirstMissing(files, paths)
  {
    for i := 0 to |paths|
      invariant forall j :: 0 <= j < i ==> paths[j] in files
    {
      if paths[i] !in files {
        FirstMissingAt(files, paths, i);
        return Some(i);
      }
    }
    return None;
  }

  /** The flags loop: one token per flag. */
  method AddFlags(args: Arguments, flags: seq<Flag>)
    modifies args
    ensures args.argsList == old(args.argsList) + Tokens(flags)
  {
    ghost var before := args.argsList;
    for i := 0 to |flags|
      invariant args.argsList == before + Tokens(flags[..i])
    {
      var o := args.Add(Value(flags[i]), None);
      assert o.Pass?;
      assert flags[..i + 1][..i] == flags[..i];
    }
    assert flags[..|flags|] == flags;
  }

  /** The bindings and episodes loops: `-b <path>` for each file up to the
      first one that does not exist. */
  method AddBindings(args: Arguments, files: FileSystem, paths: seq<Path>) returns (missing: Option<nat>)
    modifies args
    ensures missing == FirstMissing(files, paths)
    ensures missing.None? ==> args.argsList == old(args.argsList) + BindTokens(paths)
  {
    ghost var before := args.argsList;
    for i := 0 to |paths|
      invariant forall j :: 0 <= j < i ==> paths[j] in files
      invariant args.argsList == before + BindTokens(paths[..i])
    {
      var path := paths[i];
      if path !in files {
        FirstMissingAt(files, paths, i);
        return Some(i);
      }
      var o := args.Add("-b", Some(path));
      assert o.Pass?;
      assert paths[..i + 1][..i] == paths[..i];
    }
    assert paths[..|paths|] == paths;
    return None;
  }

  /** The schema files, last. */
  method AddSchemas(args: Arguments, schemas: seq<Path>)
    modifies args
    ensures args.argsList == old(args.argsList) + schemas
  {
    ghost var before := args.argsList;
    for i := 0 to |schemas|
      invariant args.argsList == before + schemas[..i]
    {
      args.AddValue(schemas[i]);
      TakeSnoc(schemas, i);
    }
    assert schemas[..|schemas|] == schemas;
  }

  /** Checks the inputs and assembles the argument list: the list, or the
      NoSuchElementException of the first missing input. */
  method BuildArgs(env: Env, files: FileSystem, req: Request) returns (r: Result<seq<string>>)
    ensures MissingInput(files, req).Some? ==> r == Err(MissingInput(files, req).value)
    ensures MissingInput(files, req).None? ==> r == Ok(XjcArgs(env, req))
  {
    if |req.schemas| == 0 {
      return Err(NoSuchElement("Schemas must be not be empty"));
    }
    var missing := FindMissing(files, req.schemas);
    if missing.Some? {
      return Err(NoSuchElement("Schema " + req.schemas[missing.value] + " does not exist"));
    }

    var args := new Arguments();
    var o := args.Add("-d", Some(env.outputDir));
    assert o.Pass?;
    o := args.Add("-encoding", Some(env.encoding));
    assert o.Pass? && args.argsList == ArgsHead(env, req);
    AddFlags(args, FlagsOrDefaults(req.flags));
    if req.packageName.Some? {
      o := args.Add("-p", req.packageName);
      assert o.Pass?;
    }
    assert args.argsList == ArgsThroughPackage(env, req);

    r := AddInputs(env, files, req, args);
  }

  /** The second half of the argument list, from the bindings on, for a
      request whose schemas all exist. */
  method AddInputs(env: Env, files: FileSystem, req: Request, args: Arguments) returns (r: Result<seq<string>>)
    requires req.schemas != [] && FirstMissing(files, req.schemas).None?
    requires args.argsList == ArgsThroughPackage(env, req)
    modifies args
    ensures MissingInput(files, req).Some? ==> r == Err(MissingInput(files, req).value)
    ensures MissingInput(files, req).None? ==> r == Ok(XjcArgs(env, req))
  {
    var missing := AddBindings(args, files, req.bindings);
    if missing.Some? {
      return Err(NoSuchElement("Binding " + req.bindings[missing.value] + " does not exist"));
    }
    missing := AddBindings(args, files, req.episodes);
    if missing.Some? {
      return Err(NoSuchElement("Episode " + req.episodes[missing.value] + " does not exist"));
    }
    r := AddOutputs(env, files, req, args);
  }

  /** The rest of the argument list, from the new episode on, once every
      schema, binding and episode exists. */
  method AddOutputs(env: Env, files: FileSystem, req: Request, args: Arguments) returns (r: Result<seq<string>>)
    requires req.schemas != [] && FirstMissing(files, req.schemas).None?
    requires FirstMissing(files, req.bindings).None? && FirstMissing(files, req.episodes).None?
    requires args.argsList == ArgsThroughEpisodes(env, req)
    modifies args
    ensures MissingInput(files, req).Some? ==> r == Err(MissingInput(files, req).value)
    ensures MissingInput(files, req).None? ==> r == Ok(XjcArgs(env, req))
  {
    if req.createEpisode {
      var episode := EpisodeFile(env, req.schemas[0]);
      var o := args.Add("-episode", Some(episode));
      assert o.Pass?;
    }
    assert args.argsList == ArgsThroughNewEpisode(env, req);

    if req.catalog.Some? {
      if req.catalog.value !in files {
        return Err(NoSuchElement("Catalog " + req.catalog.value + " does not exist"));
      }
      var o := args.Add("-catalog", req.catalog);
      assert o.Pass?;
    }
    assert args.argsList == ArgsThroughCatalog(env, req);

    AddSchemas(args, req.schemas);
    var argv := args.GetArgs();
    return Ok(argv);
  }

  /** generate: checks and assembles the arguments, runs XJC, keeps what
      it wrote and reports a nonzero exit with the parsed error blocks. */
  method Generate(env: Env, xjc: Xjc, w: World, req: Request) returns (outcome: Outcome, w': World)
    ensures Step(outcome, w') == GenerateSpec(env, xjc, w, req)
  {
    w' := w.(requests := w.requests + [req]);
    var argv := BuildArgs(env, w.files, req);
    if argv.Err? {
      return Fail(argv.error), w';
    }
    var run := xjc(argv.value, w.files);
    w' := w'.(files := w.files + run.written, invocations := w.invocations + [argv.value]);
    var errors := ParseErrors(run.stderr);
    if run.exitCode != 0 {
      return Fail(XsdCompile(run.exitCode, errors)), w';
    }
    outcome := Pass;
  }

  // ---------------------------------------------------------------------
  // A sequence of steps in which an exception ends the sequence: the steps
  // run in order on the world the previous one left, and the first failure
  // is the outcome of the whole.

  function RunAll<T>(w: World, items: seq<T>, act: (World, T) -> Step): Step {
    if items == [] then Step(Pass, w)
    else
      var s := RunAll(w, items[..|items| - 1], act);
      if s.outcome.Fail? then s else act(s.world, items[|items| - 1])
  }

  lemma RunAllSnoc<T>(w: World, items: seq<T>, x: T, act: (World, T) -> Step)
    ensures RunAll(w, items + [x], act) ==
      var s := RunAll(w, items, act);
      if s.outcome.Fail? then s else act(s.world, x)
  {
    assert (items + [x])[..|items|] == items;
  }

  /** Steps that each keep every file and append at most one request keep
      every file and append at most one request per item. */
  lemma {:induction false} RunAllGrowth<T>(w: World, items: seq<T>, act: (World, T) -> Step)
    requires forall v: World, x: T ::
      && v.files.Keys <= act(v, x).world.files.Keys
      && v.requests <= act(v, x).world.requests
      && |act(v, x).world.requests| <= |v.requests| + 1
    ensures var s := RunAll(w, items, act);
      && w.files.Keys <= s.world.files.Keys
      && w.requests <= s.world.requests
      && |s.world.requests| <= |w.requests| + |items|
    decreases |items|
  {
    if items != [] {
      RunAllGrowth(w, items[..|items| - 1], act);
    }
  }

  /** Once a step fails, no later step runs. */
  lemma {:induction false} RunAllFailureSticks<T>(w: World, items: seq<T>, i: nat, act: (World, T) -> Step)
    requires i <= |items| && RunAll(w, items[..i], act).outcome.Fail?
    ensures RunAll(w, items, act) == RunAll(w, items[..i], act)
    decreases |items| - i
  {
    if i < |items| {
      RunAllSnoc(w, items[..i], items[i], act);
      TakeSnoc(items, i);
      RunAllFailureSticks(w, items, i + 1, act);
    } else {
      assert items[..i] == items;
    }
  }

  /** Running a + b is running a and then, unless it failed, b. */
  lemma {:induction false} RunAllAppend<T>(w: World, a: seq<T>, b: seq<T>, act: (World, T) -> Step)
    ensures RunAll(w, a + b, act) ==
      var s := RunAll(w, a, act);
      if s.outcome.Fail? then s else RunAll(s.world, b, act)
    decreases |b|
  {
    if b == [] {
      assert a + b == a;
    } else {
      var b' := b[..|b| - 1];
      var x := b[|b| - 1];
      assert a + b == (a + b') + [x];
      assert b == b' + [x];
      RunAllSnoc(w, a + b', x, act);
      RunAllAppend(w, a, b', act);
      var s := RunAll(w, a, act);
      if !s.outcome.Fail? {
        RunAllSnoc(s.world, b', x, act);
      }
    }
  }
}
