/** The dependency loop of generateWithDependencies, common to the three
    generators: every dependency whose episode file is missing is compiled
    first, and the episode paths of all dependencies, in order, are handed
    to the final call. The generators differ only in the request that
    compiles one dependency, which is the plan here. */
module Dependencies {
  import opened Wrappers
  import opened Paths
  import opened Compiler

  /** The request that compiles one dependency, given the files at that moment. */
  type Plan = (Path, FileSystem) -> Request

  /** The episode file of every dependency, in dependency order. */
  function EpisodesOf(env: Env, deps: seq<Path>): (eps: seq<Path>)
    ensures |eps| == |deps|
    ensures forall i :: 0 <= i < |deps| ==> eps[i] == EpisodeFile(env, deps[i])
  {
    if deps == [] then [] else EpisodesOf(env, deps[..|deps| - 1]) + [EpisodeFile(env, deps[|deps| - 1])]
  }

  /** One dependency: compiled only when its episode file does not exist. */
  function EnsureOne(env: Env, xjc: Xjc, plan: Plan, w: World, dep: Path): Step {
    if EpisodeFile(env, dep) in w.files then Step(Pass, w)
    else GenerateSpec(env, xjc, w, plan(dep, w.files))
  }

  function EnsureAct(env: Env, xjc: Xjc, plan: Plan): (World, Path) -> Step {
    (w: World, dep: Path) => EnsureOne(env, xjc, plan, w, dep)
  }

  /** The loop over all dependencies, stopping at the first failure. */
  function EnsureAll(env: Env, xjc: Xjc, plan: Plan, w: World, deps: seq<Path>): Step {
    RunAll(w, deps, EnsureAct(env, xjc, plan))
  }

  lemma EpisodesOfSnoc(env: Env, deps: seq<Path>, dep: Path)
    ensures EpisodesOf(env, deps + [dep]) == EpisodesOf(env, deps) + [EpisodeFile(env, dep)]
  {
    assert (deps + [dep])[..|deps|] == deps;
  }

  /** One turn of the loop: compile the dependency unless its episode exists. */
  method EnsureDependency(env: Env, xjc: Xjc, plan: Plan, w: World, dependency: Path)
    returns (outcome: Outcome, w': World)
    ensures Step(outcome, w') == EnsureAct(env, xjc, plan)(w, dependency)
  {
    outcome, w' := Pass, w;
    if EpisodeFile(env, dependency) !in w.files {
      outcome, w' := Generate(env, xjc, w, plan(dependency, w.files));
    }
  }

  /** The loop: one compile per dependency whose episode is missing; the
      episode paths in dependency order when no compile failed. */
  method EnsureEpisodes(env: Env, xjc: Xjc, plan: Plan, w: World, deps: seq<Path>)
    returns (outcome: Outcome, w': World, episodes: seq<Path>)
    ensures Step(outcome, w') == EnsureAll(env, xjc, plan, w, deps)
    ensures outcome.Pass? ==> episodes == EpisodesOf(env, deps)
  {
    var act := EnsureAct(env, xjc, plan);
    w' := w;
    episodes := [];
    for i := 0 to |deps|
      invariant RunAll(w, deps[..i], act) == Step(Pass, w')
      invariant episodes == EpisodesOf(env, deps[..i])
    {
      var dependency := deps[i];
      var o, next := EnsureDependency(env, xjc, plan, w', dependency);
      RunAllSnoc(w, deps[..i], dependency, act);
      TakeSnoc(deps, i);
      if o.Fail? {
        RunAllFailureSticks(w, deps, i + 1, act);
        return o, next, episodes;
      }
      w' := next;
      EpisodesOfSnoc(env, deps[..i], dependency);
      episodes := episodes + [EpisodeFile(env, dependency)];
    }
    assert deps[..|deps|] == deps;
    outcome := Pass;
  }

  /** No compile at all when every dependency already has its episode. */
  lemma {:induction false} EnsureAllBuiltIsNoOp(env: Env, xjc: Xjc, plan: Plan, w: World, deps: seq<Path>)
    requires forall i :: 0 <= i < |deps| ==> EpisodeFile(env, deps[i]) in w.files
    ensures EnsureAll(env, xjc, plan, w, deps) == Step(Pass, w)
    decreases |deps|
  {
    if deps != [] {
      EnsureAllBuiltIsNoOp(env, xjc, plan, w, deps[..|deps| - 1]);
    }
  }

  /** Each compile the loop makes is the plan of a dependency whose episode
      was missing at its turn, and nothing else reaches the compiler: the
      requests grow by at most one per dependency, and by none for a
      dependency whose episode already exists. */
  lemma EnsureOneContract(env: Env, xjc: Xjc, plan: Plan, w: World, dep: Path)
    ensures var s := EnsureOne(env, xjc, plan, w, dep);
      && (EpisodeFile(env, dep) in w.files ==> s == Step(Pass, w))
      && (EpisodeFile(env, dep) !in w.files ==> s.world.requests == w.requests + [plan(dep, w.files)])
      && w.files.Keys <= s.world.files.Keys
  {
    GenerateContract(env, xjc, w, plan(dep, w.files));
  }

  /** The whole loop never removes a file and adds at most one request per
      dependency. */
  lemma {:induction false} EnsureAllGrowth(env: Env, xjc: Xjc, plan: Plan, w: World, deps: seq<Path>)
    ensures var s := EnsureAll(env, xjc, plan, w, deps);
      && w.files.Keys <= s.world.files.Keys
      && w.requests <= s.world.requests
      && |s.world.requests| <= |w.requests| + |deps|
    decreases |deps|
  {
    if deps != [] {
      var front := deps[..|deps| - 1];
      EnsureAllGrowth(env, xjc, plan, w, front);
      var s := EnsureAll(env, xjc, plan, w, front);
      if s.outcome.Pass? {
        EnsureOneContract(env, xjc, plan, s.world, deps[|deps| - 1]);
      }
    }
  }
}
