/** The application state of the dashboard and its transitions: the
    repository list built by `new`, replaced by `refresh_repos`, and the
    `update` dispatch on `Message` (src/main.rs). */
module Overlay {
  import opened Wrappers
  import opened Status

  /** One row of the dashboard. */
  datatype Repo = Repo(name: string, branch: string, numChanges: i32)

  /** The loaded configuration: the directory holding the repositories
      and their names, in the order the file lists them. */
  datatype Config = Config(rootpath: string, repos: seq<string>)

  /** The iced theme; the model only carries it along. */
  datatype Theme = Light | Dark

  /** The messages the window sends to `update`. */
  datatype Message = Refresh | Quit | Lazygit(repo: string)

  /** The state held by the window. */
  datatype App = App(theme: Theme, config: Config, repos: seq<Repo>)

  /** The reasons the program panics. */
  datatype Fault =
    | NoConfig(reason: string)   // `read_config().expect(..)` on an error
    | GitNotStarted              // `.expect("failed to execute process")`
    | NoBranch                   // `re.captures(..).unwrap()` on no match

  /** What a transition leaves behind: a running window with a new state,
      a process that exited with a code, or one that panicked. */
  datatype Step = Running(app: App) | Exited(code: int) | Panicked(fault: Fault)

  /** Running `git status` in directory `root/repo`: the text it printed on
      standard output, or `None` when the process could not be started. */
  type GitStatus = (string, string) -> Option<string>

  /** `refresh_status`: run `git status` for one repository and parse what
      it printed. */
  function RefreshStatus(git: GitStatus, root: string, repo: string): (r: Result<(string, i32), Fault>)
    ensures git(root, repo).None? ==> r == Failure(GitNotStarted)
    ensures r.Success? <==> git(root, repo).Some? && exists k :: MatchAt(git(root, repo).value, k)
    ensures git(root, repo).Some? ==>
              (r == Failure(NoBranch) <==> forall k :: !MatchAt(git(root, repo).value, k))
    ensures r.Success? ==>
              (exists k :: RegexCaptures(git(root, repo).value, k, r.value.0))
              && r.value.1 == ToI32OrZero(multiset(git(root, repo).value)['\t'])
  {
    match git(root, repo)
    case None => Failure(GitNotStarted)
    case Some(output) =>
      match ParseStatus(output)
      case None => Failure(NoBranch)
      case Some(status) =>
        ExtractBranchIsRegexCapture(output, status.0);
        Success(status)
  }

  /** The rows for `names` before the first refresh: no branch and no
      changes yet. */
  function InitialRepos(names: seq<string>): (r: seq<Repo>)
    ensures |r| == |names|
    ensures forall i :: 0 <= i < |names| ==> r[i] == Repo(names[i], "", 0)
  {
    if |names| == 0 then []
    else [Repo(names[0], "", 0)] + InitialRepos(names[1..])
  }

  /** The repository at index `i` is the first, in configuration order,
      whose status fails, and it fails with `f`. */
  predicate FirstFailure(git: GitStatus, root: string, names: seq<string>, i: int, f: Fault) {
    && 0 <= i < |names|
    && RefreshStatus(git, root, names[i]) == Failure(f)
    && forall j :: 0 <= j < i ==> RefreshStatus(git, root, names[j]).Success?
  }

  /** The mapped iterator in `refresh_repos`: one fresh row per configured
      name, in order; the first repository whose status fails panics the
      whole refresh. */
  function RefreshList(git: GitStatus, root: string, names: seq<string>): (r: Result<seq<Repo>, Fault>)
    ensures r.Success? <==>
              forall i :: 0 <= i < |names| ==> RefreshStatus(git, root, names[i]).Success?
    ensures r.Success? ==> |r.value| == |names|
    ensures r.Success? ==> forall i :: 0 <= i < |names| ==>
              r.value[i].name == names[i]
              && RefreshStatus(git, root, names[i]) == Success((r.value[i].branch, r.value[i].numChanges))
    ensures r.Failure? ==> exists i :: FirstFailure(git, root, names, i, r.error)
  {
    if |names| == 0 then Success([])
    else
      match RefreshStatus(git, root, names[0])
      case Failure(f) =>
        assert FirstFailure(git, root, names, 0, f);
        Failure(f)
      case Success(status) =>
        match RefreshList(git, root, names[1..])
        case Failure(f) =>
          ghost var i :| FirstFailure(git, root, names[1..], i, f);
          assert FirstFailure(git, root, names, i + 1, f);
          Failure(f)
        case Success(rest) => Success([Repo(names[0], status.0, status.1)] + rest)
  }

  /** `RustUI::refresh_repos`: the rows are rebuilt from the configuration
      and replace the previous ones; theme and configuration stay. */
  function RefreshRepos(git: GitStatus, app: App): (r: Result<App, Fault>)
    ensures r.Success? ==> r.value.theme == app.theme && r.value.config == app.config
    ensures r.Success? ==> |r.value.repos| == |app.config.repos|
    ensures r.Success? ==> forall i :: 0 <= i < |app.config.repos| ==>
              r.value.repos[i].name == app.config.repos[i]
              && RefreshStatus(git, app.config.rootpath, app.config.repos[i])
                 == Success((r.value.repos[i].branch, r.value.repos[i].numChanges))
    ensures r.Success? <==> forall i :: 0 <= i < |app.config.repos| ==>
              RefreshStatus(git, app.config.rootpath, app.config.repos[i]).Success?
    ensures r.Failure? ==> exists i :: FirstFailure(git, app.config.rootpath, app.config.repos, i, r.error)
  {
    match RefreshList(git, app.config.rootpath, app.config.repos)
    case Failure(f) => Failure(f)
    case Success(repos) => Success(app.(repos := repos))
  }

  /** `Sandbox::new`: load the configuration (an error panics), build the
      initial rows, start with the dark theme and refresh once. */
  function New(git: GitStatus, loaded: Result<Config, string>): (r: Step)
    ensures loaded.Failure? ==> r == Panicked(NoConfig(loaded.error))
    ensures r.Running? ==> loaded.Success? && r.app.theme == Dark && r.app.config == loaded.value
    ensures r.Running? ==> |r.app.repos| == |loaded.value.repos|
    ensures r.Running? ==> forall i :: 0 <= i < |loaded.value.repos| ==>
              r.app.repos[i].name == loaded.value.repos[i]
              && RefreshStatus(git, loaded.value.rootpath, loaded.value.repos[i])
                 == Success((r.app.repos[i].branch, r.app.repos[i].numChanges))
    ensures loaded.Success? ==> (r.Running? <==> forall i :: 0 <= i < |loaded.value.repos| ==>
              RefreshStatus(git, loaded.value.rootpath, loaded.value.repos[i]).Success?)
    ensures loaded.Success? && r.Panicked? ==>
              exists i :: FirstFailure(git, loaded.value.rootpath, loaded.value.repos, i, r.fault)
    ensures r.Running? || r.Panicked?
  {
    match loaded
    case Failure(reason) => Panicked(NoConfig(reason))
    case Success(config) =>
      var initial := App(Dark, config, InitialRepos(config.repos));
      match RefreshRepos(git, initial)
      case Failure(f) => Panicked(f)
      case Success(app) => Running(app)
  }

  /** `Sandbox::update`: Refresh rebuilds the rows, Quit exits with code 0,
      and Lazygit only starts an external process, which the state does
      not see. */
  function Update(git: GitStatus, app: App, msg: Message): (r: Step)
    ensures msg.Quit? ==> r == Exited(0)
    ensures msg.Lazygit? ==> r == Running(app)
    ensures msg.Refresh? && r.Running? ==>
              r.app.theme == app.theme && r.app.config == app.config
              && |r.app.repos| == |app.config.repos|
    ensures msg.Refresh? && r.Running? ==> forall i :: 0 <= i < |app.config.repos| ==>
              r.app.repos[i].name == app.config.repos[i]
              && RefreshStatus(git, app.config.rootpath, app.config.repos[i])
                 == Success((r.app.repos[i].branch, r.app.repos[i].numChanges))
    ensures msg.Refresh? ==> (r.Running? <==> forall i :: 0 <= i < |app.config.repos| ==>
              RefreshStatus(git, app.config.rootpath, app.config.repos[i]).Success?)
    ensures msg.Refresh? && !r.Running? ==>
              r.Panicked? && exists i :: FirstFailure(git, app.config.rootpath, app.config.repos, i, r.fault)
  {
    match msg
    case Refresh =>
      (match RefreshRepos(git, app)
       case Failure(f) => Panicked(f)
       case Success(app') => Running(app'))
    case Quit => Exited(0)
    case Lazygit(_) => Running(app)
  }

  /* ---------------------------------------------------------------------
     Properties of the transitions
     --------------------------------------------------------------------- */

  /** A refresh does not look at the previous rows: two states with the
      same configuration refresh to the same rows. */
  lemma RefreshIgnoresPreviousRows(git: GitStatus, a: App, b: App)
    requires a.config == b.config
    ensures RefreshRepos(git, a).Success? <==> RefreshRepos(git, b).Success?
    ensures RefreshRepos(git, a).Success? ==>
              RefreshRepos(git, a).value.repos == RefreshRepos(git, b).value.repos
  {
  }

  /** Refreshing twice in a row, with the repositories unchanged in
      between, gives the same state as refreshing once. */
  lemma RefreshIdempotent(git: GitStatus, app: App)
    requires RefreshRepos(git, app).Success?
    ensures RefreshRepos(git, RefreshRepos(git, app).value) == RefreshRepos(git, app)
  {
  }

  /** Every row of a running window reports a change count that is not
      negative. */
  lemma RowsHaveNonNegativeCounts(git: GitStatus, app: App, msg: Message)
    requires forall i :: 0 <= i < |app.repos| ==> 0 <= app.repos[i].numChanges
    ensures Update(git, app, msg).Running? ==>
              forall i :: 0 <= i < |Update(git, app, msg).app.repos| ==>
                0 <= Update(git, app, msg).app.repos[i].numChanges
  {
  }

  /** A repository whose `git status` prints no "branch " followed by a
      word character panics the refresh, however many other repositories
      are fine. */
  lemma MissingBranchPanicsRefresh(git: GitStatus, app: App, i: nat)
    requires i < |app.config.repos|
    requires git(app.config.rootpath, app.config.repos[i]).Some?
    requires forall k :: !MatchAt(git(app.config.rootpath, app.config.repos[i]).value, k)
    ensures Update(git, app, Refresh).Panicked?
  {
    assert !RefreshStatus(git, app.config.rootpath, app.config.repos[i]).Success?;
  }

  /** A `git` that starts but prints nothing on standard output (it
      writes its complaint about a directory that is not a repository to
      standard error) panics with `NoBranch`, not `GitNotStarted`. */
  lemma EmptyOutputIsNoBranch(git: GitStatus, root: string, repo: string)
    requires git(root, repo) == Some("")
    ensures RefreshStatus(git, root, repo) == Failure(NoBranch)
  {
  }
}
