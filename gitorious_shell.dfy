/** The SSH entry point (gitorious-shell/main.go): the forced command of
    `authorized_keys`. It checks the user's request step by step, asks the
    internal API for the repository's configuration, checks the pre-receive
    hook and hands the request to git-shell. Each failed check ends the
    session with its own line to the user and exit status 1. */
module GitoriousShell {
  import opened Wrappers
  import opened Strings
  import opened Paths
  import opened Hooks
  import opened GitCommand
  import opened Process
  import opened RepositoryStore
  import Api
  import Env

  const DefaultReposRoot := "/var/www/gitorious/repositories"
  const DefaultApiUrl := "http://localhost:3000/api/internal"

  const InvalidCommandMessage := "Invalid command"

  /** `parseGitShellCommand`: the command and the path of an accepted
      request (one leading `/` of the path removed), or two empty strings and
      an error. */
  function ParseGitShellCommand(fullCommand: string): (r: PairResult)
    ensures r.err.Some? <==> Parse(fullCommand).None?
    ensures r.err.Some? ==> r == PairResult("", "", Some(InvalidCommand(fullCommand)))
    ensures forall c :: WellFormed(c) && Render(c) == fullCommand ==>
      r == PairResult(CommandOf(c), PathOf(c, StripOneSlash), None)
  {
    Submatches(fullCommand, StripOneSlash)
  }

  /** What the client sent comes back from a formatted command line: for a
      path that does not start with `/` the pair is exactly
      `(command, path)`, and the `/` that a client puts in front of its path
      is removed. */
  lemma FormatThenParse(c: CommandSyntax, path: string)
    requires WellFormed(c) && |path| >= 1 && '\'' !in path
    ensures path[0] != '/' ==>
      ParseGitShellCommand(FormatGitShellCommand(CommandOf(c), path)) == PairResult(CommandOf(c), path, None)
    ensures ParseGitShellCommand(FormatGitShellCommand(CommandOf(c), "/" + path)) == PairResult(CommandOf(c), path, None)
  {
    FormatRoundTrip(c, path, StripOneSlash);
    FormatRoundTrip(c, "/" + path, StripOneSlash);
    assert ("/" + path)[1..] == path;
  }

  /** `createSshEnv`: the hook environment of an SSH session. */
  method CreateSshEnv(environ: seq<string>, username: string, repoConfig: Api.RepoConfig) returns (env: seq<string>)
    ensures env == Env.ConfigEnv(environ, "ssh", username, repoConfig)
  {
    env := Env.CreateEnv(environ, "ssh", username, repoConfig);
  }

  /** `execGitShell`: git-shell runs the command with the given environment
      and the client's connection as its standard input and output; `run` is
      how the child ended. */
  method ExecGitShell(command: string, env: seq<string>, run: RunOutcome) returns (cmd: Invocation, r: StringResult)
    ensures cmd == GitShell(command, Explicit(env), true)
    ensures ReportsRun(r, run)
  {
    cmd := GitShell(command, Inherited, false);
    cmd := cmd.(env := Explicit(env));
    cmd := cmd.(connected := true);
    if run.err.Some? {
      r := StringResult(Trim(run.stderr), run.err);
      return;
    }
    r := StringResult("", None);
  }

  // ---------------------------------------------------------------------
  // The session, check by check

  function ReposRoot(environ: seq<string>): string {
    Env.Setting(environ, "REPOSITORIES", DefaultReposRoot)
  }

  function ApiUrl(environ: seq<string>): string {
    Env.Setting(environ, "API_URL", DefaultApiUrl)
  }

  /** A user name was passed and the requested command is accepted. */
  predicate Requested(args: seq<string>, environ: seq<string>) {
    |args| >= 2 && Parse(Env.OriginalCommand(environ)).Some?
  }

  function Request(args: seq<string>, environ: seq<string>): CommandSyntax
    requires Requested(args, environ)
  {
    Parse(Env.OriginalCommand(environ)).value
  }

  /** The configuration lookup an accepted request makes. */
  function ConfigLookup(args: seq<string>, environ: seq<string>): Call
    requires Requested(args, environ)
  {
    RepoConfigCall(ApiUrl(environ), PathOf(Request(args, environ), StripOneSlash), args[1])
  }

  /** Every check passed: the API knows the repository and its hook is in
      place under the repositories root. */
  predicate Admitted(args: seq<string>, environ: seq<string>, fs: FileSystem, config: Api.ConfigOutcome) {
    && Requested(args, environ)
    && config.Config?
    && PreReceiveHookExists(fs, Join([ReposRoot(environ), config.config.realPath]))
  }

  /** How a session ends once its request is understood: the
      configuration is looked up, the hook checked and git-shell started. */
  function Serve(username: string, command: string, repoPath: string, reposRootPath: string, internalApiUrl: string,
                 environ: seq<string>, fs: FileSystem, config: Api.ConfigOutcome, run: RunOutcome): Exit
  {
    var lookup := RepoConfigCall(internalApiUrl, repoPath, username);
    if !config.Config? then Exit(1, Some(AccessDenied), [lookup])
    else
      var fullRepoPath := Join([reposRootPath, config.config.realPath]);
      if !PreReceiveHookExists(fs, fullRepoPath) then Exit(1, Some(FatalError), [lookup])
      else
        var child := GitShell(FormatGitShellCommand(command, fullRepoPath),
                              Explicit(Env.ConfigEnv(environ, "ssh", username, config.config)), true);
        if run.err.Some? then Exit(1, Some(FatalError), [lookup, Spawn(child)])
        else Exit(0, None, [lookup, Spawn(child)])
  }

  /** How a session ends, check by check: each failed check ends it with
      its own message and status 1, before any later step is taken. */
  function Session(args: seq<string>, environ: seq<string>, fs: FileSystem, config: Api.ConfigOutcome, run: RunOutcome): Exit {
    if |args| < 2 then Exit(1, Some(ErrorOccured), [])
    else if Env.OriginalCommand(environ) == "" then Exit(1, Some(NoShellAccess(args[1])), [])
    else if !Requested(args, environ) then Exit(1, Some(InvalidCommandMessage), [])
    else
      var request := Request(args, environ);
      Serve(args[1], CommandOf(request), PathOf(request, StripOneSlash), ReposRoot(environ), ApiUrl(environ),
            environ, fs, config, run)
  }

  /** In the second half, git-shell is started exactly when the
      configuration was found and its hook is in place, and only as the last
      call. */
  lemma ServeSpawnsOnlyWhenHooked(username: string, command: string, repoPath: string, reposRootPath: string,
                                  internalApiUrl: string, environ: seq<string>, fs: FileSystem,
                                  config: Api.ConfigOutcome, run: RunOutcome)
    ensures var exit := Serve(username, command, repoPath, reposRootPath, internalApiUrl, environ, fs, config, run);
      && (Spawned(exit.calls) <==> config.Config? && PreReceiveHookExists(fs, Join([reposRootPath, config.config.realPath])))
      && (Spawned(exit.calls) ==> exit.calls[|exit.calls| - 1].Spawn?)
      && exit.calls[0] == RepoConfigCall(internalApiUrl, repoPath, username)
  {
    var exit := Serve(username, command, repoPath, reposRootPath, internalApiUrl, environ, fs, config, run);
    assert exit.calls[0].RepoConfigCall?;
    if |exit.calls| == 2 {
      assert exit.calls[1].Spawn?;
    }
  }

  /** git-shell is started exactly when every check passed. */
  lemma SessionSpawnsOnlyWhenAdmitted(args: seq<string>, environ: seq<string>, fs: FileSystem, config: Api.ConfigOutcome, run: RunOutcome)
    ensures Spawned(Session(args, environ, fs, config, run).calls) <==> Admitted(args, environ, fs, config)
  {
    if Requested(args, environ) {
      var request := Request(args, environ);
      ServeSpawnsOnlyWhenHooked(args[1], CommandOf(request), PathOf(request, StripOneSlash), ReposRoot(environ),
                                ApiUrl(environ), environ, fs, config, run);
    }
  }

  /** The configuration is looked up exactly for a request that names a
      user and passes the grammar, first of all calls, and with the path the
      grammar gives. */
  lemma SessionLooksUpOnlyParsedRequests(args: seq<string>, environ: seq<string>, fs: FileSystem, config: Api.ConfigOutcome, run: RunOutcome)
    ensures var exit := Session(args, environ, fs, config, run);
      && (AskedForConfig(exit.calls) <==> Requested(args, environ))
      && (Requested(args, environ) ==> exit.calls[0] == ConfigLookup(args, environ))
  {
    if Requested(args, environ) {
      var request := Request(args, environ);
      ServeSpawnsOnlyWhenHooked(args[1], CommandOf(request), PathOf(request, StripOneSlash), ReposRoot(environ),
                                ApiUrl(environ), environ, fs, config, run);
    }
  }

  /** The session succeeds exactly when every check passed and git-shell
      succeeded; otherwise the status is 1 and the user is told why. */
  lemma SessionSucceedsOnlyWhenAdmitted(args: seq<string>, environ: seq<string>, fs: FileSystem, config: Api.ConfigOutcome, run: RunOutcome)
    ensures var exit := Session(args, environ, fs, config, run);
      && (exit.code == 0 <==> Admitted(args, environ, fs, config) && run.err.None?)
      && (exit.code != 0 ==> exit.code == 1 && exit.said.Some?)
  {
  }

  /** An admitted session runs git-shell on `<command> '<root>/<real path>'`
      with the hook environment of the configuration and the client's
      connection. */
  lemma SessionHandover(args: seq<string>, environ: seq<string>, fs: FileSystem, config: Api.ConfigOutcome, run: RunOutcome)
    requires Admitted(args, environ, fs, config)
    requires ReposRoot(environ) != "" && config.config.realPath != ""
    ensures Session(args, environ, fs, config, run).calls[1] ==
      Spawn(GitShell(FormatGitShellCommand(CommandOf(Request(args, environ)), ReposRoot(environ) + "/" + config.config.realPath),
                     Explicit(Env.ConfigEnv(environ, "ssh", args[1], config.config)), true))
  {
    var root, realPath := ReposRoot(environ), config.config.realPath;
    JoinTwo(root, realPath);
    var request := Request(args, environ);
    var command := CommandOf(request);
    var env := Explicit(Env.ConfigEnv(environ, "ssh", args[1], config.config));
    var exit := Serve(args[1], command, PathOf(request, StripOneSlash), root, ApiUrl(environ), environ, fs, config, run);
    assert Session(args, environ, fs, config, run) == exit;
    assert exit.calls[1] == Spawn(GitShell(FormatGitShellCommand(command, Join([root, realPath])), env, true));
  }

  /** In the second half nothing is printed, and once the hook is found
      git-shell, on the client's connection, is the only call after the
      lookup. */
  lemma ServePrintsNothing(username: string, command: string, repoPath: string, reposRootPath: string,
                           internalApiUrl: string, environ: seq<string>, fs: FileSystem,
                           config: Api.ConfigOutcome, run: RunOutcome)
    ensures var exit := Serve(username, command, repoPath, reposRootPath, internalApiUrl, environ, fs, config, run);
      && (forall k :: 0 <= k < |exit.calls| ==> !exit.calls[k].Printed?)
      && (config.Config? && PreReceiveHookExists(fs, Join([reposRootPath, config.config.realPath])) ==>
            |exit.calls| == 2 && exit.calls[1].Spawn? && exit.calls[1].invocation.connected)
  {
    var exit := Serve(username, command, repoPath, reposRootPath, internalApiUrl, environ, fs, config, run);
    if !config.Config? || !PreReceiveHookExists(fs, Join([reposRootPath, config.config.realPath])) {
      assert |exit.calls| == 1 && exit.calls[0].RepoConfigCall?;
    } else {
      assert |exit.calls| == 2 && exit.calls[0].RepoConfigCall? && exit.calls[1].Spawn?;
    }
  }

  /** The newer shell writes nothing to the client's connection itself: in
      an admitted session git-shell, started on that connection, is the
      only call after the lookup, and no session prints a line. */
  lemma SessionPrintsNothing(args: seq<string>, environ: seq<string>, fs: FileSystem, config: Api.ConfigOutcome,
                             run: RunOutcome)
    ensures var exit := Session(args, environ, fs, config, run);
      && (forall k :: 0 <= k < |exit.calls| ==> !exit.calls[k].Printed?)
      && (Admitted(args, environ, fs, config) ==>
            |exit.calls| == 2 && exit.calls[1].Spawn? && exit.calls[1].invocation.connected)
  {
    if Requested(args, environ) {
      var request := Request(args, environ);
      ServePrintsNothing(args[1], CommandOf(request), PathOf(request, StripOneSlash), ReposRoot(environ),
                         ApiUrl(environ), environ, fs, config, run);
    }
  }

  /** The second half of `main`, from the configuration lookup on. */
  method ServeRequest(username: string, command: string, repoPath: string, reposRootPath: string,
                      internalApiUrl: string, environ: seq<string>, fs: FileSystem,
                      config: Api.ConfigOutcome, run: RunOutcome)
    returns (exit: Exit)
    ensures exit == Serve(username, command, repoPath, reposRootPath, internalApiUrl, environ, fs, config, run)
  {
    var repositoryStore := GitoriousRepositoryStore(reposRootPath);
    var calls := [RepoConfigCall(internalApiUrl, repoPath, username)];
    if !config.Config? {
      return Exit(1, Some(AccessDenied), calls);
    }
    var repoConfig := config.config;

    var fullRepoPath := repositoryStore.GetFullRepoPath(fs, repoConfig.realPath);
    if fullRepoPath.err.Some? {
      return Exit(1, Some(FatalError), calls);
    }

    var gitShellCommand := FormatGitShellCommand(command, fullRepoPath.value);
    var env := CreateSshEnv(environ, username, repoConfig);
    var cmd, result := ExecGitShell(gitShellCommand, env, run);
    calls := calls + [Spawn(cmd)];
    if result.err.Some? {
      return Exit(1, Some(FatalError), calls);
    }
    return Exit(0, None, calls);
  }

  /** `main`. `args` and `environ` are the process's arguments and
      environment, `fs` the disk, `config` the internal API's answer to the
      configuration lookup and `run` how git-shell ended. */
  method Run(args: seq<string>, environ: seq<string>, fs: FileSystem, config: Api.ConfigOutcome, run: RunOutcome)
    returns (exit: Exit)
    ensures exit == Session(args, environ, fs, config, run)
  {
    var reposRootPath := Env.Getenv(environ, "REPOSITORIES", DefaultReposRoot);
    var internalApiUrl := Env.Getenv(environ, "API_URL", DefaultApiUrl);

    if |args| < 2 {
      return Exit(1, Some(ErrorOccured), []);
    }
    var username := args[1];
    var sshCommand := Trim(Env.LookupEnv(environ, "SSH_ORIGINAL_COMMAND"));
    assert sshCommand == Env.OriginalCommand(environ);
    if sshCommand == "" {
      return Exit(1, Some(NoShellAccess(username)), []);
    }

    var parsed := ParseGitShellCommand(sshCommand);
    if parsed.err.Some? {
      return Exit(1, Some(InvalidCommandMessage), []);
    }
    var command, repoPath := parsed.first, parsed.second;

    exit := ServeRequest(username, command, repoPath, reposRootPath, internalApiUrl, environ, fs, config, run);
  }
}
