/** The SSH entry point in ssh/gitorious-shell.go: the same checks as
    gitorious-shell/main.go, but the repository's real path comes from the
    internal API's path endpoint (`Common.GetRealRepoPath`), and git-shell
    gets the inherited environment plus the protocol and the user only. */
module SshShell {
  import opened Wrappers
  import opened Strings
  import opened Paths
  import opened Hooks
  import opened GitCommand
  import opened Process
  import Common
  import Env

  const DefaultReposRoot := "/var/www/gitorious/repositories"
  const DefaultApiUrl := "http://localhost:8080/foo"

  const InvalidCommandMessage := "Invalid command"

  /** `parseGitCommand`: the command and the path of an accepted request
      (one leading `/` of the path removed), or two empty strings and an
      error. */
  function ParseGitCommand(fullCommand: string): (r: PairResult)
    ensures r.err.Some? <==> Parse(fullCommand).None?
    ensures r.err.Some? ==> r == PairResult("", "", Some(InvalidCommand(fullCommand)))
    ensures forall c :: WellFormed(c) && Render(c) == fullCommand ==>
      r == PairResult(CommandOf(c), PathOf(c, StripOneSlash), None)
  {
    Submatches(fullCommand, StripOneSlash)
  }

  /** `execGitShell`: git-shell runs the command with the inherited
      environment plus the protocol and the user, connected to the client;
      `run` is how the child ended. */
  method ExecGitShell(environ: seq<string>, command: string, username: string, run: RunOutcome)
    returns (cmd: Invocation, r: StringResult)
    ensures cmd == GitShell(command, Explicit(Env.SshIdentityEnv(environ, username)), true)
    ensures ReportsRun(r, run)
  {
    var env := environ;
    env := env + [Env.Entry(Env.Name(Env.Proto), "ssh")];
    env := env + [Env.Entry(Env.Name(Env.User), username)];
    assert env == environ + [Env.Entry(Env.Name(Env.Proto), "ssh"), Env.Entry(Env.Name(Env.User), username)];
    cmd := GitShell(command, Explicit(env), true);
    if run.err.Some? {
      r := StringResult(Trim(run.stderr), run.err);
      return;
    }
    r := StringResult("", None);
  }

  // ---------------------------------------------------------------------
  // The session, check by check

  function ReposRoot(environ: seq<string>): string {
    Env.Setting(environ, "REPOSITORIES", DefaultReposRoot)
  }

  function ApiUrl(environ: seq<string>): string {
    Env.Setting(environ, "API_URL", DefaultApiUrl)
  }

  /** A user name was passed and the requested command is accepted. */
  predicate Requested(args: seq<string>, environ: seq<string>) {
    |args| >= 2 && Parse(Env.OriginalCommand(environ)).Some?
  }

  function Request(args: seq<string>, environ: seq<string>): CommandSyntax
    requires Requested(args, environ)
  {
    Parse(Env.OriginalCommand(environ)).value
  }

  /** The real-path request an accepted request makes. */
  function PathLookup(args: seq<string>, environ: seq<string>): Call
    requires Requested(args, environ)
  {
    RealPathCall(Common.RealRepoPathUrl(PathOf(Request(args, environ), StripOneSlash), args[1], ApiUrl(environ)))
  }

  /** Every check passed: the log file opened, the request names a user and
      parses, the API answered with a real path, and the hook is in place
      under the repositories root. */
  predicate Admitted(logError: Option<string>, args: seq<string>, environ: seq<string>, fs: FileSystem, response: Common.ApiResponse) {
    && logError.None?
    && Requested(args, environ)
    && Common.GetRealRepoPath(response).err.None?
    && PreReceiveHookExists(fs, Join([ReposRoot(environ), Common.GetRealRepoPath(response).value]))
  }

  /** How a session ends once its request is understood. `response` is the
      API's answer to the real-path request. */
  function Serve(username: string, command: string, repoPath: string, reposRootPath: string, apiUrl: string,
                 environ: seq<string>, fs: FileSystem, response: Common.ApiResponse, run: RunOutcome): Exit
  {
    var lookup := RealPathCall(Common.RealRepoPathUrl(repoPath, username, apiUrl));
    var realRepoPath := Common.GetRealRepoPath(response);
    if realRepoPath.err.Some? then Exit(1, Some(AccessDenied), [lookup])
    else
      var fullRepoPath := Join([reposRootPath, realRepoPath.value]);
      var shown := Printed(Common.GetFullRepoPathOutput(realRepoPath.value, reposRootPath));
      if !PreReceiveHookExists(fs, fullRepoPath) then Exit(1, Some(FatalError), [lookup, shown])
      else
        var child := GitShell(FormatGitShellCommand(command, fullRepoPath), Explicit(Env.SshIdentityEnv(environ, username)), true);
        if run.err.Some? then Exit(1, Some(FatalError), [lookup, shown, Spawn(child)])
        else Exit(0, None, [lookup, shown, Spawn(child)])
  }

  /** How a session ends, check by check. `logError` is the error
      `configureLogger` met opening the log file, if any; then the program
      writes `error opening file: <error>` to standard error, still the
      client's, and exits with status 1 before any check. */
  function Session(logError: Option<string>, args: seq<string>, environ: seq<string>, fs: FileSystem, response: Common.ApiResponse,
                   run: RunOutcome): Exit
  {
    if logError.Some? then Exit(1, Some(LogOpenError(logError.value)), [])
    else if |args| < 2 then Exit(1, Some(ErrorOccured), [])
    else if Env.OriginalCommand(environ) == "" then Exit(1, Some(NoShellAccess(args[1])), [])
    else if !Requested(args, environ) then Exit(1, Some(InvalidCommandMessage), [])
    else
      var request := Request(args, environ);
      Serve(args[1], CommandOf(request), PathOf(request, StripOneSlash), ReposRoot(environ), ApiUrl(environ),
            environ, fs, response, run)
  }

  /** In the second half, git-shell is started exactly when the API gave a
      real path and its hook is in place, and only as the last call; once
      the API gave a real path, the hook's path is printed to the client
      before anything else happens. */
  lemma ServeSpawnsOnlyWhenHooked(username: string, command: string, repoPath: string, reposRootPath: string,
                                  apiUrl: string, environ: seq<string>, fs: FileSystem,
                                  response: Common.ApiResponse, run: RunOutcome)
    ensures var exit := Serve(username, command, repoPath, reposRootPath, apiUrl, environ, fs, response, run);
      var found := Common.GetRealRepoPath(response);
      && (Spawned(exit.calls) <==> found.err.None? && PreReceiveHookExists(fs, Join([reposRootPath, found.value])))
      && (Spawned(exit.calls) ==> exit.calls[|exit.calls| - 1].Spawn?)
      && exit.calls[0] == RealPathCall(Common.RealRepoPathUrl(repoPath, username, apiUrl))
      && (found.err.None? ==> exit.calls[1] == Printed(Common.GetFullRepoPathOutput(found.value, reposRootPath)))
  {
    var exit := Serve(username, command, repoPath, reposRootPath, apiUrl, environ, fs, response, run);
    var lookup := RealPathCall(Common.RealRepoPathUrl(repoPath, username, apiUrl));
    var found := Common.GetRealRepoPath(response);
    if found.err.Some? {
      assert exit.calls == [lookup];
    } else {
      var fullRepoPath := Join([reposRootPath, found.value]);
      var shown := Printed(Common.GetFullRepoPathOutput(found.value, reposRootPath));
      if !PreReceiveHookExists(fs, fullRepoPath) {
        assert exit.calls == [lookup, shown];
        assert !exit.calls[1].Spawn?;
      } else {
        assert exit.calls[..2] == [lookup, shown] && exit.calls[2].Spawn? && |exit.calls| == 3;
      }
    }
  }

  /** In every admitted session the client's connection first receives the
      printed hook path, and only then is git-shell started on that same
      connection: the client reads `<root>/<path>/hooks/pre-receive` and a
      newline ahead of git's own protocol. */
  lemma ClientReadsHookPathFirst(logError: Option<string>, args: seq<string>, environ: seq<string>, fs: FileSystem,
                                 response: Common.ApiResponse, run: RunOutcome)
    requires Admitted(logError, args, environ, fs, response)
    ensures var exit := Session(logError, args, environ, fs, response, run);
      && |exit.calls| == 3
      && exit.calls[1] == Printed(Common.GetFullRepoPathOutput(Common.GetRealRepoPath(response).value, ReposRoot(environ)))
      && exit.calls[2].Spawn? && exit.calls[2].invocation.connected
  {
    var request := Request(args, environ);
    var exit := Serve(args[1], CommandOf(request), PathOf(request, StripOneSlash), ReposRoot(environ), ApiUrl(environ),
                      environ, fs, response, run);
    assert Session(logError, args, environ, fs, response, run) == exit;
    ServeSpawnsOnlyWhenHooked(args[1], CommandOf(request), PathOf(request, StripOneSlash), ReposRoot(environ),
                              ApiUrl(environ), environ, fs, response, run);
  }

  /** git-shell is started exactly when every check passed; the API is asked
      exactly for requests that name a user and pass the grammar, once the
      log file is open. */
  lemma SessionSpawnsOnlyWhenAdmitted(logError: Option<string>, args: seq<string>, environ: seq<string>, fs: FileSystem,
                                      response: Common.ApiResponse, run: RunOutcome)
    ensures var exit := Session(logError, args, environ, fs, response, run);
      && (Spawned(exit.calls) <==> Admitted(logError, args, environ, fs, response))
      && (|exit.calls| > 0 <==> logError.None? && Requested(args, environ))
      && (logError.None? && Requested(args, environ) ==> exit.calls[0] == PathLookup(args, environ))
  {
    if logError.None? && Requested(args, environ) {
      var request := Request(args, environ);
      ServeSpawnsOnlyWhenHooked(args[1], CommandOf(request), PathOf(request, StripOneSlash), ReposRoot(environ),
                                ApiUrl(environ), environ, fs, response, run);
    }
  }

  /** The session succeeds exactly when every check passed and git-shell
      succeeded; otherwise the status is 1 and the user is told why, with the
      log file's error when it could not be opened. */
  lemma SessionSucceedsOnlyWhenAdmitted(logError: Option<string>, args: seq<string>, environ: seq<string>, fs: FileSystem,
                                        response: Common.ApiResponse, run: RunOutcome)
    ensures var exit := Session(logError, args, environ, fs, response, run);
      && (exit.code == 0 <==> Admitted(logError, args, environ, fs, response) && run.err.None?)
      && (exit.code != 0 ==> exit.code == 1 && exit.said.Some?)
      && (logError.Some? ==> exit.said == Some(LogOpenError(logError.value)))
  {
  }

  /** The second half of `main`, from the real-path request on. */
  method ServeRequest(username: string, command: string, repoPath: string, reposRootPath: string,
                      apiUrl: string, environ: seq<string>, fs: FileSystem,
                      response: Common.ApiResponse, run: RunOutcome)
    returns (exit: Exit)
    ensures exit == Serve(username, command, repoPath, reposRootPath, apiUrl, environ, fs, response, run)
  {
    var calls := [RealPathCall(Common.RealRepoPathUrl(repoPath, username, apiUrl))];
    var realRepoPath := Common.GetRealRepoPath(response);
    if realRepoPath.err.Some? {
      return Exit(1, Some(AccessDenied), calls);
    }

    var fullRepoPath := Common.GetFullRepoPath(fs, realRepoPath.value, reposRootPath);
    calls := calls + [Printed(Common.GetFullRepoPathOutput(realRepoPath.value, reposRootPath))];
    assert fullRepoPath.err.None? <==> PreReceiveHookExists(fs, Join([reposRootPath, realRepoPath.value]));
    assert fullRepoPath.err.None? ==> fullRepoPath.value == Join([reposRootPath, realRepoPath.value]);
    if fullRepoPath.err.Some? {
      return Exit(1, Some(FatalError), calls);
    }

    var gitShellCommand := FormatGitShellCommand(command, fullRepoPath.value);
    var cmd, result := ExecGitShell(environ, gitShellCommand, username, run);
    calls := calls + [Spawn(cmd)];
    if result.err.Some? {
      return Exit(1, Some(FatalError), calls);
    }
    return Exit(0, None, calls);
  }

  /** `main`. `logError` is the error `configureLogger` met opening the
      log file, if any, `args` and `environ` are the process's arguments and
      environment, `fs` the disk, `response` the API's answer to the
      real-path request and `run` how git-shell ended. */
  method Run(logError: Option<string>, args: seq<string>, environ: seq<string>, fs: FileSystem, response: Common.ApiResponse,
             run: RunOutcome)
    returns (exit: Exit)
    ensures exit == Session(logError, args, environ, fs, response, run)
  {
    var reposRootPath := Env.Getenv(environ, "REPOSITORIES", DefaultReposRoot);
    var apiUrl := Env.Getenv(environ, "API_URL", DefaultApiUrl);
    if logError.Some? {
      return Exit(1, Some(LogOpenError(logError.value)), []);
    }

    if |args| < 2 {
      return Exit(1, Some(ErrorOccured), []);
    }
    var username := args[1];
    var sshCommand := Trim(Env.LookupEnv(environ, "SSH_ORIGINAL_COMMAND"));
    assert sshCommand == Env.OriginalCommand(environ);
    if sshCommand == "" {
      return Exit(1, Some(NoShellAccess(username)), []);
    }

    var parsed := ParseGitCommand(sshCommand);
    if parsed.err.Some? {
      return Exit(1, Some(InvalidCommandMessage), []);
    }
    var command, repoPath := parsed.first, parsed.second;

    exit := ServeRequest(username, command, repoPath, reposRootPath, apiUrl, environ, fs, response, run);
  }
}
