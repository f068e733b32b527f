/** The oldest SSH entry point (gitorious-shell.go). Its grammar has no `/?`,
    so the quoted path is kept verbatim; it asks the internal API for the
    real path itself, checks the hook itself, and runs git-shell with the
    inherited environment and without wiring the client's connection to the
    child. */
module LegacyShell {
  import opened Wrappers
  import opened Strings
  import opened Paths
  import opened Hooks
  import opened GitCommand
  import opened Process
  import Common
  import Env
  import GitoriousShell

  const DefaultReposRoot := "/var/www/gitorious/repositories"
  const DefaultApiUrl := "http://localhost:8080/foo"

  const InvalidCommandMessage := "Invalid git-shell command"

  /** `parseGitCommand`: the command and the quoted path, verbatim, of an
      accepted request, or two empty strings and an error. */
  function ParseGitCommand(fullCommand: string): (r: PairResult)
    ensures r.err.Some? <==> Parse(fullCommand).None?
    ensures r.err.Some? ==> r == PairResult("", "", Some(InvalidCommand(fullCommand)))
    ensures forall c :: WellFormed(c) && Render(c) == fullCommand ==>
      r == PairResult(CommandOf(c), c.quoted, None)
  {
    Submatches(fullCommand, KeepSlash)
  }

  /** The older grammar accepts the same texts and commands as the newer
      one; its path is the newer one's, or that with the `/` the newer one
      removes. */
  lemma ParseKeepsLeadingSlash(s: string)
    ensures var verbatim, stripped := ParseGitCommand(s), GitoriousShell.ParseGitShellCommand(s);
      && verbatim.err == stripped.err && verbatim.first == stripped.first
      && (verbatim.second == stripped.second || verbatim.second == "/" + stripped.second)
  {
    match Parse(s)
    case None =>
    case Some(c) =>
      ParsedPieces(c, StripOneSlash);
  }

  /** `getRealRepoPath` once the API has answered, AS WRITTEN: the body of a
      200 response is returned as it is, trailing newline included. */
  function GetRealRepoPathAsWritten(response: Common.ApiResponse): (r: StringResult)
    ensures r.err.None? <==> response.Response? && response.statusCode == 200 && response.body.BodyText?
    ensures r.err.None? ==> r.value == response.body.text
    ensures r.err.Some? ==> r.value == ""
  {
    match response
    case TransportError(m) => StringResult("", Some(m))
    case Response(code, body) =>
      if code != 200 then StringResult("", Some("got status " + FormatInt(code) + " from API"))
      else match body
        case BodyError(m) => StringResult("", Some(m))
        case BodyText(text) => StringResult(text, None)
  }

  /** The API's line `sickill@THE/PATH.GIT` plus newline: as written, the
      newline stays in the path, where the trimmed reading gives the path
      the API meant. */
  lemma RealRepoPathKeepsNewline(body: string)
    requires body == "sickill@THE/PATH.GIT\n"
    ensures GetRealRepoPathAsWritten(Common.Response(200, Common.BodyText(body))).value != "sickill@THE/PATH.GIT"
    ensures Common.GetRealRepoPath(Common.Response(200, Common.BodyText(body))).value == "sickill@THE/PATH.GIT"
  {
    var path := "sickill@THE/PATH.GIT";
    assert body == path + "\n";
    assert Unpadded(path) by {
      assert path[0] == 's' && path[|path| - 1] == 'T';
    }
    RealRepoPathAsWrittenDiffers(path);
  }

  /** Any real path the API sends as a line of text comes back, as written,
      with the newline in it, so the full path then names no repository the
      API meant. */
  lemma RealRepoPathAsWrittenDiffers(path: string)
    requires Unpadded(path)
    ensures GetRealRepoPathAsWritten(Common.Response(200, Common.BodyText(path + "\n"))).value != path
    ensures Common.GetRealRepoPath(Common.Response(200, Common.BodyText(path + "\n"))).value == path
  {
    assert |path + "\n"| != |path|;
    Common.RealRepoPathUnpadded("", path, "\n");
    assert "" + path + "\n" == path + "\n";
  }

  /** `getFullRepoPath`: the same decision as `Common.GetFullRepoPath`. */
  function GetFullRepoPath(fs: FileSystem, repoPath: string, reposRootPath: string): (r: StringResult)
    ensures r == Common.GetFullRepoPath(fs, repoPath, reposRootPath)
    ensures r.err.None? <==> PreReceiveHookExists(fs, Join([reposRootPath, repoPath]))
  {
    var fullRepoPath := Join([reposRootPath, repoPath]);
    var preReceiveHookPath := Join([fullRepoPath, "hooks", "pre-receive"]);
    if preReceiveHookPath !in fs || fs[preReceiveHookPath] & ExecuteBits == 0 then
      StringResult("", Some("pre-receive hook is missing or is not executable"))
    else
      StringResult(fullRepoPath, None)
  }

  /** `execGitShell`: git-shell runs the command with the inherited
      environment; only its standard error is captured, and its standard
      input and output are not the client's connection. */
  method ExecGitShell(command: string, run: RunOutcome) returns (cmd: Invocation, r: StringResult)
    ensures cmd == GitShell(command, Inherited, false)
    ensures ReportsRun(r, run)
  {
    cmd := GitShell(command, Inherited, false);
    if run.err.Some? {
      r := StringResult(Trim(run.stderr), run.err);
      return;
    }
    r := StringResult("", None);
  }


  // ---------------------------------------------------------------------
  // The session, check by check

  function ReposRoot(environ: seq<string>): string {
    Env.Setting(environ, "REPOSITORIES", DefaultReposRoot)
  }

  function ApiUrl(environ: seq<string>): string {
    Env.Setting(environ, "API_URL", DefaultApiUrl)
  }

  predicate Requested(args: seq<string>, environ: seq<string>) {
    |args| >= 2 && Parse(Env.OriginalCommand(environ)).Some?
  }

  function Request(args: seq<string>, environ: seq<string>): CommandSyntax
    requires Requested(args, environ)
  {
    Parse(Env.OriginalCommand(environ)).value
  }

  /** How the session reads the API's answer: `AsWritten` is
      `getRealRepoPath` as the program has it (the body unchanged),
      `Trimmed` the corrected reading (`Common.GetRealRepoPath`). */
  datatype Reading = AsWritten | Trimmed

  /** The real path under either reading. Both fail on the same answers;
      they differ only in whether the body is trimmed. */
  function ReadRealRepoPath(reading: Reading, response: Common.ApiResponse): (r: StringResult)
    ensures r.err.None? <==> Common.GetRealRepoPath(response).err.None?
    ensures reading == AsWritten && r.err.None? ==> r.value == response.body.text
    ensures reading == Trimmed ==> r == Common.GetRealRepoPath(response)
  {
    match reading
    case AsWritten => GetRealRepoPathAsWritten(response)
    case Trimmed => Common.GetRealRepoPath(response)
  }

  /** Every check passed: the log file opened, the request names a user and
      parses, the API answered with a real path, and the hook is in place
      under the repositories root. */
  predicate Admitted(reading: Reading, logError: Option<string>, args: seq<string>, environ: seq<string>, fs: FileSystem,
                     response: Common.ApiResponse)
  {
    && logError.None?
    && Requested(args, environ)
    && ReadRealRepoPath(reading, response).err.None?
    && PreReceiveHookExists(fs, Join([ReposRoot(environ), ReadRealRepoPath(reading, response).value]))
  }

  /** How a session ends once its request is understood. */
  function Serve(reading: Reading, username: string, command: string, repoPath: string, reposRootPath: string,
                 apiUrl: string, fs: FileSystem, response: Common.ApiResponse, run: RunOutcome): Exit
  {
    var lookup := RealPathCall(Common.RealRepoPathUrl(repoPath, username, apiUrl));
    var realRepoPath := ReadRealRepoPath(reading, response);
    if realRepoPath.err.Some? then Exit(1, Some(AccessDenied), [lookup])
    else
      var fullRepoPath := Join([reposRootPath, realRepoPath.value]);
      if !PreReceiveHookExists(fs, fullRepoPath) then Exit(1, Some(FatalError), [lookup])
      else
        var child := GitShell(FormatGitShellCommand(command, fullRepoPath), Inherited, false);
        if run.err.Some? then Exit(1, Some(FatalError), [lookup, Spawn(child)])
        else Exit(0, None, [lookup, Spawn(child)])
  }

  /** How a session ends, check by check. `logError` is the error
      `configureLogger` met opening the log file, if any; then the program
      writes `error opening file: <error>` to standard error, still the
      client's, and exits with status 1 before any check. */
  function Session(reading: Reading, logError: Option<string>, args: seq<string>, environ: seq<string>, fs: FileSystem,
                   response: Common.ApiResponse, run: RunOutcome): Exit
  {
    if logError.Some? then Exit(1, Some(LogOpenError(logError.value)), [])
    else if |args| < 2 then Exit(1, Some(ErrorOccured), [])
    else if Env.OriginalCommand(environ) == "" then Exit(1, Some(NoShellAccess(args[1])), [])
    else if !Requested(args, environ) then Exit(1, Some(InvalidCommandMessage), [])
    else
      var request := Request(args, environ);
      Serve(reading, args[1], CommandOf(request), request.quoted, ReposRoot(environ), ApiUrl(environ), fs, response, run)
  }

  /** In the second half, the real path is asked for first, and git-shell
      is started exactly when the API gave a real path whose hook, under the
      path as read, is in place. */
  lemma ServeSpawnsOnlyWhenHooked(reading: Reading, username: string, command: string, repoPath: string,
                                  reposRootPath: string, apiUrl: string, fs: FileSystem,
                                  response: Common.ApiResponse, run: RunOutcome)
    ensures var exit := Serve(reading, username, command, repoPath, reposRootPath, apiUrl, fs, response, run);
      var found := ReadRealRepoPath(reading, response);
      && (Spawned(exit.calls) <==> found.err.None? && PreReceiveHookExists(fs, Join([reposRootPath, found.value])))
      && exit.calls[0] == RealPathCall(Common.RealRepoPathUrl(repoPath, username, apiUrl))
  {
    var exit := Serve(reading, username, command, repoPath, reposRootPath, apiUrl, fs, response, run);
    var lookup := RealPathCall(Common.RealRepoPathUrl(repoPath, username, apiUrl));
    var found := ReadRealRepoPath(reading, response);
    if found.err.Some? || !PreReceiveHookExists(fs, Join([reposRootPath, found.value])) {
      assert exit.calls == [lookup];
    } else {
      assert exit.calls[0] == lookup && exit.calls[1].Spawn?;
    }
  }

  /** git-shell runs only after the log file opened and the parse, the
      real-path request and the hook check all succeeded; the API is asked
      with the path exactly as quoted. */
  lemma SessionSpawnsOnlyWhenAdmitted(reading: Reading, logError: Option<string>, args: seq<string>, environ: seq<string>,
                                      fs: FileSystem, response: Common.ApiResponse, run: RunOutcome)
    ensures var exit := Session(reading, logError, args, environ, fs, response, run);
      && (Spawned(exit.calls) <==> Admitted(reading, logError, args, environ, fs, response))
      && (|exit.calls| > 0 <==> logError.None? && Requested(args, environ))
      && (logError.None? && Requested(args, environ) ==>
            exit.calls[0] == RealPathCall(Common.RealRepoPathUrl(Request(args, environ).quoted, args[1], ApiUrl(environ))))
  {
    if logError.None? && Requested(args, environ) {
      var request := Request(args, environ);
      ServeSpawnsOnlyWhenHooked(reading, args[1], CommandOf(request), request.quoted, ReposRoot(environ),
                                ApiUrl(environ), fs, response, run);
    }
  }

  /** The session succeeds exactly when every check passed and git-shell
      succeeded; otherwise the status is 1 and the user is told why, with the
      log file's error when it could not be opened. */
  lemma SessionSucceedsOnlyWhenAdmitted(reading: Reading, logError: Option<string>, args: seq<string>, environ: seq<string>,
                                        fs: FileSystem, response: Common.ApiResponse, run: RunOutcome)
    ensures var exit := Session(reading, logError, args, environ, fs, response, run);
      && (exit.code == 0 <==> Admitted(reading, logError, args, environ, fs, response) && run.err.None?)
      && (exit.code != 0 ==> exit.code == 1 && exit.said.Some?)
      && (logError.Some? ==> exit.said == Some(LogOpenError(logError.value)))
  {
  }

  /** The repository the API names with a line of text: only its hook is
      installed under the root. */
  function LineFixture(reposRootPath: string, path: string): FileSystem {
    map[HookPath(Join([reposRootPath, path])) := 0x1ED]
  }

  /** As written, a real path the API sends as a line of text (as the test
      server does) fails the hook check: the program looks for the hook
      under the path with its newline, says "Fatal error" and exits with
      status 1 without starting git-shell. */
  lemma NewlinePathRefused(args: seq<string>, environ: seq<string>, path: string, run: RunOutcome)
    requires Requested(args, environ) && path != "" && Unpadded(path)
    ensures var exit := Session(AsWritten, None, args, environ, LineFixture(ReposRoot(environ), path),
                                Common.Response(200, Common.BodyText(path + "\n")), run);
      && exit.code == 1 && exit.said == Some(FatalError) && !Spawned(exit.calls)
  {
    var root := ReposRoot(environ);
    var line := path + "\n";
    JoinTwo(root, path);
    JoinTwo(root, line);
    JoinThree(root + "/" + path, "hooks", "pre-receive");
    JoinThree(root + "/" + line, "hooks", "pre-receive");
    var k := |root| + 1 + |path|;
    assert (root + "/" + line + "/hooks/pre-receive")[k] == '\n';
    assert (root + "/" + path + "/hooks/pre-receive")[k] == '/';
    assert !PreReceiveHookExists(LineFixture(root, path), Join([root, line]));
  }

  /** The fixture's repository has its hook in place. */
  lemma LineFixtureHooked(reposRootPath: string, path: string)
    ensures PreReceiveHookExists(LineFixture(reposRootPath, path), Join([reposRootPath, path]))
  {
  }

  /** Read trimmed, the second half serves a path sent as a line of text. */
  lemma TrimmedLineServed(username: string, command: string, repoPath: string, reposRootPath: string,
                          apiUrl: string, path: string, run: RunOutcome)
    requires Unpadded(path) && run.err.None?
    ensures var exit := Serve(Trimmed, username, command, repoPath, reposRootPath, apiUrl,
                              LineFixture(reposRootPath, path), Common.Response(200, Common.BodyText(path + "\n")), run);
      exit.code == 0 && Spawned(exit.calls)
  {
    var response := Common.Response(200, Common.BodyText(path + "\n"));
    assert ReadRealRepoPath(Trimmed, response) == StringResult(path, None) by {
      Common.RealRepoPathUnpadded("", path, "\n");
      assert "" + path + "\n" == path + "\n";
    }
    LineFixtureHooked(reposRootPath, path);
    ServeSpawnsOnlyWhenHooked(Trimmed, username, command, repoPath, reposRootPath, apiUrl,
                              LineFixture(reposRootPath, path), response, run);
  }

  /** Read trimmed, the same session serves the repository: git-shell runs
      on the path the API meant, and the session succeeds when git-shell
      does. */
  lemma NewlinePathServedWhenTrimmed(args: seq<string>, environ: seq<string>, path: string, run: RunOutcome)
    requires Requested(args, environ) && path != "" && Unpadded(path) && run.err.None?
    ensures var exit := Session(Trimmed, None, args, environ, LineFixture(ReposRoot(environ), path),
                                Common.Response(200, Common.BodyText(path + "\n")), run);
      && exit.code == 0 && Spawned(exit.calls)
  {
    var root, fs := ReposRoot(environ), LineFixture(ReposRoot(environ), path);
    var response := Common.Response(200, Common.BodyText(path + "\n"));
    var request := Request(args, environ);
    var exit := Serve(Trimmed, args[1], CommandOf(request), request.quoted, root, ApiUrl(environ), fs, response, run);
    assert Session(Trimmed, None, args, environ, fs, response, run) == exit;
    TrimmedLineServed(args[1], CommandOf(request), request.quoted, root, ApiUrl(environ), path, run);
  }

  /** The second half of `main`, from the real-path request on, reading the
      API's answer as `getRealRepoPath` does. */
  method ServeRequest(username: string, command: string, repoPath: string, reposRootPath: string,
                      apiUrl: string, fs: FileSystem, response: Common.ApiResponse, run: RunOutcome)
    returns (exit: Exit)
    ensures exit == Serve(AsWritten, username, command, repoPath, reposRootPath, apiUrl, fs, response, run)
  {
    var calls := [RealPathCall(Common.RealRepoPathUrl(repoPath, username, apiUrl))];
    var realRepoPath := GetRealRepoPathAsWritten(response);
    if realRepoPath.err.Some? {
      return Exit(1, Some(AccessDenied), calls);
    }

    var fullRepoPath := GetFullRepoPath(fs, realRepoPath.value, reposRootPath);
    if fullRepoPath.err.Some? {
      return Exit(1, Some(FatalError), calls);
    }

    var gitShellCommand := FormatGitShellCommand(command, fullRepoPath.value);
    var cmd, result := ExecGitShell(gitShellCommand, run);
    calls := calls + [Spawn(cmd)];
    if result.err.Some? {
      return Exit(1, Some(FatalError), calls);
    }
    return Exit(0, None, calls);
  }

  /** `main`. `logError` is the error `configureLogger` met opening the
      log file, if any. */
  method Run(logError: Option<string>, args: seq<string>, environ: seq<string>, fs: FileSystem, response: Common.ApiResponse,
             run: RunOutcome)
    returns (exit: Exit)
    ensures exit == Session(AsWritten, logError, args, environ, fs, response, run)
  {
    var reposRootPath := Env.Getenv(environ, "REPOSITORIES", DefaultReposRoot);
    var apiUrl := Env.Getenv(environ, "API_URL", DefaultApiUrl);
    if logError.Some? {
      return Exit(1, Some(LogOpenError(logError.value)), []);
    }

    if |args| < 2 {
      return Exit(1, Some(ErrorOccured), []);
    }
    var username := args[1];
    var sshOriginalCommand := Trim(Env.LookupEnv(environ, "SSH_ORIGINAL_COMMAND"));
    assert sshOriginalCommand == Env.OriginalCommand(environ);
    if sshOriginalCommand == "" {
      return Exit(1, Some(NoShellAccess(username)), []);
    }

    var parsed := ParseGitCommand(sshOriginalCommand);
    if parsed.err.Some? {
      return Exit(1, Some(InvalidCommandMessage), []);
    }
    var command, repoPath := parsed.first, parsed.second;
    ghost var request := Request(args, environ);
    assert command == CommandOf(request) && repoPath == request.quoted;
    assert reposRootPath == ReposRoot(environ) && apiUrl == ApiUrl(environ);

    exit := ServeRequest(username, command, repoPath, reposRootPath, apiUrl, fs, response, run);
  }
}
