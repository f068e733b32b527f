/** Child processes: what the gateway asks the operating system to run, and
    what it gets back. The process itself is a collaborator. */
module Process {
  import opened Wrappers
  import opened Strings

  /** `cmd.Env`: `nil` makes the child inherit the gateway's environment. */
  datatype ChildEnv = Inherited | Explicit(vars: seq<string>)

  /** A child process to start. `connected` says whether its standard input
      and output are the client's connection (`cmd.Stdin = os.Stdin`,
      `cmd.Stdout = os.Stdout`); its standard error is always captured. */
  datatype Invocation = Invocation(program: string, args: seq<string>, env: ChildEnv, connected: bool)

  /** What `cmd.Run()` returned, and the text the child wrote to its
      standard error. */
  datatype RunOutcome = RunOutcome(err: Option<string>, stderr: string)

  /** `exec.Command("git-shell", "-c", command)`. */
  function GitShell(command: string, env: ChildEnv, connected: bool): Invocation {
    Invocation("git-shell", ["-c", command], env, connected)
  }

  /** How every `execGitShell` reports a finished child: `("", nil)` when it
      succeeded, otherwise its standard error without surrounding spaces and
      newlines, together with the error. */
  predicate ReportsRun(r: StringResult, run: RunOutcome) {
    && r.err == run.err
    && (run.err.None? ==> r.value == "")
    && (run.err.Some? ==> r.value == Trim(run.stderr))
  }

  /** A collaborator call made while serving one session, in order.
      `Printed` is a `fmt.Println` of `line` to the process's standard
      output, which for an SSH entry point is the client's connection. */
  datatype Call =
    | RepoConfigCall(apiUrl: string, repoPath: string, username: string)
    | RealPathCall(url: string)
    | AuthenticateCall(login: string, password: string)
    | Spawn(invocation: Invocation)
    | Printed(line: string)

  predicate Spawned(calls: seq<Call>) {
    exists k :: 0 <= k < |calls| && calls[k].Spawn?
  }

  predicate AskedForConfig(calls: seq<Call>) {
    exists k :: 0 <= k < |calls| && calls[k].RepoConfigCall?
  }

  /** How an SSH session ends: the exit status, the line shown to the user
      on standard error (if any), and the collaborator calls made. */
  datatype Exit = Exit(code: int, said: Option<string>, calls: seq<Call>)

  // ---------------------------------------------------------------------
  // What the SSH entry points tell the user before giving up

  const ErrorOccured := "Error occured, please contact support"
  const AccessDenied := "Access denied or invalid repository path"
  const FatalError := "Fatal error, please contact support"

  /** What `configureLogger`'s `log.Fatalf` writes to standard error when
      the log file cannot be opened (the logger's date and time prefix
      aside). */
  function LogOpenError(err: string): (line: string)
    ensures HasPrefix(line, "error opening file: ") && line[|"error opening file: "|..] == err
  {
    "error opening file: " + err
  }

  /** The greeting that turns away an interactive login. */
  function NoShellAccess(username: string): string {
    "Hey " + username + "! Sorry, Gitorious doesn't provide shell access. Bye!"
  }
}
