/** The SSH protocol handler (protocol/ssh.go): the user and the requested
    command of one SSH session, the same command grammar as the SSH entry
    point, and the git-shell proxy. */
module ProtocolSsh {
  import opened Wrappers
  import opened Strings
  import opened GitCommand
  import opened Process
  import Env
  import GitoriousShell

  /** `SshProtocolHandler`: the handler is a value; none of its operations
      changes it. */
  datatype SshProtocolHandler = SshProtocolHandler(username: string, sshCommand: string) {

    /** `GetUsername`: the session's user, without ever failing. */
    function GetUsername(): (r: StringResult)
      ensures r.err.None? && r.value == username
    {
      StringResult(username, None)
    }

    /** `ParseCommand`: the path and the command of an accepted request, in
        that order, with one leading `/` of the path removed; two empty
        strings and an error otherwise. */
    function ParseCommand(): (r: PairResult)
      ensures r.err.Some? <==> Parse(sshCommand).None?
      ensures r.err.Some? ==> r == PairResult("", "", Some(InvalidCommand(sshCommand)))
      ensures forall c :: WellFormed(c) && Render(c) == sshCommand ==>
        r == PairResult(PathOf(c, StripOneSlash), CommandOf(c), None)
    {
      var m := Submatches(sshCommand, StripOneSlash);
      PairResult(m.second, m.first, m.err)
    }

    /** `RunProxy`: git-shell runs the command with the inherited environment
        plus the protocol and the user, connected to the client; `run` is how
        the child ended. The repository configuration the source receives is
        not used by it. */
    method RunProxy(environ: seq<string>, command: string, username: string, run: RunOutcome)
      returns (cmd: Invocation, r: StringResult)
      ensures cmd == GitShell(command, Explicit(Env.SshIdentityEnv(environ, username)), true)
      ensures ReportsRun(r, run)
    {
      var env := environ;
      env := env + [Env.Entry(Env.Name(Env.Proto), "ssh")];
      env := env + [Env.Entry(Env.Name(Env.User), username)];
      assert env == environ + [Env.Entry(Env.Name(Env.Proto), "ssh"), Env.Entry(Env.Name(Env.User), username)];
      cmd := GitShell(command, Explicit(env), true);
      if run.err.Some? {
        r := StringResult(Trim(run.stderr), run.err);
        return;
      }
      r := StringResult("", None);
    }
  }

  /** The handler reads a command exactly as the SSH entry point does, and
      returns the two halves swapped. */
  lemma ParseCommandSwapsPair(h: SshProtocolHandler)
    ensures var r, s := h.ParseCommand(), GitoriousShell.ParseGitShellCommand(h.sshCommand);
      r.first == s.second && r.second == s.first && r.err == s.err
  {
    var s := GitoriousShell.ParseGitShellCommand(h.sshCommand);
    match Parse(h.sshCommand)
    case None =>
    case Some(c) =>
      assert s == PairResult(CommandOf(c), PathOf(c, StripOneSlash), None);
  }
}
