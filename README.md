# Gitorious access gateway: a Dafny model

Gitorious serves git repositories over SSH and over smart HTTP through a small
gateway. The SSH side is the forced command of `authorized_keys`: a
"gitorious shell" that reads the command the client asked for, checks it
against a fixed grammar, asks Gitorious' internal API where the repository
really lives, checks that the repository's `pre-receive` hook is in place
and hands the request to `git-shell`. The HTTP side is a handler that reads
Basic credentials, splits the URL path into a repository and a resource,
refuses anonymous pushes, asks the API for the repository's configuration,
checks the hook and hands the request to `git http-backend` through CGI.
Both hand the hooks an environment of `GITORIOUS_*` variables describing the
request.

This project models that decision and string logic:

- the SSH command grammar and its four parsers (`GitCommand`, and the
  parsers in `GitoriousShell`, `SshShell`, `LegacyShell` and `ProtocolSsh`);
- the HTTP path splitter, the Basic credential parser and the Base64 decoder
  it relies on (`HttpBackend`, `BasicAuth`, `Base64`);
- the hook environment builder and `Getenv` (`Env`);
- the hook-integrity check and the full-path lookups (`Hooks`,
  `RepositoryStore`, `Common`, `Paths`);
- the request pipelines of the three SSH entry points and of the HTTP
  handler, as functions from the collaborators' answers to the outcome,
  with the imperative code of the sources as methods proved equal to those
  functions.

The collaborators (the internal API, the filesystem, the child process) are
parameters: the API's answers are `Api` values, the filesystem is a map from
path to file mode (`Paths.FileSystem`), and a child process is described by
what was asked to run (`Process.Invocation`) and by how it ended
(`Process.RunOutcome`). Each pipeline also returns the collaborator calls it
made, in order, so that the order of the checks can be stated; a line the
program itself prints to standard output is recorded among them
(`Process.Printed`), since for an SSH entry point that output is the
client's connection.

## Model

| member | source | states |
|---|---|---|
| GitCommand.OperationAt | gitorious-shell/main.go:25 | the service alternative the regular expression matches at the start of the text is one whose name really is a prefix of it |
| GitCommand.OperationAtName | gitorious-shell/main.go:25 | each service name is recognised as itself, whatever follows it |
| GitCommand.ParseQuoted | gitorious-shell/main.go:25 | a match of `\s+'[^']+'` to the end of the text gives a non-empty whitespace run and a non-empty, quote-free path that rebuild the text |
| GitCommand.Parse | gitorious-shell/main.go:25-33 | a text the grammar accepts is well formed and is exactly the rendering of the pieces it is split into |
| GitCommand.ParseRender | gitorious-shell/main.go:25-33 | every text of the shape `git`, separator, service, whitespace, quoted path is accepted and split back into exactly those pieces |
| GitCommand.ParseComplete | gitorious-shell/main.go:25-33 | the grammar accepts a text exactly when some well-formed command renders to it, and then returns that command |
| GitCommand.RenderInjective | gitorious-shell/main.go:25 | the submatches are determined by the text: two well-formed commands with the same rendering are equal |
| GitCommand.ParsedPieces | gitorious-shell/main.go:25 | the returned path is non-empty and quote-free; the verbatim rule returns the quoted text, the `/?` rule removes at most one leading `/` (`'//x'` gives `/x`) |
| GitCommand.Submatches | gitorious-shell/main.go:27-34 | a rejected text gives two empty strings and the `invalid git-shell command` error; an accepted one gives the `git…` prefix and the path |
| GitCommand.FormatGitShellCommand | gitorious-shell/main.go:36-38 | the command line is the command, a space and the path in single quotes, each piece readable back from its position |
| GitCommand.FormatParses | gitorious-shell/main.go:36-38 | `formatGitShellCommand(c, p)` is `c + " '" + p + "'"`, a text the grammar accepts with the same command and path |
| GitCommand.FormatRoundTrip | gitorious-shell/main.go:25-38 | parsing a formatted command gives back the command and the path (with the rule's treatment of a leading `/`) |
| GitCommand.AcceptedShape | gitorious-shell/main.go:25 | an accepted text starts with `git`, then `-` or a `\s` character, then a service name, and ends with `'` |
| GitCommand.RejectsOtherProgram | gitorious-shell/main_test.go:28 | a text that does not start with `git` (such as `cvs server`) is rejected |
| GitCommand.RejectsUnquoted | gitorious-shell/main_test.go:27 | a text that does not end in `'` (an unquoted path) is rejected |
| GitCommand.RejectsOtherService | gitorious-shell/main_test.go:26 | a subcommand other than the three services (such as `update-ref`) is rejected |
| GitCommand.RejectsEmptyPath | gitorious-shell/main_test.go:25 | an empty quoted path `''` is rejected |
| GitoriousShell.ParseGitShellCommand | gitorious-shell/main.go:27-34 | error exactly when the grammar rejects the text, then `("", "")`; otherwise the command and the path without one leading `/` |
| GitoriousShell.FormatThenParse | gitorious-shell/main.go:25-38 | `parse(format(c, p)) == (c, p)` for a non-empty quote-free `p` not starting with `/`, and `format(c, "/" + p)` also parses to `(c, p)` |
| GitoriousShell.CreateSshEnv | gitorious-shell/main.go:51-53 | the SSH session environment is exactly the hook environment for protocol `ssh` |
| GitoriousShell.ExecGitShell | gitorious-shell/main.go:55-68 | git-shell runs the command with the given environment, connected to the client; `("", nil)` on success, trimmed stderr and the error on failure |
| GitoriousShell.ServeSpawnsOnlyWhenHooked | gitorious-shell/main.go:105-128 | the configuration is looked up first; git-shell is started, as the last call, exactly when the configuration was found and its hook is executable |
| GitoriousShell.ServePrintsNothing | gitorious-shell/main.go:105-128 | the second half prints nothing; once the hook is found, git-shell on the client's connection is the only call after the lookup |
| GitoriousShell.SessionSpawnsOnlyWhenAdmitted | gitorious-shell/main.go:84-128 | git-shell is started exactly when the user argument, a non-empty command, the parse, the configuration lookup and the hook check all passed |
| GitoriousShell.SessionLooksUpOnlyParsedRequests | gitorious-shell/main.go:84-105 | the configuration is asked for exactly when the user argument is present and the command parses, as the first call and with the parsed path |
| GitoriousShell.SessionSucceedsOnlyWhenAdmitted | gitorious-shell/main.go:84-128 | exit status 0 exactly when every check passed and git-shell succeeded; otherwise status 1 with a message to the user |
| GitoriousShell.SessionHandover | gitorious-shell/main.go:113-124 | an admitted session runs git-shell on `<command> '<root>/<real path>'` with the hook environment of the configuration |
| GitoriousShell.ServeRequest | gitorious-shell/main.go:105-128 | the step-by-step second half of `main` ends exactly as the session function says |
| GitoriousShell.Run | gitorious-shell/main.go:70-131 | `main`, check by check, ends exactly as the session function says |
| GitoriousShell.SessionPrintsNothing | gitorious-shell/main.go:113-124 | no session prints a line; in an admitted session git-shell, on the client's connection, is the only call after the lookup |
| SshShell.ParseGitCommand | ssh/gitorious-shell.go:44-53 | same grammar and error as the newer shell, one leading `/` removed |
| SshShell.ExecGitShell | ssh/gitorious-shell.go:59-78 | git-shell gets the inherited environment plus exactly `GITORIOUS_PROTO=ssh` and `GITORIOUS_USER=<user>`; result mapping as above |
| SshShell.ServeSpawnsOnlyWhenHooked | ssh/gitorious-shell.go:110-129 | the real path is asked for first; once the API gave one, the hook's path is printed to the client next; git-shell is started, last, exactly when the API gave a real path whose hook is executable |
| SshShell.ClientReadsHookPathFirst | ssh/gitorious-shell.go:116-125 | in every admitted session the client's connection receives the printed hook path, and then git-shell is started on that same connection |
| SshShell.SessionSpawnsOnlyWhenAdmitted | ssh/gitorious-shell.go:86-125 | git-shell starts exactly when the log file opened and all checks passed; the API is asked exactly for parsed requests with a user once the log file is open, first, with the parsed path |
| SshShell.SessionSucceedsOnlyWhenAdmitted | ssh/gitorious-shell.go:86-129 | status 0 exactly when the log file opened, every check passed and git-shell succeeded; otherwise status 1 with a message to the user, which is `error opening file: <error>` when the log file could not be opened |
| SshShell.ServeRequest | ssh/gitorious-shell.go:110-129 | the second half of `main` ends exactly as the session function says |
| SshShell.Run | ssh/gitorious-shell.go:80-132 | `main`, check by check, ends exactly as the session function says, including the status-1 exit with `error opening file: <error>` on standard error when the log file cannot be opened |
| Process.LogOpenError | ssh/gitorious-shell.go:33-36 | the line `configureLogger` writes to standard error when the log file cannot be opened is `error opening file: ` followed by the error |
| LegacyShell.ParseGitCommand | gitorious-shell.go:45-54 | same grammar, but the quoted path is returned verbatim; a rejected text gives `("", "")` and the error |
| LegacyShell.ParseKeepsLeadingSlash | gitorious-shell.go:45-54 | the older parser accepts exactly the texts the newer one does, with the same command, and its path is the newer one's or that with a `/` in front |
| LegacyShell.GetRealRepoPathAsWritten | gitorious-shell.go:56-74 | as written: a 200 response with a readable body gives the body unchanged; anything else gives `""` and an error |
| LegacyShell.RealRepoPathKeepsNewline | gitorious-shell.go:73 | the API's line `sickill@THE/PATH.GIT` plus newline comes back with the newline as written, and without it when trimmed |
| LegacyShell.RealRepoPathAsWrittenDiffers | gitorious-shell_test.go:59 | for every unpadded path sent as a line of text, the as-written result differs from the path and the trimmed one equals it |
| LegacyShell.GetFullRepoPath | gitorious-shell.go:76-85 | the same decision as `Common.GetFullRepoPath`: the joined path exactly when its hook is executable |
| LegacyShell.ExecGitShell | gitorious-shell.go:91-101 | git-shell runs with the inherited environment, not connected to the client; result mapping as above |
| LegacyShell.ReadRealRepoPath | gitorious-shell.go:56-74 | the as-written and the trimmed reading of the API's answer fail on the same answers; as written the path is the body unchanged, trimmed it is `Common.GetRealRepoPath` |
| LegacyShell.ServeSpawnsOnlyWhenHooked | gitorious-shell.go:133-154 | under either reading, the real path is asked for first; git-shell is started exactly when the API gave a real path whose hook, under the path as read, is executable |
| LegacyShell.SessionSpawnsOnlyWhenAdmitted | gitorious-shell.go:109-150 | git-shell runs only after the log file opened and the parse, the real-path lookup and the hook check succeeded; the API is asked, first, with the path exactly as quoted |
| LegacyShell.SessionSucceedsOnlyWhenAdmitted | gitorious-shell.go:109-154 | status 0 exactly when the log file opened, every check passed and git-shell succeeded; otherwise status 1 with a message to the user, which is `error opening file: <error>` when the log file could not be opened |
| LegacyShell.NewlinePathRefused | gitorious-shell.go:133-143 | as written, for every request, a real path the API sends as a line of text fails the hook check even though the repository's hook is in place: "Fatal error", status 1, git-shell not started |
| LegacyShell.NewlinePathServedWhenTrimmed | gitorious-shell.go:133-154 | with the answer trimmed, the same session starts git-shell and succeeds when git-shell does |
| LegacyShell.TrimmedLineServed | gitorious-shell.go:133-154 | read trimmed, the second half starts git-shell and succeeds for a path sent as a line of text whose hook is in place |
| LegacyShell.ServeRequest | gitorious-shell.go:133-154 | the second half of `main`, reading the answer as `getRealRepoPath` does, ends exactly as the as-written session function says |
| LegacyShell.Run | gitorious-shell.go:103-157 | `main`, check by check, ends exactly as the as-written session function says, including the status-1 exit with `error opening file: <error>` on standard error when the log file cannot be opened |
| ProtocolSsh.SshProtocolHandler.GetUsername | protocol/ssh.go:19-21 | returns the stored user and never fails |
| ProtocolSsh.SshProtocolHandler.ParseCommand | protocol/ssh.go:23-32 | same grammar, one leading `/` removed, the pair returned as `(path, command)`; `("", "")` and the error when rejected |
| ProtocolSsh.ParseCommandSwapsPair | protocol/ssh.go:31 | the handler's pair is the SSH entry point's pair swapped, with the same error |
| ProtocolSsh.SshProtocolHandler.RunProxy | protocol/ssh.go:34-53 | git-shell gets the inherited environment plus exactly the protocol `ssh` and the user, no repository keys; result mapping as above |
| Env.CreateEnv | common/env.go:10-43 | the three unconditional and six conditional appends build exactly the inherited environment, the hook entries and the non-empty optional entries |
| Env.AppendIfSet | common/env.go:18-20 | one conditional append adds the entry for the variable exactly when its value is non-empty |
| Env.CreateEnvLayout | common/env.go:10-43 | the inherited environment is an unchanged prefix, then `GITORIOUS_PROTO`, `GITORIOUS_USER`, `GITORIOUS_REPOSITORY_ID` (always, even for id 0), then the optional entries; the length is that of the inherited one plus 3 plus the number of non-empty fields |
| Env.OptionalKeyIffNonEmpty | common/env.go:18-40 | each optional variable is present after the hook entries exactly when its field is non-empty, and only with that field as its value |
| Env.OptionalEntriesNonEmpty | common/env.go:18-40 | every entry after the hook entries belongs to an optional variable with a non-empty value |
| Env.OptionalEntriesOrdered | common/env.go:18-40 | the optional entries follow the fixed order: SSH, HTTP, git clone URLs, then pre-receive, post-receive and update paths |
| Env.HookReadsRequest | common/env.go:10-43 | a hook reading the environment gets each `GITORIOUS_*` variable's request value, and `""` for an optional field left empty |
| Env.NameInjective | common/env.go:14-39 | the variable names contain no `=` and are pairwise different |
| Env.PresentMentions | common/env.go:18-40 | for a table without repeated variables, a variable is mentioned exactly when its value is non-empty, and then with that value |
| Env.PresentSound | common/env.go:18-40 | every optional entry comes from a field with a non-empty value |
| Env.PresentComplete | common/env.go:18-40 | every field with a non-empty value is emitted |
| Env.PresentOrder | common/env.go:18-40 | two non-empty fields are emitted in table order |
| Env.PresentLength | common/env.go:18-40 | the number of optional entries is the number of non-empty fields |
| Env.PresentLookup | common/env.go:18-40 | reading a variable from the optional entries gives its field, or `""` when the table does not hold it |
| Env.Getenv | common/env.go:45-53 | the variable's value when it is non-empty, the default otherwise |
| Env.Setting | gitorious-shell.go:23-31 | the value the `getenv` helpers settle on is the variable's or the default, and is non-empty whenever the default is |
| Env.LookupEnvFirst | common/env.go:46 | `os.Getenv` reads the first entry for the name, and `""` when there is none, so a variable set to `""` falls back like an unset one |
| Env.LookupEnvSkips | common/env.go:46 | entries for other names in front do not change what is read |
| Env.SshIdentityReads | ssh/gitorious-shell.go:62-64 | hooks of the SSH proxies read the protocol `ssh` and the user, and no repository setting the gateway did not already have |
| Hooks.ExecutableIffSomeExecuteBit | common/hooks.go:11 | any one of the owner, group and other execute bits makes the hook executable |
| Hooks.PreReceiveHookExists | common/hooks.go:8-16 | true exactly when the hook path can be looked up and one of the owner, group and other execute bits is set |
| Hooks.HookExistsIff | common/hooks.go:8-16 | the check is true exactly when `<repo>/hooks/pre-receive` exists with `mode & 0111 != 0` |
| Hooks.MissingRepositoryHasNoHook | common/hooks.go:11 | a repository directory that does not exist has no hook |
| Hooks.FixtureHookWithHook | common/hooks_test.go:10 | the fixture repository with an executable hook passes |
| Hooks.FixtureHookNotExecutable | common/hooks_test.go:11 | a hook without execute bits fails |
| Hooks.FixtureHookMissing | common/hooks_test.go:12 | a repository whose `hooks` directory has no pre-receive file fails |
| Hooks.FixtureRepositoryMissing | common/hooks_test.go:13 | a repository that does not exist fails |
| RepositoryStore.GitoriousRepositoryStore.GetFullRepoPath | common/repository_store.go:17-26 | `Join(Root, path)` exactly when its hook is executable, otherwise `""` and the hook error |
| RepositoryStore.FullRepoPathUnderRoot | common/repository_store.go:18-25 | for a root and a relative path, the result is `root/path`, returned exactly when `root/path/hooks/pre-receive` is executable |
| Common.GetFullRepoPath | common/common.go:33-43 | the same decision and value as the repository store rooted at `reposRootPath` |
| Common.GetFullRepoPathOutput | common/common.go:36-37 | the line printed to standard output is the hook's path, `<root>/<path>/hooks/pre-receive` |
| Common.RealRepoPathUrl | gitorious-shell.go:57 | the request URL is the API address, `?username=`, the user, then `&path=` and the path, each readable back from its position |
| Common.GetRealRepoPath | common/common.go:13-31 | a 200 response with a readable body gives the body trimmed of spaces and newlines; a non-200 status gives `""` and `got status <n> from API`; any other failure gives `""` and an error |
| Common.RealRepoPathUnpadded | common/common.go:30 | a path the API pads with spaces and newlines comes back exactly |
| Common.RealRepoPathExamples | common/common_test.go:18-19 | `sickill@THE/PATH.GIT` plus newline gives the path; a 403 gives `""` and an error |
| HttpBackend.LastSplit | gitorious-http-backend/main.go:27 | the largest index at which the pattern's first group can end, or none |
| HttpBackend.ParsePath | gitorious-http-backend/main.go:27-36 | accepted exactly when the pattern matches; then the path is `"/" + repo + slug`, `repo` ends in `.git`, `slug` is `/` followed by at least one character, no newline, and `repo` is the longest possible |
| HttpBackend.ParsePathSplits | gitorious-http-backend/main.go:27-35 | a repository path ending in `.git` and a resource starting with `/` come back from the URL path they make up |
| HttpBackend.ParsePathAccepts | gitorious-http-backend/main_test.go:23-26 | `/the/path.git` followed by `/HEAD`, `/info/refs`, `/git-upload-pack` or `/git-receive-pack` gives `the/path.git` and that resource; and, as an example of the greedy match, `/a.git/b.git` followed by any of them gives `a.git/b.git`, the last `.git/` boundary |
| HttpBackend.ParsePathRejects | gitorious-http-backend/main_test.go:27-30 | a newline, no resource, no `.git` and the root are rejected with `("", "")` and the error |
| HttpBackend.CreateHttpEnv | gitorious-http-backend/main.go:38-46 | the hook environment for `http` followed by exactly `REMOTE_USER`, `GIT_HTTP_EXPORT_ALL=1` and `PATH_TRANSLATED`, in that order |
| HttpBackend.ConfigEnvOmits | common/env.go:10-43 | the hook environment sets no key outside the `GITORIOUS_` family that the gateway's own environment does not set |
| HttpBackend.BackendReadsRequest | gitorious-http-backend/main.go:41-43 | git-http-backend reads the user, the export switch and the translated path the gateway set |
| HttpBackend.ServePathDelegatesOnlyWhenHooked | gitorious-http-backend/main.go:91-136 | after the credentials, git-http-backend answers exactly when the path matches, the push is not anonymous, the configuration was found and its hook is executable |
| HttpBackend.RespondDelegatesOnlyWhenAdmitted | gitorious-http-backend/main.go:64-139 | git-http-backend answers exactly when every check passed, last, with `PATH_TRANSLATED` the full path followed by the resource |
| HttpBackend.RespondStatus | gitorious-http-backend/main.go:71-129 | the reply to each failed check: 500 when the credentials cannot be checked, 401 with a challenge when rejected, 400 for a path that does not match, 401 with a challenge for an anonymous push or an API 403, 404 for an API 404, 500 for any other API failure and 500 for a missing hook |
| HttpBackend.RespondChecksCredentialsFirst | gitorious-http-backend/main.go:71-87 | credentials in the header are authenticated first, and a failed or rejected authentication decides the reply before the path is looked at |
| HttpBackend.AnonymousPushRefused | gitorious-http-backend/main.go:98-102 | an anonymous push (by the `service` parameter or the resource) gets 401 with a challenge and the configuration is never asked for |
| HttpBackend.ServePathChallengeIffUnauthorized | gitorious-http-backend/main.go:91-129 | every refusal after the credentials is 400, 401, 404 or 500, and carries the challenge exactly when it is 401 |
| HttpBackend.ChallengeIffUnauthorized | gitorious-http-backend/main.go:22-25 | every refusal is 400, 401, 404 or 500, and carries `WWW-Authenticate: Basic realm="Gitorious"` exactly when it is 401 |
| HttpBackend.ServeRequest | gitorious-http-backend/main.go:91-136 | the step-by-step second half of `ServeHTTP` ends as the specification function says |
| HttpBackend.ServeHTTP | gitorious-http-backend/main.go:64-139 | `ServeHTTP` step by step ends exactly as the specification function says (500, 401, 400, 401, 401 for a 403, 404, 500, 500, or delegation) |
| BasicAuth.ParseBasicAuth | gitorious-http-backend/basicauth.go:26-40 | ok exactly when the header starts with `Basic `, the rest is Base64 and the decoded text has a colon; then the text is `user:password` split at the first colon; otherwise both strings are empty |
| BasicAuth.RequestBasicAuth | gitorious-http-backend/basicauth.go:16-22 | the same as `parseBasicAuth` of the header, and not ok for an empty header |
| BasicAuth.ParseHeader | gitorious-http-backend/basicauth.go:26-39 | for a user name without a colon, `parseBasicAuth("Basic " + base64(user + ":" + password))` gives the user, the password and true |
| BasicAuth.FirstColon | gitorious-http-backend/basicauth.go:35 | the first colon of `user:password` is the one after a colon-free user name |
| BasicAuth.NoColonRejected | gitorious-http-backend/basicauth.go:35-38 | decoded text without a colon gives no credentials |
| BasicAuth.OtherSchemeRejected | gitorious-http-backend/basicauth.go:27-29 | a header without the exact `Basic ` prefix gives no credentials |
| Base64.DecodeSextet | gitorious-http-backend/basicauth.go:30 | an alphabet character decodes to the 6-bit value that encodes back to it |
| Base64.Encode | gitorious-http-backend/main_test.go:84 | the encoding `SetBasicAuth` sends (here and at api/public.go:37) is whole quanta of four characters with no line breaks |
| Base64.Decode | gitorious-http-backend/basicauth.go:30 | whatever decodes is a byte string |
| Base64.DecodeEncode | gitorious-http-backend/basicauth.go:30 | decoding undoes encoding for every byte string |
| Base64.DecodeQuantaEncode | gitorious-http-backend/basicauth.go:30 | the quanta of an encoding decode to the bytes encoded |
| Base64.DecodeRejects | gitorious-http-backend/basicauth.go:30-33 | input whose length without line breaks is not a multiple of four is corrupt, and so is any quantum holding padding (`xy==`, `xyz=`, ...) that more input follows, also when `Decode` is given that text without line breaks |
| Base64.StripNewlinesSkips | gitorious-http-backend/basicauth.go:30 | line breaks anywhere in the input are ignored |
| Strings.Trim | common/common.go:30 | the trimmed text is no longer than the input and neither end is a space or newline |
| Strings.TrimPadded | common/common.go:30 | any spaces and newlines around an unpadded text are exactly what `strings.Trim(s, " \n")` removes |
| Strings.TrimRemovesOnlyPadding | common/common.go:30 | `Trim` removes nothing but spaces and newlines at the two ends |
| Strings.TrimIdempotent | common/common.go:30 | trimming twice is trimming once |
| Strings.IndexByte | gitorious-http-backend/basicauth.go:35 | the index of the first occurrence, or -1 exactly when the character does not occur |
| Strings.FormatIntReadsBack | common/env.go:16 | the decimal text of the repository id reads back as the same number, with a `-` for a negative one |
| Paths.Join | common/repository_store.go:18 | the result is empty exactly when every element is, and starts with the first element when that is not empty |
| Paths.JoinTwo | common/repository_store.go:18 | joining two non-empty paths puts one `/` between them |

## Left out

- Logging (`getLogger`, `configureLogger`, `SessionLogger`, the `log.Printf`
  lines) and the ANSI colouring of `say`: output only, except that the two
  older SSH entry points' `configureLogger` writes `error opening file:
  <error>` to standard error (the client's) and ends the program with
  status 1 when the log file cannot be opened; that exit and its line are
  modelled (the `logError` parameter of `SshShell.Run` and
  `LegacyShell.Run`), without the date and time prefix the standard logger
  puts in front of the line. `GitoriousShell`'s
  `getLogger` falls back to discarding the log and never exits. The SSH entry points'
  `SSH_CLIENT` and `LOGFILE` settings only feed logging and are not read.
- `syscall.Umask(0022)`: a process-wide side effect with no bearing on the
  decisions.
- Running child processes: `exec.Command` and `cmd.Run` are described by the
  requested `Invocation` and a `RunOutcome` parameter; standard input and
  output wiring is recorded only as whether the child is connected to the
  client.
- `net/http/cgi` and what `git http-backend` answers: the HTTP model ends in
  `Delegated` with the environment and program handed over.
- `http.Error`'s response body and the trailing newline it adds: a refusal is
  modelled as its status, message and whether it carries the challenge.
- The internal API clients (HTTP requests, JSON decoding,
  `AuthenticateUser`, `GetRepoConfig`, the request inside
  `GetRealRepoPath`): their answers are inputs (`Api.AuthOutcome`,
  `Api.ConfigOutcome`, `Common.ApiResponse`).
- Paths.Join: Go's `filepath.Join` also cleans the result (folding `.`, `..`
  and repeated slashes); the model joins the non-empty elements with `/`
  and does not clean.
- ProtocolSsh.SshProtocolHandler.RunProxy: the repository configuration the
  source receives is unused by it and is not a parameter.
- BasicAuth.ParseHeader: the documented example `Basic
  QWxhZGRpbjpvcGVuIHNlc2FtZQ==` is an instance of this round trip, but
  evaluating the literal 28-character decoding is not proved.
- Base64.Decode: strings are sequences of characters, and a byte string is
  one whose characters are all below 256.
- Program entry points: flag parsing and `ListenAndServe` of the HTTP
  backend; the SSH entry points' `main` is modelled from the values it reads
  (`os.Args`, the environment) on.
- foo.go, protocol/http.go and http/gitorious-http-backend.go are not part of
  this model: the first two do not compile and the third is stubbed
  (`parseUrl` returns a fixed path).
- The path the SSH grammar accepts may contain a newline (`[^']` matches
  one); the model keeps that, as the code does. `GITORIOUS_REPOSITORY_ID` is
  emitted for every repository, an id of 0 included, as the code does.

## Findings

| source | as written | input that shows it | evidently intended | confidence | as-written member | corrected member |
|---|---|---|---|---|---|---|
| gitorious-shell.go:133-143 | `main` builds the repository path from `getRealRepoPath`'s untrimmed result | the API answers 200 with `sickill/p.git` plus a newline and `<root>/sickill/p.git/hooks/pre-receive` has mode 0755; the hook is looked up under the path with the newline, so the session says "Fatal error" and exits with status 1 | git-shell started on `<root>/sickill/p.git` | not executed | LegacyShell.NewlinePathRefused | LegacyShell.NewlinePathServedWhenTrimmed |
| common/common.go:37 | `GetFullRepoPath` prints the hook's path with `fmt.Println`; in ssh/gitorious-shell.go that standard output is the client's connection, later handed to git-shell (ssh/gitorious-shell.go:70) | any admitted session: the client reads `<root>/<path>/hooks/pre-receive` and a newline before git-shell's first packet line, which git's packet-line reader cannot parse as a length | nothing written to the client but git-shell's output, as the newer shell's `RepositoryStore.GetFullRepoPath` does | not executed | SshShell.ClientReadsHookPathFirst | GitoriousShell.SessionPrintsNothing |
| gitorious-shell.go:73 | `getRealRepoPath` returns the body of a 200 response as it is | the API answers 200 with the body `sickill@THE/PATH.GIT` plus a newline; the result keeps the newline, so the repository path built from it names no repository | the body trimmed of spaces and newlines, as gitorious-shell_test.go:59 expects and common/common.go:30 does | not executed | LegacyShell.RealRepoPathKeepsNewline | Common.GetRealRepoPath |
