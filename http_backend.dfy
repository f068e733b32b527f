/** The smart-HTTP gateway (gitorious-http-backend/main.go): one request at
    a time, it identifies the client from its Basic credentials (anonymous
    when there are none), splits the URL path into the repository and the
    git-http-backend resource, refuses anonymous pushes, asks the internal
    API for the repository's configuration, checks the pre-receive hook and
    hands the request to `git http-backend` through CGI. Every refusal is an
    HTTP status with a one-line message; a 401 also asks for credentials. */
module HttpBackend {
  import opened Wrappers
  import opened Strings
  import opened Hooks
  import opened Process
  import opened BasicAuth
  import Paths
  import Api
  import Env

  // ---------------------------------------------------------------------
  // The URL path: `^/(.+\.git)(/.+)$`

  predicate NoNewline(s: string) {
    forall k :: 0 <= k < |s| ==> s[k] != '\n'
  }

  /** The pattern matches with its first group ending just before index `i`:
      the path is `/`, at least one character and `.git`, then `/` and at
      least one character, and no character is a newline (`.` does not match
      one). */
  predicate SplitsAt(path: string, i: int) {
    && |path| > 0 && path[0] == '/' && NoNewline(path)
    && 6 <= i <= |path| - 2
    && path[i - 4..i] == ".git" && path[i] == '/'
  }

  /** The largest split at or below `i`: the greedy `.+` of the first group
      makes it as long as the rest allows. */
  function LastSplit(path: string, i: nat): (r: Option<nat>)
    ensures r.Some? ==> r.value <= i && SplitsAt(path, r.value)
    ensures r.Some? ==> forall j :: r.value < j <= i ==> !SplitsAt(path, j)
    ensures r.None? ==> forall j :: j <= i ==> !SplitsAt(path, j)
  {
    if SplitsAt(path, i) then Some(i)
    else if i == 0 then None
    else LastSplit(path, i - 1)
  }

  function InvalidPath(path: string): string {
    "invalid path \"" + path + "\""
  }

  /** `parsePath`: the repository path and the resource under it, or two
      empty strings and an error when the pattern does not match. */
  function ParsePath(path: string): (r: PairResult)
    ensures r.err.None? <==> exists i :: SplitsAt(path, i)
    ensures r.err.Some? ==> r == PairResult("", "", Some(InvalidPath(path)))
    ensures r.err.None? ==> path == "/" + r.first + r.second && SplitsAt(path, |r.first| + 1)
    ensures r.err.None? ==> forall i :: SplitsAt(path, i) ==> i <= |r.first| + 1
  {
    match LastSplit(path, |path|)
    case None => PairResult("", "", Some(InvalidPath(path)))
    case Some(i) =>
      assert path == "/" + path[1..i] + path[i..];
      PairResult(path[1..i], path[i..], None)
  }

  /** A resource that holds no further `.git/` boundary for the greedy group
      to reach. */
  predicate NoLaterRepository(slug: string) {
    forall j :: 4 <= j <= |slug| - 2 && slug[j] == '/' ==> slug[j - 4..j] != ".git"
  }

  /** A repository path ending in `.git` and a resource starting with `/`
      come back from the URL path they make up. */
  lemma ParsePathSplits(repoPath: string, slug: string)
    requires |repoPath| >= 5 && repoPath[|repoPath| - 4..] == ".git" && NoNewline(repoPath)
    requires |slug| >= 2 && slug[0] == '/' && NoNewline(slug) && NoLaterRepository(slug)
    ensures ParsePath("/" + repoPath + slug) == PairResult(repoPath, slug, None)
  {
    var path := "/" + repoPath + slug;
    var n := |repoPath| + 1;
    assert path[n..] == slug;
    assert path[1..n] == repoPath;
    assert path[n - 4..n] == repoPath[|repoPath| - 4..];
    assert SplitsAt(path, n);
    forall j | n < j
      ensures !SplitsAt(path, j)
    {
      if n + 4 <= j <= |path| - 2 {
        assert path[j - 4..j] == slug[j - n - 4..j - n];
      }
    }
    var r := ParsePath(path);
    assert |r.first| + 1 == n;
  }

  /** A resource with no later `.git/` boundary and no newline comes back
      from under a fixed repository path. */
  lemma ParsePathUnder(repoPath: string, slug: string, url: string)
    requires repoPath == "the/path.git" || repoPath == "a.git/b.git"
    requires |slug| >= 2 && slug[0] == '/' && NoNewline(slug) && NoLaterRepository(slug)
    requires url == "/" + repoPath + slug
    ensures ParsePath(url) == PairResult(repoPath, slug, None)
  {
    ParsePathSplits(repoPath, slug);
  }

  /** A resource whose only `/` is its first character. */
  lemma SingleSegmentResource(slug: string)
    requires |slug| >= 2 && slug[0] == '/'
    requires forall k :: 1 <= k < |slug| ==> slug[k] != '/' && slug[k] != '\n'
    ensures NoNewline(slug) && NoLaterRepository(slug)
  {
  }

  /** A resource accepted under both example repositories. */
  lemma ParsePathAcceptsUnder(slug: string)
    requires |slug| >= 2 && slug[0] == '/' && NoNewline(slug) && NoLaterRepository(slug)
    ensures ParsePath("/the/path.git" + slug) == PairResult("the/path.git", slug, None)
    ensures ParsePath("/a.git/b.git" + slug) == PairResult("a.git/b.git", slug, None)
  {
    ParsePathUnder("the/path.git", slug, "/the/path.git" + slug);
    ParsePathUnder("a.git/b.git", slug, "/a.git/b.git" + slug);
  }

  /** The resources `/HEAD`, `/info/refs`, `/git-upload-pack` and
      `/git-receive-pack` under a repository; with two `.git/` boundaries
      the greedy group takes the last one. */
  lemma ParsePathAccepts(slug: string)
    requires slug == "/HEAD" || slug == "/info/refs" || slug == "/git-upload-pack" || slug == "/git-receive-pack"
    ensures ParsePath("/the/path.git" + slug) == PairResult("the/path.git", slug, None)
    ensures ParsePath("/a.git/b.git" + slug) == PairResult("a.git/b.git", slug, None)
  {
    if slug == "/info/refs" {
      assert NoNewline(slug);
      assert NoLaterRepository(slug) by {
        forall j | 4 <= j <= |slug| - 2 && slug[j] == '/'
          ensures slug[j - 4..j] != ".git"
        {
          assert j == 5 && slug[1] == 'i';
        }
      }
    } else {
      SingleSegmentResource(slug);
    }
    ParsePathAcceptsUnder(slug);
  }

  /** A newline anywhere, a path without a resource after its `.git`, a
      path without `.git` and the root are all rejected. */
  lemma ParsePathRejects(path: string)
    requires path in ["/the/pa\nth.git/HEAD", "/the/path.git", "/the/path", "/"]
    ensures ParsePath(path) == PairResult("", "", Some(InvalidPath(path)))
  {
    if path == "/the/pa\nth.git/HEAD" {
      assert path[7] == '\n';
    } else if path == "/the/path.git" {
      forall i | 6 <= i <= |path| - 2
        ensures path[i] != '/'
      {
      }
    } else if path == "/the/path" {
      forall i | 6 <= i <= |path| - 2
        ensures path[i] != '/'
      {
      }
    }
  }

  // ---------------------------------------------------------------------
  // The CGI child

  const RemoteUser := "REMOTE_USER"
  const ExportAll := "GIT_HTTP_EXPORT_ALL"
  const PathTranslated := "PATH_TRANSLATED"

  /** The environment of git-http-backend: the hook environment for the
      `http` protocol, then the user (which enables pushing), the export
      switch and the file the request is about. */
  function HttpEnv(environ: seq<string>, username: string, cfg: Api.RepoConfig, translatedPath: string): seq<string> {
    Env.ConfigEnv(environ, "http", username, cfg)
      + [Env.Entry(RemoteUser, username), Env.Entry(ExportAll, "1"), Env.Entry(PathTranslated, translatedPath)]
  }

  /** `createHttpEnv`: `CreateEnv` for `http`, then three appends. */
  method CreateHttpEnv(environ: seq<string>, username: string, cfg: Api.RepoConfig, translatedPath: string)
    returns (env: seq<string>)
    ensures env == HttpEnv(environ, username, cfg, translatedPath)
  {
    env := Env.CreateEnv(environ, "http", username, cfg);
    var base := env;
    env := env + [Env.Entry(RemoteUser, username)];
    env := env + [Env.Entry(ExportAll, "1")];
    env := env + [Env.Entry(PathTranslated, translatedPath)];
    assert env == base + [Env.Entry(RemoteUser, username), Env.Entry(ExportAll, "1"), Env.Entry(PathTranslated, translatedPath)];
  }

  /** The CGI handler: `/bin/sh -c "git http-backend"` in the current
      directory with the given environment, talking to the client. */
  function GitHttpBackend(env: seq<string>): Invocation {
    Invocation("/bin/sh", ["-c", "git http-backend"], Explicit(env), true)
  }

  /** Every variable name the hook environment sets starts with
      `GITORIOUS_`. */
  lemma NamePrefixed(v: Env.Variable)
    ensures HasPrefix(Env.Name(v), "GITORIOUS_")
  {
    match v
    case Proto =>
    case User =>
    case RepositoryId =>
    case SshCloneUrl =>
    case HttpCloneUrl =>
    case GitCloneUrl =>
    case CustomPreReceivePath =>
    case CustomPostReceivePath =>
    case CustomUpdatePath =>
  }

  /** An entry for a `GITORIOUS_` variable is no entry for a key that
      starts otherwise. */
  lemma PrefixedEntryKey(v: Env.Variable, value: string, key: string)
    requires |key| >= 4 && key[..4] != "GITO"
    ensures !Env.HasKey(Env.Entry(Env.Name(v), value), key)
  {
    NamePrefixed(v);
    var e := Env.Entry(Env.Name(v), value);
    assert e[..4] == "GITO";
    assert (key + "=")[..4] == key[..4];
    if |key| + 1 <= |e| {
      assert e[..|key| + 1][..4] == e[..4];
    }
  }

  /** An entry is no entry for a key with another first character. */
  lemma OtherInitial(key: string, value: string, other: string)
    requires |key| > 0 && |other| > 0 && key[0] != other[0]
    ensures !Env.HasKey(Env.Entry(key, value), other)
  {
    var e := Env.Entry(key, value);
    assert e[0] == key[0];
    assert (other + "=")[0] == other[0];
    if |other| + 1 <= |e| {
      assert e[..|other| + 1][0] == e[0];
    }
  }

  /** The hook environment never sets a key outside the `GITORIOUS_` family
      (one that does not start with `GITO`) that the gateway's own
      environment does not set. */
  lemma ConfigEnvOmits(environ: seq<string>, protocol: string, username: string, cfg: Api.RepoConfig, key: string)
    requires |key| >= 4 && key[..4] != "GITO" && !Env.MentionsKey(environ, key)
    ensures !Env.MentionsKey(Env.ConfigEnv(environ, protocol, username, cfg), key)
  {
    var hooks := Env.HookEntries(protocol, username, cfg);
    var f := Env.OptionalFields(cfg);
    var added := hooks + Env.Present(f);
    var env := Env.ConfigEnv(environ, protocol, username, cfg);
    assert env == environ + added;
    PrefixedEntryKey(Env.Proto, protocol, key);
    PrefixedEntryKey(Env.User, username, key);
    PrefixedEntryKey(Env.RepositoryId, FormatInt(cfg.repositoryId), key);
    forall k | 0 <= k < |Env.Present(f)|
      ensures !Env.HasKey(Env.Present(f)[k], key)
    {
      Env.PresentSound(f, k);
      var i :| 0 <= i < |f| && f[i].1 != "" && Env.Present(f)[k] == Env.Entry(Env.Name(f[i].0), f[i].1);
      PrefixedEntryKey(f[i].0, f[i].1, key);
    }
    forall k | 0 <= k < |env|
      ensures !Env.HasKey(env[k], key)
    {
      if k >= |environ| + 3 {
        assert env[k] == Env.Present(f)[k - |environ| - 3];
      }
    }
  }

  /** git-http-backend reads the user, the export switch and the translated
      path the gateway set, whenever its own environment does not already
      set them. */
  lemma BackendReadsRequest(environ: seq<string>, username: string, cfg: Api.RepoConfig, translatedPath: string)
    requires !Env.MentionsKey(environ, RemoteUser)
    requires !Env.MentionsKey(environ, ExportAll)
    requires !Env.MentionsKey(environ, PathTranslated)
    ensures Env.LookupEnv(HttpEnv(environ, username, cfg, translatedPath), RemoteUser) == username
    ensures Env.LookupEnv(HttpEnv(environ, username, cfg, translatedPath), ExportAll) == "1"
    ensures Env.LookupEnv(HttpEnv(environ, username, cfg, translatedPath), PathTranslated) == translatedPath
  {
    var base := Env.ConfigEnv(environ, "http", username, cfg);
    var a, b, c := Env.Entry(RemoteUser, username), Env.Entry(ExportAll, "1"), Env.Entry(PathTranslated, translatedPath);
    var tail := [a, b, c];
    assert RemoteUser[0] == 'R' && ExportAll[3] == '_' && PathTranslated[0] == 'P';
    ConfigEnvOmits(environ, "http", username, cfg, RemoteUser);
    ConfigEnvOmits(environ, "http", username, cfg, ExportAll);
    ConfigEnvOmits(environ, "http", username, cfg, PathTranslated);
    Env.LookupEnvSkips(base, tail, RemoteUser);
    Env.LookupEnvSkips(base, tail, ExportAll);
    Env.LookupEnvSkips(base, tail, PathTranslated);
    assert tail[1..] == [b, c] && tail[1..][1..] == [c];
    Env.EntryHasKey(RemoteUser, username);
    Env.EntryHasKey(ExportAll, "1");
    Env.EntryHasKey(PathTranslated, translatedPath);
    OtherInitial(RemoteUser, username, ExportAll);
    OtherInitial(RemoteUser, username, PathTranslated);
    OtherInitial(ExportAll, "1", PathTranslated);
    assert c[|PathTranslated| + 1..] == translatedPath;
    assert Env.LookupEnv([c], PathTranslated) == translatedPath;
    assert Env.LookupEnv([b, c], PathTranslated) == translatedPath;
  }

  // ---------------------------------------------------------------------
  // The handler

  const InvalidCredentials := "Invalid username or password"
  const InvalidCommandMessage := "Invalid command"
  const AnonymousPush := "Anonymous pushing not allowed"
  const AccessDeniedMessage := "Access denied"
  const InvalidRepositoryPath := "Invalid repository path"
  const HookMissing := "Error occurred, please contact support"

  /** How the gateway answers: a refusal with its status, its message and
      whether it asks for Basic credentials (`WWW-Authenticate: Basic
      realm="Gitorious"`), or the answer git-http-backend gives. */
  datatype Reply = Refused(status: int, message: string, challenge: bool) | Delegated

  /** The reply and the collaborator calls made, in order. */
  datatype Exchange = Exchange(reply: Reply, calls: seq<Call>)

  /** A push: the `service` query parameter or the resource names
      `git-receive-pack`. */
  predicate IsPush(service: string, slug: string) {
    service == "git-receive-pack" || slug == "/git-receive-pack"
  }

  /** The second half of `ServeHTTP`, from the URL path on, for the user
      `username` (`""` for anonymous); `calls` are the calls already made,
      `config` is the API's answer to the configuration request. */
  function ServePath(username: string, urlPath: string, service: string, apiUrl: string,
                     config: Api.ConfigOutcome, fs: Paths.FileSystem, environ: seq<string>, calls: seq<Call>): Exchange
  {
    var parsed := ParsePath(urlPath);
    if parsed.err.Some? then Exchange(Refused(400, InvalidCommandMessage, false), calls)
    else if IsPush(service, parsed.second) && username == "" then Exchange(Refused(401, AnonymousPush, true), calls)
    else
      var asked := calls + [RepoConfigCall(apiUrl, parsed.first, username)];
      match config
      case HttpError(code) =>
        if code == 403 then Exchange(Refused(401, AccessDeniedMessage, true), asked)
        else if code == 404 then Exchange(Refused(404, InvalidRepositoryPath, false), asked)
        else Exchange(Refused(500, ErrorOccured, false), asked)
      case OtherError(_) => Exchange(Refused(500, ErrorOccured, false), asked)
      case Config(cfg) =>
        if !PreReceiveHookExists(fs, cfg.fullPath) then Exchange(Refused(500, HookMissing, false), asked)
        else
          var env := HttpEnv(environ, username, cfg, cfg.fullPath + parsed.second);
          Exchange(Delegated, asked + [Spawn(GitHttpBackend(env))])
  }

  /** How `ServeHTTP` answers a request. `authorization` is its
      `Authorization` header (`""` when absent), `auth` the API's answer to
      the credentials, `urlPath` and `service` the URL's path and `service`
      query parameter (`""` when absent), `apiUrl` the internal API's
      address, `config` its answer to the configuration request, `fs` the
      disk and `environ` the gateway's environment. */
  function Respond(authorization: string, auth: Api.AuthOutcome, urlPath: string, service: string, apiUrl: string,
                   config: Api.ConfigOutcome, fs: Paths.FileSystem, environ: seq<string>): Exchange
  {
    var credentials := RequestBasicAuth(authorization);
    if !credentials.ok then ServePath("", urlPath, service, apiUrl, config, fs, environ, [])
    else
      var login := [AuthenticateCall(credentials.username, credentials.password)];
      match auth
      case AuthError(_) => Exchange(Refused(500, ErrorOccured, false), login)
      case NoUser => Exchange(Refused(401, InvalidCredentials, true), login)
      case Authenticated(user) => ServePath(user.username, urlPath, service, apiUrl, config, fs, environ, login)
  }

  /** Who the request acts for: anonymous (`""`) without credentials, the
      API's user with accepted ones, nobody when they are rejected or cannot
      be checked. */
  function Identity(authorization: string, auth: Api.AuthOutcome): Option<string> {
    if !RequestBasicAuth(authorization).ok then Some("")
    else if auth.Authenticated? then Some(auth.user.username)
    else None
  }

  /** Every check passed: the client is identified, the path matches, the
      request is no anonymous push, the API knows the repository and its
      hook is in place. */
  predicate Admitted(authorization: string, auth: Api.AuthOutcome, urlPath: string, service: string,
                     config: Api.ConfigOutcome, fs: Paths.FileSystem)
  {
    && Identity(authorization, auth).Some?
    && ParsePath(urlPath).err.None?
    && !(IsPush(service, ParsePath(urlPath).second) && Identity(authorization, auth).value == "")
    && config.Config?
    && PreReceiveHookExists(fs, config.config.fullPath)
  }

  /** The second half never drops or reorders the calls made before it, and
      starts git-http-backend exactly when the path matches, the push is not
      anonymous and the hook of a known repository is in place. */
  lemma ServePathDelegatesOnlyWhenHooked(username: string, urlPath: string, service: string, apiUrl: string,
                                         config: Api.ConfigOutcome, fs: Paths.FileSystem, environ: seq<string>,
                                         calls: seq<Call>)
    ensures var x := ServePath(username, urlPath, service, apiUrl, config, fs, environ, calls);
      var parsed := ParsePath(urlPath);
      && calls <= x.calls
      && (x.reply.Delegated? <==>
            (&& parsed.err.None? && !(IsPush(service, parsed.second) && username == "")
             && config.Config? && PreReceiveHookExists(fs, config.config.fullPath)))
      && (x.reply.Delegated? ==>
            x.calls == calls + [RepoConfigCall(apiUrl, parsed.first, username),
                                Spawn(GitHttpBackend(HttpEnv(environ, username, config.config,
                                                             config.config.fullPath + parsed.second)))])
  {
  }

  /** git-http-backend answers exactly when every check passed, and then as
      the last call, with the translated path the repository's full path
      followed by the resource. */
  lemma RespondDelegatesOnlyWhenAdmitted(authorization: string, auth: Api.AuthOutcome, urlPath: string, service: string,
                                         apiUrl: string, config: Api.ConfigOutcome, fs: Paths.FileSystem,
                                         environ: seq<string>)
    ensures var x := Respond(authorization, auth, urlPath, service, apiUrl, config, fs, environ);
      && (x.reply.Delegated? <==> Admitted(authorization, auth, urlPath, service, config, fs))
      && (x.reply.Delegated? ==>
            x.calls[|x.calls| - 1] ==
              Spawn(GitHttpBackend(HttpEnv(environ, Identity(authorization, auth).value, config.config,
                                           config.config.fullPath + ParsePath(urlPath).second))))
  {
    var credentials := RequestBasicAuth(authorization);
    var login := [AuthenticateCall(credentials.username, credentials.password)];
    if !credentials.ok {
      ServePathDelegatesOnlyWhenHooked("", urlPath, service, apiUrl, config, fs, environ, []);
    } else if auth.Authenticated? {
      ServePathDelegatesOnlyWhenHooked(auth.user.username, urlPath, service, apiUrl, config, fs, environ, login);
    }
  }

  /** Credentials are checked first: when the header carries some, the
      first call authenticates them, and when the API rejects them or
      fails the reply does not depend on anything else in the request. */
  lemma RespondChecksCredentialsFirst(authorization: string, auth: Api.AuthOutcome,
                                      urlPath: string, service: string, apiUrl: string,
                                      config: Api.ConfigOutcome, fs: Paths.FileSystem, environ: seq<string>,
                                      urlPath': string, service': string, config': Api.ConfigOutcome,
                                      fs': Paths.FileSystem)
    requires RequestBasicAuth(authorization).ok
    ensures var x := Respond(authorization, auth, urlPath, service, apiUrl, config, fs, environ);
      var credentials := RequestBasicAuth(authorization);
      && |x.calls| > 0
      && x.calls[0] == AuthenticateCall(credentials.username, credentials.password)
      && (!auth.Authenticated? ==>
            x == Respond(authorization, auth, urlPath', service', apiUrl, config', fs', environ))
  {
    var credentials := RequestBasicAuth(authorization);
    var login := [AuthenticateCall(credentials.username, credentials.password)];
    if auth.Authenticated? {
      ServePathDelegatesOnlyWhenHooked(auth.user.username, urlPath, service, apiUrl, config, fs, environ, login);
    }
  }

  /** The reply to each failed check, in the order the checks are made:
      credentials the API cannot check are a 500 and rejected ones a 401
      with a challenge; then a path that does not match is a 400, an
      anonymous push a 401 with a challenge, an API 403 a 401 with a
      challenge, an API 404 a 404, any other API failure a 500, and a
      repository without its hook a 500. */
  lemma RespondStatus(authorization: string, auth: Api.AuthOutcome, urlPath: string, service: string,
                      apiUrl: string, config: Api.ConfigOutcome, fs: Paths.FileSystem, environ: seq<string>)
    ensures var x := Respond(authorization, auth, urlPath, service, apiUrl, config, fs, environ);
      var checked := RequestBasicAuth(authorization).ok;
      var id := Identity(authorization, auth);
      var parsed := ParsePath(urlPath);
      var anonymousPush := parsed.err.None? && IsPush(service, parsed.second) && id == Some("");
      && (checked && auth.AuthError? ==> x.reply == Refused(500, ErrorOccured, false))
      && (checked && auth.NoUser? ==> x.reply == Refused(401, InvalidCredentials, true))
      && (id.Some? && parsed.err.Some? ==> x.reply == Refused(400, InvalidCommandMessage, false))
      && (id.Some? && anonymousPush ==> x.reply == Refused(401, AnonymousPush, true))
      && (id.Some? && parsed.err.None? && !anonymousPush ==>
            && (config == Api.HttpError(403) ==> x.reply == Refused(401, AccessDeniedMessage, true))
            && (config == Api.HttpError(404) ==> x.reply == Refused(404, InvalidRepositoryPath, false))
            && (config.HttpError? && config.statusCode != 403 && config.statusCode != 404 ==>
                  x.reply == Refused(500, ErrorOccured, false))
            && (config.OtherError? ==> x.reply == Refused(500, ErrorOccured, false))
            && (config.Config? && !PreReceiveHookExists(fs, config.config.fullPath) ==>
                  x.reply == Refused(500, HookMissing, false)))
  {
  }

  /** An anonymous push is refused with a request for credentials before
      the API is asked about the repository. */
  lemma AnonymousPushRefused(authorization: string, auth: Api.AuthOutcome, urlPath: string, service: string,
                             apiUrl: string, config: Api.ConfigOutcome, fs: Paths.FileSystem, environ: seq<string>)
    requires Identity(authorization, auth) == Some("")
    requires ParsePath(urlPath).err.None? && IsPush(service, ParsePath(urlPath).second)
    ensures var x := Respond(authorization, auth, urlPath, service, apiUrl, config, fs, environ);
      x.reply == Refused(401, AnonymousPush, true) && !AskedForConfig(x.calls)
  {
    var x := Respond(authorization, auth, urlPath, service, apiUrl, config, fs, environ);
    if !RequestBasicAuth(authorization).ok {
      assert x.calls == [];
    } else {
      assert x.calls == [AuthenticateCall(RequestBasicAuth(authorization).username, RequestBasicAuth(authorization).password)];
    }
  }

  /** The same for the second half alone. */
  lemma ServePathChallengeIffUnauthorized(username: string, urlPath: string, service: string, apiUrl: string,
                                          config: Api.ConfigOutcome, fs: Paths.FileSystem, environ: seq<string>,
                                          calls: seq<Call>)
    ensures var x := ServePath(username, urlPath, service, apiUrl, config, fs, environ, calls);
      x.reply.Refused? ==>
        && (x.reply.challenge <==> x.reply.status == 401)
        && x.reply.status in {400, 401, 404, 500}
  {
  }

  /** A reply asks for credentials exactly when its status is 401, and
      every refusal is one of 400, 401, 404 and 500. */
  lemma ChallengeIffUnauthorized(authorization: string, auth: Api.AuthOutcome, urlPath: string, service: string,
                                 apiUrl: string, config: Api.ConfigOutcome, fs: Paths.FileSystem, environ: seq<string>)
    ensures var x := Respond(authorization, auth, urlPath, service, apiUrl, config, fs, environ);
      x.reply.Refused? ==>
        && (x.reply.challenge <==> x.reply.status == 401)
        && x.reply.status in {400, 401, 404, 500}
  {
    var credentials := RequestBasicAuth(authorization);
    if !credentials.ok {
      ServePathChallengeIffUnauthorized("", urlPath, service, apiUrl, config, fs, environ, []);
    } else if auth.Authenticated? {
      ServePathChallengeIffUnauthorized(auth.user.username, urlPath, service, apiUrl, config, fs, environ,
                                        [AuthenticateCall(credentials.username, credentials.password)]);
    }
  }

  /** The second half of `ServeHTTP`, from the URL path on. */
  method ServeRequest(username: string, urlPath: string, service: string, apiUrl: string,
                      config: Api.ConfigOutcome, fs: Paths.FileSystem, environ: seq<string>, login: seq<Call>)
    returns (x: Exchange)
    ensures x == ServePath(username, urlPath, service, apiUrl, config, fs, environ, login)
  {
    var calls := login;
    var parsed := ParsePath(urlPath);
    if parsed.err.Some? {
      return Exchange(Refused(400, InvalidCommandMessage, false), calls);
    }
    var repoPath, slug := parsed.first, parsed.second;

    if (service == "git-receive-pack" || slug == "/git-receive-pack") && username == "" {
      return Exchange(Refused(401, AnonymousPush, true), calls);
    }

    calls := calls + [RepoConfigCall(apiUrl, repoPath, username)];
    match config {
      case HttpError(code) =>
        if code == 403 {
          return Exchange(Refused(401, AccessDeniedMessage, true), calls);
        } else if code == 404 {
          return Exchange(Refused(404, InvalidRepositoryPath, false), calls);
        }
        return Exchange(Refused(500, ErrorOccured, false), calls);
      case OtherError(_) =>
        return Exchange(Refused(500, ErrorOccured, false), calls);
      case Config(repoConfig) =>
        if !PreReceiveHookExists(fs, repoConfig.fullPath) {
          return Exchange(Refused(500, HookMissing, false), calls);
        }
        var translatedPath := repoConfig.fullPath + slug;
        var env := CreateHttpEnv(environ, username, repoConfig, translatedPath);
        calls := calls + [Spawn(GitHttpBackend(env))];
        return Exchange(Delegated, calls);
    }
  }

  /** `ServeHTTP`. */
  method ServeHTTP(authorization: string, auth: Api.AuthOutcome, urlPath: string, service: string, apiUrl: string,
                   config: Api.ConfigOutcome, fs: Paths.FileSystem, environ: seq<string>)
    returns (x: Exchange)
    ensures x == Respond(authorization, auth, urlPath, service, apiUrl, config, fs, environ)
  {
    var username := "";
    var calls := [];
    var credentials := RequestBasicAuth(authorization);
    if credentials.ok {
      calls := [AuthenticateCall(credentials.username, credentials.password)];
      match auth {
        case AuthError(_) =>
          return Exchange(Refused(500, ErrorOccured, false), calls);
        case NoUser =>
          return Exchange(Refused(401, InvalidCredentials, true), calls);
        case Authenticated(user) =>
          username := user.username;
      }
    }
    x := ServeRequest(username, urlPath, service, apiUrl, config, fs, environ, calls);
  }
}
