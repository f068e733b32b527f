/** Helpers shared by the SSH entry points (common/common.go): turning the
    path a client asked for into the repository's real path with the
    internal API, and that into a full path on disk. */
module Common {
  import opened Wrappers
  import opened Strings
  import opened Paths
  import opened Hooks
  import opened RepositoryStore

  /** `GetFullRepoPath`: the same decision as the repository store, taking
      the root as an argument. */
  function GetFullRepoPath(fs: FileSystem, repoPath: string, reposRootPath: string): (r: StringResult)
    ensures r == GitoriousRepositoryStore(reposRootPath).GetFullRepoPath(fs, repoPath)
  {
    var fullRepoPath := Join([reposRootPath, repoPath]);
    var preReceiveHookPath := Join([fullRepoPath, "hooks", "pre-receive"]);
    if preReceiveHookPath !in fs || fs[preReceiveHookPath] & ExecuteBits == 0 then
      StringResult("", Some("pre-receive hook is missing or is not executable"))
    else
      StringResult(fullRepoPath, None)
  }

  /** The line `GetFullRepoPath` prints on standard output before it looks
      at the hook: the hook's path, `<root>/<path>/hooks/pre-receive`. */
  function GetFullRepoPathOutput(repoPath: string, reposRootPath: string): (line: string)
    ensures reposRootPath != "" && repoPath != "" ==> line == reposRootPath + "/" + repoPath + "/hooks/pre-receive"
  {
    if reposRootPath != "" && repoPath != "" then
      JoinTwo(reposRootPath, repoPath);
      JoinThree(reposRootPath + "/" + repoPath, "hooks", "pre-receive");
      HookPath(Join([reposRootPath, repoPath]))
    else HookPath(Join([reposRootPath, repoPath]))
  }

  /** The body of an HTTP response, or the error reading it. */
  datatype Body = BodyText(text: string) | BodyError(message: string)

  /** What `http.Get` produced: a transport error or a response. */
  datatype ApiResponse = TransportError(message: string) | Response(statusCode: int, body: Body)

  /** The URL `GetRealRepoPath` asks, `<apiUrl>?username=<u>&path=<p>`
      (the values are not escaped). */
  function RealRepoPathUrl(repoPath: string, username: string, apiUrl: string): (r: string)
    ensures |r| == |apiUrl| + |username| + |repoPath| + 16
    ensures HasPrefix(r, apiUrl + "?username=")
    ensures r[|apiUrl| + 10..|apiUrl| + 10 + |username|] == username
    ensures r[|apiUrl| + 10 + |username|..] == "&path=" + repoPath
  {
    apiUrl + "?username=" + username + "&path=" + repoPath
  }

  /** `GetRealRepoPath` once the API has answered: the body of a 200
      response without surrounding spaces and newlines; any other outcome is
      `""` with an error. */
  function GetRealRepoPath(response: ApiResponse): (r: StringResult)
    ensures r.err.None? <==> response.Response? && response.statusCode == 200 && response.body.BodyText?
    ensures r.err.None? ==> r.value == Trim(response.body.text)
    ensures r.err.Some? ==> r.value == ""
    ensures response.Response? && response.statusCode != 200 ==>
      r.err == Some("got status " + FormatInt(response.statusCode) + " from API")
  {
    match response
    case TransportError(m) => StringResult("", Some(m))
    case Response(code, body) =>
      if code != 200 then StringResult("", Some("got status " + FormatInt(code) + " from API"))
      else match body
        case BodyError(m) => StringResult("", Some(m))
        case BodyText(text) => StringResult(Trim(text), None)
  }

  /** A path the API sends padded with spaces and newlines (such as the
      trailing newline of a line of text) comes back exactly. */
  lemma RealRepoPathUnpadded(left: string, path: string, right: string)
    requires AllCut(left) && AllCut(right) && Unpadded(path)
    ensures GetRealRepoPath(Response(200, BodyText(left + path + right))) == StringResult(path, None)
  {
    TrimPadded(left, path, right);
  }

  /** The API's answer `sickill@THE/PATH.GIT` followed by a newline yields the
      path without the newline; a 403 yields `""` and an error. */
  lemma RealRepoPathExamples()
    ensures GetRealRepoPath(Response(200, BodyText("sickill@THE/PATH.GIT\n"))) == StringResult("sickill@THE/PATH.GIT", None)
    ensures GetRealRepoPath(Response(403, BodyText("nope\n"))).value == ""
    ensures GetRealRepoPath(Response(403, BodyText("nope\n"))).err.Some?
  {
    RealRepoPathUnpadded("", "sickill@THE/PATH.GIT", "\n");
    assert "" + "sickill@THE/PATH.GIT" + "\n" == "sickill@THE/PATH.GIT\n";
  }
}
