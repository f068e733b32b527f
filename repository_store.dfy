/** Where repositories live on disk (common/repository_store.go). */
module RepositoryStore {
  import opened Wrappers
  import opened Strings
  import opened Paths
  import opened Hooks

  const HookMissingMessage := "pre-receive hook is missing or is not executable"

  /** `GitoriousRepositoryStore`: repositories under `root`. The store is a
      value; looking a path up only reads `root`. */
  datatype GitoriousRepositoryStore = GitoriousRepositoryStore(root: string) {

    /** `GetFullRepoPath`: the repository's path under `root`, provided its
        pre-receive hook is in place; otherwise `""` and an error. */
    function GetFullRepoPath(fs: FileSystem, path: string): (r: StringResult)
      ensures r.err.None? <==> PreReceiveHookExists(fs, Join([root, path]))
      ensures r.err.None? ==> r.value == Join([root, path])
      ensures r.err.Some? ==> r == StringResult("", Some(HookMissingMessage))
    {
      var fullRepoPath := Join([root, path]);
      var preReceiveHookPath := Join([fullRepoPath, "hooks", "pre-receive"]);
      if preReceiveHookPath !in fs || fs[preReceiveHookPath] & ExecuteBits == 0 then
        StringResult("", Some(HookMissingMessage))
      else
        StringResult(fullRepoPath, None)
    }
  }

  /** With a root and a relative path, the full path is `root/path`, and it
      is returned exactly when `root/path/hooks/pre-receive` is executable. */
  lemma FullRepoPathUnderRoot(store: GitoriousRepositoryStore, fs: FileSystem, path: string)
    requires store.root != "" && path != ""
    ensures var full := store.root + "/" + path;
      && (store.GetFullRepoPath(fs, path).err.None? <==> PreReceiveHookExists(fs, full))
      && (store.GetFullRepoPath(fs, path).err.None? ==> store.GetFullRepoPath(fs, path).value == full)
  {
    JoinTwo(store.root, path);
  }
}
