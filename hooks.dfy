/** The hook-integrity check (common/hooks.go): a repository may be served
    only when its `hooks/pre-receive` file exists and is executable. */
module Hooks {
  import opened Strings
  import opened Paths

  /** `filepath.Join(fullRepoPath, "hooks", "pre-receive")`. */
  function HookPath(fullRepoPath: string): string {
    Join([fullRepoPath, "hooks", "pre-receive"])
  }

  /** `mode & 0111 != 0`. */
  predicate Executable(mode: FileMode) {
    mode & ExecuteBits != 0
  }

  /** `PreReceiveHookExists`: the hook can be stat'ed and some execute bit is
      set. Reading the map is all it does: the filesystem is a value here,
      so the query cannot change it. */
  predicate PreReceiveHookExists(fs: FileSystem, fullRepoPath: string): (ok: bool)
    ensures ok <==>
      var hook := HookPath(fullRepoPath);
      hook in fs && (fs[hook] & OwnerExecute != 0 || fs[hook] & GroupExecute != 0 || fs[hook] & OtherExecute != 0)
  {
    var hook := HookPath(fullRepoPath);
    hook in fs && Executable(fs[hook])
  }

  /** Any one of the owner, group and other execute bits is enough. */
  lemma ExecutableIffSomeExecuteBit(mode: FileMode)
    ensures Executable(mode) <==> (mode & OwnerExecute != 0 || mode & GroupExecute != 0 || mode & OtherExecute != 0)
  {
  }

  /** The hook checked is `<fullRepoPath>/hooks/pre-receive`; the answer is
      yes exactly when that path exists with an execute bit set. */
  lemma HookExistsIff(fs: FileSystem, fullRepoPath: string)
    requires fullRepoPath != ""
    ensures HookPath(fullRepoPath) == fullRepoPath + "/hooks/pre-receive"
    ensures PreReceiveHookExists(fs, fullRepoPath) <==>
      var hook := fullRepoPath + "/hooks/pre-receive";
      hook in fs && (fs[hook] & OwnerExecute != 0 || fs[hook] & GroupExecute != 0 || fs[hook] & OtherExecute != 0)
  {
    JoinThree(fullRepoPath, "hooks", "pre-receive");
    var hook := fullRepoPath + "/hooks/pre-receive";
    if hook in fs {
      ExecutableIffSomeExecuteBit(fs[hook]);
    }
  }

  /** A repository directory that does not exist holds no hook. */
  lemma MissingRepositoryHasNoHook(fs: FileSystem, fullRepoPath: string)
    requires fullRepoPath != ""
    requires forall p :: p in fs ==> !HasPrefix(p, fullRepoPath + "/")
    ensures !PreReceiveHookExists(fs, fullRepoPath)
  {
    JoinThree(fullRepoPath, "hooks", "pre-receive");
    var hook := fullRepoPath + "/hooks/pre-receive";
    assert hook[..|fullRepoPath + "/"|] == fullRepoPath + "/";
    assert HasPrefix(hook, fullRepoPath + "/");
  }

  /** The repositories of the test fixture: one with an executable hook
      (mode 0755), one whose hook has mode 0644, one with a `hooks`
      directory but no pre-receive hook. */
  function Fixture(): FileSystem {
    map[
      "fixtures/repos" := ModeDir | 0x1ED,
      "fixtures/repos/repo-with-hook.git" := ModeDir | 0x1ED,
      "fixtures/repos/repo-with-hook.git/hooks" := ModeDir | 0x1ED,
      "fixtures/repos/repo-with-hook.git/hooks/pre-receive" := 0x1ED,
      "fixtures/repos/repo-with-not-executable-hook.git" := ModeDir | 0x1ED,
      "fixtures/repos/repo-with-not-executable-hook.git/hooks" := ModeDir | 0x1ED,
      "fixtures/repos/repo-with-not-executable-hook.git/hooks/pre-receive" := 0x1A4,
      "fixtures/repos/repo-without-hook.git" := ModeDir | 0x1ED,
      "fixtures/repos/repo-without-hook.git/hooks" := ModeDir | 0x1ED
    ]
  }

  /** The four cases of the fixture, one lemma each. */
  lemma FixtureHookWithHook()
    ensures PreReceiveHookExists(Fixture(), "fixtures/repos/repo-with-hook.git")
  {
    HookExistsIff(Fixture(), "fixtures/repos/repo-with-hook.git");
    assert "fixtures/repos/repo-with-hook.git" + "/hooks/pre-receive" == "fixtures/repos/repo-with-hook.git/hooks/pre-receive";
  }

  lemma FixtureHookNotExecutable()
    ensures !PreReceiveHookExists(Fixture(), "fixtures/repos/repo-with-not-executable-hook.git")
  {
    HookExistsIff(Fixture(), "fixtures/repos/repo-with-not-executable-hook.git");
  }

  lemma FixtureHookMissing()
    ensures !PreReceiveHookExists(Fixture(), "fixtures/repos/repo-without-hook.git")
  {
    HookExistsIff(Fixture(), "fixtures/repos/repo-without-hook.git");
    // The only fixture path of the same length differs at index 24.
    assert ("fixtures/repos/repo-without-hook.git" + "/hooks/pre-receive")[24] != "fixtures/repos/repo-with-not-executable-hook.git/hooks"[24];
  }

  lemma FixtureRepositoryMissing()
    ensures !PreReceiveHookExists(Fixture(), "fixtures/repos/non-existent.git")
  {
    HookExistsIff(Fixture(), "fixtures/repos/non-existent.git");
  }
}
