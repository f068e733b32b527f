/** The environment handed to git and to the repository hooks
    (common/env.go): the gateway's own environment followed by
    `GITORIOUS_*` entries describing the request. An environment is an
    ordered list of `KEY=value` entries, as `os.Environ()` returns it. */
module Env {
  import opened Strings
  import Api

  function Entry(key: string, value: string): string {
    key + "=" + value
  }

  /** Whether `entry` is an entry for `key`. */
  predicate HasKey(entry: string, key: string) {
    HasPrefix(entry, key + "=")
  }

  predicate MentionsKey(entries: seq<string>, key: string) {
    exists k :: 0 <= k < |entries| && HasKey(entries[k], key)
  }

  /** The variables `CreateEnv` may set, the three hook variables first. */
  datatype Variable =
    | Proto | User | RepositoryId
    | SshCloneUrl | HttpCloneUrl | GitCloneUrl
    | CustomPreReceivePath | CustomPostReceivePath | CustomUpdatePath

  function Name(v: Variable): string {
    match v
    case Proto => "GITORIOUS_PROTO"
    case User => "GITORIOUS_USER"
    case RepositoryId => "GITORIOUS_REPOSITORY_ID"
    case SshCloneUrl => "GITORIOUS_SSH_CLONE_URL"
    case HttpCloneUrl => "GITORIOUS_HTTP_CLONE_URL"
    case GitCloneUrl => "GITORIOUS_GIT_CLONE_URL"
    case CustomPreReceivePath => "GITORIOUS_CUSTOM_PRE_RECEIVE_PATH"
    case CustomPostReceivePath => "GITORIOUS_CUSTOM_POST_RECEIVE_PATH"
    case CustomUpdatePath => "GITORIOUS_CUSTOM_UPDATE_PATH"
  }

  /** The three entries every hook relies on, always emitted, even for a
      repository id of 0. */
  function HookEntries(protocol: string, username: string, cfg: Api.RepoConfig): seq<string> {
    [ Entry(Name(Proto), protocol),
      Entry(Name(User), username),
      Entry(Name(RepositoryId), FormatInt(cfg.repositoryId)) ]
  }

  /** The optional variables and the configuration fields behind them, in
      the order `CreateEnv` tests them. */
  function OptionalFields(cfg: Api.RepoConfig): seq<(Variable, string)> {
    [ (SshCloneUrl, cfg.sshCloneUrl),
      (HttpCloneUrl, cfg.httpCloneUrl),
      (GitCloneUrl, cfg.gitCloneUrl),
      (CustomPreReceivePath, cfg.customPreReceivePath),
      (CustomPostReceivePath, cfg.customPostReceivePath),
      (CustomUpdatePath, cfg.customUpdatePath) ]
  }

  /** The entry one field contributes: none when its value is empty. */
  function Emitted(field: (Variable, string)): seq<string> {
    if field.1 == "" then [] else [Entry(Name(field.0), field.1)]
  }

  /** The entries of the fields whose value is non-empty, in table order. */
  function Present(fields: seq<(Variable, string)>): seq<string> {
    if fields == [] then [] else Emitted(fields[0]) + Present(fields[1..])
  }

  function NonEmptyCount(fields: seq<(Variable, string)>): nat {
    if fields == [] then 0
    else (if fields[0].1 == "" then 0 else 1) + NonEmptyCount(fields[1..])
  }

  /** The environment `CreateEnv` builds. */
  function ConfigEnv(environ: seq<string>, protocol: string, username: string, cfg: Api.RepoConfig): seq<string> {
    environ + HookEntries(protocol, username, cfg) + Present(OptionalFields(cfg))
  }

  /** `CreateEnv`: three unconditional appends, then one append per
      non-empty optional field. */
  method CreateEnv(environ: seq<string>, protocol: string, username: string, cfg: Api.RepoConfig)
    returns (env: seq<string>)
    ensures env == ConfigEnv(environ, protocol, username, cfg)
  {
    env := environ;
    env := env + [Entry(Name(Proto), protocol)];
    env := env + [Entry(Name(User), username)];
    env := env + [Entry(Name(RepositoryId), FormatInt(cfg.repositoryId))];
    assert env == environ + HookEntries(protocol, username, cfg);
    ghost var hooked := env;
    env := AppendIfSet(env, SshCloneUrl, cfg.sshCloneUrl);
    ghost var e0 := env;
    env := AppendIfSet(env, HttpCloneUrl, cfg.httpCloneUrl);
    ghost var e1 := env;
    env := AppendIfSet(env, GitCloneUrl, cfg.gitCloneUrl);
    ghost var e2 := env;
    env := AppendIfSet(env, CustomPreReceivePath, cfg.customPreReceivePath);
    ghost var e3 := env;
    env := AppendIfSet(env, CustomPostReceivePath, cfg.customPostReceivePath);
    ghost var e4 := env;
    env := AppendIfSet(env, CustomUpdatePath, cfg.customUpdatePath);
    ghost var e5 := env;
    OptionalSteps(hooked, cfg, e0, e1, e2, e3, e4, e5);
  }

  /** One of `CreateEnv`'s conditional appends: the entry for `v` is added
      only when `value` is non-empty. */
  method AppendIfSet(env: seq<string>, v: Variable, value: string) returns (r: seq<string>)
    ensures r == env + Emitted((v, value))
  {
    r := env;
    if value != "" {
      r := r + [Entry(Name(v), value)];
    }
  }

  /** The six conditional appends add the optional entries, in table order. */
  lemma OptionalSteps(base: seq<string>, cfg: Api.RepoConfig, e0: seq<string>, e1: seq<string>, e2: seq<string>,
                      e3: seq<string>, e4: seq<string>, e5: seq<string>)
    requires e0 == base + Emitted(OptionalFields(cfg)[0])
    requires e1 == e0 + Emitted(OptionalFields(cfg)[1])
    requires e2 == e1 + Emitted(OptionalFields(cfg)[2])
    requires e3 == e2 + Emitted(OptionalFields(cfg)[3])
    requires e4 == e3 + Emitted(OptionalFields(cfg)[4])
    requires e5 == e4 + Emitted(OptionalFields(cfg)[5])
    ensures e5 == base + Present(OptionalFields(cfg))
  {
    var f := OptionalFields(cfg);
    assert base == base + Present(f[..0]);
    AppendStep(base, f, 0, base, e0);
    AppendStep(base, f, 1, e0, e1);
    AppendStep(base, f, 2, e1, e2);
    AppendStep(base, f, 3, e2, e3);
    AppendStep(base, f, 4, e3, e4);
    AppendStep(base, f, 5, e4, e5);
    assert f[..6] == f;
  }

  /** One conditional append adds the next field's entries. */
  lemma AppendStep(base: seq<string>, f: seq<(Variable, string)>, i: int, before: seq<string>, after: seq<string>)
    requires 0 <= i < |f|
    requires before == base + Present(f[..i])
    requires after == before + Emitted(f[i])
    ensures after == base + Present(f[..i + 1])
  {
    PresentPrefix(f, i);
  }

  /** Extending a table by one field extends its entries by that field's. */
  lemma PresentPrefix(fields: seq<(Variable, string)>, i: int)
    requires 0 <= i < |fields|
    ensures Present(fields[..i + 1]) == Present(fields[..i]) + Emitted(fields[i])
  {
    assert fields[..i + 1] == fields[..i] + [fields[i]];
    PresentAppend(fields[..i], [fields[i]]);
    assert [fields[i]][1..] == [];
  }

  lemma {:induction false} PresentAppend(a: seq<(Variable, string)>, b: seq<(Variable, string)>)
    ensures Present(a + b) == Present(a) + Present(b)
  {
    if a != [] {
      assert (a + b)[1..] == a[1..] + b;
      PresentAppend(a[1..], b);
    } else {
      assert a + b == b;
    }
  }

  // ---------------------------------------------------------------------
  // What the environment contains

  /** Names contain no `=`, and different variables have different names. */
  lemma NameInjective(a: Variable, b: Variable)
    ensures '=' !in Name(a)
    ensures Name(a) == Name(b) ==> a == b
  {
    NameSignature(a);
    NameSignature(b);
  }

  /** The length of a name and its character after `GITORIOUS_`, which
      together tell the variables apart. */
  function Signature(v: Variable): (int, char) {
    match v
    case Proto => (15, 'P')
    case User => (14, 'U')
    case RepositoryId => (23, 'R')
    case SshCloneUrl => (23, 'S')
    case HttpCloneUrl => (24, 'H')
    case GitCloneUrl => (23, 'G')
    case CustomPreReceivePath => (33, 'C')
    case CustomPostReceivePath => (34, 'C')
    case CustomUpdatePath => (28, 'C')
  }

  lemma NameSignature(v: Variable)
    ensures |Name(v)| > 10 && (|Name(v)|, Name(v)[10]) == Signature(v)
    ensures '=' !in Name(v)
  {
    match v
    case Proto =>
    case User =>
    case RepositoryId =>
    case SshCloneUrl =>
    case HttpCloneUrl =>
    case GitCloneUrl =>
    case CustomPreReceivePath =>
    case CustomPostReceivePath =>
    case CustomUpdatePath =>
  }

  /** An entry's key is determined by the text before its first `=`. */
  lemma EntryKey(key: string, value: string, other: string)
    requires '=' !in key && '=' !in other
    requires HasKey(Entry(key, value), other)
    ensures key == other
  {
    var e := Entry(key, value);
    assert e[..|other| + 1] == other + "=";
    assert e[|other|] == '=';
    assert forall k :: 0 <= k < |key| ==> e[k] == key[k];
    assert |key| <= |other|;
    assert e[|key|] == '=';
    assert forall k :: 0 <= k < |other| ==> other[k] == e[k];
    assert |key| == |other|;
    assert e[..|other|] == (other + "=")[..|other|] == other;
    assert e[..|key|] == key;
  }

  lemma EntryHasKey(key: string, value: string)
    ensures HasKey(Entry(key, value), key)
  {
    assert Entry(key, value)[..|key + "="|] == key + "=";
  }

  /** An entry for variable `v` is an entry for no other variable. */
  lemma VariableEntryKey(v: Variable, value: string, w: Variable)
    ensures HasKey(Entry(Name(v), value), Name(w)) <==> v == w
  {
    NameInjective(v, w);
    NameInjective(w, v);
    EntryHasKey(Name(v), value);
    if HasKey(Entry(Name(v), value), Name(w)) {
      EntryKey(Name(v), value, Name(w));
    }
  }

  /** Each variable appears at most once in the table. */
  predicate Distinct(fields: seq<(Variable, string)>) {
    forall i, j :: 0 <= i < j < |fields| ==> fields[i].0 != fields[j].0
  }

  /** Every emitted entry comes from a field with a non-empty value. */
  lemma {:induction false} PresentSound(fields: seq<(Variable, string)>, k: int)
    requires 0 <= k < |Present(fields)|
    ensures exists i :: 0 <= i < |fields| && fields[i].1 != "" && Present(fields)[k] == Entry(Name(fields[i].0), fields[i].1)
  {
    var rest := Present(fields[1..]);
    if fields[0].1 != "" && k == 0 {
      assert Present(fields)[0] == Entry(Name(fields[0].0), fields[0].1);
    } else {
      var k' := if fields[0].1 == "" then k else k - 1;
      assert Present(fields)[k] == rest[k'];
      PresentSound(fields[1..], k');
      var i :| 0 <= i < |fields[1..]| && fields[1..][i].1 != "" && rest[k'] == Entry(Name(fields[1..][i].0), fields[1..][i].1);
      assert fields[i + 1] == fields[1..][i];
    }
  }

  /** Every field with a non-empty value is emitted. */
  lemma PresentComplete(fields: seq<(Variable, string)>, i: int)
    requires 0 <= i < |fields| && fields[i].1 != ""
    ensures exists k :: 0 <= k < |Present(fields)| && Present(fields)[k] == Entry(Name(fields[i].0), fields[i].1)
  {
    var k := PresentIndex(fields, i);
  }

  /** Where a field with a non-empty value is emitted: after the entries of
      the fields before it. */
  lemma {:induction false} PresentIndex(fields: seq<(Variable, string)>, i: int) returns (k: int)
    requires 0 <= i < |fields| && fields[i].1 != ""
    ensures 0 <= k < |Present(fields)| && Present(fields)[k] == Entry(Name(fields[i].0), fields[i].1)
  {
    var rest := Present(fields[1..]);
    assert Present(fields) == Emitted(fields[0]) + rest;
    if i == 0 {
      k := 0;
    } else {
      assert fields[1..][i - 1] == fields[i];
      var j := PresentIndex(fields[1..], i - 1);
      k := |Emitted(fields[0])| + j;
    }
  }

  /** A variable of a table without repetitions is mentioned exactly when
      its value is non-empty, and then only by the entry carrying that
      value. */
  lemma PresentMentions(fields: seq<(Variable, string)>, i: int)
    requires Distinct(fields) && 0 <= i < |fields|
    ensures MentionsKey(Present(fields), Name(fields[i].0)) <==> fields[i].1 != ""
    ensures forall k :: 0 <= k < |Present(fields)| && HasKey(Present(fields)[k], Name(fields[i].0)) ==>
      Present(fields)[k] == Entry(Name(fields[i].0), fields[i].1)
  {
    var v := fields[i].0;
    var p := Present(fields);
    forall k | 0 <= k < |p| && HasKey(p[k], Name(v))
      ensures p[k] == Entry(Name(v), fields[i].1)
    {
      PresentSound(fields, k);
      var j :| 0 <= j < |fields| && fields[j].1 != "" && p[k] == Entry(Name(fields[j].0), fields[j].1);
      VariableEntryKey(fields[j].0, fields[j].1, v);
    }
    if fields[i].1 != "" {
      PresentComplete(fields, i);
      var k :| 0 <= k < |p| && p[k] == Entry(Name(v), fields[i].1);
      EntryHasKey(Name(v), fields[i].1);
    } else if MentionsKey(p, Name(v)) {
      var k :| 0 <= k < |p| && HasKey(p[k], Name(v));
      PresentSound(fields, k);
      var j :| 0 <= j < |fields| && fields[j].1 != "" && p[k] == Entry(Name(fields[j].0), fields[j].1);
      VariableEntryKey(fields[j].0, fields[j].1, v);
    }
  }

  lemma {:induction false} PresentLength(fields: seq<(Variable, string)>)
    ensures |Present(fields)| == NonEmptyCount(fields)
  {
    if fields != [] {
      PresentLength(fields[1..]);
    }
  }

  /** Two non-empty fields are emitted in table order. */
  lemma PresentOrder(fields: seq<(Variable, string)>, i: int, j: int)
    requires 0 <= i < j < |fields| && fields[i].1 != "" && fields[j].1 != ""
    ensures exists p, q ::
      && 0 <= p < q < |Present(fields)|
      && Present(fields)[p] == Entry(Name(fields[i].0), fields[i].1)
      && Present(fields)[q] == Entry(Name(fields[j].0), fields[j].1)
  {
    var a, b := fields[..j], fields[j..];
    assert fields == a + b;
    PresentAppend(a, b);
    PresentComplete(a, i);
    var p :| 0 <= p < |Present(a)| && Present(a)[p] == Entry(Name(a[i].0), a[i].1);
    PresentComplete(b, 0);
    var q :| 0 <= q < |Present(b)| && Present(b)[q] == Entry(Name(b[0].0), b[0].1);
    assert Present(fields)[p] == Present(a)[p];
    assert Present(fields)[|Present(a)| + q] == Present(b)[q];
  }

  /** The layout of the environment: the inherited entries unchanged, then
      the three hook entries, then one entry per non-empty optional field;
      nothing else. */
  lemma CreateEnvLayout(environ: seq<string>, protocol: string, username: string, cfg: Api.RepoConfig)
    ensures var env := ConfigEnv(environ, protocol, username, cfg);
      && |env| == |environ| + 3 + NonEmptyCount(OptionalFields(cfg))
      && env[..|environ|] == environ
      && env[|environ|] == "GITORIOUS_PROTO=" + protocol
      && env[|environ| + 1] == "GITORIOUS_USER=" + username
      && env[|environ| + 2] == "GITORIOUS_REPOSITORY_ID=" + FormatInt(cfg.repositoryId)
      && env[|environ| + 3..] == Present(OptionalFields(cfg))
  {
    PresentLength(OptionalFields(cfg));
    var env := ConfigEnv(environ, protocol, username, cfg);
    assert env[|environ| + 3..] == Present(OptionalFields(cfg));
  }

  /** Each optional variable appears after the hook entries exactly when its
      field is non-empty, and then with the field as its value. */
  lemma OptionalKeyIffNonEmpty(environ: seq<string>, protocol: string, username: string, cfg: Api.RepoConfig, i: int)
    requires 0 <= i < 6
    ensures var (v, value) := OptionalFields(cfg)[i];
      var added := ConfigEnv(environ, protocol, username, cfg)[|environ| + 3..];
      && (MentionsKey(added, Name(v)) <==> value != "")
      && (forall k :: 0 <= k < |added| && HasKey(added[k], Name(v)) ==> added[k] == Entry(Name(v), value))
  {
    CreateEnvLayout(environ, protocol, username, cfg);
    PresentMentions(OptionalFields(cfg), i);
  }

  /** No optional entry has an empty value, and every one belongs to one of
      the six optional variables. */
  lemma OptionalEntriesNonEmpty(environ: seq<string>, protocol: string, username: string, cfg: Api.RepoConfig, k: int)
    requires |environ| + 3 <= k < |ConfigEnv(environ, protocol, username, cfg)|
    ensures exists i ::
      && 0 <= i < 6 && OptionalFields(cfg)[i].1 != ""
      && ConfigEnv(environ, protocol, username, cfg)[k] == Entry(Name(OptionalFields(cfg)[i].0), OptionalFields(cfg)[i].1)
  {
    CreateEnvLayout(environ, protocol, username, cfg);
    var env := ConfigEnv(environ, protocol, username, cfg);
    assert env[k] == Present(OptionalFields(cfg))[k - |environ| - 3];
    PresentSound(OptionalFields(cfg), k - |environ| - 3);
  }

  /** The optional entries follow the order of `CreateEnv`'s tests. */
  lemma OptionalEntriesOrdered(environ: seq<string>, protocol: string, username: string, cfg: Api.RepoConfig, i: int, j: int)
    requires 0 <= i < j < 6 && OptionalFields(cfg)[i].1 != "" && OptionalFields(cfg)[j].1 != ""
    ensures var f, env := OptionalFields(cfg), ConfigEnv(environ, protocol, username, cfg);
      exists p, q ::
        && |environ| + 3 <= p < q < |env|
        && env[p] == Entry(Name(f[i].0), f[i].1) && env[q] == Entry(Name(f[j].0), f[j].1)
  {
    var f := OptionalFields(cfg);
    PresentOrder(f, i, j);
    var p, q :| 0 <= p < q < |Present(f)| && Present(f)[p] == Entry(Name(f[i].0), f[i].1) && Present(f)[q] == Entry(Name(f[j].0), f[j].1);
    AddedAt(environ, protocol, username, cfg, p);
    AddedAt(environ, protocol, username, cfg, q);
  }

  /** Where the `k`-th optional entry sits in the environment. */
  lemma AddedAt(environ: seq<string>, protocol: string, username: string, cfg: Api.RepoConfig, k: int)
    requires 0 <= k < |Present(OptionalFields(cfg))|
    ensures |ConfigEnv(environ, protocol, username, cfg)| == |environ| + 3 + |Present(OptionalFields(cfg))|
    ensures ConfigEnv(environ, protocol, username, cfg)[|environ| + 3 + k] == Present(OptionalFields(cfg))[k]
  {
  }

  // ---------------------------------------------------------------------
  // Reading the environment

  /** `os.Getenv`: the value of the first entry for `name`, or `""` when
      there is none. */
  function LookupEnv(environ: seq<string>, name: string): string {
    if environ == [] then ""
    else if HasKey(environ[0], name) then environ[0][|name| + 1..]
    else LookupEnv(environ[1..], name)
  }

  /** `Getenv`: the variable's value, or the default when that value is
      empty. */
  method Getenv(environ: seq<string>, name: string, defaultValue: string) returns (value: string)
    ensures LookupEnv(environ, name) != "" ==> value == LookupEnv(environ, name)
    ensures LookupEnv(environ, name) == "" ==> value == defaultValue
  {
    value := LookupEnv(environ, name);
    if value == "" {
      value := defaultValue;
    }
  }

  /** The value `Getenv` settles on, for stating what a caller does with it. */
  function Setting(environ: seq<string>, name: string, defaultValue: string): (value: string)
    ensures defaultValue != "" ==> value != ""
    ensures value == LookupEnv(environ, name) || value == defaultValue
  {
    if LookupEnv(environ, name) == "" then defaultValue else LookupEnv(environ, name)
  }

  /** The command an SSH client asked for: `SSH_ORIGINAL_COMMAND` without
      surrounding spaces and newlines. */
  function OriginalCommand(environ: seq<string>): string {
    Trim(LookupEnv(environ, "SSH_ORIGINAL_COMMAND"))
  }

  /** The environment the SSH proxies give git-shell: the inherited one with
      only the protocol and the user added. */
  function SshIdentityEnv(environ: seq<string>, username: string): seq<string> {
    environ + [Entry(Name(Proto), "ssh"), Entry(Name(User), username)]
  }

  /** Hooks of a repository served by an SSH proxy read the protocol `ssh`
      and the user, and see repository settings only where the inherited
      environment already had them. */
  lemma SshIdentityReads(environ: seq<string>, username: string, v: Variable)
    requires !MentionsKey(environ, Name(v))
    ensures v == Proto ==> LookupEnv(SshIdentityEnv(environ, username), Name(v)) == "ssh"
    ensures v == User ==> LookupEnv(SshIdentityEnv(environ, username), Name(v)) == username
    ensures v != Proto && v != User ==> !MentionsKey(SshIdentityEnv(environ, username), Name(v))
  {
    var e := SshIdentityEnv(environ, username);
    var tail := [Entry(Name(Proto), "ssh"), Entry(Name(User), username)];
    VariableEntryKey(Proto, "ssh", v);
    VariableEntryKey(User, username, v);
    LookupEnvSkips(environ, tail, Name(v));
    if v == Proto {
      assert LookupEnv(tail, Name(v)) == "ssh";
    } else if v == User {
      assert LookupEnv(tail[1..], Name(v)) == username;
    } else {
      forall k | 0 <= k < |e| ensures !HasKey(e[k], Name(v)) {
        if k < |environ| { assert e[k] == environ[k]; }
      }
    }
  }

  /** `os.Getenv` reads the first entry for the name, and `""` when there is
      none: so a variable set to `""` and an unset one both make `Getenv`
      fall back to the default. */
  lemma {:induction false} LookupEnvFirst(environ: seq<string>, name: string)
    ensures !MentionsKey(environ, name) ==> LookupEnv(environ, name) == ""
    ensures forall i ::
      (0 <= i < |environ| && HasKey(environ[i], name) && forall j :: 0 <= j < i ==> !HasKey(environ[j], name)) ==>
      LookupEnv(environ, name) == environ[i][|name| + 1..]
  {
    if environ != [] {
      LookupEnvFirst(environ[1..], name);
      if !MentionsKey(environ, name) {
        assert !MentionsKey(environ[1..], name) by {
          forall k | 0 <= k < |environ[1..]| ensures !HasKey(environ[1..][k], name) {
            assert environ[1..][k] == environ[k + 1];
          }
        }
      }
      forall i | 0 <= i < |environ| && HasKey(environ[i], name) && (forall j :: 0 <= j < i ==> !HasKey(environ[j], name))
        ensures LookupEnv(environ, name) == environ[i][|name| + 1..]
      {
        if i > 0 {
          assert !HasKey(environ[0], name);
          assert environ[1..][i - 1] == environ[i];
          forall j | 0 <= j < i - 1 ensures !HasKey(environ[1..][j], name) {
            assert environ[1..][j] == environ[j + 1];
          }
        }
      }
    }
  }

  /** Entries for other names in front do not change what is read. */
  lemma {:induction false} LookupEnvSkips(front: seq<string>, rest: seq<string>, name: string)
    requires !MentionsKey(front, name)
    ensures LookupEnv(front + rest, name) == LookupEnv(rest, name)
  {
    if front != [] {
      assert !HasKey(front[0], name);
      assert (front + rest)[1..] == front[1..] + rest;
      assert !MentionsKey(front[1..], name) by {
        forall k | 0 <= k < |front[1..]| ensures !HasKey(front[1..][k], name) {
          assert front[1..][k] == front[k + 1];
        }
      }
      LookupEnvSkips(front[1..], rest, name);
    } else {
      assert front + rest == rest;
    }
  }

  /** Reading a variable from the entries of a table without repetitions
      gives its field, or `""` when the table does not hold it. */
  lemma {:induction false} PresentLookup(fields: seq<(Variable, string)>, v: Variable, value: string)
    requires Distinct(fields)
    ensures (v, value) in fields ==> LookupEnv(Present(fields), Name(v)) == value
    ensures (forall i :: 0 <= i < |fields| ==> fields[i].0 != v) ==> LookupEnv(Present(fields), Name(v)) == ""
  {
    if fields != [] {
      var rest := fields[1..];
      var (w, x) := fields[0];
      TableTail(fields, v, value);
      PresentLookup(rest, v, value);
      if x == "" {
        assert Present(fields) == Present(rest);
      } else {
        assert Present(fields) == [Entry(Name(w), x)] + Present(rest);
        LookupCons(Entry(Name(w), x), Present(rest), Name(v));
        VariableEntryKey(w, x, v);
        assert Entry(Name(w), x)[|Name(w)| + 1..] == x;
      }
    }
  }

  /** What a table without repetitions passes on to its tail. */
  lemma TableTail(fields: seq<(Variable, string)>, v: Variable, value: string)
    requires Distinct(fields) && fields != []
    ensures Distinct(fields[1..])
    ensures forall j :: 0 <= j < |fields[1..]| ==> fields[1..][j].0 != fields[0].0
    ensures (v, value) in fields && fields[0] != (v, value) ==> (v, value) in fields[1..]
    ensures (forall i :: 0 <= i < |fields| ==> fields[i].0 != v) ==>
      forall j :: 0 <= j < |fields[1..]| ==> fields[1..][j].0 != v
  {
    assert fields == [fields[0]] + fields[1..];
  }

  /** Reading from an environment with one entry in front. */
  lemma LookupCons(e: string, rest: seq<string>, name: string)
    ensures LookupEnv([e] + rest, name) == if HasKey(e, name) then e[|name| + 1..] else LookupEnv(rest, name)
  {
    assert ([e] + rest)[1..] == rest;
  }

  /** The value the request gives each variable. */
  function RequestValue(v: Variable, protocol: string, username: string, cfg: Api.RepoConfig): string {
    match v
    case Proto => protocol
    case User => username
    case RepositoryId => FormatInt(cfg.repositoryId)
    case SshCloneUrl => cfg.sshCloneUrl
    case HttpCloneUrl => cfg.httpCloneUrl
    case GitCloneUrl => cfg.gitCloneUrl
    case CustomPreReceivePath => cfg.customPreReceivePath
    case CustomPostReceivePath => cfg.customPostReceivePath
    case CustomUpdatePath => cfg.customUpdatePath
  }

  /** A hook started with the environment `CreateEnv` built, by a gateway
      whose own environment does not set the variable, reads each
      `GITORIOUS_*` variable as the request's value; an optional variable
      whose field is empty reads as `""`, as if it were unset. */
  lemma HookReadsRequest(environ: seq<string>, protocol: string, username: string, cfg: Api.RepoConfig, v: Variable)
    requires !MentionsKey(environ, Name(v))
    ensures LookupEnv(ConfigEnv(environ, protocol, username, cfg), Name(v)) == RequestValue(v, protocol, username, cfg)
  {
    var n := Name(v);
    var f := OptionalFields(cfg);
    var p := Present(f);
    var proto, user, id := Entry(Name(Proto), protocol), Entry(Name(User), username), Entry(Name(RepositoryId), FormatInt(cfg.repositoryId));
    assert ConfigEnv(environ, protocol, username, cfg) == environ + ([proto] + ([user] + ([id] + p)));
    LookupEnvSkips(environ, [proto] + ([user] + ([id] + p)), n);
    LookupCons(proto, [user] + ([id] + p), n);
    LookupCons(user, [id] + p, n);
    LookupCons(id, p, n);
    VariableEntryKey(Proto, protocol, v);
    VariableEntryKey(User, username, v);
    VariableEntryKey(RepositoryId, FormatInt(cfg.repositoryId), v);
    match v
    case Proto => EntryValue(Name(Proto), protocol);
    case User => EntryValue(Name(User), username);
    case RepositoryId => EntryValue(Name(RepositoryId), FormatInt(cfg.repositoryId));
    case _ =>
      OptionalFieldsTable(v, protocol, username, cfg);
      PresentLookup(f, v, RequestValue(v, protocol, username, cfg));
  }

  lemma EntryValue(key: string, value: string)
    ensures Entry(key, value)[|key| + 1..] == value
  {
  }

  /** The optional table holds each optional variable once, with the
      request's value. */
  lemma OptionalFieldsTable(v: Variable, protocol: string, username: string, cfg: Api.RepoConfig)
    requires v != Proto && v != User && v != RepositoryId
    ensures Distinct(OptionalFields(cfg))
    ensures (v, RequestValue(v, protocol, username, cfg)) in OptionalFields(cfg)
  {
    var f := OptionalFields(cfg);
    match v
    case SshCloneUrl => assert f[0] == (v, cfg.sshCloneUrl);
    case HttpCloneUrl => assert f[1] == (v, cfg.httpCloneUrl);
    case GitCloneUrl => assert f[2] == (v, cfg.gitCloneUrl);
    case CustomPreReceivePath => assert f[3] == (v, cfg.customPreReceivePath);
    case CustomPostReceivePath => assert f[4] == (v, cfg.customPostReceivePath);
    case CustomUpdatePath => assert f[5] == (v, cfg.customUpdatePath);
  }
}
