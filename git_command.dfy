/** The SSH command grammar shared by every SSH entry point of the gateway:
    the regular expression

        ^(git(-|\s)(receive-pack|upload-pack|upload-archive))\s+'/?([^']+)'$

    (its older form has no `/?`), written as an explicit grammar. A
    `CommandSyntax` names the pieces of one accepted spelling, `Render` glues
    them together, and `Parse` is the matcher; `Parse` and `Render` are
    inverse to each other on well-formed syntax. Go's RE2 semantics apply:
    `\s` is `[\t\n\f\r ]`, `[^']` includes a newline, and `^`/`$` anchor the
    whole text. */
module GitCommand {
  import opened Wrappers
  import opened Strings

  /** The three git services that git-shell runs. */
  datatype Operation = ReceivePack | UploadPack | UploadArchive

  function OperationName(op: Operation): string {
    match op
    case ReceivePack => "receive-pack"
    case UploadPack => "upload-pack"
    case UploadArchive => "upload-archive"
  }

  /** `(-|\s)` between `git` and the service name. */
  predicate IsSeparator(c: char) {
    c == '-' || IsSpace(c)
  }

  /** One spelling the regular expression accepts:
      `git` separator service gap `'` quoted `'`. */
  datatype CommandSyntax = CommandSyntax(separator: char, op: Operation, gap: string, quoted: string)

  /** The constraints of the regular expression on each piece: `(-|\s)`,
      `\s+` and `[^']+`. */
  predicate WellFormed(c: CommandSyntax) {
    && IsSeparator(c.separator)
    && |c.gap| >= 1 && AllSpace(c.gap)
    && |c.quoted| >= 1 && '\'' !in c.quoted
  }

  /** The first submatch, e.g. `git-upload-pack` or `git upload-pack`. */
  function CommandOf(c: CommandSyntax): string {
    "git" + [c.separator] + OperationName(c.op)
  }

  function Render(c: CommandSyntax): string {
    CommandOf(c) + c.gap + "'" + c.quoted + "'"
  }

  /** Whether the grammar has the optional `/?` in front of the path. */
  datatype SlashRule = StripOneSlash | KeepSlash

  /** The path submatch. With `/?`, a greedy optional slash is taken when the
      `[^']+` after it can still match at least one character: one leading
      `/` is removed, except from the path `/` itself. */
  function PathOf(c: CommandSyntax, rule: SlashRule): string {
    if rule == StripOneSlash && |c.quoted| >= 2 && c.quoted[0] == '/' then c.quoted[1..] else c.quoted
  }

  /** Which service name `s` starts with. */
  function OperationAt(s: string): (r: Option<Operation>)
    ensures r.Some? ==> HasPrefix(s, OperationName(r.value))
  {
    if HasPrefix(s, "receive-pack") then Some(ReceivePack)
    else if HasPrefix(s, "upload-pack") then Some(UploadPack)
    else if HasPrefix(s, "upload-archive") then Some(UploadArchive)
    else None
  }

  lemma OperationAtName(op: Operation, rest: string)
    ensures OperationAt(OperationName(op) + rest) == Some(op)
  {
    var s := OperationName(op) + rest;
    assert s[..|OperationName(op)|] == OperationName(op);
    match op
    case ReceivePack =>
    case UploadPack =>
      assert s[0] == 'u';
    case UploadArchive =>
      assert s[0] == 'u' && s[7] == 'a';
      assert s[..11] != "upload-pack" by { assert s[..11][7] != "upload-pack"[7]; }
  }

  /** What follows the service name: `\s+'([^']+)'$`, split into the gap and
      the quoted text. */
  function ParseQuoted(rest: string): (r: Option<(string, string)>)
    ensures r.Some? ==> var (gap, quoted) := r.value;
      && |gap| >= 1 && AllSpace(gap) && |quoted| >= 1 && '\'' !in quoted
      && rest == gap + "'" + quoted + "'"
  {
    var w := LeadingSpaces(rest);
    var tail := rest[w..];
    if w == 0 || |tail| < 3 || tail[0] != '\'' || tail[|tail| - 1] != '\'' then None
    else
      var quoted := tail[1..|tail| - 1];
      if '\'' in quoted then None
      else
        assert tail == "'" + quoted + "'";
        assert rest == rest[..w] + tail;
        Some((rest[..w], quoted))
  }

  /** The matcher: the pieces of `s`, or `None` when the regular expression
      does not match. */
  function Parse(s: string): (r: Option<CommandSyntax>)
    ensures r.Some? ==> WellFormed(r.value) && Render(r.value) == s
  {
    if |s| < 4 || s[..3] != "git" || !IsSeparator(s[3]) then None
    else match OperationAt(s[4..])
      case None => None
      case Some(op) =>
        var k := 4 + |OperationName(op)|;
        match ParseQuoted(s[k..])
        case None => None
        case Some((gap, quoted)) =>
          RenderFromPieces(s, op, gap, quoted);
          Some(CommandSyntax(s[3], op, gap, quoted))
  }

  /** A text cut into `git`, a separator, a service name and the remainder is
      the rendering of those pieces. */
  lemma RenderFromPieces(s: string, op: Operation, gap: string, quoted: string)
    requires |s| >= 4 + |OperationName(op)| && s[..3] == "git"
    requires HasPrefix(s[4..], OperationName(op))
    requires s[4 + |OperationName(op)|..] == gap + "'" + quoted + "'"
    ensures Render(CommandSyntax(s[3], op, gap, quoted)) == s
  {
    var c := CommandSyntax(s[3], op, gap, quoted);
    var k := 4 + |OperationName(op)|;
    assert s[..k] == s[..3] + [s[3]] + s[4..][..|OperationName(op)|];
    assert CommandOf(c) == s[..k];
    assert Render(c) == CommandOf(c) + (gap + "'" + quoted + "'");
    assert s == s[..k] + s[k..];
  }

  /** Every well-formed spelling is matched, and its pieces are recovered. */
  lemma ParseRender(c: CommandSyntax)
    requires WellFormed(c)
    ensures Parse(Render(c)) == Some(c)
  {
    var s := Render(c);
    var name := OperationName(c.op);
    var tail := c.gap + "'" + c.quoted + "'";
    RenderParts(c);
    OperationAtName(c.op, tail);
    assert s[4 + |name|..] == tail by {
      assert s[4 + |name|..] == s[4..][|name|..];
    }
    ParseQuotedOf(c.gap, c.quoted);
  }

  /** Where the pieces sit in a rendering. */
  lemma RenderParts(c: CommandSyntax)
    ensures var s := Render(c);
      && |s| >= 4 && s[..3] == "git" && s[3] == c.separator
      && s[4..] == OperationName(c.op) + (c.gap + "'" + c.quoted + "'")
  {
    var s := Render(c);
    assert s == "git" + [c.separator] + (OperationName(c.op) + (c.gap + "'" + c.quoted + "'"));
  }

  /** The text after the service name is split back into its gap and path. */
  lemma ParseQuotedOf(gap: string, quoted: string)
    requires |gap| >= 1 && AllSpace(gap) && |quoted| >= 1 && '\'' !in quoted
    ensures ParseQuoted(gap + "'" + quoted + "'") == Some((gap, quoted))
  {
    var rest := gap + ("'" + quoted + "'");
    assert rest == gap + "'" + quoted + "'";
    LeadingSpacesOfPadded(gap, "'" + quoted + "'");
    assert rest[|gap|..] == "'" + quoted + "'";
    assert rest[..|gap|] == gap;
  }

  /** Two well-formed spellings of the same text are the same spelling, so the
      submatches are a function of the input. */
  lemma RenderInjective(c: CommandSyntax, d: CommandSyntax)
    requires WellFormed(c) && WellFormed(d) && Render(c) == Render(d)
    ensures c == d
  {
    ParseRender(c);
    ParseRender(d);
  }

  /** Every text the matcher accepts yields a non-empty, quote-free path, and
      the command is one of the six spellings `git-` or `git<space>` followed
      by a service name. */
  lemma ParsedPieces(c: CommandSyntax, rule: SlashRule)
    requires WellFormed(c)
    ensures var p := PathOf(c, rule); |p| >= 1 && '\'' !in p
    ensures rule == KeepSlash ==> PathOf(c, rule) == c.quoted
    ensures rule == StripOneSlash ==>
      || PathOf(c, rule) == c.quoted
      || (c.quoted == "/" + PathOf(c, rule) && PathOf(c, rule) != [])
  {
    if rule == StripOneSlash && |c.quoted| >= 2 && c.quoted[0] == '/' {
      assert c.quoted == [c.quoted[0]] + c.quoted[1..];
      assert forall k :: 0 <= k < |c.quoted| - 1 ==> c.quoted[1..][k] == c.quoted[k + 1];
    }
  }

  /** `formatGitShellCommand`: the command line handed to `git-shell -c`,
      the command, a space, and the path in single quotes; both pieces can be
      read back from their positions. */
  function FormatGitShellCommand(command: string, repoPath: string): (r: string)
    ensures |r| == |command| + |repoPath| + 3
    ensures r[..|command|] == command && r[|command|..|command| + 2] == " '"
    ensures r[|command| + 2..|r| - 1] == repoPath && r[|r| - 1] == '\''
  {
    command + " '" + repoPath + "'"
  }

  /** A text that is the rendering of well-formed pieces is parsed into
      exactly those pieces: together with `Parse`'s own contract, the matcher
      accepts a text if and only if it is such a rendering. */
  lemma ParseComplete(s: string)
    ensures forall c :: WellFormed(c) && Render(c) == s ==> Parse(s) == Some(c)
  {
    forall c | WellFormed(c) && Render(c) == s
      ensures Parse(s) == Some(c)
    {
      ParseRender(c);
    }
  }

  /** The error every SSH parser reports for a text the grammar rejects. */
  function InvalidCommand(fullCommand: string): string {
    "invalid git-shell command \"" + fullCommand + "\""
  }

  /** The submatches `(command, path)` of an accepted text, or `("", "")`
      with an error; `SshProtocolHandler.ParseCommand` returns them in the
      other order. */
  function Submatches(fullCommand: string, rule: SlashRule): (r: PairResult)
    ensures Parse(fullCommand).None? ==> r == PairResult("", "", Some(InvalidCommand(fullCommand)))
    ensures forall c :: WellFormed(c) && Render(c) == fullCommand ==>
      r == PairResult(CommandOf(c), PathOf(c, rule), None)
  {
    ParseComplete(fullCommand);
    match Parse(fullCommand)
    case None => PairResult("", "", Some(InvalidCommand(fullCommand)))
    case Some(c) => PairResult(CommandOf(c), PathOf(c, rule), None)
  }

  /** The command line handed to git-shell is one the grammar accepts: the
      command followed by one space and the quoted path. */
  lemma FormatParses(c: CommandSyntax, path: string)
    requires WellFormed(c) && |path| >= 1 && '\'' !in path
    ensures FormatGitShellCommand(CommandOf(c), path) == Render(CommandSyntax(c.separator, c.op, " ", path))
    ensures Parse(FormatGitShellCommand(CommandOf(c), path)) == Some(CommandSyntax(c.separator, c.op, " ", path))
  {
    var d := CommandSyntax(c.separator, c.op, " ", path);
    assert Render(d) == CommandOf(c) + " '" + path + "'";
    ParseRender(d);
  }

  /** Formatting and then parsing gives back the command and the path: the
      path unchanged when the grammar keeps slashes or the path does not
      start with `/`, and one leading `/` removed otherwise. */
  lemma FormatRoundTrip(c: CommandSyntax, path: string, rule: SlashRule)
    requires WellFormed(c) && |path| >= 1 && '\'' !in path
    ensures var r := Submatches(FormatGitShellCommand(CommandOf(c), path), rule);
      && r.err.None? && r.first == CommandOf(c)
      && (rule == KeepSlash || path[0] != '/' || |path| == 1 ==> r.second == path)
      && (rule == StripOneSlash && path[0] == '/' && |path| >= 2 ==> r.second == path[1..])
  {
    FormatParses(c, path);
    var d := CommandSyntax(c.separator, c.op, " ", path);
    assert CommandOf(d) == CommandOf(c);
  }

  // ---------------------------------------------------------------------
  // What the grammar turns away

  /** What every accepted text looks like: `git`, a separator, a service
      name, and a quoted path whose last character is not a quote. */
  lemma AcceptedShape(s: string)
    ensures Parse(s).Some? ==>
      && HasPrefix(s, "git") && |s| >= 6
      && HasPrefix(s[4..], OperationName(Parse(s).value.op))
      && s[|s| - 1] == '\'' && s[|s| - 2] != '\''
  {
    if Parse(s).Some? {
      RenderShape(Parse(s).value);
    }
  }

  /** The shape of every rendering of well-formed pieces. */
  lemma RenderShape(c: CommandSyntax)
    requires WellFormed(c)
    ensures var s := Render(c);
      && HasPrefix(s, "git") && |s| >= 6
      && HasPrefix(s[4..], OperationName(c.op))
      && s[|s| - 1] == '\'' && s[|s| - 2] != '\''
  {
    var s := Render(c);
    var q := c.quoted;
    var tail := c.gap + "'" + q + "'";
    assert s == "git" + [c.separator] + (OperationName(c.op) + tail);
    assert s[4..] == OperationName(c.op) + tail;
    assert s == (CommandOf(c) + c.gap + "'") + q + "'";
    assert s[|s| - 2] == q[|q| - 1];
    assert q[|q| - 1] in q;
  }

  /** A text that does not start with `git` is rejected. */
  lemma RejectsOtherProgram(s: string)
    requires !HasPrefix(s, "git")
    ensures Parse(s).None?
  {
    AcceptedShape(s);
  }

  /** A text that does not end with a quote, such as an unquoted path, is
      rejected. */
  lemma RejectsUnquoted(s: string)
    requires s == [] || s[|s| - 1] != '\''
    ensures Parse(s).None?
  {
    AcceptedShape(s);
  }

  /** After `git` and the separator, anything but one of the three service
      names is rejected. */
  lemma RejectsOtherService(separator: char, rest: string)
    requires forall op :: !HasPrefix(rest, OperationName(op))
    ensures Parse("git" + [separator] + rest).None?
  {
    var s := "git" + [separator] + rest;
    AcceptedShape(s);
    assert s[4..] == rest;
  }

  /** An empty quoted path is rejected, whatever precedes it. */
  lemma RejectsEmptyPath(prefix: string)
    ensures Parse(prefix + "''").None?
  {
    var s := prefix + "''";
    AcceptedShape(s);
    assert s[|s| - 2] == '\'';
  }
}
