/**
  The command line: `parse_modules_string` turns the modules argument into a
  list of module names, and the two entry points (positional arguments in one
  variant, `--modules` and `--semantic-version` flags in the other) decide
  between stopping with exit status 1 and running the detector.
 */
module Cli {
  import opened Common
  import opened PyText
  import opened CommitResolver
  import opened Fingerprint
  import opened Detection
  import opened Output

  predicate IsDoubleQuote(c: char) { c == '"' }

  predicate IsSingleQuote(c: char) { c == '\'' }

  /** `modules_str.strip().strip('"').strip("'")` */
  function Unquoted(s: string): (r: string)
    ensures |r| <= |s|
    ensures r != [] ==> !IsSingleQuote(r[0]) && !IsSingleQuote(r[|r| - 1])
  {
    Strip(Strip(Strip(s, IsSpace), IsDoubleQuote), IsSingleQuote)
  }

  /** `[m.strip() for m in ts if m.strip()]` */
  function Cleaned(ts: seq<string>): (r: seq<string>)
    ensures |r| <= |ts|
    ensures forall i | 0 <= i < |r| :: r[i] != [] && !IsSpace(r[i][0]) && !IsSpace(r[i][|r[i]| - 1])
  {
    if ts == [] then []
    else
      var t := Strip(ts[0], IsSpace);
      (if t != [] then [t] else []) + Cleaned(ts[1..])
  }

  /** On the tokens `split()` produces, the comprehension keeps every token as it is. */
  lemma {:induction false} CleanedKeepsTokens(ts: seq<string>)
    requires forall i | 0 <= i < |ts| :: ts[i] != [] && NoSpace(ts[i])
    ensures Cleaned(ts) == ts
    decreases |ts|
  {
    if ts != [] {
      CleanedKeepsTokens(ts[1..]);
      assert ts == [ts[0]] + ts[1..];
    }
  }

  /**
    `parse_modules_string(s)`: no modules for an empty argument; otherwise the
    whitespace-separated words of the unquoted argument, each non-empty and
    free of whitespace.
   */
  function ParseModules(s: string): (r: seq<string>)
    ensures s == [] ==> r == []
    ensures s != [] ==> r == Split(Unquoted(s))
    ensures forall i | 0 <= i < |r| :: r[i] != [] && NoSpace(r[i])
  {
    if s == [] then []
    else
      CleanedKeepsTokens(Split(Unquoted(s)));
      Cleaned(Split(Unquoted(s)))
  }

  /** The module names keep every non-whitespace character of the unquoted argument, in order. */
  lemma ParseKeepsOrder(s: string)
    requires s != []
    ensures Concat(ParseModules(s)) == Kept(Unquoted(s), IsSpace)
  {
    SplitKeepsOrder(Unquoted(s));
  }

  /** A string made only of characters `drop` removes strips to nothing. */
  lemma StripAll(s: string, drop: char -> bool)
    requires forall i | 0 <= i < |s| :: drop(s[i])
    ensures Strip(s, drop) == []
  {
    StripLeftSplits(s, drop);
  }

  /** An argument of whitespace only names no module. */
  lemma BlankArgumentNamesNothing(s: string)
    requires forall i | 0 <= i < |s| :: IsSpace(s[i])
    ensures ParseModules(s) == []
  {
    if s != [] {
      StripAll(s, IsSpace);
    }
  }

  lemma JoinWithEnds(ts: seq<string>, c: char)
    requires ts != [] && forall i | 0 <= i < |ts| :: ts[i] != []
    ensures var j := JoinWith(ts, c);
            j != [] && j[0] == ts[0][0] && j[|j| - 1] == ts[|ts| - 1][|ts[|ts| - 1]| - 1]
    decreases |ts|
  {
    if |ts| > 1 {
      JoinWithEnds(ts[1..], c);
    }
  }

  /** A word is a module name the parser can give back unchanged when it would survive it at both ends. */
  predicate PlainEnds(t: string)
  {
    t != [] && !IsSpace(t[0]) && !IsSpace(t[|t| - 1])
    && !IsDoubleQuote(t[0]) && !IsDoubleQuote(t[|t| - 1])
    && !IsSingleQuote(t[0]) && !IsSingleQuote(t[|t| - 1])
  }

  /** `q + t + q` loses exactly the two quotes when stripping `q` from it. */
  lemma StripOneQuote(t: string, drop: char -> bool, q: char)
    requires drop(q) && t != [] && !drop(t[0]) && !drop(t[|t| - 1])
    ensures Strip([q] + t + [q], drop) == t
  {
    var s := [q] + t + [q];
    assert s[1..] == t + [q];
    assert StripLeft(s, drop) == StripLeft(t + [q], drop);
    assert StripLeft(t + [q], drop) == t + [q];
    assert (t + [q])[..|t|] == t;
  }

  lemma UnquotedPlain(j: string)
    requires PlainEnds(j)
    ensures Unquoted(j) == j
  {
  }

  lemma UnquotedDouble(j: string)
    requires PlainEnds(j)
    ensures Unquoted(['"'] + j + ['"']) == j
  {
    var s := ['"'] + j + ['"'];
    assert !IsSpace('"');
    assert Strip(s, IsSpace) == s;
    StripOneQuote(j, IsDoubleQuote, '"');
  }

  lemma UnquotedSingle(j: string)
    requires PlainEnds(j)
    ensures Unquoted(['\''] + j + ['\'']) == j
  {
    var s := ['\''] + j + ['\''];
    assert !IsSpace('\'');
    assert Strip(s, IsSpace) == s;
    assert Strip(s, IsDoubleQuote) == s;
    StripOneQuote(j, IsSingleQuote, '\'');
  }

  /**
    Module names written with single spaces between them, optionally inside
    one pair of double or single quotes, parse back to the same list, as long
    as the first and last names do not begin or end with a quote. Quotes inside
    a name are kept.
   */
  lemma QuotedListParses(ts: seq<string>, q: Option<char>)
    requires ts != [] && forall i | 0 <= i < |ts| :: ts[i] != [] && NoSpace(ts[i])
    requires PlainEnds(ts[0]) && PlainEnds(ts[|ts| - 1])
    requires q == None || q == Some('"') || q == Some('\'')
    ensures var j := JoinWith(ts, ' ');
            ParseModules(if q.Some? then [q.value] + j + [q.value] else j) == ts
  {
    var j := JoinWith(ts, ' ');
    JoinWithEnds(ts, ' ');
    assert PlainEnds(j);
    SplitJoinSpaced(ts);
    var s := if q.Some? then [q.value] + j + [q.value] else j;
    if q == Some('"') {
      UnquotedDouble(j);
    } else if q == Some('\'') {
      UnquotedSingle(j);
    } else {
      UnquotedPlain(j);
    }
    ParseOfUnquoted(s, j, ts);
  }

  lemma ParseOfUnquoted(s: string, j: string, ts: seq<string>)
    requires s != [] && Unquoted(s) == j && Split(j) == ts
    ensures ParseModules(s) == ts
  {
  }

  /** How a run of the script ends before detection, or the input it runs the detector with. */
  datatype Outcome =
    | Stop(status: int, message: string)
    | Detect(modules: seq<string>, version: string)

  const NoModulesMessage := "Error: No modules specified"

  /**
    `main()` of the positional variant: fewer than two arguments print the
    usage line, an empty argument stops with an error, and so does a modules
    argument that names no module; each of these exits with status 1.
   */
  function MainPositional(argv: seq<string>): (o: Outcome)
    ensures o.Stop? ==> o.status == 1
    ensures o.Detect? <==> |argv| >= 3 && argv[1] != [] && argv[2] != [] && ParseModules(argv[1]) != []
    ensures o.Detect? ==> o.modules == ParseModules(argv[1]) && o.version == argv[2]
  {
    if |argv| < 3 then
      Stop(1, "Usage: detect_changes.py --modules <modules> --semantic-version <version>")
    else
      var modulesArg, version := argv[1], argv[2];
      if modulesArg == [] || version == [] then
        Stop(1, "Error: Both modules and semantic-version are required")
      else
        var modules := ParseModules(modulesArg);
        if modules == [] then Stop(1, NoModulesMessage) else Detect(modules, version)
  }

  /**
    `main()` of the flag variant, once `argparse` has found both required
    flags: only a modules argument that names no module stops the run, and an
    empty version is accepted.
   */
  function MainWithFlags(modulesArg: string, version: string): (o: Outcome)
    ensures o.Detect? <==> ParseModules(modulesArg) != []
    ensures o.Stop? ==> o == Stop(1, NoModulesMessage)
    ensures o.Detect? ==> o.modules == ParseModules(modulesArg) && o.version == version
  {
    var modules := ParseModules(modulesArg);
    if modules == [] then Stop(1, NoModulesMessage) else Detect(modules, version)
  }

  /**
    The positional variant reads its first two arguments as the values, so a
    call written like its usage line checks a module called `--modules`.
   */
  lemma UsageLineIsReadPositionally(script: string, flag: string, m: string, v: string)
    requires flag == "--modules" && m != []
    ensures MainPositional([script, flag, m, "--semantic-version", v]) == Detect([flag], m)
  {
    assert flag[0] == '-' && flag[|flag| - 1] == 's';
    assert NoSpace(flag);
    QuotedListParses([flag], None);
  }

  /**
    The run as a whole: an outcome that stops never reaches detection or
    writes outputs. Otherwise the detector runs on the parsed modules. Its
    dictionary is written with the version, and the script ends with status 0.
    The one exception is a `GITHUB_OUTPUT` file that cannot be opened for
    appending (`appendOpens` false): the exception ends the script with status
    1 before any line is written.
   */
  method RunDetector(o: Outcome, env: Env, revParse: string -> Captured, world: nat -> ModuleWorld,
                     sha: seq<byte> -> HexDigest, githubOutput: Option<string>, appendOpens: bool,
                     dumps: Changes -> string)
    returns (status: int, written: Option<Channel>)
    ensures o.Stop? ==> status == o.status && written == None
    ensures o.Detect? && ToFile(githubOutput) && !appendOpens ==> status == 1 && written == None
    ensures o.Detect? && (!ToFile(githubOutput) || appendOpens) ==>
              status == 0 && written == Some(Rendered(
                DetectSpec(o.modules, Resolve(env, revParse), world, sha), o.version, githubOutput, dumps))
  {
    if o.Stop? {
      return o.status, None;
    }
    var changes := DetectChanges(o.modules, env, revParse, world, sha);
    if ToFile(githubOutput) && !appendOpens {
      return 1, None;
    }
    KeysAreDedup(o.modules, Resolve(env, revParse), world, sha);
    var out := OutputGithubActions(changes, o.version, githubOutput, dumps);
    return 0, Some(out);
  }
}
