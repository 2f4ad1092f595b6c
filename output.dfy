/**
  The step outputs (`output_github_actions`): one `<name>-changed` output per
  module in dictionary order, then `changes` holding the JSON text of the
  dictionary, then `semantic-version`. They are appended to the file named by
  `GITHUB_OUTPUT` as `name=value` lines, or, when that variable is unset or
  empty, printed as `::set-output name=<name>::<value>` commands.

  `json.dumps` is a parameter: a function from the dictionary to its text.
 */
module Output {
  import opened Common
  import opened PyText
  import opened Detection

  /** `module.replace('_', '-').replace('/', '-')` */
  function OutputName(m: string): (r: string)
    ensures |r| == |m|
    ensures forall i | 0 <= i < |r| :: r[i] != '_' && r[i] != '/'
    ensures forall i | 0 <= i < |m| :: r[i] == if m[i] == '_' || m[i] == '/' then '-' else m[i]
  {
    ReplaceChar(ReplaceChar(m, '_', '-'), '/', '-')
  }

  /** `str(changed).lower()` */
  function BoolText(b: bool): (t: string)
    ensures t == "true" <==> b
    ensures t == "false" <==> !b
  {
    if b then "true" else "false"
  }

  /** One step output: its name and its value. */
  datatype Emission = Emission(name: string, value: string)

  /** Every key has a value: what iterating over `changes.items()` needs. */
  predicate HasValues(changes: Changes)
  {
    forall i | 0 <= i < |changes.keys| :: changes.keys[i] in changes.values
  }

  /** The outputs in the order they are written. */
  function Emissions(changes: Changes, json: string, version: string): (e: seq<Emission>)
    requires HasValues(changes)
    ensures |e| == |changes.keys| + 2
    ensures forall i | 0 <= i < |changes.keys| ::
              e[i] == Emission(OutputName(changes.keys[i]) + "-changed", BoolText(changes.values[changes.keys[i]]))
    ensures e[|changes.keys|] == Emission("changes", json)
    ensures e[|changes.keys| + 1] == Emission("semantic-version", version)
  {
    ModuleEmissionsAt(changes, changes.keys);
    ModuleEmissions(changes, changes.keys) + [Emission("changes", json), Emission("semantic-version", version)]
  }

  /** The `<name>-changed` outputs for `keys`, in order. */
  function ModuleEmissions(changes: Changes, keys: seq<string>): (e: seq<Emission>)
    requires forall i | 0 <= i < |keys| :: keys[i] in changes.values
    ensures |e| == |keys|
  {
    if keys == [] then []
    else
      var k := keys[|keys| - 1];
      ModuleEmissions(changes, keys[..|keys| - 1]) + [Emission(OutputName(k) + "-changed", BoolText(changes.values[k]))]
  }

  lemma {:induction false} ModuleEmissionsAt(changes: Changes, keys: seq<string>)
    requires forall i | 0 <= i < |keys| :: keys[i] in changes.values
    ensures forall i | 0 <= i < |keys| ::
              ModuleEmissions(changes, keys)[i]
              == Emission(OutputName(keys[i]) + "-changed", BoolText(changes.values[keys[i]]))
    decreases |keys|
  {
    if keys != [] {
      ModuleEmissionsAt(changes, keys[..|keys| - 1]);
    }
  }

  /** A line of the `GITHUB_OUTPUT` file. */
  function FileLine(e: Emission): string
  {
    e.name + "=" + e.value + "\n"
  }

  /** A file line gives back the output's name and value, read at their places. */
  lemma FileLineParts(e: Emission)
    ensures var l := FileLine(e);
            && |l| == |e.name| + |e.value| + 2
            && l[..|e.name|] == e.name && l[|e.name|] == '='
            && l[|e.name| + 1..|l| - 1] == e.value && l[|l| - 1] == '\n'
  {
  }

  const SetOutputPrefix := "::set-output name="

  /** A printed workflow command of the fallback channel, newline included. */
  function SetOutputLine(e: Emission): string
  {
    SetOutputPrefix + e.name + "::" + e.value + "\n"
  }

  /** A workflow command gives back the output's name and value, read at their places. */
  lemma SetOutputLineParts(e: Emission)
    ensures var l := SetOutputLine(e);
            var n := |SetOutputPrefix| + |e.name|;
            && |l| == n + |e.value| + 3
            && l[..|SetOutputPrefix|] == SetOutputPrefix
            && l[|SetOutputPrefix|..n] == e.name
            && l[n..n + 2] == "::"
            && l[n + 2..|l| - 1] == e.value && l[|l| - 1] == '\n'
  {
  }

  function FileLines(es: seq<Emission>): (ls: seq<string>)
    ensures |ls| == |es|
  {
    if es == [] then [] else FileLines(es[..|es| - 1]) + [FileLine(es[|es| - 1])]
  }

  function SetOutputLines(es: seq<Emission>): (ls: seq<string>)
    ensures |ls| == |es|
  {
    if es == [] then [] else SetOutputLines(es[..|es| - 1]) + [SetOutputLine(es[|es| - 1])]
  }

  /** Each output becomes one line of each channel, in the same position. */
  lemma {:induction false} LinesAt(es: seq<Emission>)
    ensures forall i | 0 <= i < |es| :: FileLines(es)[i] == FileLine(es[i])
    ensures forall i | 0 <= i < |es| :: SetOutputLines(es)[i] == SetOutputLine(es[i])
    decreases |es|
  {
    if es != [] {
      LinesAt(es[..|es| - 1]);
    }
  }

  function ChannelLines(toFile: bool, es: seq<Emission>): seq<string>
  {
    if toFile then FileLines(es) else SetOutputLines(es)
  }

  /** Where the outputs go: appended to the named file, or printed. */
  datatype Channel = AppendToFile(path: string, lines: seq<string>) | Printed(lines: seq<string>)

  /** `if github_output:` — the variable is set and not empty. */
  predicate ToFile(githubOutput: Option<string>)
  {
    githubOutput.Some? && githubOutput.value != []
  }

  /** The channel `output_github_actions` uses and what it writes there. */
  function Rendered(changes: Changes, version: string, githubOutput: Option<string>,
                    dumps: Changes -> string): Channel
    requires HasValues(changes)
  {
    var es := Emissions(changes, dumps(changes), version);
    if ToFile(githubOutput) then AppendToFile(githubOutput.value, FileLines(es))
    else Printed(SetOutputLines(es))
  }

  /**
    The file channel is used exactly when `GITHUB_OUTPUT` is set and not
    empty, with that path; either channel carries one line per output.
   */
  lemma RenderedChannel(changes: Changes, version: string, githubOutput: Option<string>,
                        dumps: Changes -> string)
    requires HasValues(changes)
    ensures var ch := Rendered(changes, version, githubOutput, dumps);
            && (ch.AppendToFile? <==> ToFile(githubOutput))
            && (ch.AppendToFile? ==> ch.path == githubOutput.value)
            && |ch.lines| == |changes.keys| + 2
  {
  }

  /** `output_github_actions(changes, semantic_version)`: the loops that write the lines. */
  method OutputGithubActions(changes: Changes, version: string, githubOutput: Option<string>,
                             dumps: Changes -> string)
    returns (out: Channel)
    requires HasValues(changes)
    ensures out == Rendered(changes, version, githubOutput, dumps)
  {
    var keys := changes.keys;
    var lines: seq<string> := [];
    var i := 0;
    if ToFile(githubOutput) {
      while i < |keys|
        invariant 0 <= i <= |keys|
        invariant lines == FileLines(ModuleEmissions(changes, keys[..i]))
      {
        var name := keys[i];
        var e := Emission(OutputName(name) + "-changed", BoolText(changes.values[name]));
        ModuleEmissionsStep(changes, keys, i);
        ChannelLinesStep(true, ModuleEmissions(changes, keys[..i]), e);
        lines := lines + [FileLine(e)];
        i := i + 1;
      }
      assert keys[..i] == keys;
      var json := dumps(changes);
      SummaryStep(true, changes, json, version);
      lines := lines + [FileLine(Emission("changes", json))];
      lines := lines + [FileLine(Emission("semantic-version", version))];
      out := AppendToFile(githubOutput.value, lines);
    } else {
      while i < |keys|
        invariant 0 <= i <= |keys|
        invariant lines == SetOutputLines(ModuleEmissions(changes, keys[..i]))
      {
        var name := keys[i];
        var e := Emission(OutputName(name) + "-changed", BoolText(changes.values[name]));
        ModuleEmissionsStep(changes, keys, i);
        ChannelLinesStep(false, ModuleEmissions(changes, keys[..i]), e);
        lines := lines + [SetOutputLine(e)];
        i := i + 1;
      }
      assert keys[..i] == keys;
      var json := dumps(changes);
      SummaryStep(false, changes, json, version);
      lines := lines + [SetOutputLine(Emission("changes", json))];
      lines := lines + [SetOutputLine(Emission("semantic-version", version))];
      out := Printed(lines);
    }
  }

  /** Appending the two summary lines to the module lines gives the lines of all outputs. */
  lemma SummaryStep(toFile: bool, changes: Changes, json: string, version: string)
    requires HasValues(changes)
    ensures var ms := ModuleEmissions(changes, changes.keys);
            var e1, e2 := Emission("changes", json), Emission("semantic-version", version);
            ChannelLines(toFile, Emissions(changes, json, version))
            == ChannelLines(toFile, ms)
               + [if toFile then FileLine(e1) else SetOutputLine(e1)]
               + [if toFile then FileLine(e2) else SetOutputLine(e2)]
  {
    var ms := ModuleEmissions(changes, changes.keys);
    var e1, e2 := Emission("changes", json), Emission("semantic-version", version);
    ChannelLinesStep(toFile, ms, e1);
    ChannelLinesStep(toFile, ms + [e1], e2);
    assert ms + [e1] + [e2] == Emissions(changes, json, version);
  }

  lemma ModuleEmissionsStep(changes: Changes, keys: seq<string>, i: nat)
    requires i < |keys| && forall j | 0 <= j < |keys| :: keys[j] in changes.values
    ensures ModuleEmissions(changes, keys[..i + 1])
            == ModuleEmissions(changes, keys[..i])
               + [Emission(OutputName(keys[i]) + "-changed", BoolText(changes.values[keys[i]]))]
  {
    assert keys[..i + 1][..i] == keys[..i];
  }

  lemma ChannelLinesStep(toFile: bool, es: seq<Emission>, e: Emission)
    ensures ChannelLines(toFile, es + [e])
            == ChannelLines(toFile, es) + [if toFile then FileLine(e) else SetOutputLine(e)]
  {
    assert (es + [e])[..|es|] == es;
  }

  /**
    The two channels carry the same outputs in the same order: the lines
    differ only in how each (name, value) pair is written.
   */
  lemma ChannelsCarrySameOutputs(changes: Changes, version: string, path: string, dumps: Changes -> string)
    requires HasValues(changes) && path != []
    ensures var f := Rendered(changes, version, Some(path), dumps);
            var p := Rendered(changes, version, None, dumps);
            var es := Emissions(changes, dumps(changes), version);
            && f == AppendToFile(path, f.lines) && p == Printed(p.lines)
            && |f.lines| == |p.lines| == |changes.keys| + 2
            && forall i | 0 <= i < |es| ::
                 f.lines[i] == es[i].name + "=" + es[i].value + "\n"
                 && p.lines[i] == "::set-output name=" + es[i].name + "::" + es[i].value + "\n"
  {
    LinesAt(Emissions(changes, dumps(changes), version));
  }

  /** An empty `GITHUB_OUTPUT` counts as unset: the outputs are printed. */
  lemma EmptyOutputPathPrints(changes: Changes, version: string, dumps: Changes -> string)
    requires HasValues(changes)
    ensures Rendered(changes, version, Some(""), dumps) == Rendered(changes, version, None, dumps)
    ensures Rendered(changes, version, None, dumps).Printed?
  {
  }

  /** The file line for each module states that module's verdict. */
  lemma FileLineStatesVerdict(changes: Changes, json: string, version: string, i: nat)
    requires HasValues(changes) && i < |changes.keys|
    ensures var k := changes.keys[i];
            FileLines(Emissions(changes, json, version))[i]
              == OutputName(k) + "-changed" + "=" + (if changes.values[k] then "true" else "false") + "\n"
  {
    LinesAt(Emissions(changes, json, version));
  }

  /** The last two lines are the JSON summary and then the version. */
  lemma SummaryLinesComeLast(changes: Changes, version: string, path: string, dumps: Changes -> string)
    requires HasValues(changes) && path != []
    ensures var ls := Rendered(changes, version, Some(path), dumps).lines;
            var n := |changes.keys|;
            |ls| == n + 2
            && ls[n] == "changes" + "=" + dumps(changes) + "\n"
            && ls[n + 1] == "semantic-version" + "=" + version + "\n"
  {
    LinesAt(Emissions(changes, dumps(changes), version));
  }

  /** `shared/lib_core` gives the output name `shared-lib-core`, written as `shared-lib-core-changed`. */
  lemma OutputNameExample()
    ensures OutputName("shared/lib_core") == "shared-lib-core"
    ensures OutputName("shared/lib_core") + "-changed" == "shared-lib-core-changed"
  {
    var m := "shared/lib_core";
    var r := OutputName(m);
    forall i | 0 <= i < |m| ensures r[i] == "shared-lib-core"[i] {
      if i == 6 || i == 10 {
        assert m[i] == if i == 6 then '/' else '_';
      } else {
        assert m[i] == "shared-lib-core"[i];
      }
    }
  }

  /** Output names are formed character by character. */
  lemma OutputNameAppend(a: string, b: string)
    ensures OutputName(a + b) == OutputName(a) + OutputName(b)
  {
    var r, ra, rb := OutputName(a + b), OutputName(a), OutputName(b);
    assert forall i | 0 <= i < |a| :: r[i] == ra[i] && (a + b)[i] == a[i];
    assert forall i | |a| <= i < |a + b| :: r[i] == rb[i - |a|] && (a + b)[i] == b[i - |a|];
  }

  /** A name without `_` and `/` is its own output name. */
  lemma OutputNamePlain(m: string)
    requires forall i | 0 <= i < |m| :: m[i] != '_' && m[i] != '/'
    ensures OutputName(m) == m
  {
  }

  /** Normalising an output name twice changes nothing more. */
  lemma {:induction false} OutputNameIdempotent(m: string)
    ensures OutputName(OutputName(m)) == OutputName(m)
  {
    var r := OutputName(m);
    var rr := OutputName(r);
    assert forall i | 0 <= i < |r| :: rr[i] == r[i];
  }

  /**
    Distinct modules can share an output name: `a_b`, `a/b` and `a-b` all
    write `a-b-changed`, so the later line wins for the workflow.
   */
  lemma OutputNamesCollide()
    ensures OutputName("a_b") == OutputName("a/b") == OutputName("a-b") == "a-b"
  {
    var r1, r2, r3 := OutputName("a_b"), OutputName("a/b"), OutputName("a-b");
    assert r1[1] == '-' && r2[1] == '-' && r3[1] == '-';
    assert r1 == "a-b" && r2 == "a-b" && r3 == "a-b";
  }
}
