/**
 * The runtime configuration read from `apachectl -t -D DUMP_*`: running the
 * control binary, scanning its output, and turning the `Define:` lines into
 * a variable map (`parse_defines`, `parse_includes`, `parse_modules`,
 * `parse_from_subprocess`, `_get_runtime_cfg`).
 */
module RuntimeConfig {
  import opened Outcomes
  import opened Text
  import opened VariableMaps

  /** The dump-mode sentinel that `apachectl -t -D DUMP_RUN_CFG` echoes back as a define. */
  const RunCfgSentinel := "DUMP_RUN_CFG"

  /** The command lines of the three dumps. */
  function DumpCommand(apachectl: string, mode: string): (cmd: seq<string>)
    ensures |cmd| == 4 && cmd[0] == apachectl && cmd[3] == mode
    ensures cmd[1] == "-t" && cmd[2] == "-D"
  {
    [apachectl, "-t", "-D", mode]
  }

  /** What happened when the command was run: it could not be started
      (OSError or ValueError from Popen), or it exited with a return code. */
  datatype ProcessRun = SpawnFailed | Exited(returnCode: int, stdout: string, stderr: string)

  /** `_get_runtime_cfg`: the standard output of a run that exited with status 0;
      any other run is a misconfiguration error. */
  function RuntimeCfg(command: seq<string>, run: ProcessRun): (r: Result<string>)
    ensures r.Ok? <==> run.Exited? && run.returnCode == 0
    ensures r.Ok? ==> r.value == run.stdout
    ensures run.SpawnFailed? ==> r == Err(CommandFailed(command))
    ensures run.Exited? && run.returnCode != 0 ==> r == Err(ApacheMisconfigured)
  {
    match run
    case SpawnFailed => Err(CommandFailed(command))
    case Exited(code, out, _) => if code != 0 then Err(ApacheMisconfigured) else Ok(out)
  }

  /** `parse_from_subprocess`: the matches `findall` (the compiled pattern's findall)
      yields on the output of a successful run; errors of the run propagate. */
  function ParseFromSubprocess(command: seq<string>, run: ProcessRun, findall: string -> seq<string>)
    : (r: Result<seq<string>>)
    ensures r.Ok? <==> run.Exited? && run.returnCode == 0
    ensures r.Ok? ==> r.value == findall(run.stdout)
    ensures r.Err? ==> RuntimeCfg(command, run) == Err(r.error)
  {
    match RuntimeCfg(command, run)
    case Err(e) => Err(e)
    case Ok(out) => Ok(findall(out))
  }

  /** `parse_includes`: the Include paths of the `DUMP_INCLUDES` dump, in order, duplicates kept. */
  function ParseIncludes(apachectl: string, run: ProcessRun, findall: string -> seq<string>)
    : (r: Result<seq<string>>)
    ensures r.Ok? <==> run.Exited? && run.returnCode == 0
    ensures r.Ok? ==> r.value == findall(run.stdout)
    ensures run.SpawnFailed? ==> r == Err(CommandFailed([apachectl, "-t", "-D", "DUMP_INCLUDES"]))
    ensures run.Exited? && run.returnCode != 0 ==> r == Err(ApacheMisconfigured)
    ensures r.Err? ==> RuntimeCfg(DumpCommand(apachectl, "DUMP_INCLUDES"), run) == Err(r.error)
  {
    ParseFromSubprocess(DumpCommand(apachectl, "DUMP_INCLUDES"), run, findall)
  }

  /** `parse_modules`: the module names of the `DUMP_MODULES` dump, in order, duplicates kept. */
  function ParseModules(apachectl: string, run: ProcessRun, findall: string -> seq<string>)
    : (r: Result<seq<string>>)
    ensures r.Ok? <==> run.Exited? && run.returnCode == 0
    ensures r.Ok? ==> r.value == findall(run.stdout)
    ensures run.SpawnFailed? ==> r == Err(CommandFailed([apachectl, "-t", "-D", "DUMP_MODULES"]))
    ensures run.Exited? && run.returnCode != 0 ==> r == Err(ApacheMisconfigured)
    ensures r.Err? ==> RuntimeCfg(DumpCommand(apachectl, "DUMP_MODULES"), run) == Err(r.error)
  {
    ParseFromSubprocess(DumpCommand(apachectl, "DUMP_MODULES"), run, findall)
  }

  /** Index of the first occurrence of `x` in `s`. */
  function FirstOccurrence(s: seq<string>, x: string): (i: nat)
    requires x in s
    ensures i < |s| && s[i] == x && x !in s[..i]
  {
    if s[0] == x then 0 else 1 + FirstOccurrence(s[1..], x)
  }

  /** `list.remove(x)`: drop the first occurrence of `x`, keep everything else in order. */
  function RemoveFirst(s: seq<string>, x: string): (r: seq<string>)
    requires x in s
    ensures |r| == |s| - 1
    ensures multiset(r) == multiset(s) - multiset{x}
    ensures var i := FirstOccurrence(s, x); r[..i] == s[..i] && r[i..] == s[i + 1..]
  {
    var i := FirstOccurrence(s, x);
    assert s == s[..i] + [x] + s[i + 1..];
    s[..i] + s[i + 1..]
  }

  /** A `Define:` token with more than one `=`. */
  predicate Ambiguous(token: string) {
    Count(token, '=') > 1
  }

  /** The writes of the tokens, one define per token. */
  function TokenDefines(tokens: seq<string>): (ws: seq<Option<Define>>)
    ensures |ws| == |tokens|
    ensures forall i :: 0 <= i < |tokens| ==> ws[i] == Some(ParseAssignment(tokens[i]))
  {
    seq(|tokens|, i requires 0 <= i < |tokens| => Some(ParseAssignment(tokens[i])))
  }

  /** The `for match in matches` loop from token `i` on, with `variables == acc` so far:
      the first ambiguous token aborts, every other token sets its name. */
  function FillFrom(tokens: seq<string>, i: nat, acc: map<string, string>): Result<map<string, string>>
    requires i <= |tokens|
    decreases |tokens| - i
  {
    if i == |tokens| then Ok(acc)
    else if Ambiguous(tokens[i]) then Err(AmbiguousDefine)
    else
      var d := ParseAssignment(tokens[i]);
      FillFrom(tokens, i + 1, acc[d.name := d.value])
  }

  /** What `parse_defines` makes of the `Define:` matches of the `DUMP_RUN_CFG` dump. */
  function RuntimeDefines(matches: seq<string>): Result<map<string, string>>
  {
    if RunCfgSentinel !in matches then Ok(map[])
    else FillFrom(RemoveFirst(matches, RunCfgSentinel), 0, map[])
  }

  /** An ambiguous token ahead makes the loop fail, whatever was filled in so far. */
  lemma {:induction false} FillFromFails(tokens: seq<string>, i: nat, acc: map<string, string>, j: nat)
    requires i <= j < |tokens| && Ambiguous(tokens[j])
    ensures FillFrom(tokens, i, acc) == Err(AmbiguousDefine)
    decreases j - i
  {
    if i < j && !Ambiguous(tokens[i]) {
      var d := ParseAssignment(tokens[i]);
      FillFromFails(tokens, i + 1, acc[d.name := d.value], j);
    }
  }

  /** Without ambiguous tokens ahead, the loop completes the last-write-wins map of all the
      tokens' defines. */
  lemma {:induction false} FillFromSucceeds(tokens: seq<string>, i: nat)
    requires i <= |tokens|
    requires forall j :: i <= j < |tokens| ==> !Ambiguous(tokens[j])
    ensures FillFrom(tokens, i, Apply(TokenDefines(tokens)[..i])) == Ok(Apply(TokenDefines(tokens)))
    decreases |tokens| - i
  {
    var ws := TokenDefines(tokens);
    if i == |tokens| {
      assert ws[..i] == ws;
    } else {
      ApplyStep(ws, i);
      FillFromSucceeds(tokens, i + 1);
    }
  }

  /** `parse_defines`, from the run of `apachectl -t -D DUMP_RUN_CFG` and the findall of
      the `Define: ([^ \n]*)` pattern: errors of the run propagate, the matches are
      handed to `DefinesFromMatches`. */
  method ParseDefines(apachectl: string, run: ProcessRun, findall: string -> seq<string>)
    returns (r: Result<map<string, string>>)
    ensures match ParseFromSubprocess(DumpCommand(apachectl, RunCfgSentinel), run, findall)
            case Err(e) => r == Err(e)
            case Ok(matches) => r == RuntimeDefines(matches)
  {
    var scanned := ParseFromSubprocess(DumpCommand(apachectl, RunCfgSentinel), run, findall);
    if scanned.Err? {
      return Err(scanned.error);
    }
    r := DefinesFromMatches(scanned.value);
  }

  /** The body of `parse_defines` after the scan: remove the first sentinel in place,
      then fill `variables` token by token, failing on the first ambiguous token. */
  method DefinesFromMatches(matches: seq<string>) returns (r: Result<map<string, string>>)
    ensures r == RuntimeDefines(matches)
  {
    if RunCfgSentinel !in matches {
      return Ok(map[]);
    }
    var rest := RemoveFirst(matches, RunCfgSentinel);
    var variables := map[];
    for i := 0 to |rest|
      invariant FillFrom(rest, i, variables) == FillFrom(rest, 0, map[])
    {
      if Ambiguous(rest[i]) {
        return Err(AmbiguousDefine);
      }
      var parts := ParseAssignment(rest[i]);
      variables := variables[parts.name := parts.value];
    }
    return Ok(variables);
  }

  /** Without the sentinel the dump is taken as unsupported: no variables, no error. */
  lemma {:induction false} NoSentinelNoVariables(matches: seq<string>)
    requires RunCfgSentinel !in matches
    ensures RuntimeDefines(matches) == Ok(map[])
  {
  }

  /** With the sentinel present, the result is the last-write-wins map of the remaining
      tokens, or the ambiguity error when one of them has more than one `=`. */
  lemma {:induction false} SentinelThenTokens(matches: seq<string>)
    requires RunCfgSentinel in matches
    ensures var rest := RemoveFirst(matches, RunCfgSentinel);
            RuntimeDefines(matches) ==
              if exists j :: 0 <= j < |rest| && Ambiguous(rest[j]) then Err(AmbiguousDefine)
              else Ok(Apply(TokenDefines(rest)))
  {
    var rest := RemoveFirst(matches, RunCfgSentinel);
    if exists j :: 0 <= j < |rest| && Ambiguous(rest[j]) {
      var j :| 0 <= j < |rest| && Ambiguous(rest[j]);
      FillFromFails(rest, 0, map[], j);
    } else {
      assert TokenDefines(rest)[..0] == [];
      FillFromSucceeds(rest, 0);
    }
  }

  /** The dump is rejected exactly when a token other than the first sentinel has more than
      one `=`, and then with the ambiguity error. */
  lemma {:induction false} AmbiguousRejected(matches: seq<string>)
    ensures RuntimeDefines(matches).Err? <==>
              RunCfgSentinel in matches &&
              exists t :: t in RemoveFirst(matches, RunCfgSentinel) && Ambiguous(t)
    ensures RuntimeDefines(matches).Err? ==> RuntimeDefines(matches).error == AmbiguousDefine
  {
    if RunCfgSentinel in matches {
      SentinelThenTokens(matches);
      var rest := RemoveFirst(matches, RunCfgSentinel);
      if exists t :: t in rest && Ambiguous(t) {
        var t :| t in rest && Ambiguous(t);
        var i :| 0 <= i < |rest| && rest[i] == t;
        assert Ambiguous(rest[i]);
      }
    }
  }

  /** Every remaining token `k[=v]` defines `k`, and nothing else is defined. */
  lemma {:induction false} RuntimeDefinedNames(matches: seq<string>, k: string)
    requires RunCfgSentinel in matches && RuntimeDefines(matches).Ok?
    ensures var rest := RemoveFirst(matches, RunCfgSentinel);
            k in RuntimeDefines(matches).value <==>
              exists i :: 0 <= i < |rest| && ParseAssignment(rest[i]).name == k
  {
    SentinelThenTokens(matches);
    var rest := RemoveFirst(matches, RunCfgSentinel);
    var ws := TokenDefines(rest);
    ApplyKeys(ws, k);
    if exists i :: 0 <= i < |rest| && ParseAssignment(rest[i]).name == k {
      var i :| 0 <= i < |rest| && ParseAssignment(rest[i]).name == k;
      assert Writes(ws[i], k);
    }
  }

  /** A variable's value is the one given by the last token naming it. */
  lemma {:induction false} RuntimeLastDefineWins(matches: seq<string>, i: nat)
    requires RunCfgSentinel in matches && RuntimeDefines(matches).Ok?
    requires var rest := RemoveFirst(matches, RunCfgSentinel);
             && i < |rest|
             && forall j :: i < j < |rest| ==> ParseAssignment(rest[j]).name != ParseAssignment(rest[i]).name
    ensures var d := ParseAssignment(RemoveFirst(matches, RunCfgSentinel)[i]);
            d.name in RuntimeDefines(matches).value && RuntimeDefines(matches).value[d.name] == d.value
  {
    SentinelThenTokens(matches);
    var rest := RemoveFirst(matches, RunCfgSentinel);
    ApplyLastWrite(TokenDefines(rest), i);
  }

  /** A dump whose first match is the sentinel yields what the loop makes of the rest. */
  lemma {:induction false} LeadingSentinel(rest: seq<string>)
    ensures RuntimeDefines([RunCfgSentinel] + rest) == FillFrom(rest, 0, map[])
  {
    var matches := [RunCfgSentinel] + rest;
    assert matches[0] == RunCfgSentinel;
    assert FirstOccurrence(matches, RunCfgSentinel) == 0;
    assert matches[1..] == rest;
  }

  /** A token with at most one `=`, `NAME=VALUE` with `=`-free parts, is not ambiguous. */
  lemma {:induction false} SingleEqualsNotAmbiguous(name: string, value: string)
    requires '=' !in name && '=' !in value
    ensures !Ambiguous(name + "=" + value)
  {
    NoEqualsCount(name);
    NoEqualsCount(value);
    CountConcat(name + "=", value, '=');
    CountConcat(name, "=", '=');
  }

  /** One pass of the loop over a token that is not ambiguous. */
  lemma FillStep(tokens: seq<string>, i: nat, acc: map<string, string>)
    requires i < |tokens| && !Ambiguous(tokens[i])
    ensures var d := ParseAssignment(tokens[i]);
            FillFrom(tokens, i, acc) == FillFrom(tokens, i + 1, acc[d.name := d.value])
  {
  }

  /** A dump printing the sentinel, then `NAME=VALUE`, then a bare `OTHER` defines NAME as
      VALUE and OTHER as "" (for instance `FOO=bar` and `BAZ`). */
  lemma {:induction false} ExampleDump(name: string, value: string, other: string)
    requires '=' !in name && '=' !in value && '=' !in other && name != other
    ensures RuntimeDefines([RunCfgSentinel, name + "=" + value, other]) ==
              Ok(map[name := value, other := ""])
  {
    var assignment := name + "=" + value;
    var rest := [assignment, other];
    assert [RunCfgSentinel] + rest == [RunCfgSentinel, assignment, other];
    LeadingSentinel(rest);
    AssignmentOfJoin(name, value);
    SingleEqualsNotAmbiguous(name, value);
    NoEqualsCount(other);
    assert ParseAssignment(other) == Define(other, "");
    assert !Ambiguous(other);
    FillStep(rest, 0, map[]);
    FillStep(rest, 1, map[name := value]);
    assert FillFrom(rest, 2, map[name := value, other := ""]) == Ok(map[name := value, other := ""]);
  }

  /** A string without `=` has no `=` to count. */
  lemma {:induction false} NoEqualsCount(s: string)
    requires '=' !in s
    ensures Count(s, '=') == 0
  {
    if s != [] {
      NoEqualsCount(s[1..]);
    }
  }

  /** Counting distributes over concatenation. */
  lemma {:induction false} CountConcat(a: string, b: string, c: char)
    ensures Count(a + b, c) == Count(a, c) + Count(b, c)
  {
    if a == [] {
      assert a + b == b;
    } else {
      assert (a + b)[1..] == a[1..] + b;
      CountConcat(a[1..], b, c);
    }
  }

  /** A token with two `=` signs is ambiguous. */
  lemma {:induction false} TwoEqualsAmbiguous(a: string, b: string, c: string)
    ensures Ambiguous(a + "=" + b + "=" + c)
  {
    assert Count("=", '=') == 1;
    CountConcat(a + "=" + b + "=", c, '=');
    CountConcat(a + "=" + b, "=", '=');
    CountConcat(a + "=", b, '=');
    CountConcat(a, "=", '=');
  }

  /** A token with two `=`, such as `A=B=C`, is rejected. */
  lemma {:induction false} ExampleAmbiguous(a: string, b: string, c: string)
    ensures RuntimeDefines([RunCfgSentinel, a + "=" + b + "=" + c]) == Err(AmbiguousDefine)
  {
    var token := a + "=" + b + "=" + c;
    assert [RunCfgSentinel] + [token] == [RunCfgSentinel, token];
    LeadingSentinel([token]);
    TwoEqualsAmbiguous(a, b, c);
  }
}
