/**
 * `parse_define_file`: the `-D NAME[=VALUE]` defines found among the words of
 * a configuration variable's value (for instance APACHE_ARGUMENTS in an
 * envvars file).
 */
module DefineFile {
  import opened Outcomes
  import opened Text
  import opened VariableMaps

  /** The write the word at index `i` performs: `-D` followed by a word defines that word;
      a longer word starting with `-D` defines its remainder; anything else writes nothing. */
  function WordDefine(words: seq<string>, i: nat): Option<Define>
    requires i < |words|
  {
    var v := words[i];
    if v == "-D" && |words| >= i + 2 then Some(ParseAssignment(words[i + 1]))
    else if |v| > 2 && "-D" <= v then Some(ParseAssignment(v[2..]))
    else None
  }

  /** The writes of all the words, one per word, in order. */
  function WordDefines(words: seq<string>): (ws: seq<Option<Define>>)
    ensures |ws| == |words|
    ensures forall i :: 0 <= i < |words| ==> ws[i] == WordDefine(words, i)
  {
    seq(|words|, i requires 0 <= i < |words| => WordDefine(words, i))
  }

  /** A word writes nothing exactly when it does not start with `-D`, or is a lone `-D`
      with no word after it. */
  lemma WordWritesNothing(words: seq<string>, i: nat)
    requires i < |words|
    ensures WordDefine(words, i).None? <==>
              !("-D" <= words[i]) || (words[i] == "-D" && i + 1 == |words|)
  {
    var v := words[i];
    if "-D" <= v && |v| <= 2 {
      assert v == v[..2] == "-D";
    }
  }

  /** The dict `parse_define_file` returns for a variable whose value is `value`. */
  function DefinesOf(value: string): map<string, string>
  {
    Apply(WordDefines(Words(value)))
  }

  /** The loop over `enumerate(a_opts)` filling `return_vars`. */
  method ParseDefineFile(value: string) returns (vars: map<string, string>)
    ensures vars == DefinesOf(value)
  {
    var opts := Words(value);
    ghost var ws := WordDefines(opts);
    vars := map[];
    var i := 0;
    while i < |opts|
      invariant 0 <= i <= |opts|
      invariant vars == Apply(ws[..i])
    {
      var v := opts[i];
      if v == "-D" && |opts| >= i + 2 {
        var d := ParseAssignment(opts[i + 1]);
        vars := vars[d.name := d.value];
      } else if |v| > 2 && "-D" <= v {
        var d := ParseAssignment(v[2..]);
        vars := vars[d.name := d.value];
      }
      assert ws[..i + 1][..i] == ws[..i];
      i := i + 1;
    }
    assert ws[..i] == ws;
  }

  /** A name is defined exactly when some word defines it. */
  lemma {:induction false} DefinedNames(words: seq<string>, k: string)
    ensures k in Apply(WordDefines(words)) <==>
              exists i :: 0 <= i < |words| && Writes(WordDefine(words, i), k)
  {
    var ws := WordDefines(words);
    ApplyKeys(ws, k);
    if exists i :: 0 <= i < |words| && Writes(WordDefine(words, i), k) {
      var i :| 0 <= i < |words| && Writes(WordDefine(words, i), k);
      assert Writes(ws[i], k);
    }
    if exists i :: 0 <= i < |ws| && Writes(ws[i], k) {
      var i :| 0 <= i < |ws| && Writes(ws[i], k);
      assert Writes(WordDefine(words, i), k);
    }
  }

  /** A separate `-D NAME[=VALUE]` pair defines NAME, with the text after the first `=`
      (or "") as value, unless a later word defines NAME again. */
  lemma {:induction false} SeparateDefine(words: seq<string>, i: nat)
    requires i + 1 < |words| && words[i] == "-D"
    requires forall j :: i < j < |words| ==>
               !Writes(WordDefine(words, j), ParseAssignment(words[i + 1]).name)
    ensures var d := ParseAssignment(words[i + 1]);
            d.name in Apply(WordDefines(words)) && Apply(WordDefines(words))[d.name] == d.value
  {
    ApplyLastWrite(WordDefines(words), i);
  }

  /** A glued `-DNAME[=VALUE]` word defines NAME the same way, unless a later word defines it again. */
  lemma {:induction false} GluedDefine(words: seq<string>, i: nat)
    requires i < |words| && |words[i]| > 2 && "-D" <= words[i]
    requires forall j :: i < j < |words| ==>
               !Writes(WordDefine(words, j), ParseAssignment(words[i][2..]).name)
    ensures var d := ParseAssignment(words[i][2..]);
            d.name in Apply(WordDefines(words)) && Apply(WordDefines(words))[d.name] == d.value
  {
    assert words[i] != "-D";
    ApplyLastWrite(WordDefines(words), i);
  }

  /** The writes of the words `-D NAME1=VALUE1 -DNAME2=VALUE2 -D NAME3`. */
  lemma {:induction false} ExampleWrites(n1: string, v1: string, n2: string, v2: string, n3: string)
    requires '=' !in n1 && '=' !in n2 && '=' !in n3
    requires !("-D" <= n1 + "=" + v1) && !("-D" <= n3)
    ensures var ws := WordDefines(["-D", n1 + "=" + v1, "-D" + n2 + "=" + v2, "-D", n3]);
            && ws[0] == Some(Define(n1, v1)) && ws[1] == None && ws[2] == Some(Define(n2, v2))
            && ws[3] == Some(Define(n3, "")) && ws[4] == None
  {
    var words := ["-D", n1 + "=" + v1, "-D" + n2 + "=" + v2, "-D", n3];
    assert WordDefine(words, 0) == Some(Define(n1, v1)) by {
      AssignmentOfJoin(n1, v1);
    }
    assert WordDefine(words, 1) == None by {
      assert words[1][|n1|] == '=';
    }
    assert WordDefine(words, 2) == Some(Define(n2, v2)) by {
      assert words[2][2..] == n2 + "=" + v2;
      assert words[2][..2] == "-D";
      AssignmentOfJoin(n2, v2);
    }
  }

  /** The words `-D NAME1=VALUE1 -DNAME2=VALUE2 -D NAME3` (for instance `-D FOO=1 -DBAR=2 -D BAZ`)
      define NAME1, NAME2 and NAME3 (with value "") in that order. */
  lemma {:induction false} Example(n1: string, v1: string, n2: string, v2: string, n3: string)
    requires '=' !in n1 && '=' !in n2 && '=' !in n3
    requires !("-D" <= n1 + "=" + v1) && !("-D" <= n3)
    ensures Apply(WordDefines(["-D", n1 + "=" + v1, "-D" + n2 + "=" + v2, "-D", n3])) ==
              map[n1 := v1, n2 := v2, n3 := ""]
  {
    ExampleWrites(n1, v1, n2, v2, n3);
    var ws := WordDefines(["-D", n1 + "=" + v1, "-D" + n2 + "=" + v2, "-D", n3]);
    assert ws[..0] == [];
    ApplyStep(ws, 0);
    ApplyStep(ws, 1);
    ApplyStep(ws, 2);
    ApplyStep(ws, 3);
    ApplyStep(ws, 4);
    assert ws[..5] == ws;
  }

  /** Splitting words joined by spaces gives back those words, so their defines are the
      variable's defines. */
  lemma {:induction false} DefinesOfJoin(words: seq<string>)
    requires forall i :: 0 <= i < |words| ==> IsWord(words[i])
    ensures DefinesOf(Join(' ', words)) == Apply(WordDefines(words))
  {
    WordsOfJoin(words);
  }
}
