/**
 * Variable maps: Python dicts from a define's name to its value, filled one
 * assignment at a time, so that a later assignment to a name replaces an
 * earlier one.
 */
module VariableMaps {
  import opened Outcomes
  import opened Text

  /** One `NAME[=VALUE]` define. */
  datatype Define = Define(name: string, value: string)

  /** `token.partition("=")` read as a define: the name is the text before the first `=`,
      the value the text after it, or "" when there is no `=`. */
  function ParseAssignment(token: string): (d: Define)
    ensures '=' !in d.name
    ensures '=' in token ==> token == d.name + "=" + d.value
    ensures '=' !in token ==> d == Define(token, "")
  {
    var parts := Partition(token, '=');
    Define(parts.head, parts.tail)
  }

  /** `NAME=VALUE` with an `=`-free name parses back to that name and value. */
  lemma {:induction false} AssignmentOfJoin(name: string, value: string)
    requires '=' !in name
    ensures ParseAssignment(name + "=" + value) == Define(name, value)
  {
    var token := name + "=" + value;
    var i := FirstIndex(token, '=');
    assert token[|name|] == '=';
    assert i == |name|;
    assert token[..i] == name;
    assert token[i + 1..] == value;
  }

  /** Does this write (None: no write) assign the name `k`? */
  predicate Writes(w: Option<Define>, k: string) {
    w.Some? && w.value.name == k
  }

  /** The dict obtained by performing the writes in order, starting from `{}`. */
  function Apply(ws: seq<Option<Define>>): map<string, string>
  {
    if ws == [] then map[]
    else
      var m := Apply(ws[..|ws| - 1]);
      match ws[|ws| - 1]
      case None => m
      case Some(d) => m[d.name := d.value]
  }

  /** Performing one more write updates the dict at that write's name, if it writes at all. */
  lemma ApplyStep(ws: seq<Option<Define>>, i: nat)
    requires i < |ws|
    ensures ws[i].Some? ==> Apply(ws[..i + 1]) == Apply(ws[..i])[ws[i].value.name := ws[i].value.value]
    ensures ws[i].None? ==> Apply(ws[..i + 1]) == Apply(ws[..i])
  {
    assert ws[..i + 1][..i] == ws[..i];
  }

  /** A name is a key of the dict exactly when some write assigns it. */
  lemma {:induction false} ApplyKeys(ws: seq<Option<Define>>, k: string)
    ensures k in Apply(ws) <==> exists i :: 0 <= i < |ws| && Writes(ws[i], k)
  {
    if ws != [] {
      var init := ws[..|ws| - 1];
      ApplyKeys(init, k);
      if exists i :: 0 <= i < |init| && Writes(init[i], k) {
        var i :| 0 <= i < |init| && Writes(init[i], k);
        assert Writes(ws[i], k);
      }
      if exists i :: 0 <= i < |ws| && Writes(ws[i], k) {
        var i :| 0 <= i < |ws| && Writes(ws[i], k);
        if i < |init| {
          assert Writes(init[i], k);
        }
      }
    }
  }

  /** Last write wins: the value of a name is the one its last write assigned. */
  lemma {:induction false} ApplyLastWrite(ws: seq<Option<Define>>, i: nat)
    requires i < |ws| && ws[i].Some?
    requires forall j :: i < j < |ws| ==> !Writes(ws[j], ws[i].value.name)
    ensures ws[i].value.name in Apply(ws)
    ensures Apply(ws)[ws[i].value.name] == ws[i].value.value
  {
    var init := ws[..|ws| - 1];
    if i < |ws| - 1 {
      assert forall j :: i < j < |init| ==> init[j] == ws[j];
      ApplyLastWrite(init, i);
    }
  }
}
