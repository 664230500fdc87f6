/**
 * Small lookups: the known dependencies of an Apache module (`get_mod_deps`) and
 * whether a file is covered by a list of possibly wildcarded paths (`included_in_paths`).
 */
module Lookups {

  /** `get_mod_deps(mod_name)`: only `ssl` has known dependencies. */
  function ModDeps(modName: string): seq<string>
  {
    if modName == "ssl" then ["setenvif", "mime"] else []
  }

  /** Enabling the dependencies first terminates at once: no dependency has dependencies of
      its own, and no module depends on itself. */
  lemma ModDepsHaveNoDeps(modName: string)
    ensures forall d :: d in ModDeps(modName) ==> ModDeps(d) == [] && d != modName
  {
  }

  /** `included_in_paths(filepath, paths)`: whether `filepath` matches any of the patterns;
      `fnmatch` is the shell-pattern matcher `fnmatch.fnmatch`. */
  function IncludedInPaths(fnmatch: (string, string) -> bool, filepath: string, paths: seq<string>): (r: bool)
    ensures r <==> exists i :: 0 <= i < |paths| && fnmatch(filepath, paths[i])
  {
    if paths == [] then false
    else fnmatch(filepath, paths[0]) || IncludedInPaths(fnmatch, filepath, paths[1..])
  }

  /** Adding patterns never excludes a file that was included, and a file is included by
      `a + b` exactly when it is included by `a` or by `b`. */
  lemma {:induction false} IncludedInConcat(fnmatch: (string, string) -> bool, filepath: string, a: seq<string>, b: seq<string>)
    ensures IncludedInPaths(fnmatch, filepath, a + b) <==>
              IncludedInPaths(fnmatch, filepath, a) || IncludedInPaths(fnmatch, filepath, b)
  {
    if IncludedInPaths(fnmatch, filepath, a + b) {
      var i :| 0 <= i < |a + b| && fnmatch(filepath, (a + b)[i]);
      if i >= |a| {
        assert b[i - |a|] == (a + b)[i];
      }
    }
    if IncludedInPaths(fnmatch, filepath, a) {
      var i :| 0 <= i < |a| && fnmatch(filepath, a[i]);
      assert (a + b)[i] == a[i];
    }
    if IncludedInPaths(fnmatch, filepath, b) {
      var i :| 0 <= i < |b| && fnmatch(filepath, b[i]);
      assert (a + b)[|a| + i] == b[i];
    }
  }
}
