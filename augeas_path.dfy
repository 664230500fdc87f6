/**
 * Augeas paths (`/files/etc/apache2/sites-enabled/x.conf/VirtualHost`) split
 * into the file that holds the node and the node's path inside that file
 * (`_split_aug_path`, `get_file_path`, `get_internal_aug_path`).
 *
 * The filesystem is the set `fs` of paths that exist.
 */
module AugeasPath {
  import opened Outcomes
  import opened Text

  /** `vhost_path[6:]`: the path without its leading `/files`. */
  function StripFilesRoot(vhostPath: string): string
  {
    if |vhostPath| >= 6 then vhostPath[6..] else ""
  }

  /** `os.path.exists`: the empty path never exists. */
  predicate Exists(fs: set<string>, path: string) {
    path != "" && path in fs
  }

  /** The text covered by the components removed so far: `/c_k/.../c_1` for parts `[c_1, ..., c_k]`. */
  function Suffix(parts: seq<string>): string
  {
    if parts == [] then "" else "/" + parts[|parts| - 1] + Suffix(parts[..|parts| - 1])
  }

  /** The `while not os.path.exists(file_path)` loop from `file_path` with `internal_path == parts`:
      None when it would never stop. */
  function SplitFrom(fs: set<string>, filePath: string, parts: seq<string>): Option<(string, string)>
    decreases |filePath|
  {
    if Exists(fs, filePath) then Some((filePath, Join('/', Reverse(parts))))
    else if filePath == "" then None
    else
      var p := RPartition(filePath, '/');
      SplitFrom(fs, p.head, parts + [p.tail])
  }

  /** `_split_aug_path(vhost_path)`; None when the source loops forever. */
  function Split(fs: set<string>, vhostPath: string): Option<(string, string)>
  {
    SplitFrom(fs, StripFilesRoot(vhostPath), [])
  }

  /** Reference definition. A cut of `s` is a length `k` at which `s` could be split into a
      file path `s[..k]` and an internal path: the end of `s`, or a position holding `/`. */
  predicate IsCut(s: string, k: nat) {
    k <= |s| && (k == |s| || s[k] == '/')
  }

  predicate ExistingCut(fs: set<string>, s: string, k: nat) {
    IsCut(s, k) && Exists(fs, s[..k])
  }

  /** The longest cut of `s` no longer than `k` whose file path exists. */
  function LongestCut(fs: set<string>, s: string, k: nat): (r: Option<nat>)
    requires k <= |s|
    ensures r.Some? ==> r.value <= k && ExistingCut(fs, s, r.value)
    ensures r.Some? ==> forall j: nat :: r.value < j <= k ==> !ExistingCut(fs, s, j)
    ensures r.None? ==> forall j: nat :: j <= k ==> !ExistingCut(fs, s, j)
  {
    if ExistingCut(fs, s, k) then Some(k)
    else if k == 0 then None
    else LongestCut(fs, s, k - 1)
  }

  /** The file path and internal path of `s` split at cut `k`. */
  function SplitAt(s: string, k: nat): (string, string)
    requires k <= |s|
  {
    (s[..k], if k == |s| then "" else s[k + 1..])
  }

  /** The split at the longest existing cut, if there is one. */
  function ReferenceSplit(fs: set<string>, vhostPath: string): Option<(string, string)>
  {
    var s := StripFilesRoot(vhostPath);
    match LongestCut(fs, s, |s|)
    case None => None
    case Some(k) => Some(SplitAt(s, k))
  }

  /** `"/".join(reversed(parts))` is the removed text without its leading `/`. */
  lemma {:induction false} SuffixJoin(parts: seq<string>)
    requires parts != []
    ensures Suffix(parts) == "/" + Join('/', Reverse(parts))
    decreases |parts|
  {
    var init, last := parts[..|parts| - 1], parts[|parts| - 1];
    var r := Reverse(parts);
    assert r == [last] + Reverse(init);
    if init == [] {
      assert r == [last];
    } else {
      SuffixJoin(init);
      assert r[1..] == Reverse(init);
    }
  }

  /** Cuts that do not exist can be skipped. */
  lemma SkipCuts(fs: set<string>, s: string, lo: nat, hi: nat)
    requires lo <= hi <= |s|
    requires forall j: nat :: lo < j <= hi ==> !ExistingCut(fs, s, j)
    ensures LongestCut(fs, s, hi) == LongestCut(fs, s, lo)
  {
  }

  /** Removing one more component moves it from the file path into the suffix. */
  lemma SuffixPush(head: string, tail: string, parts: seq<string>)
    ensures head + "/" + tail + Suffix(parts) == head + Suffix(parts + [tail])
  {
    assert (parts + [tail])[..|parts|] == parts;
  }

  /** No cut falls strictly inside a stretch of `s` without `/` (its start may still be one). */
  lemma NoCutsWithin(s: string, before: string, w: string, after: string)
    requires s == before + w + after
    requires '/' !in w
    ensures forall j: nat :: |before| < j < |before| + |w| ==> !IsCut(s, j)
  {
  }

  /** Where the loop stops, the file path is an existing cut and the parts removed are the rest. */
  lemma StopAt(fs: set<string>, s: string, filePath: string, parts: seq<string>)
    requires s == filePath + Suffix(parts)
    requires Exists(fs, filePath)
    ensures ExistingCut(fs, s, |filePath|)
    ensures SplitAt(s, |filePath|) == (filePath, Join('/', Reverse(parts)))
  {
    var n := |filePath|;
    assert s[..n] == filePath;
    if parts == [] {
      assert Reverse(parts) == [];
    } else {
      SuffixJoin(parts);
      assert s[n] == '/';
      assert s[n + 1..] == Join('/', Reverse(parts));
    }
  }

  /** The loop stops at the longest existing cut, and at none when there is none. */
  lemma {:induction false} SplitFromIsLongestCut(fs: set<string>, s: string, filePath: string, parts: seq<string>)
    requires s == filePath + Suffix(parts)
    ensures SplitFrom(fs, filePath, parts) ==
              match LongestCut(fs, s, |filePath|)
              case None => None
              case Some(k) => Some(SplitAt(s, k))
    decreases |filePath|
  {
    var n := |filePath|;
    assert s[..n] == filePath;
    if Exists(fs, filePath) {
      StopAt(fs, s, filePath, parts);
    } else if filePath == "" {
    } else {
      var p := RPartition(filePath, '/');
      assert !ExistingCut(fs, s, n);
      if p.found {
        var h := |p.head|;
        assert s == (p.head + "/") + p.tail + Suffix(parts);
        NoCutsWithin(s, p.head + "/", p.tail, Suffix(parts));
        SuffixPush(p.head, p.tail, parts);
        SkipCuts(fs, s, h, n);
        SplitFromIsLongestCut(fs, s, p.head, parts + [p.tail]);
      } else {
        assert s == "" + filePath + Suffix(parts);
        NoCutsWithin(s, "", filePath, Suffix(parts));
        SkipCuts(fs, s, 0, n);
        assert !ExistingCut(fs, s, 0);
      }
    }
  }

  /** The loop computes the reference split. */
  lemma {:induction false} SplitIsReference(fs: set<string>, vhostPath: string)
    ensures Split(fs, vhostPath) == ReferenceSplit(fs, vhostPath)
  {
    var s := StripFilesRoot(vhostPath);
    assert s == s + Suffix([]);
    SplitFromIsLongestCut(fs, s, s, []);
  }

  /** The loop stops exactly when some cut of the stripped path exists. */
  lemma {:induction false} SplitTerminatesIff(fs: set<string>, vhostPath: string)
    ensures Split(fs, vhostPath).Some? <==>
              exists k: nat :: ExistingCut(fs, StripFilesRoot(vhostPath), k)
  {
    SplitIsReference(fs, vhostPath);
    var s := StripFilesRoot(vhostPath);
    if exists k: nat :: ExistingCut(fs, s, k) {
      var k: nat :| ExistingCut(fs, s, k);
      assert k <= |s|;
    }
  }

  /** The file path and the internal path put back together give `s`. */
  predicate Rejoins(s: string, filePath: string, internalPath: string) {
    s == filePath + "/" + internalPath || (s == filePath && internalPath == "")
  }

  lemma SplitAtRejoins(s: string, k: nat)
    requires IsCut(s, k)
    ensures Rejoins(s, SplitAt(s, k).0, SplitAt(s, k).1)
  {
  }

  /** The file path exists, the two parts put back together give the stripped path, and no
      longer file path along the way exists. */
  lemma {:induction false} SplitSound(fs: set<string>, vhostPath: string)
    requires Split(fs, vhostPath).Some?
    ensures Exists(fs, Split(fs, vhostPath).value.0)
    ensures Rejoins(StripFilesRoot(vhostPath), Split(fs, vhostPath).value.0, Split(fs, vhostPath).value.1)
    ensures forall k: nat :: |Split(fs, vhostPath).value.0| < k <= |StripFilesRoot(vhostPath)| ==>
              !ExistingCut(fs, StripFilesRoot(vhostPath), k)
  {
    SplitIsReference(fs, vhostPath);
    var s := StripFilesRoot(vhostPath);
    var k := LongestCut(fs, s, |s|).value;
    assert Split(fs, vhostPath) == Some(SplitAt(s, k));
    SplitAtRejoins(s, k);
  }

  /** Splitting `/files` + P + `/` + S gives back (P, S) when P exists and no longer
      `/`-prefix of P + `/` + S does. */
  lemma {:induction false} SplitRoundTrip(fs: set<string>, filePath: string, internalPath: string)
    requires Exists(fs, filePath)
    requires !Exists(fs, filePath + "/" + internalPath)
    requires forall j :: 0 <= j < |internalPath| && internalPath[j] == '/' ==>
               !Exists(fs, filePath + "/" + internalPath[..j])
    ensures Split(fs, "/files" + filePath + "/" + internalPath) == Some((filePath, internalPath))
  {
    var v := "/files" + filePath + "/" + internalPath;
    var s := filePath + "/" + internalPath;
    var n := |filePath|;
    assert StripFilesRoot(v) == s;
    assert s[..n] == filePath;
    forall k | n < k <= |s| ensures !ExistingCut(fs, s, k) {
      if k < |s| && IsCut(s, k) {
        assert s[..k] == filePath + "/" + internalPath[..k - n - 1];
      } else if k == |s| {
        assert s[..k] == s;
      }
    }
    SkipCuts(fs, s, n, |s|);
    assert ExistingCut(fs, s, n);
    assert s[n + 1..] == internalPath;
    SplitIsReference(fs, v);
  }

  /** One pass of the loop body: `file_path.rpartition("/")[0]`. */
  function Shrink(filePath: string): string
  {
    RPartition(filePath, '/').head
  }

  /** `file_path` after `n` passes of the loop body. */
  function ShrinkTimes(filePath: string, n: nat): string
    decreases n
  {
    if n == 0 then filePath else ShrinkTimes(Shrink(filePath), n - 1)
  }

  /** Every `file_path` the loop visits is a cut of the stripped path, or empty. */
  ghost predicate IsCutPrefix(s: string, p: string) {
    p == "" || exists k: nat :: IsCut(s, k) && p == s[..k]
  }

  lemma {:induction false} ShrinkTimesCuts(s: string, p: string, n: nat)
    requires IsCutPrefix(s, p)
    ensures IsCutPrefix(s, ShrinkTimes(p, n))
    decreases n
  {
    if n > 0 {
      var r := RPartition(p, '/');
      if p != "" && r.found {
        var k: nat :| IsCut(s, k) && p == s[..k];
        var h := |r.head|;
        assert p == r.head + "/" + r.tail;
        assert s[h] == '/' && s[..h] == r.head;
        assert IsCut(s, h);
      }
      ShrinkTimesCuts(s, Shrink(p), n - 1);
    }
  }

  /** When `_split_aug_path` has nothing to stop at, the as-written loop never exits:
      however many passes it makes, `file_path` does not exist (and once it is empty,
      `rpartition` leaves it empty). */
  lemma {:induction false} UnsplittableNeverExits(fs: set<string>, vhostPath: string, n: nat)
    requires Split(fs, vhostPath).None?
    ensures !Exists(fs, ShrinkTimes(StripFilesRoot(vhostPath), n))
    ensures Shrink("") == ""
  {
    var s := StripFilesRoot(vhostPath);
    SplitTerminatesIff(fs, vhostPath);
    assert IsCut(s, |s|) && s == s[..|s|];
    ShrinkTimesCuts(s, s, n);
    var p := ShrinkTimes(s, n);
    if p != "" {
      var k: nat :| IsCut(s, k) && p == s[..k];
      assert !ExistingCut(fs, s, k);
    }
  }

  /** `_split_aug_path`: drop the last component of the stripped path until what is left
      exists; callers only pass paths for which that happens. */
  method SplitAugPath(fs: set<string>, vhostPath: string) returns (filePath: string, internalPath: string)
    requires Split(fs, vhostPath).Some?
    ensures Split(fs, vhostPath) == Some((filePath, internalPath))
    ensures Exists(fs, filePath)
    ensures Rejoins(StripFilesRoot(vhostPath), filePath, internalPath)
  {
    filePath := StripFilesRoot(vhostPath);
    var parts: seq<string> := [];
    while !Exists(fs, filePath)
      invariant SplitFrom(fs, filePath, parts) == Split(fs, vhostPath)
      decreases |filePath|
    {
      var p := RPartition(filePath, '/');
      filePath, parts := p.head, parts + [p.tail];
    }
    internalPath := Join('/', Reverse(parts));
    SplitSound(fs, vhostPath);
  }

  /** `get_file_path`: None for an empty path or one not under `/files/`, otherwise the
      file part of the split. */
  method GetFilePath(fs: set<string>, vhostPath: string) returns (r: Option<string>)
    requires vhostPath != "" && "/files/" <= vhostPath ==> Split(fs, vhostPath).Some?
    ensures r.None? <==> vhostPath == "" || !("/files/" <= vhostPath)
    ensures r.Some? ==> Exists(fs, r.value) && r.value == Split(fs, vhostPath).value.0
  {
    if vhostPath == "" || !("/files/" <= vhostPath) {
      return None;
    }
    var filePath, _ := SplitAugPath(fs, vhostPath);
    return Some(filePath);
  }

  /** `get_internal_aug_path`: the internal part of the split. */
  method GetInternalAugPath(fs: set<string>, vhostPath: string) returns (internalPath: string)
    requires Split(fs, vhostPath).Some?
    ensures internalPath == Split(fs, vhostPath).value.1
    ensures Rejoins(StripFilesRoot(vhostPath), Split(fs, vhostPath).value.0, internalPath)
  {
    var _, i := SplitAugPath(fs, vhostPath);
    return i;
  }
}
