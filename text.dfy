/**
 * The few pieces of Python's `str` that the utility module relies on:
 * `partition`, `rpartition`, `split()` with no argument and `sep.join`.
 */
module Text {

  /** Python's `str.isspace` for one character: the characters `str.split()` breaks on. */
  predicate IsSpace(c: char) {
    || c == ' ' || c == '\t' || c == '\n' || c == '\r'
    || c == '\U{000B}' || c == '\U{000C}'
    || ('\U{001C}' <= c <= '\U{001F}')
    || c == '\U{0085}' || c == '\U{00A0}' || c == '\U{1680}'
    || ('\U{2000}' <= c <= '\U{200A}')
    || c == '\U{2028}' || c == '\U{2029}' || c == '\U{202F}' || c == '\U{205F}' || c == '\U{3000}'
  }

  /** A word of `str.split()`: non-empty and free of whitespace. */
  predicate IsWord(w: string) {
    w != [] && forall i :: 0 <= i < |w| ==> !IsSpace(w[i])
  }

  /** Length of the run of non-whitespace characters at the front of `s`. */
  function WordLength(s: string): (n: nat)
    ensures n <= |s|
    ensures forall i :: 0 <= i < n ==> !IsSpace(s[i])
    ensures n < |s| ==> IsSpace(s[n])
  {
    if s == [] || IsSpace(s[0]) then 0 else 1 + WordLength(s[1..])
  }

  /** `s.split()`: the maximal runs of non-whitespace characters, in order. */
  function Words(s: string): (ws: seq<string>)
    ensures forall i :: 0 <= i < |ws| ==> IsWord(ws[i])
    decreases |s|
  {
    if s == [] then []
    else if IsSpace(s[0]) then Words(s[1..])
    else
      var n := WordLength(s);
      [s[..n]] + Words(s[n..])
  }

  /** `[sep].join(xs)` for a one-character separator. */
  function Join(sep: char, xs: seq<string>): string
  {
    if |xs| == 0 then ""
    else if |xs| == 1 then xs[0]
    else xs[0] + [sep] + Join(sep, xs[1..])
  }

  /** Python's `reversed` on a list. */
  function Reverse<T>(xs: seq<T>): (r: seq<T>)
    ensures |r| == |xs|
    ensures forall i :: 0 <= i < |xs| ==> r[i] == xs[|xs| - 1 - i]
  {
    if xs == [] then [] else Reverse(xs[1..]) + [xs[0]]
  }

  /** Splitting words joined by single spaces gives the words back. */
  lemma {:induction false} WordsOfJoin(ws: seq<string>)
    requires forall i :: 0 <= i < |ws| ==> IsWord(ws[i])
    ensures Words(Join(' ', ws)) == ws
  {
    if |ws| == 0 {
    } else {
      var w := ws[0];
      var rest := if |ws| == 1 then "" else [' '] + Join(' ', ws[1..]);
      var s := Join(' ', ws);
      assert s == w + rest;
      assert forall i :: 0 <= i < |w| ==> s[i] == w[i];
      assert |w| < |s| ==> s[|w|] == ' ';
      assert WordLength(s) == |w|;
      assert s[..|w|] == w;
      if |ws| == 1 {
        assert s[|w|..] == [];
      } else {
        assert s[|w|..] == [' '] + Join(' ', ws[1..]);
        assert s[|w|..][1..] == Join(' ', ws[1..]);
        WordsOfJoin(ws[1..]);
      }
    }
  }

  /** Every character of `g` is whitespace. */
  predicate AllSpace(g: string) {
    forall i :: 0 <= i < |g| ==> IsSpace(g[i])
  }

  /** The string made of the whitespace gaps and the words in turn:
      `gaps[0] + ws[0] + gaps[1] + ... + ws[n-1] + gaps[n]`. */
  function Layout(gaps: seq<string>, ws: seq<string>): string
    requires |gaps| == |ws| + 1
    decreases |ws|
  {
    if ws == [] then gaps[0] else gaps[0] + (ws[0] + Layout(gaps[1..], ws[1..]))
  }

  /** A layout in which `ws` are exactly the maximal non-whitespace runs: the gaps are
      whitespace, the gaps between two words are not empty, and the words are words. */
  predicate LayoutOk(gaps: seq<string>, ws: seq<string>) {
    && |gaps| == |ws| + 1
    && (forall i :: 0 <= i < |gaps| ==> AllSpace(gaps[i]))
    && (forall i :: 0 < i < |ws| ==> gaps[i] != "")
    && (forall i :: 0 <= i < |ws| ==> IsWord(ws[i]))
  }

  /** The whitespace gaps of `s` around its words. */
  function Gaps(s: string): (gaps: seq<string>)
    ensures |gaps| == |Words(s)| + 1
    decreases |s|
  {
    if s == [] then [""]
    else if IsSpace(s[0]) then
      var g := Gaps(s[1..]);
      [[s[0]] + g[0]] + g[1..]
    else
      [""] + Gaps(s[WordLength(s)..])
  }

  /** Leading whitespace is skipped. */
  lemma {:induction false} WordsSkipSpaces(g: string, t: string)
    requires AllSpace(g)
    ensures Words(g + t) == Words(t)
    decreases |g|
  {
    if g == [] {
      assert g + t == t;
    } else {
      assert (g + t)[1..] == g[1..] + t;
      WordsSkipSpaces(g[1..], t);
    }
  }

  /** A word followed by nothing or by whitespace is split off whole. */
  lemma WordsOfWordFirst(w: string, rest: string)
    requires IsWord(w)
    requires rest == [] || IsSpace(rest[0])
    ensures Words(w + rest) == [w] + Words(rest)
  {
    var s := w + rest;
    var n := WordLength(s);
    assert forall i :: 0 <= i < |w| ==> s[i] == w[i];
    assert !IsSpace(s[0]);
    assert |w| < |s| ==> s[|w|] == rest[0];
    assert s[..n] == w;
    assert s[n..] == rest;
  }

  /** Any layout of whitespace gaps and words splits into exactly its words. */
  lemma {:induction false} WordsOfLayout(gaps: seq<string>, ws: seq<string>)
    requires LayoutOk(gaps, ws)
    ensures Words(Layout(gaps, ws)) == ws
    decreases |ws|
  {
    if ws == [] {
      WordsSkipSpaces(gaps[0], "");
      assert gaps[0] + "" == gaps[0];
    } else {
      var rest := Layout(gaps[1..], ws[1..]);
      assert Layout(gaps, ws) == gaps[0] + (ws[0] + rest);
      WordsSkipSpaces(gaps[0], ws[0] + rest);
      if |ws| > 1 {
        assert rest == gaps[1] + (ws[1] + Layout(gaps[2..], ws[2..]));
        assert rest[0] == gaps[1][0];
      }
      WordsOfWordFirst(ws[0], rest);
      WordsOfLayout(gaps[1..], ws[1..]);
    }
  }

  lemma ConsAssoc(c: char, a: string, b: string)
    ensures ([c] + a) + b == [c] + (a + b)
  {
  }

  /** Prepending a character to the first gap prepends it to the layout. */
  lemma LayoutConsSpace(c: char, gaps: seq<string>, g: seq<string>, ws: seq<string>)
    requires |gaps| == |g| == |ws| + 1
    requires gaps[0] == [c] + g[0] && gaps[1..] == g[1..]
    ensures Layout(gaps, ws) == [c] + Layout(g, ws)
  {
    if ws != [] {
      ConsAssoc(c, g[0], ws[0] + Layout(g[1..], ws[1..]));
    }
  }

  /** The layout facts `WordsHaveLayout` states, for one string. */
  predicate HasLayout(s: string)
  {
    && LayoutOk(Gaps(s), Words(s))
    && Layout(Gaps(s), Words(s)) == s
    && (s != [] && IsSpace(s[0]) ==> Gaps(s)[0] != "")
  }

  /** A whitespace character in front of a layout, added to its first gap, keeps it a
      layout. */
  lemma LayoutConsSpaceOk(c: char, gaps: seq<string>, g: seq<string>, ws: seq<string>)
    requires IsSpace(c) && LayoutOk(g, ws)
    requires |gaps| == |g| && gaps[0] == [c] + g[0] && gaps[1..] == g[1..]
    ensures LayoutOk(gaps, ws) && gaps[0] != ""
  {
    assert AllSpace([c] + g[0]);
    assert forall i :: 0 < i < |gaps| ==> gaps[i] == g[i];
  }

  /** The words and gaps of a string that starts with whitespace. */
  lemma UnfoldSpaceFirst(s: string)
    requires s != [] && IsSpace(s[0])
    ensures Words(s) == Words(s[1..])
    ensures |Gaps(s)| == |Gaps(s[1..])|
    ensures Gaps(s)[0] == [s[0]] + Gaps(s[1..])[0] && Gaps(s)[1..] == Gaps(s[1..])[1..]
  {
  }

  /** A leading whitespace character joins the first gap. */
  lemma LayoutSpaceStep(s: string)
    requires s != [] && IsSpace(s[0])
    requires HasLayout(s[1..])
    ensures HasLayout(s)
  {
    UnfoldSpaceFirst(s);
    LayoutConsSpaceOk(s[0], Gaps(s), Gaps(s[1..]), Words(s[1..]));
    LayoutConsSpace(s[0], Gaps(s), Gaps(s[1..]), Words(s[1..]));
    assert [s[0]] + s[1..] == s;
  }

  /** A word in front of a layout, after an empty gap, is a layout of the longer string. */
  lemma LayoutConsWord(gaps: seq<string>, words: seq<string>, gs: seq<string>, ws: seq<string>)
    requires |gs| == |ws| + 1
    requires |gaps| == |gs| + 1 && gaps[0] == "" && gaps[1..] == gs
    requires |words| == |ws| + 1 && words[1..] == ws
    ensures Layout(gaps, words) == words[0] + Layout(gs, ws)
  {
    assert Layout(gaps, words) == "" + (words[0] + Layout(gs, ws));
  }

  lemma LayoutOkConsWord(gaps: seq<string>, words: seq<string>, gs: seq<string>, ws: seq<string>)
    requires LayoutOk(gs, ws)
    requires ws != [] ==> gs[0] != ""
    requires |gaps| == |gs| + 1 && gaps[0] == "" && gaps[1..] == gs
    requires |words| == |ws| + 1 && IsWord(words[0]) && words[1..] == ws
    ensures LayoutOk(gaps, words)
  {
    assert forall i :: 0 < i < |gaps| ==> gaps[i] == gs[i - 1];
    assert forall i :: 0 < i < |words| ==> words[i] == ws[i - 1];
  }

  /** The words and gaps of a string that starts with a word. */
  lemma UnfoldWordFirst(s: string)
    requires s != [] && !IsSpace(s[0])
    ensures var n := WordLength(s);
            && |Words(s)| == |Words(s[n..])| + 1
            && Words(s)[0] == s[..n] && IsWord(s[..n])
            && Words(s)[1..] == Words(s[n..])
            && |Gaps(s)| == |Gaps(s[n..])| + 1
            && Gaps(s)[0] == "" && Gaps(s)[1..] == Gaps(s[n..])
  {
    assert Words(s)[0] == s[..WordLength(s)];
  }

  /** A leading word becomes the first word, after an empty gap. */
  lemma LayoutWordStep(s: string)
    requires s != [] && !IsSpace(s[0])
    requires HasLayout(s[WordLength(s)..])
    ensures HasLayout(s)
  {
    var n := WordLength(s);
    var rest := s[n..];
    UnfoldWordFirst(s);
    assert Words(rest) != [] ==> Gaps(rest)[0] != "" by {
      if Words(rest) != [] {
        assert rest != [] && IsSpace(rest[0]);
      }
    }
    LayoutOkConsWord(Gaps(s), Words(s), Gaps(rest), Words(rest));
    LayoutConsWord(Gaps(s), Words(s), Gaps(rest), Words(rest));
    TakeDrop(s, n);
  }

  lemma TakeDrop(s: string, n: nat)
    requires n <= |s|
    ensures s[..n] + s[n..] == s
  {
  }

  /** Every string is the layout of its words and its gaps. */
  lemma WordsHaveLayout(s: string)
    ensures LayoutOk(Gaps(s), Words(s))
    ensures Layout(Gaps(s), Words(s)) == s
  {
    HasLayoutAll(s);
  }

  lemma {:induction false} HasLayoutAll(s: string)
    ensures HasLayout(s)
    decreases |s|
  {
    if s == [] {
    } else if IsSpace(s[0]) {
      HasLayoutAll(s[1..]);
      LayoutSpaceStep(s);
    } else {
      HasLayoutAll(s[WordLength(s)..]);
      LayoutWordStep(s);
    }
  }

  /** `s.split()` returns `ws` exactly when `s` is made of `ws` and whitespace gaps, with
      at least one whitespace character between two words: the words are all of `s`'s
      maximal non-whitespace runs, in order. */
  lemma {:induction false} WordsIff(s: string, ws: seq<string>)
    ensures Words(s) == ws <==> exists gaps :: LayoutOk(gaps, ws) && Layout(gaps, ws) == s
  {
    if Words(s) == ws {
      WordsHaveLayout(s);
    }
    if exists gaps :: LayoutOk(gaps, ws) && Layout(gaps, ws) == s {
      var gaps :| LayoutOk(gaps, ws) && Layout(gaps, ws) == s;
      WordsOfLayout(gaps, ws);
    }
  }

  /** `s.count(c)` for a one-character `c`: the number of occurrences of `c` in `s`. */
  function Count(s: string, c: char): nat
  {
    if s == [] then 0 else (if s[0] == c then 1 else 0) + Count(s[1..], c)
  }

  /** The three parts of Python's `partition` / `rpartition`; `found` stands for a non-empty separator part. */
  datatype Parts = Parts(head: string, found: bool, tail: string)

  /** Index of the first `c` in `s`, or `|s|` when there is none. */
  function FirstIndex(s: string, c: char): (i: nat)
    ensures i <= |s|
    ensures i < |s| ==> s[i] == c
    ensures forall j :: 0 <= j < i ==> s[j] != c
  {
    if s == [] || s[0] == c then 0 else 1 + FirstIndex(s[1..], c)
  }

  /** Index of the last `c` in `s`, or -1 when there is none. */
  function LastIndex(s: string, c: char): (i: int)
    ensures -1 <= i < |s|
    ensures 0 <= i ==> s[i] == c
    ensures forall j :: i < j < |s| ==> s[j] != c
  {
    if s == [] then -1
    else if s[|s| - 1] == c then |s| - 1
    else LastIndex(s[..|s| - 1], c)
  }

  /** `s.partition(c)`: split at the first `c`; without one, the whole string is the head. */
  function Partition(s: string, c: char): (p: Parts)
    ensures p.found <==> c in s
    ensures c !in p.head
    ensures p.found ==> s == p.head + [c] + p.tail
    ensures !p.found ==> p.head == s && p.tail == ""
  {
    var i := FirstIndex(s, c);
    if i < |s| then
      assert s == s[..i] + [c] + s[i + 1..];
      Parts(s[..i], true, s[i + 1..])
    else Parts(s, false, "")
  }

  /** `s.rpartition(c)`: split at the last `c`; without one, the whole string is the tail. */
  function RPartition(s: string, c: char): (p: Parts)
    ensures p.found <==> c in s
    ensures c !in p.tail
    ensures p.found ==> s == p.head + [c] + p.tail
    ensures !p.found ==> p.head == "" && p.tail == s
  {
    var i := LastIndex(s, c);
    if 0 <= i then
      assert s == s[..i] + [c] + s[i + 1..];
      Parts(s[..i], true, s[i + 1..])
    else Parts("", false, s)
  }
}
