/**
 * The POSIX path and string helpers the pipeline leans on, written to
 * follow Python's `posixpath` and `str` on the same inputs: `dirname`,
 * `basename`, `join`, `splitext`, `normpath`, `str.replace`, `str.lower`,
 * `str.upper` and `str.endswith`. Case mapping covers ASCII letters only.
 */
module PathOps {

  predicate IsPrefix(p: string, s: string) {
    |p| <= |s| && s[..|p|] == p
  }

  predicate EndsWith(s: string, suffix: string) {
    |suffix| <= |s| && s[|s| - |suffix|..] == suffix
  }

  /** `s.rfind(c)`: the last index holding `c`, or -1. */
  function LastIndexOf(s: string, c: char): (i: int)
    ensures -1 <= i < |s|
    ensures i >= 0 ==> s[i] == c
    ensures forall k :: i < k < |s| ==> s[k] != c
  {
    if s == [] then -1
    else if s[|s| - 1] == c then |s| - 1
    else LastIndexOf(s[..|s| - 1], c)
  }

  /** The last occurrence is pinned down by an occurrence with none after it. */
  lemma LastIndexOfIs(s: string, c: char, i: int)
    requires -1 <= i < |s|
    requires i >= 0 ==> s[i] == c
    requires forall k :: i < k < |s| ==> s[k] != c
    ensures LastIndexOf(s, c) == i
  {
  }

  /** Appending text without `c` leaves the last `c` where it was. */
  lemma LastIndexOfAppend(a: string, b: string, c: char)
    requires forall k :: 0 <= k < |b| ==> b[k] != c
    ensures LastIndexOf(a + b, c) == LastIndexOf(a, c)
  {
    var i := LastIndexOf(a, c);
    var s := a + b;
    forall k | i < k < |s| ensures s[k] != c {
      if k >= |a| { assert s[k] == b[k - |a|]; }
    }
    LastIndexOfIs(s, c, i);
  }

  predicate AllSlashes(s: string) {
    forall k :: 0 <= k < |s| ==> s[k] == '/'
  }

  predicate NoSlash(s: string) {
    forall k :: 0 <= k < |s| ==> s[k] != '/'
  }

  /** `s.rstrip('/')` */
  function RStripSlashes(s: string): (r: string)
    ensures IsPrefix(r, s)
    ensures forall k :: |r| <= k < |s| ==> s[k] == '/'
    ensures r == [] || r[|r| - 1] != '/'
  {
    if s != [] && s[|s| - 1] == '/' then RStripSlashes(s[..|s| - 1]) else s
  }

  /** `posixpath.dirname`: everything before the last slash, with trailing
      slashes removed unless the head consists of slashes only. */
  function Dirname(p: string): (d: string)
    ensures IsPrefix(d, p)
  {
    var head := p[..LastIndexOf(p, '/') + 1];
    if head != [] && !AllSlashes(head) then RStripSlashes(head) else head
  }

  /** `posixpath.basename`: everything after the last slash. */
  function Basename(p: string): (b: string)
    ensures NoSlash(b)
    ensures EndsWith(p, b)
  {
    p[LastIndexOf(p, '/') + 1..]
  }

  /** `posixpath.join(a, b)` */
  function Join(a: string, b: string): string {
    if |b| > 0 && b[0] == '/' then b
    else if a == [] || a[|a| - 1] == '/' then a + b
    else a + "/" + b
  }

  /** The joined path ends in its last part, and an absolute last part
      discards the first. */
  lemma JoinEndsWithLast(a: string, b: string)
    ensures EndsWith(Join(a, b), b)
    ensures |b| > 0 && b[0] == '/' ==> Join(a, b) == b
    ensures !(|b| > 0 && b[0] == '/') ==> IsPrefix(a, Join(a, b))
  {
    var r := Join(a, b);
    assert r[|r| - |b|..] == b;
    if !(|b| > 0 && b[0] == '/') {
      assert r[..|a|] == a;
    }
  }

  /** Joining a directory that does not end in a slash with a plain name
      gives a path whose dirname is that directory and whose basename is that
      name: the two halves of `join` come back out. */
  lemma JoinSplits(d: string, n: string)
    requires d != [] && d[|d| - 1] != '/'
    requires n != [] && NoSlash(n)
    ensures Dirname(Join(d, n)) == d
    ensures Basename(Join(d, n)) == n
  {
    var p := Join(d, n);
    assert p == d + "/" + n;
    assert p[|d|] == '/';
    assert forall k :: |d| < k < |p| ==> p[k] == n[k - |d| - 1];
    var i := LastIndexOf(p, '/');
    assert i == |d|;
    var head := p[..i + 1];
    assert head == d + "/";
    assert !AllSlashes(head) by { assert head[|d| - 1] == d[|d| - 1]; }
    assert RStripSlashes(head) == RStripSlashes(d);
  }

  /** Some character of `s[lo..hi]` is not a dot. */
  predicate HasNonDotIn(s: string, lo: int, hi: int)
    requires 0 <= lo <= hi <= |s|
  {
    exists k :: lo <= k < hi && s[k] != '.'
  }

  /** `posixpath.splitext`: the extension starts at the last dot after the
      last slash, unless everything between that slash and the dot is dots
      (so a leading dot, as in `.bashrc`, does not start an extension). */
  function Splitext(p: string): (string, string)
  {
    var sep := LastIndexOf(p, '/');
    var dot := LastIndexOf(p, '.');
    if dot > sep && HasNonDotIn(p, sep + 1, dot) then (p[..dot], p[dot..]) else (p, [])
  }

  /** The two halves of `splitext` put back together give the path, and the
      extension, when there is one, is a dot followed by no slash. */
  lemma SplitextParts(p: string)
    ensures Splitext(p).0 + Splitext(p).1 == p
    ensures Splitext(p).1 == [] || (Splitext(p).1[0] == '.' && NoSlash(Splitext(p).1))
  {
    var sep := LastIndexOf(p, '/');
    var dot := LastIndexOf(p, '.');
    if dot > sep && HasNonDotIn(p, sep + 1, dot) {
      assert p[..dot] + p[dot..] == p;
      assert forall k :: 0 <= k < |p[dot..]| ==> p[dot..][k] == p[dot + k];
    }
  }

  /** `pat` starts at index `i` of `s`. */
  predicate MatchAt(pat: string, s: string, i: int) {
    0 <= i && i + |pat| <= |s| && s[i..i + |pat|] == pat
  }

  /** Whether `pat` occurs anywhere in `s`. */
  ghost predicate Occurs(pat: string, s: string) {
    exists i :: MatchAt(pat, s, i)
  }

  /** `s.replace(pat, rep)`: every non-overlapping occurrence, scanning left
      to right; an empty pattern inserts `rep` around every character. */
  function ReplaceAll(s: string, pat: string, rep: string): (r: string)
    decreases |s|
  {
    if pat == [] then
      if s == [] then rep else rep + [s[0]] + ReplaceAll(s[1..], pat, rep)
    else if |pat| <= |s| && s[..|pat|] == pat then rep + ReplaceAll(s[|pat|..], pat, rep)
    else if s == [] then []
    else [s[0]] + ReplaceAll(s[1..], pat, rep)
  }

  /** Where the pattern does not occur, `replace` leaves the string alone. */
  lemma {:induction false} ReplaceAbsent(s: string, pat: string, rep: string)
    requires pat != [] && !Occurs(pat, s)
    ensures ReplaceAll(s, pat, rep) == s
  {
    if s != [] {
      assert !MatchAt(pat, s, 0);
      forall i | MatchAt(pat, s[1..], i) ensures MatchAt(pat, s, i + 1) {
        assert s[i + 1..i + 1 + |pat|] == s[1..][i..i + |pat|];
      }
      ReplaceAbsent(s[1..], pat, rep);
    }
  }

  /** When the pattern occurs only as the prefix, `replace` swaps that prefix
      and keeps the remainder unchanged. */
  lemma ReplacePrefixOnly(pat: string, rest: string, rep: string)
    requires pat != [] && !Occurs(pat, rest)
    ensures ReplaceAll(pat + rest, pat, rep) == rep + rest
  {
    var s := pat + rest;
    assert s[..|pat|] == pat;
    assert s[|pat|..] == rest;
    ReplaceAbsent(rest, pat, rep);
  }

  function LowerChar(c: char): char {
    if 'A' <= c <= 'Z' then (c as int + 32) as char else c
  }

  function UpperChar(c: char): char {
    if 'a' <= c <= 'z' then (c as int - 32) as char else c
  }

  /** `s.lower()` on ASCII letters */
  function Lower(s: string): (r: string)
    ensures |r| == |s|
  {
    seq(|s|, k requires 0 <= k < |s| => LowerChar(s[k]))
  }

  /** `s.upper()` on ASCII letters */
  function Upper(s: string): (r: string)
    ensures |r| == |s|
  {
    seq(|s|, k requires 0 <= k < |s| => UpperChar(s[k]))
  }

  /** `s.split('/')` */
  function SplitSlash(s: string): (parts: seq<string>)
    ensures |parts| >= 1
  {
    var j := LastIndexOf(s, '/');
    if j < 0 then [s] else SplitSlash(s[..j]) + [s[j + 1..]]
  }

  /** `'/'.join(parts)` */
  function JoinSlash(parts: seq<string>): string {
    if parts == [] then []
    else if |parts| == 1 then parts[0]
    else parts[0] + "/" + JoinSlash(parts[1..])
  }

  /** The component loop of `posixpath.normpath`: drop empty and `.`
      components, let `..` cancel the previous component, and keep a leading
      `..` only on a relative path. */
  function NormComponents(comps: seq<string>, rooted: bool, acc: seq<string>): seq<string>
    decreases |comps|
  {
    if comps == [] then acc
    else
      var c := comps[0];
      var acc' :=
        if c == "" || c == "." then acc
        else if c != ".." || (!rooted && acc == []) || (acc != [] && acc[|acc| - 1] == "..") then acc + [c]
        else if acc != [] then acc[..|acc| - 1]
        else acc;
      NormComponents(comps[1..], rooted, acc')
  }

  /** `posixpath.normpath`; exactly two leading slashes are kept as two. */
  function NormPath(p: string): (r: string)
    ensures r != []
  {
    if p == [] then "."
    else
      var initial :=
        if p[0] != '/' then 0
        else if |p| >= 2 && p[1] == '/' && !(|p| >= 3 && p[2] == '/') then 2
        else 1;
      var r := seq(initial, _ => '/') + JoinSlash(NormComponents(SplitSlash(p), initial > 0, []));
      if r == [] then "." else r
  }
}
