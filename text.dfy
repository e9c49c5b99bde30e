/** The string operations the Python code relies on: `in`, `str.replace`, `str.split()`,
    `' '.join`, `os.path.join`, `readlines`/`writelines` and slicing off the last character. */
module Text {

  /** The separators of `str.split()` with no argument (ASCII whitespace). */
  predicate IsSpace(c: char) {
    c == ' ' || c == '\t' || c == '\n' || c == '\r' || c == '\U{B}' || c == '\U{C}'
  }

  /** A string that `str.split()` keeps as one argument. */
  predicate IsWord(s: string) {
    |s| > 0 && forall i :: 0 <= i < |s| ==> !IsSpace(s[i])
  }

  predicate IsPrefix(p: string, s: string) {
    |p| <= |s| && s[..|p|] == p
  }

  /** Python's `p in s` on strings; the empty string occurs in every string. */
  predicate Contains(s: string, p: string)
    decreases |s|
  {
    IsPrefix(p, s) || (s != [] && Contains(s[1..], p))
  }

  /** An occurrence of `p` at position `i` makes `p in s` true. */
  lemma {:induction false} ContainsAt(s: string, p: string, i: nat)
    requires i + |p| <= |s| && s[i..i + |p|] == p
    ensures Contains(s, p)
    decreases i
  {
    if i > 0 {
      assert s[1..][i - 1..i - 1 + |p|] == s[i..i + |p|];
      ContainsAt(s[1..], p, i - 1);
    }
  }

  /** `s.replace(src, tgt)`: every non-overlapping occurrence of `src`, found left to right, is
      replaced by `tgt`; an empty `src` inserts `tgt` before every character and at the end. */
  function ReplaceAll(s: string, src: string, tgt: string): string
    decreases |s|
  {
    if src == [] then Interleave(s, tgt)
    else if s == [] then []
    else if IsPrefix(src, s) then tgt + ReplaceAll(s[|src|..], src, tgt)
    else [s[0]] + ReplaceAll(s[1..], src, tgt)
  }

  function Interleave(s: string, t: string): string
    decreases |s|
  {
    if s == [] then t else t + [s[0]] + Interleave(s[1..], t)
  }

  /** A string without an occurrence of `src` comes back from `replace` unchanged. */
  lemma {:induction false} ReplaceAbsent(s: string, src: string, tgt: string)
    requires !Contains(s, src)
    ensures ReplaceAll(s, src, tgt) == s
    decreases |s|
  {
    assert src != [];
    if s != [] {
      ReplaceAbsent(s[1..], src, tgt);
    }
  }

  /** Replacing a string by itself changes nothing. */
  lemma {:induction false} ReplaceSelf(s: string, src: string)
    ensures ReplaceAll(s, src, src) == s
    decreases |s|
  {
    if src == [] {
      InterleaveEmpty(s);
    } else if s != [] {
      if IsPrefix(src, s) {
        ReplaceSelf(s[|src|..], src);
        assert s == src + s[|src|..];
      } else {
        ReplaceSelf(s[1..], src);
      }
    }
  }

  lemma {:induction false} InterleaveEmpty(s: string)
    ensures Interleave(s, []) == s
    decreases |s|
  {
    if s != [] {
      InterleaveEmpty(s[1..]);
    }
  }

  /** `replace` does not remove every occurrence of `src`: it can create new ones across the
      seams of what it replaces ("aabb".replace("ab", "a") is "aab"). */
  lemma ReplaceCanLeaveSource()
    ensures ReplaceAll("aabb", "ab", "a") == "aab"
    ensures Contains("aab", "ab")
  {
    assert "aabb"[..2][1] != "ab"[1];
    assert "aabb"[1..] == "abb";
    assert IsPrefix("ab", "abb");
    assert "abb"[2..] == "b";
    assert !IsPrefix("ab", "b");
    assert "aab"[1..] == "ab";
    assert IsPrefix("ab", "aab"[1..]);
  }

  /** Length of the leading run of non-space characters. */
  function WordLen(s: string): (n: nat)
    ensures n <= |s|
    ensures forall i :: 0 <= i < n ==> !IsSpace(s[i])
    ensures n < |s| ==> IsSpace(s[n])
    decreases |s|
  {
    if s == [] || IsSpace(s[0]) then 0 else 1 + WordLen(s[1..])
  }

  /** `str.split()`: the maximal runs of non-space characters, in order. */
  function Split(s: string): (ws: seq<string>)
    ensures forall k :: 0 <= k < |ws| ==> IsWord(ws[k])
    decreases |s|
  {
    if s == [] then []
    else if IsSpace(s[0]) then Split(s[1..])
    else
      var n := WordLen(s);
      [s[..n]] + Split(s[n..])
  }

  lemma {:induction false} WordLenBeforeSpace(a: string, b: string)
    ensures WordLen(a + " " + b) == WordLen(a)
    decreases |a|
  {
    var s := a + " " + b;
    if a == [] {
      assert s[0] == ' ';
    } else if !IsSpace(a[0]) {
      assert s[1..] == a[1..] + " " + b;
      WordLenBeforeSpace(a[1..], b);
    }
  }

  /** A space separates: splitting `a + " " + b` splits `a` and `b` apart. */
  lemma {:induction false} SplitAtSpace(a: string, b: string)
    ensures Split(a + " " + b) == Split(a) + Split(b)
    decreases |a|
  {
    var s := a + " " + b;
    if a == [] {
      assert s[0] == ' ' && s[1..] == b;
    } else if IsSpace(a[0]) {
      assert s[0] == a[0] && s[1..] == a[1..] + " " + b;
      SplitAtSpace(a[1..], b);
    } else {
      var n := WordLen(a);
      WordLenBeforeSpace(a, b);
      assert s[..n] == a[..n];
      assert s[n..] == a[n..] + " " + b;
      SplitAtSpace(a[n..], b);
    }
  }

  lemma SplitWord(w: string)
    requires IsWord(w)
    ensures Split(w) == [w]
  {
    assert WordLen(w) == |w|;
    assert w[..|w|] == w && w[|w|..] == [];
  }

  /** A word followed by a space is split off as the first argument. */
  lemma SplitLeadingWord(a: string, b: string)
    requires IsWord(a)
    ensures Split(a + " " + b) == [a] + Split(b)
  {
    SplitAtSpace(a, b);
    SplitWord(a);
  }

  /** A space and a word appended to a command line add that word as its last argument. */
  lemma SplitAppendWord(x: string, a: string)
    requires IsWord(a)
    ensures Split(x + " " + a) == Split(x) + [a]
  {
    SplitAtSpace(x, a);
    SplitWord(a);
  }

  /** Two words appended, a space before each, become the last two arguments. */
  lemma SplitAppendTwo(x: string, a: string, b: string)
    requires IsWord(a) && IsWord(b)
    ensures Split(x + " " + a + " " + b) == Split(x) + [a, b]
  {
    SplitAppendWord(x, a);
    SplitAppendWord(x + " " + a, b);
  }

  /** Three words appended, a space before each, become the last three arguments. */
  lemma SplitAppendThree(x: string, a: string, b: string, c: string)
    requires IsWord(a) && IsWord(b) && IsWord(c)
    ensures Split(x + " " + a + " " + b + " " + c) == Split(x) + [a, b, c]
  {
    SplitAppendTwo(x, a, b);
    SplitAppendWord(x + " " + a + " " + b, c);
  }

  /** `sep.join(xs)`. */
  function Join(xs: seq<string>, sep: string): string
    decreases |xs|
  {
    if xs == [] then ""
    else if |xs| == 1 then xs[0]
    else xs[0] + sep + Join(xs[1..], sep)
  }

  /** Words joined by single spaces split back into exactly those words. */
  lemma {:induction false} SplitJoin(xs: seq<string>)
    requires forall k :: 0 <= k < |xs| ==> IsWord(xs[k])
    ensures Split(Join(xs, " ")) == xs
    decreases |xs|
  {
    if |xs| == 1 {
      SplitWord(xs[0]);
    } else if |xs| > 1 {
      SplitAtSpace(xs[0], Join(xs[1..], " "));
      SplitWord(xs[0]);
      SplitJoin(xs[1..]);
    }
  }

  predicate IsSuffix(p: string, s: string) {
    |p| <= |s| && s[|s| - |p|..] == p
  }

  /** `os.path.join(a, b)` for two components on POSIX: `b` always ends the path; an absolute `b`
      replaces `a`, otherwise `a` starts it and a '/' is put between them if `a` lacks one. */
  function PathJoin(a: string, b: string): string {
    if |b| > 0 && b[0] == '/' then b
    else if a == [] || a[|a| - 1] == '/' then a + b
    else a + "/" + b
  }

  /** The joined path ends with `b`; an absolute `b` replaces `a`, otherwise `a` starts the path
      and at most one separator is put between them. */
  lemma PathJoinShape(a: string, b: string)
    ensures IsSuffix(b, PathJoin(a, b))
    ensures |b| > 0 && b[0] == '/' ==> PathJoin(a, b) == b
    ensures !(|b| > 0 && b[0] == '/') ==>
              IsPrefix(a, PathJoin(a, b)) && |a| <= |PathJoin(a, b)| - |b| <= |a| + 1
    ensures !(|b| > 0 && b[0] == '/') ==>
              (|PathJoin(a, b)| == |a| + |b| + 1 <==> a != [] && a[|a| - 1] != '/')
    ensures |PathJoin(a, b)| == |a| + |b| + 1 ==> PathJoin(a, b)[|a|] == '/'
  {
    var p := PathJoin(a, b);
    if !(|b| > 0 && b[0] == '/') {
      if a == [] || a[|a| - 1] == '/' {
        assert p[..|a|] == a;
        assert p[|p| - |b|..] == b;
      } else {
        assert p[..|a|] == a;
        assert p[|p| - |b|..] == b;
      }
    }
  }

  /** Python's `s[:-1]`. */
  function DropLast(s: string): (r: string)
    ensures |s| > 0 ==> r + [s[|s| - 1]] == s
    ensures |s| == 0 ==> r == s
  {
    if |s| == 0 then s else s[..|s| - 1]
  }

  /** Index just past the first line of a non-empty text: past its first '\n', or its end. */
  function LineEnd(s: string): (n: nat)
    requires s != []
    ensures 1 <= n <= |s|
    ensures forall j :: 0 <= j < n - 1 ==> s[j] != '\n'
    ensures n < |s| ==> s[n - 1] == '\n'
    decreases |s|
  {
    if s[0] == '\n' || |s| == 1 then 1 else 1 + LineEnd(s[1..])
  }

  /** `writelines`: the lines written one after another. */
  function Concat(ls: seq<string>): string
    decreases |ls|
  {
    if ls == [] then "" else ls[0] + Concat(ls[1..])
  }

  /** A line as `readlines` returns it: non-empty, with a '\n' at most as its last character. */
  predicate IsLine(l: string) {
    l != [] && forall j :: 0 <= j < |l| - 1 ==> l[j] != '\n'
  }

  /** Length of the leading run of characters other than `stop`. */
  function RunBefore(s: string, stop: char): (n: nat)
    ensures n <= |s|
    ensures forall i :: 0 <= i < n ==> s[i] != stop
    ensures n < |s| ==> s[n] == stop
    decreases |s|
  {
    if s == [] || s[0] == stop then 0 else 1 + RunBefore(s[1..], stop)
  }

  /** A text free of `stop`, followed by `stop`, is exactly the leading run. */
  lemma {:induction false} RunBeforeStop(w: string, stop: char, rest: string)
    requires forall i :: 0 <= i < |w| ==> w[i] != stop
    ensures RunBefore(w + [stop] + rest, stop) == |w|
    decreases |w|
  {
    if w != [] {
      assert (w + [stop] + rest)[1..] == w[1..] + [stop] + rest;
      RunBeforeStop(w[1..], stop, rest);
    }
  }

  /** `readlines`: the text cut after every '\n'. Writing the lines back gives the same text. */
  function SplitLines(s: string): (ls: seq<string>)
    ensures Concat(ls) == s
    ensures forall k :: 0 <= k < |ls| ==> IsLine(ls[k])
    ensures forall k :: 0 <= k < |ls| - 1 ==> ls[k] != [] && ls[k][|ls[k]| - 1] == '\n'
    decreases |s|
  {
    if s == [] then []
    else
      var n := LineEnd(s);
      assert s == s[..n] + s[n..];
      [s[..n]] + SplitLines(s[n..])
  }
}
