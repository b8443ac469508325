/**
 * The Python string operations the translator relies on, written over Dafny
 * strings (sequences of Unicode scalar values): `''.join`, `'\n'.join`,
 * `split('\n')`, `strip()` and `rfind`.
 */
module Strings {

  /** The total length of `pieces`. */
  function Lengths(pieces: seq<string>): nat
  {
    if |pieces| == 0 then 0 else |pieces[0]| + Lengths(pieces[1..])
  }

  /** `''.join(pieces)`: as long as the pieces together. */
  function Concat(pieces: seq<string>): (s: string)
    ensures |s| == Lengths(pieces)
  {
    if |pieces| == 0 then "" else pieces[0] + Concat(pieces[1..])
  }

  lemma {:induction false} ConcatAppend(pieces: seq<string>, last: string)
    ensures Concat(pieces + [last]) == Concat(pieces) + last
  {
    if |pieces| == 0 {
      assert pieces + [last] == [last];
    } else {
      assert (pieces + [last])[1..] == pieces[1..] + [last];
      ConcatAppend(pieces[1..], last);
    }
  }

  /** `'\n'.join(lines)`: the lines' characters plus one separator between each two lines. */
  function JoinLines(lines: seq<string>): (s: string)
    ensures |lines| > 0 ==> |s| == Lengths(lines) + |lines| - 1
    ensures |lines| == 0 ==> s == ""
  {
    if |lines| == 0 then ""
    else if |lines| == 1 then lines[0]
    else lines[0] + "\n" + JoinLines(lines[1..])
  }

  /**
   * `s.split('\n')`: the pieces between newlines. There is always one piece
   * more than there are newlines, so the empty string gives `[""]`.
   */
  function SplitLines(s: string): (pieces: seq<string>)
    ensures |pieces| >= 1
    ensures forall i :: 0 <= i < |pieces| ==> '\n' !in pieces[i]
  {
    if |s| == 0 then [""]
    else if s[0] == '\n' then [""] + SplitLines(s[1..])
    else
      var rest := SplitLines(s[1..]);
      [[s[0]] + rest[0]] + rest[1..]
  }

  /** Joining the pieces of a split gives back the text. */
  lemma {:induction false} JoinSplitLines(s: string)
    ensures JoinLines(SplitLines(s)) == s
  {
    if |s| == 0 {
    } else if s[0] == '\n' {
      JoinSplitLines(s[1..]);
      assert SplitLines(s) == [""] + SplitLines(s[1..]);
      assert s == "\n" + s[1..];
    } else {
      var rest := SplitLines(s[1..]);
      JoinSplitLines(s[1..]);
      if |rest| == 1 {
        assert SplitLines(s) == [[s[0]] + rest[0]];
      } else {
        assert SplitLines(s)[1..] == rest[1..];
        assert JoinLines(rest) == rest[0] + "\n" + JoinLines(rest[1..]);
      }
    }
  }

  /** Splitting a join of at least one newline-free line gives back the lines. */
  lemma {:induction false} SplitJoinLines(lines: seq<string>)
    requires |lines| >= 1
    requires forall i :: 0 <= i < |lines| ==> '\n' !in lines[i]
    ensures SplitLines(JoinLines(lines)) == lines
  {
    if |lines| == 1 {
      SplitNoNewline(lines[0]);
    } else {
      SplitJoinLines(lines[1..]);
      SplitPrefix(lines[0], JoinLines(lines[1..]));
      assert [lines[0]] + lines[1..] == lines;
    }
  }

  /** A text without newlines is one piece. */
  lemma {:induction false} SplitNoNewline(s: string)
    requires '\n' !in s
    ensures SplitLines(s) == [s]
  {
    if |s| > 0 {
      assert '\n' !in s[1..] by {
        forall i | 0 <= i < |s[1..]| ensures s[1..][i] != '\n' {
          assert s[1..][i] == s[i + 1];
        }
      }
      SplitNoNewline(s[1..]);
      assert [s[0]] + s[1..] == s;
    }
  }

  /** A newline-free line followed by a newline contributes exactly that line. */
  lemma {:induction false} SplitPrefix(line: string, rest: string)
    requires '\n' !in line
    ensures SplitLines(line + "\n" + rest) == [line] + SplitLines(rest)
  {
    if |line| == 0 {
      assert line + "\n" + rest == "\n" + rest;
      assert ("\n" + rest)[1..] == rest;
    } else {
      var s := line + "\n" + rest;
      assert s[0] == line[0] && s[0] != '\n';
      assert s[1..] == line[1..] + "\n" + rest;
      assert '\n' !in line[1..] by {
        forall i | 0 <= i < |line[1..]| ensures line[1..][i] != '\n' {
          assert line[1..][i] == line[i + 1];
        }
      }
      SplitPrefix(line[1..], rest);
      assert [line[0]] + line[1..] == line;
    }
  }

  /**
   * The characters Python's `str.strip()` removes: those with the Unicode
   * bidirectional class WS, B or S, and the space separators.
   */
  predicate IsSpace(c: char)
  {
    c in SpaceChars
  }

  const SpaceChars: set<char> := {
    '\t', '\n', '\U{B}', '\U{C}', '\r', '\U{1C}', '\U{1D}', '\U{1E}', '\U{1F}', ' ',
    '\U{85}', '\U{A0}', '\U{1680}',
    '\U{2000}', '\U{2001}', '\U{2002}', '\U{2003}', '\U{2004}', '\U{2005}',
    '\U{2006}', '\U{2007}', '\U{2008}', '\U{2009}', '\U{200A}',
    '\U{2028}', '\U{2029}', '\U{202F}', '\U{205F}', '\U{3000}'
  }

  /** The index of the first character at or after `i` that is not white space. */
  function SkipSpace(s: string, i: nat): (j: nat)
    requires i <= |s|
    ensures i <= j <= |s|
    decreases |s| - i
  {
    if i < |s| && IsSpace(s[i]) then SkipSpace(s, i + 1) else i
  }

  /** The end, not below `lo`, of `s[lo..j]` with its trailing white space removed. */
  function TrimEnd(s: string, lo: nat, j: nat): (k: nat)
    requires lo <= j <= |s|
    ensures lo <= k <= j
  {
    if lo < j && IsSpace(s[j - 1]) then TrimEnd(s, lo, j - 1) else j
  }

  /** The index at which `s.strip()` starts. */
  function StripStart(s: string): (i: nat)
    ensures i <= |s|
  {
    SkipSpace(s, 0)
  }

  /** The index at which `s.strip()` ends. */
  function StripEnd(s: string): (j: nat)
    ensures StripStart(s) <= j <= |s|
  {
    TrimEnd(s, StripStart(s), |s|)
  }

  /** `s.strip()`: a part of `s` that neither starts nor ends with white space. */
  function Strip(s: string): (r: string)
    ensures |r| <= |s|
    ensures r == [] || (!IsSpace(r[0]) && !IsSpace(r[|r| - 1]))
  {
    SkipSpaceSkipsSpace(s, 0);
    TrimEndTrimsSpace(s, StripStart(s), |s|);
    s[StripStart(s)..StripEnd(s)]
  }

  lemma {:induction false} SkipSpaceSkipsSpace(s: string, i: nat)
    requires i <= |s|
    ensures forall k :: i <= k < SkipSpace(s, i) ==> IsSpace(s[k])
    ensures SkipSpace(s, i) < |s| ==> !IsSpace(s[SkipSpace(s, i)])
    decreases |s| - i
  {
    if i < |s| && IsSpace(s[i]) {
      SkipSpaceSkipsSpace(s, i + 1);
    }
  }

  lemma {:induction false} TrimEndTrimsSpace(s: string, lo: nat, j: nat)
    requires lo <= j <= |s|
    ensures forall k :: TrimEnd(s, lo, j) <= k < j ==> IsSpace(s[k])
    ensures lo < TrimEnd(s, lo, j) ==> !IsSpace(s[TrimEnd(s, lo, j) - 1])
  {
    if lo < j && IsSpace(s[j - 1]) {
      TrimEndTrimsSpace(s, lo, j - 1);
    }
  }

  /**
   * `strip()` removes only white space at the ends of `s`; with the ensures
   * of `Strip`, it removes exactly that.
   */
  lemma StripRemovesSpace(s: string)
    ensures forall k :: 0 <= k < StripStart(s) ==> IsSpace(s[k])
    ensures forall k :: StripEnd(s) <= k < |s| ==> IsSpace(s[k])
  {
    SkipSpaceSkipsSpace(s, 0);
    TrimEndTrimsSpace(s, StripStart(s), |s|);
  }

  /** A text that neither starts nor ends with white space is its own `strip()`. */
  lemma StripTrimmed(s: string)
    requires s == [] || (!IsSpace(s[0]) && !IsSpace(s[|s| - 1]))
    ensures Strip(s) == s
  {
    assert s[0..|s|] == s;
  }

  /** A slice of a newline-free text is newline-free. */
  lemma NewlineFreeSlice(s: string, i: int, j: int)
    requires 0 <= i <= j <= |s|
    requires '\n' !in s
    ensures '\n' !in s[i..j]
  {
    forall k | 0 <= k < j - i ensures s[i..j][k] != '\n' {
      assert s[i..j][k] == s[i + k];
    }
  }

  /** `d` occurs in `s` starting at index `p`. */
  predicate OccursAt(s: string, d: string, p: int)
  {
    0 <= p && p + |d| <= |s| && s[p..p + |d|] == d
  }

  /** The last index `<= p` at which `d` occurs in `s`, or -1. */
  function RFindUpTo(s: string, d: string, p: int): (r: int)
    ensures -1 <= r
    ensures r == -1 || r <= p
    ensures r >= 0 ==> OccursAt(s, d, r)
    ensures forall q :: r < q <= p ==> !OccursAt(s, d, q)
    decreases p + 1
  {
    if p < 0 then -1
    else if OccursAt(s, d, p) then p
    else RFindUpTo(s, d, p - 1)
  }

  /** `s.rfind(d)`: the highest index at which `d` occurs in `s`, or -1. */
  function RFind(s: string, d: string): (r: int)
    ensures -1 <= r
    ensures r >= 0 ==> OccursAt(s, d, r)
    ensures forall q :: r < q ==> !OccursAt(s, d, q)
  {
    RFindUpTo(s, d, |s| - |d|)
  }
}
