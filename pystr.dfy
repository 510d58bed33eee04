/**
 * The parts of Python's `str` that the forwarder relies on: `isspace`,
 * `strip`, `splitlines`, `"sep".join`, `in` on substrings and
 * `split(c)[0]`, written out over `seq<char>`.
 */
module PyStr {

  /** `c.isspace()`: Unicode White_Space plus the separators U+001C..U+001F. */
  predicate IsSpace(c: char) {
    c == ' ' || ('\t' <= c <= '\r') || ('\U{1C}' <= c <= '\U{1F}')
    || c == '\U{85}' || c == '\U{A0}' || c == '\U{1680}'
    || ('\U{2000}' <= c <= '\U{200A}') || c == '\U{2028}' || c == '\U{2029}'
    || c == '\U{202F}' || c == '\U{205F}' || c == '\U{3000}'
  }

  /** The characters at which `str.splitlines` breaks a line. */
  predicate IsLineBreak(c: char) {
    ('\n' <= c <= '\r') || ('\U{1C}' <= c <= '\U{1E}')
    || c == '\U{85}' || c == '\U{2028}' || c == '\U{2029}'
  }

  predicate AllSpace(s: string) {
    forall i :: 0 <= i < |s| ==> IsSpace(s[i])
  }

  /** Neither the first nor the last character is whitespace. */
  predicate Trimmed(s: string) {
    s == [] || (!IsSpace(s[0]) && !IsSpace(s[|s| - 1]))
  }

  predicate NoLineBreak(s: string) {
    forall i :: 0 <= i < |s| ==> !IsLineBreak(s[i])
  }

  /** `s.lstrip()`: drops the leading whitespace, keeps the rest. */
  function LStrip(s: string): (r: string)
    ensures |r| <= |s| && r == s[|s| - |r|..]
    ensures AllSpace(s[..|s| - |r|])
    ensures r == [] || !IsSpace(r[0])
  {
    if s != [] && IsSpace(s[0]) then
      var r := LStrip(s[1..]);
      SuffixOfTail(s, r);
      AllSpaceCons(s[0], s[1..][..|s| - 1 - |r|]);
      r
    else s
  }

  /** A suffix of the tail is a suffix, and what the tail keeps before it follows the head. */
  lemma SuffixOfTail<T>(s: seq<T>, r: seq<T>)
    requires s != [] && |r| <= |s| - 1 && r == s[1..][|s| - 1 - |r|..]
    ensures r == s[|s| - |r|..] && s[..|s| - |r|] == [s[0]] + s[1..][..|s| - 1 - |r|]
  {
  }

  lemma AllSpaceCons(c: char, t: string)
    requires IsSpace(c) && AllSpace(t)
    ensures AllSpace([c] + t)
  {
    assert forall i :: 0 < i < |[c] + t| ==> ([c] + t)[i] == t[i - 1];
  }

  /** `s.rstrip()`: drops the trailing whitespace, keeps the rest. */
  function RStrip(s: string): (r: string)
    ensures |r| <= |s| && r == s[..|r|]
    ensures AllSpace(s[|r|..])
    ensures r == [] || !IsSpace(r[|r| - 1])
  {
    if s != [] && IsSpace(s[|s| - 1]) then
      var r := RStrip(s[..|s| - 1]);
      PrefixOfInit(s, r);
      AllSpaceSnoc(s[..|s| - 1][|r|..], s[|s| - 1]);
      r
    else s
  }

  /** A prefix of all but the last element is a prefix, and what follows it ends with that element. */
  lemma PrefixOfInit<T>(s: seq<T>, r: seq<T>)
    requires s != [] && |r| <= |s| - 1 && r == s[..|s| - 1][..|r|]
    ensures r == s[..|r|] && s[|r|..] == s[..|s| - 1][|r|..] + [s[|s| - 1]]
  {
  }

  lemma AllSpaceSnoc(t: string, c: char)
    requires AllSpace(t) && IsSpace(c)
    ensures AllSpace(t + [c])
  {
    assert forall i :: 0 <= i < |t| ==> (t + [c])[i] == t[i];
  }

  /** `s.strip()`. */
  function Strip(s: string): (r: string)
    ensures Trimmed(r)
    ensures r == [] <==> AllSpace(s)
    ensures Trimmed(s) ==> r == s
  {
    var l := LStrip(s);
    var r := RStrip(l);
    assert r == [] ==> l == [] by {
      if l != [] { assert !IsSpace(l[0]); }
    }
    assert Trimmed(s) ==> r == s by {
      if Trimmed(s) && s != [] {
        assert l == s;
      }
    }
    r
  }

  /**
   * `strip` leaves an infix of the text: the `a` leading whitespace
   * characters come off the front, and only whitespace follows it.
   */
  lemma StripInfix(s: string)
    ensures var r, a := Strip(s), |s| - |LStrip(s)|;
      a + |r| <= |s| && r == s[a..][..|r|] && AllSpace(s[..a]) && AllSpace(s[a..][|r|..])
  {
    var l := LStrip(s);
    assert s[|s| - |l|..] == l;
  }

  /** Whitespace at the end does not change what `strip` gives. */
  lemma {:induction false} StripTrailingSpace(s: string, c: char)
    requires IsSpace(c)
    ensures Strip(s + [c]) == Strip(s)
  {
    if AllSpace(s) {
      AllSpaceSnoc(s, c);
    } else {
      var l := LStrip(s);
      LStripAppend(s, c);
      RStripSnoc(l, c);
    }
  }

  lemma RStripSnoc(l: string, c: char)
    requires IsSpace(c)
    ensures RStrip(l + [c]) == RStrip(l)
  {
    InitOfSnoc(l, c);
  }

  lemma InitOfSnoc<T>(l: seq<T>, c: T)
    ensures (l + [c])[|l + [c]| - 1] == c && (l + [c])[..|l + [c]| - 1] == l
  {
  }

  /** Any run of whitespace at the end does not change what `strip` gives. */
  lemma {:induction false} StripTrailingSpaces(s: string, w: string)
    requires AllSpace(w)
    ensures Strip(s + w) == Strip(s)
    decreases |w|
  {
    if w != [] {
      var init := w[..|w| - 1];
      assert AllSpace(init);
      assert s + w == (s + init) + [w[|w| - 1]];
      StripTrailingSpace(s + init, w[|w| - 1]);
      StripTrailingSpaces(s, init);
    } else {
      assert s + w == s;
    }
  }

  /** When `s` is not all whitespace, `lstrip` and appending commute. */
  lemma {:induction false} LStripAppend(s: string, c: char)
    requires !AllSpace(s)
    ensures LStrip(s + [c]) == LStrip(s) + [c]
  {
    assert s != [];
    if IsSpace(s[0]) {
      assert (s + [c])[1..] == s[1..] + [c];
      assert !AllSpace(s[1..]) by {
        var i :| 0 <= i < |s| && !IsSpace(s[i]);
        assert s[1..][i - 1] == s[i];
      }
      LStripAppend(s[1..], c);
    }
  }

  /** `sub in s`. */
  predicate Contains(s: string, sub: string) {
    StartsWith(s, sub) || (s != [] && Contains(s[1..], sub))
  }

  predicate StartsWith(s: string, prefix: string) {
    |prefix| <= |s| && s[..|prefix|] == prefix
  }

  /** `s.split(c)[0]`: everything before the first `c`, or all of `s`. */
  function BeforeFirst(s: string, c: char): (r: string)
    ensures StartsWith(s, r) && c !in r
    ensures |r| < |s| ==> s[|r|] == c
  {
    if s == [] || s[0] == c then [] else [s[0]] + BeforeFirst(s[1..], c)
  }

  /** `sep.join(parts)`. */
  function Join(parts: seq<string>, sep: string): string {
    if parts == [] then []
    else if |parts| == 1 then parts[0]
    else parts[0] + sep + Join(parts[1..], sep)
  }

  /** The index of the first line break in `s`, or `|s|` when there is none. */
  function LineEnd(s: string): (k: nat)
    ensures k <= |s| && NoLineBreak(s[..k])
    ensures k < |s| ==> IsLineBreak(s[k])
  {
    if s == [] || IsLineBreak(s[0]) then 0
    else
      var k := 1 + LineEnd(s[1..]);
      assert s[..k] == [s[0]] + s[1..][..k - 1];
      k
  }

  /**
   * `s.splitlines()`: the lines of `s` without their terminators; "\r\n"
   * ends one line, and a terminator at the very end opens no new line.
   */
  function SplitLines(s: string): (lines: seq<string>)
    ensures lines == [] <==> s == []
    decreases |s|
  {
    if s == [] then []
    else
      var k := LineEnd(s);
      [s[..k]] + SplitLines(s[NextLine(s, k)..])
  }

  /** Where the line that ends at `k` is followed by the next one. */
  function NextLine(s: string, k: nat): (next: nat)
    requires k <= |s|
    ensures k < next <= |s| || next == k == |s|
  {
    if k == |s| then k
    else if s[k] == '\r' && k + 1 < |s| && s[k + 1] == '\n' then k + 2
    else k + 1
  }

  /** `lines[:n]`. */
  function Take<T>(lines: seq<T>, n: nat): (r: seq<T>)
    ensures |r| <= n && |r| <= |lines| && r == lines[..|r|]
    ensures |lines| <= n ==> r == lines
    ensures |r| == if |lines| <= n then |lines| else n
  {
    if |lines| <= n then lines else lines[..n]
  }

  /**
   * Splitting a text whose only line breaks are "\n" and that does not
   * end with one, then joining with "\n", gives the text back.
   */
  lemma {:induction false} JoinSplitLines(s: string)
    requires forall i :: 0 <= i < |s| && IsLineBreak(s[i]) ==> s[i] == '\n'
    requires s == [] || !IsLineBreak(s[|s| - 1])
    ensures Join(SplitLines(s), "\n") == s
    decreases |s|
  {
    if s != [] {
      var k := LineEnd(s);
      if k == |s| {
        SplitOneLine(s);
      } else {
        var rest := s[k + 1..];
        assert rest == [] || !IsLineBreak(rest[|rest| - 1]) by {
          assert rest != [] && rest[|rest| - 1] == s[|s| - 1];
        }
        assert forall i :: 0 <= i < |rest| && IsLineBreak(rest[i]) ==> rest[i] == '\n' by {
          forall i | 0 <= i < |rest| && IsLineBreak(rest[i]) ensures rest[i] == '\n' {
            assert rest[i] == s[k + 1 + i];
          }
        }
        JoinSplitLines(rest);
        SplitAtNewline(s);
        JoinSplitStep(s, k, SplitLines(rest));
      }
    }
  }

  /** One step of JoinSplitLines: the first line, "\n", and the rest. */
  lemma JoinSplitStep(s: string, k: nat, lines: seq<string>)
    requires k + 1 < |s| && s[k] == '\n' && lines != []
    requires Join(lines, "\n") == s[k + 1..]
    ensures Join([s[..k]] + lines, "\n") == s
  {
    var rest := s[k + 1..];
    assert ([s[..k]] + lines)[1..] == lines;
    assert s == s[..k] + "\n" + rest by {
      assert s[k..] == [s[k]] + rest;
      assert s == s[..k] + s[k..];
    }
  }

  /** A line ended by a plain "\n" is split off on its own. */
  lemma SplitAtNewline(s: string)
    requires LineEnd(s) < |s| && s[LineEnd(s)] == '\n'
    ensures SplitLines(s) == [s[..LineEnd(s)]] + SplitLines(s[LineEnd(s) + 1..])
  {
    assert NextLine(s, LineEnd(s)) == LineEnd(s) + 1;
  }

  /** A non-empty text without line breaks is one line. */
  lemma SplitOneLine(s: string)
    requires s != [] && NoLineBreak(s)
    ensures SplitLines(s) == [s]
  {
    var k := LineEnd(s);
    assert k == |s|;
    assert s[..k] == s;
    assert s[k..] == [];
  }
}
