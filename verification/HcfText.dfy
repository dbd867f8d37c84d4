/** Text operations of the HCF format: lines, trimming, substring search
    (include/hipSYCL/common/hcf_container.hpp). */
module HcfText {
  /** Separates the text of a container from its binary data. */
  const APPENDIX: string := "__acpp_hcf_binary_appendix"

  // ---------------------------------------------------------------------------------------------
  // Substrings

  ghost predicate OccursAt(s: string, pat: string, i: int) {
    0 <= i <= i + |pat| <= |s| && s[i..i + |pat|] == pat
  }

  ghost predicate Contains(s: string, pat: string) {
    exists i :: OccursAt(s, pat, i)
  }

  /** A part of a string contains nothing that the string does not contain. */
  lemma PartContains(s: string, lo: nat, hi: nat, pat: string)
    requires lo <= hi <= |s| && Contains(s[lo..hi], pat)
    ensures Contains(s, pat)
  {
    var i :| OccursAt(s[lo..hi], pat, i);
    PartOfPart(s, lo, hi, i, i + |pat|);
    assert OccursAt(s, pat, lo + i);
  }

  lemma PartOfPart<T>(s: seq<T>, lo: nat, hi: nat, a: nat, b: nat)
    requires lo <= hi <= |s| && a <= b <= hi - lo
    ensures s[lo..hi][a..b] == s[lo + a..lo + b]
  {
    var x, y := s[lo..hi][a..b], s[lo + a..lo + b];
    assert |x| == |y|;
    forall k | 0 <= k < b - a ensures x[k] == y[k] {
      assert x[k] == s[lo..hi][a + k];
    }
  }

  lemma CharOfOccurrence(s: string, pat: string, i: nat, k: nat)
    requires OccursAt(s, pat, i) && i <= k < i + |pat|
    ensures s[k] in pat
  {
    assert s[k] == s[i..i + |pat|][k - i];
  }

  /** A pattern without the separator cannot stretch across it. */
  lemma SeparatedContains(a: string, c: char, b: string, pat: string)
    requires c !in pat && Contains(a + [c] + b, pat)
    ensures Contains(a, pat) || Contains(b, pat)
  {
    var s := a + [c] + b;
    var i :| OccursAt(s, pat, i);
    if i + |pat| <= |a| {
      assert a[i..i + |pat|] == s[i..i + |pat|];
      assert OccursAt(a, pat, i);
    } else if i > |a| {
      var k := i - |a| - 1;
      assert b[k..k + |pat|] == s[i..i + |pat|];
      assert OccursAt(b, pat, k);
    } else {
      CharOfOccurrence(s, pat, i, |a|);
    }
  }

  /** std::string::find: the first occurrence, or the length of the text if there is none. */
  method Find(s: string, pat: string) returns (i: nat)
    ensures i <= |s|
    ensures forall k :: OccursAt(s, pat, k) ==> k >= i
    ensures OccursAt(s, pat, i) || (i == |s| && !Contains(s, pat))
  {
    i := 0;
    while i + |pat| <= |s|
      invariant i <= |s| + 1
      invariant forall k :: OccursAt(s, pat, k) ==> k >= i
    {
      if s[i..i + |pat|] == pat {
        return;
      }
      i := i + 1;
    }
    i := |s|;
  }

  // ---------------------------------------------------------------------------------------------
  // Trimming

  predicate IsSpace(c: char) {
    c == ' ' || c == '\t' || c == '\n' || c == '\r' || c == '\U{000B}' || c == '\U{000C}'
  }

  /** The characters that isspace accepts in the classic locale, by code: tab to carriage return, and blank. */
  lemma IsSpaceByCode(c: char)
    ensures IsSpace(c) <==> 9 <= c as int <= 13 || c as int == 32
  {
    assert ' ' as int == 32 && '\t' as int == 9 && '\n' as int == 10 && '\r' as int == 13;
    assert '\U{000B}' as int == 11 && '\U{000C}' as int == 12;
    if 9 <= c as int <= 13 {
      assert c == '\t' || c == '\n' || c == '\U{000B}' || c == '\U{000C}' || c == '\r';
    }
  }

  /** The position of the first character from `i` on that is not white space. */
  function FirstText(s: string, i: nat): (k: nat)
    requires i <= |s|
    ensures i <= k <= |s| && (k < |s| ==> !IsSpace(s[k]))
    decreases |s| - i
  {
    if i < |s| && IsSpace(s[i]) then FirstText(s, i + 1) else i
  }

  /** The position behind the last character before `i` that is not white space. */
  function LastText(s: string, i: nat): (k: nat)
    requires i <= |s|
    ensures k <= i && (k > 0 ==> !IsSpace(s[k - 1]))
  {
    if i > 0 && IsSpace(s[i - 1]) then LastText(s, i - 1) else i
  }

  function TrimLeft(s: string): string {
    s[FirstText(s, 0)..]
  }

  function TrimRight(s: string): string {
    s[..LastText(s, |s|)]
  }

  function Trim(s: string): string {
    TrimRight(TrimLeft(s))
  }

  /** Not empty, and no white space at either end. */
  predicate Trimmed(s: string) {
    s != "" && !IsSpace(s[0]) && !IsSpace(s[|s| - 1])
  }

  lemma TrimIsPart(s: string) returns (lo: nat, hi: nat)
    ensures lo <= hi <= |s| && Trim(s) == s[lo..hi] && (Trim(s) == "" || Trimmed(Trim(s)))
  {
    var l := TrimLeft(s);
    lo := FirstText(s, 0);
    hi := lo + LastText(l, |l|);
    assert Trim(s) == s[lo..hi];
  }

  lemma TrimOfTrimmed(s: string)
    requires Trimmed(s)
    ensures Trim(s) == s
  {
    assert s[0..] == s;
    assert s[..|s|] == s;
  }

  // ---------------------------------------------------------------------------------------------
  // Lines

  predicate OneLine(s: string) {
    '\n' !in s
  }

  /** Every line followed by a line break. */
  function Text(lines: seq<string>): string {
    if lines == [] then "" else lines[0] + "\n" + Text(lines[1..])
  }

  function LineEnd(s: string, i: nat): (j: nat)
    requires i <= |s|
    ensures i <= j <= |s| && (j < |s| ==> s[j] == '\n') && OneLine(s[i..j])
    decreases |s| - i
  {
    if i == |s| || s[i] == '\n' then i
    else
      var j := LineEnd(s, i + 1);
      assert s[i..j] == [s[i]] + s[i + 1..j];
      j
  }

  /** The lines that std::getline delivers from position `i` on. */
  function LinesFrom(s: string, i: nat): (lines: seq<string>)
    requires i <= |s|
    decreases |s| - i
  {
    if i == |s| then []
    else
      [s[i..LineEnd(s, i)]] + LinesFrom(s, NextLine(s, i))
  }

  /** The position behind the line that starts at `i`. */
  function NextLine(s: string, i: nat): (j: nat)
    requires i < |s|
    ensures i < j <= |s|
  {
    if LineEnd(s, i) < |s| then LineEnd(s, i) + 1 else |s|
  }

  /** The trimmed, non-empty lines. */
  function Clean(lines: seq<string>): (r: seq<string>) {
    if lines == [] then []
    else
      var l := Trim(lines[0]);
      (if l == "" then [] else [l]) + Clean(lines[1..])
  }

  /** The line loop of parse. */
  method SplitLines(data: string) returns (lines: seq<string>)
    ensures lines == Clean(LinesFrom(data, 0))
  {
    lines := [];
    var i: nat := 0;
    ghost var all := Clean(LinesFrom(data, 0));
    while i < |data|
      invariant i <= |data|
      invariant lines + Clean(LinesFrom(data, i)) == all
    {
      var line := Trim(data[i..LineEnd(data, i)]);
      CleanPrefix(lines, data, i);
      if line != "" {
        lines := lines + [line];
      }
      i := NextLine(data, i);
    }
  }

  /** The clean lines from one line on. */
  lemma CleanStep(s: string, i: nat)
    requires i < |s|
    ensures var line := Trim(s[i..LineEnd(s, i)]);
            Clean(LinesFrom(s, i)) == (if line == "" then [] else [line]) + Clean(LinesFrom(s, NextLine(s, i)))
  {
    var rest := LinesFrom(s, NextLine(s, i));
    assert ([s[i..LineEnd(s, i)]] + rest)[1..] == rest;
  }

  lemma CleanPrefix(lines: seq<string>, s: string, i: nat)
    requires i < |s|
    ensures var line := Trim(s[i..LineEnd(s, i)]);
            lines + Clean(LinesFrom(s, i)) == (if line == "" then lines
              else lines + [line]) + Clean(LinesFrom(s, NextLine(s, i)))
  {
    CleanStep(s, i);
  }

  lemma {:induction false} LineEndStops(s: string, i: nat, j: nat)
    requires i <= j < |s| && OneLine(s[i..j]) && s[j] == '\n'
    ensures LineEnd(s, i) == j
    decreases j - i
  {
    if i < j {
      assert s[i] == s[i..j][0];
      assert s[i + 1..j] == s[i..j][1..];
      LineEndStops(s, i + 1, j);
    }
  }

  /** Reading the lines of a text gives back the lines. */
  lemma {:induction false} LinesOfText(before: string, lines: seq<string>)
    requires forall l :: l in lines ==> OneLine(l)
    ensures LinesFrom(before + Text(lines), |before|) == lines
    decreases |lines|
  {
    if lines == [] {
      assert before + Text(lines) == before;
    } else {
      var before' := before + lines[0] + "\n";
      assert before + Text(lines) == before' + Text(lines[1..]);
      FirstLine(before, lines[0], Text(lines[1..]));
      LinesOfText(before', lines[1..]);
    }
  }

  lemma FirstLine(before: string, l: string, rest: string)
    requires OneLine(l)
    ensures var s := before + l + "\n" + rest;
            LineEnd(s, |before|) == |before| + |l| && s[|before|..|before| + |l|] == l
              && NextLine(s, |before|) == |before + l + "\n"|
  {
    var s := before + l + "\n" + rest;
    assert s[|before|..|before| + |l|] == l;
    LineEndStops(s, |before|, |before| + |l|);
  }

  lemma {:induction false} CleanIsIdentity(lines: seq<string>)
    requires forall l :: l in lines ==> Trimmed(l)
    ensures Clean(lines) == lines
  {
    if lines != [] {
      assert lines[0] in lines;
      TrimOfTrimmed(lines[0]);
      CleanIsIdentity(lines[1..]);
      assert Clean(lines) == [lines[0]] + lines[1..];
    }
  }

  /** Clean lines are trimmed one-line parts of the text. */
  lemma {:induction false} CleanLinesAreParts(s: string, i: nat, l: string)
    requires i <= |s| && l in Clean(LinesFrom(s, i))
    ensures Trimmed(l) && OneLine(l) && exists lo, hi :: 0 <= lo <= hi <= |s| && l == s[lo..hi]
    decreases |s| - i
  {
    var line := s[i..LineEnd(s, i)];
    CleanStep(s, i);
    if l != Trim(line) || l == "" {
      CleanLinesAreParts(s, NextLine(s, i), l);
    } else {
      TrimmedPart(s, i, LineEnd(s, i));
    }
  }

  lemma TrimmedPart(s: string, i: nat, j: nat)
    requires i <= j <= |s| && OneLine(s[i..j]) && Trim(s[i..j]) != ""
    ensures var l := Trim(s[i..j]); Trimmed(l) && OneLine(l) && exists lo, hi :: 0 <= lo <= hi <= |s| && l == s[lo..hi]
  {
    var lo, hi := TrimIsPart(s[i..j]);
    PartOfPart(s, i, j, lo, hi);
    assert Trim(s[i..j]) == s[i + lo..i + hi];
  }

  /** A text contains a one-line pattern only if one of its lines does. */
  lemma {:induction false} TextContains(lines: seq<string>, pat: string)
    requires OneLine(pat) && pat != "" && Contains(Text(lines), pat)
    ensures exists l :: l in lines && Contains(l, pat)
  {
    if lines != [] {
      assert Text(lines) == lines[0] + ['\n'] + Text(lines[1..]);
      SeparatedContains(lines[0], '\n', Text(lines[1..]), pat);
      if Contains(lines[0], pat) {
        assert lines[0] in lines;
      } else {
        TextContains(lines[1..], pat);
        var l :| l in lines[1..] && Contains(l, pat);
        assert l in lines;
      }
    }
  }
}
