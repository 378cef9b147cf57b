/** The string operations that the services rely on. */
module Text {
  /** White space as `strip` sees it. */
  predicate IsSpace(c: char) {
    var n := c as int;
    || 9 <= n <= 13 || 28 <= n <= 32 || n == 133 || n == 160 || n == 5760 || 8192 <= n <= 8202
    || n == 8232 || n == 8233 || n == 8239 || n == 8287 || n == 12288
  }

  /** Line boundaries as `splitlines` sees them. */
  predicate IsBreak(c: char) {
    var n := c as int;
    10 <= n <= 13 || 28 <= n <= 30 || n == 133 || n == 8232 || n == 8233
  }

  function LStrip(s: string): (r: string)
    ensures r == "" || !IsSpace(r[0])
    ensures |r| <= |s| && r == s[|s| - |r|..]
  {
    if s != "" && IsSpace(s[0]) then LStrip(s[1..]) else s
  }

  function RStrip(s: string): (r: string)
    ensures r == "" || !IsSpace(r[|r| - 1])
    ensures |r| <= |s| && r == s[..|r|]
  {
    if s != "" && IsSpace(s[|s| - 1]) then RStrip(s[..|s| - 1]) else s
  }

  function Strip(s: string): string {
    RStrip(LStrip(s))
  }

  predicate Trimmed(s: string) {
    s == "" || (!IsSpace(s[0]) && !IsSpace(s[|s| - 1]))
  }

  lemma StripTrims(s: string)
    ensures Trimmed(Strip(s))
    ensures Trimmed(s) ==> Strip(s) == s
    ensures |Strip(s)| <= |s|
  {
  }

  predicate StartsWith(s: string, prefix: string) {
    |prefix| <= |s| && s[..|prefix|] == prefix
  }

  predicate Contains(s: string, part: string) {
    exists i :: 0 <= i <= |s| && StartsWith(s[i..], part)
  }

  /** Case folding of the Latin letters. */
  function UpperChar(c: char): char {
    if 'a' <= c <= 'z' then (c as int - 32) as char else c
  }

  function LowerChar(c: char): char {
    if 'A' <= c <= 'Z' then (c as int + 32) as char else c
  }

  function Upper(s: string): (u: string)
    ensures |u| == |s| && forall i :: 0 <= i < |s| ==> u[i] == UpperChar(s[i])
  {
    if s == "" then "" else [UpperChar(s[0])] + Upper(s[1..])
  }

  function Lower(s: string): (l: string)
    ensures |l| == |s| && forall i :: 0 <= i < |s| ==> l[i] == LowerChar(s[i])
  {
    if s == "" then "" else [LowerChar(s[0])] + Lower(s[1..])
  }

  // ------------------------------------------------------------------------------------- lines

  /** Index of the first line boundary, or the length. */
  function FirstBreak(s: string): (i: nat)
    ensures i <= |s| && (i < |s| ==> IsBreak(s[i])) && forall k :: 0 <= k < i ==> !IsBreak(s[k])
  {
    if s == "" || IsBreak(s[0]) then 0 else 1 + FirstBreak(s[1..])
  }

  /** A carriage return before a line feed is one boundary. */
  function SplitLines(s: string): seq<string>
    decreases |s|
  {
    if s == "" then [] else
    var i := FirstBreak(s);
    if i == |s| then [s]
    else [s[..i]] + SplitLines(s[if s[i] == '\r' && i + 1 < |s| && s[i + 1] == '\n' then i + 2 else i + 1..])
  }

  function Join(lines: seq<string>): string {
    if lines == [] then "" else if |lines| == 1 then lines[0] else lines[0] + "\n" + Join(lines[1..])
  }

  predicate BreakFree(line: string) {
    forall k :: 0 <= k < |line| ==> !IsBreak(line[k])
  }

  lemma {:induction false} SplitIsBreakFree(s: string)
    ensures forall i :: 0 <= i < |SplitLines(s)| ==> BreakFree(SplitLines(s)[i])
    decreases |s|
  {
    if s != "" && FirstBreak(s) < |s| {
      var i := FirstBreak(s);
      SplitIsBreakFree(s[if s[i] == '\r' && i + 1 < |s| && s[i + 1] == '\n' then i + 2 else i + 1..]);
    }
  }

  lemma BreakAfterLine(line: string, rest: string)
    requires BreakFree(line)
    ensures var s := line + "\n" + rest;
            FirstBreak(s) == |line| && s[..|line|] == line && s[|line|] == '\n' && s[|line| + 1..] == rest
  {
    assert IsBreak('\n');
    hide IsBreak;
    var s := line + "\n" + rest;
    assert s[|line|] == '\n' && s[..|line|] == line && s[|line| + 1..] == rest;
    assert forall k :: 0 <= k < |line| ==> s[k] == line[k];
    assert forall k :: 0 <= k < |line| ==> !IsBreak(s[k]);
  }

  /** Splitting undoes joining, when the last line is not empty. */
  lemma {:induction false} SplitJoin(lines: seq<string>)
    requires forall i :: 0 <= i < |lines| ==> BreakFree(lines[i])
    requires lines != [] ==> lines[|lines| - 1] != ""
    ensures SplitLines(Join(lines)) == lines
  {
    if |lines| == 1 {
      assert FirstBreak(lines[0]) == |lines[0]|;
    } else if lines != [] {
      hide IsBreak, FirstBreak;
      SplitJoin(lines[1..]);
      BreakAfterLine(lines[0], Join(lines[1..]));
    }
  }

  lemma {:induction false} JoinLast(lines: seq<string>)
    requires |lines| > 1
    ensures Join(lines) == Join(lines[..|lines| - 1]) + "\n" + lines[|lines| - 1]
  {
    if |lines| > 2 {
      JoinLast(lines[1..]);
      assert lines[1..][..|lines| - 2] == lines[..|lines| - 1][1..];
    }
  }

  // ------------------------------------------------------------------- the operations, by what they mean

  lemma StartsWithExactly(s: string, prefix: string)
    ensures StartsWith(s, prefix) <==> exists rest :: s == prefix + rest
  {
    if StartsWith(s, prefix) {
      assert s == prefix + s[|prefix|..];
    }
  }

  lemma ContainsExactly(s: string, part: string)
    ensures Contains(s, part) <==> exists before, after :: s == before + part + after
  {
    if Contains(s, part) {
      var i :| 0 <= i <= |s| && StartsWith(s[i..], part);
      assert s == s[..i] + part + s[i + |part|..];
    }
    if before, after :| s == before + part + after {
      assert s[|before|..] == part + after;
      assert StartsWith(s[|before|..], part);
    }
  }

  predicate AllSpace(s: string) {
    forall i :: 0 <= i < |s| ==> IsSpace(s[i])
  }

  lemma {:induction false} LStripDropsSpace(s: string)
    ensures AllSpace(s[..|s| - |LStrip(s)|])
    decreases |s|
  {
    hide IsSpace;
    if s != "" && IsSpace(s[0]) {
      LStripDropsSpace(s[1..]);
      var n, m := |s| - |LStrip(s)|, |s[1..]| - |LStrip(s[1..])|;
      assert n == m + 1 && forall i :: 0 < i < n ==> s[..n][i] == s[1..][..m][i - 1];
    }
  }

  lemma {:induction false} RStripDropsSpace(s: string)
    ensures AllSpace(s[|RStrip(s)|..])
    decreases |s|
  {
    hide IsSpace;
    if s != "" && IsSpace(s[|s| - 1]) {
      var n, m := |RStrip(s)|, |s| - 1;
      RStripDropsSpace(s[..m]);
      assert forall i :: 0 <= i < m - n ==> s[n..][i] == s[..m][n..][i];
    }
  }

  lemma StripIs(s: string)
    ensures Strip(s) == RStrip(LStrip(s))
  {
  }

  lemma SliceOfTail(s: string, i: nat, k: nat)
    requires i + k <= |s|
    ensures s[i..][..k] == s[i..i + k] && s[i..][k..] == s[i + k..]
  {
  }

  /** Stripping takes white space off both ends, and all of it. */
  lemma StripExactly(s: string) returns (i: nat, j: nat)
    ensures i <= j <= |s| && Strip(s) == s[i..j] && Trimmed(Strip(s))
    ensures AllSpace(s[..i]) && AllSpace(s[j..])
  {
    hide *;
    var l := LStrip(s);
    var r := RStrip(l);
    StripIs(s);
    LStripDropsSpace(s);
    RStripDropsSpace(l);
    StripTrims(s);
    i := |s| - |l|;
    j := i + |r|;
    assert l == s[i..] && r == l[..|r|];
    SliceOfTail(s, i, |r|);
  }

  lemma Slices(a: string, b: string, c: string)
    ensures var s := a + (b + c);
            s[..|a|] == a && s[|a|..] == b + c && s[|a| + |b|..] == c
  {
    SliceOfTail(a + (b + c), |a|, |b|);
  }

  /** A line ends at its first boundary; a carriage return takes a following line feed with it. */
  lemma LineEndsAtBreak(line: string, sep: string, rest: string)
    requires BreakFree(line) && sep != "" && IsBreak(sep[0])
    requires if sep[0] == '\r' && |sep + rest| > 1 && (sep + rest)[1] == '\n' then |sep| == 2 else |sep| == 1
    ensures SplitLines(line + (sep + rest)) == [line] + SplitLines(rest)
  {
    BreakAt(line, sep + rest);
    Slices(line, sep, rest);
    hide IsBreak, FirstBreak, BreakFree;
    var s := line + (sep + rest);
    assert s[|line|] == (sep + rest)[0] == sep[0];
    assert |s| > |line| + 1 ==> s[|line| + 1] == (sep + rest)[1];
  }

  lemma BreakAt(line: string, rest: string)
    requires BreakFree(line) && rest != "" && IsBreak(rest[0])
    ensures FirstBreak(line + rest) == |line|
  {
    hide IsBreak;
    var s := line + rest;
    assert forall k :: 0 <= k < |line| ==> s[k] == line[k];
    assert forall k :: 0 <= k < |line| ==> !IsBreak(s[k]);
    assert s[|line|] == rest[0];
  }
}
