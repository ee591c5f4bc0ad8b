/** Strings as Python sees them: whitespace, strip, and the characters that are left when whitespace is ignored. */
module Text {

  /** str.isspace on one character; the regular expression class \s is the same set. */
  predicate IsSpace(c: char) {
    var n := c as int;
    9 <= n <= 13 || 28 <= n <= 32 || n == 0x85 || n == 0xA0 || n == 0x1680 || 0x2000 <= n <= 0x200A
    || n == 0x2028 || n == 0x2029 || n == 0x202F || n == 0x205F || n == 0x3000
  }

  predicate Blank(s: string) { forall i :: 0 <= i < |s| ==> IsSpace(s[i]) }

  function StripLeft(s: string): string {
    if s != "" && IsSpace(s[0]) then StripLeft(s[1..]) else s
  }

  function StripRight(s: string): string {
    if s != "" && IsSpace(s[|s| - 1]) then StripRight(s[..|s| - 1]) else s
  }

  function Strip(s: string): string { StripRight(StripLeft(s)) }

  /** Every run of whitespace becomes one space. */
  function Collapsed(s: string): string {
    if s == "" then ""
    else
      var n := |s| - 1;
      Collapsed(s[..n])
      + (if !IsSpace(s[n]) then [s[n]] else if n > 0 && IsSpace(s[n - 1]) then "" else " ")
  }

  /** The characters at which str.splitlines ends a line; all of them are whitespace. */
  predicate IsBreak(c: char) {
    var n := c as int;
    10 <= n <= 13 || 28 <= n <= 30 || n == 0x85 || n == 0x2028 || n == 0x2029
  }

  function BreakAt(s: string): (i: nat)
    ensures i <= |s| && (i < |s| ==> IsBreak(s[i]))
  {
    if s == "" || IsBreak(s[0]) then 0 else 1 + BreakAt(s[1..])
  }

  function SplitLines(s: string): seq<string>
    decreases |s|
  {
    if s == "" then []
    else
      var i := BreakAt(s);
      if i == |s| then [s] else [s[..i]] + SplitLines(s[PastBreak(s, i)..])
  }

  /** A carriage return and the line feed after it are one line end. */
  function PastBreak(s: string, i: nat): (e: nat)
    requires i < |s| && IsBreak(s[i])
    ensures i < e <= |s| && forall k :: i <= k < e ==> IsSpace(s[k])
  {
    if s[i] == '\r' && i + 1 < |s| && s[i + 1] == '\n' then i + 2 else i + 1
  }

  /** "\n".join(lines) */
  function Join(lines: seq<string>): string {
    if lines == [] then "" else if |lines| == 1 then lines[0] else lines[0] + "\n" + Join(lines[1..])
  }

  lemma BlankParts(s: string, i: nat)
    requires i <= |s| && Blank(s[..i]) && Blank(s[i..])
    ensures Blank(s)
  {
    forall k | 0 <= k < |s| ensures IsSpace(s[k]) {
      assert s[k] == if k < i then s[..i][k] else s[i..][k - i];
    }
  }

  lemma {:induction false} StripLeftCuts(s: string)
    ensures var r := StripLeft(s);
            && |r| <= |s| && r == s[|s| - |r|..] && Blank(s[..|s| - |r|])
            && (r != "" ==> !IsSpace(r[0]))
  {
    if s != "" && IsSpace(s[0]) {
      StripLeftCuts(s[1..]);
      var n := |s| - |StripLeft(s)|;
      assert s[..n][..1] == [s[0]] && s[..n][1..] == s[1..][..n - 1];
      BlankParts(s[..n], 1);
    } else {
      assert s[..0] == "";
    }
  }

  lemma {:induction false} StripRightCuts(s: string)
    ensures var r := StripRight(s);
            && |r| <= |s| && r == s[..|r|] && Blank(s[|r|..])
            && (r != "" ==> !IsSpace(r[|r| - 1]))
  {
    if s != "" && IsSpace(s[|s| - 1]) {
      var front := s[..|s| - 1];
      StripRightCuts(front);
      var n := |StripRight(s)|;
      assert s[n..][..|front| - n] == front[n..] && s[n..][|front| - n..] == [s[|s| - 1]];
      BlankParts(s[n..], |front| - n);
    } else {
      assert s[|s|..] == "";
    }
  }

  /** Strip cuts whitespace off both ends and nothing else. */
  lemma StripCuts(s: string) returns (left: nat)
    ensures var r := Strip(s);
            && left + |r| <= |s| && r == s[left..left + |r|]
            && Blank(s[..left]) && Blank(s[left + |r|..])
            && (r != "" ==> !IsSpace(r[0]) && !IsSpace(r[|r| - 1]))
            && (r == "" <==> Blank(s))
  {
    var l := StripLeft(s);
    StripLeftCuts(s);
    StripRightCuts(l);
    left := |s| - |l|;
    var r := Strip(s);
    assert l[..|r|] == s[left..left + |r|] && l[|r|..] == s[left + |r|..];
    if r != "" {
      assert r[0] == l[0] == s[left];
    } else {
      BlankParts(s, left);
    }
  }

  lemma StripStripped(s: string)
    ensures Strip(Strip(s)) == Strip(s)
  {
    var _ := StripCuts(s);
    StripNothing(Strip(s));
  }

  lemma StripNothing(s: string)
    requires s != "" ==> !IsSpace(s[0]) && !IsSpace(s[|s| - 1])
    ensures Strip(s) == s
  {
  }

  /** The characters of a text that are not whitespace, in order. */
  function Solid(s: string): string {
    if s == "" then "" else if IsSpace(s[0]) then Solid(s[1..]) else [s[0]] + Solid(s[1..])
  }

  function SolidAll(parts: seq<string>): string {
    if parts == [] then "" else Solid(parts[0]) + SolidAll(parts[1..])
  }

  lemma {:induction false} SolidConcat(a: string, b: string)
    ensures Solid(a + b) == Solid(a) + Solid(b)
  {
    if a == "" {
      assert a + b == b;
    } else {
      assert (a + b)[1..] == a[1..] + b;
      SolidConcat(a[1..], b);
    }
  }

  lemma {:induction false} SolidAllConcat(a: seq<string>, b: seq<string>)
    ensures SolidAll(a + b) == SolidAll(a) + SolidAll(b)
  {
    if a == [] {
      assert a + b == b;
    } else {
      assert (a + b)[1..] == a[1..] + b;
      SolidAllConcat(a[1..], b);
    }
  }

  lemma {:induction false} SolidBlank(s: string)
    ensures Solid(s) == "" <==> Blank(s)
  {
    if s != "" {
      SolidBlank(s[1..]);
      if Blank(s[1..]) && IsSpace(s[0]) {
        forall i | 0 <= i < |s| ensures IsSpace(s[i]) {
          assert i > 0 ==> IsSpace(s[1..][i - 1]);
        }
      }
    }
  }

  lemma SolidStrip(s: string)
    ensures Solid(Strip(s)) == Solid(s)
  {
    var left := StripCuts(s);
    var r := Strip(s);
    var right := left + |r|;
    assert s == s[..left] + (r + s[right..]);
    SolidConcat(s[..left], r + s[right..]);
    SolidConcat(r, s[right..]);
    SolidBlank(s[..left]);
    SolidBlank(s[right..]);
  }

  lemma SolidStripRight(s: string)
    ensures Solid(StripRight(s)) == Solid(s)
  {
    StripRightCuts(s);
    var n := |StripRight(s)|;
    SolidSplit(s, n);
    SolidBlank(s[n..]);
  }

  lemma {:induction false} SolidCollapsed(s: string)
    ensures Solid(Collapsed(s)) == Solid(s)
  {
    if s != "" {
      var n := |s| - 1;
      SolidCollapsed(s[..n]);
      var tail := if !IsSpace(s[n]) then [s[n]] else if n > 0 && IsSpace(s[n - 1]) then "" else " ";
      SolidConcat(Collapsed(s[..n]), tail);
      SolidConcat(s[..n], [s[n]]);
      InitLast(s);
      assert Solid(tail) == Solid([s[n]]);
    }
  }

  lemma TakeDrop<T>(s: seq<T>, i: nat)
    requires i <= |s|
    ensures s[..i] + s[i..] == s
  {
  }

  lemma SolidSplit(s: string, i: nat)
    requires i <= |s|
    ensures Solid(s) == Solid(s[..i]) + Solid(s[i..])
  {
    TakeDrop(s, i);
    SolidConcat(s[..i], s[i..]);
  }

  lemma InitLast<T>(s: seq<T>)
    requires s != []
    ensures s[..|s| - 1] + [s[|s| - 1]] == s
  {
  }

  // ---- lines ----

  const BREAKS := "\n\r\U{0B}\U{0C}\U{1C}\U{1D}\U{1E}\U{85}\U{2028}\U{2029}"

  lemma BreaksAre(c: char)
    ensures IsBreak(c) <==> c in BREAKS
    ensures IsBreak(c) ==> IsSpace(c)
  {
    var n := c as int;
    assert BREAKS[0] == '\n' && BREAKS[1] == '\r' && BREAKS[2] == 11 as char && BREAKS[3] == 12 as char;
    assert BREAKS[4] == 28 as char && BREAKS[5] == 29 as char && BREAKS[6] == 30 as char;
    assert BREAKS[7] == 0x85 as char && BREAKS[8] == 0x2028 as char && BREAKS[9] == 0x2029 as char;
  }

  predicate OneLineOnly(line: string) { forall i :: 0 <= i < |line| ==> !IsBreak(line[i]) }

  lemma {:induction false} BreakIsFirst(s: string, rest: string, i: nat)
    requires i < |s| && IsBreak(s[i]) && forall j :: 0 <= j < i ==> !IsBreak(s[j])
    ensures BreakAt(s + rest) == i
  {
    if i > 0 {
      assert (s + rest)[1..] == s[1..] + rest;
      BreakIsFirst(s[1..], rest, i - 1);
    }
  }

  lemma SplitFirst(line: string, rest: string)
    requires forall i :: 0 <= i < |line| ==> !IsBreak(line[i])
    ensures SplitLines(line + "\n" + rest) == [line] + SplitLines(rest)
  {
    var s := line + "\n";
    BreakIsFirst(s, rest, |line|);
    assert (s + rest)[..|line|] == line && (s + rest)[|line| + 1..] == rest;
  }

  /** A line ends at any break, and a carriage return with the line feed after it is one. */
  lemma SplitAtBreak(line: string, sep: string, rest: string)
    requires OneLineOnly(line)
    requires sep == "\r\n" || (|sep| == 1 && IsBreak(sep[0]) && !(sep == "\r" && rest != "" && rest[0] == '\n'))
    ensures SplitLines(line + sep + rest) == [line] + SplitLines(rest)
  {
    var s, all := line + sep, line + sep + rest;
    BreakIsFirst(s, rest, |line|);
    assert all[..|line|] == line && all[|line| + |sep|..] == rest;
    assert all[|line|] == sep[0];
    assert |line| + 1 < |all| ==> all[|line| + 1] == if |sep| > 1 then sep[1] else rest[0];
  }

  lemma {:induction false} NoBreakAt(s: string)
    requires OneLineOnly(s)
    ensures BreakAt(s) == |s|
  {
    if s != "" {
      NoBreakAt(s[1..]);
    }
  }

  /** Joining lines and splitting them again gives the same lines, unless the last of them is empty. */
  lemma {:induction false} JoinSplits(lines: seq<string>)
    requires forall i :: 0 <= i < |lines| ==> OneLineOnly(lines[i])
    requires lines != [] ==> lines[|lines| - 1] != ""
    ensures SplitLines(Join(lines)) == lines
  {
    if |lines| == 1 {
      NoBreakAt(lines[0]);
      assert lines == [lines[0]];
    } else if lines != [] {
      JoinSplits(lines[1..]);
      SplitFirst(lines[0], Join(lines[1..]));
      assert lines == [lines[0]] + lines[1..];
    }
  }

  // ---- collapsing ----

  /** What one more character adds. */
  function CollapsedTail(s: string, c: char): string {
    if !IsSpace(c) then [c] else if s != "" && IsSpace(s[|s| - 1]) then "" else " "
  }

  lemma CollapsedSnoc(s: string, c: char)
    ensures Collapsed(s + [c]) == Collapsed(s) + CollapsedTail(s, c)
  {
    assert (s + [c])[..|s|] == s;
  }

  lemma {:induction false} CollapsedGap(a: string, gap: string)
    requires (a != "" ==> !IsSpace(a[|a| - 1])) && gap != "" && Blank(gap)
    ensures Collapsed(a + gap) == Collapsed(a) + " "
  {
    var front, last := gap[..|gap| - 1], gap[|gap| - 1];
    assert IsSpace(last);
    CollapsedSnoc(a + front, last);
    assert a + gap == a + front + [last];
    if front == "" {
      assert a + front == a;
    } else {
      CollapsedGap(a, front);
      assert (a + front)[|a + front| - 1] == front[|front| - 1];
      assert IsSpace(gap[|front| - 1]);
    }
  }

  lemma LastOf(x: string, y: string)
    requires y != ""
    ensures (x + y)[|x + y| - 1] == y[|y| - 1]
  {
  }

  lemma SameTail(x: string, front: string, c: char)
    requires front == "" ==> !IsSpace(c)
    ensures CollapsedTail(x + front, c) == CollapsedTail(front, c)
  {
    if front != "" {
      LastOf(x, front);
    }
  }

  lemma Associate(a: string, b: string, c: string)
    ensures a + b + c == a + (b + c)
  {
  }

  lemma OneMore(x: string, front: string, c: char, head: string)
    requires Collapsed(x + front) == head + Collapsed(front) && (front == "" ==> !IsSpace(c))
    ensures Collapsed(x + (front + [c])) == head + Collapsed(front + [c])
  {
    CollapsedSnoc(x + front, c);
    CollapsedSnoc(front, c);
    SameTail(x, front, c);
    Associate(x, front, [c]);
    Associate(head, Collapsed(front), CollapsedTail(front, c));
  }

  /** Words that were apart stay apart, by one space, whatever was between them. */
  lemma {:induction false} WordsStayApart(a: string, gap: string, b: string)
    requires (a != "" ==> !IsSpace(a[|a| - 1])) && gap != "" && Blank(gap) && (b != "" ==> !IsSpace(b[0]))
    ensures Collapsed(a + gap + b) == Collapsed(a) + " " + Collapsed(b)
  {
    if b == "" {
      CollapsedGap(a, gap);
      assert a + gap + b == a + gap;
    } else {
      var front, last := b[..|b| - 1], b[|b| - 1];
      WordsStayApart(a, gap, front);
      OneMore(a + gap, front, last, Collapsed(a) + " ");
      assert b == front + [last];
    }
  }

  predicate NoDoubleSpace(s: string) { forall i :: 0 < i < |s| ==> !(IsSpace(s[i - 1]) && IsSpace(s[i])) }

  lemma {:induction false} CollapsedIsSingle(s: string)
    ensures NoDoubleSpace(Collapsed(s))
    ensures s != "" ==> Collapsed(s) != "" && (IsSpace(s[|s| - 1]) <==> IsSpace(Collapsed(s)[|Collapsed(s)| - 1]))
  {
    if s != "" {
      var n := |s| - 1;
      CollapsedIsSingle(s[..n]);
      CollapsedSnoc(s[..n], s[n]);
      assert s == s[..n] + [s[n]];
    }
  }
}
