/** Cutting a section's text into chunks of bounded length. */
module Chunking {
  import opened Text

  // ---- paragraphs: re.split on a line feed, whitespace, and another line feed ----

  /** End of the whitespace run that starts at `i`. */
  function RunEnd(s: string, i: nat): (e: nat)
    requires i <= |s|
    ensures i <= e <= |s|
    ensures forall k :: i <= k < e ==> IsSpace(s[k])
    decreases |s| - i
  {
    if i < |s| && IsSpace(s[i]) then RunEnd(s, i + 1) else i
  }

  /** Just past the last line feed in s[lo..hi], or `lo` if there is none. */
  function PastLastFeed(s: string, lo: nat, hi: nat): (e: nat)
    requires lo <= hi <= |s|
    ensures lo <= e <= hi
  {
    if lo == hi then lo else if s[hi - 1] == '\n' then hi else PastLastFeed(s, lo, hi - 1)
  }

  /** The separator that starts at `i`, as its end; `i` itself if none starts there. The match is greedy. */
  function SeparatorEnd(s: string, i: nat): (e: nat)
    requires i < |s|
    ensures i <= e <= |s|
    ensures forall k :: i <= k < e ==> IsSpace(s[k])
  {
    if s[i] != '\n' then i
    else
      var e := PastLastFeed(s, i + 1, RunEnd(s, i + 1));
      if e == i + 1 then i else e
  }

  /** The first place from `i` on at which a separator starts. */
  function NextSeparator(s: string, i: nat): (j: nat)
    requires i <= |s|
    ensures i <= j <= |s|
    ensures j < |s| ==> SeparatorEnd(s, j) > j
    decreases |s| - i
  {
    if i == |s| || SeparatorEnd(s, i) > i then i else NextSeparator(s, i + 1)
  }

  function Paragraphs(s: string): seq<string>
    decreases |s|
  {
    var i := NextSeparator(s, 0);
    if i == |s| then [s] else [s[..i]] + Paragraphs(s[SeparatorEnd(s, i)..])
  }

  // ---- long paragraphs ----

  /** text.rfind(" ", lo, hi), with `lo` standing for not found: both lose against the midpoint test. */
  function LastSpace(s: string, lo: nat, hi: nat): (b: nat)
    requires lo <= hi <= |s|
    ensures lo <= b <= hi && (b > lo ==> b < hi && s[b] == ' ')
  {
    if lo == hi then lo else if s[hi - 1] == ' ' then hi - 1 else LastSpace(s, lo, hi - 1)
  }

  /** Where the piece that starts at `start` ends: at the last space past the middle of the window, if any. */
  function PieceEnd(s: string, start: nat, maxChars: nat): (e: nat)
    requires start < |s| && maxChars > 0
    ensures start < e <= |s| && e <= start + maxChars
  {
    var e := if |s| <= start + maxChars then |s| else start + maxChars;
    if e == |s| then e
    else
      var b := LastSpace(s, start, e);
      if b > start + maxChars / 2 then b else e
  }

  function Pieces(s: string, start: nat, maxChars: nat): seq<string>
    requires maxChars > 0
    decreases |s| - start
  {
    if start >= |s| then []
    else
      var e := PieceEnd(s, start, maxChars);
      Single(Strip(s[start..e])) + Pieces(s, e, maxChars)
  }

  function Single(s: string): seq<string> { if s == "" then [] else [s] }

  lemma Regroup(a: seq<string>, b: seq<string>, c: seq<string>)
    ensures a + (b + c) == a + b + c
  {
  }

  lemma PieceStep(s: string, start: nat, maxChars: nat, chunks: seq<string>)
    requires maxChars > 0 && start < |s|
    ensures var e := PieceEnd(s, start, maxChars);
            chunks + Pieces(s, start, maxChars) == chunks + Single(Strip(s[start..e])) + Pieces(s, e, maxChars)
  {
    var e := PieceEnd(s, start, maxChars);
    Regroup(chunks, Single(Strip(s[start..e])), Pieces(s, e, maxChars));
  }

  method SplitLongParagraph(s: string, maxChars: nat) returns (chunks: seq<string>)
    requires maxChars > 0
    ensures chunks == Pieces(s, 0, maxChars)
  {
    chunks := [];
    var start := 0;
    while start < |s|
      invariant start <= |s|
      invariant chunks + Pieces(s, start, maxChars) == Pieces(s, 0, maxChars)
    {
      var end := PieceEnd(s, start, maxChars);
      PieceStep(s, start, maxChars, chunks);
      chunks := chunks + Single(Strip(s[start..end]));
      start := end;
    }
  }

  // ---- packing paragraphs ----

  /** Takes one stripped paragraph: the chunks this completes, and the chunk then under way, empty if none. */
  function PackOne(p: string, current: string, maxChars: nat): (seq<string>, string)
    requires maxChars > 0
  {
    if p == "" then ([], current)
    else if |p| > maxChars then (Single(current) + Pieces(p, 0, maxChars), "")
    else
      var candidate := if current == "" then p else current + "\n\n" + p;
      if |candidate| <= maxChars then ([], candidate) else ([current], p)
  }

  /** Greedy packing. */
  function Pack(paragraphs: seq<string>, current: string, maxChars: nat): seq<string>
    requires maxChars > 0
    decreases |paragraphs|
  {
    if paragraphs == [] then Single(current)
    else
      var (done, next) := PackOne(Strip(paragraphs[0]), current, maxChars);
      done + Pack(paragraphs[1..], next, maxChars)
  }

  function Chunks(text: string, maxChars: nat): seq<string>
    requires maxChars > 0
  {
    if |text| <= maxChars then [text] else Pack(Paragraphs(text), "", maxChars)
  }

  method PackParagraph(p: string, current: string, maxChars: nat) returns (done: seq<string>, next: string)
    requires maxChars > 0
    ensures (done, next) == PackOne(p, current, maxChars)
  {
    if p == "" {
      return [], current;
    }
    if |p| > maxChars {
      var pieces := SplitLongParagraph(p, maxChars);
      return Single(current) + pieces, "";
    }
    var candidate := if current == "" then p else current + "\n\n" + p;
    if |candidate| <= maxChars {
      return [], candidate;
    }
    done, next := [current], p;
  }

  lemma PackStep(paragraphs: seq<string>, i: nat, current: string, maxChars: nat, chunks: seq<string>)
    requires maxChars > 0 && i < |paragraphs|
    ensures var (done, next) := PackOne(Strip(paragraphs[i]), current, maxChars);
            chunks + Pack(paragraphs[i..], current, maxChars)
            == chunks + done + Pack(paragraphs[i + 1..], next, maxChars)
  {
    var (done, next) := PackOne(Strip(paragraphs[i]), current, maxChars);
    assert paragraphs[i..][0] == paragraphs[i] && paragraphs[i..][1..] == paragraphs[i + 1..];
    Regroup(chunks, done, Pack(paragraphs[i + 1..], next, maxChars));
  }

  method ChunkText(text: string, maxChars: nat) returns (chunks: seq<string>)
    requires maxChars > 0
    ensures chunks == Chunks(text, maxChars)
  {
    if |text| <= maxChars {
      return [text];
    }
    var paragraphs := Paragraphs(text);
    chunks := [];
    var current := "";
    assert paragraphs[0..] == paragraphs;
    for i := 0 to |paragraphs|
      invariant chunks + Pack(paragraphs[i..], current, maxChars) == Pack(paragraphs, "", maxChars)
    {
      PackStep(paragraphs, i, current, maxChars, chunks);
      var done, next := PackParagraph(Strip(paragraphs[i]), current, maxChars);
      chunks := chunks + done;
      current := next;
    }
    chunks := chunks + Single(current);
  }

  // ---- nothing is lost, and nothing is too long ----

  ghost predicate Bounded(chunks: seq<string>, maxChars: nat) {
    forall i :: 0 <= i < |chunks| ==> chunks[i] != "" && |chunks[i]| <= maxChars
  }

  lemma {:induction false} ParagraphsKeepText(s: string)
    ensures SolidAll(Paragraphs(s)) == Solid(s)
    decreases |s|
  {
    var i := NextSeparator(s, 0);
    if i < |s| {
      var e := SeparatorEnd(s, i);
      ParagraphsKeepText(s[e..]);
      SolidGap(s, i, e);
    }
  }

  /** Cutting out a stretch of whitespace loses no other character. */
  lemma SolidGap(s: string, i: nat, e: nat)
    requires i <= e <= |s| && forall k :: i <= k < e ==> IsSpace(s[k])
    ensures Solid(s) == Solid(s[..i]) + Solid(s[e..])
  {
    SolidSplit(s, i);
    DropBlank(s, i, e);
  }

  lemma {:induction false} DropBlank(s: string, i: nat, e: nat)
    requires i <= e <= |s| && forall k :: i <= k < e ==> IsSpace(s[k])
    ensures Solid(s[i..]) == Solid(s[e..])
    decreases e - i
  {
    if i < e {
      DropBlank(s, i + 1, e);
      assert s[i..][0] == s[i] && s[i..][1..] == s[i + 1..];
    }
  }

  lemma BoundedConcat(a: seq<string>, b: seq<string>, maxChars: nat)
    requires Bounded(a, maxChars) && Bounded(b, maxChars)
    ensures Bounded(a + b, maxChars)
  {
  }

  lemma SolidSingle(s: string)
    ensures SolidAll(Single(s)) == Solid(s)
  {
    assert [s][1..] == [];
  }

  /** Putting a piece in front adds its text and keeps the bound. */
  lemma FrontPiece(piece: string, rest: seq<string>, maxChars: nat)
    requires |piece| <= maxChars && Bounded(rest, maxChars)
    ensures SolidAll(Single(piece) + rest) == Solid(piece) + SolidAll(rest)
    ensures Bounded(Single(piece) + rest, maxChars)
  {
    SolidAllConcat(Single(piece), rest);
    SolidSingle(piece);
  }

  lemma {:induction false} PiecesKeepText(s: string, start: nat, maxChars: nat)
    requires maxChars > 0 && start <= |s|
    ensures SolidAll(Pieces(s, start, maxChars)) == Solid(s[start..])
    ensures Bounded(Pieces(s, start, maxChars), maxChars)
    decreases |s| - start
  {
    if start < |s| {
      var e := PieceEnd(s, start, maxChars);
      PiecesKeepText(s, e, maxChars);
      PieceText(s, start, e);
      FrontPiece(Strip(s[start..e]), Pieces(s, e, maxChars), maxChars);
    }
  }

  lemma PieceText(s: string, start: nat, e: nat)
    requires start <= e <= |s|
    ensures Solid(s[start..]) == Solid(Strip(s[start..e])) + Solid(s[e..])
    ensures |Strip(s[start..e])| <= e - start
  {
    SolidSplit(s[start..], e - start);
    assert s[start..][..e - start] == s[start..e] && s[start..][e - start..] == s[e..];
    SolidStrip(s[start..e]);
    var _ := StripCuts(s[start..e]);
  }

  lemma JoinedText(current: string, p: string)
    ensures Solid(current + "\n\n" + p) == Solid(current) + Solid(p)
  {
    SolidConcat(current + "\n\n", p);
    SolidConcat(current, "\n\n");
    SolidBlank("\n\n");
  }

  lemma PackOneKeepsText(p: string, current: string, maxChars: nat)
    requires maxChars > 0 && |current| <= maxChars
    ensures var (done, next) := PackOne(p, current, maxChars);
            && SolidAll(done) + Solid(next) == Solid(current) + Solid(p)
            && Bounded(done, maxChars) && |next| <= maxChars
  {
    if |p| > maxChars {
      PiecesKeepText(p, 0, maxChars);
      assert p[0..] == p;
      FrontPiece(current, Pieces(p, 0, maxChars), maxChars);
    } else {
      JoinedText(current, p);
      SolidSingle(current);
    }
  }

  lemma {:induction false} PackKeepsText(paragraphs: seq<string>, current: string, maxChars: nat)
    requires maxChars > 0 && |current| <= maxChars
    ensures SolidAll(Pack(paragraphs, current, maxChars)) == Solid(current) + SolidAll(paragraphs)
    ensures Bounded(Pack(paragraphs, current, maxChars), maxChars)
    decreases |paragraphs|
  {
    if paragraphs == [] {
      SolidSingle(current);
    } else {
      var p := Strip(paragraphs[0]);
      var (done, next) := PackOne(p, current, maxChars);
      var rest := Pack(paragraphs[1..], next, maxChars);
      PackOneKeepsText(p, current, maxChars);
      PackKeepsText(paragraphs[1..], next, maxChars);
      SolidStrip(paragraphs[0]);
      SolidAllConcat(done, rest);
      BoundedConcat(done, rest, maxChars);
      Shuffle(SolidAll(done), Solid(next), SolidAll(paragraphs[1..]), Solid(current), Solid(p));
    }
  }

  lemma Shuffle(d: string, n: string, t: string, c: string, p: string)
    requires d + n == c + p
    ensures d + (n + t) == c + (p + t)
  {
    assert d + (n + t) == d + n + t;
    assert c + (p + t) == c + p + t;
  }

  /** Chunking keeps every character that is not whitespace, in order; no chunk exceeds the bound, and none is
      empty unless the text itself is. */
  lemma ChunksKeepText(text: string, maxChars: nat)
    requires maxChars > 0
    ensures SolidAll(Chunks(text, maxChars)) == Solid(text)
    ensures text != "" ==> Bounded(Chunks(text, maxChars), maxChars)
    ensures text == "" ==> Chunks(text, maxChars) == [""]
  {
    ParagraphsKeepText(text);
    PackKeepsText(Paragraphs(text), "", maxChars);
    assert [text][1..] == [];
  }

  /** Some chunk holds `p` whole. */
  ghost predicate Holds(chunks: seq<string>, p: string) {
    exists k, a, b :: 0 <= k < |chunks| && chunks[k] == a + p + b
  }

  lemma HoldsInFront(done: seq<string>, chunks: seq<string>, p: string)
    requires Holds(chunks, p)
    ensures Holds(done + chunks, p)
  {
    var k, a, b :| 0 <= k < |chunks| && chunks[k] == a + p + b;
    assert (done + chunks)[|done| + k] == a + p + b;
  }

  /** A paragraph is only ever cut when it is longer than a chunk may be: otherwise one chunk holds it whole. */
  lemma {:induction false} FittingParagraphStaysWhole(paragraphs: seq<string>, current: string, maxChars: nat, i: nat)
    requires maxChars > 0 && i < |paragraphs| && 0 < |Strip(paragraphs[i])| <= maxChars
    ensures Holds(Pack(paragraphs, current, maxChars), Strip(paragraphs[i]))
    decreases |paragraphs|
  {
    var p := Strip(paragraphs[0]);
    var (done, next) := PackOne(p, current, maxChars);
    var rest := Pack(paragraphs[1..], next, maxChars);
    if i == 0 {
      NextEndsWith(p, current, maxChars);
      CurrentStaysWhole(paragraphs[1..], next, maxChars);
      var a, b := next[..|next| - |p|], rest[0][|next|..];
      assert rest[0] == a + p + b;
      assert Holds(rest, p);
    } else {
      FittingParagraphStaysWhole(paragraphs[1..], next, maxChars, i - 1);
    }
    HoldsInFront(done, rest, Strip(paragraphs[i]));
  }

  lemma NextEndsWith(p: string, current: string, maxChars: nat)
    requires 0 < |p| <= maxChars
    ensures var next := PackOne(p, current, maxChars).1; |p| <= |next| && next[|next| - |p|..] == p
  {
  }

  /** The chunk under way becomes the start of the next chunk. */
  lemma {:induction false} CurrentStaysWhole(paragraphs: seq<string>, current: string, maxChars: nat)
    requires maxChars > 0 && current != ""
    ensures var chunks := Pack(paragraphs, current, maxChars); chunks != [] && current <= chunks[0]
    decreases |paragraphs|
  {
    if paragraphs != [] {
      var (done, next) := PackOne(Strip(paragraphs[0]), current, maxChars);
      if done == [] {
        CurrentStaysWhole(paragraphs[1..], next, maxChars);
      } else {
        assert done[0] == current;
      }
    }
  }

  // ---- where paragraphs end ----

  /** Between the two line feeds there is only whitespace. */
  ghost predicate BlankLine(s: string, i: int, j: int) {
    0 <= i < j < |s| && s[i] == '\n' && s[j] == '\n' && forall k :: i < k < j ==> IsSpace(s[k])
  }

  lemma {:induction false} RunGoesOn(s: string, i: nat, j: nat)
    requires i <= j <= |s| && forall k :: i <= k < j ==> IsSpace(s[k])
    ensures RunEnd(s, i) >= j
    decreases j - i
  {
    if i < j {
      RunGoesOn(s, i + 1, j);
    }
  }

  lemma {:induction false} LastFeed(s: string, lo: nat, hi: nat)
    requires lo <= hi <= |s|
    ensures var e := PastLastFeed(s, lo, hi);
            (e == lo || s[e - 1] == '\n') && forall k :: e <= k < hi ==> s[k] != '\n'
    decreases hi
  {
    if lo < hi && s[hi - 1] != '\n' {
      LastFeed(s, lo, hi - 1);
    }
  }

  /** A separator starts at a line feed exactly when only whitespace is between it and another one. */
  lemma SeparatorIff(s: string, i: nat)
    requires i < |s|
    ensures SeparatorEnd(s, i) > i <==> exists j :: BlankLine(s, i, j)
    ensures SeparatorEnd(s, i) > i ==> BlankLine(s, i, SeparatorEnd(s, i) - 1)
    ensures SeparatorEnd(s, i) > i ==> !exists j :: j >= SeparatorEnd(s, i) && BlankLine(s, i, j)
  {
    if s[i] == '\n' {
      var run := RunEnd(s, i + 1);
      LastFeed(s, i + 1, run);
      forall j | BlankLine(s, i, j) ensures j < SeparatorEnd(s, i) {
        RunGoesOn(s, i + 1, j + 1);
      }
      assert SeparatorEnd(s, i) > i ==> BlankLine(s, i, SeparatorEnd(s, i) - 1);
    }
  }

  lemma {:induction false} NoSeparatorBefore(s: string, i: nat, k: nat)
    requires i <= |s| && i <= k < NextSeparator(s, i)
    ensures SeparatorEnd(s, k) == k
    decreases |s| - i
  {
    if i < k {
      NoSeparatorBefore(s, i + 1, k);
    }
  }

  /** A text is one paragraph exactly when it has no blank line: a single line feed separates nothing. */
  lemma OneParagraphIff(s: string)
    ensures |Paragraphs(s)| == 1 <==> forall i, j :: !BlankLine(s, i, j)
    ensures |Paragraphs(s)| == 1 ==> Paragraphs(s) == [s]
  {
    var n := NextSeparator(s, 0);
    if n < |s| {
      SeparatorIff(s, n);
      ParagraphsNotEmpty(s[SeparatorEnd(s, n)..]);
    } else {
      forall i, j | 0 <= i < |s| ensures !BlankLine(s, i, j) {
        NoSeparatorBefore(s, 0, i);
        SeparatorIff(s, i);
      }
    }
  }

  lemma ParagraphsNotEmpty(s: string)
    ensures |Paragraphs(s)| >= 1
  {
  }

  /** The first paragraph ends at the first blank line, and what is blank after it belongs to no paragraph. */
  lemma FirstParagraph(s: string, i: nat)
    requires i < |s| && (exists j :: BlankLine(s, i, j)) && forall h, j :: h < i ==> !BlankLine(s, h, j)
    ensures SeparatorEnd(s, i) > i && Paragraphs(s) == [s[..i]] + Paragraphs(s[SeparatorEnd(s, i)..])
  {
    SeparatorIff(s, i);
    var n := NextSeparator(s, 0);
    if n < i {
      SeparatorIff(s, n);
    } else if i < n {
      NoSeparatorBefore(s, 0, i);
    }
  }

  // ---- where long paragraphs are cut ----

  lemma {:induction false} LastSpaceIsLast(s: string, lo: nat, hi: nat)
    requires lo <= hi <= |s|
    ensures var b := LastSpace(s, lo, hi); forall k :: b < k < hi ==> s[k] != ' '
    ensures LastSpace(s, lo, hi) == lo ==> forall k :: lo < k < hi ==> s[k] != ' '
    decreases hi
  {
    if lo < hi && s[hi - 1] != ' ' {
      LastSpaceIsLast(s, lo, hi - 1);
    }
  }

  /** A piece takes the whole window, or what is left of the text, unless a space past the middle of the window lets it
      end between two words: then it ends at the last such space. */
  lemma PieceEndIs(s: string, start: nat, maxChars: nat, e: nat)
    requires start < |s| && maxChars > 0
    ensures PieceEnd(s, start, maxChars) == e <==>
              if |s| <= start + maxChars then e == |s|
              else
                || (start + maxChars / 2 < e < start + maxChars && s[e] == ' '
                    && forall k :: e < k < start + maxChars ==> s[k] != ' ')
                || (e == start + maxChars && forall k :: start + maxChars / 2 < k < start + maxChars ==> s[k] != ' ')
  {
    if |s| > start + maxChars {
      var b := LastSpace(s, start, start + maxChars);
      LastSpaceIsLast(s, start, start + maxChars);
      assert start + maxChars / 2 < e < start + maxChars && s[e] == ' ' ==> e <= b;
    }
  }

  // ---- what is packed together ----

  /** The paragraphs that are not blank, stripped, with a blank line between them. */
  function Apart(current: string, paragraphs: seq<string>): string
    decreases |paragraphs|
  {
    if paragraphs == [] then current
    else
      var p := Strip(paragraphs[0]);
      Apart(if p == "" then current else if current == "" then p else current + "\n\n" + p, paragraphs[1..])
  }

  lemma {:induction false} ApartGrows(current: string, paragraphs: seq<string>)
    ensures |current| <= |Apart(current, paragraphs)|
    decreases |paragraphs|
  {
    if paragraphs != [] {
      var p := Strip(paragraphs[0]);
      ApartGrows(if p == "" then current else if current == "" then p else current + "\n\n" + p, paragraphs[1..]);
    }
  }

  /** Paragraphs that fit into one chunk together, blank lines between them included, are one chunk. */
  lemma {:induction false} FittingParagraphsShareAChunk(paragraphs: seq<string>, current: string, maxChars: nat)
    requires maxChars > 0 && |Apart(current, paragraphs)| <= maxChars
    ensures Pack(paragraphs, current, maxChars) == Single(Apart(current, paragraphs))
    decreases |paragraphs|
  {
    if paragraphs != [] {
      var p := Strip(paragraphs[0]);
      var next := if p == "" then current else if current == "" then p else current + "\n\n" + p;
      ApartGrows(next, paragraphs[1..]);
      FittingParagraphsShareAChunk(paragraphs[1..], next, maxChars);
      assert PackOne(p, current, maxChars) == ([], next);
      assert [] + Pack(paragraphs[1..], next, maxChars) == Pack(paragraphs[1..], next, maxChars);
    }
  }

  /** And as many as fit are: the chunk under way ends only where the next paragraph does not fit, and then the next one
      starts with it, or with its first piece if it is too long for any chunk. */
  lemma FullChunkEnds(paragraphs: seq<string>, current: string, maxChars: nat)
    requires maxChars > 0 && current != "" && paragraphs != [] && Strip(paragraphs[0]) != ""
    requires |current| + 2 + |Strip(paragraphs[0])| > maxChars
    ensures var p := Strip(paragraphs[0]);
            Pack(paragraphs, current, maxChars)
            == [current] + if |p| <= maxChars then Pack(paragraphs[1..], p, maxChars)
                           else Pieces(p, 0, maxChars) + Pack(paragraphs[1..], "", maxChars)
  {
    var p := Strip(paragraphs[0]);
    if |p| > maxChars {
      Regroup([current], Pieces(p, 0, maxChars), Pack(paragraphs[1..], "", maxChars));
    }
  }
}
