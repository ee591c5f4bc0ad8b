/** Splitting Markdown into heading-aware, bounded sections. */
module Markdown {
  import opened Wrappers
  import opened Text
  import opened Chunking

  datatype Heading = Heading(level: nat, title: string)

  datatype Section = Section(path: seq<string>, lines: seq<string>)

  datatype MarkdownSection = MarkdownSection(
    headingPath: seq<string>, content: string, sectionIndex: nat, chunkIndex: nat)

  datatype SplitError = MaxCharsTooSmall

  // ---- headings ----

  function Hashes(s: string): (n: nat)
    ensures n <= |s|
  {
    if s != "" && s[0] == '#' then 1 + Hashes(s[1..]) else 0
  }

  function TrimHashes(s: string): string
    decreases |s|
  {
    if s != "" && s[0] == '#' then TrimHashes(s[1..])
    else if s != "" && s[|s| - 1] == '#' then TrimHashes(s[..|s| - 1])
    else s
  }

  function CleanHeading(s: string): string { Strip(Collapsed(TrimHashes(Strip(s)))) }

  /** One to six hashes, whitespace, and at least one more character; the title is what is left when the
      whitespace and hashes around it are taken off. */
  function HeadingOf(line: string): (h: Option<Heading>)
    ensures h.Some? ==> 1 <= h.value.level <= 6 && line != "" && line[0] == '#'
  {
    var n := Hashes(line);
    if 1 <= n <= 6 && n + 2 <= |line| && IsSpace(line[n]) then Some(Heading(n, CleanHeading(line[n..]))) else None
  }

  function HeadingsOf(lines: seq<string>): seq<Option<Heading>> {
    seq(|lines|, i requires 0 <= i < |lines| => HeadingOf(lines[i]))
  }

  // ---- the heading path, recursively; hs says which lines are headings ----

  type Outline = seq<Option<Heading>>

  /** The nearest heading before line `i` whose level is below `level`. */
  function ParentBefore(hs: Outline, i: nat, level: nat): (j: Option<nat>)
    requires i <= |hs|
    ensures j.Some? ==> j.value < i && hs[j.value].Some? && hs[j.value].value.level < level
  {
    if i == 0 then None
    else if hs[i - 1].Some? && hs[i - 1].value.level < level then Some(i - 1)
    else ParentBefore(hs, i - 1, level)
  }

  /** Nothing between the parent and line `i` has a smaller level. */
  lemma {:induction false} ParentIsNearest(hs: Outline, i: nat, level: nat, k: nat)
    requires k < i <= |hs| && hs[k].Some? && hs[k].value.level < level
    ensures ParentBefore(hs, i, level).Some? && k <= ParentBefore(hs, i, level).value
    decreases i
  {
    if k < i - 1 {
      ParentIsNearest(hs, i - 1, level, k);
    }
  }

  /** The path of the heading on line `i`: the path of its nearest smaller predecessor, then itself. */
  function PathOf(hs: Outline, i: nat): seq<Heading>
    requires i < |hs| && hs[i].Some?
    decreases i, 1
  {
    PathBefore(hs, i, hs[i].value.level) + [hs[i].value]
  }

  function PathBefore(hs: Outline, i: nat, level: nat): seq<Heading>
    requires i <= |hs|
    decreases i, 0
  {
    var j := ParentBefore(hs, i, level);
    if j.None? then [] else PathOf(hs, j.value)
  }

  function Titles(path: seq<Heading>): seq<string> { seq(|path|, i requires 0 <= i < |path| => path[i].title) }

  /** The entries of a heading stack below a level. */
  function Below(stack: seq<Heading>, level: nat): seq<Heading> {
    if stack == [] then []
    else if stack[|stack| - 1].level < level then Below(stack[..|stack| - 1], level) + [stack[|stack| - 1]]
    else Below(stack[..|stack| - 1], level)
  }

  ghost predicate Increasing(stack: seq<Heading>) {
    forall i, j :: 0 <= i < j < |stack| ==> stack[i].level < stack[j].level
  }

  ghost predicate AllBelow(stack: seq<Heading>, level: nat) { forall i :: 0 <= i < |stack| ==> stack[i].level < level }

  /** The stack's levels are strictly increasing. */
  lemma {:induction false} PathIncreases(hs: Outline, i: nat, level: nat)
    requires i <= |hs|
    ensures Increasing(PathBefore(hs, i, level)) && AllBelow(PathBefore(hs, i, level), level)
    decreases i
  {
    var j := ParentBefore(hs, i, level);
    if j.Some? {
      PathIncreases(hs, j.value, hs[j.value].value.level);
    }
  }

  lemma {:induction false} BelowKeepsAll(stack: seq<Heading>, level: nat)
    requires AllBelow(stack, level)
    ensures Below(stack, level) == stack
  {
    if stack != [] {
      BelowKeepsAll(stack[..|stack| - 1], level);
      InitLast(stack);
    }
  }

  lemma BelowPushed(stack: seq<Heading>, h: Heading, level: nat)
    ensures Below(stack + [h], level) == if h.level < level then Below(stack, level) + [h] else Below(stack, level)
  {
    assert (stack + [h])[..|stack|] == stack;
  }

  /** Filtering the stack by level is looking up the nearest smaller predecessor. */
  lemma {:induction false} BelowIsNearest(hs: Outline, i: nat, low: nat, high: nat)
    requires i <= |hs| && low <= high
    ensures Below(PathBefore(hs, i, high), low) == PathBefore(hs, i, low)
    decreases i
  {
    if i > 0 {
      var h := hs[i - 1];
      PathUnfolds(hs, i, low);
      PathUnfolds(hs, i, high);
      if h.Some? && h.value.level < high {
        var path := PathBefore(hs, i - 1, h.value.level);
        BelowPushed(path, h.value, low);
        if h.value.level < low {
          PathIncreases(hs, i - 1, h.value.level);
          BelowKeepsAll(path, low);
        } else {
          BelowIsNearest(hs, i - 1, low, h.value.level);
        }
      } else {
        BelowIsNearest(hs, i - 1, low, high);
      }
    }
  }

  lemma PathUnfolds(hs: Outline, i: nat, level: nat)
    requires 0 < i <= |hs|
    ensures var h := hs[i - 1];
            PathBefore(hs, i, level)
            == if h.Some? && h.value.level < level then PathBefore(hs, i - 1, h.value.level) + [h.value]
               else PathBefore(hs, i - 1, level)
  {
  }

  // ---- sections ----

  const ABOVE_ALL := 7

  function NextHeading(hs: Outline, i: nat): (j: nat)
    requires i <= |hs|
    ensures i <= j <= |hs| && (j < |hs| ==> hs[j].Some?)
    ensures forall k :: i <= k < j ==> hs[k].None?
    decreases |hs| - i
  {
    if i == |hs| || hs[i].Some? then i else NextHeading(hs, i + 1)
  }

  /** One section per heading: its path, and its lines up to the next heading. */
  function SectionsFrom(lines: seq<string>, hs: Outline, i: nat): seq<Section>
    requires |hs| == |lines| && i <= |lines| && (i < |lines| ==> hs[i].Some?)
    decreases |lines| - i
  {
    if i == |lines| then []
    else
      var next := NextHeading(hs, i + 1);
      [Section(Titles(PathOf(hs, i)), lines[i..next])] + SectionsFrom(lines, hs, next)
  }

  /** The text before the first heading is a section of its own, with no path, unless it is blank. */
  function SectionsOf(lines: seq<string>): seq<Section> {
    var hs := HeadingsOf(lines);
    var first := NextHeading(hs, 0);
    var preamble := if Strip(Join(lines[..first])) == "" then [] else [Section([], lines[..first])];
    preamble + SectionsFrom(lines, hs, first)
  }

  lemma NextHeadingSkips(hs: Outline, i: nat, j: nat)
    requires i <= j <= |hs| && forall k :: i <= k < j ==> hs[k].None?
    ensures NextHeading(hs, i) == NextHeading(hs, j)
    decreases j - i
  {
    if i < j {
      NextHeadingSkips(hs, i + 1, j);
    }
  }

  lemma {:induction false} JoinKeepsHash(lines: seq<string>)
    requires lines != [] && lines[0] != "" && lines[0][0] == '#'
    ensures Strip(Join(lines)) != ""
  {
    var s := Join(lines);
    assert s[0] == '#' && !IsSpace(s[0]);
    var _ := StripCuts(s);
  }

  function Flush(sections: seq<Section>, path: seq<string>, current: seq<string>): seq<Section> {
    if current == [] || Strip(Join(current)) == "" then sections else sections + [Section(path, current)]
  }

  /** The lines from `start` up to `i` belong to the section under way, whose path is `path`; with what has been
      flushed and what the rest of the outline says, they make up all sections. */
  ghost predicate Partial(lines: seq<string>, hs: Outline, start: nat, i: nat, path: seq<string>,
                          current: seq<string>, sections: seq<Section>, all: seq<Section>) {
    && |hs| == |lines| && start <= i <= |lines| && current == lines[start..i]
    && if path == [] then
         start == 0 && sections == [] && forall k :: 0 <= k < i ==> hs[k].None?
       else
         && start < i && hs[start].Some? && path == Titles(PathOf(hs, start))
         && lines[start] != "" && lines[start][0] == '#'
         && (forall k :: start < k < i ==> hs[k].None?)
         && all == sections + SectionsFrom(lines, hs, start)
  }

  lemma PartialLine(lines: seq<string>, hs: Outline, start: nat, i: nat, path: seq<string>,
                    current: seq<string>, sections: seq<Section>, all: seq<Section>)
    requires Partial(lines, hs, start, i, path, current, sections, all) && i < |lines| && hs[i].None?
    ensures Partial(lines, hs, start, i + 1, path, current + [lines[i]], sections, all)
  {
  }

  /** All sections, seen from the first heading on. */
  ghost predicate FromFirst(lines: seq<string>, hs: Outline, all: seq<Section>) {
    |hs| == |lines| &&
    var first := NextHeading(hs, 0);
    all == Flush([], [], lines[..first]) + SectionsFrom(lines, hs, first)
  }

  lemma AllFromFirst(lines: seq<string>)
    ensures FromFirst(lines, HeadingsOf(lines), SectionsOf(lines))
  {
    var _ := StripCuts("");
  }

  /** Flushing at line `i`, where a heading stands or the text ends, completes the section under way. */
  lemma FlushStep(lines: seq<string>, hs: Outline, start: nat, i: nat, path: seq<string>,
                  current: seq<string>, sections: seq<Section>, all: seq<Section>)
    requires Partial(lines, hs, start, i, path, current, sections, all) && (i < |lines| ==> hs[i].Some?)
    requires FromFirst(lines, hs, all)
    ensures all == Flush(sections, path, current) + SectionsFrom(lines, hs, i)
  {
    if path == [] {
      NextHeadingSkips(hs, 0, i);
      assert lines[0..i] == lines[..i];
    } else {
      NextHeadingSkips(hs, start + 1, i);
      assert current[0] == lines[start];
      JoinKeepsHash(current);
      AppendOne(sections, Section(path, current), SectionsFrom(lines, hs, i));
    }
  }

  lemma AppendOne(a: seq<Section>, x: Section, b: seq<Section>)
    ensures a + ([x] + b) == a + [x] + b
  {
  }

  lemma PartialHeading(lines: seq<string>, hs: Outline, i: nat, path: seq<string>,
                       sections: seq<Section>, all: seq<Section>)
    requires |hs| == |lines| && i < |lines| && hs[i].Some? && path != [] && path == Titles(PathOf(hs, i))
    requires lines[i] != "" && lines[i][0] == '#' && all == sections + SectionsFrom(lines, hs, i)
    ensures Partial(lines, hs, i, i + 1, path, [lines[i]], sections, all)
  {
    assert [lines[i]] == lines[i..i + 1];
  }

  /** Popping the stack to below a heading's level and pushing the heading gives the heading's path. */
  lemma StackStep(hs: Outline, i: nat, stack: seq<Heading>)
    requires i < |hs| && hs[i].Some? && hs[i].value.level <= ABOVE_ALL && stack == PathBefore(hs, i, ABOVE_ALL)
    ensures Below(stack, hs[i].value.level) + [hs[i].value] == PathOf(hs, i)
    ensures Titles(PathOf(hs, i)) != []
    ensures hs[i].value.level < ABOVE_ALL ==> PathBefore(hs, i + 1, ABOVE_ALL) == PathOf(hs, i)
  {
    BelowIsNearest(hs, i, hs[i].value.level, ABOVE_ALL);
    assert |Titles(PathOf(hs, i))| > 0;
  }

  /** The loop's variables: the heading stack, the path and lines of the section under way, and what is done. */
  datatype Scan = Scan(stack: seq<Heading>, path: seq<string>, current: seq<string>, sections: seq<Section>) {
    function Flushed(): seq<Section> { Flush(sections, path, current) }

    function Visit(line: string): Scan {
      var h := HeadingOf(line);
      if h.None? then this.(current := current + [line])
      else
        var stack' := Below(stack, h.value.level) + [h.value];
        Scan(stack', Titles(stack'), [line], Flushed())
    }
  }

  ghost predicate ScanOk(lines: seq<string>, hs: Outline, all: seq<Section>, start: nat, i: nat, scan: Scan) {
    && Partial(lines, hs, start, i, scan.path, scan.current, scan.sections, all)
    && scan.stack == PathBefore(hs, i, ABOVE_ALL)
  }

  lemma VisitStep(lines: seq<string>, hs: Outline, all: seq<Section>, start: nat, i: nat, scan: Scan)
    returns (start': nat)
    requires ScanOk(lines, hs, all, start, i, scan) && FromFirst(lines, hs, all)
    requires i < |lines| && hs[i] == HeadingOf(lines[i])
    ensures ScanOk(lines, hs, all, start', i + 1, scan.Visit(lines[i]))
  {
    if hs[i].None? {
      PartialLine(lines, hs, start, i, scan.path, scan.current, scan.sections, all);
      start' := start;
    } else {
      FlushStep(lines, hs, start, i, scan.path, scan.current, scan.sections, all);
      StackStep(hs, i, scan.stack);
      PartialHeading(lines, hs, i, Titles(PathOf(hs, i)), scan.Flushed(), all);
      start' := i;
    }
  }

  method SplitSections(lines: seq<string>) returns (sections: seq<Section>)
    ensures sections == SectionsOf(lines)
  {
    ghost var hs, all := HeadingsOf(lines), SectionsOf(lines);
    AllFromFirst(lines);
    ghost var start := 0;
    var scan := Scan([], [], [], []);
    for i := 0 to |lines|
      invariant ScanOk(lines, hs, all, start, i, scan)
    {
      start := VisitStep(lines, hs, all, start, i, scan);
      scan := scan.Visit(lines[i]);
    }
    FlushStep(lines, hs, start, |lines|, scan.path, scan.current, scan.sections, all);
    sections := scan.Flushed();
  }

  // ---- the whole splitter ----

  function TrimmedText(section: Section): string { Strip(Join(section.lines)) }

  /** The chunks of one section, numbered; a section without a path is filed under the source path. */
  function Numbered(section: Section, chunks: seq<string>, source: string, index: nat): seq<MarkdownSection> {
    var path := if section.path == [] then [source] else section.path;
    seq(|chunks|, k requires 0 <= k < |chunks| => MarkdownSection(path, chunks[k], index, k))
  }

  function Output(sections: seq<Section>, source: string, maxChars: nat): seq<MarkdownSection>
    requires maxChars > 0
  {
    if sections == [] then []
    else
      var n := |sections| - 1;
      Output(sections[..n], source, maxChars)
      + Numbered(sections[n], Chunks(TrimmedText(sections[n]), maxChars), source, n)
  }

  function Contents(output: seq<MarkdownSection>): seq<string> {
    seq(|output|, k requires 0 <= k < |output| => output[k].content)
  }

  method SplitMarkdownSections(text: string, source: string, maxChars: int)
    returns (r: Result<seq<MarkdownSection>, SplitError>)
    ensures r.Failure? <==> maxChars <= 80
    ensures r.Success? ==> r.value == Output(SectionsOf(SplitLines(text)), source, maxChars)
    ensures r.Success? ==> SolidAll(Contents(r.value)) == Solid(text)
    ensures r.Success? ==> Bounded(Contents(r.value), maxChars)
  {
    if maxChars <= 80 {
      return Failure(MaxCharsTooSmall);
    }
    var sections := SplitSections(SplitLines(text));
    SplitKeepsText(text, source, maxChars);
    if sections == [] && Strip(text) != "" {
      sections := [Section([source], [Strip(text)])];
    }
    var output := EmitSections(sections, source, maxChars);
    r := Success(output);
  }

  lemma OutputNext(sections: seq<Section>, source: string, maxChars: nat, index: nat)
    requires maxChars > 0 && index < |sections|
    ensures Output(sections[..index + 1], source, maxChars)
         == Output(sections[..index], source, maxChars)
            + Numbered(sections[index], Chunks(TrimmedText(sections[index]), maxChars), source, index)
  {
    assert sections[..index + 1][..index] == sections[..index];
  }

  method EmitSections(sections: seq<Section>, source: string, maxChars: nat) returns (output: seq<MarkdownSection>)
    requires maxChars > 0
    ensures output == Output(sections, source, maxChars)
  {
    output := [];
    for index := 0 to |sections|
      invariant output == Output(sections[..index], source, maxChars)
    {
      var chunks := ChunkText(TrimmedText(sections[index]), maxChars);
      OutputNext(sections, source, maxChars, index);
      output := output + Numbered(sections[index], chunks, source, index);
    }
    assert sections[..|sections|] == sections;
  }

  // ---- no text is lost ----

  lemma {:induction false} LinesKeepText(s: string)
    ensures SolidAll(SplitLines(s)) == Solid(s)
    decreases |s|
  {
    if s != "" {
      var i := BreakAt(s);
      if i == |s| {
        assert [s][1..] == [];
      } else {
        var e := PastBreak(s, i);
        LinesKeepText(s[e..]);
        SolidGap(s, i, e);
      }
    }
  }

  lemma {:induction false} JoinKeepsText(lines: seq<string>)
    ensures Solid(Join(lines)) == SolidAll(lines)
  {
    if |lines| == 1 {
      assert lines[1..] == [];
    } else if lines != [] {
      JoinKeepsText(lines[1..]);
      SolidConcat(lines[0] + "\n", Join(lines[1..]));
      SolidConcat(lines[0], "\n");
      SolidBlank("\n");
    }
  }

  lemma TrimmedKeepsText(section: Section)
    ensures Solid(TrimmedText(section)) == SolidAll(section.lines)
  {
    JoinKeepsText(section.lines);
    SolidStrip(Join(section.lines));
  }

  function SectionText(sections: seq<Section>): string {
    if sections == [] then "" else SolidAll(sections[0].lines) + SectionText(sections[1..])
  }

  lemma {:induction false} SectionsFromKeepText(lines: seq<string>, hs: Outline, i: nat)
    requires |hs| == |lines| && i <= |lines| && (i < |lines| ==> hs[i].Some?)
    ensures SectionText(SectionsFrom(lines, hs, i)) == SolidAll(lines[i..])
    decreases |lines| - i
  {
    if i < |lines| {
      var next := NextHeading(hs, i + 1);
      SectionsFromKeepText(lines, hs, next);
      TakeDrop(lines[i..], next - i);
      assert lines[i..][..next - i] == lines[i..next] && lines[i..][next - i..] == lines[next..];
      SolidAllConcat(lines[i..next], lines[next..]);
    }
  }

  lemma SectionsKeepText(lines: seq<string>)
    ensures SectionText(SectionsOf(lines)) == SolidAll(lines)
  {
    var hs := HeadingsOf(lines);
    var first := NextHeading(hs, 0);
    SectionsFromKeepText(lines, hs, first);
    TakeDrop(lines, first);
    SolidAllConcat(lines[..first], lines[first..]);
    PreambleText(lines[..first], SectionsFrom(lines, hs, first));
  }

  lemma PreambleText(lines: seq<string>, rest: seq<Section>)
    ensures var preamble := if Strip(Join(lines)) == "" then [] else [Section([], lines)];
            SectionText(preamble + rest) == SolidAll(lines) + SectionText(rest)
  {
    TrimmedKeepsText(Section([], lines));
    if Strip(Join(lines)) == "" {
      assert [] + rest == rest;
    } else {
      assert ([Section([], lines)] + rest)[1..] == rest;
    }
  }

  ghost predicate NoBlank(sections: seq<Section>) {
    forall i :: 0 <= i < |sections| ==> TrimmedText(sections[i]) != ""
  }

  lemma {:induction false} SectionsFromNotBlank(lines: seq<string>, hs: Outline, i: nat)
    requires |hs| == |lines| && i <= |lines| && (i < |lines| ==> hs[i].Some?)
    requires forall k :: 0 <= k < |lines| && hs[k].Some? ==> lines[k] != "" && lines[k][0] == '#'
    ensures NoBlank(SectionsFrom(lines, hs, i))
    decreases |lines| - i
  {
    if i < |lines| {
      var next := NextHeading(hs, i + 1);
      SectionsFromNotBlank(lines, hs, next);
      JoinKeepsHash(lines[i..next]);
    }
  }

  lemma SectionsNotBlank(lines: seq<string>)
    ensures NoBlank(SectionsOf(lines))
  {
    var hs := HeadingsOf(lines);
    SectionsFromNotBlank(lines, hs, NextHeading(hs, 0));
  }

  lemma {:induction false} SectionTextSnoc(sections: seq<Section>, last: Section)
    ensures SectionText(sections + [last]) == SectionText(sections) + SolidAll(last.lines)
  {
    if sections == [] {
      assert [last][1..] == [];
    } else {
      assert (sections + [last])[1..] == sections[1..] + [last];
      SectionTextSnoc(sections[1..], last);
    }
  }

  function AllChunks(sections: seq<Section>, maxChars: nat): seq<string>
    requires maxChars > 0
  {
    if sections == [] then []
    else
      var n := |sections| - 1;
      AllChunks(sections[..n], maxChars) + Chunks(TrimmedText(sections[n]), maxChars)
  }

  lemma {:induction false} OutputContents(sections: seq<Section>, source: string, maxChars: nat)
    requires maxChars > 0
    ensures Contents(Output(sections, source, maxChars)) == AllChunks(sections, maxChars)
  {
    if sections != [] {
      var n := |sections| - 1;
      OutputContents(sections[..n], source, maxChars);
      ContentsSnoc(Output(sections[..n], source, maxChars), sections[n],
                   Chunks(TrimmedText(sections[n]), maxChars), source, n);
    }
  }

  lemma {:induction false} AllChunksKeepText(sections: seq<Section>, maxChars: nat)
    requires maxChars > 0 && NoBlank(sections)
    ensures SolidAll(AllChunks(sections, maxChars)) == SectionText(sections)
    ensures Bounded(AllChunks(sections, maxChars), maxChars)
  {
    if sections != [] {
      var n := |sections| - 1;
      var front, last := AllChunks(sections[..n], maxChars), Chunks(TrimmedText(sections[n]), maxChars);
      AllChunksKeepText(sections[..n], maxChars);
      ChunksKeepText(TrimmedText(sections[n]), maxChars);
      TrimmedKeepsText(sections[n]);
      SolidAllConcat(front, last);
      BoundedConcat(front, last, maxChars);
      SectionTextSnoc(sections[..n], sections[n]);
      InitLast(sections);
    }
  }

  lemma ContentsSnoc(front: seq<MarkdownSection>, section: Section, chunks: seq<string>, source: string, index: nat)
    ensures Contents(front + Numbered(section, chunks, source, index)) == Contents(front) + chunks
  {
  }

  /** From text to chunks, every character that is not whitespace comes out once and in order, no chunk is empty
      or too long, and the fallback for a text without sections is needed only if the text is blank. */
  lemma SplitKeepsText(text: string, source: string, maxChars: nat)
    requires maxChars > 0
    ensures var output := Output(SectionsOf(SplitLines(text)), source, maxChars);
            SolidAll(Contents(output)) == Solid(text) && Bounded(Contents(output), maxChars)
    ensures SectionsOf(SplitLines(text)) == [] ==> Strip(text) == ""
  {
    var lines := SplitLines(text);
    LinesKeepText(text);
    SectionsKeepText(lines);
    SectionsNotBlank(lines);
    OutputContents(SectionsOf(lines), source, maxChars);
    AllChunksKeepText(SectionsOf(lines), maxChars);
    SolidBlank(text);
    var _ := StripCuts(text);
  }

  // ---- which lines are headings, and with which titles ----

  function Hash(n: nat): string { seq(n, _ => '#') }

  lemma {:induction false} HashesAre(line: string, n: nat)
    requires n <= |line| && line[..n] == Hash(n) && (n < |line| ==> line[n] != '#')
    ensures Hashes(line) == n
  {
    if n > 0 {
      assert line[0] == line[..n][0] == '#';
      assert line[1..][..n - 1] == line[..n][1..] == Hash(n - 1);
      HashesAre(line[1..], n - 1);
    }
  }

  lemma {:induction false} HashesStart(line: string)
    ensures line[..Hashes(line)] == Hash(Hashes(line))
    ensures Hashes(line) < |line| ==> line[Hashes(line)] != '#'
  {
    if line != "" && line[0] == '#' {
      HashesStart(line[1..]);
      assert line[..Hashes(line)] == ['#'] + line[1..][..Hashes(line) - 1];
    } else {
      assert line[..0] == "";
    }
  }

  /** A line is a heading of level `n` exactly when it starts with `n` hashes, one to six, a whitespace character after
      them, and at least one character more. */
  lemma HeadingIff(line: string, n: nat)
    ensures HeadingOf(line).Some? && HeadingOf(line).value.level == n
            <==> 1 <= n <= 6 && n + 2 <= |line| && line[..n] == Hash(n) && IsSpace(line[n])
  {
    HashesStart(line);
    if 1 <= n <= 6 && n + 2 <= |line| && line[..n] == Hash(n) && IsSpace(line[n]) {
      HashesAre(line, n);
    }
  }

  /** A title as it should be: not empty, no whitespace and no hash at its ends, single spaces inside. */
  predicate CleanTitle(t: string) {
    && t != "" && !IsSpace(t[0]) && !IsSpace(t[|t| - 1]) && t[0] != '#' && t[|t| - 1] != '#'
    && forall i :: 0 < i < |t| && IsSpace(t[i]) ==> t[i] == ' ' && !IsSpace(t[i - 1])
  }

  lemma {:induction false} TrimHashesRight(x: string, k: nat)
    requires x != "" && x[0] != '#' && x[|x| - 1] != '#'
    ensures TrimHashes(x + Hash(k)) == x
    decreases k
  {
    var s := x + Hash(k);
    if k > 0 {
      assert s[0] == x[0] && s[|s| - 1] == '#' && s[..|s| - 1] == x + Hash(k - 1);
      TrimHashesRight(x, k - 1);
    } else {
      assert s == x;
    }
  }

  lemma {:induction false} TrimHashesBoth(m: nat, x: string, k: nat)
    requires x != "" && x[0] != '#' && x[|x| - 1] != '#'
    ensures TrimHashes(Hash(m) + x + Hash(k)) == x
    decreases m
  {
    var s := Hash(m) + x + Hash(k);
    if m > 0 {
      assert s[0] == '#' && s[1..] == Hash(m - 1) + x + Hash(k);
      TrimHashesBoth(m - 1, x, k);
    } else {
      assert s == x + Hash(k);
      TrimHashesRight(x, k);
    }
  }

  lemma {:induction false} CleanCollapses(t: string)
    requires forall i :: 0 <= i < |t| && IsSpace(t[i]) ==> t[i] == ' ' && (i > 0 ==> !IsSpace(t[i - 1]))
    ensures Collapsed(t) == t
  {
    if t != "" {
      CleanCollapses(t[..|t| - 1]);
      InitLast(t);
    }
  }

  lemma StripSpaces(left: string, t: string, right: string)
    requires t != "" && !IsSpace(t[0]) && !IsSpace(t[|t| - 1]) && Blank(left) && Blank(right)
    ensures Strip(left + t + right) == t
  {
    assert left + t + right == left + (t + right);
    StripBlankLeft(left, t + right);
    StripBlankRight(t, right);
  }

  lemma {:induction false} StripBlankLeft(left: string, s: string)
    requires s != "" && !IsSpace(s[0]) && Blank(left)
    ensures StripLeft(left + s) == s
  {
    if left == "" {
      assert left + s == s;
    } else {
      assert (left + s)[1..] == left[1..] + s;
      StripBlankLeft(left[1..], s);
    }
  }

  lemma {:induction false} StripBlankRight(s: string, right: string)
    requires s != "" && !IsSpace(s[|s| - 1]) && Blank(right)
    ensures StripRight(s + right) == s
  {
    if right == "" {
      assert s + right == s;
    } else {
      assert (s + right)[..|s + right| - 1] == s + right[..|right| - 1];
      StripBlankRight(s, right[..|right| - 1]);
    }
  }

  /** Hashes, then the title with hashes around it or not, separated by single spaces. */
  function Opening(m: nat): string { if m == 0 then "" else Hash(m) + " " }

  function Closing(k: nat): string { if k == 0 then "" else " " + Hash(k) }

  function Gap(n: nat): string { if n == 0 then "" else " " }

  lemma GapEnds(m: nat, t: string, k: nat)
    requires CleanTitle(t)
    ensures var x := Gap(m) + t + Gap(k); x != "" && x[0] != '#' && x[|x| - 1] != '#'
  {
  }

  lemma HashesOutside(m: nat, t: string, k: nat)
    ensures Opening(m) + t + Closing(k) == Hash(m) + (Gap(m) + t + Gap(k)) + Hash(k)
  {
  }

  lemma WithoutHashes(m: nat, t: string, k: nat)
    requires CleanTitle(t)
    ensures TrimHashes(Opening(m) + t + Closing(k)) == Gap(m) + t + Gap(k)
  {
    GapEnds(m, t, k);
    HashesOutside(m, t, k);
    TrimHashesBoth(m, Gap(m) + t + Gap(k), k);
  }

  lemma GapsCollapse(m: nat, t: string, k: nat)
    requires CleanTitle(t)
    ensures Collapsed(Gap(m) + t + Gap(k)) == Gap(m) + t + Gap(k)
  {
    var x, d := Gap(m) + t + Gap(k), |Gap(m)|;
    forall i | 0 <= i < |x| && IsSpace(x[i]) ensures x[i] == ' ' && (i > 0 ==> !IsSpace(x[i - 1])) {
      if d <= i < d + |t| {
        assert x[i] == t[i - d];
        if i > d {
          assert x[i - 1] == t[i - d - 1];
        }
      }
    }
    CleanCollapses(x);
  }

  lemma CleanHeadingOf(m: nat, t: string, k: nat)
    requires CleanTitle(t)
    ensures CleanHeading(" " + (Opening(m) + t + Closing(k))) == t
  {
    var inner := Opening(m) + t + Closing(k);
    EndsAreSolid(m, t, k);
    StripSpaces(" ", inner, "");
    assert " " + inner + "" == " " + inner;
    WithoutHashes(m, t, k);
    GapsCollapse(m, t, k);
    StripSpaces(Gap(m), t, Gap(k));
  }

  lemma EndsAreSolid(m: nat, t: string, k: nat)
    requires CleanTitle(t)
    ensures var inner := Opening(m) + t + Closing(k);
            inner != "" && !IsSpace(inner[0]) && !IsSpace(inner[|inner| - 1])
  {
  }

  /** The title of a heading line is found whatever hashes stand before it and after it. */
  lemma TitleIsFound(level: nat, m: nat, t: string, k: nat)
    requires 1 <= level <= 6 && CleanTitle(t)
    ensures HeadingOf(Hash(level) + " " + Opening(m) + t + Closing(k)) == Some(Heading(level, t))
  {
    var inner := Opening(m) + t + Closing(k);
    var line := Hash(level) + " " + Opening(m) + t + Closing(k);
    assert line == Hash(level) + (" " + inner);
    assert line[..level] == Hash(level) && line[level] == ' ' && line[level..] == " " + inner;
    HashesAre(line, level);
    CleanHeadingOf(m, t, k);
  }

  // ---- the heading path, by what stands between ----

  /** A heading counts for line `i` if no heading after it, up to that line, is of its level or above. */
  ghost predicate StillOpen(hs: Outline, k: nat, i: nat)
    requires k <= i < |hs|
  {
    hs[k].Some? && forall m :: k < m <= i && hs[m].Some? ==> hs[m].value.level > hs[k].value.level
  }

  ghost predicate Rising(places: seq<nat>) { forall p, q :: 0 <= p < q < |places| ==> places[p] < places[q] }

  lemma NothingBetween(hs: Outline, i: nat, level: nat, m: nat)
    requires m < i <= |hs| && hs[m].Some?
    requires ParentBefore(hs, i, level).Some? ==> ParentBefore(hs, i, level).value < m
    ensures hs[m].value.level >= level
  {
    if hs[m].value.level < level {
      ParentIsNearest(hs, i, level, m);
    }
  }

  lemma OpenBelowParent(hs: Outline, k: nat, i: nat, j: nat)
    requires k <= j < i < |hs| && hs[i].Some? && ParentBefore(hs, i, hs[i].value.level) == Some(j)
    ensures StillOpen(hs, k, i) <==> StillOpen(hs, k, j)
  {
    if StillOpen(hs, k, j) {
      assert hs[j].value.level >= hs[k].value.level;
      forall m | k < m <= i && hs[m].Some? ensures hs[m].value.level > hs[k].value.level {
        if j < m < i {
          NothingBetween(hs, i, hs[i].value.level, m);
        }
      }
    }
  }

  lemma OpenThroughParent(hs: Outline, k: nat, i: nat)
    requires k < i < |hs| && hs[i].Some?
    ensures var j := ParentBefore(hs, i, hs[i].value.level);
            StillOpen(hs, k, i) <==> j.Some? && k <= j.value && StillOpen(hs, k, j.value)
  {
    var j := ParentBefore(hs, i, hs[i].value.level);
    if StillOpen(hs, k, i) {
      ParentIsNearest(hs, i, hs[i].value.level, k);
    }
    if j.Some? && k <= j.value {
      OpenBelowParent(hs, k, i, j.value);
    }
  }

  /** The path of a heading lists, in their order, exactly the headings that are still open on its line. */
  lemma {:induction false} PathIsOpenHeadings(hs: Outline, i: nat) returns (places: seq<nat>)
    requires i < |hs| && hs[i].Some?
    ensures Rising(places) && forall k: nat :: k in places <==> k <= i && StillOpen(hs, k, i)
    ensures |PathOf(hs, i)| == |places|
    ensures forall p :: 0 <= p < |places| ==> places[p] <= i && hs[places[p]] == Some(PathOf(hs, i)[p])
    decreases i
  {
    var j := ParentBefore(hs, i, hs[i].value.level);
    if j.None? {
      places := [i];
      forall k: nat ensures k in places <==> k <= i && StillOpen(hs, k, i) {
        if k < i {
          OpenThroughParent(hs, k, i);
        }
      }
    } else {
      var before := PathIsOpenHeadings(hs, j.value);
      places := before + [i];
      forall k: nat ensures k in places <==> k <= i && StillOpen(hs, k, i) {
        if k < i {
          OpenThroughParent(hs, k, i);
        }
      }
    }
  }

  // ---- what comes out, entry by entry ----

  /** The entry is the chunk of its section that its numbers say, filed under the section's path or, without one, under
      the source path. */
  ghost predicate EntryOk(sections: seq<Section>, source: string, maxChars: nat, o: MarkdownSection)
    requires maxChars > 0
  {
    && o.sectionIndex < |sections|
    && var section := sections[o.sectionIndex]; var chunks := Chunks(Strip(Join(section.lines)), maxChars);
       && o.chunkIndex < |chunks| && o.content == chunks[o.chunkIndex]
       && o.headingPath == if section.path == [] then [source] else section.path
  }

  ghost predicate InSequence(a: MarkdownSection, b: MarkdownSection) {
    a.sectionIndex < b.sectionIndex || (a.sectionIndex == b.sectionIndex && a.chunkIndex < b.chunkIndex)
  }

  ghost predicate HasEntry(output: seq<MarkdownSection>, s: nat, c: nat) {
    exists i :: 0 <= i < |output| && output[i].sectionIndex == s && output[i].chunkIndex == c
  }

  lemma NumberedIs(section: Section, chunks: seq<string>, source: string, index: nat)
    ensures var out := Numbered(section, chunks, source, index);
            && |out| == |chunks|
            && forall k :: 0 <= k < |out| ==>
                 && out[k].sectionIndex == index && out[k].chunkIndex == k && out[k].content == chunks[k]
                 && out[k].headingPath == if section.path == [] then [source] else section.path
  {
  }

  ghost predicate OutputOk(sections: seq<Section>, source: string, maxChars: nat, output: seq<MarkdownSection>)
    requires maxChars > 0
  {
    && (forall i :: 0 <= i < |output| ==> EntryOk(sections, source, maxChars, output[i]))
    && (forall i, j :: 0 <= i < j < |output| ==> InSequence(output[i], output[j]))
    && forall s: nat, c: nat :: s < |sections| && c < |Chunks(Strip(Join(sections[s].lines)), maxChars)| ==>
         HasEntry(output, s, c)
  }

  lemma EntryLonger(sections: seq<Section>, more: Section, source: string, maxChars: nat, o: MarkdownSection)
    requires maxChars > 0 && EntryOk(sections, source, maxChars, o)
    ensures EntryOk(sections + [more], source, maxChars, o) && o.sectionIndex < |sections|
  {
    assert (sections + [more])[o.sectionIndex] == sections[o.sectionIndex];
  }

  lemma OutputMore(sections: seq<Section>, more: Section, source: string, maxChars: nat, front: seq<MarkdownSection>)
    requires maxChars > 0 && OutputOk(sections, source, maxChars, front)
    ensures var last := Numbered(more, Chunks(TrimmedText(more), maxChars), source, |sections|);
            OutputOk(sections + [more], source, maxChars, front + last)
  {
    var n, all, chunks := |sections|, sections + [more], Chunks(Strip(Join(more.lines)), maxChars);
    var last := Numbered(more, chunks, source, n);
    NumberedIs(more, chunks, source, n);
    forall i | 0 <= i < |front| ensures EntryOk(all, source, maxChars, front[i]) && front[i].sectionIndex < n {
      EntryLonger(sections, more, source, maxChars, front[i]);
    }
    assert all[n] == more;
    forall s: nat, c: nat | s < |all| && c < |Chunks(Strip(Join(all[s].lines)), maxChars)|
      ensures HasEntry(front + last, s, c)
    {
      if s == n {
        assert (front + last)[|front| + c] == last[c];
      } else {
        assert all[s] == sections[s] && HasEntry(front, s, c);
        var i :| 0 <= i < |front| && front[i].sectionIndex == s && front[i].chunkIndex == c;
        assert (front + last)[i] == front[i];
      }
    }
  }

  lemma FirstSections(sections: seq<Section>, n: nat)
    requires 0 < n <= |sections|
    ensures sections[..n] == sections[..n - 1] + [sections[n - 1]]
  {
  }

  /** Every chunk of every section comes out once, in the order of sections and chunks, with its numbers and path. */
  lemma {:induction false} OutputIs(sections: seq<Section>, source: string, maxChars: nat, n: nat)
    requires maxChars > 0 && n <= |sections|
    ensures OutputOk(sections[..n], source, maxChars, Output(sections[..n], source, maxChars))
  {
    if n > 0 {
      OutputIs(sections, source, maxChars, n - 1);
      OutputMore(sections[..n - 1], sections[n - 1], source, maxChars, Output(sections[..n - 1], source, maxChars));
      OutputNext(sections, source, maxChars, n - 1);
      FirstSections(sections, n);
    }
  }

  // ---- the sections hold the lines ----

  function LinesIn(sections: seq<Section>): seq<string> {
    if sections == [] then [] else sections[0].lines + LinesIn(sections[1..])
  }

  lemma {:induction false} SectionsFromHoldLines(lines: seq<string>, hs: Outline, i: nat)
    requires |hs| == |lines| && i <= |lines| && (i < |lines| ==> hs[i].Some?)
    ensures LinesIn(SectionsFrom(lines, hs, i)) == lines[i..]
    decreases |lines| - i
  {
    if i < |lines| {
      var next := NextHeading(hs, i + 1);
      SectionsFromHoldLines(lines, hs, next);
      assert lines[i..] == lines[i..next] + lines[next..];
    }
  }

  /** A section starts with its heading, whose title ends its path, and has no other heading in it. */
  ghost predicate StartsWithHeading(section: Section) {
    && section.lines != [] && section.path != []
    && HeadingOf(section.lines[0]).Some?
    && HeadingOf(section.lines[0]).value.title == section.path[|section.path| - 1]
    && forall k :: 0 < k < |section.lines| ==> HeadingOf(section.lines[k]).None?
  }

  ghost predicate AllStart(sections: seq<Section>) {
    forall k :: 0 <= k < |sections| ==> StartsWithHeading(sections[k])
  }

  lemma AllStartMore(section: Section, rest: seq<Section>)
    requires StartsWithHeading(section) && AllStart(rest)
    ensures AllStart([section] + rest)
  {
  }

  lemma {:induction false} SectionsFromStart(lines: seq<string>, hs: Outline, i: nat)
    requires i <= |lines| && hs == HeadingsOf(lines) && (i < |lines| ==> hs[i].Some?)
    ensures AllStart(SectionsFrom(lines, hs, i))
    decreases |lines| - i
  {
    if i < |lines| {
      var next := NextHeading(hs, i + 1);
      SectionsFromStart(lines, hs, next);
      FirstStarts(lines, hs, i, next);
      AllStartMore(Section(Titles(PathOf(hs, i)), lines[i..next]), SectionsFrom(lines, hs, next));
    }
  }

  lemma FirstStarts(lines: seq<string>, hs: Outline, i: nat, next: nat)
    requires i < next <= |lines| && hs == HeadingsOf(lines) && hs[i].Some?
    requires forall k :: i < k < next ==> hs[k].None?
    ensures StartsWithHeading(Section(Titles(PathOf(hs, i)), lines[i..next]))
  {
    var part := lines[i..next];
    assert part[0] == lines[i];
    forall k | 0 < k < |part| ensures HeadingOf(part[k]).None? {
      assert hs[i + k].None? && part[k] == lines[i + k];
    }
  }

  /** The sections hold the lines in their order, from the first heading on, or from the start if what is before the
      first heading is not blank; every one but that first starts with its only heading. */
  lemma SectionsHoldLines(lines: seq<string>) returns (first: nat)
    ensures first <= |lines| && (first < |lines| ==> HeadingOf(lines[first]).Some?)
    ensures forall k :: 0 <= k < first ==> HeadingOf(lines[k]).None?
    ensures var sections := SectionsOf(lines); var preamble := Strip(Join(lines[..first])) != "";
            && LinesIn(sections) == (if preamble then lines else lines[first..])
            && (preamble ==> sections != [] && sections[0] == Section([], lines[..first]))
            && forall k :: (if preamble then 1 else 0) <= k < |sections| ==> StartsWithHeading(sections[k])
  {
    var hs := HeadingsOf(lines);
    first := NextHeading(hs, 0);
    forall k | 0 <= k < first ensures HeadingOf(lines[k]).None? {
      assert hs[k].None?;
    }
    SectionsFromHoldLines(lines, hs, first);
    SectionsFromStart(lines, hs, first);
    WithPreamble(lines, first, SectionsFrom(lines, hs, first));
  }

  lemma WithPreamble(lines: seq<string>, first: nat, rest: seq<Section>)
    requires first <= |lines| && LinesIn(rest) == lines[first..] && AllStart(rest)
    ensures var preamble := Strip(Join(lines[..first])) != "";
            var sections := (if preamble then [Section([], lines[..first])] else []) + rest;
            && LinesIn(sections) == (if preamble then lines else lines[first..])
            && forall k :: (if preamble then 1 else 0) <= k < |sections| ==> StartsWithHeading(sections[k])
  {
    assert ([Section([], lines[..first])] + rest)[1..] == rest && [] + rest == rest;
    assert lines == lines[..first] + lines[first..];
  }
}
