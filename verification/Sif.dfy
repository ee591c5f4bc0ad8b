/** The SIF v1 context frame: a header and one or two lines per memory, fitted to a token budget. */
module Sif {
  import opened Wrappers
  import opened Ordering
  import opened Text

  const BASE := "LMV2_SIF v1 q="
  const QUERY_CHARS := 72
  const SMALL_BUDGET := 80
  const FIRST_ID_CHARS := 52

  /** A recall result. `details` and `extras` are the attribute strings of the long and the short entry; `prompt` is
      the governed prompt text. */
  datatype Recalled = Recalled(
    id: string, score: real, importance: real, confidence: real, createdAt: real,
    details: seq<string>, extras: seq<string>, prompt: string)

  function Ids(results: seq<Recalled>): seq<string> {
    if results == [] then [] else Ids(results[..|results| - 1]) + [results[|results| - 1].id]
  }

  predicate Urgent(r: Recalled) { r.importance >= 0.95 }

  /** The sort key of `a` is not below the key of `b`. */
  predicate Ahead(a: Recalled, b: Recalled) {
    if Urgent(a) != Urgent(b) then Urgent(a)
    else if a.score != b.score then a.score > b.score
    else if a.importance != b.importance then a.importance > b.importance
    else if a.confidence != b.confidence then a.confidence > b.confidence
    else a.createdAt >= b.createdAt
  }

  lemma AheadIsTotal()
    ensures TotalPreorder(Ahead)
  {
  }

  /** The order in which results are placed: as given, or by key, highest first. */
  function InOrder(results: seq<Recalled>, preserveOrder: bool): seq<Recalled> {
    AheadIsTotal();
    if preserveOrder then results else Sorted(results, Ahead)
  }

  // ---- one-line texts ----

  function OneLine(text: string, maxChars: int): string {
    if text == "" || maxChars <= 0 then ""
    else
      var compact := Strip(Collapsed(text));
      if |compact| <= maxChars then compact
      else if maxChars <= 3 then compact[..maxChars]
      else StripRight(compact[..maxChars - 3]) + "..."
  }

  function FitChars(text: string, budget: int): string {
    var clean := OneLine(text, if budget > 0 then budget else 0);
    if clean == "" || budget <= 0 then ""
    else if |clean| <= budget then clean
    else if budget <= 3 then ""
    else StripRight(clean[..budget - 3]) + "..."
  }

  /** A text on one line: plain spaces are its only whitespace. */
  predicate Plain(s: string) { forall i :: 0 <= i < |s| ==> IsSpace(s[i]) ==> s[i] == ' ' }

  lemma {:induction false} CollapsedPlain(s: string)
    ensures Plain(Collapsed(s))
  {
    if s != "" {
      CollapsedPlain(s[..|s| - 1]);
    }
  }

  lemma PlainPart(s: string, lo: nat, hi: nat)
    requires lo <= hi <= |s| && Plain(s)
    ensures Plain(s[lo..hi])
  {
  }

  lemma OneLineFits(text: string, maxChars: int)
    ensures |OneLine(text, maxChars)| <= if maxChars > 0 then maxChars else 0
    ensures Plain(OneLine(text, maxChars))
  {
    if text != "" && maxChars > 0 {
      CollapsedPlain(text);
      var left := StripCuts(Collapsed(text));
      var compact := Strip(Collapsed(text));
      PlainPart(Collapsed(text), left, left + |compact|);
      if |compact| > maxChars > 3 {
        var cut := compact[..maxChars - 3];
        StripRightCuts(cut);
        PlainPart(compact, 0, |StripRight(cut)|);
        assert StripRight(cut) == compact[0..|StripRight(cut)|];
      } else if |compact| > maxChars {
        PlainPart(compact, 0, maxChars);
        assert compact[0..maxChars] == compact[..maxChars];
      }
    }
  }

  /** What a one-line text shows of the original: its non-whitespace characters in order, all of them if they fit
      with single spaces, and otherwise a first part, marked with dots when there is room for them. */
  lemma OneLineShowsText(text: string, maxChars: int) returns (cut: string)
    ensures OneLine(text, maxChars) == cut || OneLine(text, maxChars) == cut + "..."
    ensures Solid(cut) <= Solid(text)
    ensures |Strip(Collapsed(text))| <= maxChars ==> cut == OneLine(text, maxChars) && Solid(cut) == Solid(text)
  {
    var compact := Strip(Collapsed(text));
    SolidCollapsed(text);
    SolidStrip(Collapsed(text));
    if text == "" || maxChars <= 0 {
      cut := "";
      SolidBlank(compact);
    } else if |compact| <= maxChars {
      cut := compact;
    } else if maxChars <= 3 {
      cut := compact[..maxChars];
      SolidSplit(compact, maxChars);
    } else {
      cut := StripRight(compact[..maxChars - 3]);
      SolidStripRight(compact[..maxChars - 3]);
      SolidSplit(compact, maxChars - 3);
    }
  }

  /** The second cut is never made. */
  lemma FitCharsIsOneLine(text: string, budget: int)
    ensures FitChars(text, budget) == OneLine(text, budget)
  {
    OneLineFits(text, budget);
  }

  lemma {:induction false} SolidCollapses(s: string)
    requires forall i :: 0 <= i < |s| ==> !IsSpace(s[i])
    ensures Collapsed(s) == s
  {
    if s != "" {
      SolidCollapses(s[..|s| - 1]);
    }
  }

  // ---- lines ----

  lemma InitOfMore<T>(s: seq<T>, x: T)
    ensures (s + [x])[..|s|] == s
  {
  }

  lemma {:induction false} JoinMore(lines: seq<string>, line: string)
    requires lines != []
    ensures Join(lines + [line]) == Join(lines) + "\n" + line
  {
    var all := lines + [line];
    if |lines| == 1 {
      assert all[1..] == [line];
    } else {
      assert all[1..] == lines[1..] + [line];
      JoinMore(lines[1..], line);
      assert lines[0] + "\n" + (Join(lines[1..]) + "\n" + line) == lines[0] + "\n" + Join(lines[1..]) + "\n" + line;
    }
  }

  function Decimal(n: nat): string {
    if n < 10 then [(48 + n) as char] else Decimal(n / 10) + [(48 + n % 10) as char]
  }

  function Spaced(parts: seq<string>): string {
    if parts == [] then "" else Spaced(parts[..|parts| - 1]) + " " + parts[|parts| - 1]
  }

  function Inspect(id: string): string { "inspect_memory(" + id + ")" }

  /** The first line of a long entry. */
  function MetaLine(index: nat, r: Recalled): string {
    "[M" + Decimal(index) + "] id=" + r.id + Spaced(r.details) + " " + Inspect(r.id)
  }

  /** The shortest entry there is. */
  function Bare(index: nat, id: string): string { "M" + Decimal(index) + " id=" + id }

  // ---- the assembler ----

  /** ceil(n / c) <= k */
  lemma CeilIff(n: nat, c: nat, k: nat)
    requires c > 0
    ensures (n + c - 1) / c <= k <==> n <= k * c
  {
    var q := (n + c - 1) / c;
    if q <= k {
      assert q * c <= k * c;
    } else {
      assert (k + 1) * c <= q * c;
    }
  }

  datatype Frame = Frame(lines: seq<string>, kept: seq<Recalled>, dropped: nat)

  /** What a visit makes of a frame, given where its entry was placed. */
  function Taken(f: Frame, r: Recalled, placed: Option<seq<string>>): Frame {
    if placed.Some? then Frame(placed.value, f.kept + [r], f.dropped) else f.(dropped := f.dropped + 1)
  }

  datatype Assembler = Assembler(maxTokens: nat, charsPerToken: nat) {

    static function Create(maxTokens: int, charsPerToken: int): (r: Result<Assembler, string>)
      ensures r.Failure? <==> maxTokens <= 0
      ensures r.Success? ==> r.value.Valid() && r.value.maxTokens == maxTokens
      ensures r.Success? && charsPerToken >= 1 ==> r.value.charsPerToken == charsPerToken
      ensures r.Success? && charsPerToken < 1 ==> r.value.charsPerToken == 1
    {
      if maxTokens <= 0 then Failure("max_tokens must be positive")
      else Success(Assembler(maxTokens, if charsPerToken > 1 then charsPerToken else 1))
    }

    predicate Valid() { maxTokens > 0 && charsPerToken > 0 }

    function Chars(): nat { maxTokens * charsPerToken }

    function Estimate(text: string): nat
      requires Valid()
    {
      if text == "" then 0
      else
        var n := (|text| + charsPerToken - 1) / charsPerToken;
        if n > 1 then n else 1
    }

    predicate Fits(lines: seq<string>)
      requires Valid()
    {
      Estimate(Join(lines)) <= maxTokens
    }

    function HeaderLine(query: string): string {
      var room := Chars() - |BASE| - FIRST_ID_CHARS;
      var maxQuery :=
        if maxTokens >= SMALL_BUDGET then QUERY_CHARS
        else
          var least := if QUERY_CHARS <= room then QUERY_CHARS else room;
          if least > 0 then least else 0;
      BASE + OneLine(query, maxQuery)
    }

    /** As much of the text as the tokens left after the attributes pay for. */
    function FirstSnippet(lines: seq<string>, meta: string, prompt: string): string
      requires Valid()
    {
      var remaining := maxTokens - Estimate(Join(lines + [meta, ""]));
      if remaining <= 0 then "" else FitChars(prompt, remaining * charsPerToken)
    }

    /** A second attempt, in characters, for a snippet that is too long. */
    function Refit(lines: seq<string>, meta: string, prompt: string, snippet: string): string
      requires Valid()
    {
      if Fits(lines + [meta, snippet]) then snippet
      else
        var again := FitChars(prompt, Chars() - |Join(lines + [meta, ""])|);
        if again == "" then snippet else again
    }

    /** The long entry: attributes and text. */
    function TryFull(lines: seq<string>, index: nat, r: Recalled): Option<seq<string>>
      requires Valid()
    {
      var meta := MetaLine(index, r);
      var snippet := FirstSnippet(lines, meta, r.prompt);
      if snippet == "" then None
      else
        var candidate := lines + [meta, Refit(lines, meta, r.prompt, snippet)];
        if Fits(candidate) then Some(candidate) else None
    }

    /** Appends every extra that still fits. */
    function AddExtras(lines: seq<string>, candidate: string, extras: seq<string>): string
      requires Valid()
    {
      if extras == [] then candidate
      else
        var before := AddExtras(lines, candidate, extras[..|extras| - 1]);
        var trial := before + " " + extras[|extras| - 1];
        if Fits(lines + [trial]) then trial else before
    }

    function Micro(lines: seq<string>, index: nat, r: Recalled): Option<string>
      requires Valid()
    {
      var bare := Bare(index, r.id);
      if Fits(lines + [bare]) then Some(AddExtras(lines, bare, r.extras + [Inspect(r.id)])) else None
    }

    /** The lines with an entry for the result, long if possible, short otherwise. */
    function Placed(lines: seq<string>, index: nat, r: Recalled): Option<seq<string>>
      requires Valid()
    {
      match TryFull(lines, index, r)
      case Some(longer) => Some(longer)
      case None =>
        match Micro(lines, index, r)
        case Some(line) => Some(lines + [line])
        case None => None
    }

    function Visit(f: Frame, r: Recalled): Frame
      requires Valid()
    {
      Taken(f, r, Placed(f.lines, |f.kept| + 1, r))
    }

    function Run(query: string, ordered: seq<Recalled>): Frame
      requires Valid()
    {
      if ordered == [] then Frame([HeaderLine(query)], [], 0)
      else Visit(Run(query, ordered[..|ordered| - 1]), ordered[|ordered| - 1])
    }

    method FitMicro(lines: seq<string>, index: nat, r: Recalled) returns (micro: Option<string>)
      requires Valid()
      ensures micro == Micro(lines, index, r)
    {
      var candidate := Bare(index, r.id);
      if !Fits(lines + [candidate]) {
        return None;
      }
      var extras := r.extras + [Inspect(r.id)];
      for i := 0 to |extras|
        invariant candidate == AddExtras(lines, Bare(index, r.id), extras[..i])
      {
        assert extras[..i + 1][..i] == extras[..i];
        var trial := candidate + " " + extras[i];
        if Fits(lines + [trial]) {
          candidate := trial;
        }
      }
      assert extras[..|extras|] == extras;
      micro := Some(candidate);
    }

    method Place(lines: seq<string>, index: nat, r: Recalled) returns (placed: Option<seq<string>>)
      requires Valid()
      ensures placed == Placed(lines, index, r)
    {
      placed := TryFull(lines, index, r);
      if placed.None? {
        var micro := FitMicro(lines, index, r);
        if micro.Some? {
          placed := Some(lines + [micro.value]);
        }
      }
    }

    /** The working variables of the loop hold what the frame says. */
    ghost predicate Shows(f: Frame, lines: seq<string>, memoryIds: seq<string>, dropped: nat) {
      lines == f.lines && memoryIds == Ids(f.kept) && |memoryIds| == |f.kept| && dropped == f.dropped
    }

    lemma ShowsNext(f: Frame, memoryIds: seq<string>, r: Recalled, placed: Option<seq<string>>)
      requires Valid() && Shows(f, f.lines, memoryIds, f.dropped)
      requires placed == Placed(f.lines, |memoryIds| + 1, r)
      ensures placed.Some? ==> Shows(Visit(f, r), placed.value, memoryIds + [r.id], f.dropped)
      ensures placed.None? ==> Shows(Visit(f, r), f.lines, memoryIds, f.dropped + 1)
    {
      InitOfMore(f.kept, r);
    }

    lemma RunNext(query: string, ordered: seq<Recalled>, i: nat)
      requires Valid() && i < |ordered|
      ensures Run(query, ordered[..i + 1]) == Visit(Run(query, ordered[..i]), ordered[i])
    {
      assert ordered[..i + 1][..i] == ordered[..i];
    }

    method AssembleInOrder(query: string, ordered: seq<Recalled>)
      returns (lines: seq<string>, memoryIds: seq<string>, dropped: nat)
      requires Valid()
      ensures Shows(Run(query, ordered), lines, memoryIds, dropped)
    {
      lines, memoryIds, dropped := [HeaderLine(query)], [], 0;
      ghost var frame := Run(query, []);
      for i := 0 to |ordered|
        invariant frame == Run(query, ordered[..i])
        invariant Shows(frame, lines, memoryIds, dropped)
      {
        var r := ordered[i];
        RunNext(query, ordered, i);
        var placed := Place(lines, |memoryIds| + 1, r);
        ShowsNext(frame, memoryIds, r, placed);
        if placed.Some? {
          lines, memoryIds := placed.value, memoryIds + [r.id];
        } else {
          dropped := dropped + 1;
        }
        frame := Visit(frame, r);
      }
      assert ordered[..|ordered|] == ordered;
    }

    method Assemble(query: string, results: seq<Recalled>, preserveOrder: bool)
      returns (text: string, memoryIds: seq<string>, dropped: nat, estimated: nat)
      requires Valid()
      ensures var f := Run(query, InOrder(results, preserveOrder));
              text == Join(f.lines) && memoryIds == Ids(f.kept) && dropped == f.dropped
      ensures estimated == Estimate(text)
    {
      var ordered := InOrder(results, preserveOrder);
      var lines;
      lines, memoryIds, dropped := AssembleInOrder(query, ordered);
      text := Join(lines);
      estimated := Estimate(text);
    }
  }

  // ---- the budget ----

  lemma EstimateIff(a: Assembler, text: string, k: nat)
    requires a.Valid()
    ensures a.Estimate(text) <= k <==> |text| <= k * a.charsPerToken
  {
    CeilIff(|text|, a.charsPerToken, k);
    CeilIff(|text|, a.charsPerToken, 0);
    if text == "" {
      assert 0 <= k * a.charsPerToken;
    }
  }

  lemma FitsIff(a: Assembler, lines: seq<string>)
    requires a.Valid()
    ensures a.Fits(lines) <==> |Join(lines)| <= a.Chars()
  {
    EstimateIff(a, Join(lines), a.maxTokens);
  }

  lemma JoinTwo(lines: seq<string>, x: string, y: string)
    requires lines != []
    ensures Join(lines + [x, y]) == Join(lines) + "\n" + x + "\n" + y
  {
    assert lines + [x, y] == (lines + [x]) + [y];
    JoinMore(lines + [x], y);
    JoinMore(lines, x);
  }

  lemma Distribute(x: int, y: int, c: int)
    ensures (x + y) * c == x * c + y * c
  {
  }

  lemma SnippetLength(lines: seq<string>, meta: string, snippet: string)
    requires lines != []
    ensures |Join(lines + [meta, snippet])| == |Join(lines + [meta, ""])| + |snippet|
  {
    JoinTwo(lines, meta, "");
    JoinTwo(lines, meta, snippet);
  }

  /** What fits the tokens that are left in characters fits them in tokens. */
  lemma RoomLeft(prefix: nat, used: nat, left: nat, c: nat, snippet: nat)
    requires left > 0 && c > 0 && prefix <= used * c && snippet <= (if left * c > 0 then left * c else 0)
    ensures prefix + snippet <= (used + left) * c
  {
    Distribute(used, left, c);
    assert left * c >= 0;
  }

  /** Rounding to whole tokens never costs a retry: the first snippet always fits. */
  lemma FirstSnippetFits(a: Assembler, lines: seq<string>, meta: string, prompt: string)
    requires a.Valid() && lines != []
    ensures var snippet := a.FirstSnippet(lines, meta, prompt);
            snippet != "" ==> a.Fits(lines + [meta, snippet]) && SnippetOf(snippet, prompt)
  {
    var prefix := Join(lines + [meta, ""]);
    var used := a.Estimate(prefix);
    var left := a.maxTokens - used;
    if left > 0 {
      var room := left * a.charsPerToken;
      var snippet := FitChars(prompt, room);
      FitCharsIsOneLine(prompt, room);
      OneLineFits(prompt, room);
      EstimateIff(a, prefix, used);
      RoomLeft(|prefix|, used, left, a.charsPerToken, |snippet|);
      SnippetLength(lines, meta, snippet);
      FitsIff(a, lines + [meta, snippet]);
    }
  }

  lemma TwoMore<T>(s: seq<T>, x: T, y: T)
    ensures var t := s + [x, y];
            |t| == |s| + 2 && t[..|s|] == s && t[|s|] == x && t[|s| + 1] == y
  {
  }

  /** What a long entry is: the attributes and a non-empty one-line beginning of the text, within the budget. The
      second attempt at a snippet is never made. */
  lemma FullEntry(a: Assembler, lines: seq<string>, index: nat, r: Recalled) returns (snippet: string)
    requires a.Valid() && lines != []
    ensures snippet == a.FirstSnippet(lines, MetaLine(index, r), r.prompt)
    ensures a.TryFull(lines, index, r)
            == if snippet == "" then None else Some(lines + [MetaLine(index, r), snippet])
    ensures snippet != "" ==> a.Fits(lines + [MetaLine(index, r), snippet]) && SnippetOf(snippet, r.prompt)
  {
    snippet := a.FirstSnippet(lines, MetaLine(index, r), r.prompt);
    FirstSnippetFits(a, lines, MetaLine(index, r), r.prompt);
  }

  ghost predicate SnippetOf(snippet: string, prompt: string) {
    snippet != "" && exists n :: snippet == OneLine(prompt, n)
  }

  /** Where a long entry fits, the bare one does. */
  lemma FullLeavesRoom(a: Assembler, lines: seq<string>, index: nat, r: Recalled)
    requires a.Valid() && lines != [] && a.TryFull(lines, index, r).Some?
    ensures a.Fits(lines + [Bare(index, r.id)])
  {
    var full := a.TryFull(lines, index, r).value;
    var snippet := FullEntry(a, lines, index, r);
    var meta := MetaLine(index, r);
    JoinTwo(lines, meta, snippet);
    JoinMore(lines, Bare(index, r.id));
    FitsIff(a, full);
    FitsIff(a, lines + [Bare(index, r.id)]);
    assert |meta| >= |Bare(index, r.id)|;
  }

  /** A result is kept exactly when its bare entry still fits after the lines so far; otherwise nothing changes but
      the count of dropped results. */
  lemma VisitKeepsIff(a: Assembler, f: Frame, r: Recalled)
    requires a.Valid() && f.lines != []
    ensures var next := a.Visit(f, r); var bare := Bare(|f.kept| + 1, r.id);
            && (a.Fits(f.lines + [bare]) ==> next.kept == f.kept + [r] && next.dropped == f.dropped)
            && (!a.Fits(f.lines + [bare]) ==> next == f.(dropped := f.dropped + 1))
  {
    if a.TryFull(f.lines, |f.kept| + 1, r).Some? {
      FullLeavesRoom(a, f.lines, |f.kept| + 1, r);
    }
  }

  lemma {:induction false} ExtrasGrow(a: Assembler, lines: seq<string>, candidate: string, extras: seq<string>)
    requires a.Valid()
    ensures candidate <= a.AddExtras(lines, candidate, extras)
    ensures a.Fits(lines + [candidate]) ==> a.Fits(lines + [a.AddExtras(lines, candidate, extras)])
  {
    if extras != [] {
      ExtrasGrow(a, lines, candidate, extras[..|extras| - 1]);
    }
  }

  /** A visit only adds lines, and an entry that is added fits. */
  lemma VisitGrows(a: Assembler, f: Frame, r: Recalled)
    requires a.Valid() && f.lines != []
    ensures var next := a.Visit(f, r);
            && f.lines <= next.lines
            && ((next.lines == f.lines && next.kept == f.kept) || a.Fits(next.lines))
  {
    var index := |f.kept| + 1;
    var _ := FullEntry(a, f.lines, index, r);
    ExtrasGrow(a, f.lines, Bare(index, r.id), r.extras + [Inspect(r.id)]);
  }

  lemma {:induction false} JoinPrefix(lines: seq<string>, longer: seq<string>)
    requires lines != [] && lines <= longer
    ensures |Join(lines)| <= |Join(longer)|
    decreases |longer|
  {
    if lines != longer {
      var n := |longer| - 1;
      JoinPrefix(lines, longer[..n]);
      JoinMore(longer[..n], longer[n]);
      InitLast(longer);
    } else {
      assert lines == longer;
    }
  }

  /** The frame of any run fits the budget exactly when its header line does. */
  lemma {:induction false} FrameFitsIff(a: Assembler, query: string, ordered: seq<Recalled>)
    requires a.Valid()
    ensures [a.HeaderLine(query)] <= a.Run(query, ordered).lines
    ensures a.Fits(a.Run(query, ordered).lines) <==> |a.HeaderLine(query)| <= a.Chars()
  {
    if ordered == [] {
      FitsIff(a, [a.HeaderLine(query)]);
    } else {
      var front := ordered[..|ordered| - 1];
      FrameFitsIff(a, query, front);
      var f, next := a.Run(query, front), a.Run(query, ordered);
      VisitGrows(a, f, ordered[|ordered| - 1]);
      JoinPrefix([a.HeaderLine(query)], next.lines);
      FitsIff(a, next.lines);
    }
  }

  ghost predicate NeverOverBudget(a: Assembler)
    requires a.Valid()
  {
    forall query, ordered :: a.Fits(a.Run(query, ordered).lines)
  }

  lemma HeaderLength(a: Assembler, query: string)
    requires a.Valid()
    ensures |BASE| <= |a.HeaderLine(query)|
    ensures a.maxTokens < SMALL_BUDGET && a.Chars() >= |BASE| ==> |a.HeaderLine(query)| <= a.Chars()
    ensures |a.HeaderLine(query)| <= |BASE| + QUERY_CHARS
  {
    var room := a.Chars() - |BASE| - FIRST_ID_CHARS;
    OneLineFits(query, QUERY_CHARS);
    OneLineFits(query, 0);
    OneLineFits(query, room);
  }

  /** The settings under which no query and no results can exceed the budget: room for the fixed header, and from 80
      tokens on, where the query is not cut to the budget, room for a full query as well. */
  lemma NeverOverBudgetIff(a: Assembler)
    requires a.Valid()
    ensures NeverOverBudget(a)
            <==> a.Chars() >= |BASE| + if a.maxTokens < SMALL_BUDGET then 0 else QUERY_CHARS
  {
    if a.Chars() >= |BASE| + if a.maxTokens < SMALL_BUDGET then 0 else QUERY_CHARS {
      forall query, ordered ensures a.Fits(a.Run(query, ordered).lines) {
        FrameFitsIff(a, query, ordered);
        HeaderLength(a, query);
      }
    } else {
      var query := seq(QUERY_CHARS, _ => 'a');
      FrameFitsIff(a, query, []);
      HeaderLength(a, query);
      LongQuery(query);
      assert !a.Fits(a.Run(query, []).lines);
    }
  }

  lemma LongQuery(query: string)
    requires |query| == QUERY_CHARS && forall i :: 0 <= i < |query| ==> query[i] == 'a'
    ensures OneLine(query, QUERY_CHARS) == query
  {
    SolidCollapses(query);
    StripNothing(query);
  }

  /** At four characters a token every budget from four tokens on is kept. */
  lemma DefaultNeverOverBudget(maxTokens: nat, query: string, ordered: seq<Recalled>)
    requires maxTokens >= 4
    ensures var a := Assembler(maxTokens, 4); a.Estimate(Join(a.Run(query, ordered).lines)) <= maxTokens
  {
    var a := Assembler(maxTokens, 4);
    NeverOverBudgetIff(a);
    assert a.Fits(a.Run(query, ordered).lines);
  }

  // ---- what a frame holds ----

  /** `part` is `whole` with some elements left out. */
  ghost predicate Subsequence<T>(part: seq<T>, whole: seq<T>) {
    if whole == [] then part == []
    else
      var front, last := whole[..|whole| - 1], whole[|whole| - 1];
      || Subsequence(part, front)
      || (part != [] && part[|part| - 1] == last && Subsequence(part[..|part| - 1], front))
  }

  /** The lines are the header and then one entry per kept result, numbered from 1 in order: a short one that begins
      with its number and id, or a long one whose second line is a cut of its prompt text. */
  ghost predicate Traces(header: string, lines: seq<string>, kept: seq<Recalled>)
    decreases |kept|
  {
    if kept == [] then lines == [header]
    else
      var index := |kept|;
      var r, front := kept[index - 1], kept[..index - 1];
      || (|lines| >= 1 && Bare(index, r.id) <= lines[|lines| - 1]
          && Traces(header, lines[..|lines| - 1], front))
      || (|lines| >= 2 && lines[|lines| - 2] == MetaLine(index, r) && SnippetOf(lines[|lines| - 1], r.prompt)
          && Traces(header, lines[..|lines| - 2], front))
  }

  lemma TracesShort(header: string, lines: seq<string>, kept: seq<Recalled>, r: Recalled, line: string)
    requires Traces(header, lines, kept) && Bare(|kept| + 1, r.id) <= line
    ensures Traces(header, lines + [line], kept + [r])
  {
    InitOfMore(kept, r);
    InitOfMore(lines, line);
  }

  lemma TracesLong(header: string, lines: seq<string>, kept: seq<Recalled>, r: Recalled, snippet: string)
    requires Traces(header, lines, kept) && SnippetOf(snippet, r.prompt)
    ensures Traces(header, lines + [MetaLine(|kept| + 1, r), snippet], kept + [r])
  {
    InitOfMore(kept, r);
    TwoMore(lines, MetaLine(|kept| + 1, r), snippet);
  }

  /** The two forms of an entry. */
  lemma PlacedShape(a: Assembler, lines: seq<string>, index: nat, r: Recalled) returns (long: bool, last: string)
    requires a.Valid() && lines != []
    ensures var placed := a.Placed(lines, index, r);
            placed.Some? ==>
              && placed.value == (if long then lines + [MetaLine(index, r), last] else lines + [last])
              && (if long then SnippetOf(last, r.prompt) else Bare(index, r.id) <= last)
  {
    var snippet := FullEntry(a, lines, index, r);
    long, last := snippet != "", snippet;
    if !long {
      var extras := r.extras + [Inspect(r.id)];
      ExtrasGrow(a, lines, Bare(index, r.id), extras);
      last := a.AddExtras(lines, Bare(index, r.id), extras);
    }
  }

  lemma TakenTraces(header: string, f: Frame, r: Recalled, placed: Option<seq<string>>, long: bool, last: string)
    requires Traces(header, f.lines, f.kept)
    requires placed.Some? ==>
               && placed.value == (if long then f.lines + [MetaLine(|f.kept| + 1, r), last] else f.lines + [last])
               && (if long then SnippetOf(last, r.prompt) else Bare(|f.kept| + 1, r.id) <= last)
    ensures Traces(header, Taken(f, r, placed).lines, Taken(f, r, placed).kept)
  {
    if placed.Some? {
      if long {
        TracesLong(header, f.lines, f.kept, r, last);
      } else {
        TracesShort(header, f.lines, f.kept, r, last);
      }
    }
  }

  lemma VisitTraces(a: Assembler, header: string, f: Frame, r: Recalled)
    requires a.Valid() && f.lines != [] && Traces(header, f.lines, f.kept)
    ensures Traces(header, a.Visit(f, r).lines, a.Visit(f, r).kept)
  {
    var long, last := PlacedShape(a, f.lines, |f.kept| + 1, r);
    var placed := a.Placed(f.lines, |f.kept| + 1, r);
    TakenTraces(header, f, r, placed, long, last);
  }

  /** Kept and dropped make up the results, the kept ones in their order, each with its own numbered entry. */
  lemma {:induction false} RunAccounts(a: Assembler, query: string, ordered: seq<Recalled>)
    requires a.Valid()
    ensures var f := a.Run(query, ordered);
            && |f.kept| + f.dropped == |ordered| && Subsequence(f.kept, ordered)
            && f.lines != [] && Traces(a.HeaderLine(query), f.lines, f.kept)
  {
    if ordered != [] {
      var front, r := ordered[..|ordered| - 1], ordered[|ordered| - 1];
      RunAccounts(a, query, front);
      var f := a.Run(query, front);
      VisitKeepsIff(a, f, r);
      VisitGrows(a, f, r);
      VisitTraces(a, a.HeaderLine(query), f, r);
      InitOfMore(f.kept, r);
    }
  }

  // ---- the order of the entries ----

  /** Urgent results, of importance 0.95 or more, come before others; then the higher score, importance, confidence and
      creation time decide, in this turn. */
  ghost predicate NotAfter(a: Recalled, b: Recalled) {
    || (a.importance >= 0.95 && b.importance < 0.95)
    || ((a.importance >= 0.95 <==> b.importance >= 0.95)
        && (|| a.score > b.score
            || (a.score == b.score && a.importance > b.importance)
            || (a.score == b.score && a.importance == b.importance && a.confidence > b.confidence)
            || (a.score == b.score && a.importance == b.importance && a.confidence == b.confidence
                && a.createdAt >= b.createdAt)))
  }

  /** The results are placed as they are given, or all of them in that order. */
  lemma InOrderIs(results: seq<Recalled>)
    ensures InOrder(results, true) == results
    ensures multiset(InOrder(results, false)) == multiset(results)
    ensures var ordered := InOrder(results, false);
            forall i, j :: 0 <= i < j < |ordered| ==> NotAfter(ordered[i], ordered[j])
  {
    AheadIsTotal();
    var ordered := InOrder(results, false);
    forall i, j | 0 <= i < j < |ordered| ensures NotAfter(ordered[i], ordered[j]) {
      assert Ahead(ordered[i], ordered[j]);
    }
  }

  // ---- nothing is cut more than it must be ----

  lemma OneBlankAtMost(s: string, n: nat)
    requires n <= |s| && NoDoubleSpace(s)
    ensures n - 1 <= |StripRight(s[..n])| <= n
  {
    StripRightCuts(s[..n]);
    var k := |StripRight(s[..n])|;
    assert forall i :: k <= i < n ==> s[i] == s[..n][k..][i - k];
  }

  lemma CompactIsSingle(text: string)
    ensures NoDoubleSpace(Strip(Collapsed(text)))
    ensures Strip(Collapsed(text)) == "" <==> Blank(text)
  {
    CollapsedIsSingle(text);
    var left := StripCuts(Collapsed(text));
    var compact := Strip(Collapsed(text));
    assert forall i :: 0 <= i < |compact| ==> compact[i] == Collapsed(text)[left + i];
    SolidStrip(Collapsed(text));
    SolidCollapsed(text);
    SolidBlank(text);
    SolidBlank(Collapsed(text));
  }

  /** A text that is cut uses its room up, but for one character at most, and is marked with dots if there is room. */
  lemma OneLineUsesRoom(text: string, n: int)
    requires 0 < n
    ensures OneLine(text, n) == "" <==> Blank(text)
    ensures |Strip(Collapsed(text))| > n ==> |OneLine(text, n)| >= n - 1
    ensures |Strip(Collapsed(text))| > n > 3 ==> OneLine(text, n)[|OneLine(text, n)| - 3..] == "..."
  {
    CompactIsSingle(text);
    if |Strip(Collapsed(text))| > n > 3 {
      OneBlankAtMost(Strip(Collapsed(text)), n - 3);
    }
  }

  /** The first snippet, by the text that comes before it. */
  lemma SnippetBehind(a: Assembler, lines: seq<string>, meta: string, prompt: string)
    requires a.Valid() && lines != []
    ensures var prefix, snippet := Join(lines + [meta, ""]), a.FirstSnippet(lines, meta, prompt);
            && prefix != ""
            && (snippet != "" <==> !Blank(prompt) && |prefix| <= (a.maxTokens - 1) * a.charsPerToken)
            && (snippet != "" ==>
                  snippet == Strip(Collapsed(prompt)) || |prefix| + |snippet| + a.charsPerToken >= a.Chars())
  {
    var prefix := Join(lines + [meta, ""]);
    JoinTwo(lines, meta, "");
    EstimateIff(a, prefix, a.maxTokens - 1);
    if a.Estimate(prefix) < a.maxTokens {
      SnippetUsesRoom(a, prefix, prompt);
    }
  }

  /** A long entry is placed exactly when its attribute line leaves a token for a text that is not blank. It then shows
      the whole text, or leaves less than a token and one character of the budget unused. */
  lemma FullEntryUsesBudget(a: Assembler, lines: seq<string>, index: nat, r: Recalled)
    requires a.Valid() && lines != []
    ensures a.TryFull(lines, index, r).Some? <==>
              !Blank(r.prompt) && |Join(lines + [MetaLine(index, r), ""])| <= (a.maxTokens - 1) * a.charsPerToken
    ensures var out := a.TryFull(lines, index, r);
            out.Some? ==>
              || out.value == lines + [MetaLine(index, r), Strip(Collapsed(r.prompt))]
              || |Join(out.value)| + a.charsPerToken >= a.Chars()
  {
    var snippet := FullEntry(a, lines, index, r);
    SnippetBehind(a, lines, MetaLine(index, r), r.prompt);
    SnippetLength(lines, MetaLine(index, r), snippet);
  }

  /** What is left after the attributes, in characters, and the snippet that is cut to it. */
  lemma SnippetUsesRoom(a: Assembler, prefix: string, prompt: string)
    requires a.Valid() && a.Estimate(prefix) < a.maxTokens
    ensures var snippet := FitChars(prompt, (a.maxTokens - a.Estimate(prefix)) * a.charsPerToken);
            && (snippet == "" <==> Blank(prompt))
            && (prefix != "" ==>
                  snippet == Strip(Collapsed(prompt)) || |prefix| + |snippet| + a.charsPerToken >= a.Chars())
  {
    var room := (a.maxTokens - a.Estimate(prefix)) * a.charsPerToken;
    AtLeastOne(a.maxTokens - a.Estimate(prefix), a.charsPerToken);
    FitCharsIsOneLine(prompt, room);
    OneLineUsesRoom(prompt, room);
    CompactIsSingle(prompt);
    if prefix != "" && |Strip(Collapsed(prompt))| > room {
      RoomIsUsed(a, prefix, |FitChars(prompt, room)|);
    }
  }

  lemma AtLeastOne(x: nat, y: nat)
    requires x > 0 && y > 0
    ensures x * y > 0
  {
  }

  lemma RoomIsUsed(a: Assembler, prefix: string, snippet: nat)
    requires a.Valid() && a.Estimate(prefix) < a.maxTokens && prefix != ""
    requires snippet >= (a.maxTokens - a.Estimate(prefix)) * a.charsPerToken - 1
    ensures |prefix| + snippet + a.charsPerToken >= a.Chars()
  {
    var used, c := a.Estimate(prefix), a.charsPerToken;
    EstimateIff(a, prefix, 0);
    EstimateIff(a, prefix, used - 1);
    Distribute(used - 1, 1, c);
    Distribute(used, a.maxTokens - used, c);
  }

  /** If all extras fit after the bare entry, all are shown. */
  lemma {:induction false} FittingExtrasAreShown(a: Assembler, lines: seq<string>, candidate: string,
                                                 extras: seq<string>)
    requires a.Valid() && lines != [] && a.Fits(lines + [candidate + Spaced(extras)])
    ensures a.AddExtras(lines, candidate, extras) == candidate + Spaced(extras)
  {
    if extras == [] {
      assert candidate + "" == candidate;
    } else {
      var front, last := extras[..|extras| - 1], extras[|extras| - 1];
      var longer := candidate + Spaced(extras);
      assert longer == candidate + Spaced(front) + " " + last;
      JoinMore(lines, longer);
      JoinMore(lines, candidate + Spaced(front));
      FitsIff(a, lines + [longer]);
      FitsIff(a, lines + [candidate + Spaced(front)]);
      FittingExtrasAreShown(a, lines, candidate, front);
    }
  }

  /** The header shows a query whole that has at most 72 characters on one line and, below 80 tokens, leaves room for
      the first id. */
  lemma HeaderShowsQuery(a: Assembler, query: string)
    requires a.Valid() && !Blank(query) && |Strip(Collapsed(query))| <= 72
    requires a.maxTokens >= 80 || 14 + |Strip(Collapsed(query))| + 52 <= a.Chars()
    ensures a.HeaderLine(query) == "LMV2_SIF v1 q=" + Strip(Collapsed(query))
  {
    CompactIsSingle(query);
    assert |BASE| == 14;
  }

  // ---- entries name their results ----

  lemma SpacedSnoc(parts: seq<string>, last: string)
    ensures Spaced(parts + [last]) == Spaced(parts) + (" " + last)
  {
    InitOfMore(parts, last);
  }

  /** Parts are put one after the other, each after a space. */
  lemma {:induction false} SpacedParts(a: seq<string>, b: seq<string>, x: string)
    ensures Spaced(a + b) == Spaced(a) + Spaced(b) && Spaced([x]) == " " + x && Spaced([]) == ""
  {
    assert [] + [x] == [x];
    SpacedSnoc([], x);
    if b == [] {
      assert a + b == a;
    } else {
      var front, last := b[..|b| - 1], b[|b| - 1];
      SpacedParts(a, front, x);
      SpacedSnoc(a + front, last);
      SpacedSnoc(front, last);
      assert a + b == a + front + [last] && b == front + [last];
    }
  }

  /** The attribute line: number, id, the attributes, and how to see the memory whole. */
  lemma MetaLineIs(index: nat, r: Recalled)
    ensures MetaLine(index, r)
         == "[M" + Decimal(index) + "] id=" + r.id + Spaced(r.details) + " inspect_memory(" + r.id + ")"
  {
    assert " " + Inspect(r.id) == " inspect_memory(" + r.id + ")";
  }

  lemma {:induction false} DecimalIs(n: nat)
    ensures Decimal(n) != "" && forall i :: 0 <= i < |Decimal(n)| ==> Decimal(n)[i] in "0123456789"
  {
    if n >= 10 {
      DecimalIs(n / 10);
    }
    DigitIs(n % 10);
  }

  lemma DigitIs(d: nat)
    requires d < 10
    ensures (48 + d) as char == "0123456789"[d]
  {
  }

  lemma {:induction false} DecimalReads(m: nat, n: nat)
    requires Decimal(m) == Decimal(n)
    ensures m == n
  {
    DecimalIs(m / 10);
    DecimalIs(n / 10);
    var k := |Decimal(m)| - 1;
    assert Decimal(m)[k] == (48 + m % 10) as char && Decimal(n)[k] == (48 + n % 10) as char;
    if m >= 10 && n >= 10 {
      assert Decimal(m)[..k] == Decimal(m / 10) && Decimal(n)[..k] == Decimal(n / 10);
      DecimalReads(m / 10, n / 10);
    }
  }

  /** From the bare entry the number and the id can be read off. */
  lemma BareReads(m: nat, x: string, n: nat, y: string)
    requires Bare(m, x) == Bare(n, y)
    ensures m == n && x == y
  {
    DecimalIs(m);
    DecimalIs(n);
    var s, i, j := Bare(m, x), |Decimal(m)| + 1, |Decimal(n)| + 1;
    assert s[i] == ' ' && s[j] == ' ';
    assert forall k :: 1 <= k < i ==> s[k] == Decimal(m)[k - 1] && s[k] in "0123456789";
    assert forall k :: 1 <= k < j ==> s[k] == Decimal(n)[k - 1] && s[k] in "0123456789";
    assert ' ' !in "0123456789";
    assert i == j;
    assert Decimal(m) == s[1..i] && Decimal(n) == s[1..j];
    assert x == s[i + 4..] && y == s[j + 4..];
    DecimalReads(m, n);
  }
}
