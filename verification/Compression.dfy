/** Trimming a context pack to its token budget: drop the lowest-scored memories, then shorten long survivors. */
module Compression {
  import opened Ordering

  const LONG_WORDS := 120
  const KEPT_SENTENCES := 2
  const WARNING := "context_compressed_to_budget"

  // ---- words and tokens ----

  /** unicode.IsSpace */
  predicate IsSpace(c: char) {
    var n := c as int;
    9 <= n <= 13 || n == 32 || n == 0x85 || n == 0xA0 || n == 0x1680 || 0x2000 <= n <= 0x200A
    || n == 0x2028 || n == 0x2029 || n == 0x202F || n == 0x205F || n == 0x3000
  }

  /** A word begins at `i`. */
  predicate StartsWord(s: string, i: nat)
    requires i < |s|
  {
    !IsSpace(s[i]) && (i == 0 || IsSpace(s[i - 1]))
  }

  /** len(strings.Fields(s)) */
  function Words(s: string): nat {
    if s == "" then 0 else Words(s[..|s| - 1]) + (if StartsWord(s, |s| - 1) then 1 else 0)
  }

  /** int(words * 1.35) */
  function EstimateTokens(s: string): nat { Words(s) * 27 / 20 }

  predicate EndsSentence(c: char) { c == '.' || c == '!' || c == '?' }

  /** Index just past the `n`-th sentence end from `i` on, or 0 if there are fewer. */
  function SentenceCut(s: string, i: nat, n: nat): (cut: nat)
    requires i <= |s| && n > 0
    ensures cut <= |s|
    decreases |s| - i
  {
    if i == |s| then 0
    else if EndsSentence(s[i]) then (if n == 1 then i + 1 else SentenceCut(s, i + 1, n - 1))
    else SentenceCut(s, i + 1, n)
  }

  function TrimLeft(s: string): string { if s != "" && IsSpace(s[0]) then TrimLeft(s[1..]) else s }

  function TrimRight(s: string): string {
    if s != "" && IsSpace(s[|s| - 1]) then TrimRight(s[..|s| - 1]) else s
  }

  function LeadingSentences(s: string, n: nat): string
    requires n > 0
  {
    var cut := SentenceCut(s, 0, n);
    if cut == 0 then s else TrimRight(TrimLeft(s[..cut]))
  }

  function Compressed(s: string): string { LeadingSentences(s, KEPT_SENTENCES) + [' ', '…'] }

  lemma {:induction false} WordsOfPrefix(s: string, i: nat)
    requires i <= |s|
    ensures Words(s[..i]) <= Words(s)
  {
    if i < |s| {
      WordsOfPrefix(s[..|s| - 1], i);
      assert s[..|s| - 1][..i] == s[..i];
    } else {
      assert s[..i] == s;
    }
  }

  lemma {:induction false} WordsOfTail(s: string)
    requires s != ""
    ensures Words(s[1..]) <= Words(s)
    ensures IsSpace(s[0]) ==> Words(s[1..]) == Words(s)
  {
    var n := |s| - 1;
    if n > 0 {
      WordsOfTail(s[..n]);
      assert s[..n][1..] == s[1..][..n - 1];
      if n == 1 {
        assert s[1..][..0] == "" && s[..1][..0] == "";
      }
    } else {
      assert s[1..] == "";
    }
  }

  lemma {:induction false} TrimKeepsWords(s: string)
    ensures Words(TrimLeft(s)) == Words(s) && Words(TrimRight(s)) == Words(s)
    decreases |s|
  {
    if s != "" {
      if IsSpace(s[0]) {
        TrimKeepsWords(s[1..]);
        WordsOfTail(s);
      }
      if IsSpace(s[|s| - 1]) {
        TrimKeepsWords(s[..|s| - 1]);
      }
    }
  }

  lemma LeadingWords(s: string, n: nat)
    requires n > 0
    ensures Words(LeadingSentences(s, n)) <= Words(s)
    ensures SentenceCut(s, 0, n) == 0 ==> LeadingSentences(s, n) == s
  {
    var cut := SentenceCut(s, 0, n);
    TrimKeepsWords(s[..cut]);
    TrimKeepsWords(TrimLeft(s[..cut]));
    WordsOfPrefix(s, cut);
  }

  lemma CompressedWords(s: string)
    ensures Words(Compressed(s)) == Words(LeadingSentences(s, KEPT_SENTENCES)) + 1
  {
    var l := LeadingSentences(s, KEPT_SENTENCES);
    var c := Compressed(s);
    assert c[..|c| - 1] == l + [' '] && (l + [' '])[..|l|] == l;
  }

  /** The compression step lengthens a text exactly when its first two sentences already hold all its words, as in
      a text with fewer than two sentence ends; otherwise the estimate does not rise. */
  lemma CompressionLengthensIff(s: string)
    ensures EstimateTokens(Compressed(s)) > EstimateTokens(s)
            <==> Words(LeadingSentences(s, KEPT_SENTENCES)) == Words(s)
    ensures SentenceCut(s, 0, KEPT_SENTENCES) == 0 ==> EstimateTokens(Compressed(s)) > EstimateTokens(s)
  {
    LeadingWords(s, KEPT_SENTENCES);
    CompressedWords(s);
  }

  // ---- packs ----

  datatype Memory = Memory(id: string, content: string)

  type Section = seq<Memory>

  datatype Candidate = Candidate(id: string, score: real)

  /** One memory that may be dropped. */
  datatype Ref = Ref(section: nat, id: string, score: real)

  type ScoreTable = map<string, real>

  /** A later candidate overrides an earlier one with the same id. */
  function ScoresOf(candidates: seq<Candidate>): ScoreTable {
    if candidates == [] then map[]
    else
      var c := candidates[|candidates| - 1];
      ScoresOf(candidates[..|candidates| - 1])[c.id := c.score]
  }

  function ScoreOf(scores: ScoreTable, id: string): real { if id in scores then scores[id] else 0.0 }

  function RemoveById(section: Section, id: string): Section {
    if section == [] then []
    else if section[0].id == id then RemoveById(section[1..], id)
    else [section[0]] + RemoveById(section[1..], id)
  }

  predicate HasId(section: Section, id: string) { exists m :: m in section && m.id == id }

  /** Tokens of the first memory with the id, 0 if there is none. */
  function TokensOf(section: Section, id: string): nat {
    if section == [] then 0
    else if section[0].id == id then EstimateTokens(section[0].content)
    else TokensOf(section[1..], id)
  }

  function SectionTokens(section: Section): nat {
    if section == [] then 0 else EstimateTokens(section[0].content) + SectionTokens(section[1..])
  }

  function PackTokens(sections: seq<Section>): nat {
    if sections == [] then 0 else SectionTokens(sections[0]) + PackTokens(sections[1..])
  }

  function Count(sections: seq<Section>): nat {
    if sections == [] then 0 else |sections[0]| + Count(sections[1..])
  }

  // ---- the drop phase ----

  datatype Trim = Trim(sections: seq<Section>, estimate: int, total: int) {
    function Drop(victim: Ref): Trim {
      if victim.section >= |sections| then this
      else
        Trim(sections[victim.section := RemoveById(sections[victim.section], victim.id)],
             estimate - TokensOf(sections[victim.section], victim.id), total - 1)
    }

    predicate Fits(budget: int) { estimate <= budget || total <= 1 }
  }

  /** Drops victims in order until the pack fits. */
  function DropAll(t: Trim, victims: seq<Ref>, budget: int): Trim
    decreases |victims|
  {
    if victims == [] || t.Fits(budget) then t else DropAll(t.Drop(victims[0]), victims[1..], budget)
  }

  lemma {:induction false} RemoveByIdSnoc(section: Section, m: Memory, id: string)
    ensures RemoveById(section + [m], id) == RemoveById(section, id) + (if m.id == id then [] else [m])
  {
    if section == [] {
      assert [] + [m] == [m];
    } else {
      assert (section + [m])[1..] == section[1..] + [m];
      RemoveByIdSnoc(section[1..], m, id);
    }
  }

  method Filtered(section: Section, id: string) returns (out: Section)
    ensures out == RemoveById(section, id)
  {
    out := [];
    for i := 0 to |section|
      invariant out == RemoveById(section[..i], id)
    {
      assert section[..i + 1] == section[..i] + [section[i]];
      RemoveByIdSnoc(section[..i], section[i], id);
      if section[i].id != id {
        out := out + [section[i]];
      }
    }
    assert section[..|section|] == section;
  }

  method DropPhase(start: Trim, victims: seq<Ref>, budget: int) returns (t: Trim)
    ensures t == DropAll(start, victims, budget)
  {
    t := start;
    assert victims[0..] == victims;
    for i := 0 to |victims|
      invariant DropAll(t, victims[i..], budget) == DropAll(start, victims, budget)
    {
      var victim := victims[i];
      assert victims[i..][0] == victim && victims[i..][1..] == victims[i + 1..];
      if t.Fits(budget) {
        return;
      }
      if victim.section < |t.sections| {
        var section := t.sections[victim.section];
        var kept := Filtered(section, victim.id);
        t := Trim(t.sections[victim.section := kept], t.estimate - TokensOf(section, victim.id), t.total - 1);
      }
    }
  }

  // ---- exact accounts while dropping ----

  ghost predicate UniqueIds(section: Section) {
    forall i, j :: 0 <= i < j < |section| ==> section[i].id != section[j].id
  }

  ghost predicate UniqueAll(sections: seq<Section>) {
    forall s :: 0 <= s < |sections| ==> UniqueIds(sections[s])
  }

  lemma {:induction false} RemoveMembers(section: Section, id: string)
    ensures forall m :: m in RemoveById(section, id) <==> m in section && m.id != id
  {
    if section != [] {
      RemoveMembers(section[1..], id);
      assert forall m :: m in section <==> m == section[0] || m in section[1..];
    }
  }

  lemma {:induction false} RemoveAbsent(section: Section, id: string)
    requires !HasId(section, id)
    ensures RemoveById(section, id) == section
  {
    if section != [] {
      assert section[0] in section;
      assert forall m :: m in section[1..] ==> m in section;
      RemoveAbsent(section[1..], id);
    }
  }

  lemma {:induction false} RemoveUnique(section: Section, id: string)
    requires UniqueIds(section)
    ensures UniqueIds(RemoveById(section, id))
  {
    if section != [] {
      RemoveUnique(section[1..], id);
      RemoveMembers(section[1..], id);
      var rest := RemoveById(section[1..], id);
      forall m | m in rest ensures m.id != section[0].id {
        assert m in section[1..];
      }
    }
  }

  /** Removing a unique id takes away exactly the tokens that were charged for it, and one memory. */
  lemma {:induction false} RemoveCharges(section: Section, id: string)
    requires UniqueIds(section) && HasId(section, id)
    ensures SectionTokens(RemoveById(section, id)) == SectionTokens(section) - TokensOf(section, id)
    ensures |RemoveById(section, id)| == |section| - 1
  {
    var rest := section[1..];
    assert forall m :: m in section <==> m == section[0] || m in rest;
    if section[0].id == id {
      forall m | m in rest ensures m.id != id {
        var j :| 0 <= j < |rest| && rest[j] == m;
        assert section[0].id != section[j + 1].id;
      }
      RemoveAbsent(rest, id);
    } else {
      RemoveCharges(rest, id);
      assert RemoveById(section, id)[1..] == RemoveById(rest, id);
    }
  }

  lemma {:induction false} UpdateSums(sections: seq<Section>, s: nat, x: Section)
    requires s < |sections|
    ensures PackTokens(sections[s := x]) == PackTokens(sections) - SectionTokens(sections[s]) + SectionTokens(x)
    ensures Count(sections[s := x]) == Count(sections) - |sections[s]| + |x|
  {
    if s == 0 {
      assert sections[s := x][1..] == sections[1..];
    } else {
      assert sections[s := x][1..] == sections[1..][s - 1 := x];
      UpdateSums(sections[1..], s - 1, x);
    }
  }

  /** The victims are exactly the memories still in the pack, each once, with their scores. */
  ghost predicate Covers(scores: ScoreTable, sections: seq<Section>, victims: seq<Ref>) {
    && NoDuplicates(victims) && |victims| == Count(sections)
    && (forall s, id :: 0 <= s < |sections| ==>
          (HasId(sections[s], id) <==> Ref(s, id, ScoreOf(scores, id)) in victims))
    && (forall v :: v in victims ==> v.section < |sections| && v.score == ScoreOf(scores, v.id))
  }

  ghost predicate Balanced(t: Trim, victims: seq<Ref>, scores: ScoreTable) {
    && UniqueAll(t.sections) && Covers(scores, t.sections, victims)
    && t.estimate == PackTokens(t.sections) && t.total == |victims|
  }

  lemma DropKeepsBalance(t: Trim, victims: seq<Ref>, scores: ScoreTable)
    requires Balanced(t, victims, scores) && victims != []
    ensures Balanced(t.Drop(victims[0]), victims[1..], scores)
  {
    var v, rest := victims[0], victims[1..];
    assert v in victims;
    var section := t.sections[v.section];
    var kept := RemoveById(section, v.id);
    RemoveCharges(section, v.id);
    RemoveUnique(section, v.id);
    RemoveMembers(section, v.id);
    UpdateSums(t.sections, v.section, kept);
    CoverRest(t.sections, victims, scores);
  }

  lemma CoverRest(sections: seq<Section>, victims: seq<Ref>, scores: ScoreTable)
    requires victims != [] && Covers(scores, sections, victims)
    ensures var v := victims[0]; var sections' := sections[v.section := RemoveById(sections[v.section], v.id)];
            forall s, id :: 0 <= s < |sections'| ==>
              (HasId(sections'[s], id) <==> Ref(s, id, ScoreOf(scores, id)) in victims[1..])
    ensures victims[0].section < |sections|
  {
    var v := victims[0];
    assert v in victims;
    RemoveMembers(sections[v.section], v.id);
    var sections' := sections[v.section := RemoveById(sections[v.section], v.id)];
    assert forall r :: r in victims <==> r == v || r in victims[1..];
    assert v !in victims[1..];
    forall s, id | 0 <= s < |sections'|
      ensures HasId(sections'[s], id) <==> Ref(s, id, ScoreOf(scores, id)) in victims[1..]
    {
      assert HasId(sections[s], id) <==> Ref(s, id, ScoreOf(scores, id)) in victims;
      assert HasId(sections'[s], id) <==> HasId(sections[s], id) && !(s == v.section && id == v.id);
    }
  }

  predicate LowerScore(x: Ref, y: Ref) { x.score <= y.score }

  /** The pack after the first `k` drops. */
  function After(t: Trim, victims: seq<Ref>, k: nat): Trim
    requires k <= |victims|
    decreases k
  {
    if k == 0 then t else After(t.Drop(victims[0]), victims[1..], k - 1)
  }

  /** The drop phase stops at the first point at which the pack fits, with exact accounts; what is gone is a prefix
      of the victims in score order, and what is left is the rest. */
  lemma {:induction false} DropPhaseIsExact(t: Trim, victims: seq<Ref>, scores: ScoreTable, budget: int)
    returns (k: nat)
    requires Balanced(t, victims, scores)
    ensures k <= |victims| && DropAll(t, victims, budget) == After(t, victims, k)
    ensures Balanced(After(t, victims, k), victims[k..], scores)
    ensures After(t, victims, k).Fits(budget)
    ensures forall j :: 0 <= j < k ==> !After(t, victims, j).Fits(budget)
    decreases |victims|
  {
    if victims == [] || t.Fits(budget) {
      k := 0;
      assert victims[0..] == victims;
    } else {
      DropKeepsBalance(t, victims, scores);
      k := DropPhaseIsExact(t.Drop(victims[0]), victims[1..], scores, budget);
      assert victims[1..][k..] == victims[k + 1..];
      forall j | 0 <= j < k + 1 ensures !After(t, victims, j).Fits(budget) {
        if j > 0 {
          assert After(t, victims, j) == After(t.Drop(victims[0]), victims[1..], j - 1);
        }
      }
      k := k + 1;
    }
  }

  // ---- the list of victims ----

  function RefsOf(scores: ScoreTable, s: nat, section: Section): seq<Ref> {
    if section == [] then []
    else
      var id := section[|section| - 1].id;
      RefsOf(scores, s, section[..|section| - 1]) + [Ref(s, id, ScoreOf(scores, id))]
  }

  /** Every memory of the pack, section by section. */
  function AllRefs(scores: ScoreTable, sections: seq<Section>): seq<Ref> {
    if sections == [] then []
    else
      var s := |sections| - 1;
      AllRefs(scores, sections[..s]) + RefsOf(scores, s, sections[s])
  }

  method CollectRefs(scores: ScoreTable, sections: seq<Section>) returns (refs: seq<Ref>, total: nat)
    ensures refs == AllRefs(scores, sections) && total == |refs|
  {
    refs, total := [], 0;
    for s := 0 to |sections|
      invariant refs == AllRefs(scores, sections[..s]) && total == |refs|
    {
      var section := sections[s];
      for i := 0 to |section|
        invariant refs == AllRefs(scores, sections[..s]) + RefsOf(scores, s, section[..i]) && total == |refs|
      {
        assert section[..i + 1][..i] == section[..i];
        var id := section[i].id;
        refs := refs + [Ref(s, id, ScoreOf(scores, id))];
        total := total + 1;
      }
      assert section[..|section|] == section && sections[..s + 1][..s] == sections[..s];
    }
    assert sections[..|sections|] == sections;
  }

  method CollectScores(candidates: seq<Candidate>) returns (scores: ScoreTable)
    ensures scores == ScoresOf(candidates)
  {
    scores := map[];
    for i := 0 to |candidates|
      invariant scores == ScoresOf(candidates[..i])
    {
      assert candidates[..i + 1][..i] == candidates[..i];
      scores := scores[candidates[i].id := candidates[i].score];
    }
    assert candidates[..|candidates|] == candidates;
  }

  lemma {:induction false} RefsOfAt(scores: ScoreTable, s: nat, section: Section)
    ensures |RefsOf(scores, s, section)| == |section|
    ensures forall i :: 0 <= i < |section| ==>
                          RefsOf(scores, s, section)[i] == Ref(s, section[i].id, ScoreOf(scores, section[i].id))
  {
    if section != [] {
      var n := |section| - 1;
      RefsOfAt(scores, s, section[..n]);
      assert forall i :: 0 <= i < n ==> section[..n][i] == section[i];
    }
  }

  lemma RefsOfMembers(scores: ScoreTable, s: nat, section: Section)
    ensures |RefsOf(scores, s, section)| == |section|
    ensures forall r :: r in RefsOf(scores, s, section)
                        <==> r.section == s && HasId(section, r.id) && r.score == ScoreOf(scores, r.id)
    ensures UniqueIds(section) ==> NoDuplicates(RefsOf(scores, s, section))
  {
    RefsOfAt(scores, s, section);
    var refs := RefsOf(scores, s, section);
    forall r: Ref | r.section == s && HasId(section, r.id) && r.score == ScoreOf(scores, r.id) ensures r in refs {
      var m :| m in section && m.id == r.id;
      var i :| 0 <= i < |section| && section[i] == m;
      assert refs[i] == r;
    }
  }

  lemma {:induction false} CountSnoc(sections: seq<Section>, x: Section)
    ensures Count(sections + [x]) == Count(sections) + |x|
  {
    if sections != [] {
      assert (sections + [x])[1..] == sections[1..] + [x];
      CountSnoc(sections[1..], x);
    }
  }

  lemma {:induction false} AllRefsCount(scores: ScoreTable, sections: seq<Section>)
    ensures |AllRefs(scores, sections)| == Count(sections)
  {
    if sections != [] {
      var s := |sections| - 1;
      AllRefsCount(scores, sections[..s]);
      RefsOfMembers(scores, s, sections[s]);
      CountSnoc(sections[..s], sections[s]);
      assert sections == sections[..s] + [sections[s]];
    }
  }

  lemma {:induction false} AllRefsMembers(scores: ScoreTable, sections: seq<Section>)
    ensures forall r :: r in AllRefs(scores, sections) <==>
                        r.section < |sections| && HasId(sections[r.section], r.id) && r.score == ScoreOf(scores, r.id)
    ensures UniqueAll(sections) ==> NoDuplicates(AllRefs(scores, sections))
  {
    if sections != [] {
      var s := |sections| - 1;
      AllRefsMembers(scores, sections[..s]);
      RefsOfMembers(scores, s, sections[s]);
      if UniqueAll(sections) {
        assert UniqueAll(sections[..s]);
      }
    }
  }

  /** Whatever order the sort puts the victims in, they cover the pack. */
  lemma VictimsCover(scores: ScoreTable, sections: seq<Section>, victims: seq<Ref>)
    requires UniqueAll(sections) && multiset(victims) == multiset(AllRefs(scores, sections))
    ensures Covers(scores, sections, victims)
  {
    var refs := AllRefs(scores, sections);
    AllRefsMembers(scores, sections);
    AllRefsCount(scores, sections);
    RearrangedStaysDistinct(refs, victims);
    assert |victims| == |multiset(victims)| == |multiset(refs)| == |refs|;
    forall r ensures r in victims <==> r in refs {
      assert r in victims <==> r in multiset(victims);
      assert r in refs <==> r in multiset(refs);
    }
  }

  // ---- what is left in each section ----

  /** The section without the memories whose id is gone, in the same order. */
  function Without(section: Section, gone: set<string>): Section {
    if section == [] then []
    else if section[0].id in gone then Without(section[1..], gone)
    else [section[0]] + Without(section[1..], gone)
  }

  ghost function Gone(victims: seq<Ref>, s: nat): set<string> { set v | v in victims && v.section == s :: v.id }

  lemma {:induction false} WithoutNone(section: Section)
    ensures Without(section, {}) == section
  {
    if section != [] {
      WithoutNone(section[1..]);
    }
  }

  lemma {:induction false} WithoutOneMore(section: Section, id: string, gone: set<string>)
    ensures Without(RemoveById(section, id), gone) == Without(section, gone + {id})
  {
    if section != [] {
      WithoutOneMore(section[1..], id, gone);
      if section[0].id != id {
        assert RemoveById(section, id)[1..] == RemoveById(section[1..], id);
      }
    }
  }

  lemma GoneFirst(victims: seq<Ref>, s: nat)
    requires victims != []
    ensures Gone(victims, s) == Gone(victims[1..], s) + (if victims[0].section == s then {victims[0].id} else {})
  {
    assert forall v :: v in victims <==> v == victims[0] || v in victims[1..];
  }

  /** After any number of drops every section is the original one, in its order, without the dropped ids. */
  lemma {:induction false} AfterFilters(t: Trim, victims: seq<Ref>, k: nat)
    requires k <= |victims|
    ensures |After(t, victims, k).sections| == |t.sections|
    ensures forall s :: 0 <= s < |t.sections| ==>
                          After(t, victims, k).sections[s] == Without(t.sections[s], Gone(victims[..k], s))
    decreases k
  {
    if k == 0 {
      forall s | 0 <= s < |t.sections| ensures Without(t.sections[s], Gone(victims[..0], s)) == t.sections[s] {
        assert Gone(victims[..0], s) == {};
        WithoutNone(t.sections[s]);
      }
    } else {
      var v, rest, next := victims[0], victims[1..], t.Drop(victims[0]);
      AfterFilters(next, rest, k - 1);
      assert victims[..k][1..] == rest[..k - 1];
      forall s | 0 <= s < |t.sections|
        ensures After(t, victims, k).sections[s] == Without(t.sections[s], Gone(victims[..k], s))
      {
        GoneFirst(victims[..k], s);
        var gone := Gone(rest[..k - 1], s);
        if s == v.section {
          WithoutOneMore(t.sections[s], v.id, gone);
        } else {
          assert gone + {} == gone;
        }
      }
    }
  }

  // ---- shortening ----

  function Shortened(m: Memory): Memory {
    if Words(m.content) <= LONG_WORDS then m else m.(content := Compressed(m.content))
  }

  function ShortenedSection(section: Section): Section {
    seq(|section|, i requires 0 <= i < |section| => Shortened(section[i]))
  }

  function ShortenedPack(sections: seq<Section>): seq<Section> {
    seq(|sections|, s requires 0 <= s < |sections| => ShortenedSection(sections[s]))
  }

  lemma {:induction false} UpdateTokens(section: Section, i: nat, m: Memory)
    requires i < |section|
    ensures SectionTokens(section[i := m])
            == SectionTokens(section) - EstimateTokens(section[i].content) + EstimateTokens(m.content)
  {
    if i == 0 {
      assert section[0 := m][1..] == section[1..];
    } else {
      assert section[i := m][1..] == section[1..][i - 1 := m];
      UpdateTokens(section[1..], i - 1, m);
    }
  }

  method ShortenSection(start: Section, before: int) returns (section: Section, estimate: int)
    ensures section == ShortenedSection(start)
    ensures estimate == before - SectionTokens(start) + SectionTokens(section)
  {
    section, estimate := start, before;
    for i := 0 to |start|
      invariant |section| == |start|
      invariant forall j :: 0 <= j < |start| ==> section[j] == if j < i then Shortened(start[j]) else start[j]
      invariant estimate == before - SectionTokens(start) + SectionTokens(section)
    {
      var content := section[i].content;
      if Words(content) > LONG_WORDS {
        var compressed := Compressed(content);
        UpdateTokens(section, i, section[i].(content := compressed));
        estimate := estimate - (EstimateTokens(content) - EstimateTokens(compressed));
        section := section[i := section[i].(content := compressed)];
      }
    }
  }

  method ShortenPhase(start: seq<Section>, before: int) returns (sections: seq<Section>, estimate: int)
    ensures sections == ShortenedPack(start)
    ensures estimate == before - PackTokens(start) + PackTokens(sections)
  {
    sections, estimate := start, before;
    for s := 0 to |start|
      invariant |sections| == |start|
      invariant forall j :: 0 <= j < |start| ==> sections[j] == if j < s then ShortenedSection(start[j]) else start[j]
      invariant estimate == before - PackTokens(start) + PackTokens(sections)
    {
      var section;
      section, estimate := ShortenSection(sections[s], estimate);
      UpdateSums(sections, s, section);
      sections := sections[s := section];
    }
  }

  // ---- the whole operation ----

  lemma LowerScoreIsTotal()
    ensures TotalPreorder(LowerScore)
  {
  }

  /** One of the orders `sort.Slice` may leave the memories of the pack in. */
  ghost predicate DropOrder(scores: ScoreTable, sections: seq<Section>, victims: seq<Ref>) {
    SortedBy(victims, LowerScore) && multiset(victims) == multiset(AllRefs(scores, sections))
  }

  class ContextPack {
    var sections: seq<Section>
    var tokenEstimate: int
    var warnings: seq<string>

    constructor (sections: seq<Section>, tokenEstimate: int)
      ensures this.sections == sections && this.tokenEstimate == tokenEstimate && warnings == []
    {
      this.sections, this.tokenEstimate, warnings := sections, tokenEstimate, [];
    }

    method EnforceBudget(candidates: seq<Candidate>, budget: int) returns (ghost victims: seq<Ref>)
      modifies this
      ensures budget <= 0 || old(tokenEstimate) <= budget ==> unchanged(this)
      ensures budget > 0 && old(tokenEstimate) > budget ==>
                var scores := ScoresOf(candidates);
                var t := DropAll(Trim(old(sections), old(tokenEstimate), |AllRefs(scores, old(sections))|),
                                 victims, budget);
                && DropOrder(scores, old(sections), victims)
                && sections == ShortenedPack(t.sections)
                && tokenEstimate == t.estimate - PackTokens(t.sections) + PackTokens(sections)
                && warnings == old(warnings) + ["context_compressed_to_budget"]
    {
      victims := [];
      if budget <= 0 || tokenEstimate <= budget {
        return;
      }
      var scores := CollectScores(candidates);
      var refs, total := CollectRefs(scores, sections);
      LowerScoreIsTotal();
      refs := Sorted(refs, LowerScore);
      victims := refs;
      var t := DropPhase(Trim(sections, tokenEstimate, total), refs, budget);
      sections, tokenEstimate := ShortenPhase(t.sections, t.estimate);
      warnings := warnings + [WARNING];
    }
  }

  /** With unique ids and a correct starting total, and whichever way ties are sorted: a first part of the score
      order is dropped and nothing else, every dropped memory scores no higher than every kept one, dropping stops at
      the first point at which the pack fits or one memory is left, each section keeps its order, and the final
      estimate is the total over the remaining, shortened contents. */
  lemma EnforceBudgetIsExact(scores: ScoreTable, sections: seq<Section>, victims: seq<Ref>, budget: int)
    returns (k: nat)
    requires UniqueAll(sections) && DropOrder(scores, sections, victims)
    ensures var start := Trim(sections, PackTokens(sections), |AllRefs(scores, sections)|);
            var t := DropAll(start, victims, budget);
            && k <= |victims|
            && |t.sections| == |sections|
            && (forall s :: 0 <= s < |sections| ==> t.sections[s] == Without(sections[s], Gone(victims[..k], s)))
            && t.estimate == PackTokens(t.sections)
            && t.total == Count(t.sections) == |victims| - k
            && (PackTokens(t.sections) <= budget || Count(t.sections) <= 1)
            && (forall j :: 0 <= j < k ==> !After(start, victims, j).Fits(budget))
            && t.estimate - PackTokens(t.sections) + PackTokens(ShortenedPack(t.sections))
               == PackTokens(ShortenedPack(t.sections))
    ensures forall s, id, s', id' ::
              0 <= s < |sections| && 0 <= s' < |sections|
              && HasId(sections[s], id) && id in Gone(victims[..k], s)
              && HasId(sections[s'], id') && id' !in Gone(victims[..k], s')
              ==> ScoreOf(scores, id) <= ScoreOf(scores, id')
  {
    var start := Trim(sections, PackTokens(sections), |AllRefs(scores, sections)|);
    VictimsCover(scores, sections, victims);
    AllRefsCount(scores, sections);
    k := DropPhaseIsExact(start, victims, scores, budget);
    AfterFilters(start, victims, k);
    KeptScoreHigher(scores, sections, victims, k);
  }

  lemma KeptScoreHigher(scores: ScoreTable, sections: seq<Section>, victims: seq<Ref>, k: nat)
    requires k <= |victims| && Covers(scores, sections, victims) && SortedBy(victims, LowerScore)
    ensures forall s, id, s', id' ::
              0 <= s < |sections| && 0 <= s' < |sections|
              && HasId(sections[s], id) && id in Gone(victims[..k], s)
              && HasId(sections[s'], id') && id' !in Gone(victims[..k], s')
              ==> ScoreOf(scores, id) <= ScoreOf(scores, id')
  {
    forall s, id, s', id' |
      0 <= s < |sections| && 0 <= s' < |sections|
      && HasId(sections[s], id) && id in Gone(victims[..k], s)
      && HasId(sections[s'], id') && id' !in Gone(victims[..k], s')
      ensures ScoreOf(scores, id) <= ScoreOf(scores, id')
    {
      var front := victims[..k];
      assert forall i :: 0 <= i < k ==> front[i] == victims[i];
      var v :| v in victims[..k] && v.section == s && v.id == id;
      var i :| 0 <= i < k && victims[i] == v;
      var v' := Ref(s', id', ScoreOf(scores, id'));
      assert v' in victims;
      var j :| 0 <= j < |victims| && victims[j] == v';
      assert v' !in front && v in victims;
    }
  }

  /** The text has words past its second sentence. */
  predicate HasMore(s: string) { Words(LeadingSentences(s, KEPT_SENTENCES)) < Words(s) }

  ghost predicate LongOnesHaveMore(section: Section) {
    forall m :: m in section && Words(m.content) > LONG_WORDS ==> HasMore(m.content)
  }

  lemma {:induction false} ShortenedTokens(section: Section)
    requires LongOnesHaveMore(section)
    ensures SectionTokens(ShortenedSection(section)) <= SectionTokens(section)
  {
    if section != [] {
      ShortenedTokens(section[1..]);
      assert ShortenedSection(section)[1..] == ShortenedSection(section[1..]);
      assert section[0] in section;
      CompressionLengthensIff(section[0].content);
      LeadingWords(section[0].content, KEPT_SENTENCES);
    }
  }

  /** Shortening does not raise the total when every long memory goes on past its second sentence; so a pack that
      fitted after the drops still fits. */
  lemma {:induction false} ShorteningHelps(sections: seq<Section>)
    requires forall s :: 0 <= s < |sections| ==> LongOnesHaveMore(sections[s])
    ensures PackTokens(ShortenedPack(sections)) <= PackTokens(sections)
  {
    if sections != [] {
      ShorteningHelps(sections[1..]);
      assert ShortenedPack(sections)[1..] == ShortenedPack(sections[1..]);
      ShortenedTokens(sections[0]);
    }
  }

  /** A pack of one long memory grows exactly when that memory has nothing past its second sentence. */
  lemma LoneLongMemoryGrowsIff(m: Memory)
    requires Words(m.content) > LONG_WORDS
    ensures PackTokens(ShortenedPack([[m]])) > PackTokens([[m]]) <==> !HasMore(m.content)
  {
    CompressionLengthensIff(m.content);
    LeadingWords(m.content, KEPT_SENTENCES);
    assert ShortenedSection([m]) == [Shortened(m)];
    assert ShortenedPack([[m]]) == [[Shortened(m)]];
    LoneTokens(m);
    LoneTokens(Shortened(m));
  }

  lemma LoneTokens(m: Memory)
    ensures PackTokens([[m]]) == EstimateTokens(m.content)
  {
    assert [[m]][1..] == [] && [m][1..] == [];
    assert SectionTokens([m]) == EstimateTokens(m.content) + SectionTokens([]);
  }

  // ---- ids that are not unique ----

  /** Tokens of all memories with the id, and how many there are. */
  function CopyTokens(section: Section, id: string): nat {
    if section == [] then 0
    else (if section[0].id == id then EstimateTokens(section[0].content) else 0) + CopyTokens(section[1..], id)
  }

  function Copies(section: Section, id: string): nat {
    if section == [] then 0 else (if section[0].id == id then 1 else 0) + Copies(section[1..], id)
  }

  /** A removal takes every copy, whatever it is charged. */
  lemma {:induction false} RemovalTakesCopies(section: Section, id: string)
    ensures SectionTokens(RemoveById(section, id)) == SectionTokens(section) - CopyTokens(section, id)
    ensures |RemoveById(section, id)| == |section| - Copies(section, id)
    ensures TokensOf(section, id) <= CopyTokens(section, id) && (HasId(section, id) <==> Copies(section, id) > 0)
  {
    if section != [] {
      RemovalTakesCopies(section[1..], id);
      assert forall m :: m in section <==> m == section[0] || m in section[1..];
      if section[0].id != id {
        assert RemoveById(section, id)[1..] == RemoveById(section[1..], id);
      }
    }
  }

  /** Exactly when one drop keeps exact accounts exact: the estimate, if the first copy carries all the tokens of that
      id; the number of memories left, if there is one copy. */
  lemma DropIsExactIff(t: Trim, victim: Ref)
    requires victim.section < |t.sections| && t.estimate == PackTokens(t.sections) && t.total == Count(t.sections)
    ensures var section, next := t.sections[victim.section], t.Drop(victim);
            && (next.estimate == PackTokens(next.sections)
                <==> CopyTokens(section, victim.id) == TokensOf(section, victim.id))
            && (next.total == Count(next.sections) <==> Copies(section, victim.id) == 1)
  {
    var section := t.sections[victim.section];
    RemovalTakesCopies(section, victim.id);
    UpdateSums(t.sections, victim.section, RemoveById(section, victim.id));
  }

  /** The error is on one side: without any assumption on ids, an estimate that covers the contents still covers them
      after the drop phase, so a pack that is said to fit does. */
  lemma {:induction false} DropNeverUnderstates(t: Trim, victims: seq<Ref>, budget: int)
    requires t.estimate >= PackTokens(t.sections)
    ensures var end := DropAll(t, victims, budget); end.estimate >= PackTokens(end.sections)
    decreases |victims|
  {
    if victims != [] && !t.Fits(budget) {
      var v := victims[0];
      if v.section < |t.sections| {
        RemovalTakesCopies(t.sections[v.section], v.id);
        UpdateSums(t.sections, v.section, RemoveById(t.sections[v.section], v.id));
      }
      DropNeverUnderstates(t.Drop(v), victims[1..], budget);
    }
  }

  /** Two memories with one id: both leave, one is charged. */
  lemma TwinsAreUndercharged(m: Memory, n: Memory)
    requires m.id == n.id
    ensures RemoveById([m, n], m.id) == []
    ensures SectionTokens([]) == SectionTokens([m, n]) - TokensOf([m, n], m.id) <==> EstimateTokens(n.content) == 0
  {
    assert [m, n][1..] == [n] && [n][1..] == [];
    assert RemoveById([n], m.id) == RemoveById([], m.id);
    assert SectionTokens([n]) == EstimateTokens(n.content);
  }

  // ---- whole drop phases when ids are not unique ----

  /** Tokens that leave uncharged when the victim is dropped: those of the copies behind the first. */
  function Uncharged(sections: seq<Section>, v: Ref): int {
    if v.section >= |sections| then 0
    else CopyTokens(sections[v.section], v.id) - TokensOf(sections[v.section], v.id)
  }

  /** The same over a list of drops, each in the pack that the earlier ones left. */
  function UnchargedSum(t: Trim, victims: seq<Ref>): int
    decreases |victims|
  {
    if victims == [] then 0
    else Uncharged(t.sections, victims[0]) + UnchargedSum(t.Drop(victims[0]), victims[1..])
  }

  /** How many victims the drop phase drops. */
  function Drops(t: Trim, victims: seq<Ref>, budget: int): (k: nat)
    ensures k <= |victims|
    decreases |victims|
  {
    if victims == [] || t.Fits(budget) then 0 else 1 + Drops(t.Drop(victims[0]), victims[1..], budget)
  }

  /** A dropped id is gone, and no other id's memories change. */
  lemma {:induction false} OthersUntouched(section: Section, id: string, x: string)
    ensures CopyTokens(RemoveById(section, id), x) == if x == id then 0 else CopyTokens(section, x)
    ensures TokensOf(RemoveById(section, id), x) == if x == id then 0 else TokensOf(section, x)
  {
    if section != [] {
      OthersUntouched(section[1..], id, x);
      assert section[0].id != id ==> RemoveById(section, id)[1..] == RemoveById(section[1..], id);
    }
  }

  lemma UnchargedAfter(t: Trim, v: Ref, w: Ref)
    ensures Uncharged(t.Drop(v).sections, w)
         == if w.section == v.section && w.id == v.id then 0 else Uncharged(t.sections, w)
  {
    if w.section == v.section < |t.sections| {
      OthersUntouched(t.sections[v.section], v.id, w.id);
    }
  }

  lemma DropError(t: Trim, v: Ref)
    ensures var next := t.Drop(v);
            next.estimate - PackTokens(next.sections)
            == t.estimate - PackTokens(t.sections) + Uncharged(t.sections, v)
    ensures Uncharged(t.sections, v) >= 0
  {
    if v.section < |t.sections| {
      RemovalTakesCopies(t.sections[v.section], v.id);
      UpdateSums(t.sections, v.section, RemoveById(t.sections[v.section], v.id));
    }
  }

  /** Every victim's first copy carries all the tokens of its id. */
  ghost predicate FirstsCarryAll(sections: seq<Section>, victims: seq<Ref>) {
    forall v :: v in victims ==> Uncharged(sections, v) == 0
  }

  lemma {:induction false} UnchargedSumIff(t: Trim, victims: seq<Ref>)
    ensures UnchargedSum(t, victims) >= 0
    ensures UnchargedSum(t, victims) == 0 <==> FirstsCarryAll(t.sections, victims)
    decreases |victims|
  {
    if victims != [] {
      var v, rest := victims[0], victims[1..];
      UnchargedSumIff(t.Drop(v), rest);
      DropError(t, v);
      forall w: Ref | Uncharged(t.sections, v) == 0
        ensures Uncharged(t.Drop(v).sections, w) == 0 <==> Uncharged(t.sections, w) == 0
      {
        UnchargedAfter(t, v, w);
        assert w.section == v.section && w.id == v.id ==> Uncharged(t.sections, w) == Uncharged(t.sections, v);
      }
      assert forall w :: w in victims <==> w == v || w in rest;
    }
  }

  lemma {:induction false} DropPhaseError(t: Trim, victims: seq<Ref>, budget: int)
    ensures var end := DropAll(t, victims, budget);
            end.estimate - PackTokens(end.sections)
            == t.estimate - PackTokens(t.sections) + UnchargedSum(t, victims[..Drops(t, victims, budget)])
    decreases |victims|
  {
    if victims != [] && !t.Fits(budget) {
      var v, k := victims[0], Drops(t, victims, budget);
      DropError(t, v);
      DropPhaseError(t.Drop(v), victims[1..], budget);
      assert victims[..k][1..] == victims[1..][..k - 1];
    }
  }

  /** Whatever the ids, the drop phase is off by the tokens that left uncharged. From an exact start it ends exact
      exactly when, for every victim that was dropped, the first copy of its id in the original section carries all
      tokens of that id. */
  lemma DropPhaseExactIff(t: Trim, victims: seq<Ref>, budget: int)
    requires t.estimate == PackTokens(t.sections)
    ensures var end := DropAll(t, victims, budget); var dropped := victims[..Drops(t, victims, budget)];
            && end.estimate == PackTokens(end.sections) + UnchargedSum(t, dropped)
            && (end.estimate == PackTokens(end.sections) <==> FirstsCarryAll(t.sections, dropped))
  {
    DropPhaseError(t, victims, budget);
    UnchargedSumIff(t, victims[..Drops(t, victims, budget)]);
  }

  // ---- words, sentences and scores ----

  /** Words on both sides of whitespace add up. */
  lemma {:induction false} WordsAddUp(a: string, c: char, b: string)
    requires IsSpace(c)
    ensures Words(a + [c] + b) == Words(a) + Words(b)
  {
    var s := a + [c] + b;
    if b == "" {
      assert s[..|s| - 1] == a && !StartsWord(s, |s| - 1);
    } else {
      var n := |b| - 1;
      WordsAddUp(a, c, b[..n]);
      assert s[..|s| - 1] == a + [c] + b[..n];
      assert s[|s| - 1] == b[n] && s[|s| - 2] == if n > 0 then b[n - 1] else c;
      assert StartsWord(s, |s| - 1) <==> StartsWord(b, n);
    }
  }

  /** A text without whitespace is one word, unless it is empty. */
  lemma {:induction false} OneWord(s: string)
    requires forall i :: 0 <= i < |s| ==> !IsSpace(s[i])
    ensures Words(s) == if s == "" then 0 else 1
  {
    if s != "" {
      OneWord(s[..|s| - 1]);
    }
  }

  /** The estimate is 1.35 tokens a word, rounded down. */
  lemma EstimateIs(s: string, tokens: nat)
    ensures EstimateTokens(s) == tokens <==> 100 * tokens <= 135 * Words(s) < 100 * (tokens + 1)
  {
  }

  /** How many sentences end in a text. */
  function Ends(s: string): nat {
    if s == "" then 0 else Ends(s[..|s| - 1]) + if s[|s| - 1] in ".!?" then 1 else 0
  }

  lemma {:induction false} CutFrom(s: string, i: nat, n: nat)
    requires i <= |s| && n > 0
    ensures var cut := SentenceCut(s, i, n);
            && (cut == 0 <==> Ends(s) < Ends(s[..i]) + n)
            && (cut != 0 ==> i < cut && s[cut - 1] in ".!?" && Ends(s[..cut]) == Ends(s[..i]) + n)
    decreases |s| - i
  {
    if i == |s| {
      assert s[..i] == s;
    } else {
      assert s[..i + 1][..i] == s[..i] && s[..i + 1][i] == s[i];
      assert EndsSentence(s[i]) <==> s[i] in ".!?";
      if EndsSentence(s[i]) && n > 1 {
        CutFrom(s, i + 1, n - 1);
      } else if !EndsSentence(s[i]) {
        CutFrom(s, i + 1, n);
      } else {
        EndsGrow(s, i + 1);
      }
    }
  }

  lemma {:induction false} EndsGrow(s: string, i: nat)
    requires i <= |s|
    ensures Ends(s[..i]) <= Ends(s)
  {
    if i < |s| {
      EndsGrow(s[..|s| - 1], i);
      assert s[..|s| - 1][..i] == s[..i];
    } else {
      assert s[..i] == s;
    }
  }

  lemma {:induction false} TrimLeftIs(s: string) returns (lo: nat)
    ensures lo <= |s| && TrimLeft(s) == s[lo..] && forall k :: 0 <= k < lo ==> IsSpace(s[k])
    ensures lo < |s| ==> !IsSpace(s[lo])
  {
    if s != "" && IsSpace(s[0]) {
      lo := TrimLeftIs(s[1..]);
      lo := lo + 1;
    } else {
      lo := 0;
    }
  }

  /** The leading sentences are the text up to the end of the `n`-th sentence, without the whitespace before the first;
      a text in which fewer sentences end stays as it is. */
  lemma LeadingSentencesAre(s: string, n: nat) returns (lo: nat, cut: nat)
    requires n > 0
    ensures lo <= cut <= |s|
    ensures Ends(s) < n ==> LeadingSentences(s, n) == s
    ensures Ends(s) >= n ==>
              && LeadingSentences(s, n) == s[lo..cut] && lo < cut && !IsSpace(s[lo])
              && (forall k :: 0 <= k < lo ==> IsSpace(s[k]))
              && Ends(s[..cut]) == n && s[cut - 1] in ".!?"
  {
    cut := SentenceCut(s, 0, n);
    CutFrom(s, 0, n);
    assert s[..0] == "";
    lo := 0;
    if cut > 0 {
      var front := s[..cut];
      lo := TrimLeftIs(front);
      assert front[cut - 1] == s[cut - 1] && !IsSpace(s[cut - 1]);
      assert lo < cut;
      assert TrimLeft(front) == s[lo..cut];
      assert TrimRight(s[lo..cut]) == s[lo..cut];
    }
  }

  /** Up to 120 words a memory stays as it is; beyond, its first two sentences are left, and dots for the rest. */
  lemma ShortenedIs(m: Memory) returns (lo: nat, cut: nat)
    ensures Shortened(m).id == m.id && lo <= cut <= |m.content|
    ensures Words(m.content) <= 120 ==> Shortened(m) == m
    ensures Words(m.content) > 120 && Ends(m.content) < 2 ==> Shortened(m).content == m.content + [' ', '…']
    ensures Words(m.content) > 120 && Ends(m.content) >= 2 ==>
              && Shortened(m).content == m.content[lo..cut] + [' ', '…']
              && lo < cut && (forall k :: 0 <= k < lo ==> IsSpace(m.content[k])) && !IsSpace(m.content[lo])
              && Ends(m.content[..cut]) == 2 && m.content[cut - 1] in ".!?"
  {
    lo, cut := LeadingSentencesAre(m.content, 2);
  }

  lemma {:induction false} NoScore(candidates: seq<Candidate>, id: string)
    requires forall i :: 0 <= i < |candidates| ==> candidates[i].id != id
    ensures id !in ScoresOf(candidates)
  {
    if candidates != [] {
      NoScore(candidates[..|candidates| - 1], id);
    }
  }

  lemma {:induction false} LastScore(candidates: seq<Candidate>, i: nat)
    requires i < |candidates| && forall j :: i < j < |candidates| ==> candidates[j].id != candidates[i].id
    ensures candidates[i].id in ScoresOf(candidates) && ScoresOf(candidates)[candidates[i].id] == candidates[i].score
  {
    if i < |candidates| - 1 {
      LastScore(candidates[..|candidates| - 1], i);
    }
  }

  /** The score of a memory is that of the last candidate with its id, and 0 without one. */
  lemma ScoreIsLast(candidates: seq<Candidate>, id: string)
    ensures (forall i :: 0 <= i < |candidates| ==> candidates[i].id != id) ==>
              ScoreOf(ScoresOf(candidates), id) == 0.0
    ensures forall i :: 0 <= i < |candidates| && candidates[i].id == id
                        && (forall j :: i < j < |candidates| ==> candidates[j].id != id) ==>
                          ScoreOf(ScoresOf(candidates), id) == candidates[i].score
  {
    if forall i :: 0 <= i < |candidates| ==> candidates[i].id != id {
      NoScore(candidates, id);
    }
    forall i | 0 <= i < |candidates| && candidates[i].id == id
               && forall j :: i < j < |candidates| ==> candidates[j].id != id
      ensures ScoreOf(ScoresOf(candidates), id) == candidates[i].score
    {
      LastScore(candidates, i);
    }
  }
}
