/** The relation graph and its bounded breadth-first walk from query terms to memory ids. */
module Graph {
  import opened Wrappers
  import opened Ordering
  import opened Text
  import Schema

  function Max(x: real, y: real): real { if x >= y then x else y }

  function HopWeight(hop: nat): real { Max(0.1, 1.0 - hop as real * 0.15) }

  /** A stored row; subject, verb and target are the normalised columns. */
  datatype Relation = Relation(
    graphName: string, subject: string, verb: string, target: string, memoryId: string,
    validFrom: Option<real>, validTo: Option<real>, confidence: real, createdAt: real)
  {
    predicate Touches(nodes: set<string>) { subject in nodes || verb in nodes || target in nodes }

    predicate ActiveAt(t: real) {
      (validFrom.None? || validFrom.value <= t) && (validTo.None? || validTo.value >= t)
    }

    function Nodes(): set<string> { {subject, target} }

    /** What the row is worth when touched at a hop of this weight. */
    function ScoreAt(weight: real): real { confidence * weight }

    function Worth(hop: nat): real { ScoreAt(HopWeight(hop)) }

    /** Nodes a walk can go on from; empty strings never join a frontier. */
    function Ends(): set<string> { Nodes() - {""} }
  }

  type Rows = seq<Relation>

  datatype Filter = Filter(graphs: set<string>, atTime: Option<real>) {
    predicate Passes(r: Relation) {
      (graphs == {} || r.graphName in graphs) && (atTime.Some? ==> r.ActiveAt(atTime.value))
    }
  }

  datatype GraphError = UnknownGraph | EmptyTerm

  const ALLOWED_GRAPHS: set<string> :=
    {"semantic", "temporal", "multimodal", "procedural", "provenance", "topology", "facts", "conflict", "knowledge",
     "default"}

  // ---- one query ----

  predicate Matching(r: Relation, nodes: set<string>, f: Filter) { r.Touches(nodes) && f.Passes(r) }

  function Matches(rows: Rows, nodes: set<string>, f: Filter): Rows {
    if rows == [] then []
    else
      var rest, r := Matches(rows[..|rows| - 1], nodes, f), rows[|rows| - 1];
      if Matching(r, nodes, f) then rest + [r] else rest
  }

  lemma {:induction false} MatchesAre(rows: Rows, nodes: set<string>, f: Filter)
    ensures forall r :: r in Matches(rows, nodes, f) <==> r in rows && Matching(r, nodes, f)
  {
    if rows != [] {
      MatchesAre(rows[..|rows| - 1], nodes, f);
      assert forall r :: r in rows <==> r in rows[..|rows| - 1] || r == rows[|rows| - 1];
    }
  }

  /** SELECT with LIMIT and no ORDER BY: which rows come back when the limit bites is not promised. A negative
      limit is no limit. */
  method SelectRows(rows: Rows, nodes: set<string>, f: Filter, cap: int) returns (found: Rows)
    ensures forall r :: r in found ==> r in rows && Matching(r, nodes, f)
    ensures cap >= 0 ==> |found| <= cap
    ensures cap < 0 || |Matches(rows, nodes, f)| <= cap ==>
              forall r :: r in rows && Matching(r, nodes, f) ==> r in found
  {
    found := [];
    for i := 0 to |rows|
      invariant cap >= 0 ==> |found| <= cap
      invariant forall r :: r in found ==> r in Matches(rows[..i], nodes, f)
      invariant found == Matches(rows[..i], nodes, f) || 0 <= cap < |Matches(rows[..i], nodes, f)|
    {
      assert rows[..i + 1][..i] == rows[..i];
      if Matching(rows[i], nodes, f) && (cap < 0 || |found| < cap) {
        found := found + [rows[i]];
      }
    }
    assert rows[..|rows|] == rows;
    MatchesAre(rows, nodes, f);
  }

  // ---- what the walk is measured against ----

  /** Nodes within `k` hops of the terms. */
  ghost function Ball(rows: Rows, f: Filter, terms: set<string>, k: nat): set<string> {
    if k == 0 then terms else Expand(rows, f, Ball(rows, f, terms, k - 1))
  }

  ghost function Expand(rows: Rows, f: Filter, inner: set<string>): set<string> {
    inner + set r, n | r in rows && Matching(r, inner, f) && n in r.Ends() :: n
  }

  /** Nodes exactly `k` hops away. */
  ghost function Layer(rows: Rows, f: Filter, terms: set<string>, k: nat): set<string> {
    if k == 0 then terms else Ball(rows, f, terms, k) - Ball(rows, f, terms, k - 1)
  }

  /** The walk touches row `r` by hop `h`. */
  ghost predicate TouchedBy(rows: Rows, f: Filter, terms: set<string>, r: Relation, h: nat) {
    r in rows && Matching(r, Ball(rows, f, terms, h), f)
  }

  /** A stored row of one of the graphs asked for, if any were, that holds at the time asked for, if there was one. */
  ghost predicate Step(rows: Rows, f: Filter, r: Relation) {
    && r in rows && (f.graphs == {} || r.graphName in f.graphs)
    && (f.atTime.Some? ==>
          && (r.validFrom.Some? ==> r.validFrom.value <= f.atTime.value)
          && (r.validTo.Some? ==> f.atTime.value <= r.validTo.value))
  }

  /** Subject, verb or target of the row is the node. */
  ghost predicate Mentions(r: Relation, node: string) { r.subject == node || r.verb == node || r.target == node }

  /** A chain of such rows: the first mentions a term, each next one the subject or the target, which is not empty, of
      the one before. */
  ghost predicate Trail(rows: Rows, f: Filter, terms: set<string>, trail: Rows) {
    && trail != []
    && (forall i :: 0 <= i < |trail| ==> Step(rows, f, trail[i]))
    && (exists t :: t in terms && Mentions(trail[0], t))
    && (forall i :: 0 < i < |trail| ==> Follows(trail[i - 1], trail[i]))
  }

  ghost predicate Follows(q: Relation, r: Relation) {
    (q.subject != "" && Mentions(r, q.subject)) || (q.target != "" && Mentions(r, q.target))
  }

  lemma StepIff(rows: Rows, f: Filter, r: Relation)
    ensures Step(rows, f, r) <==> r in rows && f.Passes(r)
  {
  }

  lemma MentionsIff(r: Relation, nodes: set<string>)
    ensures r.Touches(nodes) <==> exists n :: n in nodes && Mentions(r, n)
  {
    if r.Touches(nodes) {
      var n := if r.subject in nodes then r.subject else if r.verb in nodes then r.verb else r.target;
      assert n in nodes && Mentions(r, n);
    }
  }

  lemma FollowsIff(q: Relation, r: Relation)
    ensures Follows(q, r) <==> r.Touches(q.Ends())
  {
    MentionsIff(r, q.Ends());
  }

  lemma TouchesMonotone(r: Relation, a: set<string>, b: set<string>)
    requires a <= b && r.Touches(a)
    ensures r.Touches(b)
  {
  }

  lemma {:induction false} BallGrows(rows: Rows, f: Filter, terms: set<string>, j: nat, k: nat)
    requires j <= k
    ensures Ball(rows, f, terms, j) <= Ball(rows, f, terms, k)
    decreases k - j
  {
    if j < k {
      BallGrows(rows, f, terms, j, k - 1);
    }
  }

  /** Soundness of the balls: what is touched by hop `h` lies at the end of a trail of at most h + 1 rows. */
  lemma {:induction false} TouchedHasTrail(rows: Rows, f: Filter, terms: set<string>, r: Relation, h: nat)
    returns (trail: Rows)
    requires TouchedBy(rows, f, terms, r, h)
    ensures Trail(rows, f, terms, trail) && |trail| <= h + 1 && trail[|trail| - 1] == r
    decreases h
  {
    StepIff(rows, f, r);
    if h == 0 || r.Touches(terms) {
      MentionsIff(r, terms);
      trail := [r];
    } else if TouchedBy(rows, f, terms, r, h - 1) {
      trail := TouchedHasTrail(rows, f, terms, r, h - 1);
    } else {
      var inner := Ball(rows, f, terms, h - 1);
      var n :| n in Ball(rows, f, terms, h) && n !in inner && r.Touches({n});
      var q :| q in rows && Matching(q, inner, f) && n in q.Ends();
      var before := TouchedHasTrail(rows, f, terms, q, h - 1);
      trail := before + [r];
      TouchesMonotone(r, {n}, q.Ends());
      FollowsIff(q, r);
    }
  }

  /** And completeness: the last row of a trail is touched by the hop the trail's length says. */
  lemma {:induction false} TrailIsTouched(rows: Rows, f: Filter, terms: set<string>, trail: Rows)
    requires Trail(rows, f, terms, trail)
    ensures TouchedBy(rows, f, terms, trail[|trail| - 1], |trail| - 1)
    decreases |trail|
  {
    var n := |trail| - 1;
    StepIff(rows, f, trail[n]);
    MentionsIff(trail[0], terms);
    if n > 0 {
      FollowsIff(trail[n - 1], trail[n]);
      TrailIsTouched(rows, f, terms, trail[..n]);
      var q := trail[n - 1];
      assert Matching(q, Ball(rows, f, terms, n - 1), f);
      assert q.Ends() <= Ball(rows, f, terms, n);
      TouchesMonotone(trail[n], q.Ends(), Ball(rows, f, terms, n));
    }
  }

  /** A row is touched by hop `h` exactly when it ends a trail of at most h + 1 rows. */
  lemma TouchedIffTrail(rows: Rows, f: Filter, terms: set<string>, r: Relation, h: nat)
    ensures TouchedBy(rows, f, terms, r, h)
            <==> exists trail :: Trail(rows, f, terms, trail) && |trail| <= h + 1 && trail[|trail| - 1] == r
  {
    if TouchedBy(rows, f, terms, r, h) {
      var trail := TouchedHasTrail(rows, f, terms, r, h);
    }
    forall trail | Trail(rows, f, terms, trail) && |trail| <= h + 1 && trail[|trail| - 1] == r
      ensures TouchedBy(rows, f, terms, r, h)
    {
      TrailIsTouched(rows, f, terms, trail);
      BallGrows(rows, f, terms, |trail| - 1, h);
      TouchesMonotone(r, Ball(rows, f, terms, |trail| - 1), Ball(rows, f, terms, h));
    }
  }

  // ---- scores ----

  /** Best score of each memory, with the creation time of the row that gave it. */
  type Scores = map<string, (real, real)>

  /** The entry is what one of the rows gives its memory. */
  ghost predicate Given(rows: Rows, weight: real, m: string, entry: (real, real)) {
    exists r :: r in rows && r.memoryId == m && entry == (r.ScoreAt(weight), r.createdAt)
  }

  /** One hop's rows folded into the scores: every entry can only rise, each row is accounted for, and each
      entry is an old one or comes from one of the rows. */
  ghost predicate Scored(before: Scores, rows: Rows, weight: real, after: Scores) {
    && (forall m :: m in before ==> m in after && after[m].0 >= before[m].0)
    && (forall r :: r in rows ==> r.memoryId in after && after[r.memoryId].0 >= r.ScoreAt(weight))
    && (forall m :: m in after ==> (m in before && after[m] == before[m]) || Given(rows, weight, m, after[m]))
  }

  function WithRow(scores: Scores, r: Relation, weight: real): Scores {
    var score := r.ScoreAt(weight);
    if r.memoryId !in scores || score > scores[r.memoryId].0 then scores[r.memoryId := (score, r.createdAt)]
    else scores
  }

  function NodesOf(rows: Rows): set<string> { set r, n | r in rows && n in r.Nodes() :: n }

  method ScoreRows(rows: Rows, weight: real, before: Scores) returns (after: Scores, next: set<string>)
    ensures Scored(before, rows, weight, after)
    ensures next == NodesOf(rows)
  {
    after, next := before, {};
    for i := 0 to |rows|
      invariant Scored(before, rows[..i], weight, after)
      invariant next == NodesOf(rows[..i])
    {
      var row := rows[i];
      assert rows[..i + 1] == rows[..i] + [row];
      ScoreOne(before, rows[..i], row, weight, after);
      NodesOne(rows[..i], row);
      after := WithRow(after, row, weight);
      next := next + {row.subject, row.target};
    }
    assert rows[..|rows|] == rows;
  }

  lemma NodesOne(rows: Rows, row: Relation)
    ensures NodesOf(rows + [row]) == NodesOf(rows) + {row.subject, row.target}
  {
    forall n | n in NodesOf(rows) + {row.subject, row.target} ensures n in NodesOf(rows + [row]) {
      if n in NodesOf(rows) {
        var r :| r in rows && n in r.Nodes();
        assert r in rows + [row];
      } else {
        assert row in rows + [row] && n in row.Nodes();
      }
    }
  }

  lemma GivenMore(rows: Rows, row: Relation, weight: real, m: string, entry: (real, real))
    requires Given(rows, weight, m, entry)
    ensures Given(rows + [row], weight, m, entry)
  {
    var r :| r in rows && r.memoryId == m && entry == (r.ScoreAt(weight), r.createdAt);
    assert r in rows + [row];
  }

  lemma ScoreOne(before: Scores, rows: Rows, row: Relation, weight: real, after: Scores)
    requires Scored(before, rows, weight, after)
    ensures Scored(before, rows + [row], weight, WithRow(after, row, weight))
  {
    var after' := WithRow(after, row, weight);
    forall m | m in after'
      ensures (m in before && after'[m] == before[m]) || Given(rows + [row], weight, m, after'[m])
    {
      if m in after && after'[m] == after[m] {
        if Given(rows, weight, m, after[m]) {
          GivenMore(rows, row, weight, m, after[m]);
        }
      } else {
        assert row in rows + [row];
      }
    }
  }

  // ---- the walk ----

  /** The entry belongs to a row touched before hop `hops`. */
  ghost predicate Earned(rows: Rows, f: Filter, terms: set<string>, hops: nat, m: string, entry: (real, real)) {
    exists r, j: nat :: j < hops && EarnedBy(rows, f, terms, r, j, m, entry)
  }

  ghost predicate EarnedBy(rows: Rows, f: Filter, terms: set<string>, r: Relation, j: nat, m: string,
                           entry: (real, real))
  {
    TouchedBy(rows, f, terms, r, j) && r.memoryId == m && entry == (r.Worth(j), r.createdAt)
  }

  /** Every score is one that a reachable row earns. */
  ghost predicate Sound(rows: Rows, f: Filter, terms: set<string>, hops: nat, scores: Scores) {
    forall m :: m in scores ==> Earned(rows, f, terms, hops, m, scores[m])
  }

  /** Every reachable row is accounted for. */
  ghost predicate Complete(rows: Rows, f: Filter, terms: set<string>, hops: nat, scores: Scores) {
    forall r, j: nat :: j < hops && TouchedBy(rows, f, terms, r, j) ==>
                     r.memoryId in scores && scores[r.memoryId].0 >= r.Worth(j)
  }

  /** No hop's query is cut off by the row limit. */
  ghost predicate WithinCap(rows: Rows, f: Filter, terms: set<string>, hops: nat, cap: int) {
    cap < 0 || forall h :: 0 <= h < hops ==> |Matches(rows, Layer(rows, f, terms, h), f)| <= cap
  }

  lemma {:induction false} MatchesAreFew(rows: Rows, nodes: set<string>, f: Filter)
    ensures |Matches(rows, nodes, f)| <= |rows|
  {
    if rows != [] {
      MatchesAreFew(rows[..|rows| - 1], nodes, f);
    }
  }

  /** So it is as long as there are no more rows than one query returns. */
  lemma FewRowsAreWithinCap(rows: Rows, f: Filter, terms: set<string>, hops: nat, cap: int)
    requires cap < 0 || |rows| <= cap
    ensures WithinCap(rows, f, terms, hops, cap)
  {
    forall h | 0 <= h < hops ensures |Matches(rows, Layer(rows, f, terms, h), f)| <= |rows| {
      MatchesAreFew(rows, Layer(rows, f, terms, h), f);
    }
  }

  ghost predicate ConfidencesOk(rows: Rows) { forall r :: r in rows ==> 0.0 <= r.confidence <= 1.0 }

  /** Frontier and visited nodes before hop `h`, whatever the limits did. */
  ghost predicate Inside(rows: Rows, f: Filter, terms: set<string>, h: nat, frontier: set<string>) {
    frontier - {""} <= Ball(rows, f, terms, h)
  }

  /** The same if no limit has bitten: the frontier's new nodes are exactly the next layer. */
  ghost predicate OnLayer(rows: Rows, f: Filter, terms: set<string>, h: nat, frontier: set<string>, seen: set<string>) {
    && frontier - {""} - seen == Layer(rows, f, terms, h)
    && seen == if h == 0 then {} else Ball(rows, f, terms, h - 1)
  }

  /** A row first touched at hop `h` is worth its confidence less 15 percent a hop, down to a tenth of it. */
  lemma WorthByHop(r: Relation, h: nat)
    ensures r.Worth(h) == r.confidence * if h <= 6 then 1.0 - 0.15 * h as real else 0.1
  {
    if h > 6 {
      assert h as real >= 7.0;
    }
  }

  lemma WeightFalls(r: Relation, i: nat, j: nat)
    requires i <= j && r.confidence >= 0.0
    ensures r.Worth(i) >= r.Worth(j)
  {
    Product(r.confidence, HopWeight(j), HopWeight(i));
  }

  lemma Product(c: real, x: real, y: real)
    requires c >= 0.0 && x <= y
    ensures c * x <= c * y
  {
  }

  lemma EndsInNextBall(rows: Rows, f: Filter, terms: set<string>, h: nat, found: Rows)
    requires forall r :: r in found ==> TouchedBy(rows, f, terms, r, h)
    ensures Inside(rows, f, terms, h + 1, NodesOf(found))
  {
    forall n | n in NodesOf(found) && n != "" ensures n in Ball(rows, f, terms, h + 1) {
      var r :| r in found && n in r.Nodes();
      assert Matching(r, Ball(rows, f, terms, h), f) && n in r.Ends();
    }
  }

  lemma SoundStep(rows: Rows, f: Filter, terms: set<string>, h: nat, found: Rows, before: Scores, after: Scores)
    requires Sound(rows, f, terms, h, before) && Scored(before, found, HopWeight(h), after)
    requires forall r :: r in found ==> TouchedBy(rows, f, terms, r, h)
    ensures Sound(rows, f, terms, h + 1, after)
  {
    forall m | m in after ensures Earned(rows, f, terms, h + 1, m, after[m]) {
      if m in before && after[m] == before[m] {
        var r, j: nat :| j < h && EarnedBy(rows, f, terms, r, j, m, before[m]);
        assert j < h + 1 && EarnedBy(rows, f, terms, r, j, m, after[m]);
      } else {
        var r :| r in found && r.memoryId == m && after[m] == (r.ScoreAt(HopWeight(h)), r.createdAt);
        assert EarnedBy(rows, f, terms, r, h, m, after[m]);
      }
    }
  }

  /** A row within reach touches the new layer, or was within reach one hop earlier. */
  lemma LayerOrEarlier(rows: Rows, f: Filter, terms: set<string>, h: nat, r: Relation)
    requires TouchedBy(rows, f, terms, r, h)
    ensures Matching(r, Layer(rows, f, terms, h), f) || (h > 0 && TouchedBy(rows, f, terms, r, h - 1))
  {
  }

  lemma CompleteStep(rows: Rows, f: Filter, terms: set<string>, h: nat, found: Rows, before: Scores, after: Scores)
    requires ConfidencesOk(rows)
    requires Complete(rows, f, terms, h, before) && Scored(before, found, HopWeight(h), after)
    requires forall r :: r in rows && Matching(r, Layer(rows, f, terms, h), f) ==> r in found
    ensures Complete(rows, f, terms, h + 1, after)
  {
    forall r, j: nat | j < h + 1 && TouchedBy(rows, f, terms, r, j)
      ensures r.memoryId in after && after[r.memoryId].0 >= r.Worth(j)
    {
      if j == h {
        LayerOrEarlier(rows, f, terms, h, r);
        if r !in found {
          WeightFalls(r, h - 1, h);
        }
      }
    }
  }

  lemma LayerStep(rows: Rows, f: Filter, terms: set<string>, h: nat, found: Rows)
    requires forall r :: r in found <==> r in rows && Matching(r, Layer(rows, f, terms, h), f)
    ensures OnLayer(rows, f, terms, h + 1, NodesOf(found), Ball(rows, f, terms, h))
  {
    var ball, next := Ball(rows, f, terms, h), NodesOf(found);
    forall n | n in Layer(rows, f, terms, h + 1) ensures n in next && n != "" {
      var r :| r in rows && Matching(r, ball, f) && n in r.Ends();
      LayerOrEarlier(rows, f, terms, h, r);
      assert h > 0 && TouchedBy(rows, f, terms, r, h - 1) ==> n in ball;
      assert n in r.Nodes();
    }
    forall n | n in next && n != "" && n !in ball ensures n in Layer(rows, f, terms, h + 1) {
      var r :| r in found && n in r.Nodes();
      BallGrows(rows, f, terms, if h == 0 then 0 else h - 1, h);
      TouchesMonotone(r, Layer(rows, f, terms, h), ball);
      assert n in r.Ends();
    }
  }

  /** Nothing new is reached from `ball`. */
  ghost predicate Closed(rows: Rows, f: Filter, ball: set<string>) { Expand(rows, f, ball) == ball }

  /** An iteration that stands still once stands still for good. */
  lemma {:induction false} FixedForever<T>(at: nat -> T, step: T -> T, h: nat, k: nat)
    requires h <= k && step(at(h)) == at(h) && forall j: nat :: at(j + 1) == step(at(j))
    ensures at(k) == at(h)
    decreases k
  {
    if h < k {
      FixedForever(at, step, h, k - 1);
      assert at(k - 1 + 1) == step(at(k - 1));
    }
  }

  lemma BallStops(rows: Rows, f: Filter, terms: set<string>, h: nat, k: nat)
    requires h <= k && Closed(rows, f, Ball(rows, f, terms, h))
    ensures Ball(rows, f, terms, k) == Ball(rows, f, terms, h)
  {
    FixedForever((j: nat) => Ball(rows, f, terms, j), (ball: set<string>) => Expand(rows, f, ball), h, k);
  }

  lemma EmptyLayer(rows: Rows, f: Filter, terms: set<string>, h: nat)
    requires terms != {} && Layer(rows, f, terms, h) == {}
    ensures h > 0 && Closed(rows, f, Ball(rows, f, terms, h - 1))
  {
    BallGrows(rows, f, terms, h - 1, h);
  }

  /** An empty layer ends the walk for good. */
  lemma CompleteForever(rows: Rows, f: Filter, terms: set<string>, h: nat, hops: nat, scores: Scores)
    requires ConfidencesOk(rows) && terms != {} && h <= hops
    requires Complete(rows, f, terms, h, scores) && Layer(rows, f, terms, h) == {}
    ensures Complete(rows, f, terms, hops, scores)
  {
    EmptyLayer(rows, f, terms, h);
    forall r, j: nat | j < hops && TouchedBy(rows, f, terms, r, j)
      ensures r.memoryId in scores && scores[r.memoryId].0 >= r.Worth(j)
    {
      if j >= h {
        TouchedEarlier(rows, f, terms, h - 1, j, r);
        WeightFalls(r, h - 1, j);
      }
    }
  }

  lemma TouchedEarlier(rows: Rows, f: Filter, terms: set<string>, h: nat, j: nat, r: Relation)
    requires Closed(rows, f, Ball(rows, f, terms, h)) && h <= j
    requires TouchedBy(rows, f, terms, r, j)
    ensures TouchedBy(rows, f, terms, r, h)
  {
    BallStops(rows, f, terms, h, j);
  }

  lemma SoundLonger(rows: Rows, f: Filter, terms: set<string>, h: nat, hops: nat, scores: Scores)
    requires h <= hops && Sound(rows, f, terms, h, scores)
    ensures Sound(rows, f, terms, hops, scores)
  {
    forall m | m in scores ensures Earned(rows, f, terms, hops, m, scores[m]) {
      var r, j: nat :| j < h && EarnedBy(rows, f, terms, r, j, m, scores[m]);
      assert j < hops;
    }
  }

  /** The hop loop. */
  method CollectScores(rows: Rows, f: Filter, terms: set<string>, hops: nat, cap: int) returns (scores: Scores)
    requires ConfidencesOk(rows) && terms != {} && "" !in terms
    ensures Sound(rows, f, terms, hops, scores)
    ensures WithinCap(rows, f, terms, hops, cap) ==> Complete(rows, f, terms, hops, scores)
  {
    var frontier, seen := terms, {};
    scores := map[];
    for h := 0 to hops
      invariant Inside(rows, f, terms, h, frontier) && Sound(rows, f, terms, h, scores)
      invariant WithinCap(rows, f, terms, hops, cap) ==>
                  OnLayer(rows, f, terms, h, frontier, seen) && Complete(rows, f, terms, h, scores)
    {
      frontier := frontier - {""} - seen;
      if frontier == {} {
        SoundLonger(rows, f, terms, h, hops, scores);
        if WithinCap(rows, f, terms, hops, cap) {
          CompleteForever(rows, f, terms, h, hops, scores);
        }
        return;
      }
      ghost var before := scores;
      var found := SelectRows(rows, frontier, f, cap);
      FoundIsTouched(rows, f, terms, h, frontier, found);
      var next;
      scores, next := ScoreRows(found, HopWeight(h), scores);
      SoundStep(rows, f, terms, h, found, before, scores);
      EndsInNextBall(rows, f, terms, h, found);
      if WithinCap(rows, f, terms, hops, cap) {
        CompleteStep(rows, f, terms, h, found, before, scores);
        LayerStep(rows, f, terms, h, found);
        SeenIsBall(rows, f, terms, h, frontier, seen);
      }
      seen := seen + frontier;
      frontier := next;
    }
  }

  lemma FoundIsTouched(rows: Rows, f: Filter, terms: set<string>, h: nat, frontier: set<string>, found: Rows)
    requires frontier <= Ball(rows, f, terms, h)
    requires forall r :: r in found ==> r in rows && Matching(r, frontier, f)
    ensures forall r :: r in found ==> TouchedBy(rows, f, terms, r, h)
  {
    forall r | r in found ensures TouchedBy(rows, f, terms, r, h) {
      TouchesMonotone(r, frontier, Ball(rows, f, terms, h));
    }
  }

  lemma SeenIsBall(rows: Rows, f: Filter, terms: set<string>, h: nat, frontier: set<string>, seen: set<string>)
    requires frontier == Layer(rows, f, terms, h)
    requires seen == if h == 0 then {} else Ball(rows, f, terms, h - 1)
    ensures seen + frontier == Ball(rows, f, terms, h)
  {
    if h > 0 {
      BallGrows(rows, f, terms, h - 1, h);
    }
  }

  /** Row `r` of memory `m` is first touched at hop `j`, in time. */
  ghost predicate Candidate(rows: Rows, f: Filter, terms: set<string>, hops: nat, m: string, r: Relation, j: nat) {
    j < hops && r.memoryId == m && FirstTouched(rows, f, terms, r, j)
  }

  /** With nothing cut off, the scores are exact: the memories are those of the rows within reach, and each score
      is the largest confidence times the weight of the hop at which a row of that memory is first touched. */
  lemma ScoresAreBestFirstTouches(rows: Rows, f: Filter, terms: set<string>, hops: nat, scores: Scores, m: string)
    requires ConfidencesOk(rows) && Sound(rows, f, terms, hops, scores) && Complete(rows, f, terms, hops, scores)
    ensures m in scores <==> exists r, j: nat :: Candidate(rows, f, terms, hops, m, r, j)
    ensures m in scores ==>
              exists r, j: nat :: Candidate(rows, f, terms, hops, m, r, j) && scores[m].0 == r.Worth(j)
    ensures m in scores ==>
              forall r, j: nat :: Candidate(rows, f, terms, hops, m, r, j) ==> r.Worth(j) <= scores[m].0
  {
    if m in scores {
      var r, j: nat :| j < hops && EarnedBy(rows, f, terms, r, j, m, scores[m]);
      var first := FirstTouch(rows, f, terms, r, j);
      WeightFalls(r, first, j);
      assert TouchedBy(rows, f, terms, r, first);
      assert Candidate(rows, f, terms, hops, m, r, first);
    }
  }

  ghost predicate FirstTouched(rows: Rows, f: Filter, terms: set<string>, r: Relation, j: nat) {
    TouchedBy(rows, f, terms, r, j) && forall i :: 0 <= i < j ==> !TouchedBy(rows, f, terms, r, i)
  }

  lemma {:induction false} FirstTouch(rows: Rows, f: Filter, terms: set<string>, r: Relation, j: nat)
    returns (first: nat)
    requires TouchedBy(rows, f, terms, r, j)
    ensures first <= j && FirstTouched(rows, f, terms, r, first)
    decreases j
  {
    if i: nat :| i < j && TouchedBy(rows, f, terms, r, i) {
      first := FirstTouch(rows, f, terms, r, i);
    } else {
      first := j;
    }
  }

  // ---- the store ----

  /** How many items s[:limit] keeps of a list of `n`. */
  function SliceLength(n: nat, limit: int): (k: nat)
    ensures k <= n
  {
    if limit >= n then n else if limit >= 0 then limit else if n + limit >= 0 then n + limit else 0
  }

  /** Score descending, then creation time descending; ids without a score rank last. */
  predicate RanksBefore(scores: Scores, x: string, y: string) {
    y !in scores || (x in scores && (scores[x].0 > scores[y].0
                                     || (scores[x].0 == scores[y].0 && scores[x].1 >= scores[y].1)))
  }

  function Underscored(s: string): string {
    seq(|s|, i requires 0 <= i < |s| => if s[i] == ' ' then '_' else s[i])
  }

  /** The graph a name stands for; a missing or blank name picks one by whether the row has validity bounds. */
  function GraphName(norm: string -> string, name: Option<string>, bounded: bool): string {
    if name.None? || Strip(name.value) == "" then (if bounded then "temporal" else "semantic")
    else Underscored(norm(name.value))
  }

  /** The uniqueness key, which SQL never finds equal when a validity bound is null. */
  predicate SameKey(r: Relation, s: Relation) {
    && r.graphName == s.graphName && r.subject == s.subject && r.verb == s.verb && r.target == s.target
    && r.memoryId == s.memoryId
    && r.validFrom.Some? && r.validFrom == s.validFrom && r.validTo.Some? && r.validTo == s.validTo
  }

  predicate GraphAllowed(norm: string -> string, name: Option<string>, bounded: bool) {
    GraphName(norm, name, bounded) in ALLOWED_GRAPHS
  }

  /** INSERT OR IGNORE. */
  function WithRelation(rows: Rows, r: Relation): Rows {
    if exists s :: s in rows && SameKey(s, r) then rows else rows + [r]
  }

  /** A relation is ignored exactly when a row has the same graph, terms, memory and validity bounds, both given. */
  lemma IgnoredIff(rows: Rows, r: Relation)
    ensures WithRelation(rows, r) == rows <==>
              exists s :: s in rows && r == s.(confidence := r.confidence, createdAt := r.createdAt)
                          && r.validFrom.Some? && r.validTo.Some?
    ensures WithRelation(rows, r) != rows ==> WithRelation(rows, r) == rows + [r]
  {
    forall s | s in rows
      ensures SameKey(s, r) <==> r == s.(confidence := r.confidence, createdAt := r.createdAt)
                                 && r.validFrom.Some? && r.validTo.Some?
    {
    }
  }

  // ---- the relations of a memory ----

  predicate Bounded(item: Schema.RelationItem) { item.validFrom.Some? || item.validTo.Some? }

  predicate ItemAllowed(norm: string -> string, item: Schema.RelationItem) {
    && GraphAllowed(norm, item.graphName, Bounded(item))
    && Strip(item.subject) != "" && Strip(item.verb) != "" && Strip(item.target) != ""
  }

  function ItemRow(norm: string -> string, m: Schema.Envelope, item: Schema.RelationItem): Relation {
    Relation(GraphName(norm, item.graphName, Bounded(item)), norm(Strip(item.subject)), norm(Strip(item.verb)),
             norm(Strip(item.target)), m.id, item.validFrom, item.validTo, Clamp(m.ConfidenceOf(item)), m.createdAt)
  }

  /** The rows after the first `n` relations. */
  function ItemsStored(norm: string -> string, rows: Rows, m: Schema.Envelope, n: nat): Rows
    requires n <= |m.attributes.relations|
  {
    if n == 0 then rows
    else WithRelation(ItemsStored(norm, rows, m, n - 1), ItemRow(norm, m, m.attributes.relations[n - 1]))
  }

  /** Index of the first refused relation from `i` on, or the number of relations. */
  function FirstRefused(norm: string -> string, m: Schema.Envelope, i: nat): (n: nat)
    requires i <= |m.attributes.relations|
    ensures i <= n <= |m.attributes.relations|
    ensures forall j :: i <= j < n ==> ItemAllowed(norm, m.attributes.relations[j])
    ensures n < |m.attributes.relations| ==> !ItemAllowed(norm, m.attributes.relations[n])
    decreases |m.attributes.relations| - i
  {
    if i == |m.attributes.relations| || !ItemAllowed(norm, m.attributes.relations[i]) then i
    else FirstRefused(norm, m, i + 1)
  }

  class GraphStore {
    const norm: string -> string
    var rows: Rows

    /** What the confidence clamp and INSERT OR IGNORE keep. */
    ghost predicate Valid()
      reads this
    {
      ConfidencesOk(rows) && forall i, j :: 0 <= i < j < |rows| ==> !SameKey(rows[i], rows[j])
    }

    constructor (norm: string -> string)
      ensures this.norm == norm && rows == [] && Valid()
    {
      this.norm := norm;
      rows := [];
    }

    method AddRelation(subject: string, verb: string, target: string, memoryId: string, name: Option<string>,
                       validFrom: Option<real>, validTo: Option<real>, confidence: real, createdAt: real)
      returns (r: Result<Relation, GraphError>)
      requires Valid()
      modifies this
      ensures Valid()
      ensures r.Failure? ==> rows == old(rows)
      ensures r == Failure(UnknownGraph) <==> !GraphAllowed(norm, name, validFrom.Some? || validTo.Some?)
      ensures r == Failure(EmptyTerm) <==>
                GraphAllowed(norm, name, validFrom.Some? || validTo.Some?)
                && (Strip(subject) == "" || Strip(verb) == "" || Strip(target) == "")
      ensures r.Success? ==>
                && r.value == Relation(GraphName(norm, name, validFrom.Some? || validTo.Some?), norm(Strip(subject)),
                                       norm(Strip(verb)), norm(Strip(target)), memoryId, validFrom, validTo,
                                       Clamp(confidence), createdAt)
                && rows == WithRelation(old(rows), r.value)
      ensures r.Success? && (name.None? || Strip(name.value) == "") ==>
                r.value.graphName == if validFrom.Some? || validTo.Some? then "temporal" else "semantic"
      ensures r.Success? && name.Some? && Strip(name.value) != "" ==>
                && |r.value.graphName| == |norm(name.value)|
                && forall i :: 0 <= i < |norm(name.value)| ==>
                     r.value.graphName[i] == if norm(name.value)[i] == ' ' then '_' else norm(name.value)[i]
    {
      var graph := GraphName(norm, name, validFrom.Some? || validTo.Some?);
      if graph !in ALLOWED_GRAPHS {
        return Failure(UnknownGraph);
      }
      if Strip(subject) == "" || Strip(verb) == "" || Strip(target) == "" {
        return Failure(EmptyTerm);
      }
      var row := Relation(graph, norm(Strip(subject)), norm(Strip(verb)), norm(Strip(target)), memoryId,
                          validFrom, validTo, Clamp(confidence), createdAt);
      if !exists s :: s in rows && SameKey(s, row) {
        rows := rows + [row];
      }
      r := Success(row);
    }

    method Clear()
      modifies this
      ensures Valid() && rows == []
    {
      rows := [];
    }

    method IndexItem(m: Schema.Envelope, item: Schema.RelationItem) returns (ok: bool)
      requires Valid()
      modifies this
      ensures Valid()
      ensures ok <==> ItemAllowed(norm, item)
      ensures rows == if ok then WithRelation(old(rows), ItemRow(norm, m, item)) else old(rows)
    {
      var r := AddRelation(item.subject, item.verb, item.target, m.id, item.graphName, item.validFrom, item.validTo,
                           m.ConfidenceOf(item), m.createdAt);
      ok := r.Success?;
      assert ok || r.error == UnknownGraph || r.error == EmptyTerm;
    }

    /** Stops at the first refused relation; the ones before it stay stored. */
    method IndexMemory(m: Schema.Envelope) returns (ok: bool)
      requires Valid()
      modifies this
      ensures Valid()
      ensures ok <==> FirstRefused(norm, m, 0) == |m.attributes.relations|
      ensures rows == ItemsStored(norm, old(rows), m, FirstRefused(norm, m, 0))
    {
      for i := 0 to |m.attributes.relations|
        invariant Valid()
        invariant rows == ItemsStored(norm, old(rows), m, i) && FirstRefused(norm, m, 0) == FirstRefused(norm, m, i)
      {
        ok := IndexItem(m, m.attributes.relations[i]);
        if !ok {
          return;
        }
      }
      ok := true;
    }

    /** Returns the best memory ids, best first. The row limit of each hop is four times `limit`. */
    method Walk(terms: seq<string>, limit: int, maxHops: int, atTime: Option<real>, graphs: seq<string>)
      returns (r: Result<seq<string>, GraphError>, ghost scores: Scores)
      requires Valid()
      ensures r.Failure? <==> Usable(norm, terms) != {} && !(GraphNames(norm, graphs) <= ALLOWED_GRAPHS)
      ensures r.Success? && Usable(norm, terms) == {} ==> r.value == []
      ensures r.Success? && Usable(norm, terms) != {} ==>
                var f, start := Filter(GraphNames(norm, graphs), atTime), Usable(norm, terms);
                var hops := if maxHops < 1 then 1 else maxHops;
                var cap := if limit >= 0 then limit * 4 else limit;
                && Sound(rows, f, start, hops, scores)
                && (WithinCap(rows, f, start, hops, cap) ==> Complete(rows, f, start, hops, scores))
                && RankedHead(r.value, scores, limit)
    {
      var start := Usable(norm, terms);
      scores := map[];
      if start == {} {
        return Success([]), scores;
      }
      var names := GraphNames(norm, graphs);
      if !(names <= ALLOWED_GRAPHS) {
        return Failure(UnknownGraph), scores;
      }
      var hops := if maxHops < 1 then 1 else maxHops;
      var cap := if limit >= 0 then limit * 4 else limit;
      var best := CollectScores(rows, Filter(names, atTime), start, hops, cap);
      scores := best;
      var head := Rank(best, limit);
      r := Success(head);
    }
  }

  /** `x` scores higher than `y`, or as high and no earlier. */
  predicate Outranks(scores: Scores, x: string, y: string)
    requires x in scores && y in scores
  {
    scores[x].0 > scores[y].0 || (scores[x].0 == scores[y].0 && scores[x].1 >= scores[y].1)
  }

  /** The ids are the head of a ranking of all scored memories, best first, cut as a Python slice would be: to at most
      `limit`, or, if that is negative, by as many as it says. */
  ghost predicate RankedHead(ids: seq<string>, scores: Scores, limit: int) {
    && NoDuplicates(ids) && (forall m :: m in ids ==> m in scores)
    && (forall i, j :: 0 <= i < j < |ids| ==> Outranks(scores, ids[i], ids[j]))
    && (forall x, y :: x in ids && y in scores && y !in ids ==> Outranks(scores, x, y))
    && |ids| == if 0 <= limit <= |scores| then limit
                else if limit > |scores| then |scores|
                else if |scores| + limit >= 0 then |scores| + limit else 0
  }

  /** So no memory that is left out has a larger score than one that is returned, and one that scores more than all
      others comes first. */
  lemma BestIsFirst(ids: seq<string>, scores: Scores, limit: int, x: string)
    requires RankedHead(ids, scores, limit) && limit > 0 && x in scores
    requires forall y :: y in scores && y != x ==> scores[y].0 < scores[x].0
    ensures ids != [] && ids[0] == x
    ensures forall y, z :: y in ids && z in scores && z !in ids ==> scores[z].0 <= scores[y].0
  {
    assert |scores| > 0 by {
      assert x in scores.Keys;
    }
    if ids[0] != x {
      FirstOutranks(ids, scores, limit, x);
    }
  }

  lemma FirstOutranks(ids: seq<string>, scores: Scores, limit: int, x: string)
    requires RankedHead(ids, scores, limit) && ids != [] && x in scores && x != ids[0]
    ensures ids[0] in scores && Outranks(scores, ids[0], x)
  {
    assert ids[0] in ids;
    if x in ids {
      var i :| 0 <= i < |ids| && ids[i] == x;
      assert Outranks(scores, ids[0], ids[i]);
    }
  }

  lemma HeadFirst(s: seq<string>, n: nat, x: string, y: string, leq: (string, string) -> bool)
    requires n <= |s| && SortedBy(s, leq) && x in s[..n] && y in s && y !in s[..n]
    ensures leq(x, y)
  {
    var i :| 0 <= i < n && s[i] == x;
    var j :| 0 <= j < |s| && s[j] == y;
    assert forall k :: 0 <= k < n ==> s[k] in s[..n];
    assert j >= n;
  }

  method Rank(scores: Scores, limit: int) returns (ids: seq<string>)
    ensures RankedHead(ids, scores, limit)
  {
    var ordered := SortSet(scores.Keys, (x, y) => RanksBefore(scores, x, y));
    var n := SliceLength(|scores|, limit);
    ids := ordered[..n];
    assert forall m :: m in ids ==> m in ordered;
    forall i, j | 0 <= i < j < |ids| ensures Outranks(scores, ids[i], ids[j]) {
      assert RanksBefore(scores, ordered[i], ordered[j]);
    }
    forall x, y | x in ids && y in scores && y !in ids ensures Outranks(scores, x, y) {
      assert y in ordered;
      HeadFirst(ordered, n, x, y, (x, y) => RanksBefore(scores, x, y));
    }
  }

  /** The graphs asked for, normalised. */
  function GraphNames(norm: string -> string, graphs: seq<string>): set<string> {
    set g | g in graphs :: GraphName(norm, Some(g), false)
  }

  /** The normalised terms that are not empty. */
  function Usable(norm: string -> string, terms: seq<string>): set<string> {
    (set t | t in terms :: norm(t)) - {""}
  }

  /** What a walk starts from and which graphs it asks for. */
  lemma QueryIsNormalised(norm: string -> string, terms: seq<string>, graphs: seq<string>)
    ensures forall t :: t in Usable(norm, terms) <==> t != "" && exists x :: x in terms && t == norm(x)
    ensures forall g :: g in graphs && Strip(g) != "" ==> Underscored(norm(g)) in GraphNames(norm, graphs)
    ensures forall g :: g in graphs && Strip(g) == "" ==> "semantic" in GraphNames(norm, graphs)
    ensures |GraphNames(norm, graphs)| == 0 <==> graphs == []
  {
    forall g | g in graphs ensures GraphName(norm, Some(g), false) in GraphNames(norm, graphs) {
    }
    if graphs != [] {
      assert graphs[0] in graphs;
    }
  }
}
