/** The memory vault: remembering fills the store, the relation graph and the knowledge graph one after the other, and
    rebuilding starts again from the log file and the fact ledger. */
module Vault {
  import opened Wrappers
  import opened Schema
  import S = Store
  import G = Graph
  import K = Knowledge
  import F = Facts
  import M = Mirror
  import R = Rebuild
  import Text

  datatype Setup = Setup(codec: S.Codec, threshold: nat, norm: string -> string, h: K.Hashing)

  /** What a rebuild is about: the store's tables and blobs, the relation rows and the assertions. */
  datatype State = State(x: S.Indexes, rows: G.Rows, assertions: K.Assertions)

  /** Every relation of the memory names an allowed graph and three terms, and the memory's id is not blank. */
  ghost predicate Allowed(c: Setup, m: Envelope) {
    forall i :: 0 <= i < |m.attributes.relations| ==>
      G.ItemAllowed(c.norm, m.attributes.relations[i]) && K.ItemComplete(m, m.attributes.relations[i])
  }

  /** Whether indexing the memory's relations raises nothing. */
  predicate Indexes(c: Setup, m: Envelope) {
    var n := |m.attributes.relations|;
    G.FirstRefused(c.norm, m, 0) == n && K.FirstIncomplete(m, 0) == n
  }

  /** The store comes first; a refused relation leaves what was done before it. */
  function Remembered(c: Setup, s: State, m: Envelope, now: real): State {
    var n := G.FirstRefused(c.norm, m, 0);
    State(S.Indexed(c.codec, c.threshold, s.x, m, now),
          G.ItemsStored(c.norm, s.rows, m, n),
          if n < |m.attributes.relations| then s.assertions
          else K.ItemsIndexed(c.h, s.assertions, m, K.FirstIncomplete(m, 0)))
  }

  lemma IndexesIff(c: Setup, m: Envelope)
    ensures Indexes(c, m) <==> Allowed(c, m)
    ensures Indexes(c, m) <==>
              forall i :: 0 <= i < |m.attributes.relations| ==>
                var item := m.attributes.relations[i];
                && Text.Strip(item.subject) != "" && Text.Strip(item.verb) != "" && Text.Strip(item.target) != ""
                && Text.Strip(m.id) != ""
                && G.GraphName(c.norm, item.graphName, item.validFrom.Some? || item.validTo.Some?) in G.ALLOWED_GRAPHS
  {
    var items := m.attributes.relations;
    var n, k := G.FirstRefused(c.norm, m, 0), K.FirstIncomplete(m, 0);
    if n < |items| {
      assert !G.ItemAllowed(c.norm, items[n]);
    }
    if k < |items| {
      assert !K.ItemComplete(m, items[k]);
    }
  }

  // ---- the rebuild, as a function of the log's lines ----

  /** How a rebuild ends: as it should, early because there is no log file, or with an exception at a line that is no
      envelope or at a relation that is refused. */
  datatype Outcome = Completed | NoLog | BadLine | RefusedRelation

  function Replayed(c: Setup, blobs: S.Blobs, lines: seq<S.Line>, now: real): (State, Outcome) {
    if lines == [] then (State(S.Indexes(map[], map[], blobs), [], map[]), Completed)
    else
      var (s, outcome) := Replayed(c, blobs, lines[..|lines| - 1], now);
      if outcome != Completed then (s, outcome) else ReplayedLine(c, s, lines[|lines| - 1], now)
  }

  function ReplayedLine(c: Setup, s: State, line: S.Line, now: real): (State, Outcome) {
    match line
    case Blank => (s, Completed)
    case Invalid => (s, BadLine)
    case Entry(e) =>
      var m := c.codec.Reread(e, now);
      (Remembered(c, s, m, now), if Indexes(c, m) then Completed else RefusedRelation)
  }

  lemma {:induction false} ReplayedMore(c: Setup, blobs: S.Blobs, lines: seq<S.Line>, i: nat, now: real)
    requires i <= |lines| && Replayed(c, blobs, lines[..i], now).1 != Completed
    ensures Replayed(c, blobs, lines, now) == Replayed(c, blobs, lines[..i], now)
    decreases |lines| - i
  {
    if i == |lines| {
      assert lines[..i] == lines;
    } else {
      assert lines[..i + 1][..i] == lines[..i];
      ReplayedMore(c, blobs, lines, i + 1, now);
    }
  }

  lemma ReplayedNext(c: Setup, blobs: S.Blobs, lines: seq<S.Line>, i: nat, now: real)
    requires i < |lines| && Replayed(c, blobs, lines[..i], now).1 == Completed
    ensures Replayed(c, blobs, lines[..i + 1], now)
         == ReplayedLine(c, Replayed(c, blobs, lines[..i], now).0, lines[i], now)
  {
    assert lines[..i + 1][..i] == lines[..i];
  }

  class MemoryVault {
    const c: Setup
    const store: S.TemporalStore
    const graph: G.GraphStore
    const ledger: F.FactLedger

    ghost predicate Valid()
      reads graph
    {
      && store.k == c.codec && store.threshold == c.threshold && graph.norm == c.norm
      && ledger.h == c.h && ledger.knowledge.h == c.h && graph.Valid()
    }

    ghost function Now(): State
      reads store, graph, ledger.knowledge
    {
      State(store.Now(), graph.rows, ledger.knowledge.assertions)
    }

    constructor (c: Setup)
      ensures Valid() && this.c == c && Now() == State(S.Indexes(map[], map[], map[]), [], map[])
      ensures store.log == None && ledger.facts == map[]
      ensures fresh(store) && fresh(graph) && fresh(ledger) && fresh(ledger.knowledge)
    {
      this.c := c;
      store := new S.TemporalStore(c.codec, c.threshold);
      graph := new G.GraphStore(c.norm);
      var knowledge := new K.KnowledgeGraph(c.h);
      ledger := new F.FactLedger(knowledge);
    }

    /** `!ok` is an exception. The envelope has been stored and logged by then. */
    method Remember(m: Envelope, appendLog: bool, now: real) returns (ok: bool)
      requires Valid()
      modifies store, graph, ledger.knowledge
      ensures Valid() && (ok <==> Indexes(c, m)) && Now() == Remembered(c, old(Now()), m, now)
      ensures store.log == (if appendLog
                            then Some(S.TextOf(old(store.log))
                                      + c.codec.toJson(S.StoredForm(c.codec, c.threshold, m, now)) + "\n")
                            else old(store.log))
    {
      var _ := store.Remember(m, appendLog, now);
      ok := graph.IndexMemory(m);
      if ok {
        ok := ledger.knowledge.IndexMemory(m);
      }
    }

    method ReplayLine(line: string, now: real) returns (outcome: Outcome)
      requires Valid()
      modifies store, graph, ledger.knowledge
      ensures Valid() && store.log == old(store.log)
      ensures (Now(), outcome) == ReplayedLine(c, old(Now()), S.LineOf(c.codec, line), now)
    {
      if Text.Strip(line) == "" {
        return Completed;
      }
      var parsed := c.codec.fromJson(line);
      if parsed.None? {
        return BadLine;
      }
      var ok := Remember(c.codec.Reread(parsed.value, now), false, now);
      outcome := if ok then Completed else RefusedRelation;
    }

    method ReplayLog(text: string, now: real) returns (outcome: Outcome)
      requires Valid() && Now() == State(S.Indexes(map[], map[], store.blobs), [], map[])
      modifies store, graph, ledger.knowledge
      ensures Valid() && store.log == old(store.log)
      ensures (Now(), outcome) == Replayed(c, old(store.blobs), S.LinesOf(c.codec, text), now)
    {
      ghost var blobs, all := store.blobs, S.LinesOf(c.codec, text);
      var lines := Text.SplitLines(text);
      outcome := Completed;
      for i := 0 to |lines|
        invariant Valid() && store.log == old(store.log) && outcome == Completed
        invariant (Now(), outcome) == Replayed(c, blobs, all[..i], now)
      {
        ReplayedNext(c, blobs, all, i, now);
        outcome := ReplayLine(lines[i], now);
        if outcome != Completed {
          ReplayedMore(c, blobs, all, i + 1, now);
          return;
        }
      }
      assert all[..|lines|] == all;
    }

    /** The tables are cleared first, so an early end leaves them without what would have followed. */
    method RebuildIndexes(now: real) returns (outcome: Outcome, ghost order: seq<K.Fact>)
      requires Valid() && R.LedgerComplete(ledger.facts)
      modifies store, graph, ledger.knowledge
      ensures Valid() && store.log == old(store.log) && ledger.facts == old(ledger.facts)
      ensures outcome.Completed? ==> R.Listing(order, ledger.facts)
      ensures (Now(), outcome) == Rebuilt(c, old(store.blobs), old(store.log), order, now)
    {
      store.ClearIndexes();
      graph.Clear();
      ledger.knowledge.Clear();
      order := [];
      if store.log.None? {
        return NoLog, order;
      }
      outcome := ReplayLog(store.log.value, now);
      if outcome.Completed? {
        order := R.IndexLedger(ledger);
      }
    }
  }

  /** Everything a rebuild leaves, and how it ends. */
  function Rebuilt(c: Setup, blobs: S.Blobs, file: Option<string>, order: seq<K.Fact>, now: real): (State, Outcome) {
    if file.None? then (State(S.Indexes(map[], map[], blobs), [], map[]), NoLog)
    else
      var (s, outcome) := Replayed(c, blobs, S.LinesOf(c.codec, file.value), now);
      if outcome != Completed then (s, outcome)
      else (s.(assertions := R.Rebuilt(c.h, s.assertions, order)), Completed)
  }

  // ---- when a rebuild completes ----

  ghost predicate Readable(c: Setup, line: S.Line, now: real) {
    match line
    case Blank => true
    case Invalid => false
    case Entry(e) => Allowed(c, c.codec.Reread(e, now))
  }

  ghost predicate AllReadable(c: Setup, lines: seq<S.Line>, now: real) {
    forall i :: 0 <= i < |lines| ==> Readable(c, lines[i], now)
  }

  lemma AllReadableMore(c: Setup, lines: seq<S.Line>, now: real)
    requires lines != []
    ensures AllReadable(c, lines, now)
            <==> AllReadable(c, lines[..|lines| - 1], now) && Readable(c, lines[|lines| - 1], now)
  {
    assert forall i :: 0 <= i < |lines| - 1 ==> lines[..|lines| - 1][i] == lines[i];
  }

  /** The replay gets to the end exactly when every line is blank or an envelope all of whose relations are allowed. */
  lemma {:induction false} CompletesIff(c: Setup, blobs: S.Blobs, lines: seq<S.Line>, now: real)
    ensures Replayed(c, blobs, lines, now).1 == Completed <==> AllReadable(c, lines, now)
  {
    if lines != [] {
      var n := |lines| - 1;
      CompletesIff(c, blobs, lines[..n], now);
      AllReadableMore(c, lines, now);
      LineCompletesIff(c, Replayed(c, blobs, lines[..n], now).0, lines[n], now);
    }
  }

  lemma LineCompletesIff(c: Setup, s: State, line: S.Line, now: real)
    ensures ReplayedLine(c, s, line, now).1 == Completed <==> Readable(c, line, now)
  {
    if line.Entry? {
      IndexesIff(c, c.codec.Reread(line.envelope, now));
    }
  }

  /** No assertion belongs to a fact. */
  lemma {:induction false} ItemsAreFactFree(c: Setup, assertions: K.Assertions, m: Envelope, n: nat)
    requires n <= |m.attributes.relations| && R.FactFree(assertions)
    ensures R.FactFree(K.ItemsIndexed(c.h, assertions, m, n))
  {
    if n > 0 {
      ItemsAreFactFree(c, assertions, m, n - 1);
      var before, row := K.ItemsIndexed(c.h, assertions, m, n - 1), K.ItemRow(c.h, m, m.attributes.relations[n - 1]);
      forall a | a in K.Inserted(before, row) ensures K.Inserted(before, row)[a].factId.None? {
        M.PlainRow(before, row, a);
      }
    }
  }

  /** Up to the facts, a rebuild indexes none: an early end leaves every fact without its assertion. */
  lemma {:induction false} ReplayIsFactFree(c: Setup, blobs: S.Blobs, lines: seq<S.Line>, now: real)
    ensures R.FactFree(Replayed(c, blobs, lines, now).0.assertions)
  {
    if lines != [] {
      var n := |lines| - 1;
      ReplayIsFactFree(c, blobs, lines[..n], now);
      var s := Replayed(c, blobs, lines[..n], now).0;
      if lines[n].Entry? {
        var m := c.codec.Reread(lines[n].envelope, now);
        ItemsAreFactFree(c, s.assertions, m, K.FirstIncomplete(m, 0));
      }
    }
  }

  // ---- the facts after a rebuild ----

  /** Every rebuild, however its listing breaks ties, gives every stored fact its assertion back with the right
      status. */
  ghost predicate FactsRestored(c: Setup, facts: F.Ledger, blobs: S.Blobs, file: Option<string>, now: real) {
    forall order: seq<K.Fact> :: R.Listing(order, facts) ==>
      R.StatusesRestored(c.h, facts, Rebuilt(c, blobs, file, order, now).0.assertions)
  }

  /** Every rebuild leaves the knowledge graph an exact mirror of the ledger, links included. */
  ghost predicate MirrorRestored(c: Setup, facts: F.Ledger, blobs: S.Blobs, file: Option<string>, now: real) {
    forall order: seq<K.Fact> :: R.Listing(order, facts) ==>
      M.Mirrors(c.h, facts, Rebuilt(c, blobs, file, order, now).0.assertions)
  }

  lemma FactFreeRestoresNone(h: K.Hashing, facts: F.Ledger, rows: K.Assertions)
    requires R.FactFree(rows)
    ensures R.StatusesRestored(h, facts, rows) <==> facts == map[]
  {
    if facts != map[] {
      var x :| x in facts;
      assert !R.StatusRestored(h, rows, facts[x]);
    }
  }

  /** The log file exists and every line of it is readable. */
  ghost predicate AllRead(c: Setup, file: Option<string>, now: real) {
    file.Some? && AllReadable(c, S.LinesOf(c.codec, file.value), now)
  }

  /** What the facts find when a rebuild comes to them: a table without any of theirs, which they are indexed into
      exactly when the log was read to the end. */
  lemma FactsOnLog(c: Setup, blobs: S.Blobs, file: Option<string>, now: real) returns (base: K.Assertions)
    ensures R.FactFree(base)
    ensures forall order: seq<K.Fact> ::
              Rebuilt(c, blobs, file, order, now).0.assertions
              == if AllRead(c, file, now) then R.Rebuilt(c.h, base, order) else base
  {
    base := map[];
    if file.Some? {
      var lines := S.LinesOf(c.codec, file.value);
      CompletesIff(c, blobs, lines, now);
      ReplayIsFactFree(c, blobs, lines, now);
      base := Replayed(c, blobs, lines, now).0.assertions;
    }
  }

  /** Exactly when every rebuild restores the statuses of a ledger that holds facts: the log file exists, every line of
      it is readable, and each active fact is strictly behind, by confidence and creation time, every other fact that
      lists it. */
  lemma FactsRestoredIff(c: Setup, keys: set<K.Key>, facts: F.Ledger, blobs: S.Blobs, file: Option<string>, now: real)
    requires M.CollisionFree(c.h, keys) && M.RowsIdentified(c.h, keys, facts) && facts != map[]
    ensures FactsRestored(c, facts, blobs, file, now) <==> AllRead(c, file, now) && R.ActiveAfterListers(facts)
  {
    var base := FactsOnLog(c, blobs, file, now);
    if AllRead(c, file, now) {
      R.ListingRestoresIff(c.h, keys, facts, base);
    } else {
      var order := R.ListingWithFirst(facts, "");
      FactFreeRestoresNone(c.h, facts, base);
      assert !R.StatusesRestored(c.h, facts, Rebuilt(c, blobs, file, order, now).0.assertions);
    }
  }

  /** Exactly when every rebuild restores the whole mirror of a ledger that holds facts: the log is read to the end and
      every link is stable. */
  lemma MirrorRestoredIff(c: Setup, keys: set<K.Key>, facts: F.Ledger, blobs: S.Blobs, file: Option<string>, now: real)
    requires M.CollisionFree(c.h, keys) && M.RowsIdentified(c.h, keys, facts) && F.LinksOk(facts) && facts != map[]
    ensures MirrorRestored(c, facts, blobs, file, now)
            <==> AllRead(c, file, now) && forall x :: x in facts ==> R.LinkStable(facts, x)
  {
    var base := FactsOnLog(c, blobs, file, now);
    if AllRead(c, file, now) {
      R.MirrorListingIff(c.h, keys, facts, base);
    } else {
      var order := R.ListingWithFirst(facts, "");
      var x :| x in facts;
      assert !M.MirrorsFact(c.h, facts, base, x);
      assert !M.Mirrors(c.h, facts, Rebuilt(c, blobs, file, order, now).0.assertions);
    }
  }

  // ---- runs of remember, and the rebuild of what they left ----

  /** State and logged envelopes after a run of remember on an empty vault, refused memories included. */
  function Run(c: Setup, qs: seq<S.Request>): (r: (State, seq<Envelope>))
    ensures |r.1| == |qs|
  {
    if qs == [] then (State(S.Indexes(map[], map[], map[]), [], map[]), [])
    else
      var (s, logged) := Run(c, qs[..|qs| - 1]);
      var q := qs[|qs| - 1];
      (Remembered(c, s, q.envelope, q.now), logged + [S.StoredForm(c.codec, c.threshold, q.envelope, q.now)])
  }

  lemma {:induction false} RunOfStore(c: Setup, qs: seq<S.Request>)
    ensures (Run(c, qs).0.x, Run(c, qs).1) == S.Run(c.codec, c.threshold, qs)
  {
    if qs != [] {
      RunOfStore(c, qs[..|qs| - 1]);
    }
  }

  /** Constructing an envelope never leaves its id empty. */
  predicate Constructed(m: Envelope) { m.id != "" }

  /** The stored form carries the relations of the original, with the same id and, unless it was zero, the same
      creation time. */
  lemma StoredIndexesAlike(c: Setup, m: Envelope, now: real, later: real)
    requires c.codec.Valid() && now != 0.0 && Constructed(m)
    ensures var e := S.StoredForm(c.codec, c.threshold, m, now);
            && c.codec.Reread(e, later) == e && S.Settled(c.codec, e)
            && S.NothingLarge(c.codec, c.threshold, e.modalities)
            && e.id == m.id && e.attributes == m.attributes && (m.createdAt != 0.0 ==> e.createdAt == m.createdAt)
            && e.id == c.codec.Reread(m, now).id
            && c.codec.AddressFor(e) == c.codec.AddressFor(c.codec.Reread(m, now))
  {
    S.StoredIsPlain(c.codec, c.threshold, m, now);
    S.RereadSettled(c.codec, S.StoredForm(c.codec, c.threshold, m, now), later);
  }

  lemma {:induction false} SameItems(c: Setup, m: Envelope, e: Envelope, i: nat)
    requires e.id == m.id && e.attributes == m.attributes
    requires i <= |m.attributes.relations|
    ensures G.FirstRefused(c.norm, e, i) == G.FirstRefused(c.norm, m, i)
    ensures K.FirstIncomplete(e, i) == K.FirstIncomplete(m, i)
    decreases |m.attributes.relations| - i
  {
    if i < |m.attributes.relations| {
      SameItems(c, m, e, i + 1);
    }
  }

  lemma SameRow(c: Setup, m: Envelope, e: Envelope, item: RelationItem)
    requires e.id == m.id && e.createdAt == m.createdAt && e.attributes == m.attributes
    ensures G.ItemRow(c.norm, e, item) == G.ItemRow(c.norm, m, item)
    ensures K.ItemRow(c.h, e, item) == K.ItemRow(c.h, m, item)
  {
  }

  lemma {:induction false} SameStored(c: Setup, m: Envelope, e: Envelope, rows: G.Rows, n: nat)
    requires e.id == m.id && e.createdAt == m.createdAt && e.attributes == m.attributes
    requires n <= |m.attributes.relations|
    ensures G.ItemsStored(c.norm, rows, e, n) == G.ItemsStored(c.norm, rows, m, n)
  {
    if n > 0 {
      SameStored(c, m, e, rows, n - 1);
      SameRow(c, m, e, m.attributes.relations[n - 1]);
    }
  }

  lemma SameInserted(a: K.Assertions, b: K.Assertions, x: K.Assertion, y: K.Assertion)
    requires a == b && x == y
    ensures K.Inserted(a, x) == K.Inserted(b, y)
  {
  }

  lemma {:induction false} SameIndexed(c: Setup, m: Envelope, e: Envelope, assertions: K.Assertions, n: nat)
    requires e.id == m.id && e.createdAt == m.createdAt && e.attributes == m.attributes
    requires n <= |m.attributes.relations|
    ensures K.ItemsIndexed(c.h, assertions, e, n) == K.ItemsIndexed(c.h, assertions, m, n)
  {
    if n > 0 {
      SameIndexed(c, m, e, assertions, n - 1);
      var item := m.attributes.relations[n - 1];
      SameRow(c, m, e, item);
      SameInserted(K.ItemsIndexed(c.h, assertions, e, n - 1), K.ItemsIndexed(c.h, assertions, m, n - 1),
                   K.ItemRow(c.h, e, item), K.ItemRow(c.h, m, item));
    }
  }

  /** The state of a run, with other blobs. */
  function WithBlobs(s: State, blobs: S.Blobs): State { s.(x := S.Indexes(s.x.memories, s.x.mobius, blobs)) }

  /** The tables of `t` are those of `s`, the rows of the relations too if every memory has a creation time. */
  ghost predicate Alike(s: State, t: State, blobs: S.Blobs, timed: bool) {
    t.x == WithBlobs(s, blobs).x && (timed ==> t == WithBlobs(s, blobs))
  }

  /** Remembering the logged form again does what the original did. */
  lemma RememberedAlike(c: Setup, s: State, t: State, blobs: S.Blobs, timed: bool, q: S.Request, later: real)
    requires c.codec.Valid() && q.now != 0.0 && Constructed(q.envelope) && (timed ==> q.envelope.createdAt != 0.0)
    requires Alike(s, t, blobs, timed)
    ensures var e := c.codec.Reread(S.StoredForm(c.codec, c.threshold, q.envelope, q.now), later);
            && Alike(Remembered(c, s, q.envelope, q.now), Remembered(c, t, e, later), blobs, timed)
            && (Indexes(c, e) <==> Indexes(c, q.envelope))
  {
    var m := q.envelope;
    var e := S.StoredForm(c.codec, c.threshold, m, q.now);
    StoredIndexesAlike(c, m, q.now, later);
    SameItems(c, m, e, 0);
    S.IndexedAgain(c.codec, c.threshold, t.x, e, later);
    if timed {
      SameStored(c, m, e, s.rows, G.FirstRefused(c.norm, m, 0));
      SameIndexed(c, m, e, s.assertions, K.FirstIncomplete(m, 0));
    }
  }

  ghost predicate AllAllowed(c: Setup, qs: seq<S.Request>) {
    forall i :: 0 <= i < |qs| ==> Allowed(c, qs[i].envelope)
  }

  ghost predicate AllConstructed(qs: seq<S.Request>) {
    forall i :: 0 <= i < |qs| ==> Constructed(qs[i].envelope) && qs[i].now != 0.0
  }

  ghost predicate AllTimed(qs: seq<S.Request>) { forall i :: 0 <= i < |qs| ==> qs[i].envelope.createdAt != 0.0 }

  lemma EntryRestores(c: Setup, s: State, t: State, blobs: S.Blobs, timed: bool, q: S.Request, later: real)
    requires c.codec.Valid() && q.now != 0.0 && Constructed(q.envelope) && (timed ==> q.envelope.createdAt != 0.0)
    requires Alike(s, t, blobs, timed)
    ensures var e := S.StoredForm(c.codec, c.threshold, q.envelope, q.now);
            var (t', outcome) := ReplayedLine(c, t, S.Entry(e), later);
            && Alike(Remembered(c, s, q.envelope, q.now), t', blobs, timed)
            && outcome == if Allowed(c, q.envelope) then Completed else RefusedRelation
  {
    RememberedAlike(c, s, t, blobs, timed, q, later);
    IndexesIff(c, q.envelope);
  }

  lemma AllAllowedMore(c: Setup, qs: seq<S.Request>)
    requires qs != []
    ensures AllAllowed(c, qs) <==> AllAllowed(c, qs[..|qs| - 1]) && Allowed(c, qs[|qs| - 1].envelope)
  {
    assert forall i :: 0 <= i < |qs| - 1 ==> qs[..|qs| - 1][i] == qs[i];
  }

  /** Replaying the envelopes of a run: with every memory allowed, the state of the run comes back whole; otherwise the
      replay stops at a refused relation. */
  lemma {:induction false} EntriesRestore(c: Setup, qs: seq<S.Request>, blobs: S.Blobs, timed: bool, later: real)
    requires c.codec.Valid() && AllConstructed(qs) && (timed ==> AllTimed(qs))
    ensures var (s, logged) := Run(c, qs); var (t, outcome) := Replayed(c, blobs, S.Entries(logged), later);
            && (AllAllowed(c, qs) ==> outcome == Completed && Alike(s, t, blobs, timed))
            && (!AllAllowed(c, qs) ==> outcome == RefusedRelation)
  {
    if qs != [] {
      var before, q := qs[..|qs| - 1], qs[|qs| - 1];
      EntriesRestore(c, before, blobs, timed, later);
      var (s, logged) := Run(c, before);
      EntriesMore(c, blobs, logged, S.StoredForm(c.codec, c.threshold, q.envelope, q.now), later);
      AllAllowedMore(c, qs);
      if AllAllowed(c, before) {
        EntryRestores(c, s, Replayed(c, blobs, S.Entries(logged), later).0, blobs, timed, q, later);
      }
    }
  }

  lemma EntriesMore(c: Setup, blobs: S.Blobs, logged: seq<Envelope>, e: Envelope, now: real)
    ensures var (s, outcome) := Replayed(c, blobs, S.Entries(logged), now);
            Replayed(c, blobs, S.Entries(logged + [e]), now)
            == if outcome != Completed then (s, outcome) else ReplayedLine(c, s, S.Entry(e), now)
  {
    assert S.Entries(logged + [e])[..|logged|] == S.Entries(logged);
  }

  /** What a rebuild makes of the log file of a run. */
  function RebuiltRun(c: Setup, qs: seq<S.Request>, blobs: S.Blobs, later: real): (State, Outcome) {
    Replayed(c, blobs, S.LinesOf(c.codec, S.LogText(c.codec, Run(c, qs).1)), later)
  }

  /** A run of remember is rebuilt exactly when no logged text holds a raw line end and every memory of the run was
      indexed without an exception. Then both store tables come back, and the relation tables too if no memory had a
      zero creation time; otherwise the rebuild breaks off. */
  lemma RunIsRebuiltIff(c: Setup, qs: seq<S.Request>, blobs: S.Blobs, later: real)
    requires c.codec.Valid() && AllConstructed(qs) && S.AllPrinted(c.codec, Run(c, qs).1)
    ensures var (s, logged) := Run(c, qs);
            var (t, outcome) := RebuiltRun(c, qs, blobs, later);
            && (outcome == Completed <==> S.Unbroken(c.codec, logged) && AllAllowed(c, qs))
            && (outcome == Completed ==> Alike(s, t, blobs, AllTimed(qs)))
            && (!S.Unbroken(c.codec, logged) ==> S.Invalid in S.LinesOf(c.codec, S.LogText(c.codec, logged)))
  {
    var (_, logged) := Run(c, qs);
    S.LogReadsBackIff(c.codec, logged);
    if S.Unbroken(c.codec, logged) {
      EntriesRestore(c, qs, blobs, AllTimed(qs), later);
    } else {
      InvalidStops(c, blobs, S.LinesOf(c.codec, S.LogText(c.codec, logged)), later);
    }
  }

  lemma InvalidStops(c: Setup, blobs: S.Blobs, lines: seq<S.Line>, now: real)
    requires S.Invalid in lines
    ensures Replayed(c, blobs, lines, now).1 != Completed
  {
    CompletesIff(c, blobs, lines, now);
    var i :| 0 <= i < |lines| && lines[i] == S.Invalid;
    assert !Readable(c, lines[i], now);
  }

  // ---- where a rebuild of a run stops ----

  /** The text logged for the memory holds a raw line end. */
  ghost predicate Broken(c: Setup, q: S.Request) {
    S.HasRawBreak(c.codec.toJson(S.StoredForm(c.codec, c.threshold, q.envelope, q.now)))
  }

  /** The replay passes every memory of the run: none was logged with a raw line end and none was refused. */
  ghost predicate AllPass(c: Setup, qs: seq<S.Request>) {
    forall i :: 0 <= i < |qs| ==> !Broken(c, qs[i]) && Allowed(c, qs[i].envelope)
  }

  lemma LoggedAt(c: Setup, qs: seq<S.Request>, i: nat)
    requires i < |qs|
    ensures Run(c, qs).1[i] == S.StoredForm(c.codec, c.threshold, qs[i].envelope, qs[i].now)
  {
    RunOfStore(c, qs);
    S.LoggedAt(c.codec, c.threshold, qs, i);
  }

  lemma LoggedPrefix(c: Setup, qs: seq<S.Request>, n: nat)
    requires n <= |qs|
    ensures Run(c, qs).1[..n] == Run(c, qs[..n]).1
  {
    forall i | 0 <= i < n ensures Run(c, qs).1[i] == Run(c, qs[..n]).1[i] {
      LoggedAt(c, qs, i);
      LoggedAt(c, qs[..n], i);
    }
  }

  /** Memory `n` of a run and all before it, read as lines: the earlier ones as they were logged, and this one in full
      or as a line that is no envelope. */
  ghost predicate LinesUpTo(c: Setup, qs: seq<S.Request>, n: nat, lines: seq<S.Line>)
    requires n < |qs|
  {
    && n < |lines| && lines[..n] == S.Entries(Run(c, qs[..n]).1)
    && lines[n] == if Broken(c, qs[n]) then S.Invalid
                   else S.Entry(S.StoredForm(c.codec, c.threshold, qs[n].envelope, qs[n].now))
  }

  lemma LogOfRun(c: Setup, qs: seq<S.Request>, n: nat)
    requires n < |qs| && AllPass(c, qs[..n]) && S.AllPrinted(c.codec, Run(c, qs).1)
    ensures LinesUpTo(c, qs, n, S.LinesOf(c.codec, S.LogText(c.codec, Run(c, qs).1)))
  {
    var logged := Run(c, qs).1;
    LoggedPrefix(c, qs, n);
    LoggedAt(c, qs, n);
    forall i | 0 <= i < n ensures !S.HasRawBreak(c.codec.toJson(logged[..n][i])) {
      LoggedAt(c, qs[..n], i);
      assert !Broken(c, qs[..n][i]);
    }
    S.LogReadsUpTo(c.codec, logged, n);
  }

  /** The rebuild of a run breaks off at the first memory whose logged text holds a raw line end. What is left is the
      state of the run before it: it and all that was remembered later is gone. */
  lemma RawLineEndStopsTheRebuild(c: Setup, qs: seq<S.Request>, i: nat, blobs: S.Blobs, later: real)
    requires c.codec.Valid() && AllConstructed(qs) && S.AllPrinted(c.codec, Run(c, qs).1)
    requires i < |qs| && AllPass(c, qs[..i]) && Broken(c, qs[i])
    ensures var (t, outcome) := RebuiltRun(c, qs, blobs, later);
            outcome == BadLine && Alike(Run(c, qs[..i]).0, t, blobs, AllTimed(qs[..i]))
  {
    LogOfRun(c, qs, i);
    StopsAtInvalid(c, qs, i, S.LinesOf(c.codec, S.LogText(c.codec, Run(c, qs).1)), blobs, later);
  }

  /** It also breaks off at the first refused memory: remembering it raised an exception, but only after it was stored
      and logged. What is left is the state of the run up to there, with what the memory did before it was refused; all
      that was remembered later is gone. */
  lemma RefusalStopsTheRebuild(c: Setup, qs: seq<S.Request>, i: nat, blobs: S.Blobs, later: real)
    requires c.codec.Valid() && AllConstructed(qs) && S.AllPrinted(c.codec, Run(c, qs).1)
    requires i < |qs| && AllPass(c, qs[..i]) && !Broken(c, qs[i]) && !Allowed(c, qs[i].envelope)
    ensures var (t, outcome) := RebuiltRun(c, qs, blobs, later);
            outcome == RefusedRelation && Alike(Run(c, qs[..i + 1]).0, t, blobs, AllTimed(qs[..i + 1]))
  {
    LogOfRun(c, qs, i);
    StopsAtRefused(c, qs, i, S.LinesOf(c.codec, S.LogText(c.codec, Run(c, qs).1)), blobs, later);
  }

  lemma StopsAtInvalid(c: Setup, qs: seq<S.Request>, n: nat, lines: seq<S.Line>, blobs: S.Blobs, later: real)
    requires c.codec.Valid() && AllConstructed(qs) && n < |qs| && AllPass(c, qs[..n]) && Broken(c, qs[n])
    requires LinesUpTo(c, qs, n, lines)
    ensures var (t, outcome) := Replayed(c, blobs, lines, later);
            outcome == BadLine && Alike(Run(c, qs[..n]).0, t, blobs, AllTimed(qs[..n]))
  {
    PassedRestore(c, qs[..n], AllTimed(qs[..n]), blobs, later);
    ReplayStops(c, blobs, lines, n, later);
  }

  lemma StopsAtRefused(c: Setup, qs: seq<S.Request>, n: nat, lines: seq<S.Line>, blobs: S.Blobs, later: real)
    requires c.codec.Valid() && AllConstructed(qs) && n < |qs| && AllPass(c, qs[..n])
    requires !Broken(c, qs[n]) && !Allowed(c, qs[n].envelope) && LinesUpTo(c, qs, n, lines)
    ensures var (t, outcome) := Replayed(c, blobs, lines, later);
            outcome == RefusedRelation && Alike(Run(c, qs[..n + 1]).0, t, blobs, AllTimed(qs[..n + 1]))
  {
    var timed := AllTimed(qs[..n + 1]);
    TimedBefore(qs, n);
    PassedRestore(c, qs[..n], timed, blobs, later);
    NextRestores(c, qs, n, Replayed(c, blobs, lines[..n], later).0, timed, blobs, later);
    ReplayStops(c, blobs, lines, n, later);
  }

  lemma TimedBefore(qs: seq<S.Request>, n: nat)
    requires n < |qs|
    ensures AllTimed(qs[..n + 1]) ==> AllTimed(qs[..n])
    ensures AllConstructed(qs) ==> AllConstructed(qs[..n])
  {
    forall i | 0 <= i < n && AllTimed(qs[..n + 1]) ensures qs[..n][i].envelope.createdAt != 0.0 {
      assert qs[..n][i] == qs[..n + 1][i];
    }
  }

  lemma PassedRestore(c: Setup, qs: seq<S.Request>, timed: bool, blobs: S.Blobs, later: real)
    requires c.codec.Valid() && AllConstructed(qs) && AllPass(c, qs) && (timed ==> AllTimed(qs))
    ensures var (t, outcome) := Replayed(c, blobs, S.Entries(Run(c, qs).1), later);
            outcome == Completed && Alike(Run(c, qs).0, t, blobs, timed)
  {
    EntriesRestore(c, qs, blobs, timed, later);
    assert AllAllowed(c, qs);
  }

  lemma NextRestores(c: Setup, qs: seq<S.Request>, n: nat, t: State, timed: bool, blobs: S.Blobs, later: real)
    requires c.codec.Valid() && AllConstructed(qs) && n < |qs| && (timed ==> AllTimed(qs[..n + 1]))
    requires Alike(Run(c, qs[..n]).0, t, blobs, timed)
    ensures var e := S.StoredForm(c.codec, c.threshold, qs[n].envelope, qs[n].now);
            var (t', outcome) := ReplayedLine(c, t, S.Entry(e), later);
            && Alike(Run(c, qs[..n + 1]).0, t', blobs, timed)
            && outcome == if Allowed(c, qs[n].envelope) then Completed else RefusedRelation
  {
    assert timed ==> qs[..n + 1][n].envelope.createdAt != 0.0;
    EntryRestores(c, Run(c, qs[..n]).0, t, blobs, timed, qs[n], later);
    RunNext(c, qs, n);
  }

  lemma RunNext(c: Setup, qs: seq<S.Request>, n: nat)
    requires n < |qs|
    ensures Run(c, qs[..n + 1]).0 == Remembered(c, Run(c, qs[..n]).0, qs[n].envelope, qs[n].now)
  {
    assert qs[..n + 1][..n] == qs[..n];
  }

  lemma ReplayStops(c: Setup, blobs: S.Blobs, lines: seq<S.Line>, n: nat, now: real)
    requires n < |lines| && Replayed(c, blobs, lines[..n], now).1 == Completed
    requires ReplayedLine(c, Replayed(c, blobs, lines[..n], now).0, lines[n], now).1 != Completed
    ensures Replayed(c, blobs, lines, now)
         == ReplayedLine(c, Replayed(c, blobs, lines[..n], now).0, lines[n], now)
  {
    ReplayedNext(c, blobs, lines, n, now);
    ReplayedMore(c, blobs, lines, n + 1, now);
  }

  // ---- inputs on which a rebuild loses what was there ----

  /** Facts were added and nothing was ever remembered: the knowledge graph is emptied and not filled again. */
  lemma NoLogLosesFacts(c: Setup, facts: F.Ledger, blobs: S.Blobs, order: seq<K.Fact>, now: real)
    requires facts != map[]
    ensures Rebuilt(c, blobs, None, order, now) == (State(S.Indexes(map[], map[], blobs), [], map[]), NoLog)
    ensures !R.StatusesRestored(c.h, facts, Rebuilt(c, blobs, None, order, now).0.assertions)
  {
    FactFreeRestoresNone(c.h, facts, map[]);
  }

  /** A memory whose only relation has a blank subject. */
  function WithBlankSubject(base: Envelope): Envelope {
    base.(attributes := base.attributes.(relations := [RelationItem(" ", "is", "b", None, None, None, None)]))
  }

  /** One remembered text with a line separator in it: nothing is rebuilt, whatever was remembered after it. */
  lemma LineSeparatorStopsTheRebuild(c: Setup, base: Envelope, now: real, after: seq<S.Request>, blobs: S.Blobs,
                                     later: real)
    requires c.codec.Valid() && now != 0.0 && |c.codec.encode("a\U{2028}b")| <= c.threshold
    requires S.AllPrinted(c.codec, Run(c, [S.Request(S.WithText(base, "a\U{2028}b"), now)] + after).1)
    ensures RebuiltRun(c, [S.Request(S.WithText(base, "a\U{2028}b"), now)] + after, blobs, later)
            == (State(S.Indexes(map[], map[], blobs), [], map[]), BadLine)
  {
    var q := S.Request(S.WithText(base, "a\U{2028}b"), now);
    var qs := [q] + after;
    LoggedAt(c, qs, 0);
    S.SeparatorIsRaw(c.codec, c.threshold, base, now);
    FirstIsBroken(c, qs, blobs, later);
  }

  lemma FirstIsBroken(c: Setup, qs: seq<S.Request>, blobs: S.Blobs, later: real)
    requires qs != [] && Broken(c, qs[0]) && S.AllPrinted(c.codec, Run(c, qs).1)
    ensures RebuiltRun(c, qs, blobs, later) == (State(S.Indexes(map[], map[], blobs), [], map[]), BadLine)
  {
    var lines := S.LinesOf(c.codec, S.LogText(c.codec, Run(c, qs).1));
    LogOfRun(c, qs, 0);
    ReplayedNext(c, blobs, lines, 0, later);
    ReplayedMore(c, blobs, lines, 1, later);
  }

  /** If the first memory of a run is refused, every other memory is gone after the rebuild. */
  lemma FirstRefusalLosesTheRest(c: Setup, qs: seq<S.Request>, blobs: S.Blobs, later: real)
    requires c.codec.Valid() && AllConstructed(qs) && S.AllPrinted(c.codec, Run(c, qs).1)
    requires qs != [] && !Allowed(c, qs[0].envelope)
    ensures var (t, outcome) := RebuiltRun(c, qs, blobs, later);
            && outcome != Completed
            && forall j :: 0 <= j < |qs| && qs[j].envelope.id != qs[0].envelope.id ==>
                 qs[j].envelope.id in Run(c, qs).0.x.memories && qs[j].envelope.id !in t.x.memories
  {
    OnlyFirstIsLeft(c, qs, blobs, later);
    StoredKeepsId(c, qs[0]);
    forall j | 0 <= j < |qs| ensures qs[j].envelope.id in Run(c, qs).0.x.memories {
      StoredKeepsId(c, qs[j]);
      AllAreStored(c, qs, j);
    }
  }

  /** A relation with a blank subject does it. */
  lemma BlankSubjectLosesMemories(c: Setup, base: Envelope, qs: seq<S.Request>, blobs: S.Blobs, later: real)
    requires c.codec.Valid() && AllConstructed(qs) && S.AllPrinted(c.codec, Run(c, qs).1)
    requires qs != [] && qs[0].envelope == WithBlankSubject(base)
    ensures var (t, outcome) := RebuiltRun(c, qs, blobs, later);
            && outcome != Completed
            && forall j :: 0 <= j < |qs| && qs[j].envelope.id != base.id ==>
                 qs[j].envelope.id in Run(c, qs).0.x.memories && qs[j].envelope.id !in t.x.memories
  {
    BlankSubjectIsRefused(c, base);
    FirstRefusalLosesTheRest(c, qs, blobs, later);
  }

  lemma {:induction false} AllAreStored(c: Setup, qs: seq<S.Request>, i: nat)
    requires i < |qs|
    ensures S.StoredForm(c.codec, c.threshold, qs[i].envelope, qs[i].now).id in Run(c, qs).0.x.memories
  {
    if i < |qs| - 1 {
      AllAreStored(c, qs[..|qs| - 1], i);
    }
  }

  lemma StoredKeepsId(c: Setup, q: S.Request)
    requires c.codec.Valid() && q.now != 0.0 && Constructed(q.envelope)
    ensures S.StoredForm(c.codec, c.threshold, q.envelope, q.now).id == q.envelope.id
  {
    StoredIndexesAlike(c, q.envelope, q.now, q.now);
  }

  lemma OnlyFirstIsLeft(c: Setup, qs: seq<S.Request>, blobs: S.Blobs, later: real)
    requires c.codec.Valid() && AllConstructed(qs) && S.AllPrinted(c.codec, Run(c, qs).1)
    requires qs != [] && !Allowed(c, qs[0].envelope)
    ensures var (t, outcome) := RebuiltRun(c, qs, blobs, later); var q := qs[0];
            && outcome != Completed
            && t.x.memories.Keys <= {S.StoredForm(c.codec, c.threshold, q.envelope, q.now).id}
  {
    assert qs[..0] == [] && qs[..1] == [qs[0]];
    if Broken(c, qs[0]) {
      RawLineEndStopsTheRebuild(c, qs, 0, blobs, later);
    } else {
      RefusalStopsTheRebuild(c, qs, 0, blobs, later);
      OneMemory(c, qs[0]);
    }
  }

  lemma OneMemory(c: Setup, q: S.Request)
    ensures Run(c, [q]).0.x.memories.Keys == {S.StoredForm(c.codec, c.threshold, q.envelope, q.now).id}
  {
    assert [q][..0] == [];
  }

  lemma BlankSubjectIsRefused(c: Setup, base: Envelope)
    ensures !Allowed(c, WithBlankSubject(base)) && WithBlankSubject(base).id == base.id
  {
    Text.SolidBlank(" ");
    var _ := Text.StripCuts(" ");
    assert Text.Strip(" ") == "";
    assert !G.ItemAllowed(c.norm, WithBlankSubject(base).attributes.relations[0]);
  }
}
