/** Runs of the whole vault, in which memories are remembered and facts are added in any order, and what a rebuild makes
    of them. */
module VaultRuns {
  import opened Wrappers
  import opened Schema
  import S = Store
  import K = Knowledge
  import F = Facts
  import M = Mirror
  import R = Rebuild
  import V = Vault

  datatype Operation = Remember(request: S.Request) | AddFact(fact: F.Request)

  /** The vault's tables, its fact ledger, and the envelopes in its log. */
  datatype Whole = Whole(state: V.State, facts: F.Ledger, logged: seq<Envelope>)

  /** One operation, refused ones included. */
  function Step(c: V.Setup, w: Whole, op: Operation): Whole {
    match op
    case Remember(q) =>
      Whole(V.Remembered(c, w.state, q.envelope, q.now), w.facts,
            w.logged + [S.StoredForm(c.codec, c.threshold, q.envelope, q.now)])
    case AddFact(q) =>
      var (facts, assertions) := M.Step(c.h, w.facts, w.state.assertions, M.AddFact(q));
      Whole(w.state.(assertions := assertions), facts, w.logged)
  }

  function Run(c: V.Setup, ops: seq<Operation>): Whole {
    if ops == [] then Whole(V.State(S.Indexes(map[], map[], map[]), [], map[]), map[], [])
    else Step(c, Run(c, ops[..|ops| - 1]), ops[|ops| - 1])
  }

  /** The memories of a run, in order. */
  function Memories(ops: seq<Operation>): seq<S.Request> {
    if ops == [] then []
    else
      var last := ops[|ops| - 1];
      Memories(ops[..|ops| - 1]) + if last.Remember? then [last.request] else []
  }

  /** The log file, which the first memory creates. */
  function LogFile(c: V.Setup, logged: seq<Envelope>): Option<string> {
    if logged == [] then None else Some(S.LogText(c.codec, logged))
  }

  /** The keys that the operation hashes. */
  ghost predicate KeysIn(c: V.Setup, op: Operation, keys: set<K.Key>) {
    match op
    case Remember(q) => M.ItemKeysIn(c.h, q.envelope, keys)
    case AddFact(q) => c.h.KeyOf(q.content.Trimmed()) in keys
  }

  ghost predicate AllKeysIn(c: V.Setup, ops: seq<Operation>, keys: set<K.Key>) {
    forall i :: 0 <= i < |ops| ==> KeysIn(c, ops[i], keys)
  }

  // ---- the assertions of memories and those of facts ----

  /** The assertions that belong to no fact. */
  function Plain(rows: K.Assertions): K.Assertions { map a | a in rows && rows[a].factId.None? :: rows[a] }

  /** The id of an assertion without a fact is the digest of one of the keys. */
  ghost predicate PlainId(h: K.Hashing, keys: set<K.Key>, a: K.Id) {
    exists content: K.Content :: h.KeyOf(content) in keys && a == h.AssertionId(content, None)
  }

  ghost predicate PlainIdentified(h: K.Hashing, keys: set<K.Key>, rows: K.Assertions) {
    forall a :: a in rows && rows[a].factId.None? ==> PlainId(h, keys, a)
  }

  /** Indexing a fact touches no assertion of a memory. */
  lemma FactLeavesPlain(h: K.Hashing, keys: set<K.Key>, rows: K.Assertions, f: K.Fact)
    requires M.CollisionFree(h, keys) && M.Identified(h, keys, f) && PlainIdentified(h, keys, rows)
    ensures Plain(K.FactIndexed(h, rows, f)) == Plain(rows) && PlainIdentified(h, keys, K.FactIndexed(h, rows, f))
  {
    var own := M.AssertionIdOf(h, f);
    if own in rows && rows[own].factId.None? {
      var content: K.Content :| h.KeyOf(content) in keys && own == h.AssertionId(content, None);
      M.RelationElsewhere(h, keys, f, content);
    }
    FactIndexedAside(h, rows, f);
  }

  lemma FactIndexedAside(h: K.Hashing, rows: K.Assertions, f: K.Fact)
    requires M.AssertionIdOf(h, f) in rows ==> rows[M.AssertionIdOf(h, f)].factId.Some?
    ensures Plain(K.FactIndexed(h, rows, f)) == Plain(rows)
    ensures forall a :: a in K.FactIndexed(h, rows, f) && K.FactIndexed(h, rows, f)[a].factId.None? ==>
                          a in rows && rows[a].factId.None?
  {
    var after := K.FactIndexed(h, rows, f);
    forall a ensures a in Plain(after) <==> a in Plain(rows)
             ensures a in Plain(rows) ==> after[a] == rows[a]
    {
      M.IndexedRow(h, rows, f, a);
    }
  }

  lemma ItemLeavesFacts(rows: K.Assertions, row: K.Assertion)
    requires row.factId.None? && row.supersedes == {}
    ensures Plain(K.Inserted(rows, row)) == K.Inserted(Plain(rows), row)
  {
    var after := K.Inserted(rows, row);
    forall a ensures a in Plain(after) <==> a in K.Inserted(Plain(rows), row)
             ensures a in Plain(after) ==> Plain(after)[a] == K.Inserted(Plain(rows), row)[a]
    {
      M.PlainRow(rows, row, a);
      M.PlainRow(Plain(rows), row, a);
    }
  }

  /** Indexing a memory does to the assertions of memories what it does without any facts. */
  lemma {:induction false} ItemsOnPlain(h: K.Hashing, keys: set<K.Key>, rows: K.Assertions, m: Envelope, n: nat)
    requires n <= |m.attributes.relations| && M.ItemKeysIn(h, m, keys) && PlainIdentified(h, keys, rows)
    ensures Plain(K.ItemsIndexed(h, rows, m, n)) == K.ItemsIndexed(h, Plain(rows), m, n)
    ensures PlainIdentified(h, keys, K.ItemsIndexed(h, rows, m, n))
  {
    if n > 0 {
      ItemsOnPlain(h, keys, rows, m, n - 1);
      var item, before := m.attributes.relations[n - 1], K.ItemsIndexed(h, rows, m, n - 1);
      var content := K.ItemContent(m, item).Trimmed();
      assert h.KeyOf(content) in keys;
      ItemLeavesFacts(before, K.ItemRow(h, m, item));
      var after := K.Inserted(before, K.ItemRow(h, m, item));
      forall a | a in after && after[a].factId.None? ensures PlainId(h, keys, a) {
        M.PlainRow(before, K.ItemRow(h, m, item), a);
        assert a == h.AssertionId(content, None) || a in before;
      }
    }
  }

  // ---- what every run keeps ----

  ghost predicate WholeOk(c: V.Setup, keys: set<K.Key>, w: Whole) {
    && M.RowsIdentified(c.h, keys, w.facts) && F.LinksOk(w.facts) && R.LedgerComplete(w.facts)
    && PlainIdentified(c.h, keys, w.state.assertions)
  }

  function WithoutFacts(s: V.State): V.State { s.(assertions := Plain(s.assertions)) }

  lemma RememberStep(c: V.Setup, keys: set<K.Key>, w: Whole, q: S.Request)
    requires WholeOk(c, keys, w) && M.ItemKeysIn(c.h, q.envelope, keys)
    ensures WholeOk(c, keys, Step(c, w, Remember(q)))
    ensures WithoutFacts(Step(c, w, Remember(q)).state)
         == V.Remembered(c, WithoutFacts(w.state), q.envelope, q.now)
  {
    ItemsOnPlain(c.h, keys, w.state.assertions, q.envelope, K.FirstIncomplete(q.envelope, 0));
  }

  lemma AddFactStep(c: V.Setup, keys: set<K.Key>, w: Whole, q: F.Request)
    requires M.CollisionFree(c.h, keys) && WholeOk(c, keys, w) && c.h.KeyOf(q.content.Trimmed()) in keys
    ensures WholeOk(c, keys, Step(c, w, AddFact(q)))
    ensures WithoutFacts(Step(c, w, AddFact(q)).state) == WithoutFacts(w.state)
  {
    if q.content.Trimmed().Complete() && !F.ListsBlank(q.supersedes) {
      var f := F.Record(c.h, q);
      F.TrimTwice(q.content);
      F.AddKeepsLinks(w.facts, f);
      M.AddKeepsIdentities(c.h, keys, w.facts, f);
      R.AddKeepsComplete(c.h, w.facts, q);
      FactLeavesPlain(c.h, keys, w.state.assertions, F.Added(w.facts, f)[f.id]);
    }
  }

  /** The rest of the vault is what these memories alone make it. */
  ghost predicate MadeBy(c: V.Setup, w: Whole, qs: seq<S.Request>) {
    WithoutFacts(w.state) == V.Run(c, qs).0 && w.logged == V.Run(c, qs).1
  }

  /** In every run the ledger is one that a rebuild can index, with links in order, and the rest of the vault is what
      the memories alone would have made it. */
  lemma {:induction false} EveryRunIsSplit(c: V.Setup, keys: set<K.Key>, ops: seq<Operation>)
    requires M.CollisionFree(c.h, keys) && AllKeysIn(c, ops, keys)
    ensures WholeOk(c, keys, Run(c, ops)) && MadeBy(c, Run(c, ops), Memories(ops))
  {
    if ops != [] {
      EveryRunIsSplit(c, keys, ops[..|ops| - 1]);
      assert KeysIn(c, ops[|ops| - 1], keys);
      SplitStep(c, keys, Run(c, ops[..|ops| - 1]), Memories(ops[..|ops| - 1]), ops[|ops| - 1]);
    }
  }

  lemma SplitStep(c: V.Setup, keys: set<K.Key>, w: Whole, qs: seq<S.Request>, op: Operation)
    requires M.CollisionFree(c.h, keys) && KeysIn(c, op, keys) && WholeOk(c, keys, w) && MadeBy(c, w, qs)
    ensures WholeOk(c, keys, Step(c, w, op))
    ensures MadeBy(c, Step(c, w, op), qs + if op.Remember? then [op.request] else [])
  {
    match op {
      case Remember(q) =>
        RememberStep(c, keys, w, q);
        MemoriesMore(c, qs, q);
      case AddFact(q) =>
        AddFactStep(c, keys, w, q);
        assert qs + [] == qs;
    }
  }

  lemma MemoriesMore(c: V.Setup, qs: seq<S.Request>, q: S.Request)
    ensures V.Run(c, qs + [q]).0 == V.Remembered(c, V.Run(c, qs).0, q.envelope, q.now)
    ensures V.Run(c, qs + [q]).1 == V.Run(c, qs).1 + [S.StoredForm(c.codec, c.threshold, q.envelope, q.now)]
  {
    assert (qs + [q])[..|qs|] == qs;
  }

  // ---- the rebuild of a run ----

  /** Something was remembered, no logged text holds a raw line end, and no remember raised an exception. */
  ghost predicate Rebuildable(c: V.Setup, ops: seq<Operation>) {
    Memories(ops) != [] && S.Unbroken(c.codec, Run(c, ops).logged) && V.AllAllowed(c, Memories(ops))
  }

  ghost predicate GoodRun(c: V.Setup, keys: set<K.Key>, ops: seq<Operation>) {
    && c.codec.Valid() && V.AllConstructed(Memories(ops)) && S.AllPrinted(c.codec, Run(c, ops).logged)
    && M.CollisionFree(c.h, keys) && AllKeysIn(c, ops, keys)
  }

  lemma {:induction false} FactsLeavePlain(h: K.Hashing, keys: set<K.Key>, base: K.Assertions, order: seq<K.Fact>)
    requires M.CollisionFree(h, keys) && PlainIdentified(h, keys, base)
    requires forall i :: 0 <= i < |order| ==> M.Identified(h, keys, order[i])
    ensures Plain(R.Rebuilt(h, base, order)) == Plain(base) && PlainIdentified(h, keys, R.Rebuilt(h, base, order))
  {
    if order != [] {
      var n := |order| - 1;
      FactsLeavePlain(h, keys, base, order[..n]);
      FactLeavesPlain(h, keys, R.Rebuilt(h, base, order[..n]), order[n]);
    }
  }

  /** A run of memories and facts is rebuilt to the end exactly when something was remembered, no logged text holds a
      raw line end and no memory was refused. Then both store tables come back, and so do the relation rows and all
      assertions of memories if no memory had a zero creation time. */
  lemma EveryRunIsRebuiltIff(c: V.Setup, keys: set<K.Key>, ops: seq<Operation>, blobs: S.Blobs, order: seq<K.Fact>,
                             later: real)
    requires GoodRun(c, keys, ops)
    ensures var w := Run(c, ops); var (t, outcome) := V.Rebuilt(c, blobs, LogFile(c, w.logged), order, later);
            && (outcome == V.Completed <==> Rebuildable(c, ops))
            && (outcome == V.Completed ==> t.x == V.WithBlobs(w.state, blobs).x)
            && (outcome == V.Completed && V.AllTimed(Memories(ops)) && R.Listing(order, w.facts) ==>
                  t.rows == w.state.rows && Plain(t.assertions) == Plain(w.state.assertions))
  {
    var w, qs := Run(c, ops), Memories(ops);
    EveryRunIsSplit(c, keys, ops);
    V.RunIsRebuiltIff(c, qs, blobs, later);
    var (s, outcome) := V.RebuiltRun(c, qs, blobs, later);
    if outcome == V.Completed && V.AllTimed(qs) && R.Listing(order, w.facts) {
      assert s.assertions == Plain(w.state.assertions);
      ListingLeavesPlain(c, keys, w, s.assertions, order);
    }
  }

  lemma ListingLeavesPlain(c: V.Setup, keys: set<K.Key>, w: Whole, base: K.Assertions, order: seq<K.Fact>)
    requires M.CollisionFree(c.h, keys) && WholeOk(c, keys, w) && R.Listing(order, w.facts)
    requires base == Plain(w.state.assertions)
    ensures Plain(R.Rebuilt(c.h, base, order)) == base
  {
    ListedIdentified(c.h, keys, w.facts, order);
    PlainTwice(c.h, keys, w.state.assertions);
    FactsLeavePlain(c.h, keys, base, order);
  }

  lemma ListedIdentified(h: K.Hashing, keys: set<K.Key>, facts: F.Ledger, order: seq<K.Fact>)
    requires M.RowsIdentified(h, keys, facts) && R.Enumerates(order, facts)
    ensures forall i :: 0 <= i < |order| ==> M.Identified(h, keys, order[i])
  {
    forall i | 0 <= i < |order| ensures M.Identified(h, keys, order[i]) {
      assert facts[order[i].id] == order[i];
    }
  }

  lemma PlainTwice(h: K.Hashing, keys: set<K.Key>, rows: K.Assertions)
    requires PlainIdentified(h, keys, rows)
    ensures PlainIdentified(h, keys, Plain(rows)) && Plain(Plain(rows)) == Plain(rows)
  {
    assert forall a :: a in Plain(rows) ==> a in rows && rows[a].factId.None?;
  }

  /** The facts of a run: every rebuild restores their statuses exactly when the run can be rebuilt and each active fact
      is strictly behind its listers, and the whole mirror exactly when all links are stable too. */
  lemma EveryRunRestoresFactsIff(c: V.Setup, keys: set<K.Key>, ops: seq<Operation>, blobs: S.Blobs, later: real)
    requires GoodRun(c, keys, ops) && Run(c, ops).facts != map[]
    ensures var facts, file := Run(c, ops).facts, LogFile(c, Run(c, ops).logged);
            && (V.FactsRestored(c, facts, blobs, file, later)
                <==> Rebuildable(c, ops) && R.ActiveAfterListers(facts))
            && (V.MirrorRestored(c, facts, blobs, file, later)
                <==> Rebuildable(c, ops) && forall x :: x in facts ==> R.LinkStable(facts, x))
  {
    var facts, logged := Run(c, ops).facts, Run(c, ops).logged;
    EveryRunIsSplit(c, keys, ops);
    V.RunIsRebuiltIff(c, Memories(ops), blobs, later);
    V.CompletesIff(c, blobs, S.LinesOf(c.codec, S.LogText(c.codec, logged)), later);
    assert V.AllRead(c, LogFile(c, logged), later) <==> Rebuildable(c, ops);
    V.FactsRestoredIff(c, keys, facts, blobs, LogFile(c, logged), later);
    V.MirrorRestoredIff(c, keys, facts, blobs, LogFile(c, logged), later);
  }
}
