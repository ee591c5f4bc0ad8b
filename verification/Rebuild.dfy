/** Indexing the ledger into a knowledge graph again, by confidence and not in the order the facts were added. */
module Rebuild {
  import opened Wrappers
  import opened Ordering
  import opened Knowledge
  import opened Facts
  import opened Mirror

  /** `order` lists every stored fact once. */
  ghost predicate Enumerates(order: seq<Fact>, facts: Ledger) {
    && (forall i :: 0 <= i < |order| ==> order[i].id in facts && facts[order[i].id] == order[i])
    && (forall i, j :: 0 <= i < j < |order| ==> order[i].id != order[j].id)
    && (forall x :: x in facts ==> facts[x] in order)
  }

  function Rebuilt(h: Hashing, base: Assertions, order: seq<Fact>): Assertions {
    if order == [] then base
    else FactIndexed(h, Rebuilt(h, base, order[..|order| - 1]), order[|order| - 1])
  }

  /** list_facts order: confidence descending, then created_at descending. */
  predicate ListedBefore(f: Fact, g: Fact) {
    f.confidence > g.confidence || (f.confidence == g.confidence && f.createdAt >= g.createdAt)
  }

  /** Every listing has `f` before `g`. */
  predicate Ahead(f: Fact, g: Fact) { !ListedBefore(g, f) }

  /** What list_facts may return: the more confident facts first, and of these the later ones; facts of equal confidence
      and creation time come in any order. */
  ghost predicate Listing(order: seq<Fact>, facts: Ledger) {
    && Enumerates(order, facts)
    && forall i, j :: 0 <= i < j < |order| ==>
         || order[i].confidence > order[j].confidence
         || (order[i].confidence == order[j].confidence && order[i].createdAt >= order[j].createdAt)
  }

  method IndexFacts(graph: KnowledgeGraph, listed: seq<Fact>)
    requires forall f :: f in listed ==> f.content.Trimmed().Complete()
    modifies graph
    ensures graph.assertions == Rebuilt(graph.h, old(graph.assertions), listed)
  {
    ghost var base := graph.assertions;
    for i := 0 to |listed|
      invariant graph.assertions == Rebuilt(graph.h, base, listed[..i])
    {
      assert listed[..i + 1][..i] == listed[..i];
      var _ := graph.IndexFact(listed[i]);
    }
    assert listed[..|listed|] == listed;
  }

  /** list_facts without a limit. */
  method ListFacts(facts: Ledger) returns (listed: seq<Fact>)
    requires forall x :: x in facts ==> facts[x].id == x
    ensures Listing(listed, facts)
  {
    listed := SortSet(facts.Values, ListedBefore);
    forall i | 0 <= i < |listed| ensures listed[i].id in facts && facts[listed[i].id] == listed[i] {
      assert listed[i] in facts.Values;
    }
    assert forall x :: x in facts ==> facts[x] in facts.Values;
  }

  /** The indexing loop at the end of a rebuild. A stored fact is complete, so it cannot fail. */
  method IndexLedger(ledger: FactLedger) returns (ghost order: seq<Fact>)
    requires LedgerComplete(ledger.facts)
    modifies ledger.knowledge
    ensures Listing(order, ledger.facts)
    ensures ledger.knowledge.assertions == Rebuilt(ledger.knowledge.h, old(ledger.knowledge.assertions), order)
  {
    var listed := ListFacts(ledger.facts);
    order := listed;
    IndexFacts(ledger.knowledge, listed);
  }

  /** What add_fact lets into the ledger. */
  ghost predicate LedgerComplete(facts: Ledger) {
    forall x :: x in facts ==> facts[x].id == x && facts[x].content.Trimmed().Complete()
  }

  /** So every ledger of a run is one that can be indexed. */
  lemma AddKeepsComplete(h: Hashing, facts: Ledger, q: Request)
    requires LedgerComplete(facts) && q.content.Trimmed().Complete()
    ensures LedgerComplete(Added(facts, Record(h, q)))
  {
    TrimTwice(q.content);
  }

  // ---- what a rebuild computes ----

  /** The last fact among those visited after `i` and before `k` that lists fact `i`. */
  function LastLister(order: seq<Fact>, i: nat, k: nat): (r: Option<nat>)
    requires i < k <= |order|
    ensures r.Some? ==> i < r.value < k && order[i].id in order[r.value].supersedes
    ensures r.None? <==> forall j :: i < j < k ==> order[i].id !in order[j].supersedes
  {
    if k == i + 1 then None
    else if order[i].id in order[k - 1].supersedes then Some(k - 1)
    else LastLister(order, i, k - 1)
  }

  ghost predicate DistinctIds(h: Hashing, order: seq<Fact>) {
    && (forall i :: 0 <= i < |order| ==> order[i].id != "")
    && (forall i, j :: 0 <= i < j < |order| ==>
          order[i].id != order[j].id && AssertionIdOf(h, order[i]) != AssertionIdOf(h, order[j]))
  }

  /** The assertion of the fact visited at `i`, once the first `k` facts have been indexed. */
  ghost predicate RowAfter(h: Hashing, rows: Assertions, order: seq<Fact>, i: nat, k: nat)
    requires i < k <= |order|
  {
    var a := AssertionIdOf(h, order[i]);
    var lister := LastLister(order, i, k);
    && a in rows
    && rows[a].factId == Some(order[i].id)
    && rows[a].status == (if lister.Some? then Superseded else order[i].status)
    && rows[a].supersededBy == (if lister.Some? then Some(AssertionIdOf(h, order[lister.value])) else None)
  }

  lemma IndexNext(h: Hashing, rows: Assertions, order: seq<Fact>, i: nat, k: nat)
    requires i < k < |order| && DistinctIds(h, order) && RowAfter(h, rows, order, i, k)
    ensures RowAfter(h, FactIndexed(h, rows, order[k]), order, i, k + 1)
  {
    var a := AssertionIdOf(h, order[i]);
    IndexedRow(h, rows, order[k], a);
    assert a != "";
    assert a in FactRow(h, rows, order[k]).supersedes <==> order[i].id in order[k].supersedes;
  }

  /** Only facts visited before `k` have assertions, each under its own id. */
  ghost predicate OnlyVisited(h: Hashing, rows: Assertions, order: seq<Fact>, k: nat)
    requires k <= |order|
  {
    forall a :: a in rows && rows[a].factId.Some? ==>
      exists i :: 0 <= i < k && rows[a].factId.value == order[i].id && a == AssertionIdOf(h, order[i])
  }

  lemma IndexSelf(h: Hashing, rows: Assertions, order: seq<Fact>, k: nat)
    requires k < |order| && DistinctIds(h, order) && OnlyVisited(h, rows, order, k)
    ensures RowAfter(h, FactIndexed(h, rows, order[k]), order, k, k + 1)
  {
    var a := AssertionIdOf(h, order[k]);
    assert a !in FactRow(h, rows, order[k]).supersedes;
    IndexedRow(h, rows, order[k], a);
  }

  lemma IndexVisits(h: Hashing, rows: Assertions, order: seq<Fact>, k: nat)
    requires k < |order| && OnlyVisited(h, rows, order, k)
    ensures OnlyVisited(h, FactIndexed(h, rows, order[k]), order, k + 1)
  {
    var rows' := FactIndexed(h, rows, order[k]);
    forall b | b in rows' && rows'[b].factId.Some?
      ensures exists i :: 0 <= i < k + 1 && rows'[b].factId.value == order[i].id && b == AssertionIdOf(h, order[i])
    {
      IndexedRow(h, rows, order[k], b);
      if b == AssertionIdOf(h, order[k]) {
        assert rows'[b].factId.value == order[k].id;
      } else {
        var i :| 0 <= i < k && rows[b].factId.value == order[i].id && b == AssertionIdOf(h, order[i]);
        assert 0 <= i < k + 1;
      }
    }
  }

  ghost predicate FactFree(base: Assertions) { forall a :: a in base ==> base[a].factId.None? }

  /** What any rebuild leaves: a fact's assertion is superseded if the fact was, or if a fact visited later
      lists it, and its link names the last of those. */
  lemma {:induction false} RebuiltRows(h: Hashing, base: Assertions, order: seq<Fact>, k: nat)
    requires k <= |order| && DistinctIds(h, order) && FactFree(base)
    ensures OnlyVisited(h, Rebuilt(h, base, order[..k]), order, k)
    ensures forall i :: 0 <= i < k ==> RowAfter(h, Rebuilt(h, base, order[..k]), order, i, k)
  {
    if k > 0 {
      RebuiltRows(h, base, order, k - 1);
      var rows := Rebuilt(h, base, order[..k - 1]);
      assert order[..k][..k - 1] == order[..k - 1];
      IndexSelf(h, rows, order, k - 1);
      IndexVisits(h, rows, order, k - 1);
      var rows' := Rebuilt(h, base, order[..k]);
      forall i | 0 <= i < k - 1 ensures RowAfter(h, rows', order, i, k) {
        IndexNext(h, rows, order, i, k - 1);
      }
    }
  }

  ghost predicate StatusRestored(h: Hashing, rows: Assertions, f: Fact) {
    var a := AssertionIdOf(h, f);
    a in rows && rows[a].factId == Some(f.id) && rows[a].status == f.status
  }

  ghost predicate StatusesRestored(h: Hashing, facts: Ledger, rows: Assertions) {
    forall x :: x in facts ==> StatusRestored(h, rows, facts[x])
  }

  lemma EnumeratedDistinct(h: Hashing, keys: set<Key>, order: seq<Fact>, facts: Ledger)
    requires CollisionFree(h, keys) && RowsIdentified(h, keys, facts) && Enumerates(order, facts)
    ensures DistinctIds(h, order)
  {
    forall i | 0 <= i < |order| ensures order[i].id != "" {
      assert Identified(h, keys, facts[order[i].id]);
    }
    forall i, j | 0 <= i < j < |order| ensures AssertionIdOf(h, order[i]) != AssertionIdOf(h, order[j]) {
      assert facts[order[i].id] == order[i] && facts[order[j].id] == order[j];
      SameFactSameKey(h, keys, order[i], order[j]);
    }
  }

  /** One visiting order restores every status exactly when no active fact is listed by a fact visited after it. */
  lemma RebuildRestoresIff(h: Hashing, keys: set<Key>, facts: Ledger, base: Assertions, order: seq<Fact>)
    requires CollisionFree(h, keys) && RowsIdentified(h, keys, facts) && Enumerates(order, facts) && FactFree(base)
    ensures StatusesRestored(h, facts, Rebuilt(h, base, order))
            <==> forall i :: 0 <= i < |order| ==> StatusKept(order, i)
  {
    EnumeratedDistinct(h, keys, order, facts);
    DistinctRestores(h, facts, base, order);
  }

  lemma DistinctRestores(h: Hashing, facts: Ledger, base: Assertions, order: seq<Fact>)
    requires DistinctIds(h, order) && Enumerates(order, facts) && FactFree(base)
    ensures StatusesRestored(h, facts, Rebuilt(h, base, order))
            <==> forall i :: 0 <= i < |order| ==> StatusKept(order, i)
  {
    var rows := Rebuilt(h, base, order);
    forall i | 0 <= i < |order| ensures StatusRestored(h, rows, order[i]) <==> StatusKept(order, i) {
      StatusAt(h, base, order, i);
    }
    if StatusesRestored(h, facts, rows) {
      forall i | 0 <= i < |order| ensures StatusKept(order, i) {
        assert StatusRestored(h, rows, facts[order[i].id]);
      }
    } else {
      var x :| x in facts && !StatusRestored(h, rows, facts[x]);
      var i :| 0 <= i < |order| && order[i] == facts[x];
      assert !StatusKept(order, i);
    }
  }

  lemma StatusAt(h: Hashing, base: Assertions, order: seq<Fact>, i: nat)
    requires DistinctIds(h, order) && FactFree(base) && i < |order|
    ensures StatusRestored(h, Rebuilt(h, base, order), order[i]) <==> StatusKept(order, i)
  {
    RebuiltRows(h, base, order, |order|);
    assert order[..|order|] == order;
    assert RowAfter(h, Rebuilt(h, base, order), order, i, |order|);
  }

  /** Fact `i` was superseded already, or no fact visited after it lists it. */
  ghost predicate StatusKept(order: seq<Fact>, i: nat)
    requires i < |order|
  {
    order[i].status == Active ==> forall j :: i < j < |order| ==> order[i].id !in order[j].supersedes
  }

  /** The link of a fact's assertion is restored exactly when the last visited of the facts that list it and
      come later is the fact that superseded it in the ledger, or neither exists. */
  lemma LinkRestoredIff(h: Hashing, keys: set<Key>, facts: Ledger, base: Assertions, order: seq<Fact>, i: nat)
    requires CollisionFree(h, keys) && RowsIdentified(h, keys, facts) && LinksOk(facts)
    requires Enumerates(order, facts) && FactFree(base) && i < |order|
    ensures AssertionIdOf(h, order[i]) in Rebuilt(h, base, order)
    ensures var last := LastLister(order, i, |order|);
            Rebuilt(h, base, order)[AssertionIdOf(h, order[i])].supersededBy == Image(h, facts, order[i].supersededBy)
            <==> order[i].supersededBy == if last.Some? then Some(order[last.value].id) else None
  {
    EnumeratedDistinct(h, keys, order, facts);
    RebuiltRows(h, base, order, |order|);
    assert order[..|order|] == order;
    assert RowAfter(h, Rebuilt(h, base, order), order, i, |order|);
    var last := LastLister(order, i, |order|);
    assert facts[order[i].id] == order[i];
    if last.Some? && order[i].supersededBy.Some? {
      var y := order[i].supersededBy.value;
      assert facts[order[last.value].id] == order[last.value];
      SameFactSameKey(h, keys, facts[y], order[last.value]);
    }
  }

  // ---- when the order does not matter ----

  /** No active fact is listed by another stored fact. */
  ghost predicate ListedAreSuperseded(facts: Ledger) {
    forall x, y :: x in facts && y in facts && x != y && x in facts[y].supersedes ==> facts[x].status == Superseded
  }

  lemma EnumerateMore(facts: Ledger, x: Id, rest: seq<Fact>)
    requires x in facts && facts[x].id == x && Enumerates(rest, facts - {x})
    ensures Enumerates([facts[x]] + rest, facts)
  {
    var order := [facts[x]] + rest;
    forall i | 0 <= i < |order| ensures order[i].id in facts && facts[order[i].id] == order[i] {
      assert i > 0 ==> order[i] == rest[i - 1];
    }
    forall i, j | 0 <= i < j < |order| ensures order[i].id != order[j].id {
      assert order[j] == rest[j - 1] && (i > 0 ==> order[i] == rest[i - 1]);
    }
    forall y | y in facts ensures facts[y] in order {
      if y == x {
        assert order[0] == facts[x];
      } else {
        assert (facts - {x})[y] in rest;
      }
    }
  }

  lemma {:induction false} EnumerationExists(facts: Ledger) returns (order: seq<Fact>)
    requires forall x :: x in facts ==> facts[x].id == x
    ensures Enumerates(order, facts)
    decreases |facts|
  {
    order := [];
    if facts != map[] {
      var x :| x in facts;
      var rest := EnumerationExists(facts - {x});
      EnumerateMore(facts, x, rest);
      order := [facts[x]] + rest;
    }
  }

  lemma EnumerationWith(facts: Ledger, x: Id, y: Id) returns (order: seq<Fact>)
    requires forall z :: z in facts ==> facts[z].id == z
    requires x in facts && y in facts && x != y
    ensures Enumerates(order, facts) && |order| >= 2 && order[0] == facts[x] && order[1] == facts[y]
  {
    var rest := EnumerationExists(facts - {x} - {y});
    EnumerateMore(facts - {x}, y, rest);
    EnumerateMore(facts, x, [facts[y]] + rest);
    order := [facts[x]] + ([facts[y]] + rest);
  }

  /** Rebuilding is independent of the visiting order, and right, exactly when no active fact is listed by
      another stored fact. */
  lemma EveryOrderRestoresIff(h: Hashing, keys: set<Key>, facts: Ledger, base: Assertions)
    requires CollisionFree(h, keys) && RowsIdentified(h, keys, facts) && FactFree(base)
    ensures (forall order: seq<Fact> :: Enumerates(order, facts) ==>
               StatusesRestored(h, facts, Rebuilt(h, base, order)))
            <==> ListedAreSuperseded(facts)
  {
    if ListedAreSuperseded(facts) {
      forall order: seq<Fact> | Enumerates(order, facts) ensures StatusesRestored(h, facts, Rebuilt(h, base, order)) {
        RebuildRestoresIff(h, keys, facts, base, order);
        NothingLost(facts, order);
      }
    } else {
      var order := SomeOrderLoses(facts);
      RebuildRestoresIff(h, keys, facts, base, order);
    }
  }

  lemma SomeOrderLoses(facts: Ledger) returns (order: seq<Fact>)
    requires !ListedAreSuperseded(facts) && forall x :: x in facts ==> facts[x].id == x
    ensures Enumerates(order, facts) && |order| > 0 && !StatusKept(order, 0)
  {
    var x, y :| x in facts && y in facts && x != y && x in facts[y].supersedes && facts[x].status != Superseded;
    order := EnumerationWith(facts, x, y);
    assert order[0].id == x;
  }

  lemma NothingLost(facts: Ledger, order: seq<Fact>)
    requires ListedAreSuperseded(facts) && Enumerates(order, facts)
    ensures forall i :: 0 <= i < |order| ==> StatusKept(order, i)
  {
    forall i, j | 0 <= i < j < |order| && order[i].status == Active ensures order[i].id !in order[j].supersedes {
      assert facts[order[i].id] == order[i] && facts[order[j].id] == order[j];
    }
  }

  // ---- when every listing restores the ledger ----

  lemma Rearranged(order: seq<Fact>, t: seq<Fact>, facts: Ledger)
    requires Enumerates(order, facts) && multiset(t) == multiset(order)
    ensures Enumerates(t, facts)
  {
    RearrangedStaysDistinct(order, t);
    forall f ensures f in t <==> f in order {
      assert f in t <==> f in multiset(t);
      assert f in order <==> f in multiset(order);
    }
    forall i | 0 <= i < |t| ensures t[i].id in facts && facts[t[i].id] == t[i] {
      assert t[i] in order;
    }
  }

  /** Listing order, with `x` ahead of all facts it ties with. */
  predicate TieBefore(x: Id, f: Fact, g: Fact) {
    ListedBefore(f, g) && (ListedBefore(g, f) ==> f.id == x || g.id != x)
  }

  /** Nothing precedes `x` that need not. */
  ghost predicate FirstOfTies(order: seq<Fact>, x: Id) {
    forall i, j :: 0 <= i < j < |order| && order[j].id == x ==> Ahead(order[i], order[j])
  }

  lemma ListingWithFirst(facts: Ledger, x: Id) returns (order: seq<Fact>)
    requires forall z :: z in facts ==> facts[z].id == z
    ensures Listing(order, facts)
    ensures FirstOfTies(order, x)
  {
    var some := EnumerationExists(facts);
    var leq := (f, g) => TieBefore(x, f, g);
    assert TotalPreorder(leq);
    order := Sorted(some, leq);
    Rearranged(some, order, facts);
    forall i, j | 0 <= i < j < |order|
      ensures ListedBefore(order[i], order[j]) && (order[j].id == x ==> Ahead(order[i], order[j]))
    {
      assert leq(order[i], order[j]);
    }
  }

  /** A listing with `x` before `z`, and the places of the two. */
  lemma ListingWithBefore(facts: Ledger, x: Id, z: Id) returns (order: seq<Fact>, i: nat, j: nat)
    requires forall y :: y in facts ==> facts[y].id == y
    requires x in facts && z in facts && x != z && ListedBefore(facts[x], facts[z])
    ensures Listing(order, facts) && i < j < |order| && order[i] == facts[x] && order[j] == facts[z]
  {
    order := ListingWithFirst(facts, x);
    i :| 0 <= i < |order| && order[i] == facts[x];
    j :| 0 <= j < |order| && order[j] == facts[z];
  }

  /** An active fact is listed only by facts that every listing has before it. */
  ghost predicate ActiveAfterListers(facts: Ledger) {
    forall x, y :: x in facts && y in facts && x != y && x in facts[y].supersedes && facts[x].status == Active ==>
      Ahead(facts[y], facts[x])
  }

  ghost predicate AllListingsRestore(h: Hashing, facts: Ledger, base: Assertions) {
    forall order: seq<Fact> :: Listing(order, facts) ==> StatusesRestored(h, facts, Rebuilt(h, base, order))
  }

  /** Every listing restores every status exactly when each active fact is strictly behind, by confidence and creation
      time, every other fact that lists it. */
  lemma ListingRestoresIff(h: Hashing, keys: set<Key>, facts: Ledger, base: Assertions)
    requires CollisionFree(h, keys) && RowsIdentified(h, keys, facts) && FactFree(base)
    ensures AllListingsRestore(h, facts, base) <==> ActiveAfterListers(facts)
  {
    if ActiveAfterListers(facts) {
      forall order: seq<Fact> | Listing(order, facts) ensures StatusesRestored(h, facts, Rebuilt(h, base, order)) {
        ListedKept(facts, order);
        RebuildRestoresIff(h, keys, facts, base, order);
      }
    } else {
      var x, y :| x in facts && y in facts && x != y && x in facts[y].supersedes && facts[x].status == Active
                  && !Ahead(facts[y], facts[x]);
      var order, i, j := ListingWithBefore(facts, x, y);
      assert !StatusKept(order, i);
      RebuildRestoresIff(h, keys, facts, base, order);
    }
  }

  lemma ListedKept(facts: Ledger, order: seq<Fact>)
    requires ActiveAfterListers(facts) && Listing(order, facts)
    ensures forall i :: 0 <= i < |order| ==> StatusKept(order, i)
  {
    forall i, j | 0 <= i < j < |order| && order[i].status == Active ensures order[i].id !in order[j].supersedes {
      assert facts[order[i].id] == order[i] && facts[order[j].id] == order[j];
      assert ListedBefore(order[i], order[j]);
    }
  }

  ghost predicate LinkRestored(h: Hashing, facts: Ledger, rows: Assertions, x: Id)
    requires x in facts
  {
    var a := AssertionIdOf(h, facts[x]);
    a in rows && rows[a].supersededBy == Image(h, facts, facts[x].supersededBy)
  }

  /** The fact that superseded `x` lists it and is strictly behind it and behind every other lister; a fact that
      nothing superseded is strictly behind every other lister. */
  ghost predicate LinkStable(facts: Ledger, x: Id)
    requires x in facts
  {
    match facts[x].supersededBy
    case Some(y) =>
      && y in facts && x in facts[y].supersedes && Ahead(facts[x], facts[y])
      && forall z :: z in facts && z != y && x in facts[z].supersedes ==> Ahead(facts[z], facts[y])
    case None =>
      forall z :: z in facts && z != x && x in facts[z].supersedes ==> Ahead(facts[z], facts[x])
  }

  /** The last lister after place `i` is the superseder of the fact there, or neither exists. */
  ghost predicate LastIsSuperseder(order: seq<Fact>, i: nat)
    requires i < |order|
  {
    var last := LastLister(order, i, |order|);
    order[i].supersededBy == if last.Some? then Some(order[last.value].id) else None
  }

  /** The last lister after place `i`: nothing behind it lists the fact. */
  lemma {:induction false} LastListerIsLast(order: seq<Fact>, i: nat, k: nat)
    requires i < k <= |order|
    ensures var last := LastLister(order, i, k);
            last.Some? ==> forall j :: last.value < j < k ==> order[i].id !in order[j].supersedes
  {
    if k > i + 1 && order[i].id !in order[k - 1].supersedes {
      LastListerIsLast(order, i, k - 1);
    }
  }

  lemma LastListerAt(order: seq<Fact>, i: nat, j: nat)
    requires i < j < |order| && order[i].id in order[j].supersedes
    requires forall k :: j < k < |order| ==> order[i].id !in order[k].supersedes
    ensures LastLister(order, i, |order|) == Some(j)
  {
    LastListerIsLast(order, i, |order|);
  }

  lemma StableIsLast(facts: Ledger, order: seq<Fact>, i: nat)
    requires Listing(order, facts) && i < |order| && LinkStable(facts, order[i].id)
    ensures LastIsSuperseder(order, i)
  {
    var f := order[i];
    match f.supersededBy {
      case None =>
        forall k | i < k < |order| ensures f.id !in order[k].supersedes {
          assert facts[order[k].id] == order[k] && ListedBefore(f, order[k]);
        }
      case Some(y) =>
        var j :| 0 <= j < |order| && order[j] == facts[y];
        assert i < j;
        forall k | j < k < |order| ensures f.id !in order[k].supersedes {
          assert facts[order[k].id] == order[k] && ListedBefore(order[j], order[k]);
        }
        LastListerAt(order, i, j);
    }
  }

  /** One listing that favours the superseder, or the fact itself if there is none, decides. */
  lemma LastIsStable(facts: Ledger, order: seq<Fact>, i: nat)
    requires (forall z :: z in facts ==> facts[z].id == z) && Listing(order, facts)
    requires i < |order| && LastIsSuperseder(order, i)
    requires var f := order[i]; FirstOfTies(order, if f.supersededBy.Some? then f.supersededBy.value else f.id)
    ensures LinkStable(facts, order[i].id)
  {
    var x, last := order[i].id, LastLister(order, i, |order|);
    LastListerIsLast(order, i, |order|);
    var j := if last.Some? then last.value else i;
    assert facts[order[j].id] == order[j];
    forall z | z in facts && z != order[j].id && x in facts[z].supersedes ensures Ahead(facts[z], order[j]) {
      var k :| 0 <= k < |order| && order[k] == facts[z];
      assert k < j;
    }
  }

  /** Every listing restores the link of a fact exactly when that link is stable. */
  lemma LinkListingIff(h: Hashing, keys: set<Key>, facts: Ledger, base: Assertions, x: Id)
    requires CollisionFree(h, keys) && RowsIdentified(h, keys, facts) && LinksOk(facts)
    requires FactFree(base) && x in facts
    ensures (forall order: seq<Fact> :: Listing(order, facts) ==> LinkRestored(h, facts, Rebuilt(h, base, order), x))
            <==> LinkStable(facts, x)
  {
    if LinkStable(facts, x) {
      forall order: seq<Fact> | Listing(order, facts) ensures LinkRestored(h, facts, Rebuilt(h, base, order), x) {
        var i :| 0 <= i < |order| && order[i] == facts[x];
        StableIsLast(facts, order, i);
        LinkRestoredIff(h, keys, facts, base, order, i);
      }
    } else {
      var order := ListingWithFirst(facts, if facts[x].supersededBy.Some? then facts[x].supersededBy.value else x);
      var i :| 0 <= i < |order| && order[i] == facts[x];
      assert !LastIsSuperseder(order, i) by {
        if LastIsSuperseder(order, i) {
          LastIsStable(facts, order, i);
        }
      }
      LinkRestoredIff(h, keys, facts, base, order, i);
    }
  }

  ghost predicate AllListingsMirror(h: Hashing, facts: Ledger, base: Assertions) {
    forall order: seq<Fact> :: Listing(order, facts) ==> Mirrors(h, facts, Rebuilt(h, base, order))
  }

  /** Every listing restores the whole mirror, statuses, links and no assertion too many, exactly when every link is
      stable. */
  lemma MirrorListingIff(h: Hashing, keys: set<Key>, facts: Ledger, base: Assertions)
    requires CollisionFree(h, keys) && RowsIdentified(h, keys, facts) && LinksOk(facts) && FactFree(base)
    ensures AllListingsMirror(h, facts, base) <==> forall x :: x in facts ==> LinkStable(facts, x)
  {
    if forall x :: x in facts ==> LinkStable(facts, x) {
      ListingRestoresIff(h, keys, facts, base);
      forall order: seq<Fact> | Listing(order, facts) ensures Mirrors(h, facts, Rebuilt(h, base, order)) {
        StableMirrors(h, keys, facts, base, order);
      }
    }
    if AllListingsMirror(h, facts, base) {
      forall x | x in facts ensures LinkStable(facts, x) {
        MirroredLinks(h, facts, base, x);
        LinkListingIff(h, keys, facts, base, x);
      }
    }
  }

  lemma MirroredLinks(h: Hashing, facts: Ledger, base: Assertions, x: Id)
    requires AllListingsMirror(h, facts, base) && x in facts
    ensures forall order: seq<Fact> :: Listing(order, facts) ==> LinkRestored(h, facts, Rebuilt(h, base, order), x)
  {
    forall order: seq<Fact> | Listing(order, facts) ensures LinkRestored(h, facts, Rebuilt(h, base, order), x) {
      assert MirrorsFact(h, facts, Rebuilt(h, base, order), x);
    }
  }

  lemma StableMirrors(h: Hashing, keys: set<Key>, facts: Ledger, base: Assertions, order: seq<Fact>)
    requires CollisionFree(h, keys) && RowsIdentified(h, keys, facts) && LinksOk(facts) && FactFree(base)
    requires Listing(order, facts) && StatusesRestored(h, facts, Rebuilt(h, base, order))
    requires forall x :: x in facts ==> LinkStable(facts, x)
    ensures Mirrors(h, facts, Rebuilt(h, base, order))
  {
    var rows := Rebuilt(h, base, order);
    forall x | x in facts ensures LinkRestored(h, facts, rows, x) {
      LinkListingIff(h, keys, facts, base, x);
    }
    NothingElse(h, keys, facts, base, order);
    RestoredMirrors(h, facts, rows);
  }

  lemma RestoredMirrors(h: Hashing, facts: Ledger, rows: Assertions)
    requires StatusesRestored(h, facts, rows) && forall x :: x in facts ==> LinkRestored(h, facts, rows, x)
    requires OnlyFacts(h, facts, rows) && forall x :: x in facts ==> facts[x].id == x
    ensures Mirrors(h, facts, rows)
  {
    forall x | x in facts ensures MirrorsFact(h, facts, rows, x) {
      assert StatusRestored(h, rows, facts[x]) && LinkRestored(h, facts, rows, x);
    }
  }

  ghost predicate OnlyFacts(h: Hashing, facts: Ledger, rows: Assertions) {
    forall a :: a in rows && rows[a].factId.Some? ==>
      rows[a].factId.value in facts && a == AssertionIdOf(h, facts[rows[a].factId.value])
  }

  /** A rebuild gives assertions to no facts but the stored ones. */
  lemma NothingElse(h: Hashing, keys: set<Key>, facts: Ledger, base: Assertions, order: seq<Fact>)
    requires CollisionFree(h, keys) && RowsIdentified(h, keys, facts) && FactFree(base) && Enumerates(order, facts)
    ensures OnlyFacts(h, facts, Rebuilt(h, base, order))
  {
    EnumeratedDistinct(h, keys, order, facts);
    RebuiltRows(h, base, order, |order|);
    assert order[..|order|] == order;
  }

  // ---- histories ----

  /** Histories in which every fact id is added once and lists only facts stored before it. */
  ghost predicate AppendOnly(h: Hashing, qs: seq<Request>) {
    qs == [] || (AppendOnly(h, qs[..|qs| - 1]) && AppendsTo(h, History(h, qs[..|qs| - 1]), qs[|qs| - 1]))
  }

  ghost predicate AppendsTo(h: Hashing, facts: Ledger, q: Request) {
    var f := Record(h, q);
    f.id !in facts && forall x :: x in f.supersedes ==> x in facts
  }

  lemma {:induction false} AppendOnlyIsOrderFree(h: Hashing, qs: seq<Request>)
    requires AppendOnly(h, qs)
    ensures ListedAreSuperseded(History(h, qs))
    ensures forall y, x :: y in History(h, qs) && x in History(h, qs)[y].supersedes ==> x in History(h, qs)
  {
    if qs != [] {
      var n := |qs| - 1;
      AppendOnlyIsOrderFree(h, qs[..n]);
      AppendStep(History(h, qs[..n]), Record(h, qs[n]));
    }
  }

  lemma AppendStep(facts: Ledger, f: Fact)
    requires ListedAreSuperseded(facts)
    requires forall y, x :: y in facts && x in facts[y].supersedes ==> x in facts
    requires f.id !in facts && forall x :: x in f.supersedes ==> x in facts
    ensures ListedAreSuperseded(Added(facts, f))
    ensures var facts' := Added(facts, f);
            forall y, x :: y in facts' && x in facts'[y].supersedes ==> x in facts'
  {
    assert f.id !in f.supersedes;
  }

  /** The keys of the facts are among those in use. */
  ghost predicate AllKeysIn(h: Hashing, qs: seq<Request>, keys: set<Key>) {
    forall i :: 0 <= i < |qs| ==> h.KeyOf(qs[i].content.Trimmed()) in keys
  }

  lemma {:induction false} HistoryIdentified(h: Hashing, keys: set<Key>, qs: seq<Request>)
    requires AllKeysIn(h, qs, keys)
    ensures RowsIdentified(h, keys, History(h, qs))
  {
    if qs != [] {
      HistoryIdentified(h, keys, qs[..|qs| - 1]);
      TrimTwice(qs[|qs| - 1].content);
      AddKeepsIdentities(h, keys, History(h, qs[..|qs| - 1]), Record(h, qs[|qs| - 1]));
    }
  }

  /** For append-only histories every visiting order restores every status. */
  lemma RebuildIsOrderIndependent(h: Hashing, keys: set<Key>, qs: seq<Request>, base: Assertions, order: seq<Fact>)
    requires CollisionFree(h, keys) && FactFree(base) && AppendOnly(h, qs)
    requires AllKeysIn(h, qs, keys) && Enumerates(order, History(h, qs))
    ensures StatusesRestored(h, History(h, qs), Rebuilt(h, base, order))
  {
    AppendOnlyIsOrderFree(h, qs);
    HistoryIdentified(h, keys, qs);
    EveryOrderRestoresIff(h, keys, History(h, qs), base);
  }

  /** Adding a superseded fact again makes it active while its old superseder still lists it, so some rebuild
      gets its status wrong. */
  lemma ReAddedFactIsNotOrderFree(h: Hashing, first: Request, second: Request)
    requires Supersedes(h, second, first)
    ensures !ListedAreSuperseded(History(h, [first, second, first]))
    ensures ListedAreSuperseded(History(h, [first, second]))
  {
    HistoryNext(h, [], first);
    HistoryNext(h, [first], second);
    HistoryNext(h, [first, second], first);
    assert [] + [first] == [first] && [first] + [second] == [first, second];
    assert [first, second] + [first] == [first, second, first];
    AddedAgain(Record(h, first), Record(h, second));
  }

  lemma AddedAgain(f: Fact, g: Fact)
    requires f.id != g.id && f.supersedes == [] && g.supersedes == [f.id] && f.status == Active
    ensures var two := Added(Added(map[], f), g);
            ListedAreSuperseded(two) && !ListedAreSuperseded(Added(two, f))
  {
    var two := Added(Added(map[], f), g);
    assert two.Keys == {f.id, g.id} && two[g.id] == g;
    assert two[f.id] == f.(status := Superseded, supersededBy := Some(g.id));
    var three := Added(two, f);
    assert three[f.id] == f && three[g.id] == g && f.id in three[g.id].supersedes;
  }

  /** The same in the code's own order: a superseded fact that is added again comes back active from every listing
      exactly when its superseder is strictly ahead of it. If it is strictly ahead of its superseder, for one because it
      was added later with the same confidence, no listing gets it right. */
  lemma ReAddedFactIsRestoredIff(h: Hashing, keys: set<Key>, first: Request, second: Request, again: Request,
                                 base: Assertions)
    requires CollisionFree(h, keys) && FactFree(base) && AllKeysIn(h, [first, second, again], keys)
    requires Supersedes(h, second, first) && Record(h, again).id == Record(h, first).id && again.supersedes == []
    ensures var facts := History(h, [first, second, again]); var f, g := Record(h, again), Record(h, second);
            && (AllListingsRestore(h, facts, base) <==> Ahead(g, f))
            && (Ahead(f, g) ==> NoListingRestores(h, facts, base))
  {
    var facts, f, g := History(h, [first, second, again]), Record(h, again), Record(h, second);
    ThreeAdded(h, first, second, again);
    HistoryIdentified(h, keys, [first, second, again]);
    ListingRestoresIff(h, keys, facts, base);
    TwoFacts(facts, f, g);
    if Ahead(f, g) {
      ListedBehind(h, keys, facts, base, f.id, g.id);
    }
  }

  ghost predicate NoListingRestores(h: Hashing, facts: Ledger, base: Assertions) {
    forall order: seq<Fact> :: Listing(order, facts) ==> !StatusesRestored(h, facts, Rebuilt(h, base, order))
  }

  /** The second request names the fact of the first as the one it supersedes, and the first names none. */
  ghost predicate Supersedes(h: Hashing, second: Request, first: Request) {
    var f, g := Record(h, first), Record(h, second);
    f.id != g.id && g.supersedes == [f.id] && first.supersedes == []
  }

  lemma TwoFacts(facts: Ledger, f: Fact, g: Fact)
    requires facts == map[f.id := f, g.id := g] && f.id != g.id && f.supersedes == [] && g.supersedes == [f.id]
    requires f.status == Active
    ensures ActiveAfterListers(facts) <==> Ahead(g, f)
  {
    assert facts[f.id] == f && facts[g.id] == g && f.id in facts[g.id].supersedes;
  }

  lemma ListedBehind(h: Hashing, keys: set<Key>, facts: Ledger, base: Assertions, x: Id, y: Id)
    requires CollisionFree(h, keys) && RowsIdentified(h, keys, facts) && FactFree(base)
    requires x in facts && y in facts && x in facts[y].supersedes && facts[x].status == Active
    requires Ahead(facts[x], facts[y])
    ensures NoListingRestores(h, facts, base)
  {
    forall order: seq<Fact> | Listing(order, facts) ensures !StatusesRestored(h, facts, Rebuilt(h, base, order)) {
      var i := AheadOfLister(facts, order, x, y);
      RebuildRestoresIff(h, keys, facts, base, order);
    }
  }

  lemma AheadOfLister(facts: Ledger, order: seq<Fact>, x: Id, y: Id) returns (i: nat)
    requires Listing(order, facts) && x in facts && y in facts && facts[x].id == x && facts[x].status == Active
    requires x in facts[y].supersedes && Ahead(facts[x], facts[y])
    ensures i < |order| && !StatusKept(order, i)
  {
    i :| 0 <= i < |order| && order[i] == facts[x];
    var j :| 0 <= j < |order| && order[j] == facts[y];
    assert i < j && order[i].id in order[j].supersedes;
  }

  lemma ThreeAdded(h: Hashing, first: Request, second: Request, again: Request)
    requires Supersedes(h, second, first) && Record(h, again).id == Record(h, first).id && again.supersedes == []
    ensures var f, g := Record(h, again), Record(h, second);
            History(h, [first, second, again]) == map[f.id := f, g.id := g]
  {
    TwoAdded(h, first, second);
    HistoryNext(h, [first, second], again);
    assert [first, second] + [again] == [first, second, again];
    AddedBack(Record(h, first), Record(h, second), Record(h, again));
  }

  lemma AddedBack(before: Fact, g: Fact, f: Fact)
    requires before.id == f.id != g.id && f.supersedes == []
    ensures Added(map[f.id := before.(status := Superseded, supersededBy := Some(g.id)), g.id := g], f)
         == map[f.id := f, g.id := g]
  {
  }

  /** A fact with every other lister strictly ahead of it ends without a superseder, whatever the ledger says. */
  lemma LinkIsLost(h: Hashing, keys: set<Key>, facts: Ledger, base: Assertions, order: seq<Fact>, x: Id)
    requires CollisionFree(h, keys) && RowsIdentified(h, keys, facts) && FactFree(base) && Listing(order, facts)
    requires x in facts
    requires forall z :: z in facts && z != x && x in facts[z].supersedes ==> Ahead(facts[z], facts[x])
    ensures var a, rows := AssertionIdOf(h, facts[x]), Rebuilt(h, base, order);
            a in rows && rows[a].supersededBy == None && rows[a].status == facts[x].status
  {
    var i := BehindListers(facts, order, x);
    EnumeratedDistinct(h, keys, order, facts);
    UnlistedRow(h, base, order, i);
  }

  lemma BehindListers(facts: Ledger, order: seq<Fact>, x: Id) returns (i: nat)
    requires Listing(order, facts) && x in facts && facts[x].id == x
    requires forall z :: z in facts && z != x && x in facts[z].supersedes ==> Ahead(facts[z], facts[x])
    ensures i < |order| && order[i] == facts[x] && forall k :: i < k < |order| ==> x !in order[k].supersedes
  {
    i :| 0 <= i < |order| && order[i] == facts[x];
    forall k | i < k < |order| ensures x !in order[k].supersedes {
      assert facts[order[k].id] == order[k] && ListedBefore(order[i], order[k]);
    }
  }

  lemma UnlistedRow(h: Hashing, base: Assertions, order: seq<Fact>, i: nat)
    requires DistinctIds(h, order) && FactFree(base) && i < |order|
    requires forall k :: i < k < |order| ==> order[i].id !in order[k].supersedes
    ensures var a, rows := AssertionIdOf(h, order[i]), Rebuilt(h, base, order);
            a in rows && rows[a].supersededBy == None && rows[a].status == order[i].status
  {
    RebuiltRows(h, base, order, |order|);
    assert order[..|order|] == order;
    assert RowAfter(h, Rebuilt(h, base, order), order, i, |order|);
  }

  /** The ordinary case: the superseder has the higher confidence, so every listing has it first, and no assertion is
      left to say what superseded the older fact. */
  lemma ConfidentSuperseder(h: Hashing, keys: set<Key>, first: Request, second: Request, base: Assertions,
                            order: seq<Fact>)
    requires CollisionFree(h, keys) && FactFree(base) && AllKeysIn(h, [first, second], keys)
    requires Supersedes(h, second, first) && Record(h, second).confidence > Record(h, first).confidence
    requires Listing(order, History(h, [first, second]))
    ensures var facts, x := History(h, [first, second]), Record(h, first).id;
            && x in facts && facts[x].status == Superseded && facts[x].supersededBy == Some(Record(h, second).id)
            && var a, rows := AssertionIdOf(h, facts[x]), Rebuilt(h, base, order);
               a in rows && rows[a].status == Superseded && rows[a].supersededBy == None
  {
    var f, g, facts := Record(h, first), Record(h, second), History(h, [first, second]);
    TwoAdded(h, first, second);
    HistoryIdentified(h, keys, [first, second]);
    assert facts.Keys == {f.id, g.id} && Ahead(facts[g.id], facts[f.id]);
    LinkIsLost(h, keys, facts, base, order, f.id);
  }

  lemma TwoAdded(h: Hashing, first: Request, second: Request)
    requires Supersedes(h, second, first)
    ensures var f, g := Record(h, first), Record(h, second);
            History(h, [first, second])
            == map[f.id := f.(status := Superseded, supersededBy := Some(g.id)), g.id := g]
  {
    HistoryNext(h, [], first);
    HistoryNext(h, [first], second);
    assert [] + [first] == [first] && [first] + [second] == [first, second];
  }

  lemma HistoryNext(h: Hashing, qs: seq<Request>, q: Request)
    ensures History(h, qs + [q]) == Added(History(h, qs), Record(h, q))
  {
    assert (qs + [q])[..|qs|] == qs;
  }
}
