/** How the knowledge graph follows the ledger, step by step, while facts are added. */
module Mirror {
  import opened Wrappers
  import opened Knowledge
  import opened Facts
  import Schema

  function AssertionIdOf(h: Hashing, f: Fact): Id { h.AssertionId(f.content.Trimmed(), Some(f.id)) }

  function KeyOfFact(h: Hashing, f: Fact): Key { h.KeyOf(f.content.Trimmed()) }

  /** `id` is the fact id of one of the keys. */
  ghost predicate FactIdAmong(h: Hashing, keys: set<Key>, id: Id) {
    exists k :: k in keys && id == "fact_" + h.factDigest(k)
  }

  ghost predicate SlotAmong(h: Hashing, keys: set<Key>, slot: Option<Id>) {
    slot.Some? ==> FactIdAmong(h, keys, slot.value)
  }

  /** No two of the keys in use share a digest. */
  ghost predicate CollisionFree(h: Hashing, keys: set<Key>) {
    && (forall j, k :: j in keys && k in keys && h.factDigest(j) == h.factDigest(k) ==> j == k)
    && (forall j, k, s, t ::
          j in keys && k in keys && SlotAmong(h, keys, s) && SlotAmong(h, keys, t)
          && h.assertionDigest(j, s) == h.assertionDigest(k, t)
          ==> j == k && s == t)
  }

  /** The fact's id is the digest of its own key, and the key is one of those in use. */
  ghost predicate Identified(h: Hashing, keys: set<Key>, f: Fact) {
    f.id == h.FactId(f.content.Trimmed()) && KeyOfFact(h, f) in keys
  }

  ghost predicate RowsIdentified(h: Hashing, keys: set<Key>, facts: Ledger) {
    forall x :: x in facts ==> facts[x].id == x && Identified(h, keys, facts[x])
  }

  /** Every fact has exactly one assertion, whose status and superseded_by are the image of the fact's own. */
  ghost predicate Mirrors(h: Hashing, facts: Ledger, assertions: Assertions) {
    && (forall x :: x in facts ==> MirrorsFact(h, facts, assertions, x))
    && (forall a :: a in assertions && assertions[a].factId.Some? ==>
          var x := assertions[a].factId.value; x in facts && a == AssertionIdOf(h, facts[x]))
  }

  ghost predicate MirrorsFact(h: Hashing, facts: Ledger, assertions: Assertions, x: Id)
    requires x in facts
  {
    var a := AssertionIdOf(h, facts[x]);
    && a in assertions
    && assertions[a].factId == Some(x)
    && assertions[a].status == facts[x].status
    && assertions[a].supersededBy == Image(h, facts, facts[x].supersededBy)
  }

  ghost function Image(h: Hashing, facts: Ledger, link: Option<Id>): Option<Id> {
    if link.Some? && link.value in facts then Some(AssertionIdOf(h, facts[link.value])) else None
  }

  lemma SameFactSameKey(h: Hashing, keys: set<Key>, f: Fact, g: Fact)
    requires CollisionFree(h, keys) && Identified(h, keys, f) && Identified(h, keys, g)
    ensures f.id == g.id <==> AssertionIdOf(h, f) == AssertionIdOf(h, g)
    ensures f.id == g.id <==> KeyOfFact(h, f) == KeyOfFact(h, g)
  {
    var j, k := KeyOfFact(h, f), KeyOfFact(h, g);
    assert FactIdAmong(h, keys, f.id) && FactIdAmong(h, keys, g.id);
    assert f.id[5..] == h.factDigest(j) && g.id[5..] == h.factDigest(k);
    assert AssertionIdOf(h, f)[3..] == h.assertionDigest(j, Some(f.id));
    assert AssertionIdOf(h, g)[3..] == h.assertionDigest(k, Some(g.id));
    assert SlotAmong(h, keys, Some(f.id)) && SlotAmong(h, keys, Some(g.id));
  }

  /** Storing a fact again does not move its assertion. */
  lemma SameAssertion(h: Hashing, keys: set<Key>, facts: Ledger, f: Fact, x: Id)
    requires CollisionFree(h, keys) && RowsIdentified(h, keys, facts) && Identified(h, keys, f) && x in facts
    ensures x != "" && facts[x].id == x
    ensures x == f.id <==> AssertionIdOf(h, facts[x]) == AssertionIdOf(h, f)
  {
    assert Identified(h, keys, facts[x]);
    SameFactSameKey(h, keys, facts[x], f);
  }

  /** The assertions that indexing finds for a list of facts. */
  lemma FoundAssertions(h: Hashing, facts: Ledger, assertions: Assertions, x: Id, listed: set<Id>)
    requires x in facts && x != "" && MirrorsFact(h, facts, assertions, x)
    ensures AssertionIdOf(h, facts[x]) in AssertionsFor(assertions, listed) <==> x in listed
  {
  }

  /** What indexing `g` does to the assertion of another or the same fact. */
  lemma IndexedRow(h: Hashing, assertions: Assertions, g: Fact, a: Id)
    ensures var after := FactIndexed(h, assertions, g); var row := FactRow(h, assertions, g);
            && (a in after <==> a in assertions || a == row.id)
            && (a in row.supersedes && a in after ==>
                  after[a].status == Superseded && after[a].supersededBy == Some(row.id))
            && (a !in row.supersedes && a == row.id ==> after[a] == row)
            && (a !in row.supersedes && a != row.id && a in assertions ==> after[a] == assertions[a])
            && (a in after ==> after[a].factId == (if a == row.id then Some(g.id) else assertions[a].factId))
  {
  }

  lemma MirrorOther(h: Hashing, keys: set<Key>, facts: Ledger, assertions: Assertions, f: Fact, x: Id)
    requires CollisionFree(h, keys) && RowsIdentified(h, keys, facts) && Identified(h, keys, f) && LinksOk(facts)
    requires Mirrors(h, facts, assertions) && x in facts && x != f.id
    ensures var facts' := Added(facts, f);
            f.id in facts' && x in facts' && MirrorsFact(h, facts', FactIndexed(h, assertions, facts'[f.id]), x)
  {
    SameAssertion(h, keys, facts, f, x);
    assert f.id in facts ==> AssertionIdOf(h, facts[f.id]) == AssertionIdOf(h, f) by {
      if f.id in facts {
        SameAssertion(h, keys, facts, f, f.id);
      }
    }
    assert MirrorsFact(h, facts, assertions, x);
    FoundAssertions(h, facts, assertions, x, set y | y in f.supersedes);
    ImageKept(h, facts, f, facts[x].supersededBy);
    MirrorMoves(h, facts, assertions, f, x);
  }

  /** The same for one fact, from the facts about its own assertion alone. */
  lemma MirrorMoves(h: Hashing, facts: Ledger, assertions: Assertions, f: Fact, x: Id)
    requires x in facts && x != f.id && MirrorsFact(h, facts, assertions, x)
    requires var a := AssertionIdOf(h, facts[x]);
             && a != "" && a != AssertionIdOf(h, f)
             && (a in AssertionsFor(assertions, set y | y in f.supersedes) <==> x in f.supersedes)
    requires Image(h, Added(facts, f), facts[x].supersededBy) == Image(h, facts, facts[x].supersededBy)
    ensures var facts' := Added(facts, f);
            f.id in facts' && x in facts' && MirrorsFact(h, facts', FactIndexed(h, assertions, facts'[f.id]), x)
  {
    var facts' := Added(facts, f);
    var a := AssertionIdOf(h, facts[x]);
    IndexedRow(h, assertions, facts'[f.id], a);
    assert AssertionIdOf(h, facts'[x]) == a;
    assert AssertionIdOf(h, facts'[f.id]) == AssertionIdOf(h, f);
  }

  /** Adding a fact moves no assertion id. */
  lemma ImageKept(h: Hashing, facts: Ledger, f: Fact, link: Option<Id>)
    requires f.id in facts ==> AssertionIdOf(h, facts[f.id]) == AssertionIdOf(h, f)
    requires link.Some? ==> link.value in facts
    ensures Image(h, Added(facts, f), link) == Image(h, facts, link)
  {
  }

  /** The new fact's own assertion is found exactly if the fact was stored already and lists itself. */
  lemma FoundSelf(h: Hashing, keys: set<Key>, facts: Ledger, assertions: Assertions, f: Fact, listed: set<Id>)
    requires CollisionFree(h, keys) && RowsIdentified(h, keys, facts) && Identified(h, keys, f)
    requires Mirrors(h, facts, assertions)
    ensures AssertionIdOf(h, f) in AssertionsFor(assertions, listed) <==> f.id in facts && f.id in listed
  {
    var a := AssertionIdOf(h, f);
    if f.id in facts {
      SameAssertion(h, keys, facts, f, f.id);
      assert MirrorsFact(h, facts, assertions, f.id);
      FoundAssertions(h, facts, assertions, f.id, listed);
    } else if a in assertions && assertions[a].factId.Some? {
      SameAssertion(h, keys, facts, f, assertions[a].factId.value);
    }
  }

  lemma MirrorSelf(h: Hashing, facts: Ledger, assertions: Assertions, f: Fact)
    requires AssertionIdOf(h, f) in AssertionsFor(assertions, set y | y in f.supersedes)
             <==> f.id in facts && f.id in f.supersedes
    requires f.status == Active && f.supersededBy == None
    ensures var facts' := Added(facts, f);
            f.id in facts'
            && (MirrorsFact(h, facts', FactIndexed(h, assertions, facts'[f.id]), f.id)
                <==> f.id !in f.supersedes || f.id in facts)
  {
    var g := Added(facts, f)[f.id];
    assert AssertionIdOf(h, g) == AssertionIdOf(h, f);
    IndexedRow(h, assertions, g, AssertionIdOf(h, f));
  }

  /** One add_fact keeps the mirror exact precisely when the fact does not list itself, or was already stored. */
  lemma MirrorStepIff(h: Hashing, keys: set<Key>, facts: Ledger, assertions: Assertions, f: Fact)
    requires CollisionFree(h, keys) && RowsIdentified(h, keys, facts) && Identified(h, keys, f) && LinksOk(facts)
    requires Mirrors(h, facts, assertions) && f.status == Active && f.supersededBy == None
    ensures f.id in Added(facts, f)
    ensures Mirrors(h, Added(facts, f), FactIndexed(h, assertions, Added(facts, f)[f.id]))
            <==> f.id !in f.supersedes || f.id in facts
  {
    var facts' := Added(facts, f);
    var assertions' := FactIndexed(h, assertions, facts'[f.id]);
    FoundSelf(h, keys, facts, assertions, f, set y | y in f.supersedes);
    MirrorSelf(h, facts, assertions, f);
    forall x | x in facts' && x != f.id ensures MirrorsFact(h, facts', assertions', x) {
      MirrorOther(h, keys, facts, assertions, f, x);
    }
    if f.id in facts {
      SameAssertion(h, keys, facts, f, f.id);
    }
    forall a | a in assertions' && assertions'[a].factId.Some?
      ensures assertions'[a].factId.value in facts' && a == AssertionIdOf(h, facts'[assertions'[a].factId.value])
    {
      MirrorBack(h, facts, assertions, f, a);
    }
  }

  lemma MirrorBack(h: Hashing, facts: Ledger, assertions: Assertions, f: Fact, a: Id)
    requires f.id in facts ==> AssertionIdOf(h, facts[f.id]) == AssertionIdOf(h, f)
    requires a in assertions && assertions[a].factId.Some? ==>
               assertions[a].factId.value in facts && a == AssertionIdOf(h, facts[assertions[a].factId.value])
    requires f.id in Added(facts, f)
    requires var after := FactIndexed(h, assertions, Added(facts, f)[f.id]);
             a in after && after[a].factId.Some?
    ensures var x := FactIndexed(h, assertions, Added(facts, f)[f.id])[a].factId.value;
            x in Added(facts, f) && a == AssertionIdOf(h, Added(facts, f)[x])
  {
    IndexedRow(h, assertions, Added(facts, f)[f.id], a);
  }

  // ---- runs ----

  datatype Operation = AddFact(request: Request) | IndexMemory(memory: Schema.Envelope)

  /** One operation; a refused request changes neither store. */
  function Step(h: Hashing, facts: Ledger, assertions: Assertions, op: Operation): (Ledger, Assertions) {
    match op
    case IndexMemory(m) => (facts, ItemsIndexed(h, assertions, m, FirstIncomplete(m, 0)))
    case AddFact(q) =>
      if !q.content.Trimmed().Complete() || ListsBlank(q.supersedes) then (facts, assertions)
      else
        var f := Record(h, q);
        var facts' := Added(facts, f);
        (facts', FactIndexed(h, assertions, facts'[f.id]))
  }

  /** Ledger and graph after a run on two empty stores. */
  function Run(h: Hashing, ops: seq<Operation>): (Ledger, Assertions) {
    if ops == [] then (map[], map[])
    else
      var (facts, assertions) := Run(h, ops[..|ops| - 1]);
      Step(h, facts, assertions, ops[|ops| - 1])
  }

  /** The keys that the operation hashes. */
  ghost predicate KeysIn(h: Hashing, op: Operation, keys: set<Key>) {
    match op
    case AddFact(q) => h.KeyOf(q.content.Trimmed()) in keys
    case IndexMemory(m) => ItemKeysIn(h, m, keys)
  }

  ghost predicate ItemKeysIn(h: Hashing, m: Schema.Envelope, keys: set<Key>) {
    forall i :: 0 <= i < |m.attributes.relations| ==>
      h.KeyOf(ItemContent(m, m.attributes.relations[i]).Trimmed()) in keys
  }

  /** No relation of the memory has the assertion of a fact. */
  ghost predicate ItemsElsewhere(h: Hashing, facts: Ledger, m: Schema.Envelope) {
    forall i, x :: 0 <= i < |m.attributes.relations| && x in facts ==>
      AssertionIdOf(h, facts[x]) != ItemRow(h, m, m.attributes.relations[i]).id
  }

  lemma ItemsKeepMirror(h: Hashing, facts: Ledger, assertions: Assertions, m: Schema.Envelope, n: nat)
    returns (rows: Assertions)
    requires ItemsElsewhere(h, facts, m) && Mirrors(h, facts, assertions) && n <= |m.attributes.relations|
    ensures rows == ItemsIndexed(h, assertions, m, n) && Mirrors(h, facts, rows)
  {
    rows := assertions;
    for i := 0 to n
      invariant rows == ItemsIndexed(h, assertions, m, i)
      invariant Mirrors(h, facts, rows)
    {
      NextIndexed(h, assertions, rows, m, i);
      rows := NextItem(h, facts, rows, m, i);
    }
  }

  lemma NextIndexed(h: Hashing, assertions: Assertions, rows: Assertions, m: Schema.Envelope, i: nat)
    requires i < |m.attributes.relations| && rows == ItemsIndexed(h, assertions, m, i)
    ensures ItemsIndexed(h, assertions, m, i + 1) == Inserted(rows, ItemRow(h, m, m.attributes.relations[i]))
  {
  }

  lemma NextItem(h: Hashing, facts: Ledger, rows: Assertions, m: Schema.Envelope, i: nat) returns (after: Assertions)
    requires ItemsElsewhere(h, facts, m) && Mirrors(h, facts, rows) && i < |m.attributes.relations|
    ensures after == Inserted(rows, ItemRow(h, m, m.attributes.relations[i])) && Mirrors(h, facts, after)
  {
    after := Inserted(rows, ItemRow(h, m, m.attributes.relations[i]));
    RelationAside(h, facts, rows, ItemRow(h, m, m.attributes.relations[i]));
  }

  /** Indexing any part of a memory's relations leaves the mirror exact. */
  lemma MemoryKeepsMirror(h: Hashing, keys: set<Key>, facts: Ledger, assertions: Assertions, m: Schema.Envelope, n: nat)
    requires CollisionFree(h, keys) && RowsIdentified(h, keys, facts) && ItemKeysIn(h, m, keys)
    requires Mirrors(h, facts, assertions) && n <= |m.attributes.relations|
    ensures Mirrors(h, facts, ItemsIndexed(h, assertions, m, n))
  {
    MemoryElsewhere(h, keys, facts, m);
    var rows := ItemsKeepMirror(h, facts, assertions, m, n);
  }

  lemma MemoryElsewhere(h: Hashing, keys: set<Key>, facts: Ledger, m: Schema.Envelope)
    requires CollisionFree(h, keys) && RowsIdentified(h, keys, facts) && ItemKeysIn(h, m, keys)
    ensures ItemsElsewhere(h, facts, m)
  {
    forall i | 0 <= i < |m.attributes.relations|
      ensures forall x :: x in facts ==> AssertionIdOf(h, facts[x]) != ItemRow(h, m, m.attributes.relations[i]).id
    {
      ItemElsewhere(h, keys, facts, ItemContent(m, m.attributes.relations[i]).Trimmed());
    }
  }

  lemma ItemElsewhere(h: Hashing, keys: set<Key>, facts: Ledger, c: Content)
    requires CollisionFree(h, keys) && RowsIdentified(h, keys, facts) && h.KeyOf(c) in keys
    ensures forall x :: x in facts ==> AssertionIdOf(h, facts[x]) != h.AssertionId(c, None)
  {
    forall x | x in facts ensures AssertionIdOf(h, facts[x]) != h.AssertionId(c, None) {
      assert Identified(h, keys, facts[x]);
      RelationElsewhere(h, keys, facts[x], c);
    }
  }

  /** What inserting an assertion that belongs to no fact and supersedes nothing does to each row. */
  lemma PlainRow(assertions: Assertions, row: Assertion, a: Id)
    requires row.supersedes == {}
    ensures var after := Inserted(assertions, row);
            && (a in after <==> a in assertions || a == row.id)
            && (a in after ==> after[a] == if a == row.id then row else assertions[a])
  {
  }

  lemma RelationAside(h: Hashing, facts: Ledger, assertions: Assertions, row: Assertion)
    requires Mirrors(h, facts, assertions) && row.factId == None && row.supersedes == {}
    requires forall x :: x in facts ==> AssertionIdOf(h, facts[x]) != row.id
    ensures Mirrors(h, facts, Inserted(assertions, row))
  {
    var after := Inserted(assertions, row);
    forall x | x in facts ensures MirrorsFact(h, facts, after, x) {
      assert MirrorsFact(h, facts, assertions, x);
      PlainRow(assertions, row, AssertionIdOf(h, facts[x]));
    }
    forall a | a in after && after[a].factId.Some?
      ensures after[a].factId.value in facts && a == AssertionIdOf(h, facts[after[a].factId.value])
    {
      PlainRow(assertions, row, a);
    }
  }

  /** A relation's assertion never takes the id of a fact's. */
  lemma RelationElsewhere(h: Hashing, keys: set<Key>, f: Fact, c: Content)
    requires CollisionFree(h, keys) && Identified(h, keys, f) && h.KeyOf(c) in keys
    ensures AssertionIdOf(h, f) != h.AssertionId(c, None)
  {
    assert AssertionIdOf(h, f)[3..] == h.assertionDigest(KeyOfFact(h, f), Some(f.id));
    assert h.AssertionId(c, None)[3..] == h.assertionDigest(h.KeyOf(c), None);
    assert FactIdAmong(h, keys, f.id);
    assert SlotAmong(h, keys, Some(f.id)) && SlotAmong(h, keys, None);
  }

  /** In every run of add_fact and memory indexing in which no fact lists itself, re-adds included, the graph
      mirrors the ledger after every step. */
  lemma {:induction false} EveryRunMirrors(h: Hashing, keys: set<Key>, ops: seq<Operation>)
    requires CollisionFree(h, keys)
    requires forall i :: 0 <= i < |ops| ==> KeysIn(h, ops[i], keys)
    requires forall i :: 0 <= i < |ops| && ops[i].AddFact? ==>
                           Record(h, ops[i].request).id !in ops[i].request.supersedes
    ensures var (facts, assertions) := Run(h, ops);
            RowsIdentified(h, keys, facts) && LinksOk(facts) && Mirrors(h, facts, assertions)
  {
    if ops != [] {
      EveryRunMirrors(h, keys, ops[..|ops| - 1]);
      var (facts, assertions) := Run(h, ops[..|ops| - 1]);
      MirrorStep(h, keys, facts, assertions, ops[|ops| - 1]);
    }
  }

  lemma MirrorStep(h: Hashing, keys: set<Key>, facts: Ledger, assertions: Assertions, op: Operation)
    requires CollisionFree(h, keys) && RowsIdentified(h, keys, facts) && LinksOk(facts)
    requires Mirrors(h, facts, assertions) && KeysIn(h, op, keys)
    requires op.AddFact? ==> Record(h, op.request).id !in op.request.supersedes
    ensures var (facts', assertions') := Step(h, facts, assertions, op);
            RowsIdentified(h, keys, facts') && LinksOk(facts') && Mirrors(h, facts', assertions')
  {
    match op {
      case IndexMemory(m) =>
        MemoryKeepsMirror(h, keys, facts, assertions, m, FirstIncomplete(m, 0));
      case AddFact(q) =>
        var f := Record(h, q);
        TrimTwice(q.content);
        AddKeepsLinks(facts, f);
        AddKeepsIdentities(h, keys, facts, f);
        MirrorStepIff(h, keys, facts, assertions, f);
    }
  }

  lemma AddKeepsIdentities(h: Hashing, keys: set<Key>, facts: Ledger, f: Fact)
    requires RowsIdentified(h, keys, facts) && Identified(h, keys, f)
    ensures RowsIdentified(h, keys, Added(facts, f))
  {
  }
}
