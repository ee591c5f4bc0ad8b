/** What makes two facts or two assertions the same row, field by field, and what a run of add_fact therefore keeps. */
module Identity {
  import opened Wrappers
  import opened Text
  import opened Knowledge
  import opened Facts
  import opened Mirror
  import Schema

  /** The same subject, verb and target up to normalisation, from the same source, with the same validity bounds. */
  predicate SameIdentity(h: Hashing, c: Content, d: Content) {
    && h.norm(c.subject) == h.norm(d.subject) && h.norm(c.verb) == h.norm(d.verb)
    && h.norm(c.target) == h.norm(d.target)
    && c.source == d.source && c.validFrom == d.validFrom && c.validTo == d.validTo
  }

  /** What is hashed for the content is among the keys for which digests are known not to collide. */
  ghost predicate InUse(h: Hashing, keys: set<Key>, c: Content) {
    Key(h.norm(c.subject), h.norm(c.verb), h.norm(c.target), c.source, c.validFrom, c.validTo) in keys
  }

  /** Fact ids are equal exactly for the same identity. */
  lemma FactIdIff(h: Hashing, keys: set<Key>, c: Content, d: Content)
    requires CollisionFree(h, keys) && InUse(h, keys, c) && InUse(h, keys, d)
    ensures h.FactId(c) == h.FactId(d) <==> SameIdentity(h, c, d)
  {
    assert h.FactId(c)[5..] == h.factDigest(h.KeyOf(c)) && h.FactId(d)[5..] == h.factDigest(h.KeyOf(d));
  }

  /** Assertion ids are equal exactly for the same identity and the same fact, if any. */
  lemma AssertionIdIff(h: Hashing, keys: set<Key>, c: Content, x: Option<Id>, d: Content, y: Option<Id>)
    requires CollisionFree(h, keys) && InUse(h, keys, c) && InUse(h, keys, d)
    requires SlotAmong(h, keys, x) && SlotAmong(h, keys, y)
    ensures h.AssertionId(c, x) == h.AssertionId(d, y) <==> SameIdentity(h, c, d) && x == y
  {
    assert h.AssertionId(c, x)[3..] == h.assertionDigest(h.KeyOf(c), x);
    assert h.AssertionId(d, y)[3..] == h.assertionDigest(h.KeyOf(d), y);
  }

  // ---- runs of add_fact ----

  ghost predicate AllInUse(h: Hashing, keys: set<Key>, qs: seq<Request>) {
    forall i :: 0 <= i < |qs| ==> InUse(h, keys, qs[i].content.Trimmed())
  }

  function IdOf(h: Hashing, q: Request): Id { h.FactId(q.content.Trimmed()) }

  /** The row reports the request: its terms without the whitespace around them, its confidence between 0 and 1, its
      references without empty ones, and the rest as it was given. */
  ghost predicate Reports(f: Fact, q: Request) {
    && f.content.subject == Strip(q.content.subject) && f.content.verb == Strip(q.content.verb)
    && f.content.target == Strip(q.content.target) && f.content.source == Strip(q.content.source)
    && f.content.validFrom == q.content.validFrom && f.content.validTo == q.content.validTo
    && f.scope == q.scope && f.reason == q.reason && f.createdAt == q.createdAt
    && f.confidence == (if q.confidence <= 0.0 then 0.0 else if q.confidence >= 1.0 then 1.0 else q.confidence)
    && (forall x :: x in f.supersedes <==> x in q.supersedes && x != "")
  }

  /** References keep their order. */
  lemma {:induction false} ReferencesInOrder(a: seq<Id>, b: seq<Id>)
    ensures NonEmpty(a + b) == NonEmpty(a) + NonEmpty(b)
    ensures forall x :: x != "" ==> NonEmpty([x]) == [x]
  {
    if a == [] {
      assert a + b == b;
    } else {
      assert (a + b)[1..] == a[1..] + b;
      ReferencesInOrder(a[1..], b);
    }
    assert forall x: Id :: [x][1..] == [];
  }

  lemma RecordReports(h: Hashing, q: Request)
    ensures Reports(Record(h, q), q) && Record(h, q).id == IdOf(h, q) && Record(h, q).status == Active
  {
  }

  lemma HistorySnoc(h: Hashing, qs: seq<Request>, q: Request)
    ensures History(h, qs + [q]) == Added(History(h, qs), Record(h, q))
  {
    assert (qs + [q])[..|qs|] == qs;
  }

  lemma {:induction false} NeverAdded(h: Hashing, qs: seq<Request>, id: Id)
    requires forall i :: 0 <= i < |qs| ==> IdOf(h, qs[i]) != id
    ensures id !in History(h, qs)
  {
    if qs != [] {
      NeverAdded(h, qs[..|qs| - 1], id);
    }
  }

  lemma OtherId(h: Hashing, keys: set<Key>, q: Request, r: Request)
    requires CollisionFree(h, keys) && InUse(h, keys, q.content.Trimmed()) && InUse(h, keys, r.content.Trimmed())
    requires !SameIdentity(h, q.content.Trimmed(), r.content.Trimmed())
    ensures IdOf(h, q) != IdOf(h, r)
  {
    FactIdIff(h, keys, q.content.Trimmed(), r.content.Trimmed());
  }

  lemma NewRow(h: Hashing, facts: Ledger, q: Request)
    requires IdOf(h, q) !in facts
    ensures var after, id := Added(facts, Record(h, q)), IdOf(h, q);
            && after.Keys == facts.Keys + {id} && (id !in q.supersedes ==> after[id] == Record(h, q))
            && Reports(after[id], q)
            && forall x :: x in facts ==> after[x] == MarkedBy(q, id, x, facts[x])
  {
    RecordReports(h, q);
    AddedReports(facts, Record(h, q), IdOf(h, q), q);
  }

  /** The row of `x`, superseded if the request lists it. */
  function MarkedBy(q: Request, id: Id, x: Id, row: Fact): Fact {
    if x in q.supersedes && x != "" then row.(status := Superseded, supersededBy := Some(id)) else row
  }

  /** A fact whose identity no earlier request of the run had is one row more. Every earlier row stays: as it was, or
      marked as superseded by the new one if that lists it. */
  lemma NewIdentityKeepsRows(h: Hashing, keys: set<Key>, qs: seq<Request>, q: Request)
    requires CollisionFree(h, keys) && AllInUse(h, keys, qs) && InUse(h, keys, q.content.Trimmed())
    requires forall i :: 0 <= i < |qs| ==> !SameIdentity(h, qs[i].content.Trimmed(), q.content.Trimmed())
    ensures var before, after, id := History(h, qs), History(h, qs + [q]), IdOf(h, q);
            && id !in before && after.Keys == before.Keys + {id} && Reports(after[id], q)
            && forall x :: x in before ==> after[x] == MarkedBy(q, id, x, before[x])
  {
    HistorySnoc(h, qs, q);
    forall i | 0 <= i < |qs| ensures IdOf(h, qs[i]) != IdOf(h, q) {
      OtherId(h, keys, qs[i], q);
    }
    NeverAdded(h, qs, IdOf(h, q));
    NewRow(h, History(h, qs), q);
  }

  /** Marking rows changes their status and superseder only. */
  lemma AddedFields(facts: Ledger, f: Fact, x: Id)
    requires x in Added(facts, f)
    ensures var before := if x == f.id then f else facts[x];
            Added(facts, f)[x] == before.(status := Added(facts, f)[x].status,
                                          supersededBy := Added(facts, f)[x].supersededBy)
  {
  }

  lemma AddedReports(facts: Ledger, f: Fact, x: Id, q: Request)
    requires x in Added(facts, f) && Reports(if x == f.id then f else facts[x], q)
    ensures Reports(Added(facts, f)[x], q)
  {
    AddedFields(facts, f, x);
  }

  lemma {:induction false} LastOfIdIsReported(h: Hashing, qs: seq<Request>, i: nat)
    requires i < |qs| && forall j :: i < j < |qs| ==> IdOf(h, qs[j]) != IdOf(h, qs[i])
    ensures IdOf(h, qs[i]) in History(h, qs) && Reports(History(h, qs)[IdOf(h, qs[i])], qs[i])
  {
    var n := |qs| - 1;
    if i < n {
      assert qs[..n][i] == qs[i];
      LastOfIdIsReported(h, qs[..n], i);
      OtherReported(History(h, qs[..n]), Record(h, qs[n]), IdOf(h, qs[i]), qs[i]);
    } else {
      NewReported(h, History(h, qs[..n]), qs[n]);
    }
  }

  lemma OtherReported(facts: Ledger, f: Fact, x: Id, q: Request)
    requires x in facts && x != f.id && Reports(facts[x], q)
    ensures x in Added(facts, f) && Reports(Added(facts, f)[x], q)
  {
    AddedReports(facts, f, x, q);
  }

  lemma NewReported(h: Hashing, facts: Ledger, q: Request)
    ensures var after := Added(facts, Record(h, q)); IdOf(h, q) in after && Reports(after[IdOf(h, q)], q)
  {
    RecordReports(h, q);
    AddedReports(facts, Record(h, q), IdOf(h, q), q);
  }

  /** Of the requests with one identity the ledger reports the last. */
  lemma LastRequestIsReported(h: Hashing, keys: set<Key>, qs: seq<Request>, i: nat)
    requires CollisionFree(h, keys) && AllInUse(h, keys, qs) && i < |qs|
    requires forall j :: i < j < |qs| ==> !SameIdentity(h, qs[j].content.Trimmed(), qs[i].content.Trimmed())
    ensures IdOf(h, qs[i]) in History(h, qs) && Reports(History(h, qs)[IdOf(h, qs[i])], qs[i])
  {
    forall j | i < j < |qs| ensures IdOf(h, qs[j]) != IdOf(h, qs[i]) {
      OtherId(h, keys, qs[j], qs[i]);
    }
    LastOfIdIsReported(h, qs, i);
  }

  // ---- what an assertion carries ----

  /** The row differs from `before` at most in its status and its superseder. */
  ghost predicate SameButStatus(after: Assertion, before: Assertion) {
    after == before.(status := after.status, supersededBy := after.supersededBy)
  }

  /** The fact's assertion has its content, scope, creation time, confidence and reason. */
  ghost predicate CarriesFact(h: Hashing, assertions: Assertions, f: Fact) {
    var a := AssertionIdOf(h, f);
    && a in assertions && assertions[a].content == f.content.Trimmed() && assertions[a].factId == Some(f.id)
    && assertions[a].scope == f.scope && assertions[a].observedAt == f.createdAt
    && assertions[a].confidence == Clamp(f.confidence)
    && assertions[a].reason == if f.reason == "" then "fact_ledger" else f.reason
  }

  ghost predicate CarriesAll(h: Hashing, facts: Ledger, assertions: Assertions) {
    forall x :: x in facts ==> CarriesFact(h, assertions, facts[x])
  }

  lemma InsertedRow(assertions: Assertions, row: Assertion, a: Id)
    requires a in assertions || a == row.id
    ensures var after := Inserted(assertions, row);
            a in after && SameButStatus(after[a], if a == row.id then row else assertions[a])
  {
  }

  lemma OtherStillCarried(h: Hashing, assertions: Assertions, row: Assertion, f: Fact)
    requires CarriesFact(h, assertions, f) && row.id != AssertionIdOf(h, f)
    ensures CarriesFact(h, Inserted(assertions, row), f)
  {
    InsertedRow(assertions, row, AssertionIdOf(h, f));
  }

  lemma OwnIsCarried(h: Hashing, assertions: Assertions, f: Fact)
    ensures CarriesFact(h, FactIndexed(h, assertions, f), f)
  {
    InsertedRow(assertions, FactRow(h, assertions, f), AssertionIdOf(h, f));
  }

  lemma AddFactCarries(h: Hashing, keys: set<Key>, facts: Ledger, assertions: Assertions, f: Fact)
    requires CollisionFree(h, keys) && RowsIdentified(h, keys, facts) && Identified(h, keys, f)
    requires CarriesAll(h, facts, assertions)
    ensures f.id in Added(facts, f)
    ensures CarriesAll(h, Added(facts, f), FactIndexed(h, assertions, Added(facts, f)[f.id]))
  {
    var facts' := Added(facts, f);
    var g := facts'[f.id];
    forall x | x in facts' ensures CarriesFact(h, FactIndexed(h, assertions, g), facts'[x]) {
      AddedFields(facts, f, x);
      AddedFields(facts, f, f.id);
      if x == f.id {
        OwnIsCarried(h, assertions, g);
      } else {
        SameAssertion(h, keys, facts, f, x);
        assert CarriesFact(h, assertions, facts[x]);
        OtherStillCarried(h, assertions, FactRow(h, assertions, g), facts'[x]);
      }
    }
  }

  lemma NextItemCarries(h: Hashing, facts: Ledger, rows: Assertions, m: Schema.Envelope, i: nat)
    returns (after: Assertions)
    requires ItemsElsewhere(h, facts, m) && CarriesAll(h, facts, rows) && i < |m.attributes.relations|
    ensures after == Inserted(rows, ItemRow(h, m, m.attributes.relations[i])) && CarriesAll(h, facts, after)
  {
    after := Inserted(rows, ItemRow(h, m, m.attributes.relations[i]));
    AllStillCarried(h, facts, rows, ItemRow(h, m, m.attributes.relations[i]));
  }

  lemma ItemsCarry(h: Hashing, facts: Ledger, assertions: Assertions, m: Schema.Envelope, n: nat)
    returns (rows: Assertions)
    requires ItemsElsewhere(h, facts, m) && CarriesAll(h, facts, assertions) && n <= |m.attributes.relations|
    ensures rows == ItemsIndexed(h, assertions, m, n) && CarriesAll(h, facts, rows)
  {
    rows := assertions;
    for i := 0 to n
      invariant rows == ItemsIndexed(h, assertions, m, i)
      invariant CarriesAll(h, facts, rows)
    {
      NextIndexed(h, assertions, rows, m, i);
      rows := NextItemCarries(h, facts, rows, m, i);
    }
  }

  lemma AllStillCarried(h: Hashing, facts: Ledger, assertions: Assertions, row: Assertion)
    requires CarriesAll(h, facts, assertions) && forall x :: x in facts ==> AssertionIdOf(h, facts[x]) != row.id
    ensures CarriesAll(h, facts, Inserted(assertions, row))
  {
    forall x | x in facts ensures CarriesFact(h, Inserted(assertions, row), facts[x]) {
      OtherStillCarried(h, assertions, row, facts[x]);
    }
  }

  /** After every run of add_fact and memory indexing, self-listings and re-adds included, the assertion of every stored
      fact carries what the fact says. */
  lemma {:induction false} EveryRunCarries(h: Hashing, keys: set<Key>, ops: seq<Operation>)
    requires CollisionFree(h, keys) && forall i :: 0 <= i < |ops| ==> KeysIn(h, ops[i], keys)
    ensures var (facts, assertions) := Mirror.Run(h, ops);
            RowsIdentified(h, keys, facts) && CarriesAll(h, facts, assertions)
  {
    if ops != [] {
      var op := ops[|ops| - 1];
      EveryRunCarries(h, keys, ops[..|ops| - 1]);
      var (facts, assertions) := Mirror.Run(h, ops[..|ops| - 1]);
      match op {
        case IndexMemory(m) =>
          MemoryElsewhere(h, keys, facts, m);
          var rows := ItemsCarry(h, facts, assertions, m, FirstIncomplete(m, 0));
        case AddFact(q) =>
          var f := Record(h, q);
          TrimTwice(q.content);
          AddKeepsIdentities(h, keys, facts, f);
          AddFactCarries(h, keys, facts, assertions, f);
      }
    }
  }

  /** What the assertion of a relation says. */
  ghost predicate CarriesItem(row: Assertion, m: Schema.Envelope, item: Schema.RelationItem) {
    && row.content.subject == Strip(item.subject) && row.content.verb == Strip(item.verb)
    && row.content.target == Strip(item.target) && row.content.source == Strip(m.id)
    && row.content.validFrom == item.validFrom && row.content.validTo == item.validTo
    && row.factId == None && row.scope == m.attributes.scope && row.observedAt == m.createdAt
    && row.confidence == Clamp(if item.confidence.Some? then item.confidence.value else m.attributes.confidence)
    && row.status == Active && row.reason == "memory_relation" && row.supersedes == {}
  }

  function ItemId(h: Hashing, m: Schema.Envelope, i: nat): Id
    requires i < |m.attributes.relations|
  {
    h.AssertionId(ItemContent(m, m.attributes.relations[i]).Trimmed(), None)
  }

  /** The row under the id is the assertion of the relation. */
  ghost predicate CarriedAt(rows: Assertions, id: Id, m: Schema.Envelope, item: Schema.RelationItem) {
    id in rows && CarriesItem(rows[id], m, item)
  }

  lemma OwnIsCarriedAt(h: Hashing, before: Assertions, m: Schema.Envelope, item: Schema.RelationItem)
    returns (rows: Assertions)
    ensures rows == Inserted(before, ItemRow(h, m, item)) && CarriedAt(rows, ItemRow(h, m, item).id, m, item)
  {
    rows := Inserted(before, ItemRow(h, m, item));
    PlainRow(before, ItemRow(h, m, item), ItemRow(h, m, item).id);
  }

  lemma OtherIsCarriedAt(before: Assertions, row: Assertion, id: Id, m: Schema.Envelope, item: Schema.RelationItem)
    returns (rows: Assertions)
    requires row.supersedes == {} && row.id != id && CarriedAt(before, id, m, item)
    ensures rows == Inserted(before, row) && CarriedAt(rows, id, m, item)
  {
    rows := Inserted(before, row);
    PlainRow(before, row, id);
  }

  lemma OwnItemIsCarried(h: Hashing, assertions: Assertions, m: Schema.Envelope, i: nat) returns (rows: Assertions)
    requires i < |m.attributes.relations|
    ensures rows == ItemsIndexed(h, assertions, m, i + 1)
    ensures CarriedAt(rows, ItemRow(h, m, m.attributes.relations[i]).id, m, m.attributes.relations[i])
  {
    var before := ItemsIndexed(h, assertions, m, i);
    NextIndexed(h, assertions, before, m, i);
    rows := OwnIsCarriedAt(h, before, m, m.attributes.relations[i]);
  }

  lemma NextItemStays(h: Hashing, assertions: Assertions, before: Assertions, m: Schema.Envelope, k: nat, id: Id,
                      item: Schema.RelationItem) returns (rows: Assertions)
    requires k < |m.attributes.relations| && ItemRow(h, m, m.attributes.relations[k]).id != id
    requires before == ItemsIndexed(h, assertions, m, k) && CarriedAt(before, id, m, item)
    ensures rows == ItemsIndexed(h, assertions, m, k + 1) && CarriedAt(rows, id, m, item)
  {
    NextIndexed(h, assertions, before, m, k);
    rows := OtherIsCarriedAt(before, ItemRow(h, m, m.attributes.relations[k]), id, m, item);
  }

  lemma {:induction false} LastItemIsCarried(h: Hashing, assertions: Assertions, m: Schema.Envelope, n: nat, i: nat,
                                             id: Id) returns (rows: Assertions)
    requires i < n <= |m.attributes.relations| && id == ItemRow(h, m, m.attributes.relations[i]).id
    requires forall j :: i < j < n ==> ItemRow(h, m, m.attributes.relations[j]).id != id
    ensures rows == ItemsIndexed(h, assertions, m, n) && CarriedAt(rows, id, m, m.attributes.relations[i])
  {
    if n == i + 1 {
      rows := OwnItemIsCarried(h, assertions, m, i);
    } else {
      var before := LastItemIsCarried(h, assertions, m, n - 1, i, id);
      rows := NextItemStays(h, assertions, before, m, n - 1, id, m.attributes.relations[i]);
    }
  }

  /** After indexing the first `n` relations of a memory, each has its assertion, unless a later one of the same
      identity took its place. */
  lemma ItemIsCarried(h: Hashing, keys: set<Key>, assertions: Assertions, m: Schema.Envelope, n: nat, i: nat)
    requires CollisionFree(h, keys) && i < n <= |m.attributes.relations|
    requires forall j :: 0 <= j < n ==> InUse(h, keys, ItemContent(m, m.attributes.relations[j]).Trimmed())
    requires forall j :: i < j < n ==>
               !SameIdentity(h, ItemContent(m, m.attributes.relations[j]).Trimmed(),
                             ItemContent(m, m.attributes.relations[i]).Trimmed())
    ensures CarriedAt(ItemsIndexed(h, assertions, m, n), ItemId(h, m, i), m, m.attributes.relations[i])
  {
    forall j | i < j < n ensures ItemId(h, m, j) != ItemId(h, m, i) {
      AssertionIdIff(h, keys, ItemContent(m, m.attributes.relations[j]).Trimmed(), None,
                     ItemContent(m, m.attributes.relations[i]).Trimmed(), None);
    }
    assert forall j :: 0 <= j < n ==> ItemRow(h, m, m.attributes.relations[j]).id == ItemId(h, m, j);
    var rows := LastItemIsCarried(h, assertions, m, n, i, ItemId(h, m, i));
  }
}
