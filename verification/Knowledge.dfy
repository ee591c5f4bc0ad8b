/** The knowledge graph's assertion table. */
module Knowledge {
  import opened Wrappers
  import opened Text
  import Schema

  type Id = string

  datatype Status = Active | Superseded

  /** What a fact or a relation says, with the fields that enter its identity. */
  datatype Content = Content(
    subject: string, verb: string, target: string, source: string,
    validFrom: Option<real>, validTo: Option<real>)
  {
    predicate Complete() { subject != "" && verb != "" && target != "" && source != "" }

    function Trimmed(): Content {
      this.(subject := Strip(subject), verb := Strip(verb), target := Strip(target), source := Strip(source))
    }
  }

  /** The material hashed into an id: the content with its three terms normalised. */
  datatype Key = Key(
    subject: string, verb: string, target: string, source: string,
    validFrom: Option<real>, validTo: Option<real>)

  /** Lower-casing with whitespace folding, and the truncated SHA-256 digests, are parameters. */
  datatype Hashing = Hashing(norm: string -> string, factDigest: Key -> string,
                             assertionDigest: (Key, Option<Id>) -> string)
  {
    function KeyOf(c: Content): Key {
      Key(norm(c.subject), norm(c.verb), norm(c.target), c.source, c.validFrom, c.validTo)
    }

    function FactId(c: Content): (id: Id)
      ensures id != ""
    {
      "fact_" + factDigest(KeyOf(c))
    }

    function AssertionId(c: Content, factId: Option<Id>): (id: Id)
      ensures id != ""
    {
      "kg_" + assertionDigest(KeyOf(c), factId)
    }
  }

  datatype Fact = Fact(
    id: Id, content: Content, scope: map<string, string>, status: Status, supersedes: seq<Id>,
    supersededBy: Option<Id>, reason: string, confidence: real, createdAt: real)

  /** The superseded assertion ids are kept as a set; their order by observation time is not modelled. */
  datatype Assertion = Assertion(
    id: Id, content: Content, factId: Option<Id>, scope: map<string, string>, observedAt: real, confidence: real,
    status: Status, reason: string, supersedes: set<Id>, supersededBy: Option<Id>)

  type Assertions = map<Id, Assertion>

  datatype IngestError = MissingField | BlankReference

  function AssertionsFor(assertions: Assertions, factIds: set<Id>): set<Id> {
    set a | a in assertions && assertions[a].factId.Some? && assertions[a].factId.value in factIds - {""}
  }

  /** One UPDATE per listed id; ids without a row change nothing. */
  function SupersedeAll(assertions: Assertions, newer: Id, olds: set<Id>): Assertions {
    map a | a in assertions ::
      if a in olds then assertions[a].(status := Superseded, supersededBy := Some(newer)) else assertions[a]
  }

  function NewAssertion(h: Hashing, c: Content, factId: Option<Id>, scope: map<string, string>, observedAt: real,
                        confidence: real, status: Status, reason: string, supersedes: set<Id>): Assertion {
    Assertion(h.AssertionId(c, factId), c, factId, scope, observedAt, Clamp(confidence),
              status, reason, supersedes - {""}, None)
  }

  /** The table after `row` replaced any row of its id and then superseded what it lists. */
  function Inserted(assertions: Assertions, row: Assertion): Assertions {
    SupersedeAll(assertions[row.id := row], row.id, row.supersedes)
  }

  function FactRow(h: Hashing, assertions: Assertions, f: Fact): Assertion {
    NewAssertion(h, f.content.Trimmed(), Some(f.id), f.scope, f.createdAt, f.confidence, f.status,
                 if f.reason != "" then f.reason else "fact_ledger",
                 AssertionsFor(assertions, set x | x in f.supersedes))
  }

  function FactIndexed(h: Hashing, assertions: Assertions, f: Fact): Assertions {
    Inserted(assertions, FactRow(h, assertions, f))
  }

  // ---- the relations of a memory ----

  function ItemContent(m: Schema.Envelope, item: Schema.RelationItem): Content {
    Content(item.subject, item.verb, item.target, m.id, item.validFrom, item.validTo)
  }

  /** The three terms and the memory's id are not blank. */
  predicate ItemComplete(m: Schema.Envelope, item: Schema.RelationItem) { ItemContent(m, item).Trimmed().Complete() }

  function ItemRow(h: Hashing, m: Schema.Envelope, item: Schema.RelationItem): Assertion {
    NewAssertion(h, ItemContent(m, item).Trimmed(), None, m.attributes.scope, m.createdAt, m.ConfidenceOf(item),
                 Active, "memory_relation", {})
  }

  /** The table after the first `n` relations. */
  function ItemsIndexed(h: Hashing, assertions: Assertions, m: Schema.Envelope, n: nat): Assertions
    requires n <= |m.attributes.relations|
  {
    if n == 0 then assertions
    else Inserted(ItemsIndexed(h, assertions, m, n - 1), ItemRow(h, m, m.attributes.relations[n - 1]))
  }

  /** Index of the first incomplete relation from `i` on, or the number of relations. */
  function FirstIncomplete(m: Schema.Envelope, i: nat): (n: nat)
    requires i <= |m.attributes.relations|
    ensures i <= n <= |m.attributes.relations|
    ensures forall j :: i <= j < n ==> ItemComplete(m, m.attributes.relations[j])
    ensures n < |m.attributes.relations| ==> !ItemComplete(m, m.attributes.relations[n])
    decreases |m.attributes.relations| - i
  {
    if i == |m.attributes.relations| || !ItemComplete(m, m.attributes.relations[i]) then i
    else FirstIncomplete(m, i + 1)
  }

  /** The first `i` relations are complete, and `rows` is the table after them. */
  ghost predicate IndexedUpTo(h: Hashing, before: Assertions, rows: Assertions, m: Schema.Envelope, i: nat)
    requires i <= |m.attributes.relations|
  {
    rows == ItemsIndexed(h, before, m, i) && FirstIncomplete(m, 0) == FirstIncomplete(m, i)
  }

  lemma IndexedNext(h: Hashing, before: Assertions, rows: Assertions, m: Schema.Envelope, i: nat)
    requires i < |m.attributes.relations| && IndexedUpTo(h, before, rows, m, i)
    ensures var item := m.attributes.relations[i];
            if ItemComplete(m, item) then IndexedUpTo(h, before, Inserted(rows, ItemRow(h, m, item)), m, i + 1)
            else FirstIncomplete(m, 0) == i
  {
  }

  lemma SupersedeOne(rows: Assertions, newer: Id, done: set<Id>, a: Id)
    ensures var before := SupersedeAll(rows, newer, done);
            SupersedeAll(rows, newer, done + {a})
            == if a in rows then before[a := before[a].(status := Superseded, supersededBy := Some(newer))] else before
  {
  }

  /** The loop of UPDATE statements. */
  method SupersedeListed(rows: Assertions, newer: Id, olds: set<Id>) returns (r: Assertions)
    ensures r == SupersedeAll(rows, newer, olds)
  {
    r := rows;
    var rest := olds;
    while rest != {}
      invariant rest <= olds
      invariant r == SupersedeAll(rows, newer, olds - rest)
    {
      var a :| a in rest;
      SupersedeOne(rows, newer, olds - rest, a);
      assert olds - (rest - {a}) == olds - rest + {a};
      if a in r {
        r := r[a := r[a].(status := Superseded, supersededBy := Some(newer))];
      }
      rest := rest - {a};
    }
    assert olds - {} == olds;
  }

  class KnowledgeGraph {
    const h: Hashing
    var assertions: Assertions

    constructor (h: Hashing)
      ensures this.h == h && assertions == map[]
    {
      this.h := h;
      assertions := map[];
    }

    method Clear()
      modifies this
      ensures assertions == map[]
    {
      assertions := map[];
    }

    method AddAssertion(content: Content, factId: Option<Id>, scope: map<string, string>, observedAt: real,
                        confidence: real, status: Status, reason: string, supersedes: set<Id>)
      returns (r: Result<Assertion, IngestError>)
      modifies this
      ensures r.Failure? <==>
                || Strip(content.subject) == "" || Strip(content.verb) == "" || Strip(content.target) == ""
                || Strip(content.source) == ""
      ensures r.Failure? ==> assertions == old(assertions)
      ensures r.Success? ==>
                var row := NewAssertion(h, content.Trimmed(), factId, scope, observedAt, confidence,
                                        status, reason, supersedes);
                && assertions == Inserted(old(assertions), row)
                && row.id in assertions && r.value == assertions[row.id]
    {
      var c := content.Trimmed();
      if !c.Complete() {
        return Failure(MissingField);
      }
      var row := NewAssertion(h, c, factId, scope, observedAt, confidence, status, reason, supersedes);
      assertions := SupersedeListed(assertions[row.id := row], row.id, row.supersedes);
      r := Success(assertions[row.id]);
    }

    method IndexItem(m: Schema.Envelope, item: Schema.RelationItem) returns (ok: bool)
      modifies this
      ensures ok <==> ItemComplete(m, item)
      ensures assertions == if ok then Inserted(old(assertions), ItemRow(h, m, item)) else old(assertions)
    {
      var r := AddAssertion(ItemContent(m, item), None, m.attributes.scope, m.createdAt, m.ConfidenceOf(item),
                            Active, "memory_relation", {});
      ok := r.Success?;
    }

    /** Stops at the first incomplete relation; the ones before it stay indexed. */
    method IndexMemory(m: Schema.Envelope) returns (ok: bool)
      modifies this
      ensures ok <==> FirstIncomplete(m, 0) == |m.attributes.relations|
      ensures assertions == ItemsIndexed(h, old(assertions), m, FirstIncomplete(m, 0))
    {
      ghost var before := assertions;
      for i := 0 to |m.attributes.relations|
        invariant IndexedUpTo(h, before, assertions, m, i)
      {
        IndexedNext(h, before, assertions, m, i);
        ok := IndexItem(m, m.attributes.relations[i]);
        if !ok {
          return;
        }
      }
      ok := true;
    }

    method IndexFact(f: Fact) returns (r: Result<Assertion, IngestError>)
      modifies this
      ensures r.Failure? <==> !f.content.Trimmed().Complete()
      ensures assertions == if r.Success? then FactIndexed(h, old(assertions), f) else old(assertions)
    {
      var supersedes := AssertionsFor(assertions, set x | x in f.supersedes);
      r := AddAssertion(f.content, Some(f.id), f.scope, f.createdAt, f.confidence, f.status,
                        if f.reason != "" then f.reason else "fact_ledger", supersedes);
    }
  }
}
