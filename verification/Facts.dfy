/** The fact ledger: an overwriting insert followed by a supersession loop, in one transaction. */
module Facts {
  import opened Wrappers
  import opened Text
  import opened Knowledge

  type Ledger = map<Id, Fact>

  datatype Conflict = Conflict(reason: string, createdAt: real)
  type Conflicts = map<(Id, Id), Conflict>

  datatype Request = Request(
    content: Content, scope: map<string, string>, confidence: real,
    supersedes: seq<Id>, reason: string, createdAt: real)

  function NonEmpty(ids: seq<Id>): (r: seq<Id>)
    ensures forall x :: x in r <==> x in ids && x != ""
  {
    if ids == [] then [] else (if ids[0] != "" then [ids[0]] else []) + NonEmpty(ids[1..])
  }

  /** Some listed id is not empty but nothing except whitespace. */
  predicate ListsBlank(ids: seq<Id>) { exists x :: x in ids && x != "" && Strip(x) == "" }

  function Record(h: Hashing, q: Request): Fact {
    var c := q.content.Trimmed();
    Fact(h.FactId(c), c, q.scope, Active, NonEmpty(q.supersedes), None, q.reason, Clamp(q.confidence), q.createdAt)
  }

  /** The rows after `f` was stored and every listed row was marked as superseded by it. */
  function Added(facts: Ledger, f: Fact): Ledger {
    Marked(facts[f.id := f], f.id, f.supersedes)
  }

  function Marked(facts: Ledger, id: Id, olds: seq<Id>): Ledger {
    map x | x in facts ::
      if x in olds then facts[x].(status := Superseded, supersededBy := Some(id)) else facts[x]
  }

  function WithConflicts(conflicts: Conflicts, f: Fact, olds: seq<Id>): Conflicts {
    conflicts + map x | x in olds :: (f.id, x) := Conflict(f.reason, f.createdAt)
  }

  lemma MarkOne(rows: Ledger, id: Id, olds: seq<Id>, x: Id)
    ensures var before := Marked(rows, id, olds);
            Marked(rows, id, olds + [x])
            == if x in rows then before[x := before[x].(status := Superseded, supersededBy := Some(id))] else before
  {
  }

  lemma ConflictOne(conflicts: Conflicts, f: Fact, olds: seq<Id>, x: Id)
    ensures WithConflicts(conflicts, f, olds + [x])
         == WithConflicts(conflicts, f, olds)[(f.id, x) := Conflict(f.reason, f.createdAt)]
  {
  }

  /** The supersession loop. It stops with `!ok` at the first reference that is only whitespace. */
  method SupersedeRows(rows: Ledger, conflicts: Conflicts, f: Fact) returns (ok: bool, r: Ledger, log: Conflicts)
    requires "" !in f.supersedes
    ensures ok <==> !ListsBlank(f.supersedes)
    ensures ok ==> r == Marked(rows, f.id, f.supersedes) && log == WithConflicts(conflicts, f, f.supersedes)
  {
    r, log, ok := rows, conflicts, true;
    for i := 0 to |f.supersedes|
      invariant r == Marked(rows, f.id, f.supersedes[..i])
      invariant log == WithConflicts(conflicts, f, f.supersedes[..i])
      invariant ok && forall x :: x in f.supersedes[..i] ==> Strip(x) != ""
    {
      var prior := f.supersedes[i];
      assert f.supersedes[..i + 1] == f.supersedes[..i] + [prior];
      MarkOne(rows, f.id, f.supersedes[..i], prior);
      ConflictOne(conflicts, f, f.supersedes[..i], prior);
      if prior in r {
        r := r[prior := r[prior].(status := Superseded, supersededBy := Some(f.id))];
      }
      log := log[(f.id, prior) := Conflict(f.reason, f.createdAt)];
      if Strip(prior) == "" {
        return false, r, log;
      }
    }
    assert f.supersedes[..|f.supersedes|] == f.supersedes;
  }

  lemma TrimTwice(c: Content)
    ensures c.Trimmed().Trimmed() == c.Trimmed()
  {
    StripStripped(c.subject);
    StripStripped(c.verb);
    StripStripped(c.target);
    StripStripped(c.source);
  }

  class FactLedger {
    const h: Hashing
    const knowledge: KnowledgeGraph
    var facts: Ledger
    var conflicts: Conflicts

    constructor (knowledge: KnowledgeGraph)
      ensures this.knowledge == knowledge && h == knowledge.h && facts == map[] && conflicts == map[]
    {
      this.knowledge, this.h := knowledge, knowledge.h;
      facts, conflicts := map[], map[];
    }

    /** A reference that is whitespace only is refused by the relation index inside the loop, which abandons
        the transaction: the ledger is then unchanged. */
    method AddFact(q: Request) returns (r: Result<Fact, IngestError>)
      requires h == knowledge.h
      modifies this, knowledge
      ensures r == Failure(MissingField) <==>
                || Strip(q.content.subject) == "" || Strip(q.content.verb) == "" || Strip(q.content.target) == ""
                || Strip(q.content.source) == ""
      ensures r == Failure(BlankReference) <==> q.content.Trimmed().Complete() && ListsBlank(q.supersedes)
      ensures r.Failure? ==> facts == old(facts) && conflicts == old(conflicts)
                             && knowledge.assertions == old(knowledge.assertions)
      ensures r.Success? ==>
                var f := Record(h, q);
                && facts == Added(old(facts), f) && conflicts == WithConflicts(old(conflicts), f, f.supersedes)
                && f.id in facts && r.value == facts[f.id]
                && (forall newer, older :: (newer, older) in conflicts <==>
                      (newer, older) in old(conflicts) || (newer == f.id && older in q.supersedes && older != ""))
                && (forall newer, older :: (newer, older) in conflicts ==>
                      conflicts[(newer, older)]
                      == if newer == f.id && older in q.supersedes && older != "" then Conflict(q.reason, q.createdAt)
                         else old(conflicts)[(newer, older)])
                && knowledge.assertions == FactIndexed(h, old(knowledge.assertions), facts[f.id])
    {
      var f := Record(h, q);
      if !f.content.Complete() {
        return Failure(MissingField);
      }
      TrimTwice(q.content);
      var ok := Insert(f);
      if !ok {
        return Failure(BlankReference);
      }
      r := Success(facts[f.id]);
    }

    /** The transaction, and the mirroring that follows its commit. */
    method Insert(f: Fact) returns (ok: bool)
      requires h == knowledge.h && f.content.Trimmed() == f.content && f.content.Complete() && "" !in f.supersedes
      modifies this, knowledge
      ensures ok <==> !ListsBlank(f.supersedes)
      ensures !ok ==> facts == old(facts) && conflicts == old(conflicts)
                      && knowledge.assertions == old(knowledge.assertions)
      ensures ok ==>
                && facts == Added(old(facts), f) && conflicts == WithConflicts(old(conflicts), f, f.supersedes)
                && f.id in facts
                && knowledge.assertions == FactIndexed(h, old(knowledge.assertions), facts[f.id])
    {
      var rows, log;
      ok, rows, log := SupersedeRows(facts[f.id := f], conflicts, f);
      if ok {
        facts, conflicts := rows, log;
        assert facts[f.id].content == f.content;
        var _ := knowledge.IndexFact(facts[f.id]);
      }
    }
  }

  // ---- following superseded_by ----

  /** The active fact reached from `x` by following superseded_by at most `n` times. */
  function Resolve(facts: Ledger, x: Id, n: nat): Option<Id>
    decreases n
  {
    if x !in facts then None
    else if facts[x].status == Active then Some(x)
    else if n == 0 || facts[x].supersededBy.None? then None
    else Resolve(facts, facts[x].supersededBy.value, n - 1)
  }

  /** Whether that walk meets one of `ids`, its end included. */
  predicate Meets(facts: Ledger, x: Id, n: nat, ids: set<Id>)
    decreases n
  {
    x in ids ||
    (x in facts && facts[x].status == Superseded && n > 0 && facts[x].supersededBy.Some?
     && Meets(facts, facts[x].supersededBy.value, n - 1, ids))
  }

  ghost predicate LinksOk(facts: Ledger) {
    forall x :: x in facts ==>
      && (facts[x].status == Superseded <==> facts[x].supersededBy.Some?)
      && (facts[x].supersededBy.Some? ==> facts[x].supersededBy.value in facts)
  }

  /** Every stored fact leads to an active one within `n` steps. */
  ghost predicate ResolvesWithin(facts: Ledger, n: nat) {
    forall x :: x in facts ==> Resolve(facts, x, n).Some?
  }

  ghost predicate LedgerOk(facts: Ledger) {
    LinksOk(facts) && exists n: nat :: ResolvesWithin(facts, n)
  }

  /** Where an older fact leads once `f` has been added: to `f` if its walk met `f` or a fact that `f` lists,
      and otherwise where it led before. */
  lemma {:induction false} ResolveAfterAdd(facts: Ledger, f: Fact, x: Id, n: nat)
    requires f.status == Active && f.supersededBy == None && f.id !in f.supersedes
    requires LinksOk(facts) && Resolve(facts, x, n).Some?
    ensures Resolve(Added(facts, f), x, n + 1)
         == if Meets(facts, x, n, {f.id} + set y | y in f.supersedes) then Some(f.id) else Resolve(facts, x, n)
    decreases n
  {
    var facts' := Added(facts, f);
    assert facts'[f.id] == f;
    if x != f.id && x !in f.supersedes {
      assert facts'[x] == facts[x];
      if facts[x].status == Superseded {
        ResolveAfterAdd(facts, f, facts[x].supersededBy.value, n - 1);
      }
    }
  }

  lemma {:induction false} ResolveLonger(facts: Ledger, x: Id, n: nat)
    requires Resolve(facts, x, n).Some?
    ensures Resolve(facts, x, n + 1) == Resolve(facts, x, n)
    decreases n
  {
    if facts[x].status == Superseded {
      ResolveLonger(facts, facts[x].supersededBy.value, n - 1);
    }
  }

  lemma AddKeepsLinks(facts: Ledger, f: Fact)
    requires LinksOk(facts) && f.status == Active && f.supersededBy == None
    ensures LinksOk(Added(facts, f))
  {
  }

  lemma AddResolves(facts: Ledger, f: Fact, n: nat)
    requires LinksOk(facts) && ResolvesWithin(facts, n)
    requires f.status == Active && f.supersededBy == None && f.id !in f.supersedes
    ensures ResolvesWithin(Added(facts, f), n + 1)
  {
    var facts' := Added(facts, f);
    assert facts'[f.id] == f;
    forall x | x in facts' ensures Resolve(facts', x, n + 1).Some? {
      if x in facts {
        ResolveAfterAdd(facts, f, x, n);
      }
    }
  }

  lemma {:induction false} SelfLoopNeverResolves(facts: Ledger, x: Id, n: nat)
    requires x in facts && facts[x].status == Superseded && facts[x].supersededBy == Some(x)
    ensures Resolve(facts, x, n) == None
  {
    if n > 0 {
      SelfLoopNeverResolves(facts, x, n - 1);
    }
  }

  /** Adding a fact, new or again, keeps the ledger well founded exactly when the fact does not list itself. */
  lemma AddKeepsLedgerIff(facts: Ledger, f: Fact)
    requires LedgerOk(facts) && f.status == Active && f.supersededBy == None
    ensures LedgerOk(Added(facts, f)) <==> f.id !in f.supersedes
  {
    var facts' := Added(facts, f);
    AddKeepsLinks(facts, f);
    if f.id !in f.supersedes {
      var n: nat :| ResolvesWithin(facts, n);
      AddResolves(facts, f, n);
    } else {
      forall n: nat ensures !ResolvesWithin(facts', n) {
        SelfLoopNeverResolves(facts', f.id, n);
      }
    }
  }

  /** The rows left by a run of add_fact calls on an empty ledger. */
  function History(h: Hashing, qs: seq<Request>): Ledger {
    if qs == [] then map[] else Added(History(h, qs[..|qs| - 1]), Record(h, qs[|qs| - 1]))
  }

  /** In every run, re-adds included, in which no fact lists itself: a fact is superseded exactly when it names
      a superseder, that superseder is stored, and the walk ends at an active fact after at most as many
      steps as there were calls. */
  lemma {:induction false} EveryRunResolves(h: Hashing, qs: seq<Request>)
    requires forall i :: 0 <= i < |qs| ==> Record(h, qs[i]).id !in qs[i].supersedes
    ensures LinksOk(History(h, qs)) && ResolvesWithin(History(h, qs), |qs|)
  {
    if qs != [] {
      var before := qs[..|qs| - 1];
      EveryRunResolves(h, before);
      AddKeepsLinks(History(h, before), Record(h, qs[|qs| - 1]));
      AddResolves(History(h, before), Record(h, qs[|qs| - 1]), |before|);
    }
  }
}
