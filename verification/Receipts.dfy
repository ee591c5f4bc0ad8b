/** The hash-chained audit log of destructive actions. */
module Receipts {
  import opened Wrappers

  datatype Receipt = Receipt(
    id: string, tenant: string, action: string, subject: string, reason: string,
    prev: string, hash: string, createdAt: int)

  /** SHA-256 rendered in hex, and the RFC 3339 rendering of an instant in UTC. */
  datatype Digest = Digest(sha: string -> string, stamp: int -> string) {
    ghost predicate Valid() {
      && (forall s :: sha(s) != "" && '|' !in sha(s))
      && (forall t :: '|' !in stamp(t))
      && (forall t, u :: stamp(t) == stamp(u) ==> t == u)
    }

    function Preimage(r: Receipt): string {
      r.prev + "|" + r.tenant + "|" + r.action + "|" + r.subject + "|" + r.reason + "|" + stamp(r.createdAt)
    }

    function HashOf(r: Receipt): string { sha(Preimage(r)) }

    function New(prev: string, tenant: string, action: string, subject: string, reason: string,
                 id: string, now: int): (r: Receipt)
      ensures r.hash == HashOf(r) && r.prev == prev && r.id == id && r.createdAt == now
      ensures r.tenant == tenant && r.action == action && r.subject == subject && r.reason == reason
    {
      var r := Receipt(id, tenant, action, subject, reason, prev, "", now);
      r.(hash := HashOf(r))
    }
  }

  datatype Problem = ChainBreak(index: nat) | HashMismatch(index: nat)

  function PrevOf(receipts: seq<Receipt>, i: nat): string
    requires i <= |receipts|
  {
    if i == 0 then "" else receipts[i - 1].hash
  }

  /** What Verify finds at one position. */
  function ProblemAt(d: Digest, receipts: seq<Receipt>, i: nat): Option<Problem>
    requires i < |receipts|
  {
    if receipts[i].prev != PrevOf(receipts, i) then Some(ChainBreak(i))
    else if d.HashOf(receipts[i]) != receipts[i].hash then Some(HashMismatch(i))
    else None
  }

  ghost predicate ChainOk(d: Digest, receipts: seq<Receipt>) {
    forall i :: 0 <= i < |receipts| ==> ProblemAt(d, receipts, i).None?
  }

  /** The receipt names the hash before it, and its own is that of its fields with separators between them. */
  ghost predicate Linked(d: Digest, r: Receipt, before: string) {
    && r.prev == before
    && r.hash == d.sha(r.prev + "|" + r.tenant + "|" + r.action + "|" + r.subject + "|" + r.reason + "|"
                       + d.stamp(r.createdAt))
  }

  lemma ChainIsLinked(d: Digest, receipts: seq<Receipt>)
    ensures ChainOk(d, receipts) <==>
              forall i :: 0 <= i < |receipts| ==>
                Linked(d, receipts[i], if i == 0 then "" else receipts[i - 1].hash)
  {
    forall i | 0 <= i < |receipts|
      ensures ProblemAt(d, receipts, i).None?
              <==> Linked(d, receipts[i], if i == 0 then "" else receipts[i - 1].hash)
    {
    }
  }

  class ReceiptLog {
    const d: Digest
    var last: string
    var receipts: seq<Receipt>

    ghost predicate Valid()
      reads this
    {
      ChainOk(d, receipts) && last == PrevOf(receipts, |receipts|)
    }

    constructor (d: Digest)
      ensures this.d == d && receipts == [] && Valid()
    {
      this.d := d;
      last, receipts := "", [];
    }

    /** `stored` is whether persisting the receipt succeeded; a failure leaves the chain as it was. */
    method Append(tenant: string, action: string, subject: string, reason: string, id: string, now: int, stored: bool)
      returns (r: Option<Receipt>)
      requires Valid()
      modifies this
      ensures Valid()
      ensures r.Some? <==> stored
      ensures r.None? ==> receipts == old(receipts) && last == old(last)
      ensures r.Some? ==>
                && r.value == d.New(old(last), tenant, action, subject, reason, id, now)
                && receipts == old(receipts) + [r.value] && last == r.value.hash
    {
      var receipt := d.New(last, tenant, action, subject, reason, id, now);
      if !stored {
        return None;
      }
      ghost var before := receipts;
      receipts := receipts + [receipt];
      last := receipt.hash;
      forall i | 0 <= i < |receipts| ensures ProblemAt(d, receipts, i).None? {
        assert i < |before| ==> ProblemAt(d, before, i).None?;
      }
      r := Some(receipt);
    }

    /** Reports the first position at which the chain is broken or a hash does not match. */
    method Verify() returns (problem: Option<Problem>)
      ensures problem.None? <==> ChainOk(d, receipts)
      ensures problem.None? <==>
                forall i :: 0 <= i < |receipts| ==>
                  Linked(d, receipts[i], if i == 0 then "" else receipts[i - 1].hash)
      ensures problem.Some? ==>
                && problem.value.index < |receipts| && ProblemAt(d, receipts, problem.value.index) == problem
                && forall j :: 0 <= j < problem.value.index ==> ProblemAt(d, receipts, j).None?
    {
      var prev := "";
      ChainIsLinked(d, receipts);
      for i := 0 to |receipts|
        invariant prev == PrevOf(receipts, i)
        invariant forall j :: 0 <= j < i ==> ProblemAt(d, receipts, j).None?
      {
        if receipts[i].prev != prev {
          assert ProblemAt(d, receipts, i).Some?;
          return Some(ChainBreak(i));
        }
        if d.HashOf(receipts[i]) != receipts[i].hash {
          assert ProblemAt(d, receipts, i).Some?;
          return Some(HashMismatch(i));
        }
        prev := receipts[i].hash;
      }
      problem := None;
    }
  }

  // ---- reading a preimage back ----

  lemma FirstPipe(s: string, a: string, k: nat)
    requires a <= s && '|' !in a && k < |s| && s[k] == '|'
    ensures |a| <= k
  {
    forall i | 0 <= i < |a| ensures s[i] != '|' {
      assert s[i] == a[i];
    }
  }

  lemma LastPipe(s: string, a: string, k: nat)
    requires |a| < |s| && s[|s| - |a|..] == a && '|' !in a && k < |s| && s[k] == '|'
    ensures k < |s| - |a|
  {
    forall i | |s| - |a| <= i < |s| ensures s[i] != '|' {
      assert s[i] == a[i - (|s| - |a|)];
    }
  }

  lemma CutFirst(a: string, x: string, b: string, y: string)
    requires a + "|" + x == b + "|" + y && '|' !in a && '|' !in b
    ensures a == b && x == y
  {
    var s := a + "|" + x;
    FirstPipe(s, a, |b|);
    FirstPipe(s, b, |a|);
    assert s[..|a|] == a && s[..|b|] == b;
    assert s[|a| + 1..] == x && s[|b| + 1..] == y;
  }

  lemma CutLast(x: string, a: string, y: string, b: string)
    requires x + "|" + a == y + "|" + b && '|' !in a && '|' !in b
    ensures a == b && x == y
  {
    var s := x + "|" + a;
    LastPipe(s, a, |y|);
    LastPipe(s, b, |x|);
    assert s[..|x|] == x && s[..|y|] == y;
    assert s[|x| + 1..] == a && s[|y| + 1..] == b;
  }

  /** Everything the hash covers; the receipt's id is not part of it. */
  predicate SameAction(r: Receipt, s: Receipt) {
    && r.tenant == s.tenant && r.action == s.action && r.subject == s.subject && r.reason == s.reason
    && r.createdAt == s.createdAt
  }

  predicate Clean(r: Receipt) { '|' !in r.tenant && '|' !in r.action && '|' !in r.subject }

  // The preimage, from each separator on.

  function AfterSubject(d: Digest, r: Receipt): string { r.reason + "|" + d.stamp(r.createdAt) }

  function AfterAction(d: Digest, r: Receipt): string { r.subject + "|" + AfterSubject(d, r) }

  function AfterTenant(d: Digest, r: Receipt): string { r.action + "|" + AfterAction(d, r) }

  function AfterPrev(d: Digest, r: Receipt): string { r.tenant + "|" + AfterTenant(d, r) }

  lemma Regroup(a: string, b: string, c: string)
    ensures a + "|" + b + "|" + c == a + "|" + (b + "|" + c)
  {
  }

  lemma PreimageNested(d: Digest, r: Receipt)
    ensures d.Preimage(r) == r.prev + "|" + AfterPrev(d, r)
  {
    var p1 := r.prev + "|" + r.tenant;
    var p2 := p1 + "|" + r.action;
    var p3 := p2 + "|" + r.subject;
    Regroup(p3, r.reason, d.stamp(r.createdAt));
    Regroup(p2, r.subject, AfterSubject(d, r));
    Regroup(p1, r.action, AfterAction(d, r));
    Regroup(r.prev, r.tenant, AfterTenant(d, r));
  }

  lemma PreimageReads(d: Digest, r: Receipt, s: Receipt)
    requires d.Valid() && Clean(r) && Clean(s) && '|' !in r.prev && '|' !in s.prev
    requires d.Preimage(r) == d.Preimage(s)
    ensures SameAction(r, s) && r.prev == s.prev
  {
    PreimageNested(d, r);
    PreimageNested(d, s);
    CutFirst(r.prev, AfterPrev(d, r), s.prev, AfterPrev(d, s));
    CutFirst(r.tenant, AfterTenant(d, r), s.tenant, AfterTenant(d, s));
    CutFirst(r.action, AfterAction(d, r), s.action, AfterAction(d, s));
    CutFirst(r.subject, AfterSubject(d, r), s.subject, AfterSubject(d, s));
    CutLast(r.reason, d.stamp(r.createdAt), s.reason, d.stamp(s.createdAt));
  }

  predicate IsCollision(d: Digest, c: (string, string)) { c.0 != c.1 && d.sha(c.0) == d.sha(c.1) }

  lemma PrevIsClean(d: Digest, receipts: seq<Receipt>, i: nat)
    requires d.Valid() && ChainOk(d, receipts) && i < |receipts|
    ensures '|' !in receipts[i].prev
    ensures receipts[i].prev == "" <==> i == 0
  {
    assert ProblemAt(d, receipts, i).None?;
    if i > 0 {
      assert ProblemAt(d, receipts, i - 1).None?;
    }
  }

  /** The last hash commits to the whole history: two verified logs that end in the same hash record the same
      actions at every position, or the proof hands over two different preimages with one hash. */
  lemma {:induction false} Commitment(d: Digest, a: seq<Receipt>, b: seq<Receipt>)
    returns (collision: Option<(string, string)>)
    requires d.Valid() && ChainOk(d, a) && ChainOk(d, b) && a != [] && b != []
    requires forall i :: 0 <= i < |a| ==> Clean(a[i])
    requires forall i :: 0 <= i < |b| ==> Clean(b[i])
    requires a[|a| - 1].hash == b[|b| - 1].hash
    ensures collision.Some? ==> IsCollision(d, collision.value)
    ensures collision.None? ==>
              |a| == |b| && forall i :: 0 <= i < |a| ==> SameAction(a[i], b[i]) && a[i].hash == b[i].hash
    decreases |a|
  {
    var m, n := |a| - 1, |b| - 1;
    assert ProblemAt(d, a, m).None? && ProblemAt(d, b, n).None?;
    if d.Preimage(a[m]) != d.Preimage(b[n]) {
      collision := Some((d.Preimage(a[m]), d.Preimage(b[n])));
    } else {
      PrevIsClean(d, a, m);
      PrevIsClean(d, b, n);
      PreimageReads(d, a[m], b[n]);
      if m == 0 {
        collision := None;
      } else {
        assert forall i :: 0 <= i < m ==> ProblemAt(d, a[..m], i) == ProblemAt(d, a, i);
        assert forall i :: 0 <= i < n ==> ProblemAt(d, b[..n], i) == ProblemAt(d, b, i);
        collision := Commitment(d, a[..m], b[..n]);
        assert collision.None? ==> forall i :: 0 <= i < m ==> SameAction(a[..m][i], b[..n][i]);
      }
    }
  }

  /** Changing any recorded action while the last hash stays the same makes Verify fail, or yields a collision. */
  lemma TamperingIsDetected(d: Digest, receipts: seq<Receipt>, i: nat, forged: Receipt)
    returns (collision: Option<(string, string)>)
    requires d.Valid() && ChainOk(d, receipts) && i < |receipts|
    requires Clean(forged) && forall j :: 0 <= j < |receipts| ==> Clean(receipts[j])
    requires !SameAction(forged, receipts[i])
    requires i == |receipts| - 1 ==> forged.hash == receipts[i].hash
    ensures collision.Some? ==> IsCollision(d, collision.value)
    ensures collision.None? ==> !ChainOk(d, receipts[i := forged])
  {
    var log := receipts[i := forged];
    assert log[i] == forged;
    collision := None;
    if ChainOk(d, log) {
      collision := Commitment(d, log, receipts);
    }
  }

  // ---- the separator ----

  /** A receipt's preimage can be read in only one way exactly when none of its four texts holds a '|'. */
  lemma UniqueReadingIff(d: Digest, r: Receipt)
    requires d.Valid() && '|' !in r.prev
    ensures (forall s: Receipt :: '|' !in s.prev && d.Preimage(s) == d.Preimage(r) ==> SameAction(s, r))
            <==> Clean(r) && '|' !in r.reason
  {
    if Clean(r) && '|' !in r.reason {
      forall s: Receipt | '|' !in s.prev && d.Preimage(s) == d.Preimage(r) ensures SameAction(s, r) {
        OneReading(d, r, s);
      }
    } else {
      var s := SecondReading(d, r);
    }
  }

  lemma OneReading(d: Digest, r: Receipt, s: Receipt)
    requires d.Valid() && '|' !in r.prev && Clean(r) && '|' !in r.reason
    requires '|' !in s.prev && d.Preimage(s) == d.Preimage(r)
    ensures SameAction(s, r)
  {
    CountPipes(d, r);
    CountPipes(d, s);
    CleanByCount(r, s);
    PreimageReads(d, s, r);
  }

  function TextPipes(r: Receipt): nat { Pipes(r.tenant) + Pipes(r.action) + Pipes(r.subject) + Pipes(r.reason) }

  lemma CleanByCount(r: Receipt, s: Receipt)
    requires '|' !in r.prev && Clean(r) && '|' !in r.reason && '|' !in s.prev
    requires Pipes(s.prev) + TextPipes(s) == Pipes(r.prev) + TextPipes(r)
    ensures Clean(s) && '|' !in s.reason
  {
  }

  function Pipes(s: string): nat { multiset(s)['|'] }

  lemma CountPipes(d: Digest, r: Receipt)
    requires d.Valid()
    ensures Pipes(d.Preimage(r)) == Pipes(r.prev) + TextPipes(r) + 5
  {
    assert '|' !in d.stamp(r.createdAt);
  }

  lemma SplitAtPipe(s: string) returns (a: string, b: string)
    requires '|' in s
    ensures s == a + "|" + b
  {
    var i :| 0 <= i < |s| && s[i] == '|';
    a, b := s[..i], s[i + 1..];
  }

  lemma SecondReading(d: Digest, r: Receipt) returns (s: Receipt)
    requires !Clean(r) || '|' in r.reason
    ensures s.prev == r.prev && d.Preimage(s) == d.Preimage(r) && !SameAction(s, r)
  {
    if '|' in r.tenant {
      var a, b := SplitAtPipe(r.tenant);
      s := r.(tenant := a, action := b, subject := r.action, reason := r.subject + "|" + r.reason);
    } else if '|' in r.action {
      var a, b := SplitAtPipe(r.action);
      s := r.(action := a, subject := b, reason := r.subject + "|" + r.reason);
    } else if '|' in r.subject {
      var a, b := SplitAtPipe(r.subject);
      s := r.(subject := a, reason := b + "|" + r.reason);
    } else {
      var a, b := SplitAtPipe(r.reason);
      s := r.(subject := r.subject + "|" + a, reason := b);
    }
  }

  /** So with a '|' in a tenant the commitment is to less than it seems: these two logs verify and end in the
      same hash, with no collision, although their tenants differ. The id may differ as well. */
  lemma PipeInTenantIsAmbiguous(d: Digest, now: int)
    ensures var r := d.New("", "a|b", "delete", "m", "", "1", now);
            var s := d.New("", "a", "b", "delete", "m|", "2", now);
            && ChainOk(d, [r]) && ChainOk(d, [s]) && r.hash == s.hash && r.tenant != s.tenant && r.id != s.id
  {
    var r := d.New("", "a|b", "delete", "m", "", "1", now);
    var s := d.New("", "a", "b", "delete", "m|", "2", now);
    assert d.Preimage(r) == "|a|b|delete|m||" + d.stamp(now) == d.Preimage(s);
  }
}
