/** The hot-query cache: hash buckets of signed entries that must behave like a plain map. */
module Engram {
  import opened Wrappers
  import opened Ordering

  type Id = string
  type Scope = map<string, string>

  /** What the signature is computed from. Sorting the tags makes their order irrelevant: a multiset. */
  datatype Key = Key(text: string, scope: Scope, tags: multiset<string>)

  /** Normalisation, the n-gram hash of the normalised text, and the SHA-256 of a key are parameters. */
  datatype Hasher = Hasher(normalize: string -> string, slot: string -> nat, digest: Key -> string) {
    function KeyOf(query: string, scope: Scope, tags: seq<string>): Key { Key(normalize(query), scope, multiset(tags)) }

    function SlotOf(key: Key): nat { slot(key.text) }
  }

  datatype Entry = Entry(query: string, key: Key, signature: string, ids: seq<Id>,
                         hits: nat, createdAt: real, lastAccess: real)
  {
    function Touched(now: real): Entry { this.(hits := hits + 1, lastAccess := now) }
  }

  type Bucket = seq<Entry>
  type Buckets = map<nat, Bucket>

  datatype CacheError = BadThreshold | BadMaxIds

  // ---- lists of ids ----

  /** list(dict.fromkeys(ids)): the first occurrence of each. */
  function Dedup(ids: seq<Id>): (r: seq<Id>)
    ensures NoDuplicates(r) && forall x :: x in r <==> x in ids
  {
    if ids == [] then []
    else
      var front, last := Dedup(ids[..|ids| - 1]), ids[|ids| - 1];
      if last in ids[..|ids| - 1] then front else front + [last]
  }

  function Without(ids: seq<Id>, id: Id): (r: seq<Id>)
    ensures forall x :: x in r <==> x in ids && x != id
    ensures NoDuplicates(ids) ==> NoDuplicates(r)
    ensures |r| <= |ids|
    ensures id !in ids ==> r == ids
  {
    if ids == [] then []
    else
      var front, last := Without(ids[..|ids| - 1], id), ids[|ids| - 1];
      assert NoDuplicates(ids) ==> NoDuplicates(ids[..|ids| - 1]) && last !in ids[..|ids| - 1];
      if last == id then front else front + [last]
  }

  /** ids[:limit] */
  function Head(ids: seq<Id>, limit: int): (r: seq<Id>)
    ensures r <= ids
  {
    if limit >= |ids| then ids else if limit >= 0 then ids[..limit]
    else if |ids| + limit >= 0 then ids[..|ids| + limit] else []
  }

  function Kept(ids: seq<Id>, maxIds: nat): seq<Id> { Head(Dedup(ids), maxIds) }

  // ---- buckets ----

  function FindIn(bucket: Bucket, signature: string): Option<Entry> {
    if bucket == [] then None
    else if bucket[0].signature == signature then Some(bucket[0])
    else FindIn(bucket[1..], signature)
  }

  /** Replaces the first entry with the same signature, or appends. */
  function Put(bucket: Bucket, e: Entry): Bucket {
    if bucket == [] then [e]
    else if bucket[0].signature == e.signature then [e] + bucket[1..]
    else [bucket[0]] + Put(bucket[1..], e)
  }

  /** Removes an id from every entry; entries left without ids go. */
  function Purge(bucket: Bucket, id: Id): Bucket {
    if bucket == [] then []
    else if Without(bucket[0].ids, id) == [] then Purge(bucket[1..], id)
    else [bucket[0].(ids := Without(bucket[0].ids, id))] + Purge(bucket[1..], id)
  }

  function BucketAt(buckets: Buckets, slot: nat): Bucket { if slot in buckets then buckets[slot] else [] }

  function Purged(buckets: Buckets, id: Id): Buckets {
    map b | b in buckets && Purge(buckets[b], id) != [] :: Purge(buckets[b], id)
  }

  function Found(h: Hasher, buckets: Buckets, key: Key): Option<Entry> {
    FindIn(BucketAt(buckets, h.SlotOf(key)), h.digest(key))
  }

  function Stored(h: Hasher, buckets: Buckets, e: Entry): Buckets {
    buckets[h.SlotOf(e.key) := Put(BucketAt(buckets, h.SlotOf(e.key)), e)]
  }

  /** The ids a lookup of the key would see. */
  function View(h: Hasher, buckets: Buckets, key: Key): seq<Id> {
    match Found(h, buckets, key) case None => [] case Some(e) => e.ids
  }

  // ---- invariants ----

  ghost predicate EntryOk(h: Hasher, maxIds: nat, slot: nat, e: Entry) {
    && e.signature == h.digest(e.key) && slot == h.SlotOf(e.key)
    && NoDuplicates(e.ids) && 1 <= |e.ids| <= maxIds
  }

  ghost predicate Fresh(bucket: Bucket, signature: string) { forall e :: e in bucket ==> e.signature != signature }

  ghost predicate DistinctSignatures(bucket: Bucket) {
    bucket == [] || (Fresh(bucket[1..], bucket[0].signature) && DistinctSignatures(bucket[1..]))
  }

  ghost predicate BucketOk(h: Hasher, maxIds: nat, slot: nat, bucket: Bucket) {
    (forall e :: e in bucket ==> EntryOk(h, maxIds, slot, e)) && DistinctSignatures(bucket)
  }

  ghost predicate BucketsOk(h: Hasher, maxIds: nat, buckets: Buckets) {
    forall b :: b in buckets ==> buckets[b] != [] && BucketOk(h, maxIds, b, buckets[b])
  }

  lemma {:induction false} FoundInPut(bucket: Bucket, e: Entry, signature: string)
    ensures FindIn(Put(bucket, e), signature) == if signature == e.signature then Some(e) else FindIn(bucket, signature)
  {
    if bucket != [] && bucket[0].signature != e.signature {
      FoundInPut(bucket[1..], e, signature);
      assert Put(bucket, e)[1..] == Put(bucket[1..], e);
    }
  }

  lemma {:induction false} PutKeeps(bucket: Bucket, e: Entry)
    requires DistinctSignatures(bucket)
    ensures DistinctSignatures(Put(bucket, e)) && Put(bucket, e) != []
    ensures forall x :: x in Put(bucket, e) ==> x == e || (x in bucket && x.signature != e.signature)
  {
    if bucket != [] {
      var rest := bucket[1..];
      assert forall x :: x in bucket <==> x == bucket[0] || x in rest;
      if bucket[0].signature != e.signature {
        PutKeeps(rest, e);
        assert Put(bucket, e)[1..] == Put(rest, e);
      } else {
        assert Put(bucket, e)[1..] == rest;
      }
    }
  }

  lemma {:induction false} FindMember(bucket: Bucket, signature: string)
    ensures FindIn(bucket, signature).Some? ==>
              FindIn(bucket, signature).value in bucket && FindIn(bucket, signature).value.signature == signature
    ensures FindIn(bucket, signature).None? <==> forall e :: e in bucket ==> e.signature != signature
  {
    if bucket != [] {
      FindMember(bucket[1..], signature);
    }
  }

  lemma {:induction false} PurgeFresh(bucket: Bucket, id: Id, signature: string)
    requires Fresh(bucket, signature)
    ensures Fresh(Purge(bucket, id), signature)
  {
    if bucket != [] {
      PurgeFresh(bucket[1..], id, signature);
    }
  }

  lemma InFront(h: Hasher, maxIds: nat, slot: nat, e: Entry, rest: Bucket)
    requires EntryOk(h, maxIds, slot, e) && BucketOk(h, maxIds, slot, rest) && Fresh(rest, e.signature)
    ensures BucketOk(h, maxIds, slot, [e] + rest)
  {
    assert ([e] + rest)[1..] == rest;
  }

  lemma {:induction false} PurgeKeeps(h: Hasher, maxIds: nat, slot: nat, bucket: Bucket, id: Id)
    requires BucketOk(h, maxIds, slot, bucket)
    ensures BucketOk(h, maxIds, slot, Purge(bucket, id))
  {
    if bucket != [] {
      var e, rest := bucket[0], bucket[1..];
      PurgeKeeps(h, maxIds, slot, rest, id);
      PurgeFresh(rest, id, e.signature);
      if Without(e.ids, id) != [] {
        assert EntryOk(h, maxIds, slot, e);
        InFront(h, maxIds, slot, e.(ids := Without(e.ids, id)), Purge(rest, id));
      }
    }
  }

  function IdsOf(found: Option<Entry>): seq<Id> { if found.Some? then found.value.ids else [] }

  /** In a bucket of distinct signatures, purging takes the id out of what is found, and nothing else. */
  lemma {:induction false} FoundInPurge(h: Hasher, maxIds: nat, slot: nat, bucket: Bucket, id: Id, signature: string)
    requires BucketOk(h, maxIds, slot, bucket)
    ensures IdsOf(FindIn(Purge(bucket, id), signature)) == Without(IdsOf(FindIn(bucket, signature)), id)
  {
    if bucket != [] {
      var e, rest := bucket[0], bucket[1..];
      FoundInPurge(h, maxIds, slot, rest, id, signature);
      if Without(e.ids, id) == [] {
        FindMember(rest, signature);
      } else {
        FindFront(e.(ids := Without(e.ids, id)), Purge(rest, id), signature);
      }
    }
  }

  lemma FindFront(e: Entry, rest: Bucket, signature: string)
    ensures FindIn([e] + rest, signature) == if e.signature == signature then Some(e) else FindIn(rest, signature)
  {
    assert ([e] + rest)[1..] == rest;
  }

  // ---- the operations on the whole table ----

  lemma StoreKeeps(h: Hasher, maxIds: nat, buckets: Buckets, e: Entry)
    requires BucketsOk(h, maxIds, buckets) && EntryOk(h, maxIds, h.SlotOf(e.key), e)
    ensures BucketsOk(h, maxIds, Stored(h, buckets, e))
  {
    PutKeeps(BucketAt(buckets, h.SlotOf(e.key)), e);
  }

  /** Storing an entry changes the view of the keys that share its slot and signature, and of no others. */
  lemma StoreView(h: Hasher, buckets: Buckets, e: Entry, key: Key)
    requires e.signature == h.digest(e.key)
    ensures View(h, Stored(h, buckets, e), key)
         == if h.SlotOf(key) == h.SlotOf(e.key) && h.digest(key) == e.signature then e.ids else View(h, buckets, key)
  {
    FoundInPut(BucketAt(buckets, h.SlotOf(e.key)), e, h.digest(key));
  }

  lemma PurgeKeepsAll(h: Hasher, maxIds: nat, buckets: Buckets, id: Id)
    requires BucketsOk(h, maxIds, buckets)
    ensures BucketsOk(h, maxIds, Purged(buckets, id))
  {
    forall b | b in buckets ensures BucketOk(h, maxIds, b, Purge(buckets[b], id)) {
      PurgeKeeps(h, maxIds, b, buckets[b], id);
    }
  }

  /** Invalidating an id takes it out of every view. */
  lemma PurgeView(h: Hasher, maxIds: nat, buckets: Buckets, id: Id, key: Key)
    requires BucketsOk(h, maxIds, buckets)
    ensures View(h, Purged(buckets, id), key) == Without(View(h, buckets, key), id)
  {
    var b := h.SlotOf(key);
    if b in buckets {
      FoundInPurge(h, maxIds, b, buckets[b], id, h.digest(key));
    }
  }

  /** Number of entries that hold the id. */
  function Holding(bucket: Bucket, id: Id): nat {
    if bucket == [] then 0 else (if id in bucket[0].ids then 1 else 0) + Holding(bucket[1..], id)
  }

  // ---- runs against a plain map ----

  datatype Operation =
    | Lookup(key: Key, now: real)
    | Record(key: Key, query: string, ids: seq<Id>, now: real)
    | CacheIds(key: Key, query: string, ids: seq<Id>, now: real)
    | Invalidate(id: Id)
    | ClearAll

  datatype State = State(buckets: Buckets, counts: map<string, nat>)

  function CountOf(counts: map<string, nat>, signature: string): nat {
    if signature in counts then counts[signature] else 0
  }

  function NewEntry(h: Hasher, key: Key, query: string, kept: seq<Id>, now: real): Entry {
    Entry(query, key, h.digest(key), kept, 0, now, now)
  }

  /** Caching stores nothing when no ids are left. */
  function Cached(h: Hasher, maxIds: nat, buckets: Buckets, key: Key, query: string, ids: seq<Id>, now: real): Buckets {
    var kept := Kept(ids, maxIds);
    if kept == [] then buckets else Stored(h, buckets, NewEntry(h, key, query, kept, now))
  }

  /** A hit counts on the entry that was found. */
  function Touched(h: Hasher, buckets: Buckets, key: Key, now: real): Buckets {
    match Found(h, buckets, key)
    case None => buckets
    case Some(e) => buckets[h.SlotOf(key) := Put(BucketAt(buckets, h.SlotOf(key)), e.Touched(now))]
  }

  function Step(h: Hasher, threshold: nat, maxIds: nat, s: State, op: Operation): State {
    match op
    case Lookup(key, now) => s.(buckets := Touched(h, s.buckets, key, now))
    case CacheIds(key, query, ids, now) => s.(buckets := Cached(h, maxIds, s.buckets, key, query, ids, now))
    case Record(key, query, ids, now) =>
      if ids == [] then s
      else
        var n := CountOf(s.counts, h.digest(key)) + 1;
        State(if n < threshold then s.buckets else Cached(h, maxIds, s.buckets, key, query, ids, now),
              s.counts[h.digest(key) := n])
    case Invalidate(id) => s.(buckets := Purged(s.buckets, id))
    case ClearAll => State(map[], map[])
  }

  function Run(h: Hasher, threshold: nat, maxIds: nat, ops: seq<Operation>): State {
    if ops == [] then State(map[], map[])
    else Step(h, threshold, maxIds, Run(h, threshold, maxIds, ops[..|ops| - 1]), ops[|ops| - 1])
  }

  /** Results recorded for the key since the last clear. */
  function Recorded(ops: seq<Operation>, key: Key): nat {
    if ops == [] then 0 else RecordedNext(Recorded(ops[..|ops| - 1], key), ops[|ops| - 1], key)
  }

  function RecordedNext(before: nat, op: Operation, key: Key): nat {
    match op
    case ClearAll => 0
    case Record(k, _, ids, _) => if k == key && ids != [] then before + 1 else before
    case _ => before
  }

  /** The plain map's answer: the ids cached last for this very key, less those invalidated since. */
  function Expected(threshold: nat, maxIds: nat, ops: seq<Operation>, key: Key): seq<Id> {
    if ops == [] then []
    else
      var before := ops[..|ops| - 1];
      ExpectedNext(threshold, maxIds, Expected(threshold, maxIds, before, key), Recorded(before, key),
                   ops[|ops| - 1], key)
  }

  function ExpectedNext(threshold: nat, maxIds: nat, before: seq<Id>, recorded: nat, op: Operation, key: Key)
    : seq<Id>
  {
    match op
    case Lookup(_, _) => before
    case CacheIds(k, _, ids, _) => if k == key && Kept(ids, maxIds) != [] then Kept(ids, maxIds) else before
    case Record(k, _, ids, _) =>
      if k == key && ids != [] && recorded + 1 >= threshold && Kept(ids, maxIds) != [] then Kept(ids, maxIds)
      else before
    case Invalidate(id) => Without(before, id)
    case ClearAll => []
  }

  ghost predicate CollisionFree(h: Hasher, keys: set<Key>) {
    forall j, k :: j in keys && k in keys && h.digest(j) == h.digest(k) ==> j == k
  }

  ghost predicate KeysAmong(ops: seq<Operation>, keys: set<Key>) {
    forall i :: 0 <= i < |ops| ==>
      (ops[i].CacheIds? ==> ops[i].key in keys) && (ops[i].Record? ==> ops[i].key in keys)
  }

  lemma KeptBounds(ids: seq<Id>, maxIds: nat)
    requires maxIds > 0
    ensures NoDuplicates(Kept(ids, maxIds)) && |Kept(ids, maxIds)| <= maxIds
  {
  }

  lemma CacheView(h: Hasher, maxIds: nat, keys: set<Key>, buckets: Buckets, k: Key, query: string, ids: seq<Id>,
                  now: real, key: Key)
    requires maxIds > 0 && CollisionFree(h, keys) && k in keys && key in keys && BucketsOk(h, maxIds, buckets)
    ensures BucketsOk(h, maxIds, Cached(h, maxIds, buckets, k, query, ids, now))
    ensures View(h, Cached(h, maxIds, buckets, k, query, ids, now), key)
         == if k == key && Kept(ids, maxIds) != [] then Kept(ids, maxIds) else View(h, buckets, key)
  {
    var kept := Kept(ids, maxIds);
    KeptBounds(ids, maxIds);
    if kept != [] {
      var e := NewEntry(h, k, query, kept, now);
      StoreKeeps(h, maxIds, buckets, e);
      StoreView(h, buckets, e, key);
    }
  }

  lemma TouchView(h: Hasher, maxIds: nat, buckets: Buckets, k: Key, now: real, key: Key)
    requires BucketsOk(h, maxIds, buckets)
    ensures BucketsOk(h, maxIds, Touched(h, buckets, k, now))
    ensures View(h, Touched(h, buckets, k, now), key) == View(h, buckets, key)
  {
    var slot := h.SlotOf(k);
    var found := Found(h, buckets, k);
    if found.Some? {
      FindMember(BucketAt(buckets, slot), h.digest(k));
      assert EntryOk(h, maxIds, slot, found.value);
      assert EntryOk(h, maxIds, slot, found.value.Touched(now));
      PutKeeps(BucketAt(buckets, slot), found.value.Touched(now));
      FoundInPut(BucketAt(buckets, slot), found.value.Touched(now), h.digest(key));
    }
  }

  /** The cache refines the map: whatever the slots collide, after any run a lookup sees exactly the ids the map
      expects, and the record counts agree. */
  lemma {:induction false} CacheRefinesMap(h: Hasher, threshold: nat, maxIds: nat, keys: set<Key>,
                                           ops: seq<Operation>, key: Key)
    requires maxIds > 0 && CollisionFree(h, keys) && KeysAmong(ops, keys) && key in keys
    ensures var s := Run(h, threshold, maxIds, ops);
            && BucketsOk(h, maxIds, s.buckets)
            && View(h, s.buckets, key) == Expected(threshold, maxIds, ops, key)
            && CountOf(s.counts, h.digest(key)) == Recorded(ops, key)
  {
    if ops != [] {
      var before, op := ops[..|ops| - 1], ops[|ops| - 1];
      CacheRefinesMap(h, threshold, maxIds, keys, before, key);
      StepRefines(h, threshold, maxIds, keys, Run(h, threshold, maxIds, before), op, key);
    }
  }

  lemma StepRefines(h: Hasher, threshold: nat, maxIds: nat, keys: set<Key>, s: State, op: Operation, key: Key)
    requires maxIds > 0 && CollisionFree(h, keys) && key in keys && BucketsOk(h, maxIds, s.buckets)
    requires (op.CacheIds? ==> op.key in keys) && (op.Record? ==> op.key in keys)
    ensures var s' := Step(h, threshold, maxIds, s, op); var recorded := CountOf(s.counts, h.digest(key));
            && BucketsOk(h, maxIds, s'.buckets)
            && View(h, s'.buckets, key)
               == ExpectedNext(threshold, maxIds, View(h, s.buckets, key), recorded, op, key)
            && CountOf(s'.counts, h.digest(key)) == RecordedNext(recorded, op, key)
  {
    match op {
      case Lookup(k, now) => TouchView(h, maxIds, s.buckets, k, now, key);
      case CacheIds(k, query, ids, now) => CacheView(h, maxIds, keys, s.buckets, k, query, ids, now, key);
      case Record(k, query, ids, now) => CacheView(h, maxIds, keys, s.buckets, k, query, ids, now, key);
      case Invalidate(id) =>
        PurgeKeepsAll(h, maxIds, s.buckets, id);
        PurgeView(h, maxIds, s.buckets, id, key);
      case _ =>
    }
  }

  /** Every stored entry belongs to one of the keys. */
  ghost predicate StoredAmong(buckets: Buckets, keys: set<Key>) {
    forall b, i :: b in buckets && 0 <= i < |buckets[b]| ==> buckets[b][i].key in keys
  }

  ghost predicate BucketAmong(bucket: Bucket, keys: set<Key>) { forall e :: e in bucket ==> e.key in keys }

  lemma {:induction false} PutAmong(bucket: Bucket, e: Entry, keys: set<Key>)
    requires BucketAmong(bucket, keys) && e.key in keys
    ensures BucketAmong(Put(bucket, e), keys)
  {
    if bucket != [] && bucket[0].signature != e.signature {
      PutAmong(bucket[1..], e, keys);
    }
  }

  lemma {:induction false} PurgeAmong(bucket: Bucket, id: Id, keys: set<Key>)
    requires BucketAmong(bucket, keys)
    ensures BucketAmong(Purge(bucket, id), keys)
  {
    if bucket != [] {
      assert bucket[0] in bucket;
      PurgeAmong(bucket[1..], id, keys);
    }
  }

  lemma StoringAmong(h: Hasher, buckets: Buckets, keys: set<Key>, slot: nat, e: Entry)
    requires StoredAmong(buckets, keys) && e.key in keys
    ensures StoredAmong(buckets[slot := Put(BucketAt(buckets, slot), e)], keys)
  {
    PutAmong(BucketAt(buckets, slot), e, keys);
  }

  lemma PurgingAmong(buckets: Buckets, keys: set<Key>, id: Id)
    requires StoredAmong(buckets, keys)
    ensures StoredAmong(Purged(buckets, id), keys)
  {
    forall b | b in buckets ensures BucketAmong(Purge(buckets[b], id), keys) {
      PurgeAmong(buckets[b], id, keys);
    }
  }

  lemma TouchingAmong(h: Hasher, buckets: Buckets, keys: set<Key>, key: Key, now: real)
    requires StoredAmong(buckets, keys)
    ensures StoredAmong(Touched(h, buckets, key, now), keys)
  {
    var found := Found(h, buckets, key);
    if found.Some? {
      FindMember(BucketAt(buckets, h.SlotOf(key)), h.digest(key));
      StoringAmong(h, buckets, keys, h.SlotOf(key), found.value.Touched(now));
    }
  }

  lemma CachingAmong(h: Hasher, maxIds: nat, buckets: Buckets, keys: set<Key>, key: Key, query: string, ids: seq<Id>,
                     now: real)
    requires StoredAmong(buckets, keys) && key in keys
    ensures StoredAmong(Cached(h, maxIds, buckets, key, query, ids, now), keys)
  {
    if Kept(ids, maxIds) != [] {
      StoringAmong(h, buckets, keys, h.SlotOf(key), NewEntry(h, key, query, Kept(ids, maxIds), now));
    }
  }

  lemma {:induction false} RunStoresAmong(h: Hasher, threshold: nat, maxIds: nat, keys: set<Key>, ops: seq<Operation>)
    requires KeysAmong(ops, keys)
    ensures StoredAmong(Run(h, threshold, maxIds, ops).buckets, keys)
  {
    if ops != [] {
      var before, op := ops[..|ops| - 1], ops[|ops| - 1];
      RunStoresAmong(h, threshold, maxIds, keys, before);
      var buckets := Run(h, threshold, maxIds, before).buckets;
      match op {
        case Lookup(key, now) => TouchingAmong(h, buckets, keys, key, now);
        case CacheIds(key, query, ids, now) => CachingAmong(h, maxIds, buckets, keys, key, query, ids, now);
        case Record(key, query, ids, now) => CachingAmong(h, maxIds, buckets, keys, key, query, ids, now);
        case Invalidate(id) => PurgingAmong(buckets, keys, id);
        case _ =>
      }
    }
  }

  /** A position in the table. */
  predicate Holds(buckets: Buckets, b: nat, i: nat) { b in buckets && i < |buckets[b]| }

  /** After every run, signatures are unique across the whole table, not only within a bucket. */
  lemma SignaturesAreUnique(h: Hasher, threshold: nat, maxIds: nat, keys: set<Key>, ops: seq<Operation>,
                            a: nat, i: nat, b: nat, j: nat)
    requires maxIds > 0 && CollisionFree(h, keys) && KeysAmong(ops, keys)
    requires var buckets := Run(h, threshold, maxIds, ops).buckets;
             Holds(buckets, a, i) && Holds(buckets, b, j) && buckets[a][i].signature == buckets[b][j].signature
    ensures a == b && i == j
  {
    var buckets := Run(h, threshold, maxIds, ops).buckets;
    RunStoresAmong(h, threshold, maxIds, keys, ops);
    var x: Entry, y: Entry := buckets[a][i], buckets[b][j];
    CacheRefinesMap(h, threshold, maxIds, keys, ops, x.key);
    assert EntryOk(h, maxIds, a, x) && EntryOk(h, maxIds, b, y);
    if i != j {
      DistinctAt(buckets[a], if i < j then i else j, if i < j then j else i);
    }
  }

  lemma {:induction false} DistinctAt(bucket: Bucket, i: nat, j: nat)
    requires DistinctSignatures(bucket) && i < j < |bucket|
    ensures bucket[i].signature != bucket[j].signature
  {
    if i == 0 {
      assert bucket[j] == bucket[1..][j - 1];
    } else {
      DistinctAt(bucket[1..], i - 1, j - 1);
    }
  }

  // ---- what is kept, and for whom ----

  ghost function Distinct(ids: seq<Id>): set<Id> { set x | x in ids }

  lemma DistinctSnoc(ids: seq<Id>, last: Id)
    ensures Distinct(ids + [last]) == Distinct(ids) + {last}
  {
  }

  /** Place `p` is where an id comes first, with `i` other ids before it. */
  ghost predicate ComesFirst(ids: seq<Id>, p: nat, i: nat, id: Id) {
    p < |ids| && ids[p] == id && id !in ids[..p] && |Distinct(ids[..p])| == i
  }

  /** The id is the one after `i` others, in the order in which they first occur. */
  ghost predicate IsNth(ids: seq<Id>, i: nat, id: Id) { exists p: nat :: ComesFirst(ids, p, i, id) }

  lemma NthLonger(front: seq<Id>, last: Id, i: nat, id: Id)
    requires IsNth(front, i, id)
    ensures IsNth(front + [last], i, id)
  {
    var p: nat :| ComesFirst(front, p, i, id);
    assert (front + [last])[..p] == front[..p];
    assert ComesFirst(front + [last], p, i, id);
  }

  lemma NthLast(front: seq<Id>, last: Id)
    requires last !in front
    ensures IsNth(front + [last], |Distinct(front)|, last)
  {
    assert (front + [last])[..|front|] == front;
    assert ComesFirst(front + [last], |front|, |Distinct(front)|, last);
  }

  ghost predicate AllNth(ids: seq<Id>, kept: seq<Id>) { forall i :: 0 <= i < |kept| ==> IsNth(ids, i, kept[i]) }

  lemma AllNthLonger(front: seq<Id>, last: Id, kept: seq<Id>)
    requires AllNth(front, kept)
    ensures AllNth(front + [last], kept)
  {
    forall i | 0 <= i < |kept| ensures IsNth(front + [last], i, kept[i]) {
      NthLonger(front, last, i, kept[i]);
    }
  }

  lemma DedupSnoc(front: seq<Id>, last: Id)
    ensures Dedup(front + [last]) == if last in front then Dedup(front) else Dedup(front) + [last]
  {
    assert (front + [last])[..|front|] == front;
  }

  /** The list has as many ids as the other has distinct ones, in the order of their first occurrences. */
  ghost predicate ListsDistinct(ids: seq<Id>, kept: seq<Id>) { |kept| == |Distinct(ids)| && AllNth(ids, kept) }

  lemma AllNthPlus(ids: seq<Id>, kept: seq<Id>, x: Id)
    requires AllNth(ids, kept) && IsNth(ids, |kept|, x)
    ensures AllNth(ids, kept + [x])
  {
  }

  lemma DistinctGrows(front: seq<Id>, last: Id)
    ensures |Distinct(front + [last])| == |Distinct(front)| + if last in front then 0 else 1
  {
    DistinctSnoc(front, last);
    assert last in front ==> Distinct(front) + {last} == Distinct(front);
  }

  lemma ListsMore(front: seq<Id>, last: Id, kept: seq<Id>)
    requires ListsDistinct(front, kept)
    ensures ListsDistinct(front + [last], if last in front then kept else kept + [last])
  {
    DistinctGrows(front, last);
    AllNthLonger(front, last, kept);
    if last !in front {
      NthLast(front, last);
      AllNthPlus(front + [last], kept, last);
    }
  }

  lemma DedupStep(front: seq<Id>, last: Id)
    requires ListsDistinct(front, Dedup(front))
    ensures ListsDistinct(front + [last], Dedup(front + [last]))
  {
    ListsMore(front, last, Dedup(front));
    DedupSnoc(front, last);
  }

  lemma {:induction false} DedupAt(ids: seq<Id>)
    ensures ListsDistinct(ids, Dedup(ids))
  {
    if ids != [] {
      DedupAt(ids[..|ids| - 1]);
      DedupStep(ids[..|ids| - 1], ids[|ids| - 1]);
      assert ids == ids[..|ids| - 1] + [ids[|ids| - 1]];
    }
  }

  /** How many ids a slice keeps: at most `limit`, or, if that is negative, all but as many as it says. */
  lemma HeadLength(ids: seq<Id>, limit: int)
    ensures 0 <= limit <= |ids| ==> |Head(ids, limit)| == limit
    ensures limit >= |ids| ==> Head(ids, limit) == ids
    ensures limit < 0 ==> |Head(ids, limit)| == if |ids| + limit > 0 then |ids| + limit else 0
  {
  }

  /** The kept ids are the first distinct ones, as many as the limit allows, in the order in which they first occur. */
  lemma KeptAreFirst(ids: seq<Id>, maxIds: nat)
    ensures |Kept(ids, maxIds)| == if |Distinct(ids)| < maxIds then |Distinct(ids)| else maxIds
    ensures forall i :: 0 <= i < |Kept(ids, maxIds)| ==> IsNth(ids, i, Kept(ids, maxIds)[i])
  {
    DedupAt(ids);
    HeadLength(Dedup(ids), maxIds);
  }

  /** Two queries share their results exactly when they agree, normalised, and have the same scope and the same tags in
      any order: what is cached for one is what the other sees, and otherwise the other sees what it saw before. */
  lemma ResultsAreShared(h: Hasher, maxIds: nat, keys: set<Key>, buckets: Buckets, ids: seq<Id>, now: real,
                         query: string, scope: Scope, tags: seq<string>, other: string, otherScope: Scope,
                         otherTags: seq<string>)
    requires maxIds > 0 && CollisionFree(h, keys) && BucketsOk(h, maxIds, buckets)
    requires Key(h.normalize(query), scope, multiset(tags)) in keys
    requires Key(h.normalize(other), otherScope, multiset(otherTags)) in keys
    ensures var after := Cached(h, maxIds, buckets, h.KeyOf(query, scope, tags), query, ids, now);
            var same := h.normalize(query) == h.normalize(other) && scope == otherScope
                        && multiset(tags) == multiset(otherTags);
            View(h, after, h.KeyOf(other, otherScope, otherTags))
            == if same && Kept(ids, maxIds) != [] then Kept(ids, maxIds)
               else View(h, buckets, h.KeyOf(other, otherScope, otherTags))
  {
    CacheView(h, maxIds, keys, buckets, h.KeyOf(query, scope, tags), query, ids, now,
              h.KeyOf(other, otherScope, otherTags));
  }

  /** What is on file for a key: a new entry starts without hits, a lookup adds one and the time. */
  lemma EntryOnFile(h: Hasher, maxIds: nat, buckets: Buckets, key: Key, query: string, ids: seq<Id>, now: real)
    requires BucketsOk(h, maxIds, buckets)
    ensures Kept(ids, maxIds) != [] ==>
              Found(h, Cached(h, maxIds, buckets, key, query, ids, now), key)
              == Some(Entry(query, key, h.digest(key), Kept(ids, maxIds), 0, now, now))
    ensures var before, after := Found(h, buckets, key), Found(h, Touched(h, buckets, key, now), key);
            after == if before.None? then None
                     else Some(before.value.(hits := before.value.hits + 1, lastAccess := now))
  {
    var bucket := BucketAt(buckets, h.SlotOf(key));
    FoundInPut(bucket, NewEntry(h, key, query, Kept(ids, maxIds), now), h.digest(key));
    if Found(h, buckets, key).Some? {
      FindMember(bucket, h.digest(key));
      FoundInPut(bucket, Found(h, buckets, key).value.Touched(now), h.digest(key));
    }
  }

  // ---- the class ----

  /** Some buckets, those in `todo`, have not been purged yet. */
  ghost predicate PartlyPurged(buckets: Buckets, todo: set<nat>, id: Id, r: Buckets) {
    && (forall b :: b in r ==> b in buckets)
    && (forall b :: b in todo ==> b in buckets && b in r && r[b] == buckets[b])
    && (forall b :: b in buckets && b !in todo ==>
          (b in r <==> Purge(buckets[b], id) != []) && (b in r ==> r[b] == Purge(buckets[b], id)))
  }

  /** Number of entries in these buckets that hold the id. */
  ghost function HoldingIn(buckets: Buckets, slots: set<nat>, id: Id): nat
    requires slots <= buckets.Keys
  {
    if slots == {} then 0
    else
      var b :| b in slots;
      Holding(buckets[b], id) + HoldingIn(buckets, slots - {b}, id)
  }

  lemma {:induction false} HoldingAt(buckets: Buckets, slots: set<nat>, id: Id, b: nat)
    requires slots <= buckets.Keys && b in slots
    ensures HoldingIn(buckets, slots, id) == Holding(buckets[b], id) + HoldingIn(buckets, slots - {b}, id)
    decreases |slots|
  {
    var c :| c in slots
             && HoldingIn(buckets, slots, id) == Holding(buckets[c], id) + HoldingIn(buckets, slots - {c}, id);
    if c != b {
      HoldingAt(buckets, slots - {c}, id, b);
      HoldingAt(buckets, slots - {b}, id, c);
      assert slots - {c} - {b} == slots - {b} - {c};
    }
  }

  /** Visits every bucket; a bucket left without entries is removed. Returns how many entries held the id. */
  method PurgeEach(buckets: Buckets, id: Id) returns (r: Buckets, removed: nat)
    ensures r == Purged(buckets, id)
    ensures removed == HoldingIn(buckets, buckets.Keys, id)
  {
    r, removed := buckets, 0;
    var todo := buckets.Keys;
    while todo != {}
      invariant PartlyPurged(buckets, todo, id, r)
      invariant todo <= buckets.Keys
      invariant removed + HoldingIn(buckets, todo, id) == HoldingIn(buckets, buckets.Keys, id)
    {
      var b :| b in todo;
      HoldingAt(buckets, todo, id, b);
      removed := removed + Holding(r[b], id);
      var kept := Purge(r[b], id);
      if kept != [] {
        r := r[b := kept];
      } else {
        r := r - {b};
      }
      todo := todo - {b};
    }
  }

  class EngramCache {
    const h: Hasher
    const threshold: nat
    const maxIds: nat
    var entries: Buckets
    var counts: map<string, nat>
    var lookups: nat
    var hits: nat
    var misses: nat
    var rejections: nat
    var autoCached: nat

    function Now(): State
      reads this
    {
      State(entries, counts)
    }

    ghost predicate Valid()
      reads this
    {
      threshold > 0 && maxIds > 0 && BucketsOk(h, maxIds, entries) && lookups == hits + misses && rejections <= misses
    }

    constructor (h: Hasher, threshold: nat, maxIds: nat)
      requires threshold > 0 && maxIds > 0
      ensures Valid() && Now() == State(map[], map[])
      ensures this.h == h && this.threshold == threshold && this.maxIds == maxIds
    {
      this.h, this.threshold, this.maxIds := h, threshold, maxIds;
      entries, counts := map[], map[];
      lookups, hits, misses, rejections, autoCached := 0, 0, 0, 0, 0;
    }

    /** Construction as the caller sees it, with the two refusals. */
    static method Create(h: Hasher, threshold: int, maxIds: int) returns (r: Result<EngramCache, CacheError>)
      ensures r == Failure(BadThreshold) <==> threshold <= 0
      ensures r == Failure(BadMaxIds) <==> threshold > 0 && maxIds <= 0
      ensures r.Success? ==> fresh(r.value) && r.value.Valid() && r.value.Now() == State(map[], map[])
      ensures r.Success? ==> r.value.h == h && r.value.threshold == threshold && r.value.maxIds == maxIds
    {
      if threshold <= 0 {
        return Failure(BadThreshold);
      }
      if maxIds <= 0 {
        return Failure(BadMaxIds);
      }
      var cache := new EngramCache(h, threshold, maxIds);
      r := Success(cache);
    }

    method Lookup(query: string, scope: Scope, tags: seq<string>, topK: Option<int>, now: real)
      returns (ids: seq<Id>)
      requires Valid()
      modifies this
      ensures Valid()
      ensures Now() == Step(h, threshold, maxIds, old(Now()), Operation.Lookup(h.KeyOf(query, scope, tags), now))
      ensures var view := View(h, old(entries), h.KeyOf(query, scope, tags));
              ids == if topK.Some? then Head(view, topK.value) else view
      ensures var hit := Found(h, old(entries), h.KeyOf(query, scope, tags)).Some?;
              && hits == old(hits) + (if hit then 1 else 0) && misses == old(misses) + (if hit then 0 else 1)
              && rejections == old(rejections)
                 + (if !hit && BucketAt(old(entries), h.SlotOf(h.KeyOf(query, scope, tags))) != [] then 1 else 0)
              && lookups == old(lookups) + 1 && autoCached == old(autoCached)
    {
      lookups := lookups + 1;
      var key := h.KeyOf(query, scope, tags);
      var slot := h.SlotOf(key);
      var bucket := BucketAt(entries, slot);
      var found := FindIn(bucket, h.digest(key));
      TouchView(h, maxIds, entries, key, now, key);
      if found.Some? {
        var e := found.value.Touched(now);
        entries := entries[slot := Put(bucket, e)];
        hits := hits + 1;
        return if topK.Some? then Head(e.ids, topK.value) else e.ids;
      }
      if bucket != [] {
        rejections := rejections + 1;
      }
      misses := misses + 1;
      ids := [];
    }

    /** `created` tells whether a new entry was made, rather than an old one replaced or nothing stored. */
    method Cache(query: string, ids: seq<Id>, scope: Scope, tags: seq<string>, now: real) returns (created: bool)
      requires Valid()
      modifies this`entries
      ensures Valid()
      ensures Now() == Step(h, threshold, maxIds, old(Now()),
                            CacheIds(h.KeyOf(query, scope, tags), query, ids, now))
      ensures created <==> Kept(ids, maxIds) != [] && Found(h, old(entries), h.KeyOf(query, scope, tags)).None?
    {
      var kept := Kept(ids, maxIds);
      if kept == [] {
        return false;
      }
      var key := h.KeyOf(query, scope, tags);
      var e := NewEntry(h, key, query, kept, now);
      KeptBounds(ids, maxIds);
      StoreKeeps(h, maxIds, entries, e);
      var bucket := BucketAt(entries, h.SlotOf(key));
      created := FindIn(bucket, e.signature).None?;
      entries := entries[h.SlotOf(key) := Put(bucket, e)];
    }

    method RecordResult(query: string, ids: seq<Id>, scope: Scope, tags: seq<string>, now: real)
      returns (created: bool)
      requires Valid()
      modifies this`entries, this`counts, this`autoCached
      ensures Valid()
      ensures Now() == Step(h, threshold, maxIds, old(Now()), Record(h.KeyOf(query, scope, tags), query, ids, now))
      ensures autoCached == old(autoCached) + (if created then 1 else 0)
      ensures created <==>
                var key := h.KeyOf(query, scope, tags);
                && ids != [] && CountOf(old(counts), h.digest(key)) + 1 >= threshold
                && Kept(ids, maxIds) != [] && Found(h, old(entries), key).None?
    {
      if ids == [] {
        return false;
      }
      var signature := h.digest(h.KeyOf(query, scope, tags));
      counts := counts[signature := CountOf(counts, signature) + 1];
      if counts[signature] < threshold {
        return false;
      }
      created := Cache(query, ids, scope, tags, now);
      if created {
        autoCached := autoCached + 1;
      }
    }

    method InvalidateMemory(id: Id) returns (removed: nat)
      requires Valid()
      modifies this`entries
      ensures Valid()
      ensures Now() == Step(h, threshold, maxIds, old(Now()), Invalidate(id))
      ensures removed == HoldingIn(old(entries), old(entries).Keys, id)
    {
      PurgeKeepsAll(h, maxIds, entries, id);
      entries, removed := PurgeEach(entries, id);
    }

    method Clear()
      requires Valid()
      modifies this
      ensures Valid()
      ensures Now() == Step(h, threshold, maxIds, old(Now()), ClearAll)
      ensures lookups == hits == misses == rejections == autoCached == 0
    {
      entries, counts := map[], map[];
      lookups, hits, misses, rejections, autoCached := 0, 0, 0, 0, 0;
    }
  }
}
