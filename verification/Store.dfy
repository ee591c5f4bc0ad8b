/** The canonical memory log: content-addressed blobs, an append-only log, and indexes that a replay recovers. */
module Store {
  import opened Wrappers
  import opened Schema
  import opened Text

  type Blobs = map<string, Bytes>

  /** What the content hash covers. */
  datatype Material = Material(attributes: Attributes, memoryType: string, modalities: seq<Modality>)

  /** What the Moebius address is computed from. */
  datatype AddressMaterial = AddressMaterial(
    scope: map<string, string>, memoryType: string, modalities: seq<string>, tags: set<string>,
    entities: set<string>, contentHash: string)

  datatype StoreError = NotFound | InvalidBlobReference | MissingBlob

  predicate IsHexDigit(c: char) { '0' <= c <= '9' || 'a' <= c <= 'f' }

  /** Sixty-four hex digits; the pattern's end anchor also lets one final line feed pass. */
  predicate IsShaHex(s: string) {
    (|s| == 64 || (|s| == 65 && s[64] == '\n')) && forall i :: 0 <= i < 64 ==> IsHexDigit(s[i])
  }

  const BLOB_SCHEME := "blob://"
  const FORMAT_KEY := "blob_format"

  /** UTF-8, SHA-256, the two content digests, the address hash, and JSON: `toJson` writes an envelope as one object,
      `fromJson` reads a text as one, or fails. */
  datatype Codec = Codec(
    encode: string -> Bytes, decode: Bytes -> string, sha: Bytes -> string,
    toJson: Envelope -> string, fromJson: string -> Option<Envelope>,
    materialHash: Material -> string, idDigest: (string, real, map<string, string>) -> string,
    addressOf: AddressMaterial -> Address)
  {
    ghost predicate Valid() {
      && (forall s :: decode(encode(s)) == s)
      && (forall b :: IsShaHex(sha(b)))
      && (forall m :: materialHash(m) != "")
    }

    function DataOf(c: Payload): Bytes { if c.Absent? then [] else encode(c.text) }

    /** What constructing a modality fills in. */
    function Filled(m: Modality): Modality {
      if m.content.Absent? then m
      else
        m.(sha := if m.sha.None? then Some(sha(DataOf(m.content))) else m.sha,
           size := if m.size.None? then Some(|DataOf(m.content)|) else m.size)
    }

    function FilledAll(ms: seq<Modality>): seq<Modality> {
      seq(|ms|, i requires 0 <= i < |ms| => Filled(ms[i]))
    }

    function HashOf(e: Envelope): string { materialHash(Material(e.attributes, e.memoryType, e.modalities)) }

    function AddressFor(e: Envelope): Address {
      addressOf(AddressMaterial(e.attributes.scope, e.memoryType, NamesOf(e.modalities),
                                e.attributes.tags, e.attributes.entities, e.contentHash))
    }

    function NamesOf(ms: seq<Modality>): seq<string> { seq(|ms|, i requires 0 <= i < |ms| => ms[i].modality) }

    /** from_dict(to_dict(e)): missing creation time, type, hash and id are replaced. */
    function Reread(e: Envelope, now: real): Envelope {
      var memoryType := if e.memoryType == "" then "episodic" else e.memoryType;
      var created := if e.createdAt == 0.0 then now else e.createdAt;
      var e1 := e.(createdAt := created, memoryType := memoryType, modalities := FilledAll(e.modalities));
      var e2 := if e1.contentHash == "" then e1.(contentHash := HashOf(e1)) else e1;
      if e2.id == "" then e2.(id := "mem_" + idDigest(e2.contentHash, created, e2.attributes.scope)) else e2
    }
  }

  // ---- payloads in and out of blobs ----

  /** Payloads above the threshold leave the envelope. */
  predicate Large(k: Codec, threshold: nat, m: Modality) {
    !m.content.Absent? && |k.DataOf(m.content)| > threshold
  }

  /** The blob's name: the recorded sha if it looks like one, else the JSON text if that does, else the sha. */
  function BlobName(k: Codec, m: Modality): string {
    var recorded := if m.sha.Some? then m.sha.value else "";
    var candidate := if recorded != "" then recorded else if m.content.Json? then m.content.text else "";
    if IsShaHex(candidate) then candidate else k.sha(k.DataOf(m.content))
  }

  function Externalized(k: Codec, threshold: nat, m: Modality): Modality {
    if !Large(k, threshold, m) then m
    else
      Modality(m.modality, Absent, Some(BLOB_SCHEME + BlobName(k, m)), m.mime, Some(BlobName(k, m)),
               Some(|k.DataOf(m.content)|), m.metadata[FORMAT_KEY := if m.content.Json? then "json" else "text"])
  }

  /** A blob that exists is not written again. */
  function BlobsAfter(k: Codec, threshold: nat, blobs: Blobs, m: Modality): Blobs {
    if Large(k, threshold, m) && BlobName(k, m) !in blobs then blobs[BlobName(k, m) := k.DataOf(m.content)] else blobs
  }

  function ExternalizedAll(k: Codec, threshold: nat, ms: seq<Modality>): seq<Modality> {
    seq(|ms|, i requires 0 <= i < |ms| => Externalized(k, threshold, ms[i]))
  }

  function BlobsAfterAll(k: Codec, threshold: nat, blobs: Blobs, ms: seq<Modality>): Blobs {
    if ms == [] then blobs
    else BlobsAfter(k, threshold, BlobsAfterAll(k, threshold, blobs, ms[..|ms| - 1]), ms[|ms| - 1])
  }

  predicate RefersToBlob(m: Modality) { m.uri.Some? && BLOB_SCHEME <= m.uri.value }

  function Resolved(k: Codec, blobs: Blobs, m: Modality): Result<Modality, StoreError> {
    if !RefersToBlob(m) then Success(m)
    else
      var name := m.uri.value[|BLOB_SCHEME|..];
      if !IsShaHex(name) then Failure(InvalidBlobReference)
      else if name !in blobs then Failure(MissingBlob)
      else
        var text := k.decode(blobs[name]);
        var content := if FORMAT_KEY in m.metadata && m.metadata[FORMAT_KEY] == "json" then Json(text) else Str(text);
        Success(k.Filled(Modality(m.modality, content, None, m.mime, m.sha, m.size, m.metadata - {FORMAT_KEY})))
  }

  function ResolvedAll(k: Codec, blobs: Blobs, ms: seq<Modality>): Result<seq<Modality>, StoreError> {
    if ms == [] then Success([])
    else
      match ResolvedAll(k, blobs, ms[..|ms| - 1])
      case Failure(e) => Failure(e)
      case Success(front) =>
        match Resolved(k, blobs, ms[|ms| - 1])
        case Failure(e) => Failure(e)
        case Success(m) => Success(front + [m])
  }

  function ResolvedEnvelope(k: Codec, blobs: Blobs, e: Envelope, now: real): Result<Envelope, StoreError> {
    match ResolvedAll(k, blobs, e.modalities)
    case Failure(error) => Failure(error)
    case Success(ms) => Success(k.Reread(e.(modalities := ms), now))
  }

  /** What one modality must be like to come back from the store as it went in. */
  predicate Restorable(k: Codec, threshold: nat, m: Modality) {
    if Large(k, threshold, m) then
      && m.uri.None? && m.sha == Some(k.sha(k.DataOf(m.content))) && m.size == Some(|k.DataOf(m.content)|)
      && FORMAT_KEY !in m.metadata
    else !RefersToBlob(m)
  }

  /** Exactly which modalities survive a round trip through the store. For large payloads it comes down to no uri,
      the recorded name and size, no format key of its own, and a blob under that name that decodes to the text. */
  lemma ItemRoundTripIff(k: Codec, threshold: nat, blobs: Blobs, m: Modality)
    requires k.Valid() && k.Filled(m) == m
    ensures Resolved(k, BlobsAfter(k, threshold, blobs, m), Externalized(k, threshold, m)) == Success(m)
            <==>
            if Large(k, threshold, m) then
              && m.uri.None? && m.sha == Some(BlobName(k, m)) && m.size == Some(|k.DataOf(m.content)|)
              && FORMAT_KEY !in m.metadata
              && k.decode(BlobsAfter(k, threshold, blobs, m)[BlobName(k, m)]) == m.content.text
            else !RefersToBlob(m)
  {
    if Large(k, threshold, m) {
      var name, out := BlobName(k, m), Externalized(k, threshold, m);
      var after := BlobsAfter(k, threshold, blobs, m);
      assert out.uri.value[|BLOB_SCHEME|..] == name;
      assert IsShaHex(name) && name in after;
      var format := if m.content.Json? then "json" else "text";
      if FORMAT_KEY !in m.metadata {
        assert m.metadata[FORMAT_KEY := format] - {FORMAT_KEY} == m.metadata;
      } else {
        assert FORMAT_KEY !in out.metadata - {FORMAT_KEY};
      }
    }
  }

  // ---- what goes where, field by field ----

  /** The names of blobs: sixty-four hex digits, or those and a line feed. */
  lemma ShaHexIff(s: string)
    ensures IsShaHex(s) <==>
              exists t: string :: |t| == 64 && (s == t || s == t + "\n") && forall i :: 0 <= i < 64 ==> t[i] in HEX
  {
    if IsShaHex(s) {
      var t := s[..64];
      assert s == if |s| == 64 then t else t + "\n";
      forall i | 0 <= i < 64 ensures t[i] in HEX {
        HexDigits(t[i]);
      }
    }
    forall t: string | |t| == 64 && (s == t || s == t + "\n") && forall i :: 0 <= i < 64 ==> t[i] in HEX
      ensures IsShaHex(s)
    {
      forall i | 0 <= i < 64 ensures IsHexDigit(s[i]) {
        HexDigits(t[i]);
      }
    }
  }

  const HEX := "0123456789abcdef"

  lemma HexDigits(c: char)
    ensures IsHexDigit(c) <==> c in HEX
  {
    if IsHexDigit(c) {
      var n := if c <= '9' then c as int - 48 else c as int - 87;
      assert HEX[n] == c;
    }
  }

  /** A payload stays in the envelope exactly when its encoded text is no longer than the threshold. */
  lemma StaysInlineIff(k: Codec, threshold: nat, blobs: Blobs, m: Modality)
    ensures Externalized(k, threshold, m) == m <==> m.content.Absent? || |k.encode(m.content.text)| <= threshold
    ensures Externalized(k, threshold, m) == m ==> BlobsAfter(k, threshold, blobs, m) == blobs
  {
  }

  /** A longer one leaves it: its bytes are a blob, which the envelope names by the recorded digest if there is one, and
      a text without one by the digest of its bytes. */
  lemma LargeGoesToBlob(k: Codec, threshold: nat, blobs: Blobs, m: Modality)
    requires k.Valid() && !m.content.Absent? && |k.encode(m.content.text)| > threshold
    ensures var out, after := Externalized(k, threshold, m), BlobsAfter(k, threshold, blobs, m);
            && out.metadata == m.metadata["blob_format" := if m.content.Json? then "json" else "text"]
            && out.content == Absent && out.size == Some(|k.encode(m.content.text)|) && out.sha.Some?
            && out.uri == Some("blob://" + out.sha.value) && out.modality == m.modality && out.mime == m.mime
            && out.sha.value in after
            && after == (if out.sha.value in blobs then blobs else blobs[out.sha.value := k.encode(m.content.text)])
            && (m.sha.Some? && IsShaHex(m.sha.value) ==> out.sha == m.sha)
            && (m.sha.None? && m.content.Str? ==> out.sha.value == k.sha(k.encode(m.content.text)))
  {
  }

  /** A reference to a blob is followed exactly when it names one that is there; what it brings back is the blob's text,
      structured or plain as the envelope says. */
  lemma ReferenceIsFollowed(k: Codec, blobs: Blobs, m: Modality, name: string)
    requires m.uri == Some("blob://" + name)
    ensures Resolved(k, blobs, m) == Failure(InvalidBlobReference) <==> !IsShaHex(name)
    ensures Resolved(k, blobs, m) == Failure(MissingBlob) <==> IsShaHex(name) && name !in blobs
    ensures IsShaHex(name) && name in blobs ==>
              var r := Resolved(k, blobs, m);
              && r.Success? && r.value.uri == None && r.value.modality == m.modality && r.value.mime == m.mime
              && r.value.metadata == m.metadata - {"blob_format"}
              && r.value.content == (if "blob_format" in m.metadata && m.metadata["blob_format"] == "json" then
                                       Json(k.decode(blobs[name]))
                                     else Str(k.decode(blobs[name])))
  {
    assert m.uri.value[|BLOB_SCHEME|..] == name;
  }

  /** Reading an envelope keeps what is there and fills in the rest: the type, the creation time, the digest and size of
      every payload, the content hash, and the id from it. */
  lemma RereadFills(k: Codec, e: Envelope, now: real)
    ensures var r := k.Reread(e, now);
            && r.attributes == e.attributes && r.updatedAt == e.updatedAt
            && r.memoryType == (if e.memoryType == "" then "episodic" else e.memoryType)
            && r.createdAt == (if e.createdAt == 0.0 then now else e.createdAt)
            && |r.modalities| == |e.modalities|
            && (forall i :: 0 <= i < |e.modalities| ==> FillsIn(k, r.modalities[i], e.modalities[i]))
            && r.contentHash == (if e.contentHash == "" then
                                   k.materialHash(Material(e.attributes, r.memoryType, r.modalities))
                                 else e.contentHash)
            && r.id == if e.id == "" then "mem_" + k.idDigest(r.contentHash, r.createdAt, e.attributes.scope) else e.id
  {
  }

  ghost predicate FillsIn(k: Codec, r: Modality, m: Modality) {
    && r == m.(sha := r.sha, size := r.size)
    && (m.content.Absent? || m.sha.Some? ==> r.sha == m.sha) && (m.content.Absent? || m.size.Some? ==> r.size == m.size)
    && (!m.content.Absent? && m.sha.None? ==> r.sha == Some(k.sha(k.encode(m.content.text))))
    && (!m.content.Absent? && m.size.None? ==> r.size == Some(|k.encode(m.content.text)|))
  }

  // ---- the vault as a value ----

  /** A line of the log: blank, not an envelope, or the stored form of one. */
  datatype Line = Blank | Invalid | Entry(envelope: Envelope)

  function LineOf(k: Codec, line: string): Line {
    if Strip(line) == "" then Blank else match k.fromJson(line) case None => Invalid case Some(e) => Entry(e)
  }

  /** The log file's text, read line by line. */
  function LinesOf(k: Codec, text: string): seq<Line> {
    var lines := SplitLines(text);
    seq(|lines|, i requires 0 <= i < |lines| => LineOf(k, lines[i]))
  }

  /** No file reads like an empty one. */
  function TextOf(file: Option<string>): string { if file.Some? then file.value else "" }

  /** What appending these envelopes one after the other leaves in the file. */
  function LogText(k: Codec, es: seq<Envelope>): string {
    if es == [] then "" else k.toJson(es[0]) + "\n" + LogText(k, es[1..])
  }

  function Entries(es: seq<Envelope>): seq<Line> { seq(|es|, i requires 0 <= i < |es| => Entry(es[i])) }

  type Memories = map<Id, Envelope>
  type Addresses = map<Id, Address>

  datatype Indexes = Indexes(memories: Memories, mobius: Addresses, blobs: Blobs)

  function StoredForm(k: Codec, threshold: nat, m: Envelope, now: real): Envelope {
    var original := k.Reread(m, now);
    k.Reread(original.(modalities := ExternalizedAll(k, threshold, original.modalities)), now)
  }

  /** The address is taken from the original, before payloads leave it. */
  function Indexed(k: Codec, threshold: nat, x: Indexes, m: Envelope, now: real): Indexes {
    var original, stored := k.Reread(m, now), StoredForm(k, threshold, m, now);
    Indexes(x.memories[stored.id := stored], x.mobius[stored.id := k.AddressFor(original)],
            BlobsAfterAll(k, threshold, x.blobs, original.modalities))
  }

  function Inspected(k: Codec, x: Indexes, id: Id, now: real): Result<Envelope, StoreError> {
    if id !in x.memories then Failure(NotFound)
    else ResolvedEnvelope(k, x.blobs, k.Reread(x.memories[id], now), now)
  }

  datatype Report = Report(checked: nat, tampered: seq<Id>, invalid: seq<nat>)

  /** Whether a logged envelope resolves to content that its hash covers. */
  predicate Intact(k: Codec, blobs: Blobs, e: Envelope, now: real) {
    var r := ResolvedEnvelope(k, blobs, e, now);
    r.Success? && k.HashOf(r.value) == r.value.contentHash
  }

  function ReportOf(k: Codec, blobs: Blobs, log: seq<Line>, now: real): Report {
    if log == [] then Report(0, [], [])
    else
      var before := ReportOf(k, blobs, log[..|log| - 1], now);
      match log[|log| - 1]
      case Blank => before
      case Invalid => before.(invalid := before.invalid + [|log|])
      case Entry(e) =>
        var read := k.Reread(e, now);
        Report(before.checked + 1,
               if Intact(k, blobs, read, now) then before.tampered else before.tampered + [read.id], before.invalid)
  }

  // ---- the store as an object ----

  class TemporalStore {
    const k: Codec
    const threshold: nat
    var memories: Memories
    var mobius: Addresses
    var blobs: Blobs
    var log: Option<string>

    constructor (k: Codec, threshold: nat)
      ensures this.k == k && this.threshold == threshold
      ensures Now() == Indexes(map[], map[], map[]) && log == None
    {
      this.k, this.threshold := k, threshold;
      memories, mobius, blobs, log := map[], map[], map[], None;
    }

    function Now(): Indexes
      reads this
    {
      Indexes(memories, mobius, blobs)
    }

    method Externalize(ms: seq<Modality>) returns (out: seq<Modality>)
      modifies this`blobs
      ensures out == ExternalizedAll(k, threshold, ms)
      ensures blobs == BlobsAfterAll(k, threshold, old(blobs), ms)
    {
      out := [];
      for i := 0 to |ms|
        invariant out == ExternalizedAll(k, threshold, ms[..i])
        invariant blobs == BlobsAfterAll(k, threshold, old(blobs), ms[..i])
      {
        var m := ms[i];
        assert ms[..i + 1][..i] == ms[..i];
        if Large(k, threshold, m) && BlobName(k, m) !in blobs {
          blobs := blobs[BlobName(k, m) := k.DataOf(m.content)];
        }
        out := out + [Externalized(k, threshold, m)];
      }
      assert ms[..|ms|] == ms;
    }

    method Remember(m: Envelope, appendLog: bool, now: real) returns (id: Id)
      modifies this
      ensures Now() == Indexed(k, threshold, old(Now()), m, now)
      ensures id == StoredForm(k, threshold, m, now).id
      ensures log == if appendLog then Some(TextOf(old(log)) + k.toJson(StoredForm(k, threshold, m, now)) + "\n")
                     else old(log)
    {
      var original := k.Reread(m, now);
      var kept := Externalize(original.modalities);
      var stored := k.Reread(original.(modalities := kept), now);
      memories := memories[stored.id := stored];
      mobius := mobius[stored.id := k.AddressFor(original)];
      if appendLog {
        log := Some(TextOf(log) + k.toJson(stored) + "\n");
      }
      id := stored.id;
    }

    method ResolveBlobs(e: Envelope, now: real) returns (r: Result<Envelope, StoreError>)
      ensures r == ResolvedEnvelope(k, blobs, e, now)
    {
      var out: seq<Modality> := [];
      for i := 0 to |e.modalities|
        invariant ResolvedAll(k, blobs, e.modalities[..i]) == Success(out)
      {
        assert e.modalities[..i + 1][..i] == e.modalities[..i];
        var m := Resolved(k, blobs, e.modalities[i]);
        if m.Failure? {
          FailureStays(k, blobs, e.modalities, i + 1);
          return Failure(m.error);
        }
        out := out + [m.value];
      }
      assert e.modalities[..|e.modalities|] == e.modalities;
      r := Success(k.Reread(e.(modalities := out), now));
    }

    method Inspect(id: Id, now: real) returns (r: Result<Envelope, StoreError>)
      ensures r == Inspected(k, Now(), id, now)
    {
      if id !in memories {
        return Failure(NotFound);
      }
      r := ResolveBlobs(k.Reread(memories[id], now), now);
    }

    /** Lines are numbered from 1. */
    method VerifyIntegrity(now: real) returns (report: Report)
      ensures report == ReportOf(k, blobs, LinesOf(k, TextOf(log)), now)
    {
      report := Report(0, [], []);
      if log.None? {
        return;
      }
      var lines := SplitLines(log.value);
      ghost var all := LinesOf(k, log.value);
      for i := 0 to |lines|
        invariant report == ReportOf(k, blobs, all[..i], now)
      {
        assert all[..i + 1][..i] == all[..i];
        if Strip(lines[i]) == "" {
          continue;
        }
        var parsed := k.fromJson(lines[i]);
        if parsed.None? {
          report := report.(invalid := report.invalid + [i + 1]);
          continue;
        }
        var read := k.Reread(parsed.value, now);
        var resolved := ResolveBlobs(read, now);
        var intact := resolved.Success? && k.HashOf(resolved.value) == resolved.value.contentHash;
        report := Report(report.checked + 1,
                         if intact then report.tampered else report.tampered + [read.id], report.invalid);
      }
      assert all[..|lines|] == all;
    }

    /** The tables go, the blobs and the log stay. */
    method ClearIndexes()
      modifies this`memories, this`mobius
      ensures memories == map[] && mobius == map[]
    {
      memories, mobius := map[], map[];
    }
  }

  lemma {:induction false} FailureStays(k: Codec, blobs: Blobs, ms: seq<Modality>, i: nat)
    requires i <= |ms| && ResolvedAll(k, blobs, ms[..i]).Failure?
    ensures ResolvedAll(k, blobs, ms) == ResolvedAll(k, blobs, ms[..i])
    decreases |ms| - i
  {
    if i == |ms| {
      assert ms[..i] == ms;
    } else {
      assert ms[..i + 1][..i] == ms[..i];
      FailureStays(k, blobs, ms, i + 1);
    }
  }

  // ---- runs ----

  /** Rereading changes nothing. */
  predicate Settled(k: Codec, e: Envelope) {
    && e.createdAt != 0.0 && e.memoryType != "" && e.contentHash != "" && e.id != ""
    && k.FilledAll(e.modalities) == e.modalities
  }

  predicate NothingLarge(k: Codec, threshold: nat, ms: seq<Modality>) {
    forall i :: 0 <= i < |ms| ==> !Large(k, threshold, ms[i])
  }

  lemma RereadSettled(k: Codec, e: Envelope, now: real)
    requires Settled(k, e)
    ensures k.Reread(e, now) == e
  {
  }

  lemma FilledTwice(k: Codec, ms: seq<Modality>)
    ensures k.FilledAll(k.FilledAll(ms)) == k.FilledAll(ms)
  {
  }

  lemma RereadSettles(k: Codec, e: Envelope, now: real)
    requires k.Valid() && now != 0.0
    ensures Settled(k, k.Reread(e, now))
  {
    FilledTwice(k, e.modalities);
  }

  /** The stored form is settled, has no payload above the threshold, and has the address of the original. */
  lemma StoredIsPlain(k: Codec, threshold: nat, m: Envelope, now: real)
    requires k.Valid() && now != 0.0
    ensures var original, stored := k.Reread(m, now), StoredForm(k, threshold, m, now);
            && Settled(k, stored) && NothingLarge(k, threshold, stored.modalities)
            && stored == original.(modalities := ExternalizedAll(k, threshold, original.modalities))
            && k.AddressFor(stored) == k.AddressFor(original)
  {
    var original := k.Reread(m, now);
    RereadSettles(k, m, now);
    var plain := original.(modalities := ExternalizedAll(k, threshold, original.modalities));
    PlainItems(k, threshold, original.modalities);
    RereadSettled(k, plain, now);
    assert k.NamesOf(plain.modalities) == k.NamesOf(original.modalities);
  }

  lemma PlainItems(k: Codec, threshold: nat, ms: seq<Modality>)
    requires k.FilledAll(ms) == ms
    ensures var out := ExternalizedAll(k, threshold, ms);
            && k.FilledAll(out) == out && NothingLarge(k, threshold, out)
            && |out| == |ms| && forall i :: 0 <= i < |ms| ==> out[i].modality == ms[i].modality
  {
    forall i | 0 <= i < |ms| ensures k.Filled(Externalized(k, threshold, ms[i])) == Externalized(k, threshold, ms[i]) {
      assert k.FilledAll(ms)[i] == k.Filled(ms[i]);
    }
  }

  lemma {:induction false} NothingLargeNothingWritten(k: Codec, threshold: nat, blobs: Blobs, ms: seq<Modality>)
    requires NothingLarge(k, threshold, ms)
    ensures ExternalizedAll(k, threshold, ms) == ms
    ensures BlobsAfterAll(k, threshold, blobs, ms) == blobs
  {
    if ms != [] {
      NothingLargeNothingWritten(k, threshold, blobs, ms[..|ms| - 1]);
    }
  }

  /** Indexing a stored form again only puts it back where it was. */
  lemma IndexedAgain(k: Codec, threshold: nat, x: Indexes, e: Envelope, now: real)
    requires Settled(k, e) && NothingLarge(k, threshold, e.modalities)
    ensures Indexed(k, threshold, x, k.Reread(e, now), now)
         == Indexes(x.memories[e.id := e], x.mobius[e.id := k.AddressFor(e)], x.blobs)
  {
    RereadSettled(k, e, now);
    NothingLargeNothingWritten(k, threshold, x.blobs, e.modalities);
  }

  datatype Request = Request(envelope: Envelope, now: real)

  /** Tables after a run of remember on an empty store, and the envelopes that were logged. */
  function Run(k: Codec, threshold: nat, qs: seq<Request>): (r: (Indexes, seq<Envelope>))
    ensures |r.1| == |qs|
  {
    if qs == [] then (Indexes(map[], map[], map[]), [])
    else
      var (x, logged) := Run(k, threshold, qs[..|qs| - 1]);
      var q := qs[|qs| - 1];
      (Indexed(k, threshold, x, q.envelope, q.now), logged + [StoredForm(k, threshold, q.envelope, q.now)])
  }

  lemma {:induction false} LoggedAt(k: Codec, threshold: nat, qs: seq<Request>, i: nat)
    requires i < |qs|
    ensures Run(k, threshold, qs).1[i] == StoredForm(k, threshold, qs[i].envelope, qs[i].now)
  {
    if i < |qs| - 1 {
      LoggedAt(k, threshold, qs[..|qs| - 1], i);
    }
  }

  // ---- the log as text ----

  /** The line ends of str.splitlines that JSON leaves as they are: next line, line separator, paragraph separator. */
  predicate RawBreak(c: char) { c == '\U{85}' || c == '\U{2028}' || c == '\U{2029}' }

  predicate HasRawBreak(s: string) { exists i :: 0 <= i < |s| && RawBreak(s[i]) }

  predicate InText(m: Modality, c: char) { m.content.Str? && c in m.content.text }

  /** What JSON promises about one envelope: its text is an object that reads back, no proper beginning of it is JSON,
      and control characters are escaped while all other characters of a text appear as they are. */
  ghost predicate Printed(k: Codec, e: Envelope) {
    var s := k.toJson(e);
    && s != "" && s[0] == '{' && k.fromJson(s) == Some(e)
    && (forall n :: 0 < n < |s| ==> k.fromJson(s[..n]) == None)
    && (forall i :: 0 <= i < |s| && IsBreak(s[i]) ==> RawBreak(s[i]))
    && (forall i, c :: 0 <= i < |e.modalities| && InText(e.modalities[i], c) && RawBreak(c) ==> c in s)
  }

  ghost predicate AllPrinted(k: Codec, es: seq<Envelope>) { forall i :: 0 <= i < |es| ==> Printed(k, es[i]) }

  /** No logged text holds a line end that JSON leaves raw. */
  ghost predicate Unbroken(k: Codec, es: seq<Envelope>) { forall i :: 0 <= i < |es| ==> !HasRawBreak(k.toJson(es[i])) }

  lemma LinesOfMore(k: Codec, e: Envelope, rest: string)
    requires Printed(k, e) && !HasRawBreak(k.toJson(e))
    ensures LinesOf(k, k.toJson(e) + "\n" + rest) == [Entry(e)] + LinesOf(k, rest)
  {
    var s := k.toJson(e);
    SplitFirst(s, rest);
    NotBlank(s, |s|);
    assert s[..|s|] == s;
    assert LineOf(k, s) == Entry(e);
    var lines, more := SplitLines(s + "\n" + rest), SplitLines(rest);
    forall i | 0 <= i < |lines| ensures LineOf(k, lines[i]) == ([Entry(e)] + LinesOf(k, rest))[i] {
      assert i > 0 ==> lines[i] == more[i - 1];
    }
  }

  /** A text that starts with a brace is not blank, however short it is cut. */
  lemma NotBlank(s: string, n: nat)
    requires 0 < n <= |s| && s[0] == '{'
    ensures Strip(s[..n]) != ""
  {
    var _ := StripCuts(s[..n]);
    assert !IsSpace(s[..n][0]);
  }

  lemma {:induction false} FirstBreak(s: string) returns (i: nat)
    requires HasRawBreak(s)
    ensures i < |s| && RawBreak(s[i]) && forall j :: 0 <= j < i ==> !RawBreak(s[j])
  {
    i := 0;
    if !RawBreak(s[0]) {
      var j :| 0 <= j < |s| && RawBreak(s[j]);
      assert s[1..][j - 1] == s[j];
      i := FirstBreak(s[1..]);
      i := i + 1;
    }
  }

  /** An envelope whose text holds a raw line end reads as a line that is no envelope, followed by others. */
  lemma BrokenFirst(k: Codec, e: Envelope, rest: string)
    requires Printed(k, e) && HasRawBreak(k.toJson(e))
    ensures var lines := LinesOf(k, k.toJson(e) + "\n" + rest); lines != [] && lines[0] == Invalid
  {
    var s := k.toJson(e);
    var n := FirstBreak(s);
    BreakIsFirst(s, "\n" + rest, n);
    assert s + "\n" + rest == s + ("\n" + rest);
    assert (s + "\n" + rest)[..n] == s[..n];
    assert !IsBreak(s[0]);
    NotBlank(s, n);
  }

  /** The log reads back as the envelopes that were written exactly when no written text holds a raw line end. */
  lemma {:induction false} LogReadsBackIff(k: Codec, es: seq<Envelope>)
    requires AllPrinted(k, es)
    ensures LinesOf(k, LogText(k, es)) == Entries(es) <==> Unbroken(k, es)
    ensures !Unbroken(k, es) ==> Invalid in LinesOf(k, LogText(k, es))
  {
    if es != [] {
      var rest := LogText(k, es[1..]);
      LogReadsBackIff(k, es[1..]);
      assert Unbroken(k, es) <==> !HasRawBreak(k.toJson(es[0])) && Unbroken(k, es[1..]) by {
        assert forall i :: 0 < i < |es| ==> es[i] == es[1..][i - 1];
      }
      assert Entries(es) == [Entry(es[0])] + Entries(es[1..]);
      if HasRawBreak(k.toJson(es[0])) {
        BrokenFirst(k, es[0], rest);
        assert Invalid !in Entries(es);
      } else {
        LinesOfMore(k, es[0], rest);
        assert ([Entry(es[0])] + LinesOf(k, rest))[1..] == LinesOf(k, rest);
      }
    } else {
      assert LogText(k, es) == "" && LinesOf(k, "") == [];
    }
  }

  lemma LogStarts(k: Codec, es: seq<Envelope>)
    requires es != [] && Printed(k, es[0])
    ensures var lines := LinesOf(k, LogText(k, es));
            lines != [] && lines[0] == if HasRawBreak(k.toJson(es[0])) then Invalid else Entry(es[0])
  {
    if HasRawBreak(k.toJson(es[0])) {
      BrokenFirst(k, es[0], LogText(k, es[1..]));
    } else {
      LinesOfMore(k, es[0], LogText(k, es[1..]));
    }
  }

  lemma UnbrokenRest(k: Codec, es: seq<Envelope>, n: nat)
    requires 0 < n <= |es| && AllPrinted(k, es) && Unbroken(k, es[..n])
    ensures AllPrinted(k, es[1..]) && Unbroken(k, es[1..][..n - 1]) && !HasRawBreak(k.toJson(es[0]))
  {
    var front, rest := es[..n], es[1..][..n - 1];
    assert front[0] == es[0];
    forall i | 0 <= i < n - 1 ensures !HasRawBreak(k.toJson(rest[i])) {
      assert rest[i] == front[i + 1];
    }
  }

  lemma EntriesFirst(es: seq<Envelope>, n: nat, rest: seq<Line>)
    requires 0 < n <= |es| && n - 1 <= |rest| && rest[..n - 1] == Entries(es[1..][..n - 1])
    ensures ([Entry(es[0])] + rest)[..n] == Entries(es[..n])
  {
    assert ([Entry(es[0])] + rest)[..n] == [Entry(es[0])] + rest[..n - 1];
    assert Entries(es[..n]) == [Entry(es[0])] + Entries(es[1..][..n - 1]);
  }

  /** Up to the first text that holds a raw line end the log reads back; in its place stands a line that is no
      envelope. */
  lemma {:induction false} LogReadsUpTo(k: Codec, es: seq<Envelope>, n: nat)
    requires n <= |es| && AllPrinted(k, es) && Unbroken(k, es[..n])
    ensures var lines := LinesOf(k, LogText(k, es));
            && n <= |lines| && lines[..n] == Entries(es[..n])
            && (n < |es| ==> n < |lines| && lines[n] == if HasRawBreak(k.toJson(es[n])) then Invalid else Entry(es[n]))
  {
    if n > 0 {
      UnbrokenRest(k, es, n);
      LogReadsUpTo(k, es[1..], n - 1);
      LinesOfMore(k, es[0], LogText(k, es[1..]));
      EntriesFirst(es, n, LinesOf(k, LogText(k, es[1..])));
    } else if es != [] {
      LogStarts(k, es);
    }
  }

  /** Appending a line to the file is logging one envelope more. */
  lemma {:induction false} LogTextMore(k: Codec, es: seq<Envelope>, e: Envelope)
    ensures LogText(k, es + [e]) == LogText(k, es) + k.toJson(e) + "\n"
  {
    if es == [] {
      assert [] + [e] == [e] && [e][1..] == [];
    } else {
      assert (es + [e])[1..] == es[1..] + [e];
      LogTextMore(k, es[1..], e);
      var s := k.toJson(es[0]) + "\n";
      assert s + (LogText(k, es[1..]) + k.toJson(e) + "\n") == s + LogText(k, es[1..]) + k.toJson(e) + "\n";
    }
  }

  // ---- what comes back is what was remembered ----

  /** Envelopes that are complete, hash-consistent, and made of modalities the store can restore. */
  predicate WellFormed(k: Codec, threshold: nat, e: Envelope) {
    && Settled(k, e) && e.contentHash == k.HashOf(e)
    && forall i :: 0 <= i < |e.modalities| ==> Restorable(k, threshold, e.modalities[i])
  }

  /** The payloads in use have distinct digests. */
  ghost predicate CollisionFree(k: Codec, data: set<Bytes>) {
    forall x, y :: x in data && y in data && k.sha(x) == k.sha(y) ==> x == y
  }

  ghost predicate PayloadsAmong(k: Codec, threshold: nat, ms: seq<Modality>, data: set<Bytes>) {
    forall i :: 0 <= i < |ms| && Large(k, threshold, ms[i]) ==> k.DataOf(ms[i].content) in data
  }

  /** Every blob is named by its own digest. */
  ghost predicate BlobsOk(k: Codec, data: set<Bytes>, blobs: Blobs) {
    forall n :: n in blobs ==> blobs[n] in data && k.sha(blobs[n]) == n
  }

  ghost predicate Within(a: Blobs, b: Blobs) { forall n :: n in a ==> n in b && b[n] == a[n] }

  /** The blobs hold all large payloads of the modalities. */
  ghost predicate Holds(k: Codec, threshold: nat, blobs: Blobs, ms: seq<Modality>) {
    forall i :: 0 <= i < |ms| && Large(k, threshold, ms[i]) ==> HoldsOne(k, blobs, ms[i])
  }

  ghost predicate HoldsOne(k: Codec, blobs: Blobs, m: Modality) {
    var data := k.DataOf(m.content);
    k.sha(data) in blobs && blobs[k.sha(data)] == data
  }

  lemma NameOfRestorable(k: Codec, threshold: nat, m: Modality)
    requires k.Valid() && Large(k, threshold, m) && Restorable(k, threshold, m)
    ensures BlobName(k, m) == k.sha(k.DataOf(m.content))
  {
    assert IsShaHex(k.sha(k.DataOf(m.content)));
  }

  /** Writing the payloads keeps every blob true to its name, keeps the old blobs, and adds the new ones. */
  lemma {:induction false} WritingHolds(k: Codec, threshold: nat, data: set<Bytes>, blobs: Blobs, ms: seq<Modality>)
    requires k.Valid() && CollisionFree(k, data) && BlobsOk(k, data, blobs) && PayloadsAmong(k, threshold, ms, data)
    requires forall i :: 0 <= i < |ms| ==> Restorable(k, threshold, ms[i])
    ensures var after := BlobsAfterAll(k, threshold, blobs, ms);
            BlobsOk(k, data, after) && Within(blobs, after) && Holds(k, threshold, after, ms)
  {
    if ms != [] {
      var front, m := ms[..|ms| - 1], ms[|ms| - 1];
      WritingHolds(k, threshold, data, blobs, front);
      var before := BlobsAfterAll(k, threshold, blobs, front);
      if Large(k, threshold, m) {
        NameOfRestorable(k, threshold, m);
      }
      var after := BlobsAfter(k, threshold, before, m);
      assert Within(before, after);
      forall i | 0 <= i < |ms| && Large(k, threshold, ms[i]) ensures HoldsOne(k, after, ms[i]) {
        if i < |front| {
          assert HoldsOne(k, before, front[i]);
        }
      }
    }
  }

  lemma RestoredOne(k: Codec, threshold: nat, blobs: Blobs, m: Modality)
    requires k.Valid() && k.Filled(m) == m && Restorable(k, threshold, m)
    requires Large(k, threshold, m) ==> HoldsOne(k, blobs, m)
    ensures Resolved(k, blobs, Externalized(k, threshold, m)) == Success(m)
  {
    if Large(k, threshold, m) {
      NameOfRestorable(k, threshold, m);
    }
    ItemRoundTripIff(k, threshold, blobs, m);
  }

  lemma FilledParts(k: Codec, ms: seq<Modality>)
    requires ms != [] && k.FilledAll(ms) == ms
    ensures k.FilledAll(ms[..|ms| - 1]) == ms[..|ms| - 1] && k.Filled(ms[|ms| - 1]) == ms[|ms| - 1]
  {
    assert forall i :: 0 <= i < |ms| ==> k.FilledAll(ms)[i] == k.Filled(ms[i]);
  }

  lemma {:induction false} RestoredAll(k: Codec, threshold: nat, blobs: Blobs, ms: seq<Modality>)
    requires k.Valid() && k.FilledAll(ms) == ms && Holds(k, threshold, blobs, ms)
    requires forall i :: 0 <= i < |ms| ==> Restorable(k, threshold, ms[i])
    ensures ResolvedAll(k, blobs, ExternalizedAll(k, threshold, ms)) == Success(ms)
  {
    if ms != [] {
      var n := |ms| - 1;
      FilledParts(k, ms);
      RestoredAll(k, threshold, blobs, ms[..n]);
      RestoredOne(k, threshold, blobs, ms[n]);
      assert ExternalizedAll(k, threshold, ms)[..n] == ExternalizedAll(k, threshold, ms[..n]);
      assert ms[..n] + [ms[n]] == ms;
    }
  }

  /** A stored form resolves to the envelope it came from wherever its payloads are held. */
  lemma RestoredEnvelope(k: Codec, threshold: nat, blobs: Blobs, e: Envelope, now: real, later: real)
    requires k.Valid() && now != 0.0 && WellFormed(k, threshold, e) && Holds(k, threshold, blobs, e.modalities)
    ensures var stored := StoredForm(k, threshold, e, now);
            && stored.id == e.id && k.Reread(stored, later) == stored
            && ResolvedEnvelope(k, blobs, stored, later) == Success(e)
  {
    RereadSettled(k, e, now);
    StoredIsPlain(k, threshold, e, now);
    RereadSettled(k, StoredForm(k, threshold, e, now), later);
    RestoredAll(k, threshold, blobs, e.modalities);
    RereadSettled(k, e, later);
    assert StoredForm(k, threshold, e, now).(modalities := e.modalities) == e;
  }

  /** The envelope remembered last under an id. */
  function Last(qs: seq<Request>, id: Id): Option<Envelope> {
    if qs == [] then None
    else if qs[|qs| - 1].envelope.id == id then Some(qs[|qs| - 1].envelope)
    else Last(qs[..|qs| - 1], id)
  }

  ghost predicate GoodRun(k: Codec, threshold: nat, data: set<Bytes>, qs: seq<Request>) {
    && k.Valid() && CollisionFree(k, data)
    && forall i :: 0 <= i < |qs| ==>
         && qs[i].now != 0.0 && WellFormed(k, threshold, qs[i].envelope)
         && PayloadsAmong(k, threshold, qs[i].envelope.modalities, data)
  }

  /** After a good run the blobs are true to their names and hold the payloads of every remembered envelope. */
  lemma {:induction false} BlobsOfRun(k: Codec, threshold: nat, data: set<Bytes>, qs: seq<Request>)
    requires GoodRun(k, threshold, data, qs)
    ensures var blobs := Run(k, threshold, qs).0.blobs;
            && BlobsOk(k, data, blobs)
            && forall i :: 0 <= i < |qs| ==> Holds(k, threshold, blobs, qs[i].envelope.modalities)
  {
    if qs != [] {
      var before, q := qs[..|qs| - 1], qs[|qs| - 1];
      BlobsOfRun(k, threshold, data, before);
      var blobs := Run(k, threshold, before).0.blobs;
      RereadSettled(k, q.envelope, q.now);
      WritingHolds(k, threshold, data, blobs, q.envelope.modalities);
      var after := Run(k, threshold, qs).0.blobs;
      forall i | 0 <= i < |qs| ensures Holds(k, threshold, after, qs[i].envelope.modalities) {
        if i < |before| {
          HoldsLonger(k, threshold, blobs, after, before[i].envelope.modalities);
        }
      }
    }
  }

  lemma HoldsLonger(k: Codec, threshold: nat, blobs: Blobs, after: Blobs, ms: seq<Modality>)
    requires Within(blobs, after) && Holds(k, threshold, blobs, ms)
    ensures Holds(k, threshold, after, ms)
  {
    forall i | 0 <= i < |ms| && Large(k, threshold, ms[i]) ensures HoldsOne(k, after, ms[i]) {
      assert HoldsOne(k, blobs, ms[i]);
    }
  }

  /** The memories table holds the stored form of the last envelope under each id. */
  lemma {:induction false} MemoriesOfRun(k: Codec, threshold: nat, data: set<Bytes>, qs: seq<Request>, id: Id)
    returns (i: nat)
    requires GoodRun(k, threshold, data, qs)
    ensures var x := Run(k, threshold, qs).0;
            && (id in x.memories <==> Last(qs, id).Some?)
            && (Last(qs, id).Some? ==>
                  && i < |qs| && qs[i].envelope == Last(qs, id).value
                  && x.memories[id] == StoredForm(k, threshold, qs[i].envelope, qs[i].now))
  {
    i := 0;
    if qs != [] {
      var before, q := qs[..|qs| - 1], qs[|qs| - 1];
      RereadSettled(k, q.envelope, q.now);
      StoredIsPlain(k, threshold, q.envelope, q.now);
      i := MemoriesOfRun(k, threshold, data, before, id);
      if q.envelope.id == id {
        i := |qs| - 1;
      }
    }
  }

  /** Inspecting an id at any later time gives the last envelope remembered under it, payloads included. */
  lemma InspectGivesLast(k: Codec, threshold: nat, data: set<Bytes>, qs: seq<Request>, id: Id, later: real)
    requires GoodRun(k, threshold, data, qs)
    ensures Inspected(k, Run(k, threshold, qs).0, id, later)
         == if Last(qs, id).Some? then Success(Last(qs, id).value) else Failure(NotFound)
  {
    var i := MemoriesOfRun(k, threshold, data, qs, id);
    BlobsOfRun(k, threshold, data, qs);
    if Last(qs, id).Some? {
      RestoredEnvelope(k, threshold, Run(k, threshold, qs).0.blobs, qs[i].envelope, qs[i].now, later);
    }
  }

  /** And the integrity check reports every line as checked and none as tampered or invalid, exactly when no logged
      text holds a raw line end; otherwise it reports an invalid line although nothing was tampered with. */
  lemma VerifyReportsNothingIff(k: Codec, threshold: nat, data: set<Bytes>, qs: seq<Request>, later: real)
    requires GoodRun(k, threshold, data, qs) && AllPrinted(k, Run(k, threshold, qs).1)
    ensures var (x, logged) := Run(k, threshold, qs);
            var report := ReportOf(k, x.blobs, LinesOf(k, LogText(k, logged)), later);
            && (report == Report(|qs|, [], []) <==> Unbroken(k, logged))
            && (!Unbroken(k, logged) ==> report.invalid != [])
  {
    var (x, logged) := Run(k, threshold, qs);
    var lines := LinesOf(k, LogText(k, logged));
    LogReadsBackIff(k, logged);
    if Unbroken(k, logged) {
      BlobsOfRun(k, threshold, data, qs);
      CleanReport(k, threshold, data, qs, x.blobs, later);
    } else {
      var i :| 0 <= i < |lines| && lines[i] == Invalid;
      ReportIff(k, x.blobs, lines, later);
      assert i + 1 in ReportOf(k, x.blobs, lines, later).invalid;
    }
  }

  lemma {:induction false} CleanReport(k: Codec, threshold: nat, data: set<Bytes>, qs: seq<Request>, blobs: Blobs,
                                       later: real)
    requires GoodRun(k, threshold, data, qs)
    requires forall i :: 0 <= i < |qs| ==> Holds(k, threshold, blobs, qs[i].envelope.modalities)
    ensures ReportOf(k, blobs, Entries(Run(k, threshold, qs).1), later) == Report(|qs|, [], [])
  {
    if qs != [] {
      var before, q := qs[..|qs| - 1], qs[|qs| - 1];
      CleanReport(k, threshold, data, before, blobs, later);
      RestoredEnvelope(k, threshold, blobs, q.envelope, q.now, later);
      ReportMore(k, blobs, Run(k, threshold, before).1, StoredForm(k, threshold, q.envelope, q.now), later);
    }
  }

  lemma ReportMore(k: Codec, blobs: Blobs, logged: seq<Envelope>, e: Envelope, now: real)
    requires Intact(k, blobs, k.Reread(e, now), now)
    ensures var before := ReportOf(k, blobs, Entries(logged), now);
            ReportOf(k, blobs, Entries(logged + [e]), now) == before.(checked := before.checked + 1)
  {
    assert Entries(logged + [e])[..|logged|] == Entries(logged);
  }

  /** A run that breaks its log: one remembered text with a line separator in it, small enough to stay in the
      envelope. The log then holds a line that is no envelope, and the next integrity check reports it. */
  lemma LineSeparatorBreaksTheLog(k: Codec, threshold: nat, base: Envelope, now: real, later: real)
    requires k.Valid() && now != 0.0 && |k.encode("a\U{2028}b")| <= threshold
    requires Printed(k, StoredForm(k, threshold, WithText(base, "a\U{2028}b"), now))
    ensures var (x, logged) := Run(k, threshold, [Request(WithText(base, "a\U{2028}b"), now)]);
            var lines := LinesOf(k, LogText(k, logged));
            Invalid in lines && ReportOf(k, x.blobs, lines, later).invalid != []
  {
    var text := "a\U{2028}b";
    var qs := [Request(WithText(base, text), now)];
    var (x, logged) := Run(k, threshold, qs);
    LoggedAt(k, threshold, qs, 0);
    SeparatorIsRaw(k, threshold, base, now);
    LogReadsBackIff(k, logged);
    assert !Unbroken(k, logged);
    var lines := LinesOf(k, LogText(k, logged));
    var n :| 0 <= n < |lines| && lines[n] == Invalid;
    ReportIff(k, x.blobs, lines, later);
    assert n + 1 in ReportOf(k, x.blobs, lines, later).invalid;
  }

  lemma SeparatorIsRaw(k: Codec, threshold: nat, base: Envelope, now: real)
    requires k.Valid() && now != 0.0 && |k.encode("a\U{2028}b")| <= threshold
    requires Printed(k, StoredForm(k, threshold, WithText(base, "a\U{2028}b"), now))
    ensures HasRawBreak(k.toJson(StoredForm(k, threshold, WithText(base, "a\U{2028}b"), now)))
  {
    var text := "a\U{2028}b";
    var stored := StoredForm(k, threshold, WithText(base, text), now);
    StoredIsPlain(k, threshold, WithText(base, text), now);
    assert stored.modalities[0].content == Str(text) && text[1] in text;
    var s := k.toJson(stored);
    assert '\U{2028}' in s;
    var i :| 0 <= i < |s| && s[i] == '\U{2028}';
    assert RawBreak(s[i]);
  }

  /** An envelope whose only modality is this text. */
  function WithText(base: Envelope, text: string): Envelope {
    base.(modalities := [Modality("text", Str(text), None, None, None, None, map[])])
  }

  /** The line is an envelope with this id that does not resolve, or resolves to content its hash is not the hash of. */
  ghost predicate Tampered(k: Codec, blobs: Blobs, line: Line, now: real, id: Id) {
    line.Entry? &&
    var e := k.Reread(line.envelope, now);
    && e.id == id
    && match ResolvedAll(k, blobs, e.modalities)
       case Failure(_) => true
       case Success(ms) => k.materialHash(Material(e.attributes, e.memoryType, ms)) != e.contentHash
  }

  /** Resolving leaves nothing to fill in. */
  lemma {:induction false} ResolvedIsFilled(k: Codec, blobs: Blobs, ms: seq<Modality>)
    requires k.FilledAll(ms) == ms && ResolvedAll(k, blobs, ms).Success?
    ensures k.FilledAll(ResolvedAll(k, blobs, ms).value) == ResolvedAll(k, blobs, ms).value
  {
    if ms != [] {
      var n := |ms| - 1;
      assert forall i :: 0 <= i < |ms| ==> k.FilledAll(ms)[i] == ms[i];
      assert k.FilledAll(ms[..n]) == ms[..n];
      ResolvedIsFilled(k, blobs, ms[..n]);
      FilledSnoc(k, ResolvedAll(k, blobs, ms[..n]).value, Resolved(k, blobs, ms[n]).value);
    }
  }

  lemma FilledSnoc(k: Codec, ms: seq<Modality>, m: Modality)
    ensures k.FilledAll(ms + [m]) == k.FilledAll(ms) + [k.Filled(m)]
  {
  }

  lemma IntactIff(k: Codec, blobs: Blobs, e: Envelope, now: real)
    requires k.Valid()
    ensures var read := k.Reread(e, now);
            Intact(k, blobs, read, now) <==> !Tampered(k, blobs, Entry(e), now, read.id)
  {
    var read := k.Reread(e, now);
    FilledTwice(k, e.modalities);
    var resolved := ResolvedAll(k, blobs, read.modalities);
    if resolved.Success? {
      ResolvedIsFilled(k, blobs, read.modalities);
      ReadHash(k, e, now);
      assert k.Reread(read.(modalities := resolved.value), now) == read.(modalities := resolved.value);
    }
  }

  lemma ReadHash(k: Codec, e: Envelope, now: real)
    requires k.Valid()
    ensures var read := k.Reread(e, now); read.memoryType != "" && read.contentHash != "" && read.id != ""
  {
  }

  /** What the integrity check reports, exactly: the lines that are no envelopes, counted from 1, and the ids of the
      envelopes that do not resolve to content their hash is the hash of; it counts the rest as checked, too. */
  lemma {:induction false} ReportIff(k: Codec, blobs: Blobs, log: seq<Line>, now: real)
    requires k.Valid()
    ensures var report := ReportOf(k, blobs, log, now);
            && (forall id :: id in report.tampered <==>
                  exists i :: 0 <= i < |log| && Tampered(k, blobs, log[i], now, id))
            && (forall i :: i in report.invalid <==> 1 <= i <= |log| && log[i - 1].Invalid?)
            && report.checked == |set i | 0 <= i < |log| && log[i].Entry?|
  {
    if log != [] {
      var n := |log| - 1;
      var front, before, report := log[..n], ReportOf(k, blobs, log[..n], now), ReportOf(k, blobs, log, now);
      ReportIff(k, blobs, front, now);
      assert forall i :: 0 <= i < n ==> front[i] == log[i];
      if log[n].Entry? {
        IntactIff(k, blobs, log[n].envelope, now);
      }
      TamperedMore(k, blobs, log, now, before, report);
      EntriesCounted(log);
    }
  }

  lemma EntriesCounted(log: seq<Line>)
    requires log != []
    ensures var n := |log| - 1;
            |set i | 0 <= i < |log| && log[i].Entry?|
            == |set i | 0 <= i < n && log[..n][i].Entry?| + if log[n].Entry? then 1 else 0
  {
    var n := |log| - 1;
    var all, front := set i | 0 <= i < |log| && log[i].Entry?, set i | 0 <= i < n && log[..n][i].Entry?;
    assert all == front + if log[n].Entry? then {n} else {};
  }

  lemma TamperedMore(k: Codec, blobs: Blobs, log: seq<Line>, now: real, before: Report, report: Report)
    requires log != []
    requires var n := |log| - 1;
             && (forall id :: id in before.tampered <==>
                   exists i :: 0 <= i < n && Tampered(k, blobs, log[..n][i], now, id))
             && (forall id :: id in report.tampered <==>
                   id in before.tampered || Tampered(k, blobs, log[n], now, id))
    ensures forall id :: id in report.tampered <==>
                           exists i :: 0 <= i < |log| && Tampered(k, blobs, log[i], now, id)
  {
    var n := |log| - 1;
    forall id ensures id in report.tampered <==> exists i :: 0 <= i < |log| && Tampered(k, blobs, log[i], now, id) {
      assert forall i :: 0 <= i < n ==>
          (Tampered(k, blobs, log[..n][i], now, id) <==> Tampered(k, blobs, log[i], now, id));
    }
  }

  /** Tampering shows. In the log of a good run, an envelope is replaced by one with other content under the old hash:
      the next check reports its id, or two different contents have one hash. */
  lemma EditIsReported(k: Codec, threshold: nat, data: set<Bytes>, qs: seq<Request>, i: nat, edited: Envelope,
                       later: real) returns (collision: Option<(Material, Material)>)
    requires GoodRun(k, threshold, data, qs) && i < |qs| && Settled(k, edited)
    requires edited.contentHash == Run(k, threshold, qs).1[i].contentHash
    requires var (x, logged) := Run(k, threshold, qs); var original := qs[i].envelope;
             var resolved := ResolvedAll(k, x.blobs, edited.modalities);
             && AllPrinted(k, logged[i := edited]) && Unbroken(k, logged[i := edited])
             && (resolved.Success? ==>
                   Material(edited.attributes, edited.memoryType, resolved.value)
                   != Material(original.attributes, original.memoryType, original.modalities))
    ensures collision.Some? ==>
              collision.value.0 != collision.value.1
              && k.materialHash(collision.value.0) == k.materialHash(collision.value.1)
    ensures var (x, logged) := Run(k, threshold, qs);
            collision.None? ==>
              edited.id in ReportOf(k, x.blobs, LinesOf(k, LogText(k, logged[i := edited])), later).tampered
  {
    var (x, logged) := Run(k, threshold, qs);
    var original := qs[i].envelope;
    LoggedAt(k, threshold, qs, i);
    RereadSettled(k, original, qs[i].now);
    StoredIsPlain(k, threshold, original, qs[i].now);
    LogReadsBackIff(k, logged[i := edited]);
    var lines := Entries(logged[i := edited]);
    RereadSettled(k, edited, later);
    ReportIff(k, x.blobs, lines, later);
    collision := None;
    if !Tampered(k, x.blobs, lines[i], later, edited.id) {
      var ms := ResolvedAll(k, x.blobs, edited.modalities).value;
      collision := Some((Material(edited.attributes, edited.memoryType, ms),
                         Material(original.attributes, original.memoryType, original.modalities)));
    }
  }

  /** After a good run the address on file under an id is that of the last envelope remembered under it, computed from
      its scope, type, modality names, tags, entities and content hash. */
  lemma {:induction false} AddressIsOfLast(k: Codec, threshold: nat, data: set<Bytes>, qs: seq<Request>, id: Id)
    requires GoodRun(k, threshold, data, qs)
    ensures var x, last := Run(k, threshold, qs).0, Last(qs, id);
            && (id in x.mobius <==> last.Some?)
            && (last.Some? ==>
                  var e := last.value; var ms := e.modalities;
                  var names := seq(|ms|, j requires 0 <= j < |ms| => ms[j].modality);
                  x.mobius[id]
                  == k.addressOf(AddressMaterial(e.attributes.scope, e.memoryType, names, e.attributes.tags,
                                                 e.attributes.entities, e.contentHash)))
  {
    if qs != [] {
      var before, q := qs[..|qs| - 1], qs[|qs| - 1];
      AddressIsOfLast(k, threshold, data, before, id);
      RereadSettled(k, q.envelope, q.now);
      StoredIsPlain(k, threshold, q.envelope, q.now);
    }
  }
}
