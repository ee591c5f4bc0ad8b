/** The memory envelope. */
module Schema {
  import opened Wrappers

  type Id = string
  type Bytes = seq<nat>

  /** A payload: absent, text, or structured data given by its canonical JSON text. */
  datatype Payload = Absent | Str(text: string) | Json(text: string)

  datatype Modality = Modality(
    modality: string, content: Payload, uri: Option<string>, mime: Option<string>,
    sha: Option<string>, size: Option<nat>, metadata: map<string, string>)

  /** A cell of the Moebius address space. */
  datatype Address = Address(iu: int, iv: int, iw: int, region: string)

  /** One relation a memory carries. A missing confidence is the memory's own. */
  datatype RelationItem = RelationItem(
    subject: string, verb: string, target: string, graphName: Option<string>,
    validFrom: Option<real>, validTo: Option<real>, confidence: Option<real>)

  /** The fields of an envelope that the store carries along unread. */
  datatype Attributes = Attributes(
    scope: map<string, string>, tags: set<string>, entities: set<string>, relations: seq<RelationItem>,
    importance: real, confidence: real, sensitivity: string,
    provenance: map<string, string>, metadata: map<string, string>)

  datatype Envelope = Envelope(
    id: Id, createdAt: real, updatedAt: real, memoryType: string, attributes: Attributes,
    modalities: seq<Modality>, contentHash: string)
  {
    function ConfidenceOf(item: RelationItem): real {
      if item.confidence.Some? then item.confidence.value else attributes.confidence
    }
  }
}
