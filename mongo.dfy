/**
 * The part of a MongoDB collection the handlers use: a sequence of
 * documents in natural (insertion) order, each with the `_id` the insert
 * assigned to it.
 */
module Mongo {

  import opened Options

  /** A database-assigned document identifier. Identifiers are drawn from a
      counter, which makes every one of them unique. */
  type ObjectId = nat

  /** A stored document: its `_id` and its other fields. */
  datatype Document<T> = Document(id: ObjectId, fields: T)

  /** `ObjectId.isValid` and the `new ObjectId(hex)` conversion, whose
      encoding rules are not modelled. */
  datatype ObjectIdCodec = ObjectIdCodec(isValid: string -> bool, parse: string -> ObjectId)

  /** The position of the first document, in natural order, that `filter`
      accepts; `|docs|` when there is none. */
  function FirstMatch<T>(docs: seq<Document<T>>, filter: Document<T> -> bool): (k: nat)
    ensures k <= |docs|
    ensures k < |docs| ==> filter(docs[k])
    ensures forall j :: 0 <= j < k ==> !filter(docs[j])
  {
    if docs == [] then 0 else if filter(docs[0]) then 0 else 1 + FirstMatch(docs[1..], filter)
  }

  /** `findOne(filter)`: the first document the filter accepts, or nothing
      (`null`) when no document does. */
  function FindOne<T>(docs: seq<Document<T>>, filter: Document<T> -> bool): (r: Option<Document<T>>)
    ensures r.None? <==> forall k :: 0 <= k < |docs| ==> !filter(docs[k])
    ensures r.Some? ==> r.value in docs && filter(r.value)
  {
    var k := FirstMatch(docs, filter);
    if k < |docs| then Some(docs[k]) else None
  }

  /** Every identifier was issued before `nextId`, and no two documents share one. */
  ghost predicate IdsIssued<T>(docs: seq<Document<T>>, nextId: ObjectId) {
    (forall k :: 0 <= k < |docs| ==> docs[k].id < nextId)
    && forall j, k :: 0 <= j < k < |docs| ==> docs[j].id != docs[k].id
  }

  /** A collection of documents of type `T`. */
  class Collection<T> {
    var docs: seq<Document<T>>
    var nextId: ObjectId

    ghost predicate Valid()
      reads this
    {
      IdsIssued(docs, nextId)
    }

    constructor ()
      ensures Valid() && docs == []
    {
      docs := [];
      nextId := 0;
    }

    /** `insertOne`: appends the document under a new identifier and returns
        that identifier (`insertedId`). */
    method InsertOne(fields: T) returns (id: ObjectId)
      requires Valid()
      modifies this
      ensures Valid()
      ensures forall k :: 0 <= k < |old(docs)| ==> old(docs)[k].id != id
      ensures docs == old(docs) + [Document(id, fields)]
      ensures id == old(nextId) && nextId == old(nextId) + 1
    {
      id := nextId;
      docs := docs + [Document(id, fields)];
      nextId := nextId + 1;
    }
  }
}
