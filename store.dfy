/** The two MongoDB collections the service writes, with the record shapes of
    `backend/models/Document.js` and `backend/models/ChatHistory.js`. A
    collection is a sequence of records in insertion order; a write that
    the database rejects changes nothing. */
module Store {
  import opened JsText

  /** An owner's identity (a MongoDB ObjectId), only ever compared for equality. */
  type UserId = nat

  /** An embedding vector; its values are never interpreted by the service. */
  type Vector = seq<real>

  /** One stored chunk of an uploaded file. */
  datatype Document = Document(userId: UserId, filename: JsString, content: JsString, embedding: Vector)

  /** A chunk as the search pipeline's `$project` stage leaves it: its `_id`,
      `filename`, `content` and the vector search score. */
  datatype Reference = Reference(id: nat, filename: JsString, content: JsString, score: real)

  /** One logged question/answer exchange; `timestamp` is the schema's
      `Date.now` default, supplied by the caller. */
  datatype Interaction = Interaction(userId: UserId, question: JsString, answer: JsString,
                                     references: seq<Reference>, timestamp: int)

  /** The `documents` collection. */
  class DocumentCollection {
    var docs: seq<Document>

    constructor ()
      ensures docs == []
    {
      docs := [];
    }

    /** `Document.insertMany(batch)`: either the whole batch is appended, or the
        database rejects it (`failure`) and nothing is. */
    method InsertMany(batch: seq<Document>, failure: Option<JsString>) returns (err: Option<JsString>)
      modifies this
      ensures err == failure
      ensures docs == if failure.None? then old(docs) + batch else old(docs)
    {
      err := failure;
      if failure.None? {
        docs := docs + batch;
      }
    }
  }

  /** `Document.distinct("filename", { userId: owner })` over `docs`. */
  function Filenames(docs: seq<Document>, owner: UserId): set<JsString>
  {
    set i | 0 <= i < |docs| && docs[i].userId == owner :: docs[i].filename
  }

  /** The listing holds each filename of the owner's records, and nothing else. */
  lemma FilenamesExact(docs: seq<Document>, owner: UserId, f: JsString)
    ensures f in Filenames(docs, owner) <==> exists d :: d in docs && d.userId == owner && d.filename == f
  {
    if exists d :: d in docs && d.userId == owner && d.filename == f {
      var d :| d in docs && d.userId == owner && d.filename == f;
      var i :| 0 <= i < |docs| && docs[i] == d;
      assert docs[i].filename in Filenames(docs, owner);
    }
  }

  /** Appending records adds exactly their filenames to the listing. */
  lemma FilenamesAppend(docs: seq<Document>, batch: seq<Document>, owner: UserId)
    ensures Filenames(docs + batch, owner) == Filenames(docs, owner) + Filenames(batch, owner)
  {
    var all := docs + batch;
    forall f | f in Filenames(all, owner)
      ensures f in Filenames(docs, owner) + Filenames(batch, owner)
    {
      var i :| 0 <= i < |all| && all[i].userId == owner && all[i].filename == f;
      if i < |docs| {
        assert docs[i] == all[i];
      } else {
        assert batch[i - |docs|] == all[i];
      }
    }
    forall f | f in Filenames(docs, owner) + Filenames(batch, owner)
      ensures f in Filenames(all, owner)
    {
      if f in Filenames(docs, owner) {
        var i :| 0 <= i < |docs| && docs[i].userId == owner && docs[i].filename == f;
        assert all[i] == docs[i];
      } else {
        var i :| 0 <= i < |batch| && batch[i].userId == owner && batch[i].filename == f;
        assert all[|docs| + i] == batch[i];
      }
    }
  }

  /** The `chathistories` collection: an append-only log. */
  class ChatHistoryLog {
    var records: seq<Interaction>

    constructor ()
      ensures records == []
    {
      records := [];
    }

    /** `ChatHistory.create(record)`: appends the record unless the database
        rejects the write (`failure`). */
    method Create(record: Interaction, failure: Option<JsString>) returns (err: Option<JsString>)
      modifies this
      ensures err == failure
      ensures records == if failure.None? then old(records) + [record] else old(records)
    {
      err := failure;
      if failure.None? {
        records := records + [record];
      }
    }
  }
}
