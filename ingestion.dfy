/** Document ingestion (backend/routes/docRoutes.js): the upload handler,
    which classifies the file, extracts its text, rejects text that is empty
    or only white space, embeds every chunk and inserts one record per chunk
    in a single batch; and the listing of an owner's filenames. */
module Ingestion {
  import opened JsText
  import opened Store
  import opened Providers
  import Chunking

  type Bytes = seq<bv8>

  /** The uploaded file as the upload middleware holds it in memory. */
  datatype UploadedFile = UploadedFile(mimetype: JsString, originalname: JsString, buffer: Bytes)

  /** How the handler reads a file: with pdf-parse, as UTF-8 text, or not at all. */
  datatype FileKind = PdfFile | TextFile | Unsupported

  /** The JSON reply of `POST /upload`. */
  datatype UploadReply =
    | Uploaded(message: JsString, filename: JsString, chunks: nat)
    | UploadError(status: nat, error: JsString)

  /** The JSON reply of `GET /`. The database returns the distinct names in
      an order of its own; the model keeps only the set. */
  datatype ListReply = Files(names: set<JsString>) | ListError(status: nat, error: JsString)

  const NoFileError: JsString := Lit("No file uploaded")
  const UnsupportedError: JsString := Lit("Only PDF, TXT, MD, and HTML files are supported.")
  const UnreadableError: JsString := Lit("Could not extract readable text from the uploaded file.")
  const SuccessMessage: JsString := Lit("Document uploaded and processed successfully.")

  // ---------------------------------------------------------------------------
  // File classification

  /** `/\.(txt|md|html)$/i.test(name)`. */
  predicate HasTextExtension(name: JsString)
  {
    || EndsWithIgnoringCase(name, Lit(".txt"))
    || EndsWithIgnoringCase(name, Lit(".md"))
    || EndsWithIgnoringCase(name, Lit(".html"))
  }

  /** The branch the handler takes: the PDF test comes first, then the text test. */
  function Classify(f: UploadedFile): FileKind
  {
    if f.mimetype == Lit("application/pdf") then PdfFile
    else if Includes(f.mimetype, Lit("text")) || HasTextExtension(f.originalname) then TextFile
    else Unsupported
  }

  /** A file is accepted exactly when its MIME type is `application/pdf`,
      or contains `text` somewhere, or its name ends in `.txt`, `.md` or `.html`
      in any mix of case. */
  lemma AcceptedIff(f: UploadedFile)
    ensures Classify(f) != Unsupported <==>
      || f.mimetype == Lit("application/pdf")
      || (exists i :: OccursAt(f.mimetype, Lit("text"), i))
      || HasTextExtension(f.originalname)
  {
    IncludesIffOccurs(f.mimetype, Lit("text"));
  }

  /** The extension test ignores case: `notes.TXT` and `README.Md` pass. */
  lemma ExtensionIgnoresCase()
    ensures HasTextExtension(Lit("notes.TXT"))
    ensures HasTextExtension(Lit("README.Md"))
  {
    assert EndsWithIgnoringCase(Lit("notes.TXT"), Lit(".txt")) by {
      var n, e := Lit("notes.TXT"), Lit(".txt");
      assert n[5] == e[0] && FoldAscii(n[6]) == FoldAscii(e[1]);
      assert FoldAscii(n[7]) == FoldAscii(e[2]) && FoldAscii(n[8]) == FoldAscii(e[3]);
    }
    assert EndsWithIgnoringCase(Lit("README.Md"), Lit(".md")) by {
      var n, e := Lit("README.Md"), Lit(".md");
      assert n[6] == e[0] && FoldAscii(n[7]) == FoldAscii(e[1]) && FoldAscii(n[8]) == FoldAscii(e[2]);
    }
  }

  /** The extension must be whole and preceded by a dot: `page.htm` and `txt` fail. */
  lemma ExtensionMustBeWhole()
    ensures !HasTextExtension(Lit("page.htm"))
    ensures !HasTextExtension(Lit("txt"))
  {
    var page := Lit("page.htm");
    assert FoldAscii(page[5]) != FoldAscii(Lit(".txt")[1]);
    assert FoldAscii(page[6]) != FoldAscii(Lit(".md")[1]);
    assert FoldAscii(page[7]) != FoldAscii(Lit(".html")[4]);
  }

  // ---------------------------------------------------------------------------
  // Text extraction

  /** `extractedText` after the classification branch: pdf-parse's `text`
      (or "" when it has none), or the buffer decoded as UTF-8. pdf-parse may
      throw. */
  function ExtractText(kind: FileKind, f: UploadedFile,
                       pdfParse: Bytes -> Result<Option<JsString>>,
                       decodeUtf8: Bytes -> JsString): Result<JsString>
    requires kind != Unsupported
  {
    if kind == PdfFile then
      match pdfParse(f.buffer)
      case Fail(m) => Fail(m)
      case Ok(t) => Ok(if t.Some? then t.value else [])
    else Ok(decodeUtf8(f.buffer))
  }

  /** `!extractedText || !extractedText.trim()`. */
  predicate Unreadable(text: JsString)
  {
    text == [] || Trim(text) == []
  }

  /** The handler rejects exactly the texts made of white space only
      (the empty text among them). */
  lemma UnreadableIffBlank(text: JsString)
    ensures Unreadable(text) <==> IsBlank(text)
  {
    TrimEmptyIffBlank(text);
  }

  // ---------------------------------------------------------------------------
  // Embedding every chunk, stopping at the first failure

  /** The embeddings of `chunks` in order, or the error of the first chunk
      whose embedding throws. */
  function EmbedAll(chunks: seq<JsString>, embed: Embedder): (r: Result<seq<Vector>>)
    ensures r.Ok? ==> |r.value| == |chunks|
  {
    if chunks == [] then Ok([])
    else
      match embed(chunks[0])
      case Fail(m) => Fail(m)
      case Ok(v) =>
        match EmbedAll(chunks[1..], embed)
        case Fail(m) => Fail(m)
        case Ok(vs) => Ok([v] + vs)
  }

  /** The chunks sent to the embedder: every one up to and including the
      first whose embedding throws. */
  function Attempts(chunks: seq<JsString>, embed: Embedder): seq<JsString>
  {
    if chunks == [] then []
    else [chunks[0]] + (if embed(chunks[0]).Fail? then [] else Attempts(chunks[1..], embed))
  }

  /** Embedding succeeds exactly when every chunk's embedding does, and then
      yields one vector per chunk, in chunk order. */
  lemma EmbedAllOk(chunks: seq<JsString>, embed: Embedder)
    ensures EmbedAll(chunks, embed).Ok? <==> forall i :: 0 <= i < |chunks| ==> embed(chunks[i]).Ok?
    ensures EmbedAll(chunks, embed).Ok? ==>
      && |EmbedAll(chunks, embed).value| == |chunks|
      && forall i :: 0 <= i < |chunks| ==> EmbedAll(chunks, embed).value[i] == embed(chunks[i]).value
    ensures EmbedAll(chunks, embed).Ok? ==> Attempts(chunks, embed) == chunks
  {
    EmbedAllOkIff(chunks, embed);
    if EmbedAll(chunks, embed).Ok? {
      forall i | 0 <= i < |chunks| ensures EmbedAll(chunks, embed).value[i] == embed(chunks[i]).value {
        EmbedAllVectorAt(chunks, embed, i);
      }
      AttemptsAllOk(chunks, embed);
    }
  }

  lemma {:induction false} EmbedAllOkIff(chunks: seq<JsString>, embed: Embedder)
    ensures EmbedAll(chunks, embed).Ok? <==> forall i :: 0 <= i < |chunks| ==> embed(chunks[i]).Ok?
  {
    if chunks != [] {
      var rest := chunks[1..];
      EmbedAllOkIff(rest, embed);
      if EmbedAll(chunks, embed).Ok? {
        forall i | 0 <= i < |chunks| ensures embed(chunks[i]).Ok? {
          if i > 0 { assert chunks[i] == rest[i - 1]; }
        }
      } else if embed(chunks[0]).Ok? {
        var i :| 0 <= i < |rest| && !embed(rest[i]).Ok?;
        assert rest[i] == chunks[i + 1];
      }
    }
  }

  lemma {:induction false} EmbedAllVectorAt(chunks: seq<JsString>, embed: Embedder, i: nat)
    requires EmbedAll(chunks, embed).Ok? && i < |chunks|
    ensures embed(chunks[i]) == Ok(EmbedAll(chunks, embed).value[i])
  {
    if i > 0 {
      var rest := chunks[1..];
      assert EmbedAll(rest, embed).Ok?;
      EmbedAllVectorAt(rest, embed, i - 1);
      assert rest[i - 1] == chunks[i];
    }
  }

  lemma {:induction false} AttemptsAllOk(chunks: seq<JsString>, embed: Embedder)
    requires EmbedAll(chunks, embed).Ok?
    ensures Attempts(chunks, embed) == chunks
  {
    if chunks != [] {
      AttemptsAllOk(chunks[1..], embed);
    }
  }

  /** When embedding fails, the error is that of the first failing chunk,
      every earlier chunk was embedded, and no later chunk was sent. */
  lemma {:induction false} EmbedAllFail(chunks: seq<JsString>, embed: Embedder)
    requires EmbedAll(chunks, embed).Fail?
    ensures 1 <= |Attempts(chunks, embed)| <= |chunks|
    ensures Attempts(chunks, embed) == chunks[..|Attempts(chunks, embed)|]
    ensures embed(chunks[|Attempts(chunks, embed)| - 1]) == Fail(EmbedAll(chunks, embed).message)
    ensures forall i :: 0 <= i < |Attempts(chunks, embed)| - 1 ==> embed(chunks[i]).Ok?
  {
    if embed(chunks[0]).Ok? {
      var rest := chunks[1..];
      EmbedAllFail(rest, embed);
      var n := |Attempts(rest, embed)|;
      assert Attempts(chunks, embed) == [chunks[0]] + Attempts(rest, embed);
      assert chunks[..n + 1] == [chunks[0]] + rest[..n];
      assert chunks[n] == rest[n - 1];
      forall i | 0 <= i < n ensures embed(chunks[i]).Ok? {
        if i > 0 { assert chunks[i] == rest[i - 1]; }
      }
    }
  }

  /** Embedding a concatenation: the first part, then (only if it succeeded)
      the second. */
  lemma {:induction false} EmbedAllAppend(a: seq<JsString>, b: seq<JsString>, embed: Embedder)
    ensures EmbedAll(a + b, embed) ==
      match EmbedAll(a, embed)
      case Fail(m) => Fail(m)
      case Ok(va) =>
        match EmbedAll(b, embed)
        case Fail(m) => Fail(m)
        case Ok(vb) => Ok(va + vb)
  {
    if a == [] {
      assert a + b == b;
      match EmbedAll(b, embed)
      case Fail(_) =>
      case Ok(vb) => assert [] + vb == vb;
    } else {
      var ab := a + b;
      assert ab[0] == a[0];
      assert ab[1..] == a[1..] + b;
      EmbedAllAppend(a[1..], b, embed);
      match embed(a[0])
      case Fail(m) =>
        assert EmbedAll(a, embed) == Fail(m);
        assert EmbedAll(ab, embed) == Fail(m);
      case Ok(v) =>
        assert EmbedAll(ab, embed) == match EmbedAll(a[1..] + b, embed) case Fail(m) => Fail(m) case Ok(vs) => Ok([v] + vs);
        match EmbedAll(a[1..], embed)
        case Fail(m) =>
        case Ok(va) =>
          match EmbedAll(b, embed)
          case Fail(_) =>
          case Ok(vb) => assert [v] + (va + vb) == ([v] + va) + vb;
    }
  }

  /** The chunks sent for a concatenation: those of the first part, then
      (only if all of it embedded) those of the second. */
  lemma {:induction false} AttemptsAppend(a: seq<JsString>, b: seq<JsString>, embed: Embedder)
    ensures Attempts(a + b, embed) ==
      Attempts(a, embed) + (if EmbedAll(a, embed).Ok? then Attempts(b, embed) else [])
  {
    if a == [] {
      assert a + b == b;
    } else {
      var ab := a + b;
      assert ab[0] == a[0];
      assert ab[1..] == a[1..] + b;
      AttemptsAppend(a[1..], b, embed);
      if embed(a[0]).Ok? {
        assert EmbedAll(a, embed).Ok? == EmbedAll(a[1..], embed).Ok?;
      }
    }
  }

  // ---------------------------------------------------------------------------
  // The records of one upload

  /** `docsToInsert`: one record per chunk, in chunk order. */
  function Records(user: UserId, filename: JsString, chunks: seq<JsString>, vectors: seq<Vector>): seq<Document>
    requires |vectors| == |chunks|
  {
    seq(|chunks|, i requires 0 <= i < |chunks| => Document(user, filename, chunks[i], vectors[i]))
  }

  /** The contents of the records, laid end to end. */
  function Contents(docs: seq<Document>): JsString
  {
    if docs == [] then [] else docs[0].content + Contents(docs[1..])
  }

  /** The records of an upload carry the requester's id and the file's name,
      each holds at most 1000 code units, and their contents laid end to end
      are the extracted text. */
  lemma {:induction false} RecordsReproduceText(user: UserId, filename: JsString, text: JsString, vectors: seq<Vector>)
    requires |vectors| == |Chunking.Chunks(text, Chunking.DefaultSize)|
    ensures var docs := Records(user, filename, Chunking.Chunks(text, Chunking.DefaultSize), vectors);
      && Contents(docs) == text
      && forall i :: 0 <= i < |docs| ==>
           docs[i].userId == user && docs[i].filename == filename && 1 <= |docs[i].content| <= 1000
  {
    var chunks := Chunking.Chunks(text, Chunking.DefaultSize);
    ContentsOfRecords(user, filename, chunks, vectors);
  }

  lemma {:induction false} ContentsOfRecords(user: UserId, filename: JsString, chunks: seq<JsString>, vectors: seq<Vector>)
    requires |vectors| == |chunks|
    ensures Contents(Records(user, filename, chunks, vectors)) == Chunking.Concat(chunks)
    decreases |chunks|
  {
    if chunks != [] {
      var docs := Records(user, filename, chunks, vectors);
      assert docs[1..] == Records(user, filename, chunks[1..], vectors[1..]);
      ContentsOfRecords(user, filename, chunks[1..], vectors[1..]);
    }
  }

  /** After a successful upload the owner's listing gains exactly the file's
      name — once, however many chunks or earlier uploads of that name there
      are — and every other owner's listing is unchanged. */
  lemma UploadListing(docs: seq<Document>, user: UserId, filename: JsString,
                      chunks: seq<JsString>, vectors: seq<Vector>, other: UserId)
    requires |vectors| == |chunks| && chunks != []
    requires other != user
    ensures Filenames(docs + Records(user, filename, chunks, vectors), user) == Filenames(docs, user) + {filename}
    ensures Filenames(docs + Records(user, filename, chunks, vectors), other) == Filenames(docs, other)
  {
    var batch := Records(user, filename, chunks, vectors);
    FilenamesAppend(docs, batch, user);
    FilenamesAppend(docs, batch, other);
    assert batch[0].filename in Filenames(batch, user);
    assert Filenames(batch, other) == {};
  }

  // ---------------------------------------------------------------------------
  // The handlers

  /** The loop of the upload handler: embeds each chunk in turn and pushes
      one record per chunk onto `docsToInsert`; the first embedding error
      ends it. Returns the records, or that error, and the embedding
      requests made. */
  method EmbedChunks(user: UserId, filename: JsString, chunks: seq<JsString>, embed: Embedder)
    returns (docsToInsert: Result<seq<Document>>, calls: seq<ProviderCall>)
    ensures calls == EmbedCalls(Attempts(chunks, embed))
    ensures EmbedAll(chunks, embed).Fail? ==> docsToInsert == Fail(EmbedAll(chunks, embed).message)
    ensures EmbedAll(chunks, embed).Ok? ==>
      docsToInsert == Ok(Records(user, filename, chunks, EmbedAll(chunks, embed).value))
  {
    var docs: seq<Document> := [];
    ghost var vectors: seq<Vector> := [];
    calls := [];
    var i := 0;
    while i < |chunks|
      invariant 0 <= i <= |chunks|
      invariant EmbedAll(chunks[..i], embed) == Ok(vectors)
      invariant docs == Records(user, filename, chunks[..i], vectors)
      invariant calls == EmbedCalls(Attempts(chunks[..i], embed))
    {
      var embedding := embed(chunks[i]);
      EmbedStep(chunks, i, vectors, embed);
      calls := calls + [EmbedCall(chunks[i])];
      if embedding.Fail? {
        EmbedAllStops(chunks, i + 1, embed);
        return Fail(embedding.message), calls;
      }
      RecordsStep(user, filename, chunks, i, vectors, embedding.value);
      docs := docs + [Document(user, filename, chunks[i], embedding.value)];
      vectors := vectors + [embedding.value];
      i := i + 1;
    }
    assert chunks[..i] == chunks;
    docsToInsert := Ok(docs);
  }

  /** One turn of the loop: what embedding chunk `i` does to the result and
      to the requests, given that the chunks before it embedded. */
  lemma EmbedStep(chunks: seq<JsString>, i: nat, vectors: seq<Vector>, embed: Embedder)
    requires i < |chunks| && EmbedAll(chunks[..i], embed) == Ok(vectors)
    ensures EmbedCalls(Attempts(chunks[..i + 1], embed)) == EmbedCalls(Attempts(chunks[..i], embed)) + [EmbedCall(chunks[i])]
    ensures embed(chunks[i]).Ok? ==> EmbedAll(chunks[..i + 1], embed) == Ok(vectors + [embed(chunks[i]).value])
    ensures embed(chunks[i]).Fail? ==> EmbedAll(chunks[..i + 1], embed) == Fail(embed(chunks[i]).message)
  {
    SliceSnoc(chunks, i);
    EmbedAllSnoc(chunks[..i], chunks[i], embed);
    EmbedCallsAppend(Attempts(chunks[..i], embed), [chunks[i]]);
  }

  lemma SliceSnoc(s: seq<JsString>, i: nat)
    requires i < |s|
    ensures s[..i + 1] == s[..i] + [s[i]]
  {
  }

  lemma RecordsStep(user: UserId, filename: JsString, chunks: seq<JsString>, i: nat, vectors: seq<Vector>, v: Vector)
    requires i < |chunks| && |vectors| == i
    ensures Records(user, filename, chunks[..i + 1], vectors + [v]) ==
            Records(user, filename, chunks[..i], vectors) + [Document(user, filename, chunks[i], v)]
  {
    assert chunks[..i + 1] == chunks[..i] + [chunks[i]];
    RecordsSnoc(user, filename, chunks[..i], vectors, chunks[i], v);
  }

  lemma EmbedAllSnoc(chunks: seq<JsString>, c: JsString, embed: Embedder)
    requires EmbedAll(chunks, embed).Ok?
    ensures EmbedAll(chunks + [c], embed) ==
      if embed(c).Fail? then Fail(embed(c).message) else Ok(EmbedAll(chunks, embed).value + [embed(c).value])
    ensures Attempts(chunks + [c], embed) == Attempts(chunks, embed) + [c]
  {
    EmbedAllAppend(chunks, [c], embed);
    AttemptsAppend(chunks, [c], embed);
    assert [c][1..] == [];
    if embed(c).Ok? {
      assert EmbedAll([c], embed) == Ok([embed(c).value] + []);
      assert [embed(c).value] + [] == [embed(c).value];
    }
  }

  lemma EmbedAllStops(chunks: seq<JsString>, n: nat, embed: Embedder)
    requires n <= |chunks| && EmbedAll(chunks[..n], embed).Fail?
    ensures EmbedAll(chunks, embed) == EmbedAll(chunks[..n], embed)
    ensures Attempts(chunks, embed) == Attempts(chunks[..n], embed)
  {
    assert chunks == chunks[..n] + chunks[n..];
    EmbedAllAppend(chunks[..n], chunks[n..], embed);
    AttemptsAppend(chunks[..n], chunks[n..], embed);
  }

  lemma RecordsSnoc(user: UserId, filename: JsString, chunks: seq<JsString>, vectors: seq<Vector>,
                    c: JsString, v: Vector)
    requires |vectors| == |chunks|
    ensures Records(user, filename, chunks + [c], vectors + [v]) ==
            Records(user, filename, chunks, vectors) + [Document(user, filename, c, v)]
  {
  }

  lemma EmbedCallsAppend(a: seq<JsString>, b: seq<JsString>)
    ensures EmbedCalls(a + b) == EmbedCalls(a) + EmbedCalls(b)
  {
  }

  /** `POST /upload`. `file` is what the upload middleware parsed (None: no
      file field); `pdfParse` and `decodeUtf8` are the text extractors,
      `embed` the embedding service and `insertFailure` the database's
      rejection of the batch, if any. Besides the reply, it returns the
      embedding requests it made. */
  method Upload(store: DocumentCollection, user: UserId, file: Option<UploadedFile>,
                pdfParse: Bytes -> Result<Option<JsString>>, decodeUtf8: Bytes -> JsString,
                embed: Embedder, insertFailure: Option<JsString>)
    returns (reply: UploadReply, calls: seq<ProviderCall>)
    modifies store
    ensures file.None? ==>
      reply == UploadError(400, NoFileError) && calls == [] && store.docs == old(store.docs)
    ensures file.Some? && Classify(file.value) == Unsupported ==>
      reply == UploadError(400, UnsupportedError) && calls == [] && store.docs == old(store.docs)
    ensures file.Some? && Classify(file.value) != Unsupported ==>
      var f := file.value;
      match ExtractText(Classify(f), f, pdfParse, decodeUtf8)
      case Fail(m) =>
        reply == UploadError(500, m) && calls == [] && store.docs == old(store.docs)
      case Ok(text) =>
        if IsBlank(text) then
          reply == UploadError(400, UnreadableError) && calls == [] && store.docs == old(store.docs)
        else
          var chunks := Chunking.Chunks(text, Chunking.DefaultSize);
          && calls == EmbedCalls(Attempts(chunks, embed))
          && match EmbedAll(chunks, embed)
             case Fail(m) =>
               reply == UploadError(500, m) && store.docs == old(store.docs)
             case Ok(vectors) =>
               if insertFailure.Some? then
                 reply == UploadError(500, insertFailure.value) && store.docs == old(store.docs)
               else
                 && reply == Uploaded(SuccessMessage, f.originalname, |chunks|)
                 && store.docs == old(store.docs) + Records(user, f.originalname, chunks, vectors)
    ensures reply.Uploaded? || store.docs == old(store.docs)
  {
    calls := [];
    if file.None? {
      return UploadError(400, NoFileError), calls;
    }
    var f := file.value;
    var kind := Classify(f);
    if kind == Unsupported {
      return UploadError(400, UnsupportedError), calls;
    }
    var extracted := ExtractText(kind, f, pdfParse, decodeUtf8);
    if extracted.Fail? {
      return UploadError(500, extracted.message), calls;
    }
    var text := extracted.value;
    UnreadableIffBlank(text);
    if text == [] || Trim(text) == [] {
      return UploadError(400, UnreadableError), calls;
    }

    var chunks := Chunking.Chunks(text, Chunking.DefaultSize);
    var docsToInsert;
    docsToInsert, calls := EmbedChunks(user, f.originalname, chunks, embed);
    if docsToInsert.Fail? {
      return UploadError(500, docsToInsert.message), calls;
    }
    var err := store.InsertMany(docsToInsert.value, insertFailure);
    if err.Some? {
      return UploadError(500, err.value), calls;
    }
    reply := Uploaded(SuccessMessage, f.originalname, |chunks|);
  }

  /** `GET /`: the distinct filenames of the requester's records, or a 500
      when the database query fails. */
  function ListFiles(store: DocumentCollection, user: UserId, failure: Option<JsString>): (r: ListReply)
    reads store
    ensures r.ListError? <==> failure.Some?
    ensures r.Files? ==> forall f :: f in r.names <==> exists d :: d in store.docs && d.userId == user && d.filename == f
  {
    if failure.Some? then ListError(500, failure.value)
    else
      var names := Filenames(store.docs, user);
      assert forall f :: f in names <==> exists d :: d in store.docs && d.userId == user && d.filename == f by {
        forall f ensures f in names <==> exists d :: d in store.docs && d.userId == user && d.filename == f {
          FilenamesExact(store.docs, user, f);
        }
      }
      Files(names)
  }
}
