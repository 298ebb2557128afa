# DocReader core in Dafny

DocReader is a document question-answering service. A user uploads PDF,
text, Markdown or HTML files. The backend splits each file's text into
chunks of 1000 UTF-16 code units, embeds every chunk and stores one record
per chunk. A question is embedded and matched against the stored chunks by
vector search. Only the asker's own chunks are kept, at most five of them.
They are joined into a context for a language model, and each exchange is
logged. The React chat screen keeps the conversation, a newest-first
history of answered questions capped at 50, and a flag that guards against
sending twice.

This project models that core and proves properties of it:

- `JsText` (`js_text.dfy`): JavaScript strings as sequences of UTF-16 code
  units, plus the string operations the handlers use: `includes`, `trim`
  with ECMAScript's white-space set, the case-insensitive extension test and
  `join`.
- `Chunking` (`chunking.dfy`): `chunkText`, the global dot-all match of
  `.{1,size}`.
- `Store` (`store.dfy`): the `documents` and `chathistories` collections as
  classes over sequences, with the record shapes of the two schemas and the
  `distinct` filename listing.
- `Providers` (`providers.dfy`): the embedding and generation services as
  function parameters, and the trace of requests a handler makes.
- `Ingestion` (`ingestion.dfy`): `POST /upload` as a method with the chunk
  and embed loop, and `GET /` as a function.
- `Question` (`question.dfy`): `POST /chat`. This covers the search
  pipeline after `$vectorSearch` (limit 20, owner `$match`, `$limit 5`,
  `$project`), the context and prompt assembly, and the handler as a method
  over the history log.
- `ChatClient` (`chat_client.dfy`): the chat component's state cells as a
  class. Its methods are the Send, Clear and history-select handlers.

External calls are parameters of the handlers:

- the embedding service, the vector search and the language model are
  functions that return a value or the error they throw;
- pdf-parse and UTF-8 decoding are functions over the upload's bytes;
- a database write takes the rejection it may meet as an `Option`.

The handlers also return the requests they made, so "no embedding and no
insert" can be stated.

The owner `$match` runs after `$vectorSearch`'s limit of 20
(backend/routes/chatRoutes.js:25-42). Other owners' chunks can fill all 20
places, and the owner then gets no result even though a chunk of theirs
matches. `Question.CrowdedOutByOtherOwners` states this behaviour, and the
model follows the code.

## Model

| member | source | states |
|---|---|---|
| JsText.IncludesIffOccurs | backend/routes/docRoutes.js:28 | `includes` is true exactly when the substring occurs at some position |
| JsText.TrimEmptyIffBlank | backend/routes/docRoutes.js:42 | `trim()` gives the empty string exactly when every code unit is ECMAScript white space or a line terminator |
| JsText.JoinSnoc | backend/routes/chatRoutes.js:68-70 | joining one more part appends the separator and that part |
| Chunking.Chunks | backend/services/chunkService.js:1-2 | the chunks concatenate back to the text; each has 1..size code units; every one but the last has exactly size; there are none exactly when the text is empty |
| Chunking.ChunkCount | backend/services/chunkService.js:1-2 | the number of chunks is the ceiling of length / size |
| Chunking.ChunksUnique | backend/services/chunkService.js:2 | the chunking is the only cut into non-empty pieces of at most size where all but the last are full, i.e. the greedy maximal matches |
| Chunking.ChunksOf2500 | backend/services/chunkService.js:1-2 | with the default size a 2500-unit text gives chunks of 1000, 1000 and 500 |
| Chunking.ChunksMaySplitSurrogatePair | backend/services/chunkService.js:2 | without the `u` flag a surrogate pair that straddles a boundary is split between two chunks |
| Store.DocumentCollection.InsertMany | backend/routes/docRoutes.js:62 | the whole batch is appended, or nothing when the database rejects it |
| Store.FilenamesExact | backend/routes/docRoutes.js:79 | a name is listed exactly when some record of the owner carries it |
| Store.FilenamesAppend | backend/routes/docRoutes.js:62 | inserting a batch adds exactly the batch's names to the listing |
| Store.ChatHistoryLog.Create | backend/routes/chatRoutes.js:54-59 | one record is appended, or nothing when the database rejects it |
| Providers.EmbedCalls | backend/routes/docRoutes.js:51-52 | one embedding request per text, in order |
| Ingestion.AcceptedIff | backend/routes/docRoutes.js:21-39 | a file is accepted exactly when its type is `application/pdf`, its type contains `text`, or its name ends in `.txt`, `.md` or `.html` in any case |
| Ingestion.ExtensionIgnoresCase | backend/routes/docRoutes.js:29 | `notes.TXT` and `README.Md` pass the extension test |
| Ingestion.ExtensionMustBeWhole | backend/routes/docRoutes.js:29 | `page.htm` and `txt` fail the extension test |
| Ingestion.UnreadableIffBlank | backend/routes/docRoutes.js:42-46 | the text is rejected exactly when it is empty or only white space |
| Ingestion.EmbedAll | backend/routes/docRoutes.js:51-60 | a successful embedding gives one vector per chunk |
| Ingestion.EmbedAllOk | backend/routes/docRoutes.js:51-60 | embedding succeeds exactly when every chunk's embedding does; the vectors line up with the chunks; every chunk is sent |
| Ingestion.EmbedAllFail | backend/routes/docRoutes.js:51-74 | on failure the error is that of the first failing chunk; the chunks before it succeeded; no chunk after it is sent |
| Ingestion.EmbedAllAppend | backend/routes/docRoutes.js:51-60 | embedding a concatenation is embedding the first part and then, if that succeeded, the second |
| Ingestion.AttemptsAppend | backend/routes/docRoutes.js:51-52 | the chunks sent for a concatenation are those of the first part, then those of the second only if the first embedded fully |
| Ingestion.RecordsReproduceText | backend/routes/docRoutes.js:48-60 | the records' contents, in order, reproduce the extracted text; each carries the requester, the original name and 1..1000 code units |
| Ingestion.UploadListing | backend/routes/docRoutes.js:62-80 | after an upload the owner's listing gains exactly the file's name and every other owner's listing is unchanged |
| Ingestion.EmbedChunks | backend/routes/docRoutes.js:48-60 | the loop yields the records of all chunks with their vectors, or the first embedding error, and sends exactly the attempted chunks |
| Ingestion.Upload | backend/routes/docRoutes.js:13-75 | 400 without a file, for an unsupported type and for blank text, each with no request and no insert; 500 with the error when extraction, an embedding or the insert fails, with nothing inserted; otherwise one record per chunk is appended and the reply counts the chunks |
| Ingestion.ListFiles | backend/routes/docRoutes.js:77-84 | the reply lists exactly the names on the requester's records, or is a 500 when the query fails |
| Question.Take | backend/routes/chatRoutes.js:32-41 | `limit n` keeps the first min(length, n) entries |
| Question.OwnerMatchPositions | backend/routes/chatRoutes.js:35-39 | `$match` keeps exactly the owner's hits, in rank order |
| Question.SelectionSpec | backend/routes/chatRoutes.js:25-50 | the selection has min(5, the owner's hits in the top 20) entries; each is the owner's, in ranking order |
| Question.SelectionNoSkip | backend/routes/chatRoutes.js:25-50 | an owner's hit in the top 20 is left out only when five better-ranked hits of the owner fill the selection |
| Question.ResultsOwnerOnly | backend/routes/chatRoutes.js:35-42 | at most 5 results, each the projection of one of the owner's hits among the top 20 |
| Question.OwnerMatchOnlyOwned | backend/routes/chatRoutes.js:35-39 | every hit `$match` keeps belongs to the owner |
| Question.CrowdedOutByOtherOwners | backend/routes/chatRoutes.js:25-42 | when the 20 best candidates are other owners', the owner gets no result even with a match at rank 21 |
| Question.OwnerMatchNone | backend/routes/chatRoutes.js:35-39 | with none of the owner's hits, `$match` leaves nothing |
| Question.ContextLayout | backend/routes/chatRoutes.js:68-70 | every entry sits at its computed offset, separated by a blank line from the next; the context ends with the last entry |
| Question.PromptEmbeds | backend/routes/chatRoutes.js:72-81 | the prompt is the fixed head, the whole context, the fixed middle, the whole query and the fixed tail |
| Question.Ask | backend/routes/chatRoutes.js:11-105 | 400 "Query is required" for a missing or empty query, with no requests and no log; 500 with the error when embedding, search or generation fails, with no log; with no results, a no-information answer logged with no references; otherwise the generated answer is logged with exactly the results; an answered request logs exactly one record equal to the reply |
| ChatClient.ClientAnswer | frontend/src/components/Chat.jsx:52 | the shown answer is `answer`, else `data`, else "No answer"; never empty |
| ChatClient.PushCapped | frontend/src/components/Chat.jsx:57 | the new item comes first, followed by the earlier items in order; at most 50 |
| ChatClient.PushCappedDropsOldest | frontend/src/components/Chat.jsx:57 | only the oldest items are dropped; at the cap exactly the last one goes |
| ChatClient.BotShowsServerReply | frontend/src/components/Chat.jsx:51-59 | the bot message shows the server's answer or error, and the fallback when it is empty |
| ChatClient.ChatView.constructor | frontend/src/components/Chat.jsx:7-14 | stored messages and history, an empty input, not sending |
| ChatClient.ChatView.SetQuery | frontend/src/components/Chat.jsx:106 | typing sets the input and nothing else |
| ChatClient.ChatView.ClearInput | frontend/src/components/Chat.jsx:108 | the input's Clear empties it and changes nothing else |
| ChatClient.ChatView.BeginSend | frontend/src/components/Chat.jsx:45-51 | a no-op when the input is empty or a send is in flight; otherwise the user message is appended and `sending` is set |
| ChatClient.ChatView.FinishSend | frontend/src/components/Chat.jsx:52-65 | one bot message is appended; a reply pushes the exchange onto the history, an error leaves it; `sending` is cleared and the input emptied |
| ChatClient.ChatView.Send | frontend/src/components/Chat.jsx:45-66 | the whole send: either nothing, or the user and bot messages, the history update and the reset |
| ChatClient.ChatView.ClearHistory | frontend/src/components/Chat.jsx:76 | the history is empty and nothing else changes |
| ChatClient.ChatView.SelectHistory | frontend/src/components/Chat.jsx:80 | the item's question and then its answer are appended as messages; the history is unchanged |

## Left out

- Authentication is a trusted owner id. JWT and bcrypt, the `User` model and signup are not part of this model.
- The embedding and generation services are functions of their input. A real remote call may answer differently each time.
- `$vectorSearch` is an opaque ranked list of any length, and the model applies its limit of 20. `numCandidates`, the index and the similarity scores are not interpreted.
- pdf-parse and the upload middleware's buffering are parameters, and so is UTF-8 decoding.
- Mongoose schema validation is not modelled separately. A rejected `insertMany` (an empty `filename`, which the schema requires, say) is one of the write failures `Ingestion.Upload` takes as a parameter.
- Ingestion.ListFiles: the database returns distinct names in an order of its own; the model keeps only their set.
- Question.Ask: only a string `query` is modelled. A non-string body value, which JavaScript truthiness would accept, is not, and an empty string stands for every falsy value.
- ChatClient.ChatView: `res.data.answer`, `res.data.data` and the error fields are strings, with the empty string standing for absent. Non-string values are not modelled.
- Every string literal of the source is ASCII, and `Lit` maps it one character to one code unit. `Lit` does not refuse a non-ASCII character: it would reduce it modulo 128.
- `console.error` logging, the HTTP status plumbing and the routes' wiring are not part of this model.
- Chat.jsx: localStorage persistence and JSON parsing, `scrollIntoView`, `setTimeout`, `fetchFiles` and rendering are not modelled.
- Concurrency: overlapping requests and the interleaving of React state updates are not modelled. The model runs each handler to completion.
- A database write is assumed atomic: it succeeds fully or changes nothing.
