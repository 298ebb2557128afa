/** The remote services the handlers call: `getEmbedding`
    (backend/services/embeddingService.js) and `generateAnswer`
    (backend/services/aiService.js). Each is a request to a remote model that
    returns a value or throws; the model takes them as functions, and records
    which requests a handler makes as a trace of calls. */
module Providers {
  import opened JsText
  import opened Store

  /** `getEmbedding(text)`: the embedding vector, or the error it throws. */
  type Embedder = JsString -> Result<Vector>

  /** `generateAnswer(prompt)`: the model's text, or the error it throws. */
  type Generator = JsString -> Result<JsString>

  /** One request a handler sends to a remote service. */
  datatype ProviderCall =
    | EmbedCall(text: JsString)
    | SearchCall(queryVector: Vector)
    | GenerateCall(prompt: JsString)

  /** The embedding requests for `texts`, one per text, in order. */
  function EmbedCalls(texts: seq<JsString>): (r: seq<ProviderCall>)
    ensures |r| == |texts|
    ensures forall i :: 0 <= i < |texts| ==> r[i] == EmbedCall(texts[i])
  {
    if texts == [] then [] else [EmbedCall(texts[0])] + EmbedCalls(texts[1..])
  }
}
