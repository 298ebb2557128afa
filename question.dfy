/** Question answering (backend/routes/chatRoutes.js): validate the query,
    embed it, run the search pipeline (`$vectorSearch` with limit 20, an
    owner `$match`, `$limit 5`, `$project`), answer with a fixed message when
    nothing is found or else build a context and prompt for the generator,
    and log one interaction. */
module Question {
  import opened JsText
  import opened Store
  import opened Providers

  /** `limit` of `$vectorSearch`. (Its `numCandidates` of 150 only shapes
      the engine's opaque ranking and is not modelled.) */
  const SearchLimit: nat := 20
  /** The `$limit` stage after the owner `$match`. */
  const ResultLimit: nat := 5

  const QueryRequired: JsString := Lit("Query is required")
  const NoInfoAnswer: JsString := Lit("No relevant information found in your uploaded documents.")

  /** One candidate of `$vectorSearch`: a stored chunk with its `_id` and score. */
  datatype Hit = Hit(id: nat, doc: Document, score: real)

  /** `$vectorSearch` on the `embedding` path for a query vector: the
      engine's ranked candidates, best first, or the error the aggregation
      throws. How it ranks is opaque; the model applies its `limit` itself. */
  type VectorSearch = Vector -> Result<seq<Hit>>

  /** The JSON reply of `POST /`. `success` is `true` for a generated answer;
      the no-context reply has no `success` field (`false` here). */
  datatype ChatReply =
    | Answered(success: bool, answer: JsString, references: seq<Reference>)
    | ChatError(status: nat, error: JsString)

  // ---------------------------------------------------------------------------
  // The search pipeline

  /** `$limit n` (and the `limit` of `$vectorSearch`): the first `n` entries. */
  function Take<T>(s: seq<T>, n: nat): (r: seq<T>)
    ensures |r| == Min(|s|, n) && r == s[..|r|]
  {
    if |s| <= n then s else s[..n]
  }

  predicate Owned(h: Hit, owner: UserId)
  {
    h.doc.userId == owner
  }

  /** `$match { userId: owner }`: the owner's hits, in their order. */
  function OwnerMatch(hits: seq<Hit>, owner: UserId): seq<Hit>
  {
    if hits == [] then []
    else (if Owned(hits[0], owner) then [hits[0]] else []) + OwnerMatch(hits[1..], owner)
  }

  /** `$project { content, filename, score }` (with `_id`, kept by default). */
  function Project(h: Hit): Reference
  {
    Reference(h.id, h.doc.filename, h.doc.content, h.score)
  }

  function ProjectAll(hits: seq<Hit>): (r: seq<Reference>)
    ensures |r| == |hits| && forall k :: 0 <= k < |hits| ==> r[k] == Project(hits[k])
  {
    seq(|hits|, k requires 0 <= k < |hits| => Project(hits[k]))
  }

  /** The hits that survive `$vectorSearch` (limit 20), `$match` and `$limit 5`. */
  function SelectHits(ranked: seq<Hit>, owner: UserId): seq<Hit>
  {
    Take(OwnerMatch(Take(ranked, SearchLimit), owner), ResultLimit)
  }

  /** The aggregation's `results`. */
  function Results(ranked: seq<Hit>, owner: UserId): seq<Reference>
  {
    ProjectAll(SelectHits(ranked, owner))
  }

  /** The positions, offset by `base`, of the owner's hits in `hits`, in
      increasing order: one per hit `$match` keeps. */
  function MatchPositions(hits: seq<Hit>, owner: UserId, base: nat): (p: seq<nat>)
    ensures |p| == |OwnerMatch(hits, owner)|
  {
    if hits == [] then []
    else (if Owned(hits[0], owner) then [base] else []) + MatchPositions(hits[1..], owner, base + 1)
  }

  /** `$match` keeps exactly the owner's hits, in rank order: the k-th kept hit
      is the hit at the k-th of the owner's positions, the positions increase,
      and every position of an owner's hit is among them. */
  lemma OwnerMatchPositions(hits: seq<Hit>, owner: UserId, base: nat)
    ensures |MatchPositions(hits, owner, base)| == |OwnerMatch(hits, owner)|
    ensures forall k :: 0 <= k < |MatchPositions(hits, owner, base)| ==>
      && base <= MatchPositions(hits, owner, base)[k] < base + |hits|
      && OwnerMatch(hits, owner)[k] == hits[MatchPositions(hits, owner, base)[k] - base]
    ensures forall k, l :: 0 <= k < l < |MatchPositions(hits, owner, base)| ==>
      MatchPositions(hits, owner, base)[k] < MatchPositions(hits, owner, base)[l]
    ensures forall j :: 0 <= j < |hits| && Owned(hits[j], owner) ==> base + j in MatchPositions(hits, owner, base)
  {
    forall k | 0 <= k < |MatchPositions(hits, owner, base)| {
      PositionAt(hits, owner, base, k);
    }
    forall k, l | 0 <= k < l < |MatchPositions(hits, owner, base)| {
      PositionsIncrease(hits, owner, base, k, l);
    }
    forall j | 0 <= j < |hits| && Owned(hits[j], owner) {
      PositionComplete(hits, owner, base, j);
    }
  }

  lemma {:induction false} PositionAt(hits: seq<Hit>, owner: UserId, base: nat, k: nat)
    requires k < |MatchPositions(hits, owner, base)|
    ensures var p := MatchPositions(hits, owner, base);
      base <= p[k] < base + |hits| && OwnerMatch(hits, owner)[k] == hits[p[k] - base]
    decreases |hits|
  {
    var rest := hits[1..];
    var d := if Owned(hits[0], owner) then 1 else 0;
    if k >= d {
      PositionAt(rest, owner, base + 1, k - d);
      var p' := MatchPositions(rest, owner, base + 1);
      assert MatchPositions(hits, owner, base)[k] == p'[k - d];
      assert OwnerMatch(hits, owner)[k] == OwnerMatch(rest, owner)[k - d];
      assert rest[p'[k - d] - (base + 1)] == hits[p'[k - d] - base];
    }
  }

  lemma {:induction false} PositionsIncrease(hits: seq<Hit>, owner: UserId, base: nat, k: nat, l: nat)
    requires k < l < |MatchPositions(hits, owner, base)|
    ensures MatchPositions(hits, owner, base)[k] < MatchPositions(hits, owner, base)[l]
    decreases |hits|
  {
    var rest := hits[1..];
    var d := if Owned(hits[0], owner) then 1 else 0;
    var p, p' := MatchPositions(hits, owner, base), MatchPositions(rest, owner, base + 1);
    assert p == (if d == 1 then [base] else []) + p';
    if k >= d {
      PositionsIncrease(rest, owner, base + 1, k - d, l - d);
    } else {
      PositionAt(rest, owner, base + 1, l - 1);
    }
  }

  lemma {:induction false} PositionComplete(hits: seq<Hit>, owner: UserId, base: nat, j: nat)
    requires j < |hits| && Owned(hits[j], owner)
    ensures base + j in MatchPositions(hits, owner, base)
    decreases |hits|
  {
    var rest := hits[1..];
    if j > 0 {
      assert rest[j - 1] == hits[j];
      PositionComplete(rest, owner, base + 1, j - 1);
    }
  }

  /** The selection is the owner's best-ranked hits among the top 20 and
      nothing else: at most 5 of them, as many as there are up to 5, each one
      the owner's, in the engine's ranking order, none skipped. */
  lemma SelectionSpec(ranked: seq<Hit>, owner: UserId)
    ensures |Take(ranked, SearchLimit)| <= 20
    ensures var p := MatchPositions(Take(ranked, SearchLimit), owner, 0);
      |SelectHits(ranked, owner)| == Min(|p|, 5)
    ensures var top, sel := Take(ranked, SearchLimit), SelectHits(ranked, owner);
      var p := MatchPositions(top, owner, 0);
      forall k :: 0 <= k < |sel| ==> k < |p| && p[k] < |top| && sel[k] == top[p[k]] && Owned(sel[k], owner)
    ensures var p := MatchPositions(Take(ranked, SearchLimit), owner, 0);
      forall k, l :: 0 <= k < l < |p| ==> p[k] < p[l]
    ensures var top := Take(ranked, SearchLimit);
      forall j :: 0 <= j < |top| && Owned(top[j], owner) <==> j in MatchPositions(top, owner, 0)
  {
    var top := Take(ranked, SearchLimit);
    var m := OwnerMatch(top, owner);
    var p := MatchPositions(top, owner, 0);
    OwnerMatchPositions(top, owner, 0);
    OwnerMatchOnlyOwned(top, owner);
    var sel := SelectHits(ranked, owner);
    assert sel == Take(m, ResultLimit);
    forall k | 0 <= k < |sel| ensures k < |p| && p[k] < |top| && sel[k] == top[p[k]] && Owned(sel[k], owner) {
      assert sel[k] == m[k];
    }
    forall j | j in p ensures 0 <= j < |top| && Owned(top[j], owner) {
      var k :| 0 <= k < |p| && p[k] == j;
      assert m[k] == top[j];
    }
  }

  lemma {:induction false} OwnerMatchOnlyOwned(hits: seq<Hit>, owner: UserId)
    ensures forall k :: 0 <= k < |OwnerMatch(hits, owner)| ==> Owned(OwnerMatch(hits, owner)[k], owner)
  {
    if hits != [] {
      OwnerMatchOnlyOwned(hits[1..], owner);
    }
  }

  /** An owner's hit in the top 20 is left out only when 5 of the owner's
      better-ranked hits fill the selection. */
  lemma SelectionNoSkip(ranked: seq<Hit>, owner: UserId, j: nat)
    requires j < |Take(ranked, SearchLimit)| && Owned(ranked[j], owner)
    requires forall k :: 0 <= k < |SelectHits(ranked, owner)| ==> SelectHits(ranked, owner)[k] != ranked[j]
    ensures |SelectHits(ranked, owner)| == 5
    ensures |MatchPositions(Take(ranked, SearchLimit), owner, 0)| >= 5
    ensures forall k :: 0 <= k < 5 ==> MatchPositions(Take(ranked, SearchLimit), owner, 0)[k] < j
  {
    SelectionSpec(ranked, owner);
    var top, sel := Take(ranked, SearchLimit), SelectHits(ranked, owner);
    var p := MatchPositions(top, owner, 0);
    assert top[j] == ranked[j];
    var q :| 0 <= q < |p| && p[q] == j;
    forall k | 0 <= k < 5 ensures p[k] < j {
      assert k < q;
    }
  }

  /** `ref` is the projection of one of the owner's hits among the top 20. */
  ghost predicate FromOwnersTop(ranked: seq<Hit>, owner: UserId, ref: Reference)
  {
    exists j :: 0 <= j < |ranked| && j < SearchLimit && Owned(ranked[j], owner) && ref == Project(ranked[j])
  }

  /** Every selected reference comes from one of the owner's documents: the
      owner filter holds whatever the scores say. */
  lemma ResultsOwnerOnly(ranked: seq<Hit>, owner: UserId)
    ensures |Results(ranked, owner)| <= 5
    ensures forall k :: 0 <= k < |Results(ranked, owner)| ==> FromOwnersTop(ranked, owner, Results(ranked, owner)[k])
  {
    SelectionSpec(ranked, owner);
    var top, sel := Take(ranked, SearchLimit), SelectHits(ranked, owner);
    var p := MatchPositions(top, owner, 0);
    var r := Results(ranked, owner);
    forall k | 0 <= k < |r| ensures FromOwnersTop(ranked, owner, r[k]) {
      var j := p[k];
      assert top[j] == ranked[j];
      assert r[k] == Project(sel[k]);
      assert 0 <= j < |ranked| && j < SearchLimit && Owned(ranked[j], owner) && r[k] == Project(ranked[j]);
    }
  }

  /** The owner filter runs after the search's limit of 20: when the 20
      best-ranked candidates belong to other owners, the owner gets no
      result, even with a matching candidate at rank 21. */
  lemma CrowdedOutByOtherOwners(ranked: seq<Hit>, owner: UserId)
    requires |ranked| > 20 && Owned(ranked[20], owner)
    requires forall j :: 0 <= j < 20 ==> !Owned(ranked[j], owner)
    ensures Results(ranked, owner) == []
  {
    var top := Take(ranked, SearchLimit);
    forall j | 0 <= j < |top| ensures !Owned(top[j], owner) {
      assert top[j] == ranked[j];
    }
    OwnerMatchNone(top, owner);
  }

  lemma {:induction false} OwnerMatchNone(hits: seq<Hit>, owner: UserId)
    requires forall j :: 0 <= j < |hits| ==> !Owned(hits[j], owner)
    ensures OwnerMatch(hits, owner) == []
  {
    if hits != [] {
      OwnerMatchNone(hits[1..], owner);
    }
  }

  // ---------------------------------------------------------------------------
  // Context and prompt

  const EntrySeparator: JsString := Lit("\n\n")

  /** `File: ${r.filename}\nContent: ${r.content}`. */
  function Entry(r: Reference): JsString
  {
    Lit("File: ") + r.filename + Lit("\nContent: ") + r.content
  }

  function Entries(refs: seq<Reference>): (r: seq<JsString>)
    ensures |r| == |refs| && forall k :: 0 <= k < |refs| ==> r[k] == Entry(refs[k])
  {
    seq(|refs|, k requires 0 <= k < |refs| => Entry(refs[k]))
  }

  /** `results.map(...).join("\n\n")`. */
  function Context(refs: seq<Reference>): JsString
  {
    Join(Entries(refs), EntrySeparator)
  }

  /** Where the k-th entry starts in the context: after the k earlier
      entries, each followed by a separator. */
  function EntryStart(refs: seq<Reference>, k: nat): nat
    requires k <= |refs|
  {
    if k == 0 then 0 else EntryStart(refs, k - 1) + |Entry(refs[k - 1])| + |EntrySeparator|
  }

  /** Entry k of `refs` sits in `c` at `EntryStart(refs, k)`, followed by the
      separator unless it is the last entry. */
  ghost predicate EntryAt(c: JsString, refs: seq<Reference>, k: nat)
    requires k < |refs|
  {
    && EntryEnd(refs, k) <= |c| && c[EntryStart(refs, k)..EntryEnd(refs, k)] == Entry(refs[k])
    && (k + 1 < |refs| ==>
          EntryStart(refs, k + 1) <= |c| && c[EntryEnd(refs, k)..EntryStart(refs, k + 1)] == EntrySeparator)
  }

  /** Where the k-th entry ends in the context. */
  function EntryEnd(refs: seq<Reference>, k: nat): nat
    requires k < |refs|
  {
    EntryStart(refs, k) + |Entry(refs[k])|
  }

  /** The context is the entries in result order, with a separator between
      each two and nothing else: every entry sits at its place and the
      context ends with the last entry. */
  lemma {:induction false} ContextLayout(refs: seq<Reference>)
    requires refs != []
    ensures |Context(refs)| == EntryEnd(refs, |refs| - 1)
    ensures forall k :: 0 <= k < |refs| ==> EntryAt(Context(refs), refs, k)
    decreases |refs|
  {
    var n := |refs|;
    if n == 1 {
      assert Context(refs) == Entry(refs[0]);
    } else {
      var init := refs[..n - 1];
      var e := Entry(refs[n - 1]);
      ContextLayout(init);
      assert Entries(refs) == Entries(init) + [e];
      JoinSnoc(Entries(init), e, EntrySeparator);
      LayoutSnoc(refs, init, Context(init), Context(refs));
    }
  }

  /** Appending a separator and the last entry to the layout of the earlier
      entries gives the layout of all of them. */
  lemma LayoutSnoc(refs: seq<Reference>, init: seq<Reference>, c': JsString, c: JsString)
    requires |refs| >= 2 && init == refs[..|refs| - 1]
    requires |c'| == EntryEnd(init, |init| - 1)
    requires forall k :: 0 <= k < |init| ==> EntryAt(c', init, k)
    requires c == c' + EntrySeparator + Entry(refs[|refs| - 1])
    ensures |c| == EntryEnd(refs, |refs| - 1)
    ensures forall k :: 0 <= k < |refs| ==> EntryAt(c, refs, k)
  {
    var n := |refs|;
    EntryStartPrefix(refs, init, n - 2);
    assert refs[n - 2] == init[n - 2];
    assert EntryStart(refs, n - 1) == |c'| + |EntrySeparator|;
    forall k | 0 <= k < n ensures EntryAt(c, refs, k) {
      if k < n - 1 {
        EntryAtExtend(refs, init, k, c', c);
      } else {
        SliceOfSuffix(c' + EntrySeparator, Entry(refs[n - 1]));
      }
    }
  }

  /** Appending a separator and an entry leaves an earlier entry in place. */
  lemma EntryAtExtend(refs: seq<Reference>, init: seq<Reference>, k: nat, c': JsString, c: JsString)
    requires |refs| >= 2 && init == refs[..|refs| - 1] && k < |init|
    requires EntryAt(c', init, k)
    requires |c'| == EntryEnd(init, |init| - 1)
    requires c == c' + EntrySeparator + Entry(refs[|refs| - 1])
    ensures EntryAt(c, refs, k)
  {
    var tail := EntrySeparator + Entry(refs[|refs| - 1]);
    assert c == c' + tail;
    EntryBoundsPrefix(refs, init, k);
    var a, b := EntryStart(init, k), EntryEnd(init, k);
    SliceOfPrefix(c', tail, a, b);
    if k + 1 < |init| {
      SliceOfPrefix(c', tail, b, EntryStart(init, k + 1));
    } else {
      SliceOfMiddle(c', EntrySeparator, Entry(refs[|refs| - 1]));
    }
  }

  /** An entry of the earlier results has the same bounds once more results follow. */
  lemma EntryBoundsPrefix(refs: seq<Reference>, init: seq<Reference>, k: nat)
    requires |init| < |refs| && init == refs[..|init|] && k < |init|
    ensures EntryStart(refs, k) == EntryStart(init, k)
    ensures EntryEnd(refs, k) == EntryEnd(init, k)
    ensures EntryStart(refs, k + 1) == EntryStart(init, k + 1) == EntryEnd(init, k) + |EntrySeparator|
  {
    EntryStartPrefix(refs, init, k);
    EntryStartPrefix(refs, init, k + 1);
    assert refs[k] == init[k];
  }

  lemma SliceOfPrefix(x: JsString, y: JsString, a: nat, b: nat)
    requires a <= b <= |x|
    ensures (x + y)[a..b] == x[a..b]
  {
  }

  lemma SliceOfMiddle(x: JsString, y: JsString, z: JsString)
    ensures (x + y + z)[|x|..|x| + |y|] == y
  {
  }

  lemma SliceOfSuffix(x: JsString, y: JsString)
    ensures (x + y)[|x|..|x| + |y|] == y
  {
  }

  lemma {:induction false} EntryStartPrefix(refs: seq<Reference>, init: seq<Reference>, k: nat)
    requires |init| <= |refs| && init == refs[..|init|] && k <= |init|
    ensures EntryStart(refs, k) == EntryStart(init, k)
    decreases k
  {
    if k > 0 {
      EntryStartPrefix(refs, init, k - 1);
      assert refs[k - 1] == init[k - 1];
    }
  }

  const PromptHead: JsString :=
    Lit("\n      Use ONLY the following context from the user's uploaded documents:\n      ")
  const PromptMiddle: JsString := Lit("\n\n      QUESTION: ")
  const PromptTail: JsString :=
    Lit("\n\n      Respond using only the documents above.\n      If the answer is not found, say:\n      \"I cannot find that information in your documents.\"\n    ")

  /** The prompt template with the context and the query filled in. */
  function Prompt(context: JsString, query: JsString): JsString
  {
    PromptHead + context + PromptMiddle + query + PromptTail
  }

  /** The prompt holds the whole context and then the whole query, each at a
      fixed place between the template's fixed parts. */
  lemma PromptEmbeds(context: JsString, query: JsString)
    ensures var p, h, q := Prompt(context, query), |PromptHead|, |PromptHead| + |context| + |PromptMiddle|;
      && p[..h] == PromptHead
      && p[h..h + |context|] == context
      && p[h + |context|..q] == PromptMiddle
      && p[q..q + |query|] == query
      && p[q + |query|..] == PromptTail
  {
  }

  // ---------------------------------------------------------------------------
  // The handler

  /** `POST /`. `query` is the body's `query` (None: absent or null), `embed`
      the embedding service, `search` the vector search over the documents,
      `generate` the language model, `logFailure` the database's rejection of
      the history write, if any, and `now` the write's timestamp. Besides the
      reply, it returns the requests it made. */
  method Ask(log: ChatHistoryLog, user: UserId, query: Option<JsString>,
             embed: Embedder, search: VectorSearch, generate: Generator,
             logFailure: Option<JsString>, now: int)
    returns (reply: ChatReply, calls: seq<ProviderCall>)
    modifies log
    ensures query.None? || query.value == [] ==>
      reply == ChatError(400, QueryRequired) && calls == [] && log.records == old(log.records)
    ensures query.Some? && query.value != [] ==>
      var q := query.value;
      match embed(q)
      case Fail(m) =>
        reply == ChatError(500, m) && calls == [EmbedCall(q)] && log.records == old(log.records)
      case Ok(vector) =>
        match search(vector)
        case Fail(m) =>
          reply == ChatError(500, m) && calls == [EmbedCall(q), SearchCall(vector)]
          && log.records == old(log.records)
        case Ok(ranked) =>
          var results := Results(ranked, user);
          if results == [] then
            && calls == [EmbedCall(q), SearchCall(vector)]
            && if logFailure.Some? then
                 reply == ChatError(500, logFailure.value) && log.records == old(log.records)
               else
                 && reply == Answered(false, NoInfoAnswer, [])
                 && log.records == old(log.records) + [Interaction(user, q, NoInfoAnswer, [], now)]
          else
            var prompt := Prompt(Context(results), q);
            && calls == [EmbedCall(q), SearchCall(vector), GenerateCall(prompt)]
            && match generate(prompt)
               case Fail(m) =>
                 reply == ChatError(500, m) && log.records == old(log.records)
               case Ok(answer) =>
                 if logFailure.Some? then
                   reply == ChatError(500, logFailure.value) && log.records == old(log.records)
                 else
                   && reply == Answered(true, answer, results)
                   && log.records == old(log.records) + [Interaction(user, q, answer, results, now)]
    ensures reply.Answered? ==>
      log.records == old(log.records) + [Interaction(user, query.value, reply.answer, reply.references, now)]
    ensures reply.ChatError? ==> log.records == old(log.records)
  {
    calls := [];
    if query.None? || query.value == [] {
      return ChatError(400, QueryRequired), calls;
    }
    var q := query.value;
    var queryVector := embed(q);
    calls := calls + [EmbedCall(q)];
    if queryVector.Fail? {
      return ChatError(500, queryVector.message), calls;
    }
    var found := search(queryVector.value);
    calls := calls + [SearchCall(queryVector.value)];
    if found.Fail? {
      return ChatError(500, found.message), calls;
    }
    var results := Results(found.value, user);

    if |results| == 0 {
      var err := log.Create(Interaction(user, q, NoInfoAnswer, [], now), logFailure);
      if err.Some? {
        return ChatError(500, err.value), calls;
      }
      return Answered(false, NoInfoAnswer, []), calls;
    }

    var context := Context(results);
    var prompt := Prompt(context, q);
    var answer := generate(prompt);
    calls := calls + [GenerateCall(prompt)];
    if answer.Fail? {
      return ChatError(500, answer.message), calls;
    }
    var err := log.Create(Interaction(user, q, answer.value, results, now), logFailure);
    if err.Some? {
      return ChatError(500, err.value), calls;
    }
    reply := Answered(true, answer.value, results);
  }
}
