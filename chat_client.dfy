/** The chat screen's state (frontend/src/components/Chat.jsx): the input
    box `query`, the conversation `messages`, the newest-first `history` of
    answered questions and the `sending` flag, with the transitions of the
    Send, Clear and history-select handlers. `send` awaits the server, so it
    is two steps here: `BeginSend` runs up to the request and `FinishSend`
    runs once the request settles; `Send` composes them. Every `Date.now()`
    is a timestamp parameter. */
module ChatClient {
  import opened JsText
  import opened Store
  import opened Question

  /** How many history items `send` keeps. */
  const HistoryCap: nat := 50

  const NoAnswer: JsString := Lit("No answer")

  datatype Role = UserRole | BotRole

  /** One line of the conversation. */
  datatype Message = Message(role: Role, text: JsString, ts: int)

  /** One answered question in the activity list. */
  datatype HistoryItem = HistoryItem(question: JsString, answer: JsString, ts: int, references: seq<Reference>)

  /** How the `/chat` request settles, as the client sees it. Absent or
      empty fields are `[]`.
      - `Replied`: the request resolved; `res.data.answer`, `res.data.data`
        and `res.data.references`.
      - `Rejected`: the request threw; `err.response.data.error` and
        `err.message`. */
  datatype Outcome =
    | Replied(answer: JsString, data: JsString, references: seq<Reference>)
    | Rejected(serverError: JsString, message: JsString)

  /** `res.data.answer || res.data?.data || 'No answer'`: the first
      non-empty of the two fields, or the fallback; never empty. */
  function ClientAnswer(answer: JsString, data: JsString): (r: JsString)
    ensures |r| > 0
    ensures answer != [] ==> r == answer
    ensures answer == [] && data != [] ==> r == data
    ensures answer == [] && data == [] ==> r == NoAnswer
  {
    if answer != [] then answer else if data != [] then data else NoAnswer
  }

  /** `err?.response?.data?.error || err.message`: the server's error text
      when it sent one, else the transport's message. */
  function ErrorText(serverError: JsString, message: JsString): (r: JsString)
    ensures serverError != [] ==> r == serverError
    ensures serverError == [] ==> r == message
  {
    if serverError != [] then serverError else message
  }

  /** The text of the bot message `send` appends for an outcome. */
  function BotText(o: Outcome): JsString
  {
    match o
    case Replied(answer, data, _) => ClientAnswer(answer, data)
    case Rejected(serverError, message) => ErrorText(serverError, message)
  }

  /** `[item, ...h].slice(0, 50)`: the new item first, then the earlier items
      in their order, as many as fit under the cap. */
  function PushCapped(item: HistoryItem, h: seq<HistoryItem>): (r: seq<HistoryItem>)
    ensures |r| == Min(|h| + 1, HistoryCap) && |r| <= HistoryCap
    ensures r[0] == item
    ensures forall i :: 1 <= i < |r| ==> r[i] == h[i - 1]
  {
    ([item] + h)[..Min(|h| + 1, HistoryCap)]
  }

  /** Pushing drops only the oldest items: what is kept after the new item
      is a prefix of the old list, and the old list is that prefix followed
      by the dropped items. At the cap exactly one item, the oldest, goes. */
  lemma PushCappedDropsOldest(item: HistoryItem, h: seq<HistoryItem>)
    ensures var r := PushCapped(item, h);
      && r[1..] == h[..|r| - 1]
      && h == r[1..] + h[|r| - 1..]
      && (|h| < HistoryCap ==> r == [item] + h)
      && (|h| == HistoryCap ==> r == [item] + h[..HistoryCap - 1])
  {
    var r := PushCapped(item, h);
    assert r[1..] == h[..|r| - 1];
  }

  /** The client's view of the server's reply: a 2xx reply resolves with its
      JSON body (which has no `data` field); a 400 or 500 reply makes the
      request throw with the body's `error` and the transport's `message`. */
  function Delivered(reply: ChatReply, transportMessage: JsString): Outcome
  {
    match reply
    case Answered(_, answer, references) => Replied(answer, [], references)
    case ChatError(_, error) => Rejected(error, transportMessage)
  }

  /** What the bot message says for each server reply: the server's answer,
      or the fallback for an empty one; the server's error message, or the
      transport message for an empty one. The no-context reply is shown as
      it is. */
  lemma BotShowsServerReply(reply: ChatReply, transportMessage: JsString)
    ensures reply.Answered? && reply.answer != [] ==> BotText(Delivered(reply, transportMessage)) == reply.answer
    ensures reply.Answered? && reply.answer == [] ==> BotText(Delivered(reply, transportMessage)) == NoAnswer
    ensures reply.ChatError? && reply.error != [] ==> BotText(Delivered(reply, transportMessage)) == reply.error
    ensures reply.ChatError? && reply.error == [] ==> BotText(Delivered(reply, transportMessage)) == transportMessage
    ensures reply == Answered(false, NoInfoAnswer, []) ==> BotText(Delivered(reply, transportMessage)) == NoInfoAnswer
  {
  }

  /** The component's state cells. `pending` is the query the in-flight
      request was sent with (the value `send`'s closure captured). */
  class ChatView {
    var query: JsString
    var messages: seq<Message>
    var history: seq<HistoryItem>
    var sending: bool
    var pending: JsString

    /** Mounting: messages and history restored from storage (parsed
        elsewhere), an empty input, not sending. */
    constructor (storedMessages: seq<Message>, storedHistory: seq<HistoryItem>)
      ensures query == [] && messages == storedMessages && history == storedHistory
      ensures !sending && pending == []
    {
      query := [];
      messages := storedMessages;
      history := storedHistory;
      sending := false;
      pending := [];
    }

    /** Typing in the input box. */
    method SetQuery(text: JsString)
      modifies this
      ensures query == text
      ensures messages == old(messages) && history == old(history)
      ensures sending == old(sending) && pending == old(pending)
    {
      query := text;
    }

    /** The input's Clear button. */
    method ClearInput()
      modifies this
      ensures query == []
      ensures messages == old(messages) && history == old(history)
      ensures sending == old(sending) && pending == old(pending)
    {
      query := [];
    }

    /** `send` up to the request: nothing happens when the input is empty or
        a request is in flight; otherwise the user's message is appended,
        `sending` is set and the query is sent. */
    method BeginSend(now: int) returns (started: bool)
      modifies this
      ensures started <==> old(query) != [] && !old(sending)
      ensures !started ==>
        && query == old(query) && messages == old(messages) && history == old(history)
        && sending == old(sending) && pending == old(pending)
      ensures started ==>
        && messages == old(messages) + [Message(UserRole, old(query), now)]
        && sending && pending == old(query)
        && query == old(query) && history == old(history)
    {
      if query == [] || sending {
        return false;
      }
      messages := messages + [Message(UserRole, query, now)];
      sending := true;
      pending := query;
      started := true;
    }

    /** `send` after the request settles: the bot's message is appended;
        on a reply the history gains the exchange at its head; then the
        flag is cleared and the input emptied. */
    method FinishSend(outcome: Outcome, botTs: int, itemTs: int)
      modifies this
      ensures messages == old(messages) + [Message(BotRole, BotText(outcome), botTs)]
      ensures outcome.Replied? ==>
        history == PushCapped(HistoryItem(old(pending), BotText(outcome), itemTs, outcome.references), old(history))
      ensures outcome.Rejected? ==> history == old(history)
      ensures !sending && query == [] && pending == old(pending)
    {
      var text := BotText(outcome);
      messages := messages + [Message(BotRole, text, botTs)];
      if outcome.Replied? {
        history := PushCapped(HistoryItem(pending, text, itemTs, outcome.references), history);
      }
      sending := false;
      query := [];
    }

    /** `send` as a whole, with `respond` standing for the server round trip
        on the query. */
    method Send(respond: JsString -> Outcome, userTs: int, botTs: int, itemTs: int) returns (started: bool)
      modifies this
      ensures started <==> old(query) != [] && !old(sending)
      ensures !started ==>
        && query == old(query) && messages == old(messages) && history == old(history)
        && sending == old(sending) && pending == old(pending)
      ensures started ==>
        var outcome := respond(old(query));
        && messages == old(messages) + [Message(UserRole, old(query), userTs), Message(BotRole, BotText(outcome), botTs)]
        && history == (if outcome.Replied? then
                         PushCapped(HistoryItem(old(query), BotText(outcome), itemTs, outcome.references), old(history))
                       else old(history))
        && !sending && query == [] && pending == old(query)
    {
      started := BeginSend(userTs);
      if started {
        FinishSend(respond(pending), botTs, itemTs);
      }
    }

    /** The activity list's Clear button. */
    method ClearHistory()
      modifies this
      ensures history == []
      ensures query == old(query) && messages == old(messages)
      ensures sending == old(sending) && pending == old(pending)
    {
      history := [];
    }

    /** Selecting a history item replays it: its question and then its
        answer are appended as two messages. */
    method SelectHistory(h: HistoryItem, userTs: int, botTs: int)
      modifies this
      ensures messages == old(messages) + [Message(UserRole, h.question, userTs), Message(BotRole, h.answer, botTs)]
      ensures query == old(query) && history == old(history)
      ensures sending == old(sending) && pending == old(pending)
    {
      messages := messages + [Message(UserRole, h.question, userTs), Message(BotRole, h.answer, botTs)];
    }
  }
}
