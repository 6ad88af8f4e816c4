/**
  The shared chat store: the message list, a loading flag and the last recommendation.
  Adding a message stamps it with the current time; resetting restores the two greeting
  messages, clearing empties the list, and both drop the recommendation and stop loading.

  The clock is an input: `now` stands for `Date.now()`.
*/
module ChatContext {
  import opened Common
  import AiMakerPage
  import ChatServer

  /** A stored message; `timestamp` is `None` where the field is absent. */
  datatype ChatMessage = ChatMessage(role: AiMakerPage.Role, content: string, timestamp: Option<int>)

  /** The two greetings, system first, without timestamps. */
  const InitialMessages: seq<ChatMessage> := [
    ChatMessage(AiMakerPage.SystemRole, AiMakerPage.SystemGreeting, None),
    ChatMessage(AiMakerPage.AssistantRole, AiMakerPage.AssistantGreeting, None)
  ]

  /** `{ ...message, timestamp: now }`. */
  function Stamped(message: ChatMessage, now: int): ChatMessage
  {
    message.(timestamp := Some(now))
  }

  /** The message without its timestamp, as the chat page stores it. */
  function Plain(message: ChatMessage): AiMakerPage.Message
  {
    AiMakerPage.Message(message.role, message.content)
  }

  function PlainAll(messages: seq<ChatMessage>): seq<AiMakerPage.Message>
  {
    seq(|messages|, i requires 0 <= i < |messages| => Plain(messages[i]))
  }

  /** The list after `addMessage(message)` at time `now`. */
  function AfterAddMessage(messages: seq<ChatMessage>, message: ChatMessage, now: int): seq<ChatMessage>
  {
    messages + [Stamped(message, now)]
  }

  /** Stamping keeps role and content and replaces whatever timestamp the message had. */
  lemma StampedSpec(message: ChatMessage, now: int)
    ensures Plain(Stamped(message, now)) == Plain(message)
    ensures Stamped(message, now).timestamp == Some(now)
    ensures forall other :: Plain(other) == Plain(message) ==> Stamped(other, now) == Stamped(message, now)
  {
  }

  /** Adding appends exactly one message, the stamped input, and leaves the earlier messages
      untouched; ignoring timestamps, it appends the message itself. */
  lemma AfterAddMessageSpec(messages: seq<ChatMessage>, message: ChatMessage, now: int)
    ensures |AfterAddMessage(messages, message, now)| == |messages| + 1
    ensures AfterAddMessage(messages, message, now)[..|messages|] == messages
    ensures AfterAddMessage(messages, message, now)[|messages|] == Stamped(message, now)
    ensures PlainAll(AfterAddMessage(messages, message, now)) == PlainAll(messages) + [Plain(message)]
  {
    var r := AfterAddMessage(messages, message, now);
    assert r[..|messages|] == messages;
    assert PlainAll(r)[|messages|] == Plain(message);
  }

  /** The store's greetings are the chat page's greetings. */
  lemma InitialMessagesAgree()
    ensures PlainAll(InitialMessages) == AiMakerPage.InitialMessages
    ensures forall k :: 0 <= k < |InitialMessages| ==> InitialMessages[k].timestamp.None?
  {
    assert PlainAll(InitialMessages)[0] == AiMakerPage.InitialMessages[0];
    assert PlainAll(InitialMessages)[1] == AiMakerPage.InitialMessages[1];
  }

  /** The provider's state. */
  class ChatStore {
    var messages: seq<ChatMessage>
    var isLoading: bool
    var recommendationResult: Option<ChatServer.Recommendation>

    constructor ()
      ensures messages == InitialMessages && !isLoading && recommendationResult.None?
    {
      messages := InitialMessages;
      isLoading := false;
      recommendationResult := None;
    }

    /** `addMessage`: appends the message stamped with `now`. */
    method AddMessage(message: ChatMessage, now: int)
      modifies this
      ensures messages == AfterAddMessage(old(messages), message, now)
      ensures isLoading == old(isLoading) && recommendationResult == old(recommendationResult)
    {
      var messageWithTimestamp := message.(timestamp := Some(now));
      messages := messages + [messageWithTimestamp];
    }

    method SetIsLoading(loading: bool)
      modifies this
      ensures isLoading == loading
      ensures messages == old(messages) && recommendationResult == old(recommendationResult)
    {
      isLoading := loading;
    }

    method SetRecommendationResult(result: Option<ChatServer.Recommendation>)
      modifies this
      ensures recommendationResult == result
      ensures messages == old(messages) && isLoading == old(isLoading)
    {
      recommendationResult := result;
    }

    /** `resetChat`: back to the greetings. */
    method ResetChat()
      modifies this
      ensures messages == InitialMessages && !isLoading && recommendationResult.None?
    {
      messages := InitialMessages;
      recommendationResult := None;
      isLoading := false;
    }

    /** `clearChat`: no messages at all. */
    method ClearChat()
      modifies this
      ensures messages == [] && !isLoading && recommendationResult.None?
    {
      messages := [];
      recommendationResult := None;
      isLoading := false;
    }
  }
}
