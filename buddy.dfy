/** The `BuddyAI` application object, reduced to the state its handlers
    update: the API key, the current model and chat, the chat's messages,
    the usage counters, the saved custom models and the history index. Every
    handler is proved against the specification functions of `Models`,
    `History` and `Errors`. The clock, the random chat ids and the answer of
    the completion service are parameters. */
module Buddy {
  import opened Wrappers
  import opened Collections
  import opened Text
  import opened Models
  import opened History
  import opened Errors
  import opened Formatter

  /** The bot message every new chat starts with (written in two parts, at
      the space after its fifth word). */
  const Greeting: string := "I'm ready to help with" + " " + ("your coding questions! " + "What would you like to work on?")

  /** What the clock says when a message is added: `Date.now()` for the
      message id, `new Date()` for its timestamp, and the ISO time the history
      entry records as `lastModified`. */
  datatype Stamp = Stamp(id: int, timestamp: string, now: string)

  /** How the completion request ended: with the model's answer, or by
      throwing an error with this message. */
  datatype Reply = Answer(text: string) | Failure(message: string)

  /** The bot message `sendMessage` adds for a reply. */
  function ReplyText(reply: Reply): (r: string)
    ensures reply.Answer? ==> r == reply.text
    ensures reply.Failure? ==> StartsWith(r, Apology)
  {
    match reply
    case Answer(text) => text
    case Failure(message) => ErrorReply(message)
  }

  /** `Math.ceil(response.length / 4)`: the tokens an answer is counted as. */
  function TokenEstimate(reply: Reply): (n: nat)
    ensures reply.Answer? ==> 4 * n >= |reply.text| && 4 * n < |reply.text| + 4
    ensures reply.Failure? ==> n == 0
  {
    match reply
    case Answer(text) => (|text| + 3) / 4
    case Failure(_) => 0
  }

  /** The bot messages `sendMessage` adds for a reply: the reply itself
      and, when rendering an answer throws, the advice its `catch` adds for
      that exception, whose message is `renderError`. */
  function ReplyMessages(reply: Reply, answered: Stamp, advised: Stamp, renderError: string,
                         model: string, markup: string -> string): (r: seq<Message>)
    ensures |r| >= 1 && r[0] == Message(answered.id, ReplyText(reply), false, answered.timestamp, model)
    ensures |r| == 2 <==> reply.Answer? && Throws(reply.text, markup)
    ensures |r| <= 2 && (|r| == 2 ==> r[1].content == ErrorReply(renderError) && !r[1].isUser)
  {
    var answer := Message(answered.id, ReplyText(reply), false, answered.timestamp, model);
    if reply.Answer? && Throws(reply.text, markup) then
      [answer, Message(advised.id, ErrorReply(renderError), false, advised.timestamp, model)]
    else [answer]
  }

  /** When the history index is last written for a reply: when the last
      message that rendered was added. */
  function ReplyTime(reply: Reply, answered: Stamp, advised: Stamp, markup: string -> string): string {
    if reply.Answer? && Throws(reply.text, markup) then advised.now else answered.now
  }

  /** A one-line message that does not start with a backtick renders. */
  lemma OneLineRenders(text: string, markup: string -> string)
    requires '\n' !in text && (|text| > 0 ==> text[0] != '`')
    ensures !Throws(text, markup)
  {
    SplitWithoutSep(text, '\n');
    FencelessNeverThrows(text, markup);
  }

  /** The advice for an error always renders: it is one line of plain text. */
  lemma ErrorReplyRenders(message: string, markup: string -> string)
    ensures !Throws(ErrorReply(message), markup)
  {
    ErrorReplyIsOneLine(message);
    OneLineRenders(ErrorReply(message), markup);
  }

  /** The greeting renders. */
  lemma GreetingRenders(markup: string -> string)
    ensures !Throws(Greeting, markup)
  {
    assert Greeting[0] == 'I';
    assert '\n' !in "I'm ready to help with" && '\n' !in " ";
    assert '\n' !in "your coding questions! " && '\n' !in "What would you like to work on?";
    OneLineRenders(Greeting, markup);
  }

  /** Every chat begun by `startNewChat` opens with the greeting, so its
      history entry is titled by the greeting's first five words, whatever
      the user writes afterwards. */
  lemma GreetedChatTitle(messages: seq<Message>)
    requires |messages| > 0 && messages[0].content == Greeting
    ensures GenerateChatTitle(messages) == "I'm ready to help with"
  {
    OpeningJoin();
    OpeningWordsHaveNoSpace();
    TitleOfLongMessage(messages, OpeningWords, "your coding questions! " + "What would you like to work on?");
  }

  /** The greeting's first five words. */
  const OpeningWords: seq<string> := ["I'm", "ready", "to", "help", "with"]

  lemma OpeningWordsHaveNoSpace()
    ensures forall k :: 0 <= k < |OpeningWords| ==> ' ' !in OpeningWords[k]
  {
  }

  lemma OpeningJoin()
    ensures Join(OpeningWords, " ") == "I'm ready to help with"
  {
    var w := ["I'm", "ready", "to", "help", "with"];
    assert Join(w, " ") == "I'm ready to help with";
  }

  class BuddyAI {
    /** The inline markup rewriting `formatMessageContent` applies to text lines. */
    const markup: string -> string
    var apiKey: string
    var currentModel: string
    var currentChatId: string
    var messages: seq<Message>
    var tokenCount: nat
    var modelSwitchCount: nat
    var customModels: seq<string>
    var chatHistory: seq<ChatInfo>

    /** The history index is capped and holds one entry per chat. */
    ghost predicate Valid()
      reads this
    {
      |chatHistory| <= MaxHistory && UniqueIds(chatHistory)
    }

    /** A fresh session, before any stored state or configuration is loaded. */
    constructor(chatId: string, markup: string -> string)
      ensures Valid() && this.markup == markup
      ensures apiKey == "" && currentModel == DefaultModel && currentChatId == chatId
      ensures messages == [] && tokenCount == 0 && modelSwitchCount == 0
      ensures customModels == [] && chatHistory == []
    {
      this.markup := markup;
      apiKey := "";
      currentModel := DefaultModel;
      currentChatId := chatId;
      messages := [];
      tokenCount := 0;
      modelSwitchCount := 0;
      customModels := [];
      chatHistory := [];
    }

    /** The part of `loadConfig` that reads the parsed `config.json`: a key
        that is not blank is taken, and the listed models are merged in.
        `None` stands for a missing field (or, for the models, one that is not
        an array). */
    method LoadConfig(key: Option<string>, models: Option<seq<string>>)
      modifies this`apiKey, this`customModels
      ensures apiKey == (if key.Some? && Trim(key.value) != "" then key.value else old(apiKey))
      ensures customModels == (if models.Some? then MergeConfigModels(old(customModels), models.value) else old(customModels))
    {
      if key.Some? && Trim(key.value) != "" {
        apiKey := key.value;
      }
      if models.Some? {
        var current := customModels;
        var newModels := Filter(models.value, (m: string) => m !in current);
        customModels := customModels + newModels;
      }
    }

    /** `switchModel`: select a model and count the switch; returns the
        notification text. */
    method SwitchModel(id: string) returns (notice: string)
      modifies this`currentModel, this`modelSwitchCount
      ensures currentModel == id && modelSwitchCount == old(modelSwitchCount) + 1
      ensures notice == "Switched to " + ModelName(id)
    {
      currentModel := id;
      modelSwitchCount := modelSwitchCount + 1;
      notice := "Switched to " + ModelName(id);
    }

    /** `addCustomModel` for the text in the input box. */
    method AddCustomModel(input: string) returns (outcome: AddOutcome)
      modifies this`customModels
      ensures outcome == CheckCustomModel(input, old(customModels))
      ensures customModels == AddedModels(input, old(customModels))
      ensures NoDups(old(customModels)) ==> NoDups(customModels)
    {
      if NoDups(customModels) {
        AddKeepsNoDups(input, customModels);
      }
      var id := Trim(input);
      if id == "" {
        return Blank;
      }
      if '/' !in id {
        return MissingSlash;
      }
      if FindPreset(id).Some? || id in customModels {
        return AlreadyExists;
      }
      customModels := customModels + [id];
      outcome := Added(id);
    }

    /** `removeSavedModel`. */
    method RemoveSavedModel(id: string)
      modifies this`customModels
      ensures customModels == WithoutModel(old(customModels), id)
      ensures id !in customModels
      ensures NoDups(old(customModels)) ==> NoDups(customModels)
    {
      if NoDups(customModels) {
        RemoveKeepsNoDups(customModels, id);
      }
      customModels := Filter(customModels, (m: string) => m != id);
    }

    /** `updateChatHistory` at time `now`. */
    method UpdateChatHistory(now: string)
      requires Valid()
      modifies this`chatHistory
      ensures Valid()
      ensures chatHistory == UpdatedHistory(old(chatHistory), messages, currentChatId, currentModel, now)
    {
      if |messages| == 0 {
        return;
      }
      UpdateKeepsIdsUnique(chatHistory, messages, currentChatId, currentModel, now);
      var existing := FindChat(chatHistory, currentChatId);
      var info := ChatInfoFor(messages, currentChatId, currentModel, now);
      if existing >= 0 {
        chatHistory := chatHistory[existing := info];
      } else {
        chatHistory := [info] + chatHistory;
      }
      if |chatHistory| > MaxHistory {
        chatHistory := chatHistory[..MaxHistory];
      }
    }

    /** `addMessage`: append a message of the current model, render it and
        record the chat in the history index. `rendered` is false when
        rendering throws; the message is then in the chat but the index is
        left as it was. */
    method AddMessage(content: string, isUser: bool, stamp: Stamp) returns (rendered: bool)
      requires Valid()
      modifies this`messages, this`chatHistory
      ensures Valid()
      ensures rendered == !Throws(content, markup)
      ensures messages == old(messages) + [Message(stamp.id, content, isUser, stamp.timestamp, currentModel)]
      ensures chatHistory == if rendered then UpdatedHistory(old(chatHistory), messages, currentChatId, currentModel, stamp.now)
                             else old(chatHistory)
    {
      messages := messages + [Message(stamp.id, content, isUser, stamp.timestamp, currentModel)];
      var _, thrown := FormatMessageContent(content, markup);
      if thrown {
        return false;
      }
      UpdateChatHistory(stamp.now);
      rendered := true;
    }

    /** `sendMessage`: nothing happens without an API key or with a blank
        input. Otherwise the trimmed input is added; when rendering it throws,
        the exception leaves `sendMessage` before any request is made.
        Otherwise the reply's messages follow (see `ReplyMessages`) and an
        answer's estimated tokens are counted. `renderError` is the message
        of the exception rendering an answer may throw. */
    method SendMessage(input: string, reply: Reply, asked: Stamp, answered: Stamp, advised: Stamp, renderError: string)
      requires Valid()
      modifies this`messages, this`chatHistory, this`tokenCount
      ensures Valid()
      ensures old(apiKey) == "" || Trim(input) == "" ==>
                messages == old(messages) && chatHistory == old(chatHistory) && tokenCount == old(tokenCount)
      ensures old(apiKey) != "" && Trim(input) != "" && Throws(Trim(input), markup) ==>
                messages == old(messages) + [Message(asked.id, Trim(input), true, asked.timestamp, currentModel)] &&
                chatHistory == old(chatHistory) && tokenCount == old(tokenCount)
      ensures old(apiKey) != "" && Trim(input) != "" && !Throws(Trim(input), markup) ==>
                var question := Message(asked.id, Trim(input), true, asked.timestamp, currentModel);
                messages == old(messages) + [question] + ReplyMessages(reply, answered, advised, renderError, currentModel, markup) &&
                tokenCount == old(tokenCount) + TokenEstimate(reply) &&
                chatHistory == UpdatedHistory(UpdatedHistory(old(chatHistory), old(messages) + [question], currentChatId, currentModel, asked.now),
                                              messages, currentChatId, currentModel, ReplyTime(reply, answered, advised, markup))
    {
      if apiKey == "" {
        return;
      }
      var message := Trim(input);
      if message == "" {
        return;
      }
      var rendered := AddMessage(message, true, asked);
      if !rendered {
        return;
      }
      RecordReply(reply, answered, advised, renderError);
    }

    /** The `try`/`catch` of `sendMessage`: an answer is counted and added;
        a failure, or an answer whose rendering throws, adds the advice for
        the error's message. */
    method RecordReply(reply: Reply, answered: Stamp, advised: Stamp, renderError: string)
      requires Valid()
      modifies this`messages, this`chatHistory, this`tokenCount
      ensures Valid()
      ensures messages == old(messages) + ReplyMessages(reply, answered, advised, renderError, currentModel, markup)
      ensures tokenCount == old(tokenCount) + TokenEstimate(reply)
      ensures chatHistory == UpdatedHistory(old(chatHistory), messages, currentChatId, currentModel, ReplyTime(reply, answered, advised, markup))
    {
      ghost var added := ReplyMessages(reply, answered, advised, renderError, currentModel, markup);
      match reply {
        case Answer(text) =>
          tokenCount := tokenCount + TokenEstimate(reply);
          var rendered := AddMessage(text, false, answered);
          if !rendered {
            ErrorReplyRenders(renderError, markup);
            ghost var withAnswer := messages;
            rendered := AddMessage(ErrorReply(renderError), false, advised);
            assert messages == withAnswer + [added[1]];
            assert withAnswer == old(messages) + [added[0]];
            assert messages == old(messages) + added;
          }
        case Failure(error) =>
          ErrorReplyRenders(error, markup);
          var _ := AddMessage(ErrorReply(error), false, answered);
      }
    }

    /** `startNewChat`: a new chat id, no messages, then the greeting. */
    method StartNewChat(newChatId: string, greeted: Stamp)
      requires Valid()
      modifies this`currentChatId, this`messages, this`chatHistory
      ensures Valid()
      ensures currentChatId == newChatId
      ensures messages == [Message(greeted.id, Greeting, false, greeted.timestamp, currentModel)]
      ensures chatHistory == UpdatedHistory(old(chatHistory), messages, newChatId, currentModel, greeted.now)
    {
      currentChatId := newChatId;
      messages := [];
      UpdateChatHistory(greeted.now);
      GreetingRenders(markup);
      var _ := AddMessage(Greeting, false, greeted);
    }

    /** `deleteChatFromHistory`; `confirmed` is the user's answer to the
        confirmation dialog. Deleting the open chat starts a new one. */
    method DeleteChatFromHistory(chatId: string, confirmed: bool, newChatId: string, greeted: Stamp)
      requires Valid()
      modifies this`currentChatId, this`messages, this`chatHistory
      ensures Valid()
      ensures !confirmed ==>
                currentChatId == old(currentChatId) && messages == old(messages) && chatHistory == old(chatHistory)
      ensures confirmed && chatId != old(currentChatId) ==>
                currentChatId == old(currentChatId) && messages == old(messages) &&
                chatHistory == WithoutChat(old(chatHistory), chatId)
      ensures confirmed && chatId == old(currentChatId) ==>
                currentChatId == newChatId &&
                messages == [Message(greeted.id, Greeting, false, greeted.timestamp, currentModel)] &&
                chatHistory == UpdatedHistory(WithoutChat(old(chatHistory), chatId), messages, newChatId, currentModel, greeted.now)
      ensures confirmed && newChatId != chatId ==> FindChat(chatHistory, chatId) == -1
    {
      if confirmed {
        DeleteKeepsIdsUnique(chatHistory, chatId);
        chatHistory := WithoutChat(chatHistory, chatId);
        if chatId == currentChatId {
          ghost var without := chatHistory;
          StartNewChat(newChatId, greeted);
          if newChatId != chatId {
            UpdateKeepsOthersAbsent(without, messages, newChatId, currentModel, greeted.now, chatId);
          }
        }
      }
    }

    /** `clearAllHistory`: does nothing on an empty index or without
        confirmation; otherwise empties the index and, since no entry is left
        for the open chat, starts a new one, whose greeting gives the index
        its single entry. */
    method ClearAllHistory(confirmed: bool, newChatId: string, greeted: Stamp)
      requires Valid()
      modifies this`currentChatId, this`messages, this`chatHistory
      ensures Valid()
      ensures old(chatHistory) == [] || !confirmed ==>
                currentChatId == old(currentChatId) && messages == old(messages) && chatHistory == old(chatHistory)
      ensures old(chatHistory) != [] && confirmed ==>
                currentChatId == newChatId &&
                messages == [Message(greeted.id, Greeting, false, greeted.timestamp, currentModel)] &&
                chatHistory == [ChatInfoFor(messages, newChatId, currentModel, greeted.now)]
    {
      if |chatHistory| == 0 {
        return;
      }
      if confirmed {
        chatHistory := [];
        if FindChat(chatHistory, currentChatId) == -1 {
          StartNewChat(newChatId, greeted);
        }
      }
    }
  }
}
