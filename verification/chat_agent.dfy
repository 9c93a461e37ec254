/** The basic chat agent's conversation state
    (`use-cases/pydantic-ai/examples/basic_chat_agent/agent.py`): the dynamic part of the
    system prompt, assembled from the context, and the turn counter each chat call raises
    before the agent runs.

    The agent run itself is the parameter `run`, which sees the message and the context
    as it stands during the call. `chat_with_agent` and `chat_with_agent_sync` differ
    only in how they wait for that run, so one function models both. */
module ChatAgent {
  import opened Wrappers
  import opened Text

  datatype ConversationContext = ConversationContext(
    userName: Option<string>,
    conversationCount: int,
    preferredLanguage: string,
    sessionId: Option<string>)

  /** `ConversationContext()` with every field at its default. */
  const FreshContext: ConversationContext := ConversationContext(None, 0, "English", None)

  const DefaultLanguage: string := "English"

  /** A name is mentioned when it is set and not empty. */
  predicate HasName(ctx: ConversationContext) {
    ctx.userName.Some? && ctx.userName.value != ""
  }

  function NameSentence(name: string): string {
    "用户的名字是 " + name + "。"
  }

  /** The sentence naming the position of the current message: one past the count. */
  function CountSentence(count: int): string {
    "这是你们对话中的第 #" + IntToString(count + 1) + " 条消息。"
  }

  function LanguageSentence(language: string): string {
    "用户偏好使用 " + language + " 进行交流。"
  }

  /** The sentences that apply, in the order name, count, language. */
  function PromptParts(ctx: ConversationContext): (parts: seq<string>)
    ensures |parts| <= 3
    ensures forall k :: 0 <= k < |parts| ==> |parts[k]| > 0
  {
    (if HasName(ctx) then [NameSentence(ctx.userName.value)] else [])
    + (if ctx.conversationCount > 0 then [CountSentence(ctx.conversationCount)] else [])
    + (if ctx.preferredLanguage != DefaultLanguage then [LanguageSentence(ctx.preferredLanguage)] else [])
  }

  lemma JoinOfNonEmpty(parts: seq<string>, sep: string)
    requires |parts| > 0 && |parts[0]| > 0
    ensures |Join(parts, sep)| > 0
  {
  }

  lemma {:induction false} JoinStartsWithFirst(parts: seq<string>, sep: string)
    requires |parts| > 0
    ensures StartsWith(Join(parts, sep), parts[0])
  {
    var j := Join(parts, sep);
    if |parts| > 1 {
      assert j == parts[0] + (sep + Join(parts[1..], sep));
    }
  }

  lemma {:induction false} JoinEndsWithLast(parts: seq<string>, sep: string)
    requires |parts| > 0
    ensures EndsWith(Join(parts, sep), parts[|parts| - 1])
    decreases |parts|
  {
    if |parts| > 1 {
      JoinEndsWithLast(parts[1..], sep);
      var tail := Join(parts[1..], sep);
      var j := parts[0] + sep + tail;
      assert j[|j| - |tail|..] == tail;
      assert j[|j| - |parts[|parts| - 1]|..] == tail[|tail| - |parts[|parts| - 1]|..];
    }
  }

  /** `dynamic_context_prompt`: the applicable sentences joined by single spaces. */
  function DynamicContextPrompt(ctx: ConversationContext): (prompt: string)
    // nothing is added for an anonymous first message in English
    ensures prompt == "" <==> !HasName(ctx) && ctx.conversationCount <= 0 && ctx.preferredLanguage == DefaultLanguage
    ensures HasName(ctx) ==> StartsWith(prompt, NameSentence(ctx.userName.value))
    ensures !HasName(ctx) && ctx.conversationCount > 0 ==> StartsWith(prompt, CountSentence(ctx.conversationCount))
    ensures !HasName(ctx) && ctx.conversationCount <= 0 && ctx.preferredLanguage != DefaultLanguage ==>
              prompt == LanguageSentence(ctx.preferredLanguage)
    ensures ctx.preferredLanguage != DefaultLanguage ==> EndsWith(prompt, LanguageSentence(ctx.preferredLanguage))
    ensures ctx.preferredLanguage == DefaultLanguage && ctx.conversationCount > 0 ==>
              EndsWith(prompt, CountSentence(ctx.conversationCount))
    ensures HasName(ctx) && ctx.conversationCount <= 0 && ctx.preferredLanguage == DefaultLanguage ==>
              prompt == NameSentence(ctx.userName.value)
    // the exact text whenever the count sentence or two sentences are present:
    // the sentences in the order name, count, language, with one space between neighbours
    ensures !HasName(ctx) && ctx.conversationCount > 0 && ctx.preferredLanguage == DefaultLanguage ==>
              prompt == CountSentence(ctx.conversationCount)
    ensures HasName(ctx) && ctx.conversationCount > 0 && ctx.preferredLanguage == DefaultLanguage ==>
              prompt == NameSentence(ctx.userName.value) + " " + CountSentence(ctx.conversationCount)
    ensures HasName(ctx) && ctx.conversationCount <= 0 && ctx.preferredLanguage != DefaultLanguage ==>
              prompt == NameSentence(ctx.userName.value) + " " + LanguageSentence(ctx.preferredLanguage)
    ensures !HasName(ctx) && ctx.conversationCount > 0 && ctx.preferredLanguage != DefaultLanguage ==>
              prompt == CountSentence(ctx.conversationCount) + " " + LanguageSentence(ctx.preferredLanguage)
    ensures HasName(ctx) && ctx.conversationCount > 0 && ctx.preferredLanguage != DefaultLanguage ==>
              prompt == NameSentence(ctx.userName.value) + " " + CountSentence(ctx.conversationCount)
                        + " " + LanguageSentence(ctx.preferredLanguage)
  {
    var parts := PromptParts(ctx);
    if |parts| == 0 then ""
    else
      JoinOfNonEmpty(parts, " ");
      JoinStartsWithFirst(parts, " ");
      JoinEndsWithLast(parts, " ");
      JoinSmall(parts, " ");
      Join(parts, " ")
  }

  /** Two or three parts are joined with the separator between neighbours. */
  lemma JoinSmall(parts: seq<string>, sep: string)
    ensures |parts| == 2 ==> Join(parts, sep) == parts[0] + sep + parts[1]
    ensures |parts| == 3 ==> Join(parts, sep) == parts[0] + sep + parts[1] + sep + parts[2]
  {
    if |parts| == 2 {
      assert parts[1..] == [parts[1]];
    } else if |parts| == 3 {
      assert parts[1..] == [parts[1], parts[2]] && parts[1..][1..] == [parts[2]];
    }
  }

  /** One call of `chat_with_agent` (or its synchronous twin): a missing context starts
      afresh, the count goes up by one, and the agent runs with the updated context. A
      context the caller passes is updated in place, so the new context is returned too;
      one made for a missing context lives only for the call. */
  function ChatTurn(message: string, context: Option<ConversationContext>,
                    run: (string, ConversationContext) -> string): (r: (string, ConversationContext))
    ensures context.None? ==> r.1 == FreshContext.(conversationCount := 1)
    ensures context.Some? ==> r.1 == context.value.(conversationCount := context.value.conversationCount + 1)
    ensures r.0 == run(message, r.1)
  {
    var ctx := context.GetOr(FreshContext);
    var updated := ctx.(conversationCount := ctx.conversationCount + 1);
    (run(message, updated), updated)
  }

  /** A conversation as the demo holds it: the caller creates one context and passes it to
      every call, so each call sees the count its predecessors left. */
  function Converse(context: ConversationContext, messages: seq<string>,
                    run: (string, ConversationContext) -> string): (r: (seq<string>, ConversationContext))
    ensures |r.0| == |messages|
    decreases |messages|
  {
    if |messages| == 0 then ([], context)
    else
      var (reply, ctx) := ChatTurn(messages[0], Some(context), run);
      var (replies, last) := Converse(ctx, messages[1..], run);
      ([reply] + replies, last)
  }

  /** After `n` messages the shared count has gone up by exactly `n` and nothing else in
      the context has changed. */
  lemma {:induction false} ConverseCounts(context: ConversationContext, messages: seq<string>,
                                          run: (string, ConversationContext) -> string)
    ensures Converse(context, messages, run).1
            == context.(conversationCount := context.conversationCount + |messages|)
    decreases |messages|
  {
    if |messages| > 0 {
      var (reply, ctx) := ChatTurn(messages[0], Some(context), run);
      ConverseCounts(ctx, messages[1..], run);
    }
  }

  /** The agent answers message `i` (counting from zero) with the shared count raised
      `i + 1` times. */
  lemma {:induction false} ConverseReplies(context: ConversationContext, messages: seq<string>,
                                           run: (string, ConversationContext) -> string)
    ensures forall i :: 0 <= i < |messages| ==>
              Converse(context, messages, run).0[i]
              == run(messages[i], context.(conversationCount := context.conversationCount + i + 1))
    decreases |messages|
  {
    if |messages| > 0 {
      var (reply, ctx) := ChatTurn(messages[0], Some(context), run);
      var rest := Converse(ctx, messages[1..], run).0;
      ConverseReplies(ctx, messages[1..], run);
      forall i | 1 <= i < |messages|
        ensures Converse(context, messages, run).0[i]
                == run(messages[i], context.(conversationCount := context.conversationCount + i + 1))
      {
        assert Converse(context, messages, run).0[i] == rest[i - 1];
        assert messages[1..][i - 1] == messages[i];
      }
    }
  }

  /** Because the count is raised before the agent runs, the prompt of the very first
      message of a fresh conversation already calls it message number two. */
  lemma FirstMessageIsCalledSecond(message: string, run: (string, ConversationContext) -> string)
    ensures DynamicContextPrompt(ChatTurn(message, None, run).1) == CountSentence(1)
    ensures CountSentence(1) == "这是你们对话中的第 #2 条消息。"
  {
    var ctx := ChatTurn(message, None, run).1;
    assert PromptParts(ctx) == [CountSentence(1)];
  }
}
