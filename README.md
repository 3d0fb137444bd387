# BuddyAI chat client — verified model of its state logic

BuddyAI is a browser chat client for coding questions. One class,
`BuddyAI` in `chatbot.js`, holds the application state. Most of that class
is DOM and network glue. This project models the part that is plain logic
over strings and lists, and proves what that logic promises:

- **History index.** One summary entry per chat, capped at 50 entries. A
  chat enters the index at the front; later updates rewrite its entry in
  place, so the index is ordered by when each chat entered it. `updateChatHistory` keeps it up to date after every message.
  `deleteChatFromHistory` and `clearAllHistory` change it. `generateChatTitle`
  gives each entry its title.
- **Custom-model list.** `addCustomModel` validates and appends a model id,
  `removeSavedModel` removes one, and `loadConfig` merges in the models
  listed in `config.json`. `switchModel` and `getModelName` handle the
  current model.
- **Message formatter.** `formatMessageContent` scans a message line by
  line, outside and inside ``` fences. `escapeHtml` escapes the text, and
  the copy button's `decodeHtmlEntities` undoes the escaping for its four
  entities. The copy data is the code passed through `btoa`, which throws
  on a character above U+00FF. The exception ends the formatting, and the
  model follows it through `addMessage` and `sendMessage`.
- **Error advice.** `sendMessage` picks one of three advice sentences from
  the text of a failed request's error.

Modules:

| module | file | content |
|---|---|---|
| `Wrappers`, `Collections` | `collections.dfy` | `Option`; `findIndex` and `filter` over sequences |
| `Text` | `text.dfy` | The JavaScript string built-ins the client uses, written out over `seq<char>`: `includes`, `startsWith`, `split`, `join` and `trim`. `trim` uses ECMAScript white space. Also `escapeHtml` and its inverse. |
| `Models` | `models.dfy` | The preset catalogue, display names, validation of a new custom model, removal, and the config merge. All are functions, with lemmas. |
| `History` | `history.dfy` | Chat titles and the history index. All are functions, with lemmas. |
| `Formatter` | `formatter.dfy` | The formatter loop as a method, proved equal to a step-by-step specification, plus lemmas about fences, line breaks and when the loop throws. |
| `Errors` | `errors.dfy` | The error classification and the reply built from it. |
| `Buddy` | `buddy.dfy` | Class `BuddyAI`: the fields the handlers update and one method per handler. Each method's new state is stated through the functions above. |

### Parameters and consequences

The model takes as parameters the things the browser supplies:

- the clock (`Stamp`);
- the random chat ids;
- the user's answer to a confirmation dialog;
- the completion service's reply (`Reply`);
- the message of the exception `btoa` throws, which differs between
  browsers (`renderError`);
- the parsed `config.json`.

The inline markup rewriting of text lines (inline code, bold, italic)
uses regular expressions. It is the parameter `markup` of the formatter,
and a constant of the `BuddyAI` object.

Two consequences of the code are proved:

- **Clearing never leaves the index empty.** `clearAllHistory` empties the
  index. It then tests whether the open chat is missing from the now-empty
  index, which always holds, so it always starts a new chat. The new chat's
  greeting is added through `addMessage`, which records it. The index
  therefore always ends with exactly one entry
  (`Buddy.BuddyAI.ClearAllHistory`).
- **Every new chat has the same title.** Every chat started by
  `startNewChat` opens with the bot's greeting, and the title is built from
  the first message. So all such chats are titled "I'm ready to help with",
  whatever the user asks next (`Buddy.GreetedChatTitle`).
- **A message whose code block cannot be encoded is kept but not indexed.**
  `addMessage` pushes the message before rendering it. When rendering
  throws, the history index is not updated (`Buddy.BuddyAI.AddMessage`).
  For a question, the exception leaves `sendMessage` before the request is
  made. For an answer, the `catch` of `sendMessage` adds the advice for the
  exception after it (`Buddy.BuddyAI.SendMessage`, `Buddy.ReplyMessages`).
  The message "```", "→", "```" is such a message
  (`Formatter.ArrowBlockThrows`).
- **A block's language is not escaped.** The code of a block is escaped,
  but its language is inserted into the HTML as written, so a fence such
  as "```<b>" puts markup into the page (`Formatter.LanguageKeepsMarkup`).

## Model

| member | source | states |
|---|---|---|
| Collections.FindFirst | chatbot.js:853 | `findIndex`: -1 exactly when no element satisfies the test; otherwise the first index whose element does |
| Collections.Filter | chatbot.js:432 | `filter`: keeps exactly the elements that pass, each taken from the input, and is never longer |
| Collections.FilterAppend | chatbot.js:125 | filtering distributes over concatenation, so the kept elements keep their order |
| Collections.FilterNoDups | chatbot.js:432 | filtering a duplicate-free list keeps it duplicate-free |
| Text.Contains | chatbot.js:379 | `includes`: true exactly when the text occurs at some position |
| Text.JoinSplit | chatbot.js:502 | joining the pieces of `split` with the separator gives the original string back |
| Text.SplitJoin | chatbot.js:881 | splitting a join of separator-free pieces gives the pieces back |
| Text.SplitLength | chatbot.js:881 | `split` yields one more piece than there are separators |
| Text.SplitAround | chatbot.js:502 | splitting at one separator splits the two sides independently |
| Text.LastPieceIsSuffix | chatbot.js:442 | `split('/').pop()` is the suffix after the last separator and holds no separator |
| Text.SpaceCodePoints | chatbot.js:375 | the characters `trim` removes are exactly the ECMAScript white-space and line-terminator code points |
| Text.Trim | chatbot.js:375 | `trim` gives the empty string exactly when every character is white space; otherwise the result neither starts nor ends with white space |
| Text.TrimIsInfix | chatbot.js:682 | the trimmed text occurs in the input with only white space before and after it |
| Text.TrimmedIsFixed | chatbot.js:515 | a string without white space at either end is its own trim |
| Text.EscapeHtml | chatbot.js:560-564 | the escaped text holds no `<` and no `>` and is at least as long as the input |
| Text.DecodeEscape | chatbot.js:605-609 | decoding the four entities undoes `escapeHtml` for every string; the browser's further normalisation when it parses the textarea is left out (see below) |
| Text.EscapeKeepsLatin1 | chatbot.js:520-529 | escaping neither adds nor removes a character above U+00FF, so `btoa` rejects the escaped code exactly when it rejects the code |
| Models.FindPreset | chatbot.js:441 | the preset lookup finds an entry exactly when some preset has the id, and that entry carries the id |
| Models.PresetIdsDistinct | chatbot.js:45-81 | the five preset ids are pairwise different |
| Models.LastSegment | chatbot.js:442 | the display fallback is the suffix after the last `/` and holds no `/` |
| Models.ModelName | chatbot.js:440-443 | `getModelName`: a preset's own name for a preset id; otherwise the last `/` segment |
| Models.CheckCustomModel | chatbot.js:374-391 | blank input is ignored; input without `/` is rejected; a preset or saved id is a duplicate; otherwise the trimmed id is accepted. Each case holds exactly under its condition. |
| Models.AddedModels | chatbot.js:390 | the list gains the trimmed id at its end exactly when it is accepted; otherwise it is unchanged |
| Models.AddKeepsNoDups | chatbot.js:385-390 | adding never creates a duplicate |
| Models.AddTwiceIsRejected | chatbot.js:385-388 | adding the same input again reports "already exists" |
| Models.WithoutModel | chatbot.js:432 | removal drops the id and keeps every other saved model, adding none |
| Models.RemoveUndoesAdd | chatbot.js:431-432 | removing the id just added restores the previous list |
| Models.RemoveKeepsNoDups | chatbot.js:432 | removal keeps the list duplicate-free |
| Models.RemoveAbsentIsIdentity | chatbot.js:432 | removing an id that is not saved changes nothing |
| Models.RemoveTakesOutOne | chatbot.js:432 | in a duplicate-free list, removal takes out exactly the entry at the id's index and keeps the others in order |
| Models.MergeConfigModels | chatbot.js:124-126 | the old list is a prefix of the merged one, and every appended model comes from the config and was not in the old list |
| Models.MergeContainsConfig | chatbot.js:124-126 | after the merge every configured model is present |
| Models.MergeAppendsInConfigOrder | chatbot.js:125 | appended models keep the config's order |
| Models.MergeIsIdempotent | chatbot.js:124-126 | merging the same config again adds nothing |
| Models.MergeKeepsNoDups | chatbot.js:124-126 | a duplicate-free list merged with a duplicate-free config stays duplicate-free |
| Models.MergeKeepsConfigDuplicates | chatbot.js:125 | the merge checks only the old list, so a model listed twice in the config is appended twice |
| History.Prefix | chatbot.js:861 | `substring(0, n)` is a prefix of length min(length, n) |
| History.GenerateChatTitle | chatbot.js:878-883 | "New Chat" without messages; never longer than 33 characters |
| History.TitleCutsLongWords | chatbot.js:881-882 | a first message longer than 30 characters whose first 31 characters hold at most four spaces is titled by its first 30 characters and "..." |
| History.TitleIsPrefixOfFirstMessage | chatbot.js:880-882 | the title is a prefix of the first message of at most 30 characters, or such a 30-character prefix followed by "..." |
| History.TitleHasAtMostFiveWords | chatbot.js:881 | a title holds at most four spaces, so at most five words |
| History.ShortMessageIsOwnTitle | chatbot.js:881-882 | a first message of at most five words and 30 characters is its own title |
| History.TitleOfLongMessage | chatbot.js:881-882 | a first message whose first five words fit in 30 characters is titled by exactly those words |
| History.FindChat | chatbot.js:853 | the index of the first entry for the chat, or -1 exactly when there is none |
| History.ChatInfoFor | chatbot.js:855-862 | the entry carries the chat id, the generated title, the time, the message count and the model; its preview is the prefix of the first message of length min(length, 100) |
| History.UpdatedHistory | chatbot.js:850-876 | no messages: unchanged; otherwise the first min(n, 50) entries of the upserted list, so never more than 50 |
| History.UpdateReplacesExisting | chatbot.js:864-865 | an entry for the chat is overwritten at the same index; length and all other entries are unchanged |
| History.UpdatePrependsNew | chatbot.js:866-872 | a new chat's entry comes first, followed by the old entries in order, the last one dropped when the index was full |
| History.UpdateRecordsChat | chatbot.js:853-868 | after an update the chat's first entry is the one just written |
| History.UpdateKeepsIdsUnique | chatbot.js:853-872 | updating keeps one entry per chat |
| History.UpdateKeepsOthersAbsent | chatbot.js:853-872 | recording one chat never brings back another chat's entry |
| History.WithoutChat | chatbot.js:951 | deletion leaves no entry for the chat, keeps every other entry and adds none |
| History.DeleteKeepsIdsUnique | chatbot.js:951 | deletion keeps one entry per chat |
| History.DeleteUndoesNewEntry | chatbot.js:951 | deleting a chat just added to an index with room restores the index |
| History.DeleteTakesOutOne | chatbot.js:951 | in an index with one entry per chat, deletion takes out exactly the chat's entry and keeps the others in order |
| History.DeleteAbsentIsIdentity | chatbot.js:951 | deleting a chat that has no entry changes nothing |
| History.RecentlyModifiedIsEvicted | chatbot.js:864-872 | in a full index, a chat reopened from the last place and modified keeps that place, and the next new chat evicts it while the other 49 stay |
| History.RecencyUpdatedHistory | chatbot.js:864-872 | the corrected update: the chat just modified comes first, no other entry for it follows, and the index stays capped |
| History.RecencyKeepsRecentlyModified | chatbot.js:864-872 | with the corrected update, the same events keep the reopened chat second and drop the chat left unmodified longest |
| Formatter.FormatMessageContent | chatbot.js:500-558 | the loop throws exactly when some closing fence ends a block whose escaped code has a character above U+00FF; otherwise it returns exactly the specified scan of the message's lines |
| Formatter.PlainMessage | chatbot.js:541-553 | without fences every line becomes one escaped, marked-up text piece, with a break after all but the last |
| Formatter.StepOpensBlock | chatbot.js:511-516 | outside a block a fence opens one, with the fence's language and no code |
| Formatter.StepClosesBlock | chatbot.js:517-537 | inside a block a fence closes it and emits the language and the escaped code, when the line does not throw |
| Formatter.ClosingThrows | chatbot.js:517-529 | a closing fence throws exactly when the code it closes has a character above U+00FF |
| Formatter.BlockMessageThrows | chatbot.js:500-540 | a message that is exactly one fenced block throws exactly when its code has a character above U+00FF |
| Formatter.ArrowBlockThrows | chatbot.js:529 | the message "```", "→", "```" throws |
| Formatter.FencelessNeverThrows | chatbot.js:511-529 | a message without a fence line never throws |
| Formatter.LanguageKeepsMarkup | chatbot.js:515-535 | the language of a block fenced as "```<b>" is the markup "<b>", which the template inserts unescaped |
| Formatter.OpenedBlock | chatbot.js:539-540 | after an opening fence, each line inside contributes itself and a newline to the code |
| Formatter.FencedBlock | chatbot.js:511-540 | an opening fence, fence-free lines and a closing fence emit one block: the fence's language and the escaped lines |
| Formatter.UnclosedBlockEmitsNothing | chatbot.js:511-540 | a block with no closing fence emits nothing |
| Formatter.FenceLanguageIsTag | chatbot.js:515 | a block's language is non-empty with no white space at either end: the trimmed text after the fence, or "plaintext" |
| Formatter.LastLineOnlyUnbroken | chatbot.js:553 | "<br>" follows every text line except the last; the last piece lacks it exactly when the last line is text outside a block |
| Formatter.SingleFencedBlock | chatbot.js:500-540 | a message that is exactly one fenced block formats to a single code piece |
| Formatter.PythonBlockIsTaggedAndEscaped | chatbot.js:511-537 | a block fenced as "```python" is tagged "python", and its code holds no `<` or `>` |
| Errors.Classify | chatbot.js:733-741 | the API-key advice exactly when the error mentions "API key", "401" or "403"; otherwise the model advice exactly when it mentions "model"; otherwise the retry advice |
| Errors.ErrorReply | chatbot.js:732-741 | every reply starts with the apology, followed by the advice its classification selects |
| Errors.ErrorReplyIsOneLine | chatbot.js:732-741 | every error reply is one line starting with "S" |
| Errors.ReplyIdentifiesKind | chatbot.js:732-741 | two errors get the same reply exactly when they are classified the same |
| Errors.UnauthorizedStatusIsKeyProblem | chatbot.js:787 | a 401 response without an error body ("API error: 401") gets the API-key advice |
| Errors.ServerErrorStatusAsksToRetry | chatbot.js:787 | a 500 response without an error body ("API error: 500") gets the retry advice |
| Errors.WrappingKeepsPriority | chatbot.js:734-737 | text around an error message never lowers its priority |
| Buddy.TokenEstimate | chatbot.js:724 | `Math.ceil(length / 4)`: the least n with 4n at least the answer's length; a failure counts nothing |
| Buddy.GreetedChatTitle | chatbot.js:878-883 | a chat opening with the greeting that `startNewChat` adds is titled "I'm ready to help with" |
| Buddy.ReplyMessages | chatbot.js:719-743 | the bot messages a reply adds: the reply's text first; the advice for the rendering exception second, exactly when the reply is an answer whose rendering throws |
| Buddy.ErrorReplyRenders | chatbot.js:743 | the advice for any error renders without throwing |
| Buddy.GreetingRenders | chatbot.js:1029 | the greeting renders without throwing |
| Buddy.BuddyAI.constructor | chatbot.js:33-44 | the initial state: no key, the default model, no messages, zero counters, no custom models, an empty index; the markup rewriting is the one given |
| Buddy.BuddyAI.LoadConfig | chatbot.js:117-126 | a non-blank key is taken; listed models are merged as `MergeConfigModels` specifies |
| Buddy.BuddyAI.SwitchModel | chatbot.js:360-371 | the model is set, the switch counter goes up by one, and the notice names the model |
| Buddy.BuddyAI.AddCustomModel | chatbot.js:374-403 | the outcome is `CheckCustomModel`'s, the list becomes `AddedModels`', and no duplicate appears |
| Buddy.BuddyAI.RemoveSavedModel | chatbot.js:431-438 | the list becomes `WithoutModel`'s, the id is gone, and no duplicate appears |
| Buddy.BuddyAI.UpdateChatHistory | chatbot.js:850-876 | the index becomes `UpdatedHistory`'s, stays capped and keeps one entry per chat |
| Buddy.BuddyAI.AddMessage | chatbot.js:445-465 | the message is appended with the current model; the index is updated exactly when rendering the message does not throw |
| Buddy.BuddyAI.SendMessage | chatbot.js:675-749 | Nothing changes without a key or with blank input. A question whose rendering throws is appended and nothing else happens. Otherwise the question and the reply's messages are appended, the answer's tokens are counted, and the index is updated after the question and after the reply. |
| Buddy.BuddyAI.RecordReply | chatbot.js:719-744 | an answer is counted and appended, followed by the advice for the exception when its rendering throws; a failure appends its advice; the index is updated when the last message is added |
| Buddy.BuddyAI.StartNewChat | chatbot.js:1022-1032 | the new chat has the new id and only the greeting, and the index records it |
| Buddy.BuddyAI.DeleteChatFromHistory | chatbot.js:947-965 | Unconfirmed: nothing changes. Confirmed: the chat's entry is removed, and if it was the open chat a new chat starts. |
| Buddy.BuddyAI.ClearAllHistory | chatbot.js:967-990 | Nothing changes on an empty index or without confirmation. Otherwise the index ends as the single entry of a new chat holding only the greeting. |

## Left out

- **Not modelled:**
  - the DOM;
  - rendering of messages, the history list, dropdowns and saved-model tags;
  - sidebars, notifications other than the model-switch notice, the typing indicator, the theme and auto-resize.

  None of these carries logic beyond building HTML.
- **Storage and I/O, not modelled:**
  - `localStorage` (`saveState`, `loadState`, `saveChatHistory`, `saveCurrentChat`, `loadChat`);
  - export to a file;
  - the `fetch` of `config.json` and of the completion endpoint.

  What these calls deliver is a parameter: the parsed configuration and the `Reply`.
- **URL fetching, not modelled:** `sendMessage` fetches a linked page through a proxy and builds a longer prompt from it, but `getAIResponse` never reads its argument: it sends the recorded messages. The fetched text therefore reaches neither the service nor the state, and only its notifications and typing indicator are lost here.
- **Formatter, code-block HTML:** the template around a code block (header, upper-cased language name, `hljs` highlighting) is not modelled. A block is the pair of its language and escaped code. Of the `btoa` copy data only its failure is modelled.
- **Formatter.FormatMessageContent:** when it throws, the partly built HTML is discarded with the exception, so `result` is left unstated.
- **Formatter, inline markup:** the regex rewriting of inline code, bold and italic is the opaque parameter `markup`.
- **Text.EscapeHtml:** covers what the HTML serialiser escapes in a text node, namely `&`, `<`, `>` and the no-break space.
- **Text.DecodeEntities:** decodes only the four entities that escaping produces. The browser decodes every named and numeric entity. Parsing the textarea also turns CR and CRLF into LF and NUL into U+FFFD, so the copied text differs from the code in those characters. Blocks with a character above U+00FF get no copy button at all, because formatting throws.
- **String lengths:** they are counted in characters, whereas JavaScript counts UTF-16 code units. This affects the 30- and 100-character cuts and the token estimate only for characters outside the Basic Multilingual Plane.
- **Buddy.BuddyAI.LoadConfig:** does not model a `customModels` field that is an array of non-strings, or an API key that is not a string.
- **The display sort in `renderChatHistory`:** not modelled. It orders a copy for display and never changes the index.
- **Nondeterministic values:** `generateChatId`, `Date.now()` and `new Date()` are not modelled. Their values are parameters.
- **Buddy.BuddyAI.DeleteChatFromHistory:** the storage exceptions its `try` catches cannot occur in the model.
- **Buddy.BuddyAI.ClearAllHistory:** the storage exceptions its `try` catches cannot occur in the model.
- **Buddy.BuddyAI.SendMessage:** runs as one step. In the browser it awaits the URL fetch and the completion request, and the other handlers stay live meanwhile: starting a new chat, clearing or deleting history, or switching model then changes which chat and model the reply is recorded with. After a question whose rendering throws, the input stays disabled; the DOM is not modelled.
- **Buddy.BuddyAI.RecordReply:** opening the settings sidebar for a key problem and the error notification are DOM effects and are not modelled.
- **Not modelled:** `tokenCount` persistence, `clearCurrentChat` and `useSavedModel`, which only calls `switchModel`.

## Findings

| source | as written | input that shows it | evidently intended | confidence | as-written member | corrected member |
|---|---|---|---|---|---|---|
| chatbot.js:864-872 | an update overwrites a listed chat's entry in place, and the cap drops the entries at the end of the list | a full index; the chat in the last place is reopened and sent a message; then a new chat is started | the cap keeps the 50 most recently modified chats, the order the history list is displayed in (chatbot.js:823) | medium, not executed | History.RecentlyModifiedIsEvicted | History.RecencyKeepsRecentlyModified |

The corrected update, `History.RecencyUpdatedHistory`, moves the chat just
modified to the front. `Buddy.BuddyAI.UpdateChatHistory` keeps the code's
behaviour, because the class models the code as written.
