/** The chat-history index: one summary entry per chat, newest first, at
    most fifty of them, kept up to date by `updateChatHistory` after every
    message, and the title each entry carries (`generateChatTitle`). */
module History {
  import opened Collections
  import opened Text

  /** One message of a chat; `id` and `timestamp` come from the clock. */
  datatype Message = Message(id: int, content: string, isUser: bool, timestamp: string, model: string)

  /** One entry of the history index. */
  datatype ChatInfo = ChatInfo(id: string, title: string, lastModified: string, messageCount: nat, model: string, preview: string)

  /** Most entries the index keeps. */
  const MaxHistory: nat := 50
  /** Words of the first message a title keeps. */
  const TitleWords: nat := 5
  /** Characters of those words a title keeps before it is cut with "...". */
  const TitleLimit: nat := 30
  /** Characters of the first message kept as the preview. */
  const PreviewLimit: nat := 100

  function Min(a: nat, b: nat): nat { if a <= b then a else b }

  /** `s.substring(0, n)`. */
  function Prefix(s: string, n: nat): (r: string)
    ensures |r| == Min(|s|, n) && StartsWith(s, r)
  {
    if |s| <= n then s else s[..n]
  }

  /** `s.split(' ').slice(0, 5).join(' ')`. */
  function FirstWords(s: string): string {
    var words := Split(s, ' ');
    Join(words[..Min(TitleWords, |words|)], " ")
  }

  /** `generateChatTitle`: the first words of the first message, cut at 30
      characters, or "New Chat" for a chat without messages. */
  function GenerateChatTitle(messages: seq<Message>): (r: string)
    ensures |messages| == 0 ==> r == "New Chat"
    ensures |r| <= TitleLimit + 3
  {
    if |messages| == 0 then "New Chat"
    else
      var words := FirstWords(messages[0].content);
      if |words| > TitleLimit then words[..TitleLimit] + "..." else words
  }

  /** The index of the entry for `chatId` (`findIndex`), or -1. */
  function FindChat(history: seq<ChatInfo>, chatId: string): (r: int)
    ensures -1 <= r < |history|
    ensures r == -1 <==> forall k :: 0 <= k < |history| ==> history[k].id != chatId
    ensures 0 <= r ==> history[r].id == chatId && forall k :: 0 <= k < r ==> history[k].id != chatId
  {
    FindFirst(history, (c: ChatInfo) => c.id == chatId)
  }

  /** No two entries describe the same chat. */
  predicate UniqueIds(history: seq<ChatInfo>) {
    forall i, j :: 0 <= i < j < |history| ==> history[i].id != history[j].id
  }

  /** The entry `updateChatHistory` writes for the current chat. */
  function ChatInfoFor(messages: seq<Message>, chatId: string, model: string, now: string): (r: ChatInfo)
    requires |messages| > 0
    ensures r.id == chatId && r.messageCount == |messages| && r.lastModified == now && r.model == model
    ensures r.title == GenerateChatTitle(messages)
    ensures StartsWith(messages[0].content, r.preview) && |r.preview| == Min(|messages[0].content|, PreviewLimit)
  {
    ChatInfo(chatId, GenerateChatTitle(messages), now, |messages|, model, Prefix(messages[0].content, PreviewLimit))
  }

  /** Replace the entry with the same id where it stands, or put the new one first. */
  function Upsert(history: seq<ChatInfo>, info: ChatInfo): seq<ChatInfo> {
    var k := FindChat(history, info.id);
    if k >= 0 then history[k := info] else [info] + history
  }

  /** Keep the first fifty entries. */
  function Cap(history: seq<ChatInfo>): seq<ChatInfo> {
    if |history| > MaxHistory then history[..MaxHistory] else history
  }

  /** The index after `updateChatHistory`. */
  function UpdatedHistory(history: seq<ChatInfo>, messages: seq<Message>, chatId: string, model: string, now: string): (r: seq<ChatInfo>)
    ensures |messages| == 0 ==> r == history
    ensures |messages| > 0 ==> |r| <= MaxHistory
    ensures |history| <= MaxHistory ==> |r| <= MaxHistory
    ensures |messages| > 0 ==>
              var full := Upsert(history, ChatInfoFor(messages, chatId, model, now));
              |r| == Min(|full|, MaxHistory) && r == full[..|r|]
  {
    if |messages| == 0 then history
    else Cap(Upsert(history, ChatInfoFor(messages, chatId, model, now)))
  }

  /** `deleteChatFromHistory`'s filter: the entries of every other chat. */
  function WithoutChat(history: seq<ChatInfo>, chatId: string): (r: seq<ChatInfo>)
    ensures FindChat(r, chatId) == -1 && |r| <= |history|
    ensures forall k :: 0 <= k < |history| && history[k].id != chatId ==> history[k] in r
    ensures forall k :: 0 <= k < |r| ==> r[k] in history
  {
    Filter(history, (c: ChatInfo) => c.id != chatId)
  }

  // ---------------------------------------------------------------------------
  // properties of the index

  /** A chat already listed gets its entry overwritten in place; nothing else moves. */
  lemma UpdateReplacesExisting(history: seq<ChatInfo>, messages: seq<Message>, chatId: string, model: string, now: string)
    requires |messages| > 0 && |history| <= MaxHistory
    requires FindChat(history, chatId) >= 0
    ensures var r := UpdatedHistory(history, messages, chatId, model, now);
            var k := FindChat(history, chatId);
            |r| == |history| && r[k] == ChatInfoFor(messages, chatId, model, now) &&
            forall j :: 0 <= j < |r| && j != k ==> r[j] == history[j]
  {
  }

  /** A chat not yet listed gets its entry first, before the old entries in
      their old order; a full index loses its last entry. */
  lemma UpdatePrependsNew(history: seq<ChatInfo>, messages: seq<Message>, chatId: string, model: string, now: string)
    requires |messages| > 0
    requires FindChat(history, chatId) == -1
    ensures var r := UpdatedHistory(history, messages, chatId, model, now);
            |r| >= 1 && r[0] == ChatInfoFor(messages, chatId, model, now) &&
            r[1..] == history[..Min(|history|, MaxHistory - 1)]
  {
  }

  /** The first entry for a chat is the one `FindChat` finds. */
  lemma FindChatAt(history: seq<ChatInfo>, chatId: string, k: nat)
    requires k < |history| && history[k].id == chatId
    requires forall j :: 0 <= j < k ==> history[j].id != chatId
    ensures FindChat(history, chatId) == k
  {
  }

  /** After an update of a capped index the current chat's entry is present
      and is the one just written. */
  lemma UpdateRecordsChat(history: seq<ChatInfo>, messages: seq<Message>, chatId: string, model: string, now: string)
    requires |messages| > 0 && |history| <= MaxHistory
    ensures var r := UpdatedHistory(history, messages, chatId, model, now);
            var k := FindChat(r, chatId);
            0 <= k && r[k] == ChatInfoFor(messages, chatId, model, now)
  {
    var r := UpdatedHistory(history, messages, chatId, model, now);
    var k := FindChat(history, chatId);
    if k >= 0 {
      UpdateReplacesExisting(history, messages, chatId, model, now);
      forall j | 0 <= j < k ensures r[j].id != chatId {
        assert r[j] == history[j];
      }
      FindChatAt(r, chatId, k);
    } else {
      UpdatePrependsNew(history, messages, chatId, model, now);
      FindChatAt(r, chatId, 0);
    }
  }

  /** Updating keeps the index free of two entries for one chat. */
  lemma UpdateKeepsIdsUnique(history: seq<ChatInfo>, messages: seq<Message>, chatId: string, model: string, now: string)
    requires UniqueIds(history)
    ensures UniqueIds(UpdatedHistory(history, messages, chatId, model, now))
  {
    if |messages| > 0 {
      var info := ChatInfoFor(messages, chatId, model, now);
      var full := Upsert(history, info);
      var k := FindChat(history, chatId);
      assert UniqueIds(full) by {
        if k >= 0 {
          forall i, j | 0 <= i < j < |full| ensures full[i].id != full[j].id {
            assert full[i].id == history[i].id && full[j].id == history[j].id;
          }
        } else {
          forall i, j | 0 <= i < j < |full| ensures full[i].id != full[j].id {
            if i == 0 {
              assert full[j] == history[j - 1];
            } else {
              assert full[i] == history[i - 1] && full[j] == history[j - 1];
            }
          }
        }
      }
      var r := UpdatedHistory(history, messages, chatId, model, now);
      forall i, j | 0 <= i < j < |r| ensures r[i].id != r[j].id {
        assert r[i] == full[i] && r[j] == full[j];
      }
    }
  }

  /** Deleting a chat that was just added to an index with room undoes the add. */
  lemma {:induction false} DeleteUndoesNewEntry(history: seq<ChatInfo>, messages: seq<Message>, chatId: string, model: string, now: string)
    requires |messages| > 0 && |history| < MaxHistory
    requires FindChat(history, chatId) == -1
    ensures WithoutChat(UpdatedHistory(history, messages, chatId, model, now), chatId) == history
  {
    var info := ChatInfoFor(messages, chatId, model, now);
    var keep := (c: ChatInfo) => c.id != chatId;
    assert UpdatedHistory(history, messages, chatId, model, now) == [info] + history;
    FilterAppend([info], history, keep);
    FilterKeepsAll(history, keep);
    assert Filter([info], keep) == [];
  }

  /** Deleting a listed chat from an index without duplicates takes out
      exactly its entry and leaves the others in their order. */
  lemma {:induction false} DeleteTakesOutOne(history: seq<ChatInfo>, chatId: string)
    requires UniqueIds(history) && FindChat(history, chatId) >= 0
    ensures var k := FindChat(history, chatId);
            WithoutChat(history, chatId) == history[..k] + history[k + 1..]
  {
    var k := FindChat(history, chatId);
    FilterDropsOne(history, (c: ChatInfo) => c.id != chatId, k);
  }

  /** Deleting a chat that is not listed changes nothing. */
  lemma {:induction false} DeleteAbsentIsIdentity(history: seq<ChatInfo>, chatId: string)
    requires FindChat(history, chatId) == -1
    ensures WithoutChat(history, chatId) == history
  {
    FilterKeepsAll(history, (c: ChatInfo) => c.id != chatId);
  }

  /** Deleting keeps the index free of two entries for one chat. */
  lemma {:induction false} DeleteKeepsIdsUnique(history: seq<ChatInfo>, chatId: string)
    requires UniqueIds(history)
    ensures UniqueIds(WithoutChat(history, chatId))
  {
    FilterKeepsIdsUnique(history, (c: ChatInfo) => c.id != chatId);
  }

  lemma {:induction false} FilterKeepsIdsUnique(s: seq<ChatInfo>, p: ChatInfo -> bool)
    requires UniqueIds(s)
    ensures UniqueIds(Filter(s, p))
  {
    if |s| > 0 {
      var rest := s[1..];
      TailIdsUnique(s);
      FilterKeepsIdsUnique(rest, p);
      if p(s[0]) {
        var kept := Filter(rest, p);
        forall k | 0 <= k < |kept| ensures kept[k].id != s[0].id {
          var m :| 0 <= m < |rest| && rest[m] == kept[k];
          assert rest[m] == s[m + 1];
        }
        ConsIdsUnique(s[0], kept);
      }
    }
  }

  lemma TailIdsUnique(s: seq<ChatInfo>)
    requires UniqueIds(s) && |s| > 0
    ensures UniqueIds(s[1..])
  {
    var rest := s[1..];
    forall i, j | 0 <= i < j < |rest| ensures rest[i].id != rest[j].id {
      assert rest[i] == s[i + 1] && rest[j] == s[j + 1];
    }
  }

  lemma ConsIdsUnique(x: ChatInfo, s: seq<ChatInfo>)
    requires UniqueIds(s) && forall k :: 0 <= k < |s| ==> s[k].id != x.id
    ensures UniqueIds([x] + s)
  {
    var r := [x] + s;
    forall i, j | 0 <= i < j < |r| ensures r[i].id != r[j].id {
      if i == 0 {
        assert r[j] == s[j - 1];
      } else {
        assert r[i] == s[i - 1] && r[j] == s[j - 1];
      }
    }
  }

  /** Recording one chat never brings back the entry of another, deleted, chat. */
  lemma UpdateKeepsOthersAbsent(history: seq<ChatInfo>, messages: seq<Message>, chatId: string, model: string, now: string, other: string)
    requires other != chatId && FindChat(history, other) == -1
    ensures FindChat(UpdatedHistory(history, messages, chatId, model, now), other) == -1
  {
    if |messages| > 0 {
      var info := ChatInfoFor(messages, chatId, model, now);
      var full := Upsert(history, info);
      var r := UpdatedHistory(history, messages, chatId, model, now);
      forall k | 0 <= k < |r| ensures r[k].id != other {
        assert r[k] == full[k];
        if FindChat(history, chatId) < 0 && k > 0 {
          assert full[k] == history[k - 1];
        }
      }
    }
  }

  /** The cap drops entries by position, not by age: in a full index, a
      chat reopened from the last place and modified keeps that place, so
      the next new chat pushes out the chat modified most recently while
      the other forty-nine stay. */
  lemma RecentlyModifiedIsEvicted(history: seq<ChatInfo>, reopened: string, m1: seq<Message>, t1: string,
                                  newId: string, m2: seq<Message>, t2: string, model: string)
    requires |history| == MaxHistory && UniqueIds(history)
    requires history[MaxHistory - 1].id == reopened
    requires |m1| > 0 && |m2| > 0 && newId != reopened && FindChat(history, newId) == -1
    ensures var h1 := UpdatedHistory(history, m1, reopened, model, t1);
            var h2 := UpdatedHistory(h1, m2, newId, model, t2);
            h1[MaxHistory - 1].lastModified == t1 &&
            FindChat(h2, reopened) == -1 && h2[1..] == history[..MaxHistory - 1]
  {
    var h1 := UpdatedHistory(history, m1, reopened, model, t1);
    FindChatAt(history, reopened, MaxHistory - 1);
    UpdateReplacesExisting(history, m1, reopened, model, t1);
    assert h1[..MaxHistory - 1] == history[..MaxHistory - 1];
    assert FindChat(h1, newId) == -1 by {
      forall k | 0 <= k < |h1| ensures h1[k].id != newId {
        if k < MaxHistory - 1 {
          assert h1[k] == history[k];
        }
      }
    }
    UpdatePrependsNew(h1, m2, newId, model, t2);
    var h2 := UpdatedHistory(h1, m2, newId, model, t2);
    forall k | 0 <= k < |h2| ensures h2[k].id != reopened {
      if k > 0 {
        assert h2[k] == history[k - 1];
      }
    }
  }

  /** The update the cap calls for: the chat just modified moves to the front,
      so the index is ordered by last modification and the cap drops the
      chat left unmodified longest. */
  function RecencyUpdatedHistory(history: seq<ChatInfo>, messages: seq<Message>, chatId: string, model: string, now: string): (r: seq<ChatInfo>)
    ensures |messages| == 0 ==> r == history
    ensures |messages| > 0 ==> |r| <= MaxHistory && |r| >= 1 && r[0] == ChatInfoFor(messages, chatId, model, now)
    ensures |messages| > 0 ==> FindChat(r[1..], chatId) == -1
  {
    if |messages| == 0 then history
    else Cap([ChatInfoFor(messages, chatId, model, now)] + WithoutChat(history, chatId))
  }

  /** In the same sequence of events the recency-ordered index keeps the
      reopened chat, second after the new one, and drops the chat left
      unmodified longest instead. */
  lemma RecencyKeepsRecentlyModified(history: seq<ChatInfo>, reopened: string, m1: seq<Message>, t1: string,
                                     newId: string, m2: seq<Message>, t2: string, model: string)
    requires |history| == MaxHistory && UniqueIds(history)
    requires history[MaxHistory - 1].id == reopened
    requires |m1| > 0 && |m2| > 0 && newId != reopened && FindChat(history, newId) == -1
    ensures var h1 := RecencyUpdatedHistory(history, m1, reopened, model, t1);
            var h2 := RecencyUpdatedHistory(h1, m2, newId, model, t2);
            h2[1] == ChatInfoFor(m1, reopened, model, t1) &&
            h2[2..] == history[..MaxHistory - 2]
  {
    var info2 := ChatInfoFor(m2, newId, model, t2);
    var h1 := RecencyUpdatedHistory(history, m1, reopened, model, t1);
    RecencyMovesLastToFront(history, reopened, m1, t1, model);
    assert FindChat(h1, newId) == -1 by {
      forall k | 0 <= k < |h1| ensures h1[k].id != newId {
        if k > 0 {
          assert h1[k] == history[k - 1];
        }
      }
    }
    DeleteAbsentIsIdentity(h1, newId);
    var h2 := RecencyUpdatedHistory(h1, m2, newId, model, t2);
    assert h2 == ([info2] + h1)[..MaxHistory];
  }

  lemma RecencyMovesLastToFront(history: seq<ChatInfo>, reopened: string, m1: seq<Message>, t1: string, model: string)
    requires |history| == MaxHistory && UniqueIds(history)
    requires history[MaxHistory - 1].id == reopened && |m1| > 0
    ensures RecencyUpdatedHistory(history, m1, reopened, model, t1) ==
            [ChatInfoFor(m1, reopened, model, t1)] + history[..MaxHistory - 1]
  {
    FindChatAt(history, reopened, MaxHistory - 1);
    DeleteTakesOutOne(history, reopened);
    assert WithoutChat(history, reopened) == history[..MaxHistory - 1];
  }

  // ---------------------------------------------------------------------------
  // properties of the title

  /** The title is a prefix of the first message, or 30 characters of one followed by "...". */
  lemma TitleIsPrefixOfFirstMessage(messages: seq<Message>)
    requires |messages| > 0
    ensures var r := GenerateChatTitle(messages);
            var first := messages[0].content;
            (|r| <= TitleLimit && StartsWith(first, r)) ||
            (|r| == TitleLimit + 3 && StartsWith(first, r[..TitleLimit]) && r[TitleLimit..] == "...")
  {
    var first := messages[0].content;
    var words := Split(first, ' ');
    JoinSplit(first, ' ');
    JoinTakePrefix(words, Min(TitleWords, |words|), " ");
    var w := FirstWords(first);
    assert StartsWith(first, w);
    if |w| > TitleLimit {
      var r := GenerateChatTitle(messages);
      assert r[..TitleLimit] == w[..TitleLimit];
    }
  }

  /** The first five words of a message hold at most four spaces. */
  lemma FirstWordsSpaces(s: string)
    ensures Count(FirstWords(s), ' ') <= TitleWords - 1
  {
    var words := Split(s, ' ');
    var kept := words[..Min(TitleWords, |words|)];
    SplitJoin(kept, ' ');
    SplitLength(Join(kept, " "), ' ');
    assert Join(kept, [' ']) == Join(kept, " ");
  }

  /** "New Chat" holds one space. */
  lemma NewChatSpaces()
    ensures Count("New Chat", ' ') == 1
  {
  }

  /** Cutting a string and appending "..." adds no space. */
  lemma CutKeepsSpaces(w: string)
    requires |w| > TitleLimit
    ensures Count(w[..TitleLimit] + "...", ' ') <= Count(w, ' ')
  {
    CountPrefix(w, TitleLimit, ' ');
    CountAppend(w[..TitleLimit], "...", ' ');
  }

  /** A title holds at most five words: at most four spaces. */
  lemma TitleHasAtMostFiveWords(messages: seq<Message>)
    ensures Count(GenerateChatTitle(messages), ' ') <= TitleWords - 1
  {
    if |messages| == 0 {
      NewChatSpaces();
    } else {
      var w := FirstWords(messages[0].content);
      FirstWordsSpaces(messages[0].content);
      if |w| > TitleLimit {
        CutKeepsSpaces(w);
      }
    }
  }

  /** A first message of more than five words whose first five words take
      at most thirty characters is titled by exactly those words. */
  lemma {:induction false} TitleOfLongMessage(messages: seq<Message>, words: seq<string>, rest: string)
    requires |messages| > 0 && |words| == TitleWords
    requires forall k :: 0 <= k < |words| ==> ' ' !in words[k]
    requires messages[0].content == Join(words, " ") + " " + rest
    requires |Join(words, " ")| <= TitleLimit
    ensures GenerateChatTitle(messages) == Join(words, " ")
  {
    var head := Join(words, " ");
    assert " " == [' '];
    SplitJoin(words, ' ');
    SplitAround(head, rest, ' ');
    assert messages[0].content == head + [' '] + rest;
    var all := Split(messages[0].content, ' ');
    assert all[..TitleWords] == words;
  }

  /** A first message whose first thirty-one characters hold at most four
      spaces is titled by its first thirty characters and "...": its first
      five words run past thirty characters. */
  lemma TitleCutsLongWords(messages: seq<Message>)
    requires |messages| > 0 && |messages[0].content| > TitleLimit
    requires Count(messages[0].content[..TitleLimit + 1], ' ') <= TitleWords - 1
    ensures GenerateChatTitle(messages) == messages[0].content[..TitleLimit] + "..."
  {
    var first := messages[0].content;
    var words := Split(first, ' ');
    var m := Min(TitleWords, |words|);
    var w := FirstWords(first);
    assert " " == [' '];
    JoinSplit(first, ' ');
    if m == |words| {
      assert words[..m] == words;
    } else {
      JoinAt(words, m, " ");
      assert first == w + " " + Join(words[m..], " ");
      assert |w| > TitleLimit by {
        if |w| <= TitleLimit {
          FiveWordsSpaces(words[..m]);
          assert first[..|w| + 1] == w + " ";
          CountAppend(w, " ", ' ');
          assert first[..TitleLimit + 1][..|w| + 1] == first[..|w| + 1];
          CountPrefix(first[..TitleLimit + 1], |w| + 1, ' ');
        }
      }
      assert w[..TitleLimit] == first[..TitleLimit];
    }
  }

  /** Five pieces without spaces, joined by spaces, hold four spaces. */
  lemma FiveWordsSpaces(kept: seq<string>)
    requires |kept| == TitleWords && forall k :: 0 <= k < |kept| ==> ' ' !in kept[k]
    ensures Count(Join(kept, " "), ' ') == TitleWords - 1
  {
    assert " " == [' '];
    SplitJoin(kept, ' ');
    SplitLength(Join(kept, " "), ' ');
  }

  /** A first message of at most five words and thirty characters is its own title. */
  lemma ShortMessageIsOwnTitle(messages: seq<Message>)
    requires |messages| > 0
    requires Count(messages[0].content, ' ') <= TitleWords - 1 && |messages[0].content| <= TitleLimit
    ensures GenerateChatTitle(messages) == messages[0].content
  {
    var first := messages[0].content;
    var words := Split(first, ' ');
    SplitLength(first, ' ');
    JoinSplit(first, ' ');
    assert words[..Min(TitleWords, |words|)] == words;
  }
}
