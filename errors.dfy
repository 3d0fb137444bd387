/** The advice `sendMessage` shows when a completion request fails: the
    error's message text is tested for a few substrings, in a fixed order of
    priority, and one of three sentences follows a common apology. */
module Errors {
  import opened Text

  /** Which advice the error message calls for. */
  datatype ErrorKind = ApiKeyProblem | ModelProblem | OtherProblem

  /** The apology every error reply starts with. */
  const Apology: string := "Sorry, I encountered an error. "
  // The longer sentences are written in parts, so that proofs about their
  // characters look at short literals.
  const ApiKeyAdvice: string := "Please check your API key " + "in config.json."
  const ModelAdvice: string := "The selected model might be " + "unavailable. Try another model."
  const RetryAdvice: string := "Please try again."

  /** The error message points at the API key: it mentions the key or an
      HTTP 401 or 403 status. */
  predicate MentionsApiKey(message: string) {
    Contains(message, "API key") || Contains(message, "401") || Contains(message, "403")
  }

  /** The priority-ordered substring test of `sendMessage`'s catch block. */
  function Classify(message: string): (r: ErrorKind)
    ensures r == ApiKeyProblem <==> MentionsApiKey(message)
    ensures r == ModelProblem <==> !MentionsApiKey(message) && Contains(message, "model")
    ensures r == OtherProblem <==> !MentionsApiKey(message) && !Contains(message, "model")
  {
    if MentionsApiKey(message) then ApiKeyProblem
    else if Contains(message, "model") then ModelProblem
    else OtherProblem
  }

  function Advice(kind: ErrorKind): string {
    match kind
    case ApiKeyProblem => ApiKeyAdvice
    case ModelProblem => ModelAdvice
    case OtherProblem => RetryAdvice
  }

  /** The bot message `sendMessage` adds when the request throws `message`. */
  function ErrorReply(message: string): (r: string)
    ensures StartsWith(r, Apology)
    ensures MentionsApiKey(message) ==> r == Apology + ApiKeyAdvice
    ensures !MentionsApiKey(message) && Contains(message, "model") ==> r == Apology + ModelAdvice
    ensures !MentionsApiKey(message) && !Contains(message, "model") ==> r == Apology + RetryAdvice
  {
    var r := Apology + Advice(Classify(message));
    assert r[..|Apology|] == Apology;
    r
  }

  // ---------------------------------------------------------------------------
  // properties

  /** Two failures get the same reply exactly when they are of the same kind,
      so the reply tells the user which of the three cases occurred. */
  lemma ReplyIdentifiesKind(m1: string, m2: string)
    ensures ErrorReply(m1) == ErrorReply(m2) <==> Classify(m1) == Classify(m2)
  {
    var a1, a2 := Advice(Classify(m1)), Advice(Classify(m2));
    if ErrorReply(m1) == ErrorReply(m2) {
      assert (Apology + a1)[|Apology|..] == a1;
      assert (Apology + a2)[|Apology|..] == a2;
    }
  }

  /** The reply to any error is one line: no newline in the apology or in
      any advice. */
  lemma ErrorReplyIsOneLine(message: string)
    ensures '\n' !in ErrorReply(message) && ErrorReply(message)[0] == 'S'
  {
    ApologyIsOneLine();
    AdviceIsOneLine(Classify(message));
    assert ErrorReply(message) == Apology + Advice(Classify(message));
  }

  lemma ApologyIsOneLine()
    ensures '\n' !in Apology && Apology[0] == 'S'
  {
  }

  lemma AdviceIsOneLine(kind: ErrorKind)
    ensures '\n' !in Advice(kind)
  {
    match kind
    case ApiKeyProblem => KeyAdviceIsOneLine();
    case ModelProblem => ModelAdviceIsOneLine();
    case OtherProblem => assert '\n' !in RetryAdvice;
  }

  lemma KeyAdviceIsOneLine()
    ensures '\n' !in ApiKeyAdvice
  {
    assert '\n' !in "Please check your API key " && '\n' !in "in config.json.";
  }

  lemma ModelAdviceIsOneLine()
    ensures '\n' !in ModelAdvice
  {
    assert '\n' !in "The selected model might be " && '\n' !in "unavailable. Try another model.";
  }

  /** A string in which some character of `t` never appears does not contain `t`. */
  lemma AbsentCharNotContained(s: string, t: string, i: nat)
    requires i < |t| && t[i] !in s
    ensures !Contains(s, t)
  {
  }

  /** `s` contains `t` when `t` occurs at index `i`. */
  lemma ContainedAt(s: string, t: string, i: nat)
    requires OccursAt(s, t, i)
    ensures Contains(s, t)
  {
  }

  /** A request rejected with status 401 and no error body throws
      "API error: 401", which is reported as a key problem. */
  lemma UnauthorizedStatusIsKeyProblem()
    ensures Classify("API error: 401") == ApiKeyProblem
  {
    var s := "API error: 401";
    assert s[11..14] == "401";
    ContainedAt(s, "401", 11);
  }

  /** A request that fails with status 500 and no error body throws
      "API error: 500", which gets the plain retry advice. */
  lemma ServerErrorStatusAsksToRetry()
    ensures Classify("API error: 500") == OtherProblem
  {
    var s := "API error: 500";
    assert 'k' !in s && '4' !in s && 'm' !in s;
    AbsentCharNotContained(s, "API key", 4);
    AbsentCharNotContained(s, "401", 0);
    AbsentCharNotContained(s, "403", 0);
    AbsentCharNotContained(s, "model", 0);
  }

  /** Extra text around a message never lowers its priority: a key problem
      stays a key problem, and a model problem becomes at worst a key problem. */
  lemma WrappingKeepsPriority(before: string, message: string, after: string)
    ensures Classify(message) == ApiKeyProblem ==> Classify(before + message + after) == ApiKeyProblem
    ensures Classify(message) == ModelProblem ==> Classify(before + message + after) != OtherProblem
  {
    if Contains(message, "API key") { ContainedInContext(before, message, after, "API key"); }
    if Contains(message, "401") { ContainedInContext(before, message, after, "401"); }
    if Contains(message, "403") { ContainedInContext(before, message, after, "403"); }
    if Contains(message, "model") { ContainedInContext(before, message, after, "model"); }
  }

  /** What `message` contains, any text around it contains too. */
  lemma ContainedInContext(before: string, message: string, after: string, t: string)
    requires Contains(message, t)
    ensures Contains(before + message + after, t)
  {
    var w := before + message + after;
    var i: nat :| OccursAt(message, t, i);
    assert w[|before| + i..|before| + i + |t|] == message[i..i + |t|];
    assert OccursAt(w, t, |before| + i);
  }
}
