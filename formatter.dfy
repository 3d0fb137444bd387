/** `formatMessageContent`: a scan over the lines of a message that is
    either outside or inside a ``` fence. Outside, each line is escaped,
    passed through the inline markup rewriting and followed by a line break
    unless it is the message's last line; a fence opens a block and records
    its language; inside, lines are collected; the next fence closes the
    block and emits its escaped code. The inline markup rewriting (inline
    code, bold, italic) is the parameter `markup`. */
module Formatter {
  import opened Text

  /** What the scan appends to its result, in order. */
  datatype Piece =
    | Line(html: string, lineBreak: bool)        // a text line; `lineBreak` adds "<br>"
    | CodeBlock(language: string, code: string)  // a closed block and its escaped code

  /** The loop's variables: `inCodeBlock`, `currentLanguage`, `codeContent`, `result`. */
  datatype ScanState = ScanState(inCodeBlock: bool, currentLanguage: string, codeContent: string, result: seq<Piece>)

  const Fence: string := "```"
  const DefaultLanguage: string := "plaintext"
  const InitialScan: ScanState := ScanState(false, "", "", [])

  /** `line.startsWith('```')`. */
  predicate IsFence(line: string) {
    |line| >= 3 && line[0] == '`' && line[1] == '`' && line[2] == '`'
  }

  /** The language a fence line opens: the trimmed text after the backticks,
      or "plaintext" when there is none. */
  function FenceLanguage(line: string): string
    requires IsFence(line)
  {
    var tag := Trim(line[|Fence|..]);
    if tag == "" then DefaultLanguage else tag
  }

  /** The code collected from `lines[lo..hi]`: each line and a newline. */
  function CodeText(lines: seq<string>, lo: nat, hi: nat): string
    requires lo <= hi <= |lines|
  {
    if hi == lo then "" else CodeText(lines, lo, hi - 1) + lines[hi - 1] + "\n"
  }

  /** One iteration of the loop, on line `i` of `lines`. */
  function Step(st: ScanState, lines: seq<string>, i: nat, markup: string -> string): ScanState
    requires i < |lines|
  {
    var line := lines[i];
    if IsFence(line) then
      if !st.inCodeBlock then ScanState(true, FenceLanguage(line), "", st.result)
      else ScanState(false, st.currentLanguage, st.codeContent,
                     st.result + [CodeBlock(st.currentLanguage, EscapeHtml(st.codeContent))])
    else if st.inCodeBlock then st.(codeContent := st.codeContent + line + "\n")
    else st.(result := st.result + [Line(markup(EscapeHtml(line)), i < |lines| - 1)])
  }

  /** The loop's variables after the first `n` lines. */
  function Scan(lines: seq<string>, n: nat, markup: string -> string): ScanState
    requires n <= |lines|
  {
    if n == 0 then InitialScan else Step(Scan(lines, n - 1, markup), lines, n - 1, markup)
  }

  /** Line `i` closes a block whose escaped code `btoa` rejects, so the
      copy button's `data-code` attribute cannot be computed and the loop
      throws there. */
  predicate ThrowsAt(lines: seq<string>, i: nat, markup: string -> string)
    requires i < |lines|
  {
    var st := Scan(lines, i, markup);
    st.inCodeBlock && IsFence(lines[i]) && !Latin1(EscapeHtml(st.codeContent))
  }

  /** One of the first `n` lines throws. */
  predicate ThrowsBefore(lines: seq<string>, n: nat, markup: string -> string)
    requires n <= |lines|
  {
    n > 0 && (ThrowsBefore(lines, n - 1, markup) || ThrowsAt(lines, n - 1, markup))
  }

  /** `formatMessageContent` throws for `text`: some closing fence ends a
      block with a character above U+00FF. */
  predicate Throws(text: string, markup: string -> string) {
    var lines := Split(text, '\n');
    ThrowsBefore(lines, |lines|, markup)
  }

  /** The pieces `formatMessageContent` produces for `text`, when it does not throw. */
  function Format(text: string, markup: string -> string): seq<Piece> {
    var lines := Split(text, '\n');
    Scan(lines, |lines|, markup).result
  }

  /** The loop of `formatMessageContent`, over the lines of `text`; `thrown`
      reports the exception `btoa` raises, which ends the loop. */
  method FormatMessageContent(text: string, markup: string -> string) returns (result: seq<Piece>, thrown: bool)
    ensures thrown == Throws(text, markup)
    ensures !thrown ==> result == Format(text, markup)
  {
    var lines := Split(text, '\n');
    var inCodeBlock := false;
    var currentLanguage := "";
    result := [];
    thrown := false;
    var codeContent := "";
    for i := 0 to |lines|
      invariant ScanState(inCodeBlock, currentLanguage, codeContent, result) == Scan(lines, i, markup)
      invariant !ThrowsBefore(lines, i, markup)
    {
      ghost var st := ScanState(inCodeBlock, currentLanguage, codeContent, result);
      assert Scan(lines, i + 1, markup) == Step(st, lines, i, markup);
      assert ThrowsBefore(lines, i + 1, markup) <==>
             inCodeBlock && IsFence(lines[i]) && !Latin1(EscapeHtml(codeContent));
      var line := lines[i];
      if IsFence(line) {
        if !inCodeBlock {
          inCodeBlock := true;
          var tag := Trim(line[|Fence|..]);
          currentLanguage := if tag == "" then DefaultLanguage else tag;
          codeContent := "";
        } else {
          inCodeBlock := false;
          var escapedCode := EscapeHtml(codeContent);
          if !Latin1(escapedCode) {
            ThrowsLater(lines, i + 1, |lines|, markup);
            thrown := true;
            return;
          }
          result := result + [CodeBlock(currentLanguage, escapedCode)];
        }
      } else if inCodeBlock {
        codeContent := codeContent + line + "\n";
      } else {
        var processedLine := EscapeHtml(line);
        processedLine := markup(processedLine);
        result := result + [Line(processedLine, i < |lines| - 1)];
      }
    }
  }

  /** Once a line has thrown, every longer prefix has thrown. */
  lemma {:induction false} ThrowsLater(lines: seq<string>, i: nat, n: nat, markup: string -> string)
    requires i <= n <= |lines| && ThrowsBefore(lines, i, markup)
    ensures ThrowsBefore(lines, n, markup)
    decreases n - i
  {
    if i < n {
      ThrowsLater(lines, i + 1, n, markup);
    }
  }

  /** When none of the first `n` lines throws, the scan of them does not throw. */
  lemma {:induction false} NoneThrowBefore(lines: seq<string>, n: nat, markup: string -> string)
    requires n <= |lines|
    requires forall j :: 0 <= j < n ==> !ThrowsAt(lines, j, markup)
    ensures !ThrowsBefore(lines, n, markup)
  {
    if n > 0 {
      NoneThrowBefore(lines, n - 1, markup);
    }
  }

  // ---------------------------------------------------------------------------
  // properties of the scan

  /** Without fences every line becomes one escaped, marked-up piece. */
  lemma {:induction false} ScanWithoutFences(lines: seq<string>, n: nat, markup: string -> string)
    requires n <= |lines|
    requires forall j :: 0 <= j < n ==> !IsFence(lines[j])
    ensures var st := Scan(lines, n, markup);
            !st.inCodeBlock && |st.result| == n &&
            forall j :: 0 <= j < n ==> st.result[j] == Line(markup(EscapeHtml(lines[j])), j < |lines| - 1)
  {
    if n > 0 {
      ScanWithoutFences(lines, n - 1, markup);
      var before := Scan(lines, n - 1, markup);
      StepEmitsLine(before, lines, n - 1, markup);
      ScanNext(lines, n - 1, markup);
      var r := Scan(lines, n, markup).result;
      forall j | 0 <= j < n - 1
        ensures r[j] == Line(markup(EscapeHtml(lines[j])), j < |lines| - 1)
      {
        assert r[j] == before.result[j];
      }
    }
  }

  /** A message without fences: one piece per line, a break after all but the last. */
  lemma PlainMessage(text: string, markup: string -> string)
    requires forall line :: line in Split(text, '\n') ==> !IsFence(line)
    ensures var lines := Split(text, '\n');
            var r := Format(text, markup);
            |r| == |lines| &&
            forall j :: 0 <= j < |r| ==> r[j] == Line(markup(EscapeHtml(lines[j])), j < |lines| - 1)
  {
    var lines := Split(text, '\n');
    ScanWithoutFences(lines, |lines|, markup);
  }

  /** The scan of one more line is one more step. */
  lemma ScanNext(lines: seq<string>, n: nat, markup: string -> string)
    requires n < |lines|
    ensures Scan(lines, n + 1, markup) == Step(Scan(lines, n, markup), lines, n, markup)
  {
  }

  /** Outside a block a line without a fence becomes one text piece. */
  lemma StepEmitsLine(st: ScanState, lines: seq<string>, i: nat, markup: string -> string)
    requires i < |lines| && !st.inCodeBlock && !IsFence(lines[i])
    ensures Step(st, lines, i, markup) ==
              st.(result := st.result + [Line(markup(EscapeHtml(lines[i])), i < |lines| - 1)])
  {
  }

  /** A fence outside a block opens one, with the fence's language and no code yet. */
  lemma StepOpensBlock(st: ScanState, lines: seq<string>, i: nat, markup: string -> string)
    requires i < |lines| && !st.inCodeBlock && IsFence(lines[i])
    ensures Step(st, lines, i, markup) == ScanState(true, FenceLanguage(lines[i]), "", st.result)
  {
  }

  /** A fence inside a block closes it and emits its escaped code. */
  lemma StepClosesBlock(st: ScanState, lines: seq<string>, i: nat, markup: string -> string)
    requires i < |lines| && st.inCodeBlock && IsFence(lines[i])
    ensures Step(st, lines, i, markup) ==
              ScanState(false, st.currentLanguage, st.codeContent,
                        st.result + [CodeBlock(st.currentLanguage, EscapeHtml(st.codeContent))])
  {
  }

  /** Reading a fence outside a block opens one. */
  lemma ScanOpens(lines: seq<string>, k: nat, markup: string -> string)
    requires k < |lines|
    requires !Scan(lines, k, markup).inCodeBlock && IsFence(lines[k])
    ensures Scan(lines, k + 1, markup) == ScanState(true, FenceLanguage(lines[k]), "", Scan(lines, k, markup).result)
  {
    StepOpensBlock(Scan(lines, k, markup), lines, k, markup);
    ScanNext(lines, k, markup);
  }

  /** After an opening fence and fence-free lines the scan is inside a block
      with the fence's language and those lines as its code. */
  lemma {:induction false} OpenedBlock(lines: seq<string>, k: nat, m: nat, markup: string -> string)
    requires k < m <= |lines|
    requires !Scan(lines, k, markup).inCodeBlock && IsFence(lines[k])
    requires forall j :: k < j < m ==> !IsFence(lines[j])
    ensures Scan(lines, m, markup) ==
              ScanState(true, FenceLanguage(lines[k]), CodeText(lines, k + 1, m), Scan(lines, k, markup).result)
  {
    if m == k + 1 {
      ScanOpens(lines, k, markup);
    } else {
      OpenedBlock(lines, k, m - 1, markup);
      ScanNext(lines, m - 1, markup);
    }
  }

  /** An opening fence, fence-free lines and a closing fence emit one block:
      the opening fence's language and the escaped collected lines. */
  lemma FencedBlock(lines: seq<string>, k: nat, m: nat, markup: string -> string)
    requires k < m < |lines|
    requires !Scan(lines, k, markup).inCodeBlock
    requires IsFence(lines[k]) && IsFence(lines[m])
    requires forall j :: k < j < m ==> !IsFence(lines[j])
    ensures var language := FenceLanguage(lines[k]);
            var code := CodeText(lines, k + 1, m);
            Scan(lines, m + 1, markup) ==
              ScanState(false, language, code, Scan(lines, k, markup).result + [CodeBlock(language, EscapeHtml(code))])
  {
    OpenedBlock(lines, k, m, markup);
    StepClosesBlock(Scan(lines, m, markup), lines, m, markup);
    ScanNext(lines, m, markup);
  }

  /** A block that is never closed emits nothing: the result stops growing at its fence. */
  lemma UnclosedBlockEmitsNothing(lines: seq<string>, k: nat, markup: string -> string)
    requires k < |lines|
    requires !Scan(lines, k, markup).inCodeBlock && IsFence(lines[k])
    requires forall j :: k < j < |lines| ==> !IsFence(lines[j])
    ensures Scan(lines, |lines|, markup).result == Scan(lines, k, markup).result
  {
    OpenedBlock(lines, k, |lines|, markup);
  }

  /** Every text piece of `r` is followed by a line break. */
  predicate AllLinesBroken(r: seq<Piece>) {
    forall j :: 0 <= j < |r| && r[j].Line? ==> r[j].lineBreak
  }

  /** What one step appends to the result: a text piece for a text line
      outside a block, a code piece for a closing fence, nothing otherwise. */
  lemma StepResult(st: ScanState, lines: seq<string>, i: nat, markup: string -> string)
    requires i < |lines|
    ensures var r := Step(st, lines, i, markup).result;
            (!st.inCodeBlock && !IsFence(lines[i]) ==>
               r == st.result + [Line(markup(EscapeHtml(lines[i])), i < |lines| - 1)]) &&
            (st.inCodeBlock && IsFence(lines[i]) ==>
               r == st.result + [CodeBlock(st.currentLanguage, EscapeHtml(st.codeContent))]) &&
            (st.inCodeBlock != IsFence(lines[i]) ==> r == st.result)
  {
  }

  /** A step before the last line keeps every text piece followed by a break. */
  lemma StepKeepsLinesBroken(st: ScanState, lines: seq<string>, i: nat, markup: string -> string)
    requires i < |lines| - 1
    requires AllLinesBroken(st.result)
    ensures AllLinesBroken(Step(st, lines, i, markup).result)
  {
    var r := Step(st, lines, i, markup).result;
    StepResult(st, lines, i, markup);
    forall j | 0 <= j < |r| && r[j].Line? ensures r[j].lineBreak {
      if j < |st.result| {
        assert r[j] == st.result[j];
      }
    }
  }

  /** Before the last line is read, every text piece carries a line break. */
  lemma {:induction false} BreaksBeforeLastLine(lines: seq<string>, n: nat, markup: string -> string)
    requires n < |lines|
    ensures AllLinesBroken(Scan(lines, n, markup).result)
  {
    if n > 0 {
      BreaksBeforeLastLine(lines, n - 1, markup);
      StepKeepsLinesBroken(Scan(lines, n - 1, markup), lines, n - 1, markup);
    }
  }

  /** The step on the last line keeps a break after every earlier text
      piece, and leaves a final text piece without one exactly when that
      line is text outside a block. */
  lemma StepOnLastLine(st: ScanState, lines: seq<string>, markup: string -> string)
    requires |lines| > 0 && AllLinesBroken(st.result)
    ensures var r := Step(st, lines, |lines| - 1, markup).result;
            (|r| > 0 ==> AllLinesBroken(r[..|r| - 1])) &&
            ((|r| > 0 && r[|r| - 1].Line? && !r[|r| - 1].lineBreak) <==>
             (!st.inCodeBlock && !IsFence(lines[|lines| - 1])))
  {
    var last := lines[|lines| - 1];
    StepResult(st, lines, |lines| - 1, markup);
    var r := Step(st, lines, |lines| - 1, markup).result;
    if !st.inCodeBlock && !IsFence(last) {
      assert r[..|r| - 1] == st.result;
    } else if st.inCodeBlock && IsFence(last) {
      assert r[..|r| - 1] == st.result;
    } else if |r| > 0 {
      var p := r[..|r| - 1];
      forall j | 0 <= j < |p| && p[j].Line? ensures p[j].lineBreak {
        assert p[j] == st.result[j];
      }
    }
  }

  /** "<br>" follows every text line except the last of `lines`: only the
      last piece can be a text line without a break, and it is one exactly
      when the last line is text outside a block. */
  lemma LastLineOnlyUnbroken(lines: seq<string>, markup: string -> string)
    requires |lines| > 0
    ensures var r := Scan(lines, |lines|, markup).result;
            var before := Scan(lines, |lines| - 1, markup);
            (|r| > 0 ==> AllLinesBroken(r[..|r| - 1])) &&
            ((|r| > 0 && r[|r| - 1].Line? && !r[|r| - 1].lineBreak) <==>
             (!before.inCodeBlock && !IsFence(lines[|lines| - 1])))
  {
    var before := Scan(lines, |lines| - 1, markup);
    BreaksBeforeLastLine(lines, |lines| - 1, markup);
    assert Scan(lines, |lines|, markup) == Step(before, lines, |lines| - 1, markup);
    StepOnLastLine(before, lines, markup);
  }

  /** Formatting the lines of a message joined with newlines scans exactly
      those lines, when none of them holds a newline. */
  lemma FormatJoinedLines(lines: seq<string>, markup: string -> string)
    requires |lines| >= 1
    requires forall j :: 0 <= j < |lines| ==> '\n' !in lines[j]
    ensures Format(Join(lines, "\n"), markup) == Scan(lines, |lines|, markup).result
  {
    SplitJoin(lines, '\n');
    assert Join(lines, ['\n']) == Join(lines, "\n");
  }

  /** An opening fence, lines without a fence and a closing fence scan to one
      code piece. */
  lemma ScanBlockMessage(tag: string, body: seq<string>, markup: string -> string)
    requires forall j :: 0 <= j < |body| ==> !IsFence(body[j])
    ensures var lines := [Fence + tag] + body + [Fence];
            Scan(lines, |lines|, markup).result ==
              [CodeBlock(FenceLanguage(Fence + tag), EscapeHtml(CodeText(lines, 1, |lines| - 1)))]
  {
    var lines := [Fence + tag] + body + [Fence];
    assert lines[0] == Fence + tag && lines[|lines| - 1] == Fence;
    forall j | 0 < j < |lines| - 1 ensures !IsFence(lines[j]) {
      assert lines[j] == body[j - 1];
    }
    FencedBlock(lines, 0, |lines| - 1, markup);
  }

  /** A message that is exactly one fenced block becomes one code piece. */
  lemma SingleFencedBlock(tag: string, body: seq<string>, markup: string -> string)
    requires '\n' !in tag
    requires forall j :: 0 <= j < |body| ==> '\n' !in body[j] && !IsFence(body[j])
    ensures var lines := [Fence + tag] + body + [Fence];
            Format(Join(lines, "\n"), markup) ==
              [CodeBlock(FenceLanguage(Fence + tag), EscapeHtml(CodeText(lines, 1, |lines| - 1)))]
  {
    var lines := [Fence + tag] + body + [Fence];
    forall j | 0 <= j < |lines| ensures '\n' !in lines[j] {
      if 0 < j < |lines| - 1 {
        assert lines[j] == body[j - 1];
      }
    }
    FormatJoinedLines(lines, markup);
    ScanBlockMessage(tag, body, markup);
  }

  /** A block's language is never empty and never starts or ends with white
      space: it is the trimmed text after the backticks, or "plaintext". */
  lemma FenceLanguageIsTag(line: string)
    requires IsFence(line)
    ensures var r := FenceLanguage(line);
            r != [] && !IsSpace(r[0]) && !IsSpace(r[|r| - 1]) &&
            (r == DefaultLanguage || r == Trim(line[|Fence|..]))
  {
    SpaceCodePoints('p');
    SpaceCodePoints('t');
  }

  /** The fence "```python" opens a block tagged "python". */
  lemma PythonFenceLanguage()
    ensures FenceLanguage(Fence + "python") == "python"
  {
    assert (Fence + "python")[|Fence|..] == "python";
    SpaceCodePoints('p');
    SpaceCodePoints('n');
    TrimmedIsFixed("python");
  }

  /** Unlike the code, the language is not escaped: the fence "```<b>"
      opens a block whose language is the markup "<b>". */
  lemma LanguageKeepsMarkup()
    ensures FenceLanguage(Fence + "<b>") == "<b>" && '<' in FenceLanguage(Fence + "<b>")
  {
    assert (Fence + "<b>")[|Fence|..] == "<b>";
    SpaceCodePoints('<');
    SpaceCodePoints('>');
    TrimmedIsFixed("<b>");
  }

  /** A block fenced as "```python" is tagged "python" and its code is escaped:
      no angle bracket of the code survives in the output. */
  lemma PythonBlockIsTaggedAndEscaped(body: seq<string>, markup: string -> string)
    requires forall j :: 0 <= j < |body| ==> '\n' !in body[j] && !IsFence(body[j])
    ensures var r := Format(Join([Fence + "python"] + body + [Fence], "\n"), markup);
            |r| == 1 && r[0].CodeBlock? && r[0].language == "python" &&
            '<' !in r[0].code && '>' !in r[0].code
  {
    SingleFencedBlock("python", body, markup);
    PythonFenceLanguage();
  }

  // ---------------------------------------------------------------------------
  // when the scan throws

  /** A message without a fence line never throws. */
  lemma FencelessNeverThrows(text: string, markup: string -> string)
    requires forall line :: line in Split(text, '\n') ==> !IsFence(line)
    ensures !Throws(text, markup)
  {
    var lines := Split(text, '\n');
    forall i | 0 <= i < |lines| ensures !ThrowsAt(lines, i, markup) {
      assert lines[i] in lines;
    }
    NoneThrowBefore(lines, |lines|, markup);
  }

  /** A closing fence throws exactly when the code it closes, before
      escaping, holds a character above U+00FF. */
  lemma ClosingThrows(lines: seq<string>, k: nat, m: nat, markup: string -> string)
    requires k < m < |lines|
    requires !Scan(lines, k, markup).inCodeBlock
    requires IsFence(lines[k]) && IsFence(lines[m])
    requires forall j :: k < j < m ==> !IsFence(lines[j])
    ensures ThrowsAt(lines, m, markup) <==> !Latin1(CodeText(lines, k + 1, m))
  {
    OpenedBlock(lines, k, m, markup);
    EscapeKeepsLatin1(CodeText(lines, k + 1, m));
  }

  /** A message that is exactly one fenced block throws exactly when its
      code holds a character above U+00FF. */
  lemma BlockMessageThrows(tag: string, body: seq<string>, markup: string -> string)
    requires '\n' !in tag
    requires forall j :: 0 <= j < |body| ==> '\n' !in body[j] && !IsFence(body[j])
    ensures var lines := [Fence + tag] + body + [Fence];
            Throws(Join(lines, "\n"), markup) <==> !Latin1(CodeText(lines, 1, |lines| - 1))
  {
    var lines := [Fence + tag] + body + [Fence];
    var last := |lines| - 1;
    forall j | 0 <= j < |lines| ensures '\n' !in lines[j] {
      if 0 < j < last {
        assert lines[j] == body[j - 1];
      }
    }
    SplitJoin(lines, '\n');
    assert Join(lines, ['\n']) == Join(lines, "\n");
    assert lines[0] == Fence + tag && lines[last] == Fence;
    forall j | 0 < j < last ensures !IsFence(lines[j]) {
      assert lines[j] == body[j - 1];
    }
    ClosingThrows(lines, 0, last, markup);
    forall j | 0 <= j < last ensures !ThrowsAt(lines, j, markup) {
      if j > 0 {
        assert lines[j] == body[j - 1];
      }
    }
    NoneThrowBefore(lines, last, markup);
  }

  /** The message "```", "→", "```" (a block holding one arrow) throws. */
  lemma ArrowBlockThrows(markup: string -> string)
    ensures Throws("```\n\U{2192}\n```", markup)
  {
    var lines := [Fence + ""] + ["\U{2192}"] + [Fence];
    assert lines[1..] == ["\U{2192}", Fence] && lines[2..] == [Fence];
    assert Join(lines[1..], "\n") == "\U{2192}" + "\n" + Fence;
    assert Join(lines, "\n") == "```\n\U{2192}\n```";
    assert CodeText(lines, 1, 2) == "\U{2192}\n";
    assert !Latin1(CodeText(lines, 1, 2)) by {
      assert CodeText(lines, 1, 2)[0] as int == 0x2192;
    }
    BlockMessageThrows("", ["\U{2192}"], markup);
  }
}
