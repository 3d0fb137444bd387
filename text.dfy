/** The JavaScript string built-ins chatbot.js relies on (`includes`,
    `startsWith`, `split`, `join`, `trim`), the HTML escaping of a text node
    (`escapeHtml`) and the entity decoding that undoes it
    (`decodeHtmlEntities`), written out over `seq<char>`. */
module Text {

  /** `s.startsWith(p)`. */
  predicate StartsWith(s: string, p: string) {
    |p| <= |s| && s[..|p|] == p
  }

  /** A string that differs from `p` at one of `p`'s positions does not start with `p`. */
  lemma DiffersAt(s: string, p: string, i: nat)
    requires i < |p| && (i < |s| ==> s[i] != p[i])
    ensures !StartsWith(s, p)
  {
    if |p| <= |s| {
      assert s[..|p|][i] != p[i];
    }
  }

  /** `t` occurs in `s` starting at index `i`. */
  predicate OccursAt(s: string, t: string, i: nat) {
    i + |t| <= |s| && s[i..i + |t|] == t
  }

  /** `s.includes(t)`: `t` occurs in `s` at some position. */
  function Contains(s: string, t: string): (r: bool)
    ensures r <==> exists i: nat :: OccursAt(s, t, i)
    decreases |s|
  {
    if |t| > |s| then false
    else if s[..|t|] == t then assert OccursAt(s, t, 0); true
    else
      var r := Contains(s[1..], t);
      assert forall i: nat :: OccursAt(s[1..], t, i) <==> OccursAt(s, t, i + 1) by {
        forall i: nat ensures OccursAt(s[1..], t, i) <==> OccursAt(s, t, i + 1) {
          if i + 1 + |t| <= |s| {
            assert s[1..][i..i + |t|] == s[i + 1..i + 1 + |t|];
          }
        }
      }
      assert !OccursAt(s, t, 0);
      assert forall i: nat :: OccursAt(s, t, i) ==> i == 0 || OccursAt(s[1..], t, i - 1);
      r
  }

  /** Number of occurrences of the character `c` in `s`. */
  function Count(s: string, c: char): nat {
    if |s| == 0 then 0
    else (if s[0] == c then 1 else 0) + Count(s[1..], c)
  }

  /** Counting distributes over concatenation. */
  lemma {:induction false} CountAppend(a: string, b: string, c: char)
    ensures Count(a + b, c) == Count(a, c) + Count(b, c)
    decreases |a|
  {
    if |a| > 0 {
      assert (a + b)[1..] == a[1..] + b;
      CountAppend(a[1..], b, c);
    } else {
      assert a + b == b;
    }
  }

  /** A prefix has no more occurrences than the whole string. */
  lemma CountPrefix(s: string, n: nat, c: char)
    requires n <= |s|
    ensures Count(s[..n], c) <= Count(s, c)
  {
    assert s == s[..n] + s[n..];
    CountAppend(s[..n], s[n..], c);
  }

  // ---------------------------------------------------------------------------
  // split and join

  /** `s.split(sep)` for a one-character separator: the pieces between the
      separators, never an empty list (`"".split(sep)` is `[""]`). */
  function Split(s: string, sep: char): (parts: seq<string>)
    ensures |parts| >= 1
    ensures forall k :: 0 <= k < |parts| ==> sep !in parts[k]
    decreases |s|
  {
    if |s| == 0 then [""]
    else
      var rest := Split(s[1..], sep);
      if s[0] == sep then [""] + rest
      else [[s[0]] + rest[0]] + rest[1..]
  }

  /** `parts.join(sep)`. */
  function Join(parts: seq<string>, sep: string): string {
    if |parts| == 0 then ""
    else if |parts| == 1 then parts[0]
    else parts[0] + sep + Join(parts[1..], sep)
  }

  /** Joining the pieces of a split with the separator gives the string back. */
  lemma {:induction false} JoinSplit(s: string, sep: char)
    ensures Join(Split(s, sep), [sep]) == s
    decreases |s|
  {
    if |s| > 0 {
      var rest := Split(s[1..], sep);
      JoinSplit(s[1..], sep);
      if s[0] == sep {
        assert [""] + rest == [""] + rest[..];
        assert ([""] + rest)[1..] == rest;
      } else {
        var parts := [[s[0]] + rest[0]] + rest[1..];
        assert parts[1..] == rest[1..];
        if |rest| > 1 {
          assert Join(rest, [sep]) == rest[0] + [sep] + Join(rest[1..], [sep]);
        }
        assert s == [s[0]] + s[1..];
      }
    }
  }

  /** A string without the separator splits into itself alone. */
  lemma {:induction false} SplitWithoutSep(s: string, sep: char)
    requires sep !in s
    ensures Split(s, sep) == [s]
    decreases |s|
  {
    if |s| > 0 {
      assert sep !in s[1..];
      SplitWithoutSep(s[1..], sep);
      assert s == [s[0]] + s[1..];
    }
  }

  /** One unfolding of `Split` on a non-empty string. */
  lemma SplitCons(s: string, sep: char)
    requires |s| > 0
    ensures var rest := Split(s[1..], sep);
            Split(s, sep) == if s[0] == sep then [""] + rest else [[s[0]] + rest[0]] + rest[1..]
  {
  }

  /** Splitting at one separator occurrence splits the two sides independently. */
  lemma {:induction false} SplitAround(a: string, b: string, sep: char)
    ensures Split(a + [sep] + b, sep) == Split(a, sep) + Split(b, sep)
    decreases |a|
  {
    var s := a + [sep] + b;
    SplitCons(s, sep);
    if |a| == 0 {
      assert s[1..] == b;
    } else {
      SplitAround(a[1..], b, sep);
      SplitAroundStep(a, b, sep);
    }
  }

  /** The inductive step of `SplitAround`, on a non-empty left side. */
  lemma SplitAroundStep(a: string, b: string, sep: char)
    requires |a| > 0
    requires Split(a[1..] + [sep] + b, sep) == Split(a[1..], sep) + Split(b, sep)
    ensures Split(a + [sep] + b, sep) == Split(a, sep) + Split(b, sep)
  {
    var s := a + [sep] + b;
    assert s[0] == a[0] && s[1..] == a[1..] + [sep] + b;
    SplitCons(s, sep);
    SplitCons(a, sep);
    ConsPieceAppend(a[0], sep, Split(a[1..], sep), Split(b, sep), Split(s, sep), Split(a, sep));
  }

  /** One step of `Split` commutes with appending more pieces. */
  lemma ConsPieceAppend(c: char, sep: char, ra: seq<string>, rb: seq<string>, whole: seq<string>, left: seq<string>)
    requires |ra| >= 1
    requires whole == if c == sep then [""] + (ra + rb) else [[c] + (ra + rb)[0]] + (ra + rb)[1..]
    requires left == if c == sep then [""] + ra else [[c] + ra[0]] + ra[1..]
    ensures whole == left + rb
  {
    if c == sep {
      assert [""] + (ra + rb) == [""] + ra + rb;
    } else {
      assert (ra + rb)[0] == ra[0];
      assert (ra + rb)[1..] == ra[1..] + rb;
      assert [[c] + ra[0]] + (ra[1..] + rb) == [[c] + ra[0]] + ra[1..] + rb;
    }
  }

  /** Splitting a join gives the pieces back, when no piece holds the separator. */
  lemma {:induction false} SplitJoin(parts: seq<string>, sep: char)
    requires |parts| >= 1
    requires forall k :: 0 <= k < |parts| ==> sep !in parts[k]
    ensures Split(Join(parts, [sep]), sep) == parts
  {
    if |parts| == 1 {
      SplitWithoutSep(parts[0], sep);
    } else {
      SplitJoin(parts[1..], sep);
      SplitWithoutSep(parts[0], sep);
      SplitAround(parts[0], Join(parts[1..], [sep]), sep);
      assert parts == [parts[0]] + parts[1..];
    }
  }

  /** A split has one more piece than there are separators. */
  lemma {:induction false} SplitLength(s: string, sep: char)
    ensures |Split(s, sep)| == Count(s, sep) + 1
    decreases |s|
  {
    if |s| > 0 {
      SplitLength(s[1..], sep);
    }
  }

  /** Joining the first `k` pieces gives a prefix of joining them all. */
  lemma {:induction false} JoinTakePrefix(parts: seq<string>, k: nat, sep: string)
    requires 1 <= k <= |parts|
    ensures StartsWith(Join(parts, sep), Join(parts[..k], sep))
  {
    if k > 1 {
      JoinTakePrefix(parts[1..], k - 1, sep);
      assert parts[..k][1..] == parts[1..][..k - 1];
      var tail := Join(parts[1..], sep);
      var tailK := Join(parts[1..][..k - 1], sep);
      assert tail[..|tailK|] == tailK;
      assert (parts[0] + sep + tail)[..|parts[0] + sep + tailK|] == parts[0] + sep + tailK;
    }
  }

  /** Joining splits at any inner boundary: the first `k` pieces, the
      separator, then the remaining pieces. */
  lemma {:induction false} JoinAt(parts: seq<string>, k: nat, sep: string)
    requires 1 <= k < |parts|
    ensures Join(parts, sep) == Join(parts[..k], sep) + sep + Join(parts[k..], sep)
  {
    if k > 1 {
      JoinAt(parts[1..], k - 1, sep);
      assert parts[..k][1..] == parts[1..][..k - 1];
      assert parts[1..][k - 1..] == parts[k..];
    }
  }

  /** The piece after the last separator (`s.split(sep).pop()`) is a suffix of
      `s` free of the separator, preceded by the separator unless it is all of `s`. */
  lemma {:induction false} LastPieceIsSuffix(s: string, sep: char)
    ensures var parts := Split(s, sep);
            var r := parts[|parts| - 1];
            |r| <= |s| && s[|s| - |r|..] == r && (|r| < |s| ==> s[|s| - |r| - 1] == sep)
    decreases |s|
  {
    if |s| > 0 {
      var tail := s[1..];
      LastPieceIsSuffix(tail, sep);
      SplitCons(s, sep);
      var rest := Split(tail, sep);
      var last := rest[|rest| - 1];
      if s[0] != sep && |rest| == 1 {
        JoinSplit(tail, sep);
        assert last == tail;
        assert s == [s[0]] + tail;
      } else {
        assert Split(s, sep)[|Split(s, sep)| - 1] == last;
        assert s[|s| - |last|..] == tail[|tail| - |last|..];
        if |last| == |tail| && s[0] != sep {
          assert last == tail;
          SplitWithoutSep(tail, sep);
          assert false;
        }
      }
    }
  }

  // ---------------------------------------------------------------------------
  // trim

  /** The code-point ranges of ECMAScript WhiteSpace and LineTerminator:
      tab to carriage return, space, no-break space, ogham space mark, the
      en quad to hair space block, the line and paragraph separators, the
      narrow no-break space, the medium mathematical space, the ideographic
      space and the byte order mark. */
  const SpaceRanges: seq<(int, int)> := [
    (0x09, 0x0D), (0x20, 0x20), (0xA0, 0xA0), (0x1680, 0x1680), (0x2000, 0x200A),
    (0x2028, 0x2029), (0x202F, 0x202F), (0x205F, 0x205F), (0x3000, 0x3000), (0xFEFF, 0xFEFF)
  ]

  /** `n` lies in one of `ranges`. */
  predicate InRanges(n: int, ranges: seq<(int, int)>) {
    |ranges| > 0 && ((ranges[0].0 <= n <= ranges[0].1) || InRanges(n, ranges[1..]))
  }

  /** What `String.prototype.trim` removes at either end. */
  predicate IsSpace(c: char) {
    InRanges(c as int, SpaceRanges)
  }

  /** Only the listed code points are white space; in particular none of
      ASCII's letters, digits or punctuation. */
  lemma SpaceCodePoints(c: char)
    ensures IsSpace(c) <==> var n := c as int;
      (0x09 <= n <= 0x0D) || n == 0x20 || n == 0xA0 || n == 0x1680 || (0x2000 <= n <= 0x200A) ||
      n == 0x2028 || n == 0x2029 || n == 0x202F || n == 0x205F || n == 0x3000 || n == 0xFEFF
  {
    var n := c as int;
    var r := SpaceRanges;
    assert !InRanges(n, r[10..]);
    assert InRanges(n, r[9..]) <==> (r[9].0 <= n <= r[9].1) || InRanges(n, r[10..]) by {
      assert r[9..][1..] == r[10..];
    }
    assert InRanges(n, r[8..]) <==> (r[8].0 <= n <= r[8].1) || InRanges(n, r[9..]) by {
      assert r[8..][1..] == r[9..];
    }
    assert InRanges(n, r[7..]) <==> (r[7].0 <= n <= r[7].1) || InRanges(n, r[8..]) by {
      assert r[7..][1..] == r[8..];
    }
    assert InRanges(n, r[6..]) <==> (r[6].0 <= n <= r[6].1) || InRanges(n, r[7..]) by {
      assert r[6..][1..] == r[7..];
    }
    assert InRanges(n, r[5..]) <==> (r[5].0 <= n <= r[5].1) || InRanges(n, r[6..]) by {
      assert r[5..][1..] == r[6..];
    }
    assert InRanges(n, r[4..]) <==> (r[4].0 <= n <= r[4].1) || InRanges(n, r[5..]) by {
      assert r[4..][1..] == r[5..];
    }
    assert InRanges(n, r[3..]) <==> (r[3].0 <= n <= r[3].1) || InRanges(n, r[4..]) by {
      assert r[3..][1..] == r[4..];
    }
    assert InRanges(n, r[2..]) <==> (r[2].0 <= n <= r[2].1) || InRanges(n, r[3..]) by {
      assert r[2..][1..] == r[3..];
    }
    assert InRanges(n, r[1..]) <==> (r[1].0 <= n <= r[1].1) || InRanges(n, r[2..]) by {
      assert r[1..][1..] == r[2..];
    }
    assert InRanges(n, r[0..]) <==> (r[0].0 <= n <= r[0].1) || InRanges(n, r[1..]) by {
      assert r[0..][1..] == r[1..];
    }
    assert r[0..] == r;
  }

  /** The first index at or after `i` that is not white space, or `|s|`. */
  function SkipSpaces(s: string, i: nat): (j: nat)
    requires i <= |s|
    ensures i <= j <= |s|
    ensures forall k :: i <= k < j ==> IsSpace(s[k])
    ensures j == |s| || !IsSpace(s[j])
    decreases |s| - i
  {
    if i < |s| && IsSpace(s[i]) then SkipSpaces(s, i + 1) else i
  }

  /** The end of `s[lo..j]` once its trailing white space is dropped. */
  function SkipSpacesBack(s: string, lo: nat, j: nat): (e: nat)
    requires lo <= j <= |s|
    ensures lo <= e <= j
    ensures forall k :: e <= k < j ==> IsSpace(s[k])
    ensures e == lo || !IsSpace(s[e - 1])
  {
    if lo < j && IsSpace(s[j - 1]) then SkipSpacesBack(s, lo, j - 1) else j
  }

  /** `s.trim()`: the part of `s` between its leading and trailing white space. */
  function Trim(s: string): (r: string)
    ensures r == [] <==> forall k :: 0 <= k < |s| ==> IsSpace(s[k])
    ensures r == [] || (!IsSpace(r[0]) && !IsSpace(r[|r| - 1]))
  {
    var start := SkipSpaces(s, 0);
    s[start..SkipSpacesBack(s, start, |s|)]
  }

  /** The trimmed string is a piece of the original with only white space around it. */
  lemma TrimIsInfix(s: string)
    ensures Contains(s, Trim(s))
    ensures var i := SkipSpaces(s, 0);
            s[i..i + |Trim(s)|] == Trim(s) &&
            (forall k :: 0 <= k < i ==> IsSpace(s[k])) &&
            (forall k :: i + |Trim(s)| <= k < |s| ==> IsSpace(s[k]))
  {
    assert OccursAt(s, Trim(s), SkipSpaces(s, 0));
  }

  /** A string that neither starts nor ends with white space is its own trim. */
  lemma TrimmedIsFixed(s: string)
    requires s == [] || (!IsSpace(s[0]) && !IsSpace(s[|s| - 1]))
    ensures Trim(s) == s
  {
  }

  // ---------------------------------------------------------------------------
  // HTML escaping

  const Nbsp: char := 0xA0 as char

  /** How the HTML serialiser writes one character of a text node. */
  function EscapeChar(c: char): string {
    if c == '&' then "&amp;"
    else if c == Nbsp then "&nbsp;"
    else if c == '<' then "&lt;"
    else if c == '>' then "&gt;"
    else [c]
  }

  /** `escapeHtml`: the `innerHTML` of an element whose text content is `s`. */
  function EscapeHtml(s: string): (r: string)
    ensures '<' !in r && '>' !in r
    ensures |r| >= |s|
  {
    if |s| == 0 then "" else EscapeChar(s[0]) + EscapeHtml(s[1..])
  }

  /** `btoa` accepts a string only when every character is at most U+00FF. */
  predicate Latin1(s: string) {
    forall k :: 0 <= k < |s| ==> s[k] as int <= 0xFF
  }

  /** Escaping neither adds nor removes a character above U+00FF: the
      entities it writes are ASCII. */
  lemma {:induction false} EscapeKeepsLatin1(s: string)
    ensures Latin1(EscapeHtml(s)) <==> Latin1(s)
  {
    if |s| > 0 {
      EscapeKeepsLatin1(s[1..]);
      EscapeCharLatin1(s[0]);
      Latin1Append(EscapeChar(s[0]), EscapeHtml(s[1..]));
      Latin1Append([s[0]], s[1..]);
      assert s == [s[0]] + s[1..];
    }
  }

  lemma EscapeCharLatin1(c: char)
    ensures Latin1(EscapeChar(c)) <==> c as int <= 0xFF
  {
    var e := EscapeChar(c);
    if c == '&' || c == Nbsp || c == '<' || c == '>' {
      forall k | 0 <= k < |e| ensures e[k] as int <= 0xFF {
      }
    } else {
      assert e[0] == c;
    }
  }

  lemma Latin1Append(a: string, b: string)
    ensures Latin1(a + b) <==> Latin1(a) && Latin1(b)
  {
    if Latin1(a + b) {
      forall k | 0 <= k < |a| ensures a[k] as int <= 0xFF {
        assert (a + b)[k] == a[k];
      }
      forall k | 0 <= k < |b| ensures b[k] as int <= 0xFF {
        assert (a + b)[|a| + k] == b[k];
      }
    }
  }

  /** `decodeHtmlEntities`, for the four entities `EscapeHtml` produces;
      any other text is copied unchanged. */
  function DecodeEntities(s: string): string
    decreases |s|
  {
    if |s| == 0 then ""
    else if StartsWith(s, "&amp;") then "&" + DecodeEntities(s[5..])
    else if StartsWith(s, "&nbsp;") then [Nbsp] + DecodeEntities(s[6..])
    else if StartsWith(s, "&lt;") then "<" + DecodeEntities(s[4..])
    else if StartsWith(s, "&gt;") then ">" + DecodeEntities(s[4..])
    else [s[0]] + DecodeEntities(s[1..])
  }

  /** "&amp;" decodes to "&". */
  lemma DecodeAmp(rest: string)
    ensures DecodeEntities("&amp;" + rest) == "&" + DecodeEntities(rest)
  {
    var e := "&amp;" + rest;
    assert e[..5] == "&amp;" && e[5..] == rest;
  }

  /** "&nbsp;" decodes to the no-break space. */
  lemma DecodeNbsp(rest: string)
    ensures DecodeEntities("&nbsp;" + rest) == [Nbsp] + DecodeEntities(rest)
  {
    var e := "&nbsp;" + rest;
    DiffersAt(e, "&amp;", 1);
    assert e[..6] == "&nbsp;" && e[6..] == rest;
  }

  /** "&lt;" decodes to "<". */
  lemma DecodeLt(rest: string)
    ensures DecodeEntities("&lt;" + rest) == "<" + DecodeEntities(rest)
  {
    var e := "&lt;" + rest;
    DiffersAt(e, "&amp;", 1);
    DiffersAt(e, "&nbsp;", 1);
    assert e[..4] == "&lt;" && e[4..] == rest;
  }

  /** "&gt;" decodes to ">". */
  lemma DecodeGt(rest: string)
    ensures DecodeEntities("&gt;" + rest) == ">" + DecodeEntities(rest)
  {
    var e := "&gt;" + rest;
    DiffersAt(e, "&amp;", 1);
    DiffersAt(e, "&nbsp;", 1);
    DiffersAt(e, "&lt;", 1);
    assert e[..4] == "&gt;" && e[4..] == rest;
  }

  /** A character other than "&" decodes to itself. */
  lemma DecodePlain(c: char, rest: string)
    requires c != '&'
    ensures DecodeEntities([c] + rest) == [c] + DecodeEntities(rest)
  {
    var e := [c] + rest;
    DiffersAt(e, "&amp;", 0);
    DiffersAt(e, "&nbsp;", 0);
    DiffersAt(e, "&lt;", 0);
    DiffersAt(e, "&gt;", 0);
    assert e[1..] == rest;
  }

  /** Decoding the escape of one character gives that character back. */
  lemma DecodeEscapeChar(c: char, rest: string)
    ensures DecodeEntities(EscapeChar(c) + rest) == [c] + DecodeEntities(rest)
  {
    if c == '&' {
      DecodeAmp(rest);
    } else if c == Nbsp {
      DecodeNbsp(rest);
    } else if c == '<' {
      DecodeLt(rest);
    } else if c == '>' {
      DecodeGt(rest);
    } else {
      DecodePlain(c, rest);
    }
  }

  /** Decoding undoes escaping: the copy button yields the original code. */
  lemma {:induction false} DecodeEscape(s: string)
    ensures DecodeEntities(EscapeHtml(s)) == s
  {
    if |s| > 0 {
      DecodeEscape(s[1..]);
      DecodeEscapeChar(s[0], EscapeHtml(s[1..]));
      assert s == [s[0]] + s[1..];
    }
  }
}
