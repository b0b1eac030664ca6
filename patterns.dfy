/** The regular expressions and `String.prototype.replace` calls of the patching engine,
    written out as leftmost-match functions over `seq<char>`.

    Each matcher `XMatchAt(s, p)` computes the match the regular-expression engine finds when
    it tries position `p`, and its contract ties that result to a declarative description of
    the pattern's language (`IsXMatch`): a match exists at `p` exactly when the matcher finds
    one, and the matcher picks the one the engine's greedy and lazy quantifiers pick. */
module Patterns {
  import opened Text

  /** A match of a pattern that ends in a quoted literal: where the match starts, the
      indices of the opening and the closing quote, and where the match ends. */
  datatype Quoted = Quoted(start: nat, open: nat, close: nat, end: nat)

  // ---------------------------------------------------------------------------------
  // `/style:\s*\{[^}]*\}/` (component-editor.tsx:517)

  /** The language of the style pattern: `s[p..e]` is `style:`, white space, `{`, then
      characters other than `}`, then `}`. */
  ghost predicate IsStyleMatch(s: string, p: int, e: int) {
    0 <= p && p + 6 < e <= |s| && s[p..p + 6] == "style:" && s[e - 1] == '}' &&
    exists a :: p + 6 <= a < e - 1 && AllSpace(s, p + 6, a) && s[a] == '{' && NoneIs(s, a + 1, e - 1, '}')
  }

  /** The end of the style match starting at `p`, or -1: there is at most one. */
  function StyleMatchAt(s: string, p: nat): (e: int)
    requires p <= |s|
    ensures e >= 0 ==> IsStyleMatch(s, p, e)
    ensures forall e' :: IsStyleMatch(s, p, e') ==> e' == e
  {
    if !OccursAt(s, "style:", p) then
      assert forall e' :: !IsStyleMatch(s, p, e');
      -1
    else
      var a := SkipSpace(s, p + 6);
      assert forall e' :: IsStyleMatch(s, p, e') ==>
        a < |s| && s[a] == '{' && IndexOfChar(s, '}', a + 1) == e' - 1 by {
        forall e' | IsStyleMatch(s, p, e')
          ensures a < |s| && s[a] == '{' && IndexOfChar(s, '}', a + 1) == e' - 1
        {
          StyleBrace(s, p, e');
        }
      }
      if a < |s| && s[a] == '{' then
        var c := IndexOfChar(s, '}', a + 1);
        SkipSpaceStops(s, p + 6);
        IndexOfCharFirst(s, '}', a + 1);
        if c < 0 then -1 else c + 1
      else -1
  }

  /** In a style match, `\s*` stops at the `{` and `[^}]*` at the first `}` after it. */
  lemma StyleBrace(s: string, p: nat, e: int)
    requires OccursAt(s, "style:", p) && IsStyleMatch(s, p, e)
    ensures SkipSpace(s, p + 6) < |s| && s[SkipSpace(s, p + 6)] == '{'
    ensures IndexOfChar(s, '}', SkipSpace(s, p + 6) + 1) == e - 1
  {
    var a' :| p + 6 <= a' < e - 1 && AllSpace(s, p + 6, a') && s[a'] == '{' && NoneIs(s, a' + 1, e - 1, '}');
    SkipSpaceTo(s, p + 6, a');
    IndexOfCharAt(s, '}', a' + 1, e - 1);
  }

  /** The leftmost position at or after `from` where the style pattern matches, or -1. */
  function FindStyle(s: string, from: nat): (p: int)
    requires from <= |s|
    ensures p == -1 || (from <= p <= |s| && StyleMatchAt(s, p) >= 0)
    ensures forall q :: from <= q <= |s| && (p == -1 || q < p) ==> StyleMatchAt(s, q) < 0
    decreases |s| - from
  {
    if StyleMatchAt(s, from) >= 0 then from
    else if from == |s| then -1
    else FindStyle(s, from + 1)
  }

  /** The match the engine reports for the style pattern: the one that starts leftmost. */
  ghost predicate IsLeftmostStyle(s: string, p: int, e: int) {
    IsStyleMatch(s, p, e) && forall q, e' :: IsStyleMatch(s, q, e') ==> p <= q
  }

  /** `s.replace(/style:\s*\{[^}]*\}/, style)` with `style` inserted literally: the leftmost
      match becomes `style`; without a match the line is unchanged. */
  function ReplaceStyle(s: string, style: string): (r: string)
    ensures (forall p, e :: !IsStyleMatch(s, p, e)) ==> r == s
    ensures forall p, e :: IsStyleMatch(s, p, e) ==>
      exists p', e' :: IsLeftmostStyle(s, p', e') && r == s[..p'] + style + s[e'..]
  {
    var p := FindStyle(s, 0);
    if p < 0 then
      assert forall q, e :: IsStyleMatch(s, q, e) ==> q <= |s| && StyleMatchAt(s, q) == e;
      s
    else
      var e := StyleMatchAt(s, p);
      assert IsLeftmostStyle(s, p, e) by {
        forall q, e' | IsStyleMatch(s, q, e') ensures p <= q {
          assert StyleMatchAt(s, q) == e';
        }
      }
      s[..p] + style + s[e..]
  }

  // ---------------------------------------------------------------------------------
  // `/}\s*,\s*(['"`])(.+?)\1\s*\),?/` (component-editor.tsx:527) and the replacing pattern
  // `/(}\s*,\s*)(['"`]).+?\2(\s*\),?)/` (component-editor.tsx:531), which has the same
  // language and the same quantifiers and so matches at the same place.

  /** `\s*\),?` at `i`: where it ends, or -1. */
  function ParenTail(s: string, i: nat): (e: int)
    requires i <= |s|
    ensures e == -1 || i < e <= |s|
  {
    var c := SkipSpace(s, i);
    if c < |s| && s[c] == ')' then (if c + 1 < |s| && s[c + 1] == ',' then c + 2 else c + 1)
    else -1
  }

  /** The language of `\s*\),?` with `,?` taking the comma when there is one. */
  ghost predicate IsParenTail(s: string, i: int, e: int) {
    0 <= i <= e <= |s| &&
    exists c :: i <= c < e && AllSpace(s, i, c) && s[c] == ')' &&
      ((e == c + 2 && s[c + 1] == ',') || (e == c + 1 && (e == |s| || s[e] != ',')))
  }

  lemma ParenTailIsTail(s: string, i: nat)
    requires i <= |s|
    ensures ParenTail(s, i) >= 0 ==> IsParenTail(s, i, ParenTail(s, i))
    ensures forall e :: IsParenTail(s, i, e) ==> e == ParenTail(s, i)
  {
    SkipSpaceStops(s, i);
    forall e | IsParenTail(s, i, e) ensures e == ParenTail(s, i) {
      var c' :| i <= c' < e && AllSpace(s, i, c') && s[c'] == ')' &&
        ((e == c' + 2 && s[c' + 1] == ',') || (e == c' + 1 && (e == |s| || s[e] != ',')));
      SkipSpaceTo(s, i, c');
    }
  }

  /** `s[i..j]` is `\s*,\s*`. */
  ghost predicate CommaSep(s: string, i: int, j: int) {
    exists a :: 0 <= i <= a < j <= |s| && AllSpace(s, i, a) && s[a] == ',' && AllSpace(s, a + 1, j)
  }

  /** `.` matches every character of `s[i..j]`. */
  predicate NoLineBreak(s: string, i: int, j: int)
    requires 0 <= i <= j <= |s|
    decreases j - i
  {
    i == j || (NoLineBreak(s, i, j - 1) && !IsLineTerminator(s[j - 1]))
  }

  lemma {:induction false} NoLineBreakAt(s: string, i: int, j: int, k: int)
    requires 0 <= i <= k < j <= |s| && NoLineBreak(s, i, j)
    ensures !IsLineTerminator(s[k])
    decreases j - k
  {
    if k < j - 1 {
      NoLineBreakAt(s, i, j - 1, k);
    }
  }

  /** The closing quote at `c` completes `(.+?)\1\s*\),?` after the opening quote at `b`. */
  predicate ClosesAt(s: string, b: nat, c: int)
    requires b < |s|
  {
    b + 1 < c < |s| && s[c] == s[b] && NoLineBreak(s, b + 1, c)
    && ParenTail(s, c + 1) >= 0
  }

  /** The lazy `.+?`: try closing quotes at `e`, `e + 1`, ... and take the first that completes
      the match, or -1; `.` stops at a line terminator. */
  function LazyClose(s: string, b: nat, e: nat): (c: int)
    requires b < |s| && b + 2 <= e
    requires e - 1 <= |s| && NoLineBreak(s, b + 1, e - 1)
    ensures c >= 0 ==> e <= c && ClosesAt(s, b, c)
    ensures forall c' :: e <= c' && (c < 0 || c' < c) ==> !ClosesAt(s, b, c')
    decreases |s| - e
  {
    if e >= |s| then -1
    else if IsLineTerminator(s[e - 1]) then
      assert forall c' :: e <= c' ==> !ClosesAt(s, b, c') by {
        forall c' | e <= c' && ClosesAt(s, b, c') ensures false {
          NoLineBreakAt(s, b + 1, c', e - 1);
        }
      }
      -1
    else if s[e] == s[b] && ParenTail(s, e + 1) >= 0 then e
    else LazyClose(s, b, e + 1)
  }

  /** `}\s*,\s*(['"`])` spans `s[p..b + 1]`: the head of the trailing-argument pattern, up to
      and including the opening quote at `b`. */
  ghost predicate IsTrailingHead(s: string, p: int, b: int) {
    0 <= p < b < |s| && s[p] == '}' && CommaSep(s, p + 1, b) && IsQuote(s[b])
  }

  /** The language of the trailing-argument pattern: the head, at least one character that is
      not a line terminator, the same quote again, then `\s*\),?`. */
  ghost predicate IsTrailingMatch(s: string, m: Quoted) {
    IsTrailingHead(s, m.start, m.open) && m.open + 1 < m.close < |s| && s[m.close] == s[m.open] &&
    NoLineBreak(s, m.open + 1, m.close) && IsParenTail(s, m.close + 1, m.end)
  }

  /** Where the head ends when the engine tries position `p`: the index of the opening quote,
      or -1 (`TrailingHeadSound`, `TrailingHeadComplete`). */
  function TrailingHead(s: string, p: nat): (b: int)
    requires p <= |s|
    ensures b >= 0 ==> p < b < |s| && IsQuote(s[b])
  {
    if p < |s| && s[p] == '}' then
      var a := SkipSpace(s, p + 1);
      if a < |s| && s[a] == ',' then
        var b := SkipSpace(s, a + 1);
        if b < |s| && IsQuote(s[b]) then b else -1
      else -1
    else -1
  }

  lemma TrailingHeadSound(s: string, p: nat)
    requires p <= |s| && TrailingHead(s, p) >= 0
    ensures IsTrailingHead(s, p, TrailingHead(s, p))
  {
    var a := SkipSpace(s, p + 1);
    SkipSpaceStops(s, p + 1);
    SkipSpaceStops(s, a + 1);
    assert CommaSep(s, p + 1, SkipSpace(s, a + 1));
  }

  /** Each white-space run of the head ends where the engine's greedy `\s*` stops, so the
      head the engine finds is this one. */
  lemma TrailingHeadComplete(s: string, p: nat, b: int)
    requires p <= |s| && IsTrailingHead(s, p, b)
    ensures TrailingHead(s, p) == b
  {
    var a' :| 0 <= p + 1 <= a' < b <= |s| && AllSpace(s, p + 1, a') && s[a'] == ',' && AllSpace(s, a' + 1, b);
    SkipSpaceTo(s, p + 1, a');
    SkipSpaceTo(s, a' + 1, b);
  }

  /** The match the engine finds when it tries position `p`, or None (`TrailingMatchAtSpec`). */
  function TrailingMatchAt(s: string, p: nat): (r: Option<Quoted>)
    requires p <= |s|
    ensures r.Some? ==> (r.value.start == p && p < r.value.open < r.value.close < r.value.end <= |s| &&
      IsQuote(s[r.value.open]) && s[r.value.close] == s[r.value.open])
  {
    var b := TrailingHead(s, p);
    if b < 0 then None
    else
      var c := LazyClose(s, b, b + 2);
      if c < 0 then None else Some(Quoted(p, b, c, ParenTail(s, c + 1)))
  }

  /** `r` is what the engine finds when it tries position `p`: among the matches starting at
      `p`, the one with the nearest closing quote (the lazy `.+?`), or None when none starts there. */
  ghost predicate TrailingChoice(s: string, p: int, r: Option<Quoted>) {
    match r
    case None => forall m: Quoted :: m.start == p ==> !IsTrailingMatch(s, m)
    case Some(m) => (m.start == p && IsTrailingMatch(s, m) &&
      forall m': Quoted :: m'.start == p && IsTrailingMatch(s, m') ==> m.close < m'.close || m' == m)
  }

  /** The matcher finds the engine's match at `p`, and finds none exactly when none starts there. */
  lemma TrailingMatchAtSpec(s: string, p: nat)
    requires p <= |s|
    ensures TrailingChoice(s, p, TrailingMatchAt(s, p))
  {
    var b := TrailingHead(s, p);
    if b < 0 {
      TrailingNoHead(s, p);
    } else if LazyClose(s, b, b + 2) < 0 {
      TrailingNoClose(s, p, b);
    } else {
      TrailingClosed(s, p, b, LazyClose(s, b, b + 2));
    }
  }

  /** Without the head at `p` nothing matches there. */
  lemma TrailingNoHead(s: string, p: nat)
    requires p <= |s| && TrailingHead(s, p) < 0
    ensures TrailingChoice(s, p, TrailingMatchAt(s, p))
  {
    forall m: Quoted | m.start == p && IsTrailingMatch(s, m) ensures false {
      TrailingHeadComplete(s, p, m.open);
    }
  }

  /** With the head but no closing quote that completes it, nothing matches at `p`. */
  lemma TrailingNoClose(s: string, p: nat, b: nat)
    requires p <= |s| && b == TrailingHead(s, p) && LazyClose(s, b, b + 2) < 0
    ensures TrailingChoice(s, p, TrailingMatchAt(s, p))
  {
    TrailingHeadSound(s, p);
    TrailingNearest(s, p, b, -1);
  }

  /** With the head and the nearest closing quote `c`, the matcher's match is the engine's. */
  lemma TrailingClosed(s: string, p: nat, b: nat, c: nat)
    requires p <= |s| && b == TrailingHead(s, p) && c == LazyClose(s, b, b + 2)
    ensures TrailingChoice(s, p, TrailingMatchAt(s, p))
  {
    TrailingHeadSound(s, p);
    TrailingFound(s, p, b, c);
    TrailingNearest(s, p, b, c);
    assert TrailingMatchAt(s, p) == Some(Quoted(p, b, c, ParenTail(s, c + 1)));
  }

  /** The head and a closing quote at `c` make a match. */
  lemma TrailingFound(s: string, p: nat, b: nat, c: nat)
    requires IsTrailingHead(s, p, b) && b + 2 <= c && ClosesAt(s, b, c)
    ensures IsTrailingMatch(s, Quoted(p, b, c, ParenTail(s, c + 1)))
  {
    ParenTailIsTail(s, c + 1);
  }

  /** Every match starting at `p` opens at the matcher's quote `b` and closes at or after the
      first closing quote `c`; closing at `c`, it is the matcher's. */
  lemma TrailingNearest(s: string, p: nat, b: nat, c: int)
    requires p <= |s| && b == TrailingHead(s, p)
    requires forall c' :: b + 2 <= c' && (c < 0 || c' < c) ==> !ClosesAt(s, b, c')
    ensures forall m: Quoted :: m.start == p && IsTrailingMatch(s, m) ==>
      0 <= c <= m.close && (c == m.close ==> m.open == b && m.end == ParenTail(s, c + 1))
  {
    forall m: Quoted | m.start == p && IsTrailingMatch(s, m)
      ensures 0 <= c <= m.close && (c == m.close ==> m.open == b && m.end == ParenTail(s, c + 1))
    {
      TrailingHeadComplete(s, p, m.open);
      TrailingMatchCloses(s, m);
    }
  }

  /** A match's closing quote completes it, and `\s*\),?` ends it where the matcher says. */
  lemma TrailingMatchCloses(s: string, m: Quoted)
    requires IsTrailingMatch(s, m)
    ensures ClosesAt(s, m.open, m.close) && m.end == ParenTail(s, m.close + 1)
  {
    ParenTailIsTail(s, m.close + 1);
  }

  /** The leftmost position at or after `from` where the trailing pattern matches. */
  function FindTrailing(s: string, from: nat): (r: Option<Quoted>)
    requires from <= |s|
    ensures r.Some? ==> from <= r.value.start <= |s| && Some(r.value) == TrailingMatchAt(s, r.value.start)
    ensures forall q :: from <= q <= |s| && (r.None? || q < r.value.start) ==> TrailingMatchAt(s, q).None?
    decreases |s| - from
  {
    var m := TrailingMatchAt(s, from);
    if m.Some? then m
    else if from == |s| then None
    else FindTrailing(s, from + 1)
  }

  /** `m` is the match the engine reports for the trailing pattern: nothing matches further
      left, and at its start the lazy quantifier stops at the first closing quote it can. */
  ghost predicate IsLeftmostTrailing(s: string, m: Quoted) {
    IsTrailingMatch(s, m) &&
    (forall m': Quoted :: IsTrailingMatch(s, m') ==> m.start < m'.start || (m.start == m'.start && m.close <= m'.close)) &&
    (forall m': Quoted :: IsTrailingMatch(s, m') && m'.start == m.start && m'.close == m.close ==> m' == m)
  }

  /** The match `s.match` / `s.replace` use for the trailing pattern, or None when the line
      does not match it anywhere (`TrailingLeftmostCorrect`). */
  function LeftmostTrailing(s: string): (r: Option<Quoted>)
    ensures r.Some? ==> (r.value.start <= r.value.open < r.value.close < r.value.end <= |s| &&
      IsQuote(s[r.value.open]) && s[r.value.close] == s[r.value.open])
  {
    FindTrailing(s, 0)
  }

  lemma TrailingMatchBounds(s: string, m: Quoted)
    requires IsTrailingMatch(s, m)
    ensures m.start <= m.open < m.close < m.end <= |s| && IsQuote(s[m.open]) && s[m.close] == s[m.open]
  {
  }

  /** The search finds the match the engine reports, and finds none only when the pattern
      matches nowhere in the line. */
  lemma TrailingLeftmostCorrect(s: string)
    ensures LeftmostTrailing(s).Some? ==> IsLeftmostTrailing(s, LeftmostTrailing(s).value)
    ensures LeftmostTrailing(s).None? ==> forall m: Quoted :: !IsTrailingMatch(s, m)
  {
    var r := FindTrailing(s, 0);
    if r.Some? {
      TrailingMatchAtSpec(s, r.value.start);
    }
    forall m': Quoted | IsTrailingMatch(s, m')
      ensures r.Some? && (r.value.start < m'.start || (r.value.start == m'.start && (r.value.close < m'.close || m' == r.value)))
    {
      assert m'.start <= |s|;
      TrailingMatchAtSpec(s, m'.start);
    }
  }

  /** The match the engine reports is determined by the line. */
  lemma LeftmostTrailingUnique(s: string, m: Quoted, m': Quoted)
    requires IsLeftmostTrailing(s, m) && IsLeftmostTrailing(s, m')
    ensures m == m'
  {
    assert m.start <= m'.start && m'.start <= m.start;
    assert m.close <= m'.close && m'.close <= m.close;
  }

  /** The engine's match is the one the search finds. */
  lemma LeftmostTrailingIs(s: string, m: Quoted)
    requires IsLeftmostTrailing(s, m)
    ensures LeftmostTrailing(s) == Some(m)
  {
    TrailingLeftmostCorrect(s);
    LeftmostTrailingUnique(s, LeftmostTrailing(s).value, m);
  }

  /** Whether the line matches the trailing-argument pattern anywhere
      (`newBlock[i].match(...)` is not null). */
  predicate HasTrailingArg(line: string) {
    LeftmostTrailing(line).Some?
  }

  lemma HasTrailingArgIff(line: string)
    ensures HasTrailingArg(line) <==> exists m: Quoted :: IsTrailingMatch(line, m)
  {
    TrailingLeftmostCorrect(line);
    if LeftmostTrailing(line).Some? {
      assert IsTrailingMatch(line, LeftmostTrailing(line).value);
    }
  }

  /** The text update of component-editor.tsx:531 with `text` inserted literally: only the
      contents of the engine's match's quoted literal change; the quote characters and the rest
      of the line stay as they were. */
  function ReplaceTrailingText(s: string, text: string): string {
    match LeftmostTrailing(s)
    case None => s
    case Some(m) => WithContents(s, m, text)
  }

  /** A line without a match is left as it is; otherwise the contents of the leftmost match's
      quoted literal become the text. */
  lemma ReplaceTrailingTextSpec(s: string, text: string)
    ensures (forall m: Quoted :: !IsTrailingMatch(s, m)) ==> ReplaceTrailingText(s, text) == s
    ensures forall m: Quoted :: IsLeftmostTrailing(s, m) ==> ReplaceTrailingText(s, text) == WithContents(s, m, text)
  {
    TrailingLeftmostCorrect(s);
    match LeftmostTrailing(s)
    case None =>
    case Some(m) =>
      forall m': Quoted | IsLeftmostTrailing(s, m') ensures m' == m {
        LeftmostTrailingIs(s, m');
      }
  }

  /** `s` with the contents of the quoted literal of `m` replaced by `text`. */
  function WithContents(s: string, m: Quoted, text: string): string
    requires m.open < m.close <= |s|
  {
    s[..m.open + 1] + text + s[m.close..]
  }

  // ---------------------------------------------------------------------------------
  // `/(React\.createElement\s*\([^,]+,\s*\{[^}]*\},\s*)(['"`])[^'"`]*\2/s`
  // (component-editor.tsx:552), applied to the whole joined block.

  /** `s.search(/['"`]/)` from `from`: the first quote character at or after it, or -1. */
  function IndexOfQuote(s: string, from: nat): (r: int)
    ensures r == -1 || (from <= r < |s| && IsQuote(s[r]))
    decreases |s| - from
  {
    if from >= |s| then -1
    else if IsQuote(s[from]) then from
    else IndexOfQuote(s, from + 1)
  }

  /** No character of `s[i..j]` is a quote character. */
  predicate NoQuote(s: string, i: int, j: int)
    requires 0 <= i <= j <= |s|
    decreases j - i
  {
    i == j || (!IsQuote(s[i]) && NoQuote(s, i + 1, j))
  }

  /** The search stops at the first quote character. */
  lemma {:induction false} IndexOfQuoteFirst(s: string, from: nat)
    ensures IndexOfQuote(s, from) >= 0 ==> NoQuote(s, from, IndexOfQuote(s, from))
    decreases |s| - from
  {
    if from < |s| && !IsQuote(s[from]) {
      IndexOfQuoteFirst(s, from + 1);
    }
  }

  /** The quoted literal of a match ends at the first quote character after it opens. */
  lemma {:induction false} IndexOfQuoteAt(s: string, i: nat, j: int)
    requires i <= j < |s| && IsQuote(s[j]) && NoQuote(s, i, j)
    ensures IndexOfQuote(s, i) == j
    decreases j - i
  {
    if i < j {
      IndexOfQuoteAt(s, i + 1, j);
    }
  }

  /** The part of the inline pattern between the call token and the quoted literal, from
      `i` on, with the positions its runs end at: `a` the `(`, `c` the comma after the first
      argument, `d` the `{`, `f` the `}` of the props object, and `b` the opening quote. */
  ghost predicate InlineHead(s: string, i: int, a: int, c: int, d: int, f: int, b: int) {
    0 <= i <= a && a + 1 < c < d < f && f + 1 < b < |s| &&
    AllSpace(s, i, a) && s[a] == '(' &&
    NoneIs(s, a + 1, c, ',') && s[c] == ',' &&
    AllSpace(s, c + 1, d) && s[d] == '{' &&
    NoneIs(s, d + 1, f, '}') && s[f] == '}' && s[f + 1] == ',' &&
    AllSpace(s, f + 2, b)
  }

  /** `\s*\([^,]+,\s*\{[^}]*\},\s*` spans `s[i..b]`. */
  ghost predicate InlineArgsMatch(s: string, i: int, b: int) {
    exists a, c, d, f :: InlineHead(s, i, a, c, d, f, b)
  }

  /** The language of the inline pattern: the call token, `\s*(`, a non-empty first argument
      without commas, a comma, `\s*{`, a props object without `}`, `},`, white space, then a
      quoted literal without quote characters inside. */
  ghost predicate IsInlineMatch(s: string, m: Quoted) {
    OccursAt(s, CallToken, m.start) && m.open < m.close < |s| && m.end == m.close + 1 &&
    InlineArgsMatch(s, m.start + |CallToken|, m.open) &&
    IsQuote(s[m.open]) && s[m.close] == s[m.open] &&
    NoQuote(s, m.open + 1, m.close)
  }

  /** Where the part of the inline pattern after the call token ends when the engine tries it
      at `i`: the index of the opening quote, or -1. */
  function InlineArgs(s: string, i: nat): (b: int)
    requires i <= |s|
    ensures b >= 0 ==> i <= b < |s| && IsQuote(s[b])
  {
    var a := SkipSpace(s, i);
    if !(a < |s| && s[a] == '(') then -1
    else
      var c := IndexOfChar(s, ',', a + 1);
      if c < a + 2 then -1
      else
        var d := SkipSpace(s, c + 1);
        if !(d < |s| && s[d] == '{') then -1
        else
          var f := IndexOfChar(s, '}', d + 1);
          if !(f >= 0 && f + 1 < |s| && s[f + 1] == ',') then -1
          else
            var b := SkipSpace(s, f + 2);
            if b < |s| && IsQuote(s[b]) then b else -1
  }

  /** Where the head of the inline pattern ends when the engine tries position `p`: the index
      of the opening quote, or -1. */
  function InlineHeadEnd(s: string, p: nat): (b: int)
    requires p <= |s|
    ensures b >= 0 ==> p < b < |s| && IsQuote(s[b])
  {
    if !OccursAt(s, CallToken, p) then -1 else InlineArgs(s, p + |CallToken|)
  }

  /** The match the engine finds at `p`, or None. */
  function InlineMatchAt(s: string, p: nat): Option<Quoted>
    requires p <= |s|
  {
    var b := InlineHeadEnd(s, p);
    if b < 0 then None
    else
      var e := IndexOfQuote(s, b + 1);
      if e >= 0 && s[e] == s[b] then Some(Quoted(p, b, e, e + 1)) else None
  }

  /** The pattern has no lazy part and each greedy run is followed by a character it cannot
      take, so at most one match starts at `p`, and `InlineMatchAt` finds it. */
  lemma InlineMatchAtIsMatch(s: string, p: nat)
    requires p <= |s|
    ensures InlineMatchAt(s, p).Some? ==>
      InlineMatchAt(s, p).value.start == p && IsInlineMatch(s, InlineMatchAt(s, p).value)
    ensures forall m: Quoted :: m.start == p && IsInlineMatch(s, m) ==> InlineMatchAt(s, p) == Some(m)
  {
    InlineMatchAtSound(s, p);
    forall m: Quoted | m.start == p && IsInlineMatch(s, m) ensures InlineMatchAt(s, p) == Some(m) {
      InlineMatchAtComplete(s, m);
    }
  }

  lemma InlineArgsSound(s: string, i: nat)
    requires i <= |s| && InlineArgs(s, i) >= 0
    ensures InlineArgsMatch(s, i, InlineArgs(s, i))
  {
    var a := SkipSpace(s, i);
    var c := IndexOfChar(s, ',', a + 1);
    var d := SkipSpace(s, c + 1);
    var f := IndexOfChar(s, '}', d + 1);
    SkipSpaceStops(s, i);
    IndexOfCharFirst(s, ',', a + 1);
    SkipSpaceStops(s, c + 1);
    IndexOfCharFirst(s, '}', d + 1);
    SkipSpaceStops(s, f + 2);
    assert InlineHead(s, i, a, c, d, f, InlineArgs(s, i));
  }

  lemma InlineMatchAtSound(s: string, p: nat)
    requires p <= |s|
    ensures InlineMatchAt(s, p).Some? ==>
      InlineMatchAt(s, p).value.start == p && IsInlineMatch(s, InlineMatchAt(s, p).value)
  {
    var b := InlineHeadEnd(s, p);
    if b >= 0 {
      InlineArgsSound(s, p + |CallToken|);
      IndexOfQuoteFirst(s, b + 1);
    }
  }

  lemma InlineMatchAtComplete(s: string, m: Quoted)
    requires m.start <= |s| && IsInlineMatch(s, m)
    ensures InlineMatchAt(s, m.start) == Some(m)
  {
    InlineArgsOfMatch(s, m);
    IndexOfQuoteAt(s, m.open + 1, m.close);
    InlineMatchAtFrom(s, m.start, m.open, m.close);
  }

  /** Each run of the head ends where the engine's greedy quantifier stops, so the head
      the engine finds is this one. */
  lemma InlineHeadPositions(s: string, i: nat, a: int, c: int, d: int, f: int, b: int)
    requires InlineHead(s, i, a, c, d, f, b) && IsQuote(s[b])
    ensures InlineArgs(s, i) == b
  {
    SkipSpaceTo(s, i, a);
    IndexOfCharAt(s, ',', a + 1, c);
    SkipSpaceTo(s, c + 1, d);
    IndexOfCharAt(s, '}', d + 1, f);
    SkipSpaceTo(s, f + 2, b);
  }

  lemma InlineArgsOfMatch(s: string, m: Quoted)
    requires IsInlineMatch(s, m)
    ensures InlineArgs(s, m.start + |CallToken|) == m.open
  {
    var i := m.start + |CallToken|;
    var a, c, d, f :| InlineHead(s, i, a, c, d, f, m.open);
    InlineHeadPositions(s, i, a, c, d, f, m.open);
  }

  lemma InlineMatchAtFrom(s: string, p: nat, b: nat, e: nat)
    requires p <= |s| && OccursAt(s, CallToken, p) && InlineArgs(s, p + |CallToken|) == b
    requires b < e < |s| && IndexOfQuote(s, b + 1) == e && s[e] == s[b]
    ensures InlineMatchAt(s, p) == Some(Quoted(p, b, e, e + 1))
  {
  }

  /** The leftmost position at or after `from` where the inline pattern matches. */
  function FindInline(s: string, from: nat): (r: Option<Quoted>)
    requires from <= |s|
    ensures r.Some? ==> from <= r.value.start <= |s| && Some(r.value) == InlineMatchAt(s, r.value.start)
    ensures forall q :: from <= q <= |s| && (r.None? || q < r.value.start) ==> InlineMatchAt(s, q).None?
    decreases |s| - from
  {
    var m := InlineMatchAt(s, from);
    if m.Some? then m
    else if from == |s| then None
    else FindInline(s, from + 1)
  }

  ghost predicate IsLeftmostInline(s: string, m: Quoted) {
    IsInlineMatch(s, m) && forall m': Quoted :: IsInlineMatch(s, m') ==> m.start < m'.start || m' == m
  }

  /** The match `s.replace` uses for the inline pattern, or None when the text does not match
      it anywhere (`InlineLeftmostCorrect`). */
  function LeftmostInline(s: string): (r: Option<Quoted>)
    ensures r.Some? ==> (r.value.start < r.value.open < r.value.close < r.value.end <= |s| &&
      r.value.end == r.value.close + 1 && IsQuote(s[r.value.open]) && s[r.value.close] == s[r.value.open])
  {
    var r := FindInline(s, 0);
    if r.None? then r
    else
      InlineMatchAtIsMatch(s, r.value.start);
      InlineMatchBounds(s, r.value);
      r
  }

  /** The search finds the match the engine reports, and finds none only when the pattern
      matches nowhere in the text. */
  lemma InlineLeftmostCorrect(s: string)
    ensures LeftmostInline(s).Some? ==> IsLeftmostInline(s, LeftmostInline(s).value)
    ensures LeftmostInline(s).None? ==> forall m: Quoted :: !IsInlineMatch(s, m)
  {
    var r := FindInline(s, 0);
    if r.Some? {
      InlineMatchAtIsMatch(s, r.value.start);
    }
    forall m': Quoted | IsInlineMatch(s, m') ensures r.Some? && (r.value.start < m'.start || m' == r.value) {
      assert m'.start <= |s|;
      InlineMatchAtIsMatch(s, m'.start);
    }
  }

  lemma InlineMatchBounds(s: string, m: Quoted)
    requires IsInlineMatch(s, m)
    ensures m.start < m.open < m.close < m.end <= |s|
  {
    var a, c, d, f :| InlineHead(s, m.start + |CallToken|, a, c, d, f, m.open);
  }

  /** The regular-expression fallback of component-editor.tsx:551-554 with `text` inserted
      literally: the engine's match's quoted literal becomes `'text'` (single quotes whatever
      quote it had), and everything outside that literal is unchanged. */
  function ReplaceInlineText(s: string, text: string): string {
    match LeftmostInline(s)
    case None => s
    case Some(m) => WithLiteral(s, m, text)
  }

  /** A text without a match is left as it is; otherwise the leftmost match's quoted literal
      becomes the text in single quotes. */
  lemma ReplaceInlineTextSpec(s: string, text: string)
    ensures (forall m: Quoted :: !IsInlineMatch(s, m)) ==> ReplaceInlineText(s, text) == s
    ensures forall m: Quoted :: IsLeftmostInline(s, m) ==> ReplaceInlineText(s, text) == WithLiteral(s, m, text)
  {
    InlineLeftmostCorrect(s);
  }

  /** `s` with the quoted literal of `m` replaced by `text` in single quotes. */
  function WithLiteral(s: string, m: Quoted, text: string): string
    requires m.open <= m.close < |s|
  {
    s[..m.open] + "'" + text + "'" + s[m.close + 1..]
  }
}
