/** What the editor's `replace` calls do as written: a string replacement is not inserted
    literally but expanded first, so `$` sequences in the user's text are read as substitution
    patterns. The model's editor uses the literal insertions of module Patterns; the lemmas here
    relate the two. */
module Substitution {
  import opened Text
  import opened Patterns

  // `String.prototype.replace` with a string replacement does not insert it literally: it
  // expands `$$`, `$&`, `` $` ``, `$'` and `$n` / `$nn` first (GetSubstitution, section 22.1.3.19.1
  // of ECMA-262). The editor builds its replacement templates from the user's text.

  /** The first reference of a non-empty template `t` for a match `s[pos..end]`: what it
      expands to, and how many characters of the template it takes. */
  function Reference(t: string, s: string, pos: nat, end: nat, caps: seq<string>): (r: (string, nat))
    requires t != [] && pos <= end <= |s|
    ensures 1 <= r.1 <= |t|
  {
    if t[0] != '$' || |t| == 1 then ([t[0]], 1)
    else if t[1] == '$' then ("$", 2)
    else if t[1] == '`' then (s[..pos], 2)
    else if t[1] == '&' then (s[pos..end], 2)
    else if t[1] == '\'' then (s[end..], 2)
    else if IsDigit(t[1]) then
      var two := if |t| >= 3 && IsDigit(t[2]) then 10 * DigitValue(t[1]) + DigitValue(t[2]) else -1;
      var len := if 0 <= two <= |caps| then 3 else 2;
      var index := if len == 3 then two else DigitValue(t[1]);
      (if 1 <= index <= |caps| then caps[index - 1] else t[..len], len)
    else ([t[0]], 1)
  }

  /** The expansion of template `t`, reference by reference. */
  function Substitute(t: string, s: string, pos: nat, end: nat, caps: seq<string>): string
    requires pos <= end <= |s|
    decreases |t|
  {
    if t == [] then []
    else
      var r := Reference(t, s, pos, end, caps);
      r.0 + Substitute(t[r.1..], s, pos, end, caps)
  }

  /** A template without `$` expands to itself, in front of whatever follows it. */
  lemma {:induction false} SubstituteLiteral(x: string, y: string, s: string, pos: nat, end: nat, caps: seq<string>)
    requires pos <= end <= |s| && '$' !in x
    ensures Substitute(x + y, s, pos, end, caps) == x + Substitute(y, s, pos, end, caps)
  {
    if x == [] {
      assert x + y == y;
    } else {
      var t := x + y;
      assert t[0] == x[0] && t[0] != '$' && t[1..] == x[1..] + y;
      assert Reference(t, s, pos, end, caps) == ([x[0]], 1);
      SubstituteLiteral(x[1..], y, s, pos, end, caps);
      assert x == [x[0]] + x[1..];
      assert [x[0]] + (x[1..] + Substitute(y, s, pos, end, caps)) == x + Substitute(y, s, pos, end, caps);
    }
  }

  /** `$n` followed by a non-digit, for a capture that exists, expands to that capture. */
  lemma SubstituteCapture(d: char, y: string, s: string, pos: nat, end: nat, caps: seq<string>)
    requires IsDigit(d) && 1 <= DigitValue(d) <= |caps| && pos <= end <= |s| && (y == [] || !IsDigit(y[0]))
    ensures Substitute(['$', d] + y, s, pos, end, caps) == caps[DigitValue(d) - 1] + Substitute(y, s, pos, end, caps)
  {
    var t := ['$', d] + y;
    assert t[2..] == y;
    assert Reference(t, s, pos, end, caps) == (caps[DigitValue(d) - 1], 2);
  }

  /** Regrouping a concatenation; it gives the solver the grouping the template lemmas use. */
  lemma Assoc(a: string, b: string, c: string)
    ensures a + b + c == a + (b + c)
  {
  }

  /** `$$` expands to a single `$`. */
  lemma SubstituteDollar(y: string, s: string, pos: nat, end: nat, caps: seq<string>)
    requires pos <= end <= |s|
    ensures Substitute("$$" + y, s, pos, end, caps) == "$" + Substitute(y, s, pos, end, caps)
  {
    assert ("$$" + y)[2..] == y;
    assert Reference("$$" + y, s, pos, end, caps) == ("$", 2);
  }

  /** The prefix up to `i`, the slice up to `j`, and what a replacement puts after them. */
  lemma PrefixJoin(s: string, i: nat, j: nat, x: string, z: string)
    requires i <= j <= |s|
    ensures s[..i] + (s[i..j] + x) + z == s[..j] + x + z
  {
    assert s[..j] == s[..i] + s[i..j];
  }

  /** As `PrefixJoin`, with the character at `j` kept too. */
  lemma PrefixJoinChar(s: string, i: nat, j: nat, x: string, z: string)
    requires i <= j < |s|
    ensures s[..i] + (s[i..j] + ([s[j]] + x)) + z == s[..j + 1] + x + z
  {
    assert s[..j + 1] == s[..i] + s[i..j] + [s[j]];
  }

  /** The suffix from `i` is its first character, the slice up to `j`, and the suffix from `j`. */
  lemma SuffixSplit(s: string, i: nat, j: nat)
    requires i < j <= |s|
    ensures s[i..] == [s[i]] + s[i + 1..j] + s[j..]
  {
    assert s[i..] == [s[i]] + s[i + 1..];
    assert s[i + 1..] == s[i + 1..j] + s[j..];
  }

  /** The capture groups of the replacing pattern at component-editor.tsx:531 for a match `m`. */
  function TrailingCaptures(s: string, m: Quoted): seq<string>
    requires m.start <= m.open < m.close < m.end <= |s|
  {
    [s[m.start..m.open], [s[m.open]], s[m.close + 1..m.end]]
  }

  /** The line after the replacement at component-editor.tsx:531 for the match `m`, as written:
      the template `$1${quote}${text}${quote}$3` is expanded, so `$` sequences in the text are
      read as substitution patterns. */
  function ExpandTrailing(s: string, m: Quoted, text: string): string
    requires m.start <= m.open < m.close < m.end <= |s|
  {
    var q := s[m.open];
    s[..m.start] + Substitute("$1" + [q] + text + [q] + "$3", s, m.start, m.end, TrailingCaptures(s, m)) + s[m.end..]
  }

  /** The text update of component-editor.tsx:531 as written. */
  function ReplaceTrailingTextAsWritten(s: string, text: string): string {
    match LeftmostTrailing(s)
    case None => s
    case Some(m) => ExpandTrailing(s, m, text)
  }

  /** A line without a match is left as it is; otherwise the leftmost match is replaced by the
      expansion of the source's template. */
  lemma ReplaceTrailingTextAsWrittenSpec(s: string, text: string)
    ensures (forall m: Quoted :: !IsTrailingMatch(s, m)) ==> ReplaceTrailingTextAsWritten(s, text) == s
    ensures forall m: Quoted :: IsLeftmostTrailing(s, m) ==> ReplaceTrailingTextAsWritten(s, text) == ExpandTrailing(s, m, text)
  {
    TrailingLeftmostCorrect(s);
    match LeftmostTrailing(s)
    case None =>
    case Some(m) =>
      forall m': Quoted | IsLeftmostTrailing(s, m') ensures m' == m {
        LeftmostTrailingIs(s, m');
      }
  }

  /** The template of component-editor.tsx:531 starts with the first capture and the quote. */
  lemma TrailingTemplate(q: char, text: string, s: string, pos: nat, end: nat, caps: seq<string>)
    requires IsQuote(q) && 1 <= |caps| && pos <= end <= |s|
    ensures Substitute("$1" + [q] + text + [q] + "$3", s, pos, end, caps) ==
      caps[0] + ([q] + Substitute(text + [q] + "$3", s, pos, end, caps))
  {
    var rest := text + [q] + "$3";
    Assoc("$1" + [q], text, [q]);
    Assoc("$1" + [q], text + [q], "$3");
    Assoc("$1", [q], rest);
    SubstituteCapture('1', [q] + rest, s, pos, end, caps);
    SubstituteLiteral([q], rest, s, pos, end, caps);
  }

  /** The template of component-editor.tsx:531 ends with the quote and the third capture. */
  lemma CloseTemplate(q: char, s: string, pos: nat, end: nat, caps: seq<string>)
    requires IsQuote(q) && 3 <= |caps| && pos <= end <= |s|
    ensures Substitute([q] + "$3", s, pos, end, caps) == [q] + caps[2]
  {
    SubstituteLiteral([q], "$3", s, pos, end, caps);
    assert "$3" == ['$', '3'] + [];
    SubstituteCapture('3', [], s, pos, end, caps);
    assert caps[2] + [] == caps[2];
  }

  /** The expansion of the template: the first capture, the quote, the expanded text, the
      quote, the third capture. */
  lemma ExpandTrailingShape(s: string, m: Quoted, text: string)
    requires m.start <= m.open < m.close < m.end <= |s| && IsQuote(s[m.open])
    ensures ExpandTrailing(s, m, text) ==
      s[..m.open + 1] + Substitute(text + [s[m.open]] + "$3", s, m.start, m.end, TrailingCaptures(s, m)) + s[m.end..]
  {
    var q := s[m.open];
    var caps := TrailingCaptures(s, m);
    TrailingTemplate(q, text, s, m.start, m.end, caps);
    PrefixJoinChar(s, m.start, m.open, Substitute(text + [q] + "$3", s, m.start, m.end, caps), s[m.end..]);
  }

  /** The closing part of the template: the quote and the third capture put back the rest. */
  lemma ExpandTrailingClose(s: string, m: Quoted)
    requires m.start <= m.open < m.close < m.end <= |s| && IsQuote(s[m.open]) && s[m.close] == s[m.open]
    ensures Substitute([s[m.open]] + "$3", s, m.start, m.end, TrailingCaptures(s, m)) + s[m.end..] == s[m.close..]
  {
    var caps := TrailingCaptures(s, m);
    assert caps[2] == s[m.close + 1..m.end];
    CloseTemplate(s[m.close], s, m.start, m.end, caps);
    SuffixSplit(s, m.close, m.end);
  }

  /** A text without `$` is inserted as it is. */
  lemma ExpandTrailingLiteral(s: string, m: Quoted, text: string)
    requires m.start <= m.open < m.close < m.end <= |s| && IsQuote(s[m.open]) && s[m.close] == s[m.open]
    requires '$' !in text
    ensures ExpandTrailing(s, m, text) == s[..m.open + 1] + text + s[m.close..]
  {
    ExpandTrailingShape(s, m, text);
    assert text + [s[m.open]] + "$3" == text + ([s[m.open]] + "$3");
    SubstituteLiteral(text, [s[m.open]] + "$3", s, m.start, m.end, TrailingCaptures(s, m));
    ExpandTrailingClose(s, m);
  }

  /** A text of `$$` is inserted as a single `$`. */
  lemma ExpandTrailingDollar(s: string, m: Quoted)
    requires m.start <= m.open < m.close < m.end <= |s| && IsQuote(s[m.open]) && s[m.close] == s[m.open]
    ensures ExpandTrailing(s, m, "$$") == s[..m.open + 1] + "$" + s[m.close..]
  {
    var tail := [s[m.open]] + "$3";
    ExpandTrailingShape(s, m, "$$");
    assert "$$" + [s[m.open]] + "$3" == "$$" + tail;
    SubstituteDollar(tail, s, m.start, m.end, TrailingCaptures(s, m));
    ExpandTrailingClose(s, m);
  }

  /** When the text holds no `$`, the source's update and the literal one agree. */
  lemma TrailingAsWrittenAgrees(s: string, text: string)
    requires '$' !in text
    ensures ReplaceTrailingTextAsWritten(s, text) == ReplaceTrailingText(s, text)
  {
    if LeftmostTrailing(s).Some? {
      var m := LeftmostTrailing(s).value;
      calc {
        ReplaceTrailingTextAsWritten(s, text);
        ExpandTrailing(s, m, text);
        { ExpandTrailingLiteral(s, m, text); }
        s[..m.open + 1] + text + s[m.close..];
        ReplaceTrailingText(s, text);
      }
    }
  }

  /** A text of `$$` comes out as a single `$`: the source's update differs from the literal one
      on every line the trailing pattern matches. */
  lemma TrailingDollarMangled(s: string)
    requires exists m: Quoted :: IsTrailingMatch(s, m)
    ensures ReplaceTrailingTextAsWritten(s, "$$") != ReplaceTrailingText(s, "$$")
  {
    TrailingLeftmostCorrect(s);
    var m := LeftmostTrailing(s).value;
    ExpandTrailingDollar(s, m);
    assert |ReplaceTrailingTextAsWritten(s, "$$")| + 1 == |ReplaceTrailingText(s, "$$")|;
  }

  /** The capture groups of the inline pattern at component-editor.tsx:552 for a match `m`. */
  function InlineCaptures(s: string, m: Quoted): seq<string>
    requires m.start <= m.open < |s|
  {
    [s[m.start..m.open], [s[m.open]]]
  }

  /** The joined block after the replacement at component-editor.tsx:552-553 for the match `m`,
      as written: the template `$1'${text}'` is expanded. */
  function ExpandInline(s: string, m: Quoted, text: string): string
    requires m.start <= m.open < m.close < m.end <= |s|
  {
    s[..m.start] + Substitute("$1'" + text + "'", s, m.start, m.end, InlineCaptures(s, m)) + s[m.end..]
  }

  /** The template of component-editor.tsx:553 starts with the first capture and a quote. */
  lemma InlineTemplate(text: string, s: string, pos: nat, end: nat, caps: seq<string>)
    requires 1 <= |caps| && pos <= end <= |s|
    ensures Substitute("$1'" + text + "'", s, pos, end, caps) == caps[0] + ("'" + Substitute(text + "'", s, pos, end, caps))
  {
    var y := "'" + text + "'";
    assert "$1'" + text + "'" == ['$', '1'] + y;
    SubstituteCapture('1', y, s, pos, end, caps);
    assert y == "'" + (text + "'");
    SubstituteLiteral("'", text + "'", s, pos, end, caps);
  }

  /** The expansion of the template: the first capture, a quote, the expanded text, a quote. */
  lemma ExpandInlineShape(s: string, m: Quoted, text: string)
    requires m.start <= m.open < m.close < m.end <= |s|
    ensures ExpandInline(s, m, text) ==
      s[..m.open] + "'" + Substitute(text + "'", s, m.start, m.end, InlineCaptures(s, m)) + s[m.end..]
  {
    var caps := InlineCaptures(s, m);
    InlineTemplate(text, s, m.start, m.end, caps);
    PrefixJoin(s, m.start, m.open, "'" + Substitute(text + "'", s, m.start, m.end, caps), s[m.end..]);
  }

  /** A text without `$` is inserted as it is. */
  lemma ExpandInlineLiteral(s: string, m: Quoted, text: string)
    requires m.start <= m.open < m.close < m.end <= |s| && m.end == m.close + 1 && '$' !in text
    ensures ExpandInline(s, m, text) == s[..m.open] + "'" + text + "'" + s[m.close + 1..]
  {
    ExpandInlineShape(s, m, text);
    SubstituteLiteral(text + "'", [], s, m.start, m.end, InlineCaptures(s, m));
    assert text + "'" + [] == text + "'";
  }

  /** A text of `$$` is inserted as a single `$`. */
  lemma ExpandInlineDollar(s: string, m: Quoted)
    requires m.start <= m.open < m.close < m.end <= |s|
    ensures ExpandInline(s, m, "$$") == s[..m.open] + "'$'" + s[m.end..]
  {
    var caps := InlineCaptures(s, m);
    ExpandInlineShape(s, m, "$$");
    SubstituteDollar("'", s, m.start, m.end, caps);
    SubstituteLiteral("'", [], s, m.start, m.end, caps);
    assert "'" + [] == "'";
  }

  /** The inline text update of component-editor.tsx:551-554 as written. */
  function ReplaceInlineTextAsWritten(s: string, text: string): string {
    match LeftmostInline(s)
    case None => s
    case Some(m) => ExpandInline(s, m, text)
  }

  /** A text without a match is left as it is; otherwise the leftmost match is replaced by the
      expansion of the source's template. */
  lemma ReplaceInlineTextAsWrittenSpec(s: string, text: string)
    ensures (forall m: Quoted :: !IsInlineMatch(s, m)) ==> ReplaceInlineTextAsWritten(s, text) == s
    ensures forall m: Quoted :: IsLeftmostInline(s, m) ==> ReplaceInlineTextAsWritten(s, text) == ExpandInline(s, m, text)
  {
    InlineLeftmostCorrect(s);
  }

  /** When the text holds no `$`, the source's update and the literal one agree. */
  lemma InlineAsWrittenAgrees(s: string, text: string)
    requires '$' !in text
    ensures ReplaceInlineTextAsWritten(s, text) == ReplaceInlineText(s, text)
  {
    if LeftmostInline(s).Some? {
      var m := LeftmostInline(s).value;
      calc {
        ReplaceInlineTextAsWritten(s, text);
        ExpandInline(s, m, text);
        { ExpandInlineLiteral(s, m, text); }
        s[..m.open] + "'" + text + "'" + s[m.close + 1..];
        ReplaceInlineText(s, text);
      }
    }
  }

  /** A text of `$$` comes out as a single `$` wherever the inline pattern matches. */
  lemma InlineDollarMangled(s: string)
    requires exists m: Quoted :: IsInlineMatch(s, m)
    ensures ReplaceInlineTextAsWritten(s, "$$") != ReplaceInlineText(s, "$$")
  {
    InlineLeftmostCorrect(s);
    var m := LeftmostInline(s).value;
    ExpandInlineDollar(s, m);
    assert |ReplaceInlineTextAsWritten(s, "$$")| + 1 == |ReplaceInlineText(s, "$$")|;
  }
}
