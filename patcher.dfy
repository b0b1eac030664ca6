/** Patching the extracted block of the element's call (component-editor.tsx:480-562): the scan
    that finds the props object, the style line and the text line, then the style update and
    the three text-update strategies tried in order. */
module Patcher {
  import opened Text
  import opened Patterns
  import opened Substitution

  /** The properties the editor writes into the element. */
  datatype Properties = Properties(text: string, color: string, backgroundColor: string, fontSize: int, fontWeight: string)

  // ---------------------------------------------------------------------------------
  // The scan of the block (component-editor.tsx:485-512)

  predicate HasOpen(line: string) {
    Contains(line, "{")
  }

  predicate HasClose(line: string) {
    Contains(line, "}")
  }

  /** `line.trim().startsWith('style:')`. */
  predicate IsStyleLine(line: string) {
    StartsWith(Trim(line), "style:")
  }

  /** `line.trim().startsWith("'")`. */
  predicate IsTextLine(line: string) {
    StartsWith(Trim(line), "'")
  }

  /** `propsStart` after the first `hi` lines: the first line with a `{`, or -1. */
  function PropsStartBelow(b: seq<string>, hi: nat): (r: int)
    requires hi <= |b|
    ensures -1 <= r < hi
  {
    if hi == 0 then -1
    else
      var r := PropsStartBelow(b, hi - 1);
      if r >= 0 then r else if HasOpen(b[hi - 1]) then hi - 1 else -1
  }

  /** `braces` after line `i` of the props object that opens on line `ps`: 1 on the opening
      line, then one more for a line with a `{` and one fewer for a line with a `}`, however
      many each line holds. */
  function Braces(b: seq<string>, ps: nat, i: nat): int
    requires ps <= i < |b|
    decreases i
  {
    if i == ps then 1
    else Braces(b, ps, i - 1) + (if HasOpen(b[i]) then 1 else 0) - (if HasClose(b[i]) then 1 else 0)
  }

  /** `propsEnd` after the first `hi` lines: the first line after `ps` where `braces` is 0, or -1. */
  function PropsEndBelow(b: seq<string>, ps: nat, hi: nat): (r: int)
    requires ps < |b| && hi <= |b|
    ensures r == -1 || ps < r < hi
  {
    if hi <= ps + 1 then -1
    else
      var r := PropsEndBelow(b, ps, hi - 1);
      if r >= 0 then r else if Braces(b, ps, hi - 1) == 0 then hi - 1 else -1
  }

  /** `styleLineIdx` after the first `hi` lines: the last style line among the lines after `ps`
      that the scan meets inside the props object. */
  function StyleBelow(b: seq<string>, ps: nat, hi: nat): (r: int)
    requires ps < |b| && hi <= |b|
    ensures r == -1 || ps < r < hi
  {
    if hi <= ps + 1 then -1
    else if PropsEndBelow(b, ps, hi - 1) < 0 && IsStyleLine(b[hi - 1]) then hi - 1
    else StyleBelow(b, ps, hi - 1)
  }

  /** `textLineIdx` after the first `hi` lines: the first text line once the props object has
      closed, which may be the line that closes it. */
  function TextBelow(b: seq<string>, ps: nat, hi: nat): (r: int)
    requires ps < |b| && hi <= |b|
    ensures r == -1 || ps < r < hi
  {
    if hi <= ps + 1 then -1
    else
      var r := TextBelow(b, ps, hi - 1);
      if r >= 0 then r else if PropsEndBelow(b, ps, hi) >= 0 && IsTextLine(b[hi - 1]) then hi - 1 else -1
  }

  /** What the scan of a block finds; -1 for what it does not find. */
  datatype Layout = Layout(propsStart: int, propsEnd: int, styleLine: int, textLine: int)

  /** The layout of block `b` (`ScanProps`). */
  function LayoutOf(b: seq<string>): (l: Layout)
    ensures -1 <= l.propsStart < |b| && -1 <= l.propsEnd < |b| && -1 <= l.styleLine < |b| && -1 <= l.textLine < |b|
  {
    var ps := PropsStartBelow(b, |b|);
    if ps < 0 then Layout(-1, -1, -1, -1)
    else Layout(ps, PropsEndBelow(b, ps, |b|), StyleBelow(b, ps, |b|), TextBelow(b, ps, |b|))
  }

  /** The scan of component-editor.tsx:485-512. */
  method ScanProps(b: seq<string>) returns (propsStart: int, propsEnd: int, styleLineIdx: int, textLineIdx: int)
    ensures Layout(propsStart, propsEnd, styleLineIdx, textLineIdx) == LayoutOf(b)
  {
    styleLineIdx, textLineIdx := -1, -1;
    var inProps := false;
    propsStart, propsEnd := -1, -1;
    var braces := 0;
    for i := 0 to |b|
      invariant propsStart == PropsStartBelow(b, i)
      invariant propsStart < 0 ==> propsEnd == -1 && styleLineIdx == -1 && textLineIdx == -1 && !inProps
      invariant propsStart >= 0 ==> (propsEnd == PropsEndBelow(b, propsStart, i) &&
        styleLineIdx == StyleBelow(b, propsStart, i) && textLineIdx == TextBelow(b, propsStart, i))
      invariant inProps <==> propsStart >= 0 && propsEnd < 0
      invariant inProps ==> braces == Braces(b, propsStart, i - 1)
      invariant propsEnd < 0 ==> textLineIdx == -1
    {
      var line := b[i];
      if HasOpen(line) && propsStart == -1 {
        propsStart := i;
        braces := 1;
        inProps := true;
        continue;
      }
      if inProps {
        if HasOpen(line) {
          braces := braces + 1;
        }
        if HasClose(line) {
          braces := braces - 1;
        }
        if braces == 0 {
          propsEnd := i;
          inProps := false;
        }
        if IsStyleLine(line) {
          styleLineIdx := i;
        }
      }
      if !inProps && propsEnd != -1 && textLineIdx == -1 && IsTextLine(line) {
        textLineIdx := i;
      }
    }
  }

  // What the layout means.

  /** The props object opens on the first line with a `{`; without one there is no props object. */
  lemma {:induction false} PropsStartFirst(b: seq<string>, hi: nat)
    requires hi <= |b|
    ensures PropsStartBelow(b, hi) >= 0 ==> HasOpen(b[PropsStartBelow(b, hi)])
    ensures forall k :: 0 <= k < hi && (PropsStartBelow(b, hi) < 0 || k < PropsStartBelow(b, hi)) ==> !HasOpen(b[k])
  {
    if hi > 0 {
      PropsStartFirst(b, hi - 1);
    }
  }

  /** The props object closes on the first line after it opens where `braces` is 0; up to that
      line `braces` stays at 1 or more, so the object's span is the first balanced one. */
  lemma {:induction false} PropsEndFirst(b: seq<string>, ps: nat, hi: nat)
    requires ps < |b| && hi <= |b|
    ensures PropsEndBelow(b, ps, hi) >= 0 ==> Braces(b, ps, PropsEndBelow(b, ps, hi)) == 0
    ensures forall k :: ps <= k < hi && (PropsEndBelow(b, ps, hi) < 0 || k < PropsEndBelow(b, ps, hi)) ==>
      Braces(b, ps, k) >= 1
  {
    if hi > ps + 1 {
      PropsEndFirst(b, ps, hi - 1);
      if PropsEndBelow(b, ps, hi - 1) < 0 {
        BracesStep(b, ps, hi - 1);
      }
    }
  }

  /** `braces` moves by at most one per line. */
  lemma BracesStep(b: seq<string>, ps: nat, i: nat)
    requires ps < i < |b|
    ensures Braces(b, ps, i - 1) - 1 <= Braces(b, ps, i) <= Braces(b, ps, i - 1) + 1
  {
  }

  /** Once the props object has closed, later lines do not move its end. */
  lemma {:induction false} PropsEndStable(b: seq<string>, ps: nat, lo: nat, hi: nat)
    requires ps < |b| && lo <= hi <= |b| && PropsEndBelow(b, ps, lo) >= 0
    ensures PropsEndBelow(b, ps, hi) == PropsEndBelow(b, ps, lo)
    decreases hi - lo
  {
    if lo < hi {
      PropsEndStable(b, ps, lo, hi - 1);
    }
  }

  /** Before the props object closes, no earlier line closed it. */
  lemma {:induction false} PropsEndOpen(b: seq<string>, ps: nat, lo: nat, hi: nat)
    requires ps < |b| && lo <= hi <= |b| && PropsEndBelow(b, ps, hi) < 0
    ensures PropsEndBelow(b, ps, lo) < 0
    decreases hi - lo
  {
    if lo < hi {
      PropsEndOpen(b, ps, lo, hi - 1);
    }
  }

  /** The line inside the props object (after the opening line, up to and including the
      closing one) whose trimmed text starts with `style:`. */
  predicate InPropsStyle(b: seq<string>, ps: nat, pe: int, k: int)
    requires ps < |b|
  {
    ps < k < |b| && (pe < 0 || k <= pe) && IsStyleLine(b[k])
  }

  /** The style line found lies in the props object and starts with `style:`. */
  lemma {:induction false} StyleIsInProps(b: seq<string>, ps: nat, hi: nat)
    requires ps < |b| && hi <= |b|
    ensures StyleBelow(b, ps, hi) >= 0 ==> InPropsStyle(b, ps, PropsEndBelow(b, ps, hi), StyleBelow(b, ps, hi))
  {
    if hi > ps + 1 && StyleBelow(b, ps, hi) >= 0 {
      var pe' := PropsEndBelow(b, ps, hi - 1);
      if pe' >= 0 {
        PropsEndStable(b, ps, hi - 1, hi);
        StyleIsInProps(b, ps, hi - 1);
      } else if !IsStyleLine(b[hi - 1]) {
        StyleIsInProps(b, ps, hi - 1);
      }
    }
  }

  /** No line of the props object after the style line found starts with `style:`. */
  lemma {:induction false} NoStyleAfter(b: seq<string>, ps: nat, hi: nat)
    requires ps < |b| && hi <= |b|
    ensures forall k :: k < hi && StyleBelow(b, ps, hi) < k ==> !InPropsStyle(b, ps, PropsEndBelow(b, ps, hi), k)
  {
    if hi > ps + 1 {
      NoStyleAfter(b, ps, hi - 1);
      var pe := PropsEndBelow(b, ps, hi);
      var pe' := PropsEndBelow(b, ps, hi - 1);
      var s := StyleBelow(b, ps, hi);
      if pe' >= 0 {
        PropsEndStable(b, ps, hi - 1, hi);
      } else {
        forall k | k < hi && s < k ensures !InPropsStyle(b, ps, pe, k) {
          if k < hi - 1 {
            assert !InPropsStyle(b, ps, pe', k);
          }
        }
      }
    }
  }

  /** The text line is the first line from the end of the props object on whose trimmed text
      starts with a single quote, and -1 means there is none (or no end). */
  lemma TextFirst(b: seq<string>, ps: nat, hi: nat)
    requires ps < |b| && hi <= |b|
    ensures TextBelow(b, ps, hi) >= 0 ==> (PropsEndBelow(b, ps, hi) >= 0 &&
      PropsEndBelow(b, ps, hi) <= TextBelow(b, ps, hi) && IsTextLine(b[TextBelow(b, ps, hi)]))
    ensures PropsEndBelow(b, ps, hi) >= 0 ==> NoTextBefore(b, PropsEndBelow(b, ps, hi), hi, TextBelow(b, ps, hi))
  {
    if TextBelow(b, ps, hi) >= 0 {
      TextAfterEnd(b, ps, hi);
      PropsEndStable(b, ps, TextBelow(b, ps, hi) + 1, hi);
    }
    if PropsEndBelow(b, ps, hi) >= 0 {
      TextNoneBefore(b, ps, hi);
    }
  }

  /** No line of `b[lo..hi]` before line `t` (any line, when `t` is -1) is a text line. */
  predicate NoTextBefore(b: seq<string>, lo: int, hi: int, t: int)
    requires 0 <= lo && hi <= |b|
  {
    forall k :: lo <= k < hi && (t < 0 || k < t) ==> !IsTextLine(b[k])
  }

  /** A text line was taken only once the props object had closed, and it is a text line. */
  lemma {:induction false} TextAfterEnd(b: seq<string>, ps: nat, hi: nat)
    requires ps < |b| && hi <= |b| && TextBelow(b, ps, hi) >= 0
    ensures PropsEndBelow(b, ps, TextBelow(b, ps, hi) + 1) >= 0 && IsTextLine(b[TextBelow(b, ps, hi)])
  {
    var t := TextBelow(b, ps, hi);
    if TextBelow(b, ps, hi - 1) >= 0 {
      assert t == TextBelow(b, ps, hi - 1);
      TextAfterEnd(b, ps, hi - 1);
    } else {
      assert t == hi - 1 && PropsEndBelow(b, ps, hi) >= 0 && IsTextLine(b[hi - 1]);
    }
  }

  /** A text line is taken only once the props object has closed. */
  lemma TextNeedsEnd(b: seq<string>, ps: nat, hi: nat)
    requires ps < |b| && hi <= |b|
    ensures TextBelow(b, ps, hi) >= 0 ==> PropsEndBelow(b, ps, hi) >= 0
  {
    if TextBelow(b, ps, hi) >= 0 {
      TextAfterEnd(b, ps, hi);
      PropsEndStable(b, ps, TextBelow(b, ps, hi) + 1, hi);
    }
  }

  lemma {:induction false} TextNoneBefore(b: seq<string>, ps: nat, hi: nat)
    requires ps < |b| && hi <= |b| && PropsEndBelow(b, ps, hi) >= 0
    ensures NoTextBefore(b, PropsEndBelow(b, ps, hi), hi, TextBelow(b, ps, hi))
  {
    var pe := PropsEndBelow(b, ps, hi);
    if pe == hi - 1 {
      TextNeedsEnd(b, ps, hi - 1);
    } else {
      TextNoneBefore(b, ps, hi - 1);
    }
  }

  // ---------------------------------------------------------------------------------
  // The style update (component-editor.tsx:514-521)

  /** The style the editor writes, from the four style properties: a style object around the
      four fields. */
  function StyleString(p: Properties): string {
    "style: {" + StyleFields(p) + " }"
  }

  function StyleFields(p: Properties): string {
    " color: '" + p.color + "', backgroundColor: '" + p.backgroundColor + "', fontSize: '" + IntToString(p.fontSize) +
    "px', fontWeight: '" + p.fontWeight + "'"
  }

  /** The number of `{` in `s` minus the number of `}`. */
  function Balance(s: string): int {
    if s == [] then 0
    else Balance(s[..|s| - 1]) + (if s[|s| - 1] == '{' then 1 else if s[|s| - 1] == '}' then -1 else 0)
  }

  predicate NoBrace(s: string) {
    forall k :: 0 <= k < |s| ==> s[k] != '{' && s[k] != '}'
  }

  lemma {:induction false} NoBraceBalance(s: string)
    requires NoBrace(s)
    ensures Balance(s) == 0
  {
    if s != [] {
      NoBraceBalance(s[..|s| - 1]);
    }
  }

  /** The balance of a concatenation is the sum of the parts' balances. */
  lemma {:induction false} BalanceAppend(a: string, b: string)
    ensures Balance(a + b) == Balance(a) + Balance(b)
  {
    if b == [] {
      assert a + b == a;
    } else {
      var ab := a + b;
      assert ab[..|ab| - 1] == a + b[..|b| - 1] && ab[|ab| - 1] == b[|b| - 1];
      BalanceAppend(a, b[..|b| - 1]);
    }
  }

  /** The numeral of the font size holds no brace. */
  lemma IntToStringNoBrace(n: int)
    ensures NoBrace(IntToString(n))
  {
    var d := NatToDecimal(if n < 0 then -n else n);
    if n < 0 {
      assert forall k :: 1 <= k < |IntToString(n)| ==> IntToString(n)[k] == d[k - 1];
    }
  }

  lemma StyleFieldsBalance(p: Properties)
    ensures Balance(StyleFields(p)) == Balance(p.color) + Balance(p.backgroundColor) + Balance(p.fontWeight)
  {
    var a1, a2, a3, a4, a5 := " color: '", "', backgroundColor: '", "', fontSize: '", "px', fontWeight: '", "'";
    var c, bg, n, w := p.color, p.backgroundColor, IntToString(p.fontSize), p.fontWeight;
    NoBraceBalance(a1); NoBraceBalance(a2); NoBraceBalance(a3); NoBraceBalance(a4); NoBraceBalance(a5);
    IntToStringNoBrace(p.fontSize);
    NoBraceBalance(n);
    BalanceAppend(a1, c);
    BalanceAppend(a1 + c, a2);
    BalanceAppend(a1 + c + a2, bg);
    BalanceAppend(a1 + c + a2 + bg, a3);
    BalanceAppend(a1 + c + a2 + bg + a3, n);
    BalanceAppend(a1 + c + a2 + bg + a3 + n, a4);
    BalanceAppend(a1 + c + a2 + bg + a3 + n + a4, w);
    BalanceAppend(a1 + c + a2 + bg + a3 + n + a4 + w, a5);
  }

  /** The style object's own braces pair up: the style string brings only the braces of the
      values written into it. */
  lemma StyleStringBalance(p: Properties)
    ensures Balance(StyleString(p)) == Balance(p.color) + Balance(p.backgroundColor) + Balance(p.fontWeight)
  {
    var f := StyleFields(p);
    StyleFieldsBalance(p);
    assert StyleString(p) == "style: " + "{" + f + " " + "}";
    BracedBalance("style: ", f, " ");
  }

  /** A brace pair around `f` adds nothing to its balance. */
  lemma BracedBalance(pre: string, f: string, post: string)
    requires NoBrace(pre) && NoBrace(post)
    ensures Balance(pre + "{" + f + post + "}") == Balance(f)
  {
    NoBraceBalance(pre);
    NoBraceBalance(post);
    BalanceAppend(pre, "{");
    BalanceAppend(pre + "{", f);
    BalanceAppend(pre + "{" + f, post);
    BalanceAppend(pre + "{" + f + post, "}");
  }

  /** The index of the line the style update writes: the style line, else the closing line of
      the props object. */
  function StyleTarget(l: Layout): int {
    if l.styleLine != -1 then l.styleLine else l.propsEnd
  }

  /** The last character of `s` that is not white space, or None. */
  function LastSolid(s: string): Option<char>
    decreases |s|
  {
    if s == [] then None
    else if IsSpace(s[|s| - 1]) then LastSolid(s[..|s| - 1])
    else Some(s[|s| - 1])
  }

  /** A new property may follow the text `s` of an object literal: past white space, `s` ends
      with the object's `{` or with the `,` after a property. */
  predicate Separated(s: string) {
    LastSolid(s) == Some('{') || LastSolid(s) == Some(',')
  }

  /** The text of block `b` in front of character `i` of line `k`, as the joined block holds it. */
  function TextBefore(b: seq<string>, k: nat, i: nat): string
    requires k < |b| && i <= |b[k]|
  {
    LinesBefore(b[..k]) + b[k][..i]
  }

  /** The comma the inserted style property needs in front of it: none when the text before the
      closing line's first `}` already ends with `{` or `,`. */
  function Separator(b: seq<string>, pe: nat): string
    requires pe < |b|
  {
    var i := IndexOfChar(b[pe], '}', 0);
    if i < 0 || Separated(TextBefore(b, pe, i)) then "" else ","
  }

  /** The style update as written at component-editor.tsx:515-521: the style line's style
      object becomes `style`; without a style line, `  style,` and a line break go in front of
      the first `}` of the closing line; without that line the block is unchanged. */
  function WriteStyleAsWritten(b: seq<string>, l: Layout, style: string): seq<string>
    requires -1 <= l.propsEnd < |b| && -1 <= l.styleLine < |b|
  {
    if l.styleLine != -1 then b[l.styleLine := ReplaceStyle(b[l.styleLine], style)]
    else if l.propsEnd != -1 then b[l.propsEnd := ReplaceFirstChar(b[l.propsEnd], '}', "  " + style + ",\n}")]
    else b
  }

  /** The style update with the inserted property separated from the one before it
      (`Separator`). Only the style line, or the closing line, changes; the insertion changes
      that line's brace balance by the style's own. */
  function WriteStyle(b: seq<string>, l: Layout, style: string): (r: seq<string>)
    requires -1 <= l.propsEnd < |b| && -1 <= l.styleLine < |b|
    ensures |r| == |b|
    ensures forall k :: 0 <= k < |b| && k != StyleTarget(l) ==> r[k] == b[k]
    ensures l.styleLine == -1 && l.propsEnd != -1 && '}' in b[l.propsEnd] ==>
      Balance(r[l.propsEnd]) == Balance(b[l.propsEnd]) + Balance(style)
  {
    if l.styleLine != -1 then b[l.styleLine := ReplaceStyle(b[l.styleLine], style)]
    else if l.propsEnd != -1 then
      var sep := Separator(b, l.propsEnd);
      assert '}' in b[l.propsEnd] ==>
        Balance(ReplaceFirstChar(b[l.propsEnd], '}', sep + "  " + style + ",\n}")) == Balance(b[l.propsEnd]) + Balance(style) by {
        if '}' in b[l.propsEnd] {
          InsertBalance(b[l.propsEnd], sep, style);
        }
      }
      b[l.propsEnd := ReplaceFirstChar(b[l.propsEnd], '}', sep + "  " + style + ",\n}")]
    else b
  }

  /** Inserting the style property in place of the first `}` of a line, with the `}` put back
      after it, changes the line's balance by the style's. */
  lemma InsertBalance(line: string, sep: string, style: string)
    requires '}' in line && NoBrace(sep)
    ensures Balance(ReplaceFirstChar(line, '}', sep + "  " + style + ",\n}")) == Balance(line) + Balance(style)
  {
    var ins := sep + "  " + style + ",\n}";
    var i :| 0 <= i < |line| && line[i] == '}' && ReplaceFirstChar(line, '}', ins) == line[..i] + ins + line[i + 1..];
    var pre, post := line[..i], line[i + 1..];
    assert line == pre + "}" + post;
    BalanceAppend(pre, "}");
    BalanceAppend(pre + "}", post);
    NoBraceBalance(sep);
    NoBraceBalance("  ");
    NoBraceBalance(",\n");
    assert ",\n}" == ",\n" + "}";
    BalanceAppend(sep, "  ");
    BalanceAppend(sep + "  ", style);
    BalanceAppend(sep + "  " + style, ",\n");
    BalanceAppend(sep + "  " + style + ",\n", "}");
    assert ins == sep + "  " + style + ",\n" + "}";
    BalanceAppend(pre, ins);
    BalanceAppend(pre + ins, post);
  }

  /** The closing line of the props object holds a `}`. */
  lemma CloseLineHasBrace(b: seq<string>)
    requires LayoutOf(b).propsEnd >= 0
    ensures '}' in b[LayoutOf(b).propsEnd]
  {
    var l := LayoutOf(b);
    PropsEndFirst(b, l.propsStart, |b|);
    assert Braces(b, l.propsStart, l.propsEnd - 1) >= 1;
    ContainsSingle(b[l.propsEnd], '}');
  }

  /** With values free of braces, inserting the style property keeps the brace balance of the
      closing line, so the props object still closes where it did. */
  lemma StyleInsertBalanced(b: seq<string>, p: Properties)
    requires LayoutOf(b).styleLine == -1 && LayoutOf(b).propsEnd != -1
    requires Balance(p.color) == 0 && Balance(p.backgroundColor) == 0 && Balance(p.fontWeight) == 0
    ensures var pe := LayoutOf(b).propsEnd;
      Balance(WriteStyle(b, LayoutOf(b), StyleString(p))[pe]) == Balance(b[pe])
  {
    CloseLineHasBrace(b);
    StyleStringBalance(p);
  }

  /** Unseparated text stays unseparated when white space follows it; a comma separates it. */
  lemma LastSolidSpaces(x: string)
    ensures LastSolid(x + "  ") == LastSolid(x) && LastSolid(x + ",") == Some(',')
  {
    assert (x + "  ")[..|x| + 1] == x + " ";
    assert (x + " ")[..|x|] == x;
  }

  /** Inserting `y`, the style and `,\n}` in place of the first `}` of a line, at `i`. */
  lemma ReplaceCloseAt(line: string, i: nat, y: string, style: string)
    requires i == IndexOfChar(line, '}', 0)
    ensures ReplaceFirstChar(line, '}', y + style + ",\n}") == line[..i] + y + (style + ",\n}" + line[i + 1..])
  {
    assert ReplaceFirstChar(line, '}', y + style + ",\n}") == line[..i] + (y + style + ",\n}") + line[i + 1..];
  }

  /** The text in front of an insertion `y` made at position `i` of line `k` is the text that
      was in front of position `i`, then `y`. */
  lemma TextBeforeInsert(b: seq<string>, k: nat, i: nat, y: string, z: string)
    requires k < |b| && i <= |b[k]|
    ensures var line := b[k][..i] + y + z;
      i + |y| <= |line| && line[..i] == b[k][..i] && line[i + |y|..] == z &&
      TextBefore(b[k := line], k, i + |y|) == TextBefore(b, k, i) + y
  {
    var line := b[k][..i] + y + z;
    assert b[k := line][..k] == b[..k];
    assert line[..i + |y|] == b[k][..i] + y;
    assert line[..i] == b[k][..i];
  }

  /** As written, when the property before the closing `}` has no trailing comma (the layout of
      the example component, whose last property is the style line), the inserted `style`
      property follows it with only white space in between: the object literal loses its
      validity. */
  lemma StyleInsertUnseparated(b: seq<string>, l: Layout, style: string, i: nat)
    requires l.styleLine == -1 && 0 <= l.propsEnd < |b| && i == IndexOfChar(b[l.propsEnd], '}', 0)
    requires !Separated(TextBefore(b, l.propsEnd, i))
    ensures var r := WriteStyleAsWritten(b, l, style); var pe := l.propsEnd;
      i + 2 <= |r[pe]| && r[pe][..i] == b[pe][..i] && r[pe][i + 2..] == style + ",\n}" + b[pe][i + 1..] &&
      !Separated(TextBefore(r, pe, i + 2))
  {
    var pe := l.propsEnd;
    var z := style + ",\n}" + b[pe][i + 1..];
    var line := b[pe][..i] + "  " + z;
    ReplaceCloseAt(b[pe], i, "  ", style);
    assert WriteStyleAsWritten(b, l, style) == b[pe := line];
    TextBeforeInsert(b, pe, i, "  ", z);
    LastSolidSpaces(TextBefore(b, pe, i));
  }

  /** Corrected: the inserted `style` property always follows the object's `{` or a comma. */
  lemma StyleInsertSeparated(b: seq<string>, l: Layout, style: string, i: nat)
    requires l.styleLine == -1 && 0 <= l.propsEnd < |b| && i == IndexOfChar(b[l.propsEnd], '}', 0)
    ensures var r := WriteStyle(b, l, style); var pe := l.propsEnd; var j := i + |Separator(b, pe)|;
      j + 2 <= |r[pe]| && r[pe][..i] == b[pe][..i] && r[pe][j + 2..] == style + ",\n}" + b[pe][i + 1..] &&
      Separated(TextBefore(r, pe, j + 2))
  {
    var pe := l.propsEnd;
    var sep := Separator(b, pe);
    var z := style + ",\n}" + b[pe][i + 1..];
    var line := b[pe][..i] + (sep + "  ") + z;
    ReplaceCloseAt(b[pe], i, sep + "  ", style);
    assert WriteStyle(b, l, style) == b[pe := line];
    TextBeforeInsert(b, pe, i, sep + "  ", z);
    assert |sep + "  "| == |sep| + 2;
    SeparatedAfter(TextBefore(b, pe, i), sep);
  }

  /** The text before the inserted property: separated already, or separated by the comma. */
  lemma SeparatedAfter(x: string, sep: string)
    requires (sep == "" && Separated(x)) || sep == ","
    ensures Separated(x + (sep + "  "))
  {
    assert x + (sep + "  ") == (x + sep) + "  ";
    LastSolidSpaces(x + sep);
    LastSolidSpaces(x);
    if sep == "" {
      assert x + sep == x;
    }
  }

  /** The source's insertion needs no comma: there is a style line to rewrite, no closing
      line, or the text before the `}` already ends with `{` or `,`. */
  predicate StyleNeedsNoComma(b: seq<string>, l: Layout)
    requires -1 <= l.propsEnd < |b|
  {
    l.styleLine != -1 || l.propsEnd == -1 || Separator(b, l.propsEnd) == ""
  }

  /** Where no comma is needed, the corrected style update is the source's. */
  lemma WriteStyleAgrees(b: seq<string>, l: Layout, style: string)
    requires -1 <= l.propsEnd < |b| && -1 <= l.styleLine < |b| && StyleNeedsNoComma(b, l)
    ensures WriteStyleAsWritten(b, l, style) == WriteStyle(b, l, style)
  {
    if l.styleLine == -1 && l.propsEnd != -1 {
      assert Separator(b, l.propsEnd) + "  " + style + ",\n}" == "  " + style + ",\n}";
    }
  }

  // ---------------------------------------------------------------------------------
  // The text update (component-editor.tsx:523-562)

  /** The first line at or after `i` that matches the trailing-argument pattern, or -1. */
  function TrailingFrom(b: seq<string>, i: nat): (r: int)
    requires i <= |b|
    ensures r == -1 || (i <= r < |b| && HasTrailingArg(b[r]))
    decreases |b| - i
  {
    if i == |b| then -1
    else if HasTrailingArg(b[i]) then i
    else TrailingFrom(b, i + 1)
  }

  /** The line found is the first that matches, and -1 means no line from `i` on matches. */
  lemma {:induction false} TrailingFromFirst(b: seq<string>, i: nat)
    requires i <= |b|
    ensures forall k :: i <= k < |b| && (TrailingFrom(b, i) < 0 || k < TrailingFrom(b, i)) ==> !HasTrailingArg(b[k])
    decreases |b| - i
  {
    if i < |b| && !HasTrailingArg(b[i]) {
      TrailingFromFirst(b, i + 1);
    }
  }

  /** The multi-line text line rewritten: its leading white space, then the text in single
      quotes. The line keeps its indentation and stays a text line. */
  function TextLineWith(line: string, text: string): (r: string)
    ensures LeadingSpace(r) == LeadingSpace(line) && Trim(r) == "'" + text + "'"
  {
    var ind := LeadingSpace(line);
    var r := ind + "'" + text + "'";
    assert r[..|ind|] == ind && r[|ind|] == '\'';
    AllSpaceSame(line, r, 0, |ind|);
    SkipSpaceTo(r, 0, |ind|);
    assert r[|ind|..] == "'" + text + "'";
    r
  }

  /** Line `line` holds `text` between two equal quote characters. */
  predicate QuotesText(line: string, text: string) {
    exists j :: 0 <= j && j + |text| + 2 <= |line| && IsQuote(line[j]) && line[j + |text| + 1] == line[j] &&
      line[j + 1..j + 1 + |text|] == text
  }

  /** The line the text update rewrites in place: the first line from the closing line on that
      matches the trailing-argument pattern, else the text line; -1 when the update falls back to
      the pattern over the whole block. */
  function TextTarget(b: seq<string>, l: Layout): (t: int)
    requires -1 <= l.propsEnd < |b| && -1 <= l.textLine < |b|
    ensures -1 <= t < |b|
  {
    var t := if l.propsEnd != -1 then TrailingFrom(b, l.propsEnd) else -1;
    if t >= 0 then t else l.textLine
  }

  /** The three strategies in order: the first line from the end of the props object that
      matches the trailing-argument pattern; else the text line; else the inline pattern over
      the whole block, split into lines again. */
  function WriteText(b: seq<string>, l: Layout, text: string): seq<string>
    requires -1 <= l.propsEnd < |b| && -1 <= l.textLine < |b|
  {
    var t := if l.propsEnd != -1 then TrailingFrom(b, l.propsEnd) else -1;
    if t >= 0 then b[t := ReplaceTrailingText(b[t], text)]
    else if l.textLine != -1 then b[l.textLine := TextLineWith(b[l.textLine], text)]
    else Split(ReplaceInlineText(Join(b), text))
  }

  /** In place, only the target line changes and it then holds the text in quotes; the fallback
      rewrites the block's joined text. */
  lemma WriteTextChanges(b: seq<string>, l: Layout, text: string)
    requires -1 <= l.propsEnd < |b| && -1 <= l.textLine < |b|
    ensures var r := WriteText(b, l, text); var t := TextTarget(b, l);
      t >= 0 ==> (|r| == |b| && QuotesText(r[t], text) && forall k :: 0 <= k < |b| && k != t ==> r[k] == b[k])
    ensures TextTarget(b, l) < 0 ==> Join(WriteText(b, l, text)) == ReplaceInlineText(Join(b), text)
  {
    var t := if l.propsEnd != -1 then TrailingFrom(b, l.propsEnd) else -1;
    if t >= 0 {
      TrailingQuotesText(b[t], text);
    } else if l.textLine != -1 {
      TextLineQuotesText(b[l.textLine], text);
    } else {
      JoinSplit(ReplaceInlineText(Join(b), text));
    }
  }

  /** The rewritten text line holds the text in single quotes. */
  lemma TextLineQuotesText(line: string, text: string)
    ensures QuotesText(TextLineWith(line, text), text)
  {
    var r := TextLineWith(line, text);
    var ind := LeadingSpace(line);
    assert r == ind + "'" + text + "'";
    assert r[|ind| + 1..|ind| + 1 + |text|] == text;
  }

  /** On a line that matches the trailing-argument pattern, the update leaves the text between
      the match's quotes. */
  lemma TrailingQuotesText(s: string, text: string)
    requires HasTrailingArg(s)
    ensures QuotesText(ReplaceTrailingText(s, text), text)
  {
    TrailingLeftmostCorrect(s);
    var m := LeftmostTrailing(s).value;
    var r := WithContents(s, m, text);
    assert r == s[..m.open + 1] + text + s[m.close..];
    assert r[m.open] == s[m.open] && r[m.open + |text| + 1] == s[m.close];
    assert r[m.open + 1..m.open + 1 + |text|] == text;
  }

  /** The block after the editor's update (`newBlock` at component-editor.tsx:562). */
  function PatchBlock(block: seq<string>, p: Properties): (r: seq<string>)
    ensures |block| >= 1 ==> |r| >= 1
  {
    var l := LayoutOf(block);
    WriteText(WriteStyle(block, l, StyleString(p)), l, p.text)
  }

  /** When the text is written in place, the patched block differs from the block only on the
      style update's line and the text update's line, and the latter then holds the text in
      quotes. */
  lemma PatchBlockChanges(block: seq<string>, p: Properties)
    ensures var l := LayoutOf(block); var t := TextTarget(WriteStyle(block, l, StyleString(p)), l);
      var r := PatchBlock(block, p);
      t >= 0 ==> (|r| == |block| && QuotesText(r[t], p.text) &&
        forall k :: 0 <= k < |block| && k != StyleTarget(l) && k != t ==> r[k] == block[k])
  {
    var l := LayoutOf(block);
    WriteTextChanges(WriteStyle(block, l, StyleString(p)), l, p.text);
  }

  /** The updates of component-editor.tsx:480-562 on a copy of the block. */
  method Patch(block: seq<string>, p: Properties) returns (newBlock: seq<string>)
    ensures newBlock == PatchBlock(block, p)
  {
    newBlock := block;
    var propsStart, propsEnd, styleLineIdx, textLineIdx := ScanProps(newBlock);
    var styleString := StyleString(p);
    if styleLineIdx != -1 {
      newBlock := newBlock[styleLineIdx := ReplaceStyle(newBlock[styleLineIdx], styleString)];
    } else if propsEnd != -1 {
      var sep := Separator(newBlock, propsEnd);
      newBlock := newBlock[propsEnd := ReplaceFirstChar(newBlock[propsEnd], '}', sep + "  " + styleString + ",\n}")];
    }
    newBlock := UpdateText(newBlock, propsEnd, textLineIdx, p.text);
  }

  /** The text update of component-editor.tsx:523-562 on the block after the style update. */
  method UpdateText(styled: seq<string>, propsEnd: int, textLineIdx: int, text: string) returns (newBlock: seq<string>)
    requires -1 <= propsEnd < |styled| && -1 <= textLineIdx < |styled|
    ensures newBlock == WriteText(styled, Layout(-1, propsEnd, -1, textLineIdx), text)
  {
    newBlock := styled;
    var textUpdated := false;
    if propsEnd != -1 {
      var i := propsEnd;
      while i < |newBlock|
        invariant propsEnd <= i <= |newBlock| && newBlock == styled
        invariant TrailingFrom(styled, i) == TrailingFrom(styled, propsEnd)
        invariant !textUpdated
      {
        if HasTrailingArg(newBlock[i]) {
          newBlock := newBlock[i := ReplaceTrailingText(newBlock[i], text)];
          textUpdated := true;
          break;
        }
        i := i + 1;
      }
    }
    if !textUpdated {
      if textLineIdx != -1 {
        newBlock := newBlock[textLineIdx := TextLineWith(newBlock[textLineIdx], text)];
      } else {
        var blockJoined := Join(newBlock);
        blockJoined := ReplaceInlineText(blockJoined, text);
        newBlock := Split(blockJoined);
      }
    }
  }

  // ---------------------------------------------------------------------------------
  // The updates as written

  /** The text update as written: the `replace` calls at component-editor.tsx:531 and :553
      expand their templates, `$` sequences of the text included. */
  function WriteTextAsWritten(b: seq<string>, l: Layout, text: string): seq<string>
    requires -1 <= l.propsEnd < |b| && -1 <= l.textLine < |b|
  {
    var t := if l.propsEnd != -1 then TrailingFrom(b, l.propsEnd) else -1;
    if t >= 0 then b[t := ReplaceTrailingTextAsWritten(b[t], text)]
    else if l.textLine != -1 then b[l.textLine := TextLineWith(b[l.textLine], text)]
    else Split(ReplaceInlineTextAsWritten(Join(b), text))
  }

  /** The block after the source's updates as written (the style string still inserted
      literally). */
  function PatchBlockAsWritten(block: seq<string>, p: Properties): seq<string> {
    var l := LayoutOf(block);
    WriteTextAsWritten(WriteStyleAsWritten(block, l, StyleString(p)), l, p.text)
  }

  /** For a text without `$`, and a style property that needs no comma, the source's update as
      written is the model's. */
  lemma PatchAgrees(block: seq<string>, p: Properties)
    requires '$' !in p.text && StyleNeedsNoComma(block, LayoutOf(block))
    ensures PatchBlockAsWritten(block, p) == PatchBlock(block, p)
  {
    var l := LayoutOf(block);
    WriteStyleAgrees(block, l, StyleString(p));
    var b := WriteStyle(block, l, StyleString(p));
    var t := if l.propsEnd != -1 then TrailingFrom(b, l.propsEnd) else -1;
    if t >= 0 {
      TrailingAsWrittenAgrees(b[t], p.text);
    } else if l.textLine == -1 {
      InlineAsWrittenAgrees(Join(b), p.text);
    }
  }
}
