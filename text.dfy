/** JavaScript string built-ins used by the editor's patching engine, over `seq<char>`:
    `includes`, `startsWith`, `trim`, `split('\n')` / `join('\n')`, the leading-white-space
    match of leading white space, and the decimal rendering of an integer in a template literal. */
module Text {

  datatype Option<T> = None | Some(value: T)

  /** The call every element of the edited code is written with. */
  const CallToken := "React.createElement"

  /** White space as `String.prototype.trim` and the regular-expression class `\s` see it:
      the WhiteSpace and LineTerminator code points of ECMAScript. */
  predicate IsSpace(c: char) {
    var n := c as int;
    n == 0x09 || n == 0x0A || n == 0x0B || n == 0x0C || n == 0x0D || n == 0x20 || n == 0xA0
    || n == 0x1680 || (0x2000 <= n <= 0x200A) || n == 0x2028 || n == 0x2029
    || n == 0x202F || n == 0x205F || n == 0x3000 || n == 0xFEFF
  }

  /** The characters `.` does not match in a regular expression without the `s` flag. */
  predicate IsLineTerminator(c: char) {
    c == '\n' || c == '\r' || c as int == 0x2028 || c as int == 0x2029
  }

  /** `\d` without the `u` flag: ASCII digits only. */
  predicate IsDigit(c: char) {
    '0' <= c <= '9'
  }

  /** The three quote characters of the class `['"`]`. */
  predicate IsQuote(c: char) {
    c == '\'' || c == '"' || c == '`'
  }

  predicate StartsWith(s: string, p: string) {
    |p| <= |s| && s[..|p|] == p
  }

  /** `p` occurs in `s` starting at index `i`. */
  predicate OccursAt(s: string, p: string, i: int) {
    0 <= i && i + |p| <= |s| && s[i..i + |p|] == p
  }

  /** `s.indexOf(p, from)`: the first index at or after `from` where `p` occurs, or -1. */
  function IndexOf(s: string, p: string, from: nat): (r: int)
    ensures r == -1 || (from <= r && OccursAt(s, p, r))
    decreases |s| - from
  {
    if from + |p| > |s| then -1
    else if s[from..from + |p|] == p then from
    else IndexOf(s, p, from + 1)
  }

  /** The index found is the first occurrence at or after `from`; -1 means there is none. */
  lemma {:induction false} IndexOfFirst(s: string, p: string, from: nat)
    ensures forall k :: from <= k && (IndexOf(s, p, from) == -1 || k < IndexOf(s, p, from)) ==> !OccursAt(s, p, k)
    decreases |s| - from
  {
    if from + |p| <= |s| && s[from..from + |p|] != p {
      IndexOfFirst(s, p, from + 1);
    }
  }

  /** `s.includes(p)`. */
  predicate Contains(s: string, p: string) {
    IndexOf(s, p, 0) >= 0
  }

  lemma ContainsIff(s: string, p: string)
    ensures Contains(s, p) <==> exists i :: OccursAt(s, p, i)
  {
    IndexOfFirst(s, p, 0);
  }

  /** `s.includes(c)` for a one-character string is plain membership. */
  lemma ContainsSingle(s: string, c: char)
    ensures Contains(s, [c]) <==> c in s
  {
    var r := IndexOf(s, [c], 0);
    IndexOfFirst(s, [c], 0);
    if r >= 0 {
      assert s[r] == s[r..r + 1][0];
    }
    if c in s {
      var i :| 0 <= i < |s| && s[i] == c;
      assert OccursAt(s, [c], i);
    }
  }

  /** `s.indexOf(c, from)` for a single character, or -1 (`IndexOfCharFirst`). */
  function IndexOfChar(s: string, c: char, from: nat): (r: int)
    ensures r == -1 || (from <= r < |s| && s[r] == c)
    decreases |s| - from
  {
    if from >= |s| then -1
    else if s[from] == c then from
    else IndexOfChar(s, c, from + 1)
  }

  /** No character of `s[i..j]` is `c`. */
  predicate NoneIs(s: string, i: int, j: int, c: char)
    requires 0 <= i <= j <= |s|
    decreases j - i
  {
    i == j || (s[i] != c && NoneIs(s, i + 1, j, c))
  }

  lemma {:induction false} NoneIsNotIn(s: string, i: int, j: int, c: char)
    requires 0 <= i <= j <= |s| && NoneIs(s, i, j, c)
    ensures c !in s[i..j]
    decreases j - i
  {
    if i < j {
      NoneIsNotIn(s, i + 1, j, c);
      assert s[i..j] == [s[i]] + s[i + 1..j];
    }
  }

  /** The index found is the first occurrence at or after `from`; -1 means there is none. */
  lemma {:induction false} IndexOfCharFirst(s: string, c: char, from: nat)
    ensures IndexOfChar(s, c, from) == -1 ==> from >= |s| || NoneIs(s, from, |s|, c)
    ensures IndexOfChar(s, c, from) >= 0 ==> NoneIs(s, from, IndexOfChar(s, c, from), c)
    decreases |s| - from
  {
    if from < |s| && s[from] != c {
      IndexOfCharFirst(s, c, from + 1);
    }
  }

  /** When `s[j]` is the first `c` at or after `i`, the search finds it. */
  lemma {:induction false} IndexOfCharAt(s: string, c: char, i: nat, j: int)
    requires i <= j < |s| && NoneIs(s, i, j, c) && s[j] == c
    ensures IndexOfChar(s, c, i) == j
    decreases j - i
  {
    if i < j {
      IndexOfCharAt(s, c, i + 1, j);
    }
  }

  /** `s.replace(c, r)` with a one-character string pattern and the replacement taken
      literally: the first occurrence of `c` becomes `r`, and nothing else changes. */
  function ReplaceFirstChar(s: string, c: char, r: string): (t: string)
    ensures c !in s ==> t == s
    ensures c in s ==> exists i :: 0 <= i < |s| && s[i] == c && c !in s[..i] && t == s[..i] + r + s[i + 1..]
  {
    var i := IndexOfChar(s, c, 0);
    IndexOfCharFirst(s, c, 0);
    if i < 0 then
      if s == [] then s
      else
        NoneIsNotIn(s, 0, |s|, c);
        assert s[0..|s|] == s;
        s
    else
      NoneIsNotIn(s, 0, i, c);
      assert s[0..i] == s[..i];
      s[..i] + r + s[i + 1..]
  }

  /** Every character of `s[i..j]` is white space. */
  predicate AllSpace(s: string, i: int, j: int)
    requires 0 <= i <= j <= |s|
    decreases j - i
  {
    i == j || (IsSpace(s[i]) && AllSpace(s, i + 1, j))
  }

  lemma {:induction false} AllSpaceAt(s: string, i: int, j: int, k: int)
    requires 0 <= i <= k < j <= |s| && AllSpace(s, i, j)
    ensures IsSpace(s[k])
    decreases k - i
  {
    if i < k {
      AllSpaceAt(s, i + 1, j, k);
    }
  }

  /** A run of white space followed by a white-space character is a longer run. */
  lemma {:induction false} AllSpaceExtend(s: string, i: int, j: int)
    requires 0 <= i <= j < |s| && AllSpace(s, i, j) && IsSpace(s[j])
    ensures AllSpace(s, i, j + 1)
    decreases j - i
  {
    if i < j {
      AllSpaceExtend(s, i + 1, j);
    }
  }

  /** A run of white space is one in any string that has the same characters there. */
  lemma {:induction false} AllSpaceSame(s: string, t: string, i: int, j: int)
    requires 0 <= i <= j <= |s| && j <= |t| && s[i..j] == t[i..j] && AllSpace(s, i, j)
    ensures AllSpace(t, i, j)
    decreases j - i
  {
    if i < j {
      assert s[i] == s[i..j][0] == t[i..j][0] == t[i];
      assert s[i + 1..j] == s[i..j][1..] == t[i..j][1..] == t[i + 1..j];
      AllSpaceSame(s, t, i + 1, j);
    }
  }

  /** The end of the maximal run of white space starting at `i`, i.e. where `\s*` stops
      (`SkipSpaceStops`). */
  function SkipSpace(s: string, i: nat): (j: nat)
    requires i <= |s|
    ensures i <= j <= |s|
    decreases |s| - i
  {
    if i < |s| && IsSpace(s[i]) then SkipSpace(s, i + 1) else i
  }

  /** `\s*` passes over white space only, and stops at the end or at a character that is not
      white space. */
  lemma {:induction false} SkipSpaceStops(s: string, i: nat)
    requires i <= |s|
    ensures AllSpace(s, i, SkipSpace(s, i))
    ensures SkipSpace(s, i) == |s| || !IsSpace(s[SkipSpace(s, i)])
    decreases |s| - i
  {
    if i < |s| && IsSpace(s[i]) {
      SkipSpaceStops(s, i + 1);
    }
  }

  /** A run of white space from `i` that ends at the end or at a character that is not white
      space is the run `\s*` passes over. */
  lemma {:induction false} SkipSpaceTo(s: string, i: nat, a: int)
    requires i <= a <= |s| && AllSpace(s, i, a) && (a == |s| || !IsSpace(s[a]))
    ensures SkipSpace(s, i) == a
    decreases a - i
  {
    if i < a {
      SkipSpaceTo(s, i + 1, a);
    }
  }

  /** The start of the maximal run of white space that ends at `j` (`SkipSpaceBackStops`). */
  function SkipSpaceBack(s: string, j: nat): (i: nat)
    requires j <= |s|
    ensures i <= j
  {
    if j > 0 && IsSpace(s[j - 1]) then SkipSpaceBack(s, j - 1) else j
  }

  lemma {:induction false} SkipSpaceBackStops(s: string, j: nat)
    requires j <= |s|
    ensures AllSpace(s, SkipSpaceBack(s, j), j)
    ensures SkipSpaceBack(s, j) == 0 || !IsSpace(s[SkipSpaceBack(s, j) - 1])
  {
    if j > 0 && IsSpace(s[j - 1]) {
      SkipSpaceBackStops(s, j - 1);
      AllSpaceExtend(s, SkipSpaceBack(s, j - 1), j - 1);
    }
  }

  /** `s.trimStart()`: the white space `String.prototype.trim` removes is exactly `\s`. */
  function TrimStart(s: string): (r: string)
    ensures |r| <= |s| && r == s[|s| - |r|..]
    ensures AllSpace(s, 0, |s| - |r|)
    ensures r == [] || !IsSpace(r[0])
  {
    SkipSpaceStops(s, 0);
    s[SkipSpace(s, 0)..]
  }

  /** `s.trimEnd()`. */
  function TrimEnd(s: string): (r: string)
    ensures |r| <= |s| && r == s[..|r|]
    ensures AllSpace(s, |r|, |s|)
    ensures r == [] || !IsSpace(r[|r| - 1])
  {
    SkipSpaceBackStops(s, |s|);
    s[..SkipSpaceBack(s, |s|)]
  }

  /** `s.trim()`. */
  function Trim(s: string): string {
    TrimEnd(TrimStart(s))
  }

  // `s.match(/^\s*/)[0]`: the leading white space of a line.
  function LeadingSpace(s: string): (r: string)
    ensures StartsWith(s, r) && AllSpace(s, 0, |r|)
    ensures |r| == |s| || !IsSpace(s[|r|])
  {
    SkipSpaceStops(s, 0);
    s[..SkipSpace(s, 0)]
  }

  /** `s.split('\n')`: always at least one piece, and no piece holds a line feed. */
  function Split(s: string): (r: seq<string>)
    ensures |r| >= 1
    ensures forall k :: 0 <= k < |r| ==> '\n' !in r[k]
  {
    if s == [] then [[]]
    else
      var rest := Split(s[1..]);
      if s[0] == '\n' then [[]] + rest
      else [[s[0]] + rest[0]] + rest[1..]
  }

  /** `lines.join('\n')`. */
  function Join(lines: seq<string>): string {
    if |lines| == 0 then []
    else if |lines| == 1 then lines[0]
    else lines[0] + "\n" + Join(lines[1..])
  }

  /** The text that lines `pre` contribute in front of a non-empty run of lines when joined. */
  function LinesBefore(pre: seq<string>): string {
    if pre == [] then [] else Join(pre) + "\n"
  }

  /** The text that lines `post` contribute after a non-empty run of lines when joined. */
  function LinesAfter(post: seq<string>): string {
    if post == [] then [] else "\n" + Join(post)
  }

  /** Joining a non-empty run of lines followed by more lines. */
  lemma {:induction false} JoinAppend(mid: seq<string>, post: seq<string>)
    requires |mid| >= 1
    ensures Join(mid + post) == Join(mid) + LinesAfter(post)
  {
    if |mid| == 1 {
      assert mid + post == [mid[0]] + post;
      if post != [] {
        assert (mid + post)[1..] == post;
      }
    } else {
      assert (mid + post)[1..] == mid[1..] + post;
      JoinAppend(mid[1..], post);
    }
  }

  /** Joining lines followed by a non-empty run of lines. */
  lemma {:induction false} JoinPrepend(pre: seq<string>, rest: seq<string>)
    requires |rest| >= 1
    ensures Join(pre + rest) == LinesBefore(pre) + Join(rest)
  {
    if pre == [] {
      assert pre + rest == rest;
    } else {
      assert (pre + rest)[1..] == pre[1..] + rest;
      JoinPrepend(pre[1..], rest);
      var x := pre[0] + "\n";
      assert Join(pre + rest) == x + (LinesBefore(pre[1..]) + Join(rest));
      if |pre| == 1 {
        assert pre[1..] == [];
        assert LinesBefore(pre) == x;
      } else {
        assert LinesBefore(pre) == x + LinesBefore(pre[1..]);
      }
    }
  }

  /** Joining three runs of lines: the middle one's text sits between the other two's. */
  lemma JoinAround(pre: seq<string>, mid: seq<string>, post: seq<string>)
    requires |mid| >= 1
    ensures Join(pre + mid + post) == LinesBefore(pre) + Join(mid) + LinesAfter(post)
  {
    JoinAppend(mid, post);
    assert pre + mid + post == pre + (mid + post);
    JoinPrepend(pre, mid + post);
  }

  /** The text of lines `i` to `j` of a split sits between the text of the lines before and
      after them. */
  lemma SplitAround(s: string, i: nat, j: nat)
    requires i <= j < |Split(s)|
    ensures var lines := Split(s);
      s == LinesBefore(lines[..i]) + Join(lines[i..j + 1]) + LinesAfter(lines[j + 1..])
  {
    JoinSplit(s);
    JoinSlices(Split(s), i, j);
  }

  /** A sequence is the concatenation of its three slices at `i` and `j`. */
  lemma SliceAround<T>(s: seq<T>, i: nat, j: nat)
    requires i <= j <= |s|
    ensures s[..i] + s[i..j] + s[j..] == s
  {
    assert s[..i] + s[i..j] == s[..j];
  }

  /** Joined lines, cut around lines `i` to `j`. */
  lemma JoinSlices(lines: seq<string>, i: nat, j: nat)
    requires i <= j < |lines|
    ensures Join(lines) == LinesBefore(lines[..i]) + Join(lines[i..j + 1]) + LinesAfter(lines[j + 1..])
  {
    SliceAround(lines, i, j + 1);
    JoinAround(lines[..i], lines[i..j + 1], lines[j + 1..]);
  }

  /** Joining the pieces of a split gives back the original text. */
  lemma {:induction false} JoinSplit(s: string)
    ensures Join(Split(s)) == s
  {
    if s != [] {
      var rest := Split(s[1..]);
      JoinSplit(s[1..]);
      if s[0] == '\n' {
        assert Split(s) == [[]] + rest;
        assert Join(Split(s)) == [] + "\n" + Join(rest);
      } else {
        var r := Split(s);
        assert r == [[s[0]] + rest[0]] + rest[1..];
        if |rest| == 1 {
          assert Join(r) == [s[0]] + rest[0];
        } else {
          assert Join(rest) == rest[0] + "\n" + Join(rest[1..]);
          assert r[1..] == rest[1..];
          assert Join(r) == ([s[0]] + rest[0]) + "\n" + Join(rest[1..]);
        }
        assert s == [s[0]] + s[1..];
      }
    }
  }

  lemma {:induction false} SplitNoBreak(x: string)
    requires '\n' !in x
    ensures Split(x) == [x]
  {
    if x != [] {
      SplitNoBreak(x[1..]);
      assert [x[0]] + x[1..] == x;
    }
  }

  lemma {:induction false} SplitAfterLine(x: string, y: string)
    requires '\n' !in x
    ensures Split(x + "\n" + y) == [x] + Split(y)
  {
    if x == [] {
      assert x + "\n" + y == "\n" + y;
      assert ("\n" + y)[1..] == y;
    } else {
      var s := x + "\n" + y;
      assert s[1..] == x[1..] + "\n" + y;
      SplitAfterLine(x[1..], y);
      assert [x[0]] + x[1..] == x;
    }
  }

  /** Splitting the join of line-feed-free lines gives back the lines. */
  lemma {:induction false} SplitJoin(lines: seq<string>)
    requires |lines| >= 1
    requires forall k :: 0 <= k < |lines| ==> '\n' !in lines[k]
    ensures Split(Join(lines)) == lines
  {
    if |lines| == 1 {
      SplitNoBreak(lines[0]);
    } else {
      SplitJoin(lines[1..]);
      SplitAfterLine(lines[0], Join(lines[1..]));
      assert [lines[0]] + lines[1..] == lines;
    }
  }

  function DigitValue(c: char): nat
    requires IsDigit(c)
  {
    c as int - '0' as int
  }

  function DecimalDigit(d: nat): (c: char)
    requires d < 10
    ensures IsDigit(c) && DigitValue(c) == d
  {
    (d + '0' as int) as char
  }

  /** The decimal numeral of a natural number, as JavaScript prints it. */
  function NatToDecimal(n: nat): (r: string)
    ensures |r| >= 1 && forall k :: 0 <= k < |r| ==> IsDigit(r[k])
  {
    if n < 10 then [DecimalDigit(n)] else NatToDecimal(n / 10) + [DecimalDigit(n % 10)]
  }

  /** The value of a string of decimal digits (`Number(s)` for such a string). */
  function DecimalValue(s: string): nat
    requires forall k :: 0 <= k < |s| ==> IsDigit(s[k])
  {
    if s == [] then 0 else 10 * DecimalValue(s[..|s| - 1]) + DigitValue(s[|s| - 1])
  }

  lemma {:induction false} DecimalRoundTrip(n: nat)
    ensures DecimalValue(NatToDecimal(n)) == n
  {
    if n >= 10 {
      DecimalRoundTrip(n / 10);
      var r := NatToDecimal(n);
      assert r[..|r| - 1] == NatToDecimal(n / 10);
    }
  }

  /** `${n}` for an integer `n`: a minus sign for negative numbers, then the decimal numeral. */
  function IntToString(n: int): string {
    if n < 0 then "-" + NatToDecimal(-n) else NatToDecimal(n)
  }
}
