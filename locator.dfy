/** Locating the edited element in the lines of the code (component-editor.tsx:437-475): the
    `React.createElement` line whose element carries the `data-v0-id` marker, and the line on
    which that call's parentheses balance again. */
module Locator {
  import opened Text

  // ---------------------------------------------------------------------------------
  // The marker

  /** The six spellings of the marker the editor looks for, as the text before the id and the
      quote after it: both keys quoted alike, mixed quotes, and the bare key. */
  const Spellings: seq<(string, char)> := [
    ("'data-v0-id': '", '\''),
    ("\"data-v0-id\": \"", '"'),
    ("'data-v0-id': \"", '"'),
    ("\"data-v0-id\": '", '\''),
    ("data-v0-id: '", '\''),
    ("data-v0-id: \"", '"')
  ]

  /** The `k`-th spelling of the marker for `id`. */
  function Marker(id: string, k: nat): string
    requires k < |Spellings|
  {
    Spellings[k].0 + id + [Spellings[k].1]
  }

  /** `patterns.some(pattern => line.includes(pattern))`, trying the spellings from the `k`-th on. */
  predicate SomeMarker(line: string, id: string, k: nat)
    decreases |Spellings| - k
  {
    k < |Spellings| && (Contains(line, Marker(id, k)) || SomeMarker(line, id, k + 1))
  }

  predicate HasMarker(line: string, id: string) {
    SomeMarker(line, id, 0)
  }

  /** The line holds one of the spellings from the `k`-th on. */
  lemma {:induction false} SomeMarkerIff(line: string, id: string, k: nat)
    ensures SomeMarker(line, id, k) <==> exists k' :: k <= k' < |Spellings| && Contains(line, Marker(id, k'))
    decreases |Spellings| - k
  {
    if k < |Spellings| {
      SomeMarkerIff(line, id, k + 1);
    }
  }

  /** `id` occurs at `j` in `line` with a quote character on either side. */
  predicate IdQuoted(line: string, id: string, j: int) {
    0 < j && OccursAt(line, id, j) && j + |id| < |line| && IsQuote(line[j - 1]) && IsQuote(line[j + |id|])
  }

  /** Every spelling closes the id with a quote, so a line holds the marker for `id` only where
      `id` stands between quotes: id `card-1` is not found in `'data-v0-id': 'card-1-inner'`. */
  lemma HasMarkerQuoted(line: string, id: string)
    requires HasMarker(line, id)
    ensures exists j :: IdQuoted(line, id, j)
  {
    SomeMarkerIff(line, id, 0);
    var k :| 0 <= k < |Spellings| && Contains(line, Marker(id, k));
    ContainsIff(line, Marker(id, k));
    var i :| OccursAt(line, Marker(id, k), i);
    var pre, q := Spellings[k].0, Spellings[k].1;
    assert |pre| >= 1 && IsQuote(pre[|pre| - 1]) && IsQuote(q);
    QuotedInside(line, pre, id, q, i);
  }

  lemma QuotedInside(line: string, pre: string, id: string, q: char, i: int)
    requires |pre| >= 1 && IsQuote(pre[|pre| - 1]) && IsQuote(q) && OccursAt(line, pre + id + [q], i)
    ensures IdQuoted(line, id, i + |pre|)
  {
    var p := pre + id + [q];
    var j := i + |pre|;
    var w := line[i..i + |p|];
    assert w == p;
    assert line[j - 1] == w[|pre| - 1] == pre[|pre| - 1];
    assert line[j + |id|] == w[|pre| + |id|] == q;
    assert p[|pre|..|pre| + |id|] == id;
    assert line[j..j + |id|] == w[|pre|..|pre| + |id|];
  }

  // ---------------------------------------------------------------------------------
  // The start of the element's call (component-editor.tsx:437-460)

  /** Whether the scan from line `j` (the lines after a `React.createElement` line) meets a
      line with the marker before, or on, the next line with another call. */
  predicate MarkerFrom(lines: seq<string>, j: nat, id: string)
    decreases |lines| - j
  {
    if j >= |lines| then false
    else if HasMarker(lines[j], id) then true
    else if Contains(lines[j], CallToken) then false
    else MarkerFrom(lines, j + 1, id)
  }

  /** No line of `lines[j..k]` holds a call. */
  predicate NoCallBetween(lines: seq<string>, j: int, k: int)
    requires 0 <= j <= k <= |lines|
    decreases k - j
  {
    j == k || (!Contains(lines[j], CallToken) && NoCallBetween(lines, j + 1, k))
  }

  /** Line `k` ends the scan from `j` with the marker: the lines before it hold neither the
      marker nor a call. */
  predicate MarkerLine(lines: seq<string>, j: int, k: int, id: string) {
    0 <= j <= k < |lines| && HasMarker(lines[k], id) && NoCallBetween(lines, j, k) &&
    forall m :: j <= m < k ==> !HasMarker(lines[m], id)
  }

  /** The scan from `j` finds the marker exactly when some line ends it with the marker. */
  lemma {:induction false} MarkerFromIff(lines: seq<string>, j: nat, id: string)
    ensures MarkerFrom(lines, j, id) <==> exists k :: MarkerLine(lines, j, k, id)
    decreases |lines| - j
  {
    if j < |lines| {
      if HasMarker(lines[j], id) {
        assert MarkerLine(lines, j, j, id);
      } else {
        MarkerFromIff(lines, j + 1, id);
        if MarkerFrom(lines, j, id) {
          var k :| MarkerLine(lines, j + 1, k, id);
          assert MarkerLine(lines, j, k, id);
        }
        forall k | MarkerLine(lines, j, k, id) ensures MarkerFrom(lines, j, id) {
          assert k != j;
          assert MarkerLine(lines, j + 1, k, id);
        }
      }
    }
  }

  /** Line `i` is where the element starts: it holds a call, and the scan of the lines after
      it meets the marker. */
  predicate Opens(lines: seq<string>, i: nat, id: string)
    requires i < |lines|
  {
    Contains(lines[i], CallToken) && MarkerFrom(lines, i + 1, id)
  }

  /** The first line at or after `i` that opens the element, or -1 (`StartFromFirst`). */
  function StartFrom(lines: seq<string>, id: string, i: nat): (r: int)
    requires i <= |lines|
    ensures r == -1 || i <= r < |lines|
    decreases |lines| - i
  {
    if i == |lines| then -1
    else if Opens(lines, i, id) then i
    else StartFrom(lines, id, i + 1)
  }

  /** `startIdx` after the scan of component-editor.tsx:437-460, -1 when `found` stays false. */
  function FirstStart(lines: seq<string>, id: string): int {
    StartFrom(lines, id, 0)
  }

  /** The start found is the first line that opens the element, and -1 means no line does. */
  lemma {:induction false} StartFromFirst(lines: seq<string>, id: string, i: nat)
    requires i <= |lines|
    ensures StartFrom(lines, id, i) >= 0 ==> Opens(lines, StartFrom(lines, id, i), id)
    ensures forall k :: i <= k < |lines| && (StartFrom(lines, id, i) == -1 || k < StartFrom(lines, id, i)) ==>
      !Opens(lines, k, id)
    decreases |lines| - i
  {
    if i < |lines| && !Opens(lines, i, id) {
      StartFromFirst(lines, id, i + 1);
    }
  }

  /** The inner loop of component-editor.tsx:440-458: the lines after line `i` are searched for
      the marker until one holds another call. */
  method ScanForMarker(lines: seq<string>, i: nat, id: string) returns (found: bool)
    requires i < |lines|
    ensures found == MarkerFrom(lines, i + 1, id)
  {
    found := false;
    var j := i + 1;
    while j < |lines|
      invariant i + 1 <= j <= |lines|
      invariant MarkerFrom(lines, j, id) == MarkerFrom(lines, i + 1, id)
      invariant !found
    {
      if HasMarker(lines[j], id) {
        found := true;
        break;
      }
      if Contains(lines[j], CallToken) {
        break;
      }
      j := j + 1;
    }
  }

  /** The scan of component-editor.tsx:437-460: the first line holding a call whose following
      lines meet the marker. */
  method FindStart(lines: seq<string>, id: string) returns (startIdx: int)
    ensures startIdx == FirstStart(lines, id)
  {
    startIdx := -1;
    var found := false;
    var i := 0;
    while i < |lines|
      invariant 0 <= i <= |lines|
      invariant StartFrom(lines, id, i) == FirstStart(lines, id)
      invariant !found && startIdx == -1
    {
      if Contains(lines[i], CallToken) {
        found := ScanForMarker(lines, i, id);
        if found {
          startIdx := i;
        }
      }
      if found {
        break;
      }
      i := i + 1;
    }
  }

  // ---------------------------------------------------------------------------------
  // The end of the element's call (component-editor.tsx:462-475)

  /** The change a character makes to the parenthesis count. */
  function Delta(c: char): int {
    if c == '(' then 1 else if c == ')' then -1 else 0
  }

  /** The number of `(` minus the number of `)` in `s`. */
  function Balance(s: string): int {
    if s == [] then 0 else Balance(s[..|s| - 1]) + Delta(s[|s| - 1])
  }

  /** `braceDepth` after line `i` of the scan that starts at line `start`: it is reset to 0 on
      a line holding a call and then counts that line's parentheses. */
  function DepthThrough(lines: seq<string>, start: nat, i: nat): int
    requires start <= i < |lines|
    decreases i
  {
    var before := if i == start || Contains(lines[i], CallToken) then 0 else DepthThrough(lines, start, i - 1);
    before + Balance(lines[i])
  }

  /** The first line at or after `i` where the depth is 0, or -1 (`CallEndFirst`). */
  function CallEndFrom(lines: seq<string>, start: nat, i: nat): (r: int)
    requires start <= i <= |lines|
    ensures r == -1 || i <= r < |lines|
    decreases |lines| - i
  {
    if i == |lines| then -1
    else if DepthThrough(lines, start, i) == 0 then i
    else CallEndFrom(lines, start, i + 1)
  }

  /** `endIdx` after the scan of component-editor.tsx:462-475. */
  function CallEnd(lines: seq<string>, start: nat): (r: int)
    requires start <= |lines|
    ensures r == -1 || start <= r < |lines|
  {
    CallEndFrom(lines, start, start)
  }

  /** The end found is the first line from `i` on where the depth is 0, and -1 means the depth
      never returns to 0. */
  lemma {:induction false} CallEndFirst(lines: seq<string>, start: nat, i: nat)
    requires start <= i <= |lines|
    ensures CallEndFrom(lines, start, i) >= 0 ==> DepthThrough(lines, start, CallEndFrom(lines, start, i)) == 0
    ensures forall k :: i <= k < |lines| && (CallEndFrom(lines, start, i) == -1 || k < CallEndFrom(lines, start, i)) ==>
      DepthThrough(lines, start, k) != 0
    decreases |lines| - i
  {
    if i < |lines| && DepthThrough(lines, start, i) != 0 {
      CallEndFirst(lines, start, i + 1);
    }
  }

  /** The loop over the characters of a line (component-editor.tsx:466-469): each `(` adds one
      to the depth and each `)` takes one away. */
  method CountParens(line: string, depth: int) returns (d: int)
    ensures d == depth + Balance(line)
  {
    d := depth;
    var k := 0;
    while k < |line|
      invariant 0 <= k <= |line|
      invariant d == depth + Balance(line[..k])
    {
      assert line[..k + 1][..k] == line[..k];
      if line[k] == '(' {
        d := d + 1;
      } else if line[k] == ')' {
        d := d - 1;
      }
      k := k + 1;
    }
    assert line[..k] == line;
  }

  /** The scan of component-editor.tsx:462-475: the parentheses of each line are counted one
      character at a time, and the count starts again on each line holding a call. */
  method FindEnd(lines: seq<string>, startIdx: nat) returns (endIdx: int)
    requires startIdx < |lines|
    ensures endIdx == CallEnd(lines, startIdx)
  {
    endIdx := -1;
    var braceDepth := 0;
    var i := startIdx;
    while i < |lines|
      invariant startIdx <= i <= |lines|
      invariant CallEndFrom(lines, startIdx, i) == CallEnd(lines, startIdx)
      invariant i == startIdx ==> braceDepth == 0
      invariant i > startIdx ==> braceDepth == DepthThrough(lines, startIdx, i - 1)
    {
      if Contains(lines[i], CallToken) {
        braceDepth := 0;
      }
      braceDepth := CountParens(lines[i], braceDepth);
      if braceDepth == 0 {
        endIdx := i;
        break;
      }
      i := i + 1;
    }
  }
}
