// updateElementInCode (components/component-editor.tsx:430-569): the code is split into lines,
// the lines of the React.createElement call carrying the element's data-v0-id are located, that
// block of lines is patched with the new style and text, and the lines are joined again.

module Editor {
  import opened Text
  import opened Locator
  import opened Patcher

  /** Lines `s` to `e` are the element's call: line `s` is the first line that opens it, and `e`
      is the first line from `s` on where the parenthesis depth is back to 0. */
  predicate IsCallSpan(lines: seq<string>, id: string, s: nat, e: nat) {
    s <= e < |lines| && Opens(lines, s, id) && (forall k :: 0 <= k < s ==> !Opens(lines, k, id)) &&
    DepthThrough(lines, s, e) == 0 && (forall k :: s <= k < e ==> DepthThrough(lines, s, k) != 0)
  }

  /** `startIdx` and `endIdx` of the two scans, or None when either stays -1: a start line and
      an end line at or after it (`LocateIsCallSpan` and `LocateNone` say which). */
  function Locate(lines: seq<string>, id: string): (r: Option<(nat, nat)>)
    ensures r.Some? ==> r.value.0 <= r.value.1 < |lines|
  {
    var s := FirstStart(lines, id);
    if s < 0 then None
    else
      var e := CallEnd(lines, s);
      if e < 0 then None else Some((s, e))
  }

  /** The call is unique: the lines found are exactly the element's call, both directions. */
  lemma LocateIsCallSpan(lines: seq<string>, id: string, s: nat, e: nat)
    ensures Locate(lines, id) == Some((s, e)) <==> IsCallSpan(lines, id, s, e)
  {
    StartFromFirst(lines, id, 0);
    var f := FirstStart(lines, id);
    if f >= 0 {
      CallEndFirst(lines, f, f);
    }
    if IsCallSpan(lines, id, s, e) {
      assert Opens(lines, s, id);
      assert f == s;
      CallEndFirst(lines, s, s);
      assert DepthThrough(lines, s, e) == 0;
      assert CallEnd(lines, s) == e;
    }
  }

  /** None exactly when the code holds no call for the element. */
  lemma LocateNone(lines: seq<string>, id: string)
    ensures Locate(lines, id).None? <==> forall s: nat, e: nat :: !IsCallSpan(lines, id, s, e)
  {
    var r := Locate(lines, id);
    if r.Some? {
      LocateIsCallSpan(lines, id, r.value.0, r.value.1);
    } else {
      forall s: nat, e: nat ensures !IsCallSpan(lines, id, s, e) {
        LocateIsCallSpan(lines, id, s, e);
      }
    }
  }

  /** The lines with the element's call, if the code holds one, replaced by `patch` of its
      lines. */
  function Splice(lines: seq<string>, id: string, patch: seq<string> -> seq<string>): seq<string> {
    match Locate(lines, id)
    case None => lines
    case Some((s, e)) => lines[..s] + patch(lines[s..e + 1]) + lines[e + 1..]
  }

  /** The lines returned when the call spans lines `s` to `e`. */
  lemma SpliceAt(lines: seq<string>, id: string, patch: seq<string> -> seq<string>, s: nat, e: nat)
    requires Locate(lines, id) == Some((s, e))
    ensures e < |lines| && Splice(lines, id, patch) == lines[..s] + patch(lines[s..e + 1]) + lines[e + 1..]
  {
    var loc := Locate(lines, id);
    assert loc.value.0 == s && loc.value.1 == e;
  }

  /** The lines with the element's call patched. */
  function UpdatedLines(lines: seq<string>, id: string, p: Properties): seq<string> {
    Splice(lines, id, block => PatchBlock(block, p))
  }

  /** The code the editor returns (component-editor.tsx:432-568). */
  function UpdatedCode(code: string, id: string, p: Properties): string {
    var lines := Split(code);
    if Locate(lines, id).None? then code else Join(UpdatedLines(lines, id, p))
  }

  /** The two scans of component-editor.tsx:437-475, the second only when the first finds the
      start. */
  method LocateCall(lines: seq<string>, id: string) returns (loc: Option<(nat, nat)>)
    ensures loc == Locate(lines, id)
  {
    var startIdx := FindStart(lines, id);
    if startIdx == -1 {
      return None;
    }
    var endIdx := FindEnd(lines, startIdx);
    if endIdx == -1 {
      return None;
    }
    return Some((startIdx, endIdx));
  }

  /** When the code holds no call for the element, it is returned unchanged. */
  lemma NoCallUnchanged(code: string, id: string, p: Properties)
    requires forall s: nat, e: nat :: !IsCallSpan(Split(code), id, s, e)
    ensures UpdatedCode(code, id, p) == code
  {
    LocateNone(Split(code), id);
  }

  /** The lines returned when the call spans lines `s` to `e`. */
  lemma UpdatedLinesAt(lines: seq<string>, id: string, p: Properties, s: nat, e: nat)
    requires Locate(lines, id) == Some((s, e))
    ensures e < |lines| && UpdatedLines(lines, id, p) == lines[..s] + PatchBlock(lines[s..e + 1], p) + lines[e + 1..]
  {
    SpliceAt(lines, id, block => PatchBlock(block, p), s, e);
  }

  /** updateElementInCode: locate the call, patch its block of lines, put the lines back. */
  method UpdateElementInCode(code: string, targetId: string, properties: Properties) returns (result: string)
    ensures result == UpdatedCode(code, targetId, properties)
  {
    var lines := Split(code);
    var loc := LocateCall(lines, targetId);
    if loc == None {
      return code;
    }
    var (startIdx, endIdx) := loc.value;
    var block := lines[startIdx..endIdx + 1];
    UpdatedLinesAt(lines, targetId, properties, startIdx, endIdx);
    var newBlock := Patch(block, properties);
    var updatedLines := lines[..startIdx] + newBlock + lines[endIdx + 1..];
    result := Join(updatedLines);
  }

  /** Only the text of the call's lines changes: the code before and after it is kept. */
  lemma EditIsLocal(code: string, id: string, p: Properties, s: nat, e: nat)
    requires IsCallSpan(Split(code), id, s, e)
    ensures var lines := Split(code);
      var before := LinesBefore(lines[..s]);
      var after := LinesAfter(lines[e + 1..]);
      code == before + Join(lines[s..e + 1]) + after &&
      UpdatedCode(code, id, p) == before + Join(PatchBlock(lines[s..e + 1], p)) + after
  {
    var lines := Split(code);
    LocateIsCallSpan(lines, id, s, e);
    SplitAround(code, s, e);
    var block := lines[s..e + 1];
    var patched := PatchBlock(block, p);
    UpdatedLinesAt(lines, id, p, s, e);
    JoinAround(lines[..s], patched, lines[e + 1..]);
  }

  /** The lines the source returns as written (`PatchBlockAsWritten`). */
  function UpdatedLinesAsWritten(lines: seq<string>, id: string, p: Properties): seq<string> {
    Splice(lines, id, block => PatchBlockAsWritten(block, p))
  }

  /** The code the source returns as written. */
  function UpdatedCodeAsWritten(code: string, id: string, p: Properties): string {
    var lines := Split(code);
    if Locate(lines, id).None? then code else Join(UpdatedLinesAsWritten(lines, id, p))
  }

  /** The source's lines as written when the call spans lines `s` to `e`. */
  lemma UpdatedLinesAsWrittenAt(lines: seq<string>, id: string, p: Properties, s: nat, e: nat)
    requires Locate(lines, id) == Some((s, e))
    ensures e < |lines| && UpdatedLinesAsWritten(lines, id, p) == lines[..s] + PatchBlockAsWritten(lines[s..e + 1], p) + lines[e + 1..]
  {
    SpliceAt(lines, id, block => PatchBlockAsWritten(block, p), s, e);
  }

  /** For a text without `$`, and an element whose inserted style property, if any, needs no
      comma, the source's code as written is the model's. */
  lemma UpdatedCodeAgrees(code: string, id: string, p: Properties)
    requires '$' !in p.text
    requires forall s: nat, e: nat :: IsCallSpan(Split(code), id, s, e) ==>
      StyleNeedsNoComma(Split(code)[s..e + 1], LayoutOf(Split(code)[s..e + 1]))
    ensures UpdatedCodeAsWritten(code, id, p) == UpdatedCode(code, id, p)
  {
    var lines := Split(code);
    var loc := Locate(lines, id);
    if loc.Some? {
      var (s, e) := loc.value;
      assert UpdatedLinesAsWritten(lines, id, p) == UpdatedLines(lines, id, p) by {
        LocateIsCallSpan(lines, id, s, e);
        var block := lines[s..e + 1];
        assert StyleNeedsNoComma(block, LayoutOf(block));
        PatchAgrees(block, p);
        UpdatedLinesAt(lines, id, p, s, e);
        UpdatedLinesAsWrittenAt(lines, id, p, s, e);
      }
    }
  }
}
