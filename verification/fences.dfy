/**
 * The cleaning every model answer goes through before it is parsed:
 * `raw.replace(opening, "").replace("```", "").strip()`, where `opening` is
 * "```json" for JSON answers and "```markdown" for the converter. Every
 * occurrence is removed, not only those at the edges.
 */
module Fences {
  import opened Text

  const JsonFence: string := "```json"
  const MarkdownFence: string := "```markdown"

  /** The cleaned answer has no fence left in it and no whitespace at either end. */
  function Unfence(raw: string, opening: string): (r: string)
    requires |opening| > 0
    ensures !Contains(r, Fence)
    ensures IsStripped(r)
  {
    var unfenced := RemoveAll(RemoveAll(raw, opening), Fence);
    RemoveFenceLeavesNone(RemoveAll(raw, opening));
    StripNoFence(unfenced);
    Strip(unfenced)
  }

  /** Stripping cannot create a fence. */
  lemma StripNoFence(s: string)
    requires !Contains(s, Fence)
    ensures !Contains(Strip(s), Fence)
  {
    StripSlice(s);
    var k :| IsSliceAt(Strip(s), s, k);
    SliceNoFence(s, k, k + |Strip(s)|);
  }

  /** The cleaning of a JSON answer. */
  function CleanOutput(raw: string): (r: string)
    ensures !Contains(r, Fence)
    ensures IsStripped(r)
  {
    Unfence(raw, JsonFence)
  }

  /** An answer wrapped in a code block opened by `opening` comes out as the
      block's body, stripped. */
  lemma UnfenceWrapped(body: string, opening: string)
    requires |opening| > |Fence| && opening[0] == '`' && NoTicks(body)
    ensures Unfence(opening + body + Fence, opening) == Strip(body)
  {
    var s := opening + body + Fence;
    assert s[..|opening|] == opening;
    assert s[|opening|..] == body + Fence;
    RemoveAllTickFree(body, Fence, opening);
    assert RemoveAll(Fence, opening) == Fence;
    assert RemoveAll(s, opening) == body + Fence;
    RemoveAllTickFree(body, Fence, Fence);
    assert Fence[..3] == Fence && Fence[3..] == "";
    assert RemoveAll(Fence, Fence) == "";
    assert body + "" == body;
  }

  /** A block that starts and ends with a backtick has nothing to strip. */
  lemma WrappedStripped(opening: string, body: string)
    requires |opening| > 0 && opening[0] == '`'
    ensures Strip(opening + body + Fence) == opening + body + Fence
  {
    var s := opening + body + Fence;
    assert s[0] == '`' && s[|s| - 1] == '`';
    StripStripped(s);
  }

  /** An answer without backticks is only stripped. */
  lemma UnfencePlain(body: string, opening: string)
    requires |opening| > 0 && opening[0] == '`' && NoTicks(body)
    ensures Unfence(body, opening) == Strip(body)
  {
    RemoveAllTickFree(body, "", opening);
    RemoveAllTickFree(body, "", Fence);
    assert body + "" == body;
  }

  /** The JSON answer cases: a fenced block gives its body, a plain answer is
      only stripped. */
  lemma CleanOutputCases(body: string)
    requires NoTicks(body)
    ensures CleanOutput(JsonFence + body + Fence) == Strip(body)
    ensures CleanOutput(body) == Strip(body)
  {
    UnfenceWrapped(body, JsonFence);
    UnfencePlain(body, JsonFence);
  }
}
