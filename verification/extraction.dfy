/**
 * The extraction pipelines: the text is split into chunks, each chunk is
 * sent to the model together with the document built so far, the answer is
 * cleaned of code fences, parsed, and merged into the document. The model
 * and the JSON parser are parameters: `ask` returns `None` when the call
 * raises, and `parse` returns `None` when the text is not a valid document.
 */
module Extraction {
  import opened Options
  import opened Text
  import Chunker
  import opened Fences
  import opened Requirements

  /** The model call for chunk `i` of `total`, given the document so far. */
  type Ask<!R> = (Document<R>, string, nat, nat) -> Option<string>

  /** `RequirementsDocument.model_validate_json`. */
  type Parse<R> = string -> Option<Document<R>>

  /** The model never raises. */
  ghost predicate AlwaysAnswers<R(!new)>(ask: Ask<R>) {
    forall d, c, i, n :: ask(d, c, i, n).Some?
  }

  /** One pass of the loop body after the model answered: clean, parse and
      merge; an answer that does not parse leaves the document unchanged. */
  function Step<R(==,!new)>(state: Document<R>, raw: string, parse: Parse<R>, key: R -> string): (r: Document<R>)
    ensures Extends(state, r)
    ensures parse(CleanOutput(raw)).None? ==> r == state
    ensures parse(CleanOutput(raw)).Some? ==> r == Update(state, parse(CleanOutput(raw)).value, key)
  {
    match parse(CleanOutput(raw))
    case None => state
    case Some(partial) =>
      UpdateExtends(state, partial, key);
      Update(state, partial, key)
  }

  /** The loop over chunks `i`, `i + 1`, ... of `total`; `None` when a model
      call raises, which nothing in the loop catches. */
  function RunChunks<R(==,!new)>(state: Document<R>, chunks: seq<string>, i: nat, total: nat,
                                 ask: Ask<R>, parse: Parse<R>, key: R -> string): Option<Document<R>>
    decreases |chunks|
  {
    if |chunks| == 0 then Some(state)
    else
      match ask(state, chunks[0], i, total)
      case None => None
      case Some(raw) => RunChunks(Step(state, raw, parse, key), chunks[1..], i + 1, total, ask, parse, key)
  }

  /** When the model never raises, the loop finishes. */
  lemma {:induction false} RunChunksCompletes<R(!new)>(state: Document<R>, chunks: seq<string>, i: nat, total: nat,
                                                       ask: Ask<R>, parse: Parse<R>, key: R -> string)
    requires AlwaysAnswers(ask)
    ensures RunChunks(state, chunks, i, total, ask, parse, key).Some?
    decreases |chunks|
  {
    if |chunks| > 0 {
      var raw := ask(state, chunks[0], i, total).value;
      RunChunksCompletes(Step(state, raw, parse, key), chunks[1..], i + 1, total, ask, parse, key);
    }
  }

  /** The final document keeps every group and requirement of the initial one. */
  lemma {:induction false} RunChunksExtends<R(!new)>(state: Document<R>, chunks: seq<string>, i: nat, total: nat,
                                                     ask: Ask<R>, parse: Parse<R>, key: R -> string)
    ensures var r := RunChunks(state, chunks, i, total, ask, parse, key);
      r.Some? ==> Extends(state, r.value)
    decreases |chunks|
  {
    var r := RunChunks(state, chunks, i, total, ask, parse, key);
    if |chunks| == 0 {
      assert r == Some(state);
    } else if r.Some? {
      var raw := ask(state, chunks[0], i, total).value;
      var next := Step(state, raw, parse, key);
      RunChunksExtends(next, chunks[1..], i + 1, total, ask, parse, key);
      ExtendsTransitive(state, next, r.value);
    }
  }

  /** Answers that never parse leave the document as it started. */
  lemma {:induction false} RunChunksUnparsable<R(!new)>(state: Document<R>, chunks: seq<string>, i: nat, total: nat,
                                                        ask: Ask<R>, parse: Parse<R>, key: R -> string)
    requires forall x :: parse(x).None?
    ensures var r := RunChunks(state, chunks, i, total, ask, parse, key);
      r.Some? ==> r.value == state
    decreases |chunks|
  {
    if |chunks| > 0 && ask(state, chunks[0], i, total).Some? {
      RunChunksUnparsable(state, chunks[1..], i + 1, total, ask, parse, key);
    }
  }

  /** Every document the parser can produce has one group per category and
      no repeated key inside a group. */
  ghost predicate WellFormedAnswers<R(!new)>(parse: Parse<R>, key: R -> string) {
    forall x :: parse(x).Some? ==> DistinctCategories(parse(x).value) && DistinctWithin(parse(x).value, key)
  }

  /** If every parsed answer is well formed, so is the document at every step:
      one group per category and no key twice in a group. */
  lemma {:induction false} RunChunksKeepsDistinct<R(!new)>(state: Document<R>, chunks: seq<string>, i: nat, total: nat,
                                                           ask: Ask<R>, parse: Parse<R>, key: R -> string)
    requires WellFormedAnswers(parse, key)
    requires DistinctCategories(state) && DistinctWithin(state, key)
    ensures var r := RunChunks(state, chunks, i, total, ask, parse, key);
      r.Some? ==> DistinctCategories(r.value) && DistinctWithin(r.value, key)
    decreases |chunks|
  {
    if |chunks| > 0 && ask(state, chunks[0], i, total).Some? {
      var raw := ask(state, chunks[0], i, total).value;
      var parsed := parse(CleanOutput(raw));
      if parsed.Some? {
        UpdateKeepsDistinctCategories(state, parsed.value, key);
        UpdateKeepsDistinctKeys(state, parsed.value, key);
      }
      RunChunksKeepsDistinct(Step(state, raw, parse, key), chunks[1..], i + 1, total, ask, parse, key);
    }
  }

  /** The `for i, chunk in enumerate(chunks, start=1)` loop, from an empty document. */
  method FoldChunks<R(==,!new)>(chunks: seq<string>, ask: Ask<R>, parse: Parse<R>, key: R -> string)
    returns (r: Option<Document<R>>)
    ensures r == RunChunks([], chunks, 1, |chunks|, ask, parse, key)
    ensures AlwaysAnswers(ask) ==> r.Some?
  {
    var state: Document<R> := [];
    var total := |chunks|;
    for i := 0 to total
      invariant RunChunks([], chunks, 1, total, ask, parse, key) == RunChunks(state, chunks[i..], i + 1, total, ask, parse, key)
    {
      assert chunks[i..][1..] == chunks[i + 1..];
      var raw := ask(state, chunks[i], i + 1, total);
      if raw.None? {
        return None;
      }
      var json := CleanOutput(raw.value);
      match parse(json) {
        case None =>
        case Some(partial) => state := Update(state, partial, key);
      }
    }
    assert chunks[total..] == [];
    r := Some(state);
    if AlwaysAnswers(ask) {
      RunChunksCompletes([], chunks, 1, total, ask, parse, key);
    }
  }

  /**
   * `process_requirements` of the deduplicating extractor: the title is
   * asked for first, the paragraphs are packed into chunks of at most 6000
   * characters, the chunks are folded in, and the requirements are then
   * renumbered "1", "2", ... in document order. `title` is the outcome of the
   * title call (`None` when it raised).
   */
  method ProcessRequirements(paras: seq<string>, title: Option<string>,
                             ask: Ask<Requirement>, parse: Parse<Requirement>)
    returns (r: Option<(string, Document<Requirement>)>, ghost chunks: seq<string>)
    ensures title.Some? ==> exists groups :: Chunker.SplitResult(paras, Chunker.DedupedMaxChunkSize, chunks, groups)
    ensures title.None? ==> r.None?
    ensures title.Some? ==>
      match RunChunks([], chunks, 1, |chunks|, ask, parse, DedupKey)
      case None => r.None?
      case Some(doc) => r == Some((title.value, Renumber(doc)))
    ensures title.Some? && AlwaysAnswers(ask) ==> r.Some?
    ensures r.Some? ==>
      var reqs := AllRequirements(r.value.1);
      forall k :: 0 <= k < |reqs| ==> reqs[k].id == NatToString(k + 1)
  {
    chunks := [];
    if title.None? {
      return None, chunks;
    }
    var split;
    ghost var groups;
    split, groups := Chunker.SplitContent(paras, Chunker.DedupedMaxChunkSize);
    chunks := split;
    var state := FoldChunks(split, ask, parse, DedupKey);
    if state.None? {
      return None, chunks;
    }
    r := Some((title.value, Renumber(state.value)));
  }

  /** `process_requirements` of the older extractor: chunks of at most 2000
      characters, requirements deduplicated by id, no renumbering. */
  method ProcessRequirementsBasic(paras: seq<string>, ask: Ask<BasicRequirement>, parse: Parse<BasicRequirement>)
    returns (r: Option<Document<BasicRequirement>>, ghost chunks: seq<string>)
    ensures exists groups :: Chunker.SplitResult(paras, Chunker.BasicMaxChunkSize, chunks, groups)
    ensures r == RunChunks([], chunks, 1, |chunks|, ask, parse, BasicKey)
    ensures AlwaysAnswers(ask) ==> r.Some?
  {
    var split;
    ghost var groups;
    split, groups := Chunker.SplitContent(paras, Chunker.BasicMaxChunkSize);
    chunks := split;
    r := FoldChunks(split, ask, parse, BasicKey);
  }
}
