/**
 * `split_content`: greedy packing of paragraphs into chunks of bounded size.
 * Both extraction modules carry an identical copy that differs only in the
 * default bound. Splitting the text into paragraphs (a regular expression in
 * the source) happens before this: the chunker receives the paragraphs.
 */
module Chunker {
  import opened Text

  /** The default bound of the deduplicating extractor. */
  const DedupedMaxChunkSize: int := 6000
  /** The default bound of the id-deduplicating extractor. */
  const BasicMaxChunkSize: int := 2000

  /** The text the loop accumulates for a run of paragraphs: each one followed
      by a blank-line separator. */
  function Terminated(paras: seq<string>): (r: string)
    ensures |r| >= 2 * |paras|
  {
    if |paras| == 0 then "" else paras[0] + "\n\n" + Terminated(paras[1..])
  }

  lemma {:induction false} TerminatedSnoc(paras: seq<string>, p: string)
    ensures Terminated(paras + [p]) == Terminated(paras) + p + "\n\n"
  {
    if |paras| > 0 {
      assert (paras + [p])[1..] == paras[1..] + [p];
      TerminatedSnoc(paras[1..], p);
    } else {
      assert paras + [p] == [p];
    }
  }

  function Flatten(groups: seq<seq<string>>): seq<string> {
    if |groups| == 0 then [] else groups[0] + Flatten(groups[1..])
  }

  lemma {:induction false} FlattenSnoc(groups: seq<seq<string>>, g: seq<string>)
    ensures Flatten(groups + [g]) == Flatten(groups) + g
  {
    if |groups| > 0 {
      assert (groups + [g])[1..] == groups[1..] + [g];
      FlattenSnoc(groups[1..], g);
    } else {
      assert groups + [g] == [g];
    }
  }

  /** The packing test: `len(current_chunk) + len(para) + 2 <= max_chunk_size`. */
  predicate Fits(current: string, para: string, maxSize: int) {
    |current| + |para| + 2 <= maxSize
  }

  /** The chunk text each group of paragraphs becomes: `current_chunk.strip()`. */
  function Render(groups: seq<seq<string>>): (r: seq<string>)
    ensures |r| == |groups|
    ensures forall j :: 0 <= j < |r| ==> r[j] == Strip(Terminated(groups[j]))
  {
    if |groups| == 0 then []
    else
      var init := groups[..|groups| - 1];
      assert forall j :: 0 <= j < |init| ==> init[j] == groups[j];
      Render(init) + [Strip(Terminated(groups[|groups| - 1]))]
  }

  /** Group `j` was closed because the first paragraph of group `j + 1` did not fit in it. */
  predicate ClosedByNext(groups: seq<seq<string>>, j: int, maxSize: int)
    requires 0 <= j < |groups| - 1 && groups[j + 1] != []
  {
    !Fits(Terminated(groups[j]), groups[j + 1][0], maxSize)
  }

  /** The shape greedy packing gives a list of groups: only the first group may
      be empty, a group over the bound holds at most one paragraph, and each
      group was closed because the next paragraph did not fit. */
  ghost predicate GreedyPacked(groups: seq<seq<string>>, maxSize: int) {
    && (forall j :: 1 <= j < |groups| ==> groups[j] != [])
    && (forall j :: 0 <= j < |groups| ==> |groups[j]| <= 1 || |Terminated(groups[j])| <= maxSize)
    && (forall j :: 0 <= j < |groups| - 1 ==> ClosedByNext(groups, j, maxSize))
  }

  /** Closing a group that satisfies the packing conditions keeps the shape. */
  lemma GreedyPackedSnoc(groups: seq<seq<string>>, cur: seq<string>, maxSize: int)
    requires GreedyPacked(groups, maxSize)
    requires |cur| <= 1 || |Terminated(cur)| <= maxSize
    requires |groups| > 0 ==> cur != [] && !Fits(Terminated(groups[|groups| - 1]), cur[0], maxSize)
    ensures GreedyPacked(groups + [cur], maxSize)
  {
    var gs := groups + [cur];
    forall j | 1 <= j < |gs| ensures gs[j] != [] {
      if j < |groups| { assert gs[j] == groups[j]; }
    }
    forall j | 0 <= j < |gs| ensures |gs[j]| <= 1 || |Terminated(gs[j])| <= maxSize {
      if j < |groups| { assert gs[j] == groups[j]; }
    }
    forall j | 0 <= j < |gs| - 1 ensures ClosedByNext(gs, j, maxSize) {
      assert gs[j] == groups[j];
      if j + 1 < |groups| {
        assert ClosedByNext(groups, j, maxSize);
        assert gs[j + 1] == groups[j + 1];
      }
    }
  }

  lemma RenderSnoc(groups: seq<seq<string>>, cur: seq<string>)
    ensures Render(groups + [cur]) == Render(groups) + [Strip(Terminated(cur))]
  {
    assert (groups + [cur])[..|groups|] == groups;
  }

  /** What holds after the loop of `split_content` has consumed `paras[..i]`:
      `groups` are the closed chunks and `cur` the paragraphs of the open one. */
  ghost predicate Packing(paras: seq<string>, i: int, maxSize: int, chunks: seq<string>,
                          groups: seq<seq<string>>, current: string, cur: seq<string>)
  {
    && 0 <= i <= |paras|
    && current == Terminated(cur)
    && chunks == Render(groups)
    && Flatten(groups) + cur == paras[..i]
    && (i == 0 ==> cur == [] && groups == [])
    && (i > 0 ==> cur != [])
    && GreedyPacked(groups, maxSize)
    && (|cur| <= 1 || |current| <= maxSize)
    && (|groups| > 0 && cur != [] ==> !Fits(Terminated(groups[|groups| - 1]), cur[0], maxSize))
    && (|groups| > 0 ==> (groups[0] == [] <==> !Fits("", paras[0], maxSize)))
    && (i > 0 && groups == [] ==> Fits("", paras[0], maxSize))
  }

  /** The next paragraph fits: it joins the open chunk. */
  lemma PackKeep(paras: seq<string>, i: int, maxSize: int, chunks: seq<string>,
                 groups: seq<seq<string>>, current: string, cur: seq<string>)
    requires Packing(paras, i, maxSize, chunks, groups, current, cur)
    requires i < |paras| && Fits(current, paras[i], maxSize)
    ensures Packing(paras, i + 1, maxSize, chunks, groups, current + paras[i] + "\n\n", cur + [paras[i]])
  {
    assert paras[..i + 1] == paras[..i] + [paras[i]];
    TerminatedSnoc(cur, paras[i]);
    assert cur != [] ==> (cur + [paras[i]])[0] == cur[0];
  }

  /** The next paragraph does not fit: the open chunk is closed and the
      paragraph starts a new one. */
  lemma PackClose(paras: seq<string>, i: int, maxSize: int, chunks: seq<string>,
                  groups: seq<seq<string>>, current: string, cur: seq<string>)
    requires Packing(paras, i, maxSize, chunks, groups, current, cur)
    requires i < |paras| && !Fits(current, paras[i], maxSize)
    ensures Packing(paras, i + 1, maxSize, chunks + [Strip(current)], groups + [cur], paras[i] + "\n\n", [paras[i]])
  {
    assert paras[..i + 1] == paras[..i] + [paras[i]];
    FlattenSnoc(groups, cur);
    GreedyPackedSnoc(groups, cur, maxSize);
    RenderSnoc(groups, cur);
    assert paras[i] + "\n\n" == Terminated([paras[i]]);
  }

  /** After the loop: the open chunk is emitted unless it is empty. */
  lemma PackDone(paras: seq<string>, maxSize: int, chunks: seq<string>,
                 groups: seq<seq<string>>, current: string, cur: seq<string>)
    requires Packing(paras, |paras|, maxSize, chunks, groups, current, cur)
    ensures current != "" ==> SplitResult(paras, maxSize, chunks + [Strip(current)], groups + [cur])
    ensures current == "" ==> SplitResult(paras, maxSize, chunks, groups)
  {
    assert paras[..|paras|] == paras;
    if current != "" {
      FlattenSnoc(groups, cur);
      GreedyPackedSnoc(groups, cur, maxSize);
      RenderSnoc(groups, cur);
    } else {
      assert cur == [];
    }
  }

  /** The contract of `split_content`, with `groups` naming the paragraphs
      packed into each chunk. */
  ghost predicate SplitResult(paras: seq<string>, maxSize: int, chunks: seq<string>, groups: seq<seq<string>>) {
    && chunks == Render(groups)
    && Flatten(groups) == paras
    && (|paras| == 0 <==> chunks == [])
    && GreedyPacked(groups, maxSize)
    && (|paras| > 0 ==> (groups[0] == [] <==> !Fits("", paras[0], maxSize)))
  }

  /**
   * `split_content` over already-split paragraphs. The ghost `groups` names,
   * for each chunk, the paragraphs it was packed from; the contract then says
   * that the chunks keep every paragraph in order, that a chunk exceeds the
   * bound only when it holds at most one paragraph, that every chunk was
   * closed only because the next paragraph did not fit, and that a first
   * paragraph too big for an empty chunk produces a leading empty chunk.
   */
  method SplitContent(paras: seq<string>, maxSize: int) returns (chunks: seq<string>, ghost groups: seq<seq<string>>)
    ensures SplitResult(paras, maxSize, chunks, groups)
    ensures |paras| > 0 && !Fits("", paras[0], maxSize) ==> chunks[0] == ""
  {
    chunks := [];
    groups := [];
    var current := "";
    ghost var cur: seq<string> := [];
    for i := 0 to |paras|
      invariant Packing(paras, i, maxSize, chunks, groups, current, cur)
    {
      var para := paras[i];
      if |current| + |para| + 2 <= maxSize {
        PackKeep(paras, i, maxSize, chunks, groups, current, cur);
        current := current + para + "\n\n";
        cur := cur + [para];
      } else {
        PackClose(paras, i, maxSize, chunks, groups, current, cur);
        chunks := chunks + [Strip(current)];
        groups := groups + [cur];
        current := para + "\n\n";
        cur := [para];
      }
    }
    PackDone(paras, maxSize, chunks, groups, current, cur);
    if current != "" {
      chunks := chunks + [Strip(current)];
      groups := groups + [cur];
    }
  }
}
