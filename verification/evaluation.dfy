/**
 * The evaluation modules: `EvaluationOutput` and its `update` merge, and the
 * `process_article_sections` loops that send each section to the model
 * together with the evaluation built so far, clean the answer of code
 * fences, parse it and merge it in.
 *
 * The three copies of `update` are the same code; they differ only in
 * record fields the merge never reads (sentence and section indices, a
 * requirement's `classification` and `overlap_notes`), which are optional
 * here. The model and the JSON parser are parameters: `ask` returns `None`
 * when the call raises, and `parse` returns `None` when the text is not a
 * valid evaluation.
 */
module Evaluation {
  import opened Options
  import opened Fences
  import Keyed
  import Markdown

  datatype RequirementEvaluation = RequirementEvaluation(
    requirementId: string,
    requirementCategory: string,
    classification: Option<string>,
    applicable: bool,
    applicabilityReasoning: Option<string>,
    score: Option<real>,
    confidence: Option<real>,
    evidence: Option<string>,
    reasoning: Option<string>,
    overlapNotes: Option<string>)

  datatype SentenceEvaluation = SentenceEvaluation(
    index: Option<int>,
    sentence: string,
    requirementEvaluations: seq<RequirementEvaluation>,
    metaNotes: Option<string>)

  datatype SectionEvaluation = SectionEvaluation(
    index: Option<int>,
    title: string,
    sentenceEvaluations: Option<seq<SentenceEvaluation>>,
    requirementEvaluations: seq<RequirementEvaluation>,
    metaNotes: Option<string>)

  datatype ArticleEvaluation = ArticleEvaluation(
    requirementEvaluations: seq<RequirementEvaluation>,
    metaNotes: Option<string>)

  datatype EvaluationOutput = EvaluationOutput(
    sections: seq<SectionEvaluation>,
    article: Option<ArticleEvaluation>)

  /** The state every loop starts from: no sections and an empty article evaluation. */
  const Initial := EvaluationOutput([], Some(ArticleEvaluation([], None)))

  function RequirementId(e: RequirementEvaluation): string { e.requirementId }

  /** The sentence evaluations of a section, with `None` read as none. */
  function SentencesOf(o: Option<seq<SentenceEvaluation>>): seq<SentenceEvaluation> {
    o.GetOr([])
  }

  /* ---------------------------------------------------------------------- */
  /* Merging one section.                                                     */

  /** Sentence evaluations are concatenated, never deduplicated; a missing
      list becomes a list only when there is something to add to it. */
  function MergeSentences(existing: Option<seq<SentenceEvaluation>>, incoming: Option<seq<SentenceEvaluation>>)
    : (r: Option<seq<SentenceEvaluation>>)
    ensures SentencesOf(r) == SentencesOf(existing) + SentencesOf(incoming)
    ensures r.None? <==> existing.None? && SentencesOf(incoming) == []
  {
    if SentencesOf(incoming) != [] then Some(SentencesOf(existing) + SentencesOf(incoming)) else existing
  }

  /** The update of an existing section by an incoming one with its title:
      requirement evaluations with an id the section did not have are
      appended, sentence evaluations are appended, the rest is kept. */
  function MergeSection(target: SectionEvaluation, incoming: SectionEvaluation): (r: SectionEvaluation)
    ensures r.index == target.index && r.title == target.title && r.metaNotes == target.metaNotes
    ensures Keyed.IsPrefix(target.requirementEvaluations, r.requirementEvaluations)
    ensures forall x :: x in r.requirementEvaluations[|target.requirementEvaluations|..] <==>
              x in incoming.requirementEvaluations
              && RequirementId(x) !in Keyed.Keys(target.requirementEvaluations, RequirementId)
    ensures SentencesOf(r.sentenceEvaluations) == SentencesOf(target.sentenceEvaluations) + SentencesOf(incoming.sentenceEvaluations)
  {
    target.(requirementEvaluations := Keyed.AppendNew(target.requirementEvaluations, incoming.requirementEvaluations, RequirementId),
            sentenceEvaluations := MergeSentences(target.sentenceEvaluations, incoming.sentenceEvaluations))
  }

  /** The requirement evaluations a section merge appends are the incoming
      ones with an id the section lacked, in their order and once each. */
  lemma MergeSectionOrder(target: SectionEvaluation, incoming: SectionEvaluation)
    ensures Keyed.UnseenOf(MergeSection(target, incoming).requirementEvaluations[|target.requirementEvaluations|..],
                           incoming.requirementEvaluations, Keyed.Keys(target.requirementEvaluations, RequirementId), RequirementId)
  {
    Keyed.AppendNewOrder(target.requirementEvaluations, incoming.requirementEvaluations, RequirementId);
  }

  /** `b` is `a` after merges: same index, title and notes, and both lists
      only grew at the end. */
  ghost predicate SectionGrows(a: SectionEvaluation, b: SectionEvaluation) {
    && a.index == b.index && a.title == b.title && a.metaNotes == b.metaNotes
    && Keyed.IsPrefix(a.requirementEvaluations, b.requirementEvaluations)
    && Keyed.IsPrefix(SentencesOf(a.sentenceEvaluations), SentencesOf(b.sentenceEvaluations))
  }

  lemma SectionGrowsTransitive(a: SectionEvaluation, b: SectionEvaluation, c: SectionEvaluation)
    requires SectionGrows(a, b) && SectionGrows(b, c)
    ensures SectionGrows(a, c)
  {
    Keyed.PrefixOfPrefix(a.requirementEvaluations, b.requirementEvaluations, c.requirementEvaluations);
    Keyed.PrefixOfPrefix(SentencesOf(a.sentenceEvaluations), SentencesOf(b.sentenceEvaluations), SentencesOf(c.sentenceEvaluations));
  }

  /** Merging the same section twice keeps the requirement evaluations of the
      first merge but appends its sentence evaluations a second time. */
  lemma MergeSectionTwice(target: SectionEvaluation, incoming: SectionEvaluation)
    ensures var once := MergeSection(target, incoming);
      var twice := MergeSection(once, incoming);
      && twice.requirementEvaluations == once.requirementEvaluations
      && SentencesOf(twice.sentenceEvaluations) == SentencesOf(once.sentenceEvaluations) + SentencesOf(incoming.sentenceEvaluations)
  {
    Keyed.AppendNewIdempotent(target.requirementEvaluations, incoming.requirementEvaluations, RequirementId);
  }

  /* ---------------------------------------------------------------------- */
  /* Merging the section list.                                                */

  function Titles(sections: seq<SectionEvaluation>): set<string> {
    set j | 0 <= j < |sections| :: sections[j].title
  }

  /** The position `next(s for s in self.sections if s.title == title)` finds. */
  function FirstTitled(sections: seq<SectionEvaluation>, t: string): (k: nat)
    requires t in Titles(sections)
    ensures k < |sections| && sections[k].title == t
    ensures forall j :: 0 <= j < k ==> sections[j].title != t
  {
    if sections[0].title == t then 0
    else
      assert t in Titles(sections[1..]) by {
        var j :| 0 <= j < |sections| && sections[j].title == t;
        assert sections[1..][j - 1] == sections[j];
      }
      1 + FirstTitled(sections[1..], t)
  }

  /** The loop of `update` over the incoming sections, with `snapshot` the
      titles present when the call began. */
  function MergeSections(cur: seq<SectionEvaluation>, incoming: seq<SectionEvaluation>, snapshot: set<string>)
    : (r: seq<SectionEvaluation>)
    requires snapshot <= Titles(cur)
    ensures snapshot <= Titles(r)
    ensures |cur| <= |r|
    decreases |incoming|
  {
    if |incoming| == 0 then cur
    else
      var s := incoming[0];
      if s.title !in snapshot then
        TitlesSnoc(cur, s);
        MergeSections(cur + [s], incoming[1..], snapshot)
      else
        var k := FirstTitled(cur, s.title);
        var next := cur[k := MergeSection(cur[k], s)];
        assert Titles(next) == Titles(cur) by {
          forall t | t in Titles(cur) ensures t in Titles(next) {
            var j :| 0 <= j < |cur| && cur[j].title == t;
            assert next[j].title == t;
          }
          forall t | t in Titles(next) ensures t in Titles(cur) {
            var j :| 0 <= j < |next| && next[j].title == t;
            assert cur[j].title == t;
          }
        }
        MergeSections(next, incoming[1..], snapshot)
  }

  lemma TitlesSnoc(sections: seq<SectionEvaluation>, s: SectionEvaluation)
    ensures Titles(sections + [s]) == Titles(sections) + {s.title}
  {
    assert (sections + [s])[|sections|] == s;
    assert forall j :: 0 <= j < |sections| ==> (sections + [s])[j] == sections[j];
  }

  /** The article evaluation is adopted when there is none yet; otherwise
      the incoming requirement evaluations with a new id are appended. */
  function MergeArticle(mine: Option<ArticleEvaluation>, theirs: Option<ArticleEvaluation>): (r: Option<ArticleEvaluation>)
    ensures theirs.None? ==> r == mine
    ensures mine.None? ==> r == theirs
    ensures mine.Some? && theirs.Some? ==>
      && r.Some? && r.value.metaNotes == mine.value.metaNotes
      && Keyed.IsPrefix(mine.value.requirementEvaluations, r.value.requirementEvaluations)
      && forall x :: x in r.value.requirementEvaluations[|mine.value.requirementEvaluations|..] <==>
           x in theirs.value.requirementEvaluations
           && RequirementId(x) !in Keyed.Keys(mine.value.requirementEvaluations, RequirementId)
  {
    match theirs
    case None => mine
    case Some(a) =>
      match mine
      case None => theirs
      case Some(m) =>
        Some(m.(requirementEvaluations := Keyed.AppendNew(m.requirementEvaluations, a.requirementEvaluations, RequirementId)))
  }

  /** `EvaluationOutput.update`. */
  function Update(state: EvaluationOutput, other: EvaluationOutput): (r: EvaluationOutput)
    ensures Titles(state.sections) <= Titles(r.sections)
    ensures |state.sections| <= |r.sections|
  {
    EvaluationOutput(MergeSections(state.sections, other.sections, Titles(state.sections)),
                     MergeArticle(state.article, other.article))
  }

  /** The incoming sections whose title is not in `snapshot`, in order. */
  function NewSections(incoming: seq<SectionEvaluation>, snapshot: set<string>): (r: seq<SectionEvaluation>)
    ensures |r| <= |incoming|
  {
    if |incoming| == 0 then []
    else if incoming[0].title !in snapshot then [incoming[0]] + NewSections(incoming[1..], snapshot)
    else NewSections(incoming[1..], snapshot)
  }

  /* ---------------------------------------------------------------------- */
  /* The shape of an update.                                                  */

  /** Section `j` is the one an incoming section of its title merges into. */
  ghost predicate Touched(sections: seq<SectionEvaluation>, j: int, incoming: seq<SectionEvaluation>)
    requires 0 <= j < |sections|
  {
    exists s :: s in incoming && s.title == sections[j].title && j == FirstTitled(sections, sections[j].title)
  }

  /** The partly merged list `cur` against the original `orig` (its first `n`
      sections), while the sections of `all` are merged in. */
  ghost predicate Tracks(cur: seq<SectionEvaluation>, n: nat, orig: seq<SectionEvaluation>, all: seq<SectionEvaluation>) {
    && n <= |cur| && |orig| == n
    && (forall j :: 0 <= j < n ==> SectionGrows(orig[j], cur[j]))
    && (forall j :: 0 <= j < n && !Touched(orig, j, all) ==> cur[j] == orig[j])
  }

  /** The first position with a title is determined by its defining property. */
  lemma FirstTitledIs(sections: seq<SectionEvaluation>, t: string, k: nat)
    requires k < |sections| && sections[k].title == t
    requires forall j :: 0 <= j < k ==> sections[j].title != t
    ensures t in Titles(sections) && FirstTitled(sections, t) == k
  {
    var m := FirstTitled(sections, t);
    assert !(m < k);
    assert !(k < m);
  }

  /** While the original sections keep their titles, an original title is
      found where it was. */
  lemma FirstTitledTracks(cur: seq<SectionEvaluation>, n: nat, orig: seq<SectionEvaluation>, all: seq<SectionEvaluation>, t: string)
    requires Tracks(cur, n, orig, all) && t in Titles(orig)
    ensures t in Titles(cur) && FirstTitled(cur, t) == FirstTitled(orig, t) < n
  {
    var k := FirstTitled(orig, t);
    assert SectionGrows(orig[k], cur[k]);
    forall j | 0 <= j < k ensures cur[j].title != t {
      assert SectionGrows(orig[j], cur[j]);
    }
    FirstTitledIs(cur, t, k);
  }

  lemma TracksAppend(cur: seq<SectionEvaluation>, n: nat, orig: seq<SectionEvaluation>, all: seq<SectionEvaluation>, s: SectionEvaluation)
    requires Tracks(cur, n, orig, all)
    ensures Tracks(cur + [s], n, orig, all) && (cur + [s])[n..] == cur[n..] + [s]
  {
    assert forall j :: 0 <= j < n ==> (cur + [s])[j] == cur[j];
  }

  lemma TracksMerge(cur: seq<SectionEvaluation>, n: nat, orig: seq<SectionEvaluation>, all: seq<SectionEvaluation>, s: SectionEvaluation)
    requires Tracks(cur, n, orig, all) && s in all && s.title in Titles(orig)
    ensures s.title in Titles(cur)
    ensures var k := FirstTitled(cur, s.title);
      && Tracks(cur[k := MergeSection(cur[k], s)], n, orig, all)
      && cur[k := MergeSection(cur[k], s)][n..] == cur[n..]
  {
    FirstTitledTracks(cur, n, orig, all, s.title);
    var k := FirstTitled(cur, s.title);
    var merged := MergeSection(cur[k], s);
    var next := cur[k := merged];
    assert SectionGrows(cur[k], merged);
    assert SectionGrows(orig[k], merged) by {
      SectionGrowsTransitive(orig[k], cur[k], merged);
    }
    assert Touched(orig, k, all) by {
      assert s in all && s.title == orig[k].title && k == FirstTitled(orig, orig[k].title);
    }
    assert next[n..] == cur[n..];
  }

  lemma TitlesTracked(cur: seq<SectionEvaluation>, n: nat, orig: seq<SectionEvaluation>, all: seq<SectionEvaluation>)
    requires Tracks(cur, n, orig, all)
    ensures Titles(orig) <= Titles(cur)
  {
    forall t | t in Titles(orig) ensures t in Titles(cur) {
      var j :| 0 <= j < n && orig[j].title == t;
      assert SectionGrows(orig[j], cur[j]);
    }
  }

  lemma {:induction false} MergeSectionsShape(cur: seq<SectionEvaluation>, rest: seq<SectionEvaluation>, snapshot: set<string>,
                                              n: nat, orig: seq<SectionEvaluation>, all: seq<SectionEvaluation>)
    requires Tracks(cur, n, orig, all)
    requires forall s :: s in rest ==> s in all
    requires snapshot == Titles(orig)
    ensures snapshot <= Titles(cur)
    ensures var r := MergeSections(cur, rest, snapshot);
      && r[n..] == cur[n..] + NewSections(rest, snapshot)
      && Tracks(r, n, orig, all)
    decreases |rest|
  {
    TitlesTracked(cur, n, orig, all);
    if |rest| == 0 {
      assert cur[n..] + [] == cur[n..];
    } else {
      var s := rest[0];
      assert forall h :: h in rest[1..] ==> h in rest;
      if s.title !in snapshot {
        TracksAppend(cur, n, orig, all, s);
        MergeSectionsShape(cur + [s], rest[1..], snapshot, n, orig, all);
        assert NewSections(rest, snapshot) == [s] + NewSections(rest[1..], snapshot);
        assert (cur[n..] + [s]) + NewSections(rest[1..], snapshot) == cur[n..] + ([s] + NewSections(rest[1..], snapshot));
      } else {
        TracksMerge(cur, n, orig, all, s);
        var k := FirstTitled(cur, s.title);
        MergeSectionsShape(cur[k := MergeSection(cur[k], s)], rest[1..], snapshot, n, orig, all);
      }
    }
  }

  /**
   * What `update` does to the sections: the sections present at the start
   * keep their place, index, title and notes and only gain evaluations at
   * the end of their lists; a section changes only when it is the first one
   * with the title of some incoming section; and the incoming sections with
   * a title unknown at the start are appended, whole and in order, at the end.
   */
  lemma UpdateShape(state: EvaluationOutput, other: EvaluationOutput)
    ensures Update(state, other).sections[|state.sections|..] == NewSections(other.sections, Titles(state.sections))
    ensures forall j :: 0 <= j < |state.sections| ==> SectionGrows(state.sections[j], Update(state, other).sections[j])
    ensures forall j :: 0 <= j < |state.sections| && !Touched(state.sections, j, other.sections) ==>
              Update(state, other).sections[j] == state.sections[j]
  {
    var s := state.sections;
    MergeSectionsShape(s, other.sections, Titles(s), |s|, s, other.sections);
    assert s[|s|..] == [];
  }

  /** A partial holding one section with a new title adds it at the end. */
  lemma UpdateOneNew(state: EvaluationOutput, s: SectionEvaluation)
    requires s.title !in Titles(state.sections)
    ensures Update(state, EvaluationOutput([s], None)) == EvaluationOutput(state.sections + [s], state.article)
  {
    var snapshot := Titles(state.sections);
    assert [s][1..] == [];
    TitlesSnoc(state.sections, s);
    assert MergeSections(state.sections, [s], snapshot) == MergeSections(state.sections + [s], [], snapshot);
  }

  /** A partial holding one section with a known title merges it into the
      first section of that title and touches nothing else. */
  lemma UpdateOneKnown(state: EvaluationOutput, s: SectionEvaluation)
    requires s.title in Titles(state.sections)
    ensures var k := FirstTitled(state.sections, s.title);
      Update(state, EvaluationOutput([s], None))
        == EvaluationOutput(state.sections[k := MergeSection(state.sections[k], s)], state.article)
  {
    var cur := state.sections;
    var snapshot := Titles(cur);
    assert [s][1..] == [];
    var k := FirstTitled(cur, s.title);
    var next := cur[k := MergeSection(cur[k], s)];
    assert Titles(next) == Titles(cur) by {
      forall t | t in Titles(cur) ensures t in Titles(next) {
        var j :| 0 <= j < |cur| && cur[j].title == t;
        assert next[j].title == t;
      }
    }
    assert MergeSections(cur, [s], snapshot) == MergeSections(next, [], snapshot);
  }

  /* ---------------------------------------------------------------------- */
  /* Every incoming section.                                                  */

  /** Section `target` after each section of `incoming` titled `t` has been
      merged into it, in order. */
  function MergeAllTitled(target: SectionEvaluation, incoming: seq<SectionEvaluation>, t: string): SectionEvaluation
    decreases |incoming|
  {
    if |incoming| == 0 then target
    else MergeAllTitled(if incoming[0].title == t then MergeSection(target, incoming[0]) else target, incoming[1..], t)
  }

  /** No earlier section has the title of section `j`. */
  ghost predicate FirstOfTitle(sections: seq<SectionEvaluation>, j: int)
    requires 0 <= j < |sections|
  {
    forall m :: 0 <= m < j ==> sections[m].title != sections[j].title
  }

  /** The loop leaves the first section of a title present at its start where
      it is, with every incoming section of that title merged into it. */
  lemma {:induction false} MergeSectionsAt(cur: seq<SectionEvaluation>, rest: seq<SectionEvaluation>, snapshot: set<string>, j: nat)
    requires snapshot <= Titles(cur)
    requires j < |cur| && cur[j].title in snapshot && FirstOfTitle(cur, j)
    ensures j < |MergeSections(cur, rest, snapshot)|
    ensures MergeSections(cur, rest, snapshot)[j] == MergeAllTitled(cur[j], rest, cur[j].title)
    decreases |rest|
  {
    if |rest| > 0 {
      var s := rest[0];
      var t := cur[j].title;
      if s.title !in snapshot {
        var next := cur + [s];
        TitlesSnoc(cur, s);
        assert next[j] == cur[j];
        assert FirstOfTitle(next, j) by {
          forall m | 0 <= m < j ensures next[m].title != t {
            assert next[m] == cur[m];
          }
        }
        MergeSectionsAt(next, rest[1..], snapshot, j);
      } else {
        var k := FirstTitled(cur, s.title);
        var next := cur[k := MergeSection(cur[k], s)];
        assert Titles(cur) <= Titles(next) by {
          forall u | u in Titles(cur) ensures u in Titles(next) {
            var i :| 0 <= i < |cur| && cur[i].title == u;
            assert next[i].title == u;
          }
        }
        if s.title == t {
          FirstTitledIs(cur, t, j);
        }
        assert next[j] == if s.title == t then MergeSection(cur[j], s) else cur[j];
        assert FirstOfTitle(next, j) by {
          forall m | 0 <= m < j ensures next[m].title != t {
            assert next[m].title == cur[m].title;
          }
        }
        MergeSectionsAt(next, rest[1..], snapshot, j);
      }
    }
  }

  /** Whatever the incoming sections, the first section of each title already
      present ends up with every incoming section of its title merged into
      it, one after another in their order. */
  lemma UpdateTouched(state: EvaluationOutput, other: EvaluationOutput)
    ensures forall j :: 0 <= j < |state.sections| && FirstOfTitle(state.sections, j) ==>
      j < |Update(state, other).sections|
      && Update(state, other).sections[j] == MergeAllTitled(state.sections[j], other.sections, state.sections[j].title)
  {
    forall j | 0 <= j < |state.sections| && FirstOfTitle(state.sections, j)
      ensures j < |Update(state, other).sections|
      ensures Update(state, other).sections[j] == MergeAllTitled(state.sections[j], other.sections, state.sections[j].title)
    {
      MergeSectionsAt(state.sections, other.sections, Titles(state.sections), j);
    }
  }

  /** A fold over sections none of which is titled `t` changes nothing. */
  lemma {:induction false} MergeAllTitledNone(target: SectionEvaluation, incoming: seq<SectionEvaluation>, t: string)
    requires forall m :: 0 <= m < |incoming| ==> incoming[m].title != t
    ensures MergeAllTitled(target, incoming, t) == target
    decreases |incoming|
  {
    if |incoming| > 0 {
      MergeAllTitledNone(target, incoming[1..], t);
    }
  }

  /** A fold over sections only one of which is titled `t` merges that one. */
  lemma {:induction false} MergeAllTitledOne(target: SectionEvaluation, incoming: seq<SectionEvaluation>, t: string, i: nat)
    requires i < |incoming| && incoming[i].title == t
    requires forall m :: 0 <= m < |incoming| && m != i ==> incoming[m].title != t
    ensures MergeAllTitled(target, incoming, t) == MergeSection(target, incoming[i])
    decreases |incoming|
  {
    if i == 0 {
      MergeAllTitledNone(MergeSection(target, incoming[0]), incoming[1..], t);
    } else {
      MergeAllTitledOne(target, incoming[1..], t, i - 1);
    }
  }

  /** No two sections share a title. */
  ghost predicate DistinctTitles(sections: seq<SectionEvaluation>) {
    forall i, j :: 0 <= i < j < |sections| ==> sections[i].title != sections[j].title
  }

  /** When the incoming sections have distinct titles, each one with a known
      title is merged, alone, into the first section of that title. */
  lemma UpdateTouchedOnce(state: EvaluationOutput, other: EvaluationOutput)
    requires DistinctTitles(other.sections)
    ensures forall i :: 0 <= i < |other.sections| && other.sections[i].title in Titles(state.sections) ==>
      FirstTitled(state.sections, other.sections[i].title) < |Update(state, other).sections|
      && Update(state, other).sections[FirstTitled(state.sections, other.sections[i].title)]
         == MergeSection(state.sections[FirstTitled(state.sections, other.sections[i].title)], other.sections[i])
  {
    UpdateTouched(state, other);
    forall i | 0 <= i < |other.sections| && other.sections[i].title in Titles(state.sections)
      ensures FirstTitled(state.sections, other.sections[i].title) < |Update(state, other).sections|
      ensures Update(state, other).sections[FirstTitled(state.sections, other.sections[i].title)]
              == MergeSection(state.sections[FirstTitled(state.sections, other.sections[i].title)], other.sections[i])
    {
      var k := FirstTitled(state.sections, other.sections[i].title);
      assert FirstOfTitle(state.sections, k);
      MergeAllTitledOne(state.sections[k], other.sections, other.sections[i].title, i);
    }
  }

  /** The title set is a snapshot: two incoming sections with the same new
      title are both appended, and the state ends up with that title twice. */
  lemma UpdateTwiceNewTitle(state: EvaluationOutput, s1: SectionEvaluation, s2: SectionEvaluation)
    requires s1.title == s2.title && s1.title !in Titles(state.sections)
    ensures Update(state, EvaluationOutput([s1, s2], None)).sections == state.sections + [s1, s2]
  {
    var snapshot := Titles(state.sections);
    assert [s1, s2][1..] == [s2];
    assert [s2][1..] == [];
    TitlesSnoc(state.sections, s1);
    TitlesSnoc(state.sections + [s1], s2);
    assert MergeSections(state.sections, [s1, s2], snapshot) == MergeSections(state.sections + [s1], [s2], snapshot);
    assert MergeSections(state.sections + [s1], [s2], snapshot) == MergeSections(state.sections + [s1] + [s2], [], snapshot);
    assert state.sections + [s1] + [s2] == state.sections + [s1, s2];
  }

  /** The merge is not idempotent: merging the same partial twice appends its
      sentence evaluations to the section twice. */
  lemma UpdateRepeatsSentences(state: EvaluationOutput, s: SectionEvaluation)
    requires s.title in Titles(state.sections) && SentencesOf(s.sentenceEvaluations) != []
    ensures var other := EvaluationOutput([s], None);
      var k := FirstTitled(state.sections, s.title);
      && SentencesOf(Update(Update(state, other), other).sections[k].sentenceEvaluations)
         == SentencesOf(state.sections[k].sentenceEvaluations) + SentencesOf(s.sentenceEvaluations) + SentencesOf(s.sentenceEvaluations)
      && Update(Update(state, other), other) != Update(state, other)
  {
    var other := EvaluationOutput([s], None);
    var k := FirstTitled(state.sections, s.title);
    UpdateOneKnown(state, s);
    var once := Update(state, other);
    assert once.sections[k].title == s.title;
    FirstTitledIs(once.sections, s.title, k);
    UpdateOneKnown(once, s);
    assert |SentencesOf(Update(once, other).sections[k].sentenceEvaluations)| > |SentencesOf(once.sections[k].sentenceEvaluations)|;
  }

  /** When both sides have an article evaluation, what the merge appends is
      the incoming requirement evaluations with an id the article lacked, in
      their order and once each. */
  lemma MergeArticleOrder(mine: ArticleEvaluation, theirs: ArticleEvaluation)
    ensures MergeArticle(Some(mine), Some(theirs)).Some?
    ensures Keyed.UnseenOf(MergeArticle(Some(mine), Some(theirs)).value.requirementEvaluations[|mine.requirementEvaluations|..],
                           theirs.requirementEvaluations, Keyed.Keys(mine.requirementEvaluations, RequirementId), RequirementId)
  {
    Keyed.AppendNewOrder(mine.requirementEvaluations, theirs.requirementEvaluations, RequirementId);
  }

  /** Merging the same article evaluation a second time changes nothing. */
  lemma MergeArticleIdempotent(mine: Option<ArticleEvaluation>, theirs: Option<ArticleEvaluation>)
    ensures MergeArticle(MergeArticle(mine, theirs), theirs) == MergeArticle(mine, theirs)
  {
    if theirs.Some? {
      var reqs := theirs.value.requirementEvaluations;
      if mine.Some? {
        Keyed.AppendNewIdempotent(mine.value.requirementEvaluations, reqs, RequirementId);
      } else {
        assert forall x :: x in reqs ==> RequirementId(x) in Keyed.Keys(reqs, RequirementId);
        Keyed.UnseenNone(reqs, Keyed.Keys(reqs, RequirementId), RequirementId);
        assert reqs + [] == reqs;
      }
    }
  }

  /** `b` is `a` after merges: the sections of `a` grew in place, and an
      article evaluation, once present, keeps its notes and only grows. */
  ghost predicate Grows(a: EvaluationOutput, b: EvaluationOutput) {
    && |a.sections| <= |b.sections|
    && (forall j :: 0 <= j < |a.sections| ==> SectionGrows(a.sections[j], b.sections[j]))
    && (a.article.Some? ==>
          && b.article.Some?
          && b.article.value.metaNotes == a.article.value.metaNotes
          && Keyed.IsPrefix(a.article.value.requirementEvaluations, b.article.value.requirementEvaluations))
  }

  lemma UpdateGrows(state: EvaluationOutput, other: EvaluationOutput)
    ensures Grows(state, Update(state, other))
  {
    UpdateShape(state, other);
  }

  lemma GrowsTransitive(a: EvaluationOutput, b: EvaluationOutput, c: EvaluationOutput)
    requires Grows(a, b) && Grows(b, c)
    ensures Grows(a, c)
  {
    forall j | 0 <= j < |a.sections| ensures SectionGrows(a.sections[j], c.sections[j]) {
      SectionGrowsTransitive(a.sections[j], b.sections[j], c.sections[j]);
    }
    if a.article.Some? {
      Keyed.PrefixOfPrefix(a.article.value.requirementEvaluations, b.article.value.requirementEvaluations,
                           c.article.value.requirementEvaluations);
    }
  }

  /* ---------------------------------------------------------------------- */
  /* The loops.                                                               */

  /** The model call for section `i` of `total`, given the evaluation so far. */
  type Ask<!S> = (EvaluationOutput, S, nat, nat) -> Option<string>

  /** `EvaluationOutput.model_validate_json` (`parse_raw` in one copy). */
  type Parse = string -> Option<EvaluationOutput>

  /** The model never raises. */
  ghost predicate AlwaysAnswers<S(!new)>(ask: Ask<S>) {
    forall st, s, i, n :: ask(st, s, i, n).Some?
  }

  /** The loop body after the model answered: clean, parse and merge; an
      answer that does not parse leaves the evaluation unchanged. */
  function Step(state: EvaluationOutput, raw: string, parse: Parse): (r: EvaluationOutput)
    ensures parse(CleanOutput(raw)).None? ==> r == state
    ensures parse(CleanOutput(raw)).Some? ==> r == Update(state, parse(CleanOutput(raw)).value)
    ensures Grows(state, r)
  {
    match parse(CleanOutput(raw))
    case None => state
    case Some(partial) =>
      UpdateGrows(state, partial);
      Update(state, partial)
  }

  /** How a loop ended (`None` when a model call raised, which nothing in the
      loop catches) and the section numbers the model was asked about. */
  datatype Outcome = Outcome(result: Option<EvaluationOutput>, asked: seq<nat>)

  /** The loop over sections `i`, `i + 1`, ... of `total`; a section for which
      `skip` holds is passed over without a model call. */
  function Run<S>(state: EvaluationOutput, items: seq<S>, i: nat, total: nat,
                  skip: S -> bool, ask: Ask<S>, parse: Parse): Outcome
    decreases |items|
  {
    if |items| == 0 then Outcome(Some(state), [])
    else if skip(items[0]) then Run(state, items[1..], i + 1, total, skip, ask, parse)
    else
      match ask(state, items[0], i, total)
      case None => Outcome(None, [i])
      case Some(raw) =>
        var rest := Run(Step(state, raw, parse), items[1..], i + 1, total, skip, ask, parse);
        Outcome(rest.result, [i] + rest.asked)
  }

  /** When the model never raises, the loop finishes. */
  lemma {:induction false} RunCompletes<S(!new)>(state: EvaluationOutput, items: seq<S>, i: nat, total: nat,
                                                 skip: S -> bool, ask: Ask<S>, parse: Parse)
    requires AlwaysAnswers(ask)
    ensures Run(state, items, i, total, skip, ask, parse).result.Some?
    decreases |items|
  {
    if |items| > 0 {
      if skip(items[0]) {
        RunCompletes(state, items[1..], i + 1, total, skip, ask, parse);
      } else {
        var raw := ask(state, items[0], i, total).value;
        RunCompletes(Step(state, raw, parse), items[1..], i + 1, total, skip, ask, parse);
      }
    }
  }

  /** The final evaluation keeps everything of the starting one. */
  lemma {:induction false} RunGrows<S>(state: EvaluationOutput, items: seq<S>, i: nat, total: nat,
                                       skip: S -> bool, ask: Ask<S>, parse: Parse)
    ensures Run(state, items, i, total, skip, ask, parse).result.Some? ==>
      Grows(state, Run(state, items, i, total, skip, ask, parse).result.value)
    decreases |items|
  {
    var r := Run(state, items, i, total, skip, ask, parse);
    if |items| == 0 {
      assert Grows(state, state);
    } else if skip(items[0]) {
      RunGrows(state, items[1..], i + 1, total, skip, ask, parse);
    } else if r.result.Some? {
      var raw := ask(state, items[0], i, total).value;
      var next := Step(state, raw, parse);
      RunGrows(next, items[1..], i + 1, total, skip, ask, parse);
      GrowsTransitive(state, next, r.result.value);
    }
  }

  /** Answers that never parse leave the evaluation as it started. */
  lemma {:induction false} RunUnparsable<S>(state: EvaluationOutput, items: seq<S>, i: nat, total: nat,
                                            skip: S -> bool, ask: Ask<S>, parse: Parse)
    requires forall x :: parse(x).None?
    ensures Run(state, items, i, total, skip, ask, parse).result.Some? ==>
      Run(state, items, i, total, skip, ask, parse).result.value == state
    decreases |items|
  {
    if |items| > 0 {
      RunUnparsable(state, items[1..], i + 1, total, skip, ask, parse);
    }
  }

  /** `asked` lists, in increasing order, exactly the positions from `i` of
      the items that are not skipped. */
  ghost predicate AskedFor<S>(asked: seq<nat>, items: seq<S>, i: nat, skip: S -> bool) {
    && (forall a, b :: 0 <= a < b < |asked| ==> asked[a] < asked[b])
    && (forall n :: n in asked <==> i <= n < i + |items| && !skip(items[n - i]))
  }

  /** When the model never raises, it is asked about every section that is
      not skipped, once each and in order, and about no other. */
  lemma {:induction false} RunAsked<S(!new)>(state: EvaluationOutput, items: seq<S>, i: nat, total: nat,
                                             skip: S -> bool, ask: Ask<S>, parse: Parse)
    requires AlwaysAnswers(ask)
    ensures AskedFor(Run(state, items, i, total, skip, ask, parse).asked, items, i, skip)
    decreases |items|
  {
    if |items| > 0 {
      var tail := items[1..];
      if skip(items[0]) {
        RunAsked(state, tail, i + 1, total, skip, ask, parse);
        AskedSkip(Run(state, tail, i + 1, total, skip, ask, parse).asked, items, i, skip);
      } else {
        var raw := ask(state, items[0], i, total).value;
        RunAsked(Step(state, raw, parse), tail, i + 1, total, skip, ask, parse);
        AskedCons(Run(Step(state, raw, parse), tail, i + 1, total, skip, ask, parse).asked, items, i, skip);
      }
    }
  }

  lemma AskedSkip<S>(rest: seq<nat>, items: seq<S>, i: nat, skip: S -> bool)
    requires |items| > 0 && skip(items[0]) && AskedFor(rest, items[1..], i + 1, skip)
    ensures AskedFor(rest, items, i, skip)
  {
    assert forall k :: 0 <= k < |items| - 1 ==> items[1..][k] == items[k + 1];
  }

  lemma AskedCons<S>(rest: seq<nat>, items: seq<S>, i: nat, skip: S -> bool)
    requires |items| > 0 && !skip(items[0]) && AskedFor(rest, items[1..], i + 1, skip)
    ensures AskedFor([i] + rest, items, i, skip)
  {
    assert forall k :: 0 <= k < |items| - 1 ==> items[1..][k] == items[k + 1];
    var asked := [i] + rest;
    forall a, b | 0 <= a < b < |asked| ensures asked[a] < asked[b] {
      if a > 0 {
        assert asked[a] == rest[a - 1] && asked[b] == rest[b - 1];
      } else {
        assert asked[b] in rest;
      }
    }
  }

  /** Sections that are all skipped cost no model call and change nothing. */
  lemma {:induction false} RunAllSkipped<S>(state: EvaluationOutput, items: seq<S>, i: nat, total: nat,
                                            skip: S -> bool, ask: Ask<S>, parse: Parse)
    requires forall k :: 0 <= k < |items| ==> skip(items[k])
    ensures Run(state, items, i, total, skip, ask, parse) == Outcome(Some(state), [])
    decreases |items|
  {
    if |items| > 0 {
      assert forall k :: 0 <= k < |items| - 1 ==> items[1..][k] == items[k + 1];
      RunAllSkipped(state, items[1..], i + 1, total, skip, ask, parse);
    }
  }

  /** `o` with `asked` recorded before its own model calls. */
  function After(asked: seq<nat>, o: Outcome): Outcome {
    Outcome(o.result, asked + o.asked)
  }

  /** One model call, recorded after the earlier ones. */
  lemma AskedStep<S>(state: EvaluationOutput, items: seq<S>, i: nat, total: nat,
                     skip: S -> bool, ask: Ask<S>, parse: Parse, asked: seq<nat>)
    requires |items| > 0 && !skip(items[0]) && ask(state, items[0], i, total).Some?
    ensures var next := Step(state, ask(state, items[0], i, total).value, parse);
      After(asked, Run(state, items, i, total, skip, ask, parse))
        == After(asked + [i], Run(next, items[1..], i + 1, total, skip, ask, parse))
  {
    var rest := Run(Step(state, ask(state, items[0], i, total).value, parse), items[1..], i + 1, total, skip, ask, parse);
    assert asked + ([i] + rest.asked) == (asked + [i]) + rest.asked;
  }

  /** The `for i, section in enumerate(sections, start=1)` loop, from the
      initial evaluation. */
  method ProcessSections<S>(items: seq<S>, skip: S -> bool, ask: Ask<S>, parse: Parse) returns (r: Outcome)
    ensures r == Run(Initial, items, 1, |items|, skip, ask, parse)
  {
    var state := Initial;
    var asked: seq<nat> := [];
    var total := |items|;
    for i := 0 to total
      invariant Run(Initial, items, 1, total, skip, ask, parse)
                == After(asked, Run(state, items[i..], i + 1, total, skip, ask, parse))
    {
      assert items[i..][1..] == items[i + 1..];
      if skip(items[i]) {
        continue;
      }
      var raw := ask(state, items[i], i + 1, total);
      if raw.None? {
        return Outcome(None, asked + [i + 1]);
      }
      AskedStep(state, items[i..], i + 1, total, skip, ask, parse, asked);
      var json := CleanOutput(raw.value);
      match parse(json) {
        case None =>
        case Some(partial) => state := Update(state, partial);
      }
      asked := asked + [i + 1];
    }
    assert items[total..] == [];
    r := Outcome(Some(state), asked);
  }

  /* ---------------------------------------------------------------------- */
  /* The three evaluators.                                                    */

  /** A section as the article file gives it; only `content` and `sentences`
      are read, to decide whether the section is empty. */
  datatype SectionInput = SectionInput(title: Option<string>, content: Option<string>, sentences: Option<seq<string>>)

  /** `not section.get("content") and not section.get("sentences")`. */
  predicate IsEmptySection(s: SectionInput) {
    s.content.GetOr("") == "" && s.sentences.GetOr([]) == []
  }

  predicate NeverSkip<S>(s: S) { false }

  /**
   * `process_article_sections` of the sentence-level evaluator (`e.py`):
   * a section with neither content nor sentences is passed over before any
   * model call, the others are asked about once each, in order.
   */
  method EvaluateNonEmpty(sections: seq<SectionInput>, ask: Ask<SectionInput>, parse: Parse) returns (r: Outcome)
    ensures r == Run(Initial, sections, 1, |sections|, IsEmptySection, ask, parse)
    ensures AlwaysAnswers(ask) ==> r.result.Some? && AskedFor(r.asked, sections, 1, IsEmptySection)
    ensures r.result.Some? ==> Grows(Initial, r.result.value)
  {
    r := ProcessSections(sections, IsEmptySection, ask, parse);
    RunGrows(Initial, sections, 1, |sections|, IsEmptySection, ask, parse);
    if AlwaysAnswers(ask) {
      RunCompletes(Initial, sections, 1, |sections|, IsEmptySection, ask, parse);
      RunAsked(Initial, sections, 1, |sections|, IsEmptySection, ask, parse);
    }
  }

  /** `process_article_sections` of the index-free evaluator: every section
      is asked about exactly once, in order. */
  method EvaluateAll(sections: seq<SectionInput>, ask: Ask<SectionInput>, parse: Parse) returns (r: Outcome)
    ensures r == Run(Initial, sections, 1, |sections|, NeverSkip, ask, parse)
    ensures AlwaysAnswers(ask) ==>
      && r.result.Some? && |r.asked| == |sections|
      && forall k :: 0 <= k < |r.asked| ==> r.asked[k] == k + 1
    ensures r.result.Some? ==> Grows(Initial, r.result.value)
  {
    r := ProcessSections(sections, NeverSkip, ask, parse);
    RunGrows(Initial, sections, 1, |sections|, NeverSkip, ask, parse);
    if AlwaysAnswers(ask) {
      RunCompletes(Initial, sections, 1, |sections|, NeverSkip, ask, parse);
      RunAsked(Initial, sections, 1, |sections|, NeverSkip, ask, parse);
      AskedAll(r.asked, sections, 1);
    }
  }

  /** Increasing and covering `i .. i + |items| - 1` means exactly that range. */
  lemma AskedAll<S>(asked: seq<nat>, items: seq<S>, i: nat)
    requires AskedFor(asked, items, i, NeverSkip)
    ensures |asked| == |items| && forall k :: 0 <= k < |asked| ==> asked[k] == i + k
  {
    var want := seq(|items|, k requires 0 <= k < |items| => i + k);
    forall n ensures n in asked <==> n in want {
      if i <= n < i + |items| {
        assert want[n - i] == n;
      }
    }
    Keyed.IncreasingSame(asked, want);
  }

  /** A parsed section together with the indexed sentences `evaluate_section`
      attaches to it before the prompt is built. */
  datatype PreparedSection = PreparedSection(section: Markdown.IndexedSection, sentences: seq<Markdown.IndexedSentence>)

  /** The sentences are those of the content, indexed, or none when the
      content is empty. */
  function Prepare(s: Markdown.IndexedSection): (r: PreparedSection)
    ensures r.section == s
    ensures Markdown.SentenceTexts(r.sentences) == if s.content != "" then Markdown.SplitSentences(s.content) else []
    ensures s.content == "" ==> r.sentences == []
    ensures s.content != "" ==> Markdown.NumberedFrom(r.sentences, Markdown.StripAll(Markdown.Pieces(s.content, false)), 1)
  {
    Markdown.IndexedSentencesAgree(s.content);
    PreparedSection(s, if s.content != "" then Markdown.IndexedSentences(s.content) else [])
  }

  function PrepareAll(sections: seq<Markdown.IndexedSection>): (r: seq<PreparedSection>)
    ensures |r| == |sections| && forall j :: 0 <= j < |r| ==> r[j] == Prepare(sections[j])
  {
    seq(|sections|, j requires 0 <= j < |sections| => Prepare(sections[j]))
  }

  /**
   * `process_article_sections` of the index-tracking evaluator: the markdown
   * is cut into sections with header-numbered indices, and each one, with
   * its indexed sentences, is asked about exactly once, in order.
   */
  method EvaluateMarkdown(markdown: string, ask: Ask<PreparedSection>, parse: Parse) returns (r: Outcome)
    ensures var sections := PrepareAll(Markdown.ParseSectionsCounted(markdown));
      r == Run(Initial, sections, 1, |sections|, NeverSkip, ask, parse)
    ensures AlwaysAnswers(ask) ==> r.result.Some? && |r.asked| == Markdown.TitledCount(Markdown.Outline(markdown))
    ensures r.result.Some? ==> Grows(Initial, r.result.value)
  {
    var sections := PrepareAll(Markdown.ParseSectionsCounted(markdown));
    r := ProcessSections(sections, NeverSkip, ask, parse);
    RunGrows(Initial, sections, 1, |sections|, NeverSkip, ask, parse);
    if AlwaysAnswers(ask) {
      RunCompletes(Initial, sections, 1, |sections|, NeverSkip, ask, parse);
      RunAsked(Initial, sections, 1, |sections|, NeverSkip, ask, parse);
      AskedAll(r.asked, sections, 1);
    }
  }
}
