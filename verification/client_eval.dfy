/**
 * The client's queries over a finished evaluation: lookups by section and
 * sentence index, the evaluations of one requirement, score averages, the
 * first-occurrence deduplication of evaluated requirements, the join with
 * the requirement documents, and the conversion of stored evaluations,
 * which drops every evaluation with a missing score or confidence.
 *
 * Numbers are `real`; the score type `N` is `real` for the client's own
 * records and `Option<real>` for the stored ones, whose scores may be null.
 */
module ClientEval {
  import opened Options
  import Keyed
  import Requirements

  datatype RequirementEvaluation<N> = RequirementEvaluation(
    requirementId: string,
    requirementCategory: string,
    classification: string,
    applicable: bool,
    applicabilityReasoning: string,
    score: N,
    confidence: N,
    evidence: string,
    reasoning: string,
    overlapNotes: Option<string>)

  datatype SentenceEvaluation<N> = SentenceEvaluation(
    index: int,
    sentence: string,
    requirementEvaluations: seq<RequirementEvaluation<N>>,
    metaNotes: Option<string>)

  datatype SectionEvaluation<N> = SectionEvaluation(
    index: int,
    title: string,
    sentenceEvaluations: seq<SentenceEvaluation<N>>,
    requirementEvaluations: seq<RequirementEvaluation<N>>,
    metaNotes: Option<string>)

  datatype ArticleEvaluation<N> = ArticleEvaluation(
    requirementEvaluations: seq<RequirementEvaluation<N>>,
    metaNotes: Option<string>)

  datatype EvaluationData<N> = EvaluationData(
    sections: seq<SectionEvaluation<N>>,
    article: ArticleEvaluation<N>)

  type Evaluation = RequirementEvaluation<real>
  type Data = EvaluationData<real>

  function RequirementId<N>(e: RequirementEvaluation<N>): string { e.requirementId }
  function SectionIndex<N>(s: SectionEvaluation<N>): int { s.index }
  function SentenceIndex<N>(s: SentenceEvaluation<N>): int { s.index }

  /* ---------------------------------------------------------------------- */
  /* Lookups.                                                                 */

  /** The position `xs.find(x => key(x) === want)` stops at. */
  function FirstAt<T, K(==)>(xs: seq<T>, key: T -> K, want: K): (r: Option<nat>)
    ensures r.None? <==> forall j :: 0 <= j < |xs| ==> key(xs[j]) != want
    ensures r.Some? ==> r.value < |xs| && key(xs[r.value]) == want
    ensures r.Some? ==> forall j :: 0 <= j < r.value ==> key(xs[j]) != want
  {
    if |xs| == 0 then None
    else if key(xs[0]) == want then Some(0)
    else
      match FirstAt(xs[1..], key, want)
      case None => None
      case Some(k) => Some(k + 1)
  }

  /** `xs.find(x => key(x) === want)`. */
  function FindBy<T, K(==)>(xs: seq<T>, key: T -> K, want: K): (r: Option<T>)
    ensures r.None? <==> forall j :: 0 <= j < |xs| ==> key(xs[j]) != want
    ensures r.Some? ==> FirstAt(xs, key, want).Some? && r.value == xs[FirstAt(xs, key, want).value]
  {
    match FirstAt(xs, key, want)
    case None => None
    case Some(k) => Some(xs[k])
  }

  /** `getSectionByIndex`: the first section with the index, if any. */
  function GetSectionByIndex<N>(data: EvaluationData<N>, sectionIndex: int): (r: Option<SectionEvaluation<N>>)
    ensures r.None? <==> forall j :: 0 <= j < |data.sections| ==> data.sections[j].index != sectionIndex
    ensures r.Some? ==> r.value.index == sectionIndex
    ensures r.Some? ==> FirstAt(data.sections, SectionIndex, sectionIndex).Some?
    ensures r.Some? ==> r.value == data.sections[FirstAt(data.sections, SectionIndex, sectionIndex).value]
  {
    FindBy(data.sections, SectionIndex, sectionIndex)
  }

  /** `getSentenceByIndex`: nothing when the section is missing, otherwise the
      first sentence of the section with the index, if any. */
  function GetSentenceByIndex<N>(data: EvaluationData<N>, sectionIndex: int, sentenceIndex: int)
    : (r: Option<SentenceEvaluation<N>>)
    ensures GetSectionByIndex(data, sectionIndex).None? ==> r.None?
    ensures GetSectionByIndex(data, sectionIndex).Some? ==>
      var ss := GetSectionByIndex(data, sectionIndex).value.sentenceEvaluations;
      && (r.None? <==> forall j :: 0 <= j < |ss| ==> ss[j].index != sentenceIndex)
      && (r.Some? ==> r.value.index == sentenceIndex)
      && (r.Some? ==> FirstAt(ss, SentenceIndex, sentenceIndex).Some?
                      && r.value == ss[FirstAt(ss, SentenceIndex, sentenceIndex).value])
  {
    match GetSectionByIndex(data, sectionIndex)
    case None => None
    case Some(section) => FindBy(section.sentenceEvaluations, SentenceIndex, sentenceIndex)
  }

  /** `getRequirementEvaluationForSentence`: the sentence's first evaluation
      of the requirement, if the sentence exists and has one. */
  function GetRequirementEvaluationForSentence<N>(data: EvaluationData<N>, sectionIndex: int, sentenceIndex: int,
                                                  requirementId: string): (r: Option<RequirementEvaluation<N>>)
    ensures GetSentenceByIndex(data, sectionIndex, sentenceIndex).None? ==> r.None?
    ensures r.Some? ==> r.value.requirementId == requirementId
    ensures r.Some? ==> r.value in GetSentenceByIndex(data, sectionIndex, sentenceIndex).value.requirementEvaluations
    ensures GetSentenceByIndex(data, sectionIndex, sentenceIndex).Some? ==>
      var evs := GetSentenceByIndex(data, sectionIndex, sentenceIndex).value.requirementEvaluations;
      && (r.None? <==> forall j :: 0 <= j < |evs| ==> evs[j].requirementId != requirementId)
      && (r.Some? ==> FirstAt(evs, RequirementId, requirementId).Some?
                      && r.value == evs[FirstAt(evs, RequirementId, requirementId).value])
  {
    match GetSentenceByIndex(data, sectionIndex, sentenceIndex)
    case None => None
    case Some(sentence) =>
      var r := FindBy(sentence.requirementEvaluations, RequirementId, requirementId);
      if r.Some? then
        assert r.value == sentence.requirementEvaluations[FirstAt(sentence.requirementEvaluations, RequirementId, requirementId).value];
        r
      else r
  }

  /* ---------------------------------------------------------------------- */
  /* The evaluations of a section, in the order the client walks them.       */

  /** The evaluations of the sentences, sentence by sentence. */
  function SentenceEvals<N>(sentences: seq<SentenceEvaluation<N>>): seq<RequirementEvaluation<N>> {
    if |sentences| == 0 then []
    else sentences[0].requirementEvaluations + SentenceEvals(sentences[1..])
  }

  /** The section-level evaluations first, then those of each sentence. */
  function SectionEvals<N>(s: SectionEvaluation<N>): seq<RequirementEvaluation<N>> {
    s.requirementEvaluations + SentenceEvals(s.sentenceEvaluations)
  }

  /** The evaluations of every section, section by section. */
  function SectionsEvals<N>(sections: seq<SectionEvaluation<N>>): seq<RequirementEvaluation<N>> {
    if |sections| == 0 then []
    else SectionEvals(sections[0]) + SectionsEvals(sections[1..])
  }

  /** The evaluations of one requirement, in their order. */
  function Matching<N(==,!new)>(evals: seq<RequirementEvaluation<N>>, requirementId: string): (r: seq<RequirementEvaluation<N>>)
    ensures |r| <= |evals|
    ensures forall x :: x in r <==> x in evals && x.requirementId == requirementId
  {
    if |evals| == 0 then []
    else
      var rest := Matching(evals[1..], requirementId);
      assert forall x :: x in evals <==> x == evals[0] || x in evals[1..];
      if evals[0].requirementId == requirementId then [evals[0]] + rest else rest
  }

  lemma {:induction false} MatchingAppend<N(!new)>(a: seq<RequirementEvaluation<N>>, b: seq<RequirementEvaluation<N>>, requirementId: string)
    ensures Matching(a + b, requirementId) == Matching(a, requirementId) + Matching(b, requirementId)
  {
    if |a| > 0 {
      assert (a + b)[1..] == a[1..] + b;
      MatchingAppend(a[1..], b, requirementId);
    } else {
      assert a + b == b;
    }
  }

  /** `getRequirementEvaluationsForSection`: the evaluations of the
      requirement in the section, or none when the section is missing. */
  function GetRequirementEvaluationsForSection<N(==,!new)>(data: EvaluationData<N>, sectionIndex: int, requirementId: string)
    : (r: seq<RequirementEvaluation<N>>)
    ensures GetSectionByIndex(data, sectionIndex).None? ==> r == []
    ensures GetSectionByIndex(data, sectionIndex).Some? ==> forall x :: x in r <==>
      x in SectionEvals(GetSectionByIndex(data, sectionIndex).value) && x.requirementId == requirementId
  {
    match GetSectionByIndex(data, sectionIndex)
    case None => []
    case Some(section) => Matching(SectionEvals(section), requirementId)
  }

  /** The section-level evaluations come before those of the sentences, and
      the sentences' in sentence order. */
  lemma SectionEvaluationsOrder<N(!new)>(data: EvaluationData<N>, sectionIndex: int, requirementId: string)
    requires GetSectionByIndex(data, sectionIndex).Some?
    ensures var s := GetSectionByIndex(data, sectionIndex).value;
      GetRequirementEvaluationsForSection(data, sectionIndex, requirementId)
        == Matching(s.requirementEvaluations, requirementId) + Matching(SentenceEvals(s.sentenceEvaluations), requirementId)
  {
    var s := GetSectionByIndex(data, sectionIndex).value;
    MatchingAppend(s.requirementEvaluations, SentenceEvals(s.sentenceEvaluations), requirementId);
  }

  /* ---------------------------------------------------------------------- */
  /* Scores.                                                                  */

  function Sum(xs: seq<real>): real {
    if |xs| == 0 then 0.0 else xs[0] + Sum(xs[1..])
  }

  /** `sum / length`, and 0 for an empty list. */
  function Mean(xs: seq<real>): (r: real)
    ensures |xs| == 0 ==> r == 0.0
  {
    if |xs| == 0 then 0.0 else Sum(xs) / (|xs| as real)
  }

  /** `m` is the mean of the non-empty `xs`: `m` times the count is the sum. */
  ghost predicate IsMeanOf(m: real, xs: seq<real>) {
    m * (|xs| as real) == Sum(xs)
  }

  lemma MeanTimesCount(xs: seq<real>)
    requires |xs| > 0
    ensures IsMeanOf(Mean(xs), xs)
  {
  }

  function Scores(evals: seq<Evaluation>): (r: seq<real>)
    ensures |r| == |evals| && forall j :: 0 <= j < |r| ==> r[j] == evals[j].score
  {
    seq(|evals|, j requires 0 <= j < |evals| => evals[j].score)
  }

  /** Every value of `xs` lies in `[lo, hi]`. */
  ghost predicate Within(xs: seq<real>, lo: real, hi: real) {
    forall j :: 0 <= j < |xs| ==> lo <= xs[j] <= hi
  }

  lemma {:induction false} SumWithin(xs: seq<real>, lo: real, hi: real)
    requires Within(xs, lo, hi)
    ensures (|xs| as real) * lo <= Sum(xs) <= (|xs| as real) * hi
  {
    if |xs| > 0 {
      SumWithin(xs[1..], lo, hi);
      assert (|xs| as real) * lo == ((|xs| - 1) as real) * lo + lo;
      assert (|xs| as real) * hi == ((|xs| - 1) as real) * hi + hi;
    }
  }

  /** A mean lies between the bounds of what it averages. */
  lemma MeanWithin(xs: seq<real>, lo: real, hi: real)
    requires Within(xs, lo, hi) && |xs| > 0
    ensures lo <= Mean(xs) <= hi
  {
    SumWithin(xs, lo, hi);
    MeanTimesCount(xs);
    var n := |xs| as real;
    assert (Mean(xs) - lo) * n == Sum(xs) - n * lo;
    assert (hi - Mean(xs)) * n == n * hi - Sum(xs);
  }

  /** The score of one section: the mean over its own and its sentences'
      evaluations. */
  function SectionScore(s: SectionEvaluation<real>): (r: real)
    ensures |SectionEvals(s)| == 0 ==> r == 0.0
    ensures |SectionEvals(s)| > 0 ==> IsMeanOf(r, Scores(SectionEvals(s)))
  {
    var xs := Scores(SectionEvals(s));
    if |xs| == 0 then 0.0 else MeanTimesCount(xs); Mean(xs)
  }

  /** `getSectionAggregateScore`: 0 when the section is missing or has no
      evaluation, otherwise the mean of all its scores. */
  function GetSectionAggregateScore(data: Data, sectionIndex: int): (r: real)
    ensures GetSectionByIndex(data, sectionIndex).None? ==> r == 0.0
    ensures GetSectionByIndex(data, sectionIndex).Some? ==> r == SectionScore(GetSectionByIndex(data, sectionIndex).value)
  {
    match GetSectionByIndex(data, sectionIndex)
    case None => 0.0
    case Some(s) => SectionScore(s)
  }

  /** `getSentenceAggregateScore`: 0 when the sentence is missing or has no
      evaluation, otherwise the mean of its scores. */
  function GetSentenceAggregateScore(data: Data, sectionIndex: int, sentenceIndex: int): (r: real)
    ensures GetSentenceByIndex(data, sectionIndex, sentenceIndex).None? ==> r == 0.0
    ensures GetSentenceByIndex(data, sectionIndex, sentenceIndex).Some? ==>
      var evals := GetSentenceByIndex(data, sectionIndex, sentenceIndex).value.requirementEvaluations;
      (|evals| == 0 ==> r == 0.0) && (|evals| > 0 ==> IsMeanOf(r, Scores(evals)))
  {
    match GetSentenceByIndex(data, sectionIndex, sentenceIndex)
    case None => 0.0
    case Some(s) =>
      var xs := Scores(s.requirementEvaluations);
      if |xs| == 0 then 0.0 else MeanTimesCount(xs); Mean(xs)
  }

  /** The per-section terms `getOverallArticleScore` averages: each section
      is scored through a lookup of its own index. */
  function SectionTerms(data: Data): (r: seq<real>)
    ensures |r| == |data.sections|
    ensures forall j :: 0 <= j < |r| ==> r[j] == SectionTerm(data, j)
  {
    seq(|data.sections|, j requires 0 <= j < |data.sections| => SectionTerm(data, j))
  }

  /** The term of section `j`: the score of the first section sharing its index. */
  function SectionTerm(data: Data, j: nat): real
    requires j < |data.sections|
  {
    GetSectionAggregateScore(data, data.sections[j].index)
  }

  /** `getOverallArticleScore`: 0 without sections, otherwise the mean of the
      section scores. */
  function GetOverallArticleScore(data: Data): (r: real)
    ensures |data.sections| == 0 ==> r == 0.0
    ensures |data.sections| > 0 ==> IsMeanOf(r, SectionTerms(data))
  {
    if |data.sections| == 0 then 0.0
    else
      MeanTimesCount(SectionTerms(data));
      Mean(SectionTerms(data))
  }

  /** With distinct section indices, each section counts with its own score. */
  lemma OverallUsesOwnScores(data: Data)
    requires forall a, b :: 0 <= a < b < |data.sections| ==> data.sections[a].index != data.sections[b].index
    ensures forall j :: 0 <= j < |data.sections| ==> SectionTerms(data)[j] == SectionScore(data.sections[j])
  {
    forall j | 0 <= j < |data.sections| ensures SectionTerms(data)[j] == SectionScore(data.sections[j]) {
      var idx := data.sections[j].index;
      assert SectionIndex(data.sections[j]) == idx;
      var k := FirstAt(data.sections, SectionIndex, idx).value;
      assert k == j;
    }
  }

  /** A section that repeats an earlier section's index is scored as that
      earlier section: its own evaluations do not count. */
  lemma OverallRepeatedIndex(data: Data, a: nat, b: nat)
    requires a < b < |data.sections| && data.sections[a].index == data.sections[b].index
    ensures SectionTerms(data)[b] == SectionTerms(data)[a]
  {
  }

  /** `getAverageScoreForRequirementInSection`. */
  function GetAverageScoreForRequirementInSection(data: Data, sectionIndex: int, requirementId: string): (r: real)
    ensures GetRequirementEvaluationsForSection(data, sectionIndex, requirementId) == [] ==> r == 0.0
    ensures GetRequirementEvaluationsForSection(data, sectionIndex, requirementId) != [] ==>
      IsMeanOf(r, Scores(GetRequirementEvaluationsForSection(data, sectionIndex, requirementId)))
  {
    var xs := Scores(GetRequirementEvaluationsForSection(data, sectionIndex, requirementId));
    if |xs| == 0 then 0.0 else MeanTimesCount(xs); Mean(xs)
  }

  /** `getAverageScoreForRequirementInArticle`: over the section- and
      sentence-level evaluations only; article-level ones are not counted. */
  function GetAverageScoreForRequirementInArticle(data: Data, requirementId: string): (r: real)
    ensures Matching(SectionsEvals(data.sections), requirementId) == [] ==> r == 0.0
    ensures Matching(SectionsEvals(data.sections), requirementId) != [] ==>
      IsMeanOf(r, Scores(Matching(SectionsEvals(data.sections), requirementId)))
  {
    var xs := Scores(Matching(SectionsEvals(data.sections), requirementId));
    if |xs| == 0 then 0.0 else MeanTimesCount(xs); Mean(xs)
  }

  /** Every evaluation of a section or sentence has its score in `[lo, hi]`. */
  ghost predicate ScoresWithin(data: Data, lo: real, hi: real) {
    forall s :: s in data.sections ==> Within(Scores(SectionEvals(s)), lo, hi)
  }

  lemma {:induction false} SectionsEvalsWithin(sections: seq<SectionEvaluation<real>>, lo: real, hi: real)
    requires forall s :: s in sections ==> Within(Scores(SectionEvals(s)), lo, hi)
    ensures Within(Scores(SectionsEvals(sections)), lo, hi)
  {
    if |sections| > 0 {
      assert sections[0] in sections;
      assert forall s :: s in sections[1..] ==> s in sections;
      SectionsEvalsWithin(sections[1..], lo, hi);
      var a: seq<Evaluation> := SectionEvals(sections[0]);
      var b: seq<Evaluation> := SectionsEvals(sections[1..]);
      forall j | 0 <= j < |a + b| ensures lo <= (a + b)[j].score <= hi {
        if j < |a| { assert Scores(a)[j] == a[j].score; } else { assert Scores(b)[j - |a|] == b[j - |a|].score; }
      }
    }
  }

  lemma MatchingWithin(evals: seq<Evaluation>, requirementId: string, lo: real, hi: real)
    requires Within(Scores(evals), lo, hi)
    ensures Within(Scores(Matching(evals, requirementId)), lo, hi)
  {
    var m := Matching(evals, requirementId);
    forall j | 0 <= j < |m| ensures lo <= m[j].score <= hi {
      assert m[j] in evals;
      var k :| 0 <= k < |evals| && evals[k] == m[j];
      assert Scores(evals)[k] == evals[k].score;
    }
  }

  /** When every score lies in `[lo, hi]` (the stored scores lie in [0, 1]),
      so does every aggregate and every average; empty cases give 0. */
  lemma AggregatesWithin(data: Data, sectionIndex: int, sentenceIndex: int, requirementId: string, lo: real, hi: real)
    requires ScoresWithin(data, lo, hi) && lo <= 0.0 <= hi
    ensures lo <= GetSectionAggregateScore(data, sectionIndex) <= hi
    ensures lo <= GetOverallArticleScore(data) <= hi
    ensures lo <= GetAverageScoreForRequirementInSection(data, sectionIndex, requirementId) <= hi
    ensures lo <= GetAverageScoreForRequirementInArticle(data, requirementId) <= hi
  {
    forall idx ensures lo <= GetSectionAggregateScore(data, idx) <= hi {
      SectionWithin(data, idx, lo, hi);
    }
    if |data.sections| > 0 {
      MeanWithin(SectionTerms(data), lo, hi);
    }
    var found := GetSectionByIndex(data, sectionIndex);
    if found.Some? {
      assert found.value in data.sections;
      var m := GetRequirementEvaluationsForSection(data, sectionIndex, requirementId);
      MatchingWithin(SectionEvals(found.value), requirementId, lo, hi);
      if |m| > 0 { MeanWithin(Scores(m), lo, hi); }
    }
    SectionsEvalsWithin(data.sections, lo, hi);
    MatchingWithin(SectionsEvals(data.sections), requirementId, lo, hi);
    var all := Matching(SectionsEvals(data.sections), requirementId);
    if |all| > 0 { MeanWithin(Scores(all), lo, hi); }
  }

  lemma SectionWithin(data: Data, sectionIndex: int, lo: real, hi: real)
    requires ScoresWithin(data, lo, hi) && lo <= 0.0 <= hi
    ensures lo <= GetSectionAggregateScore(data, sectionIndex) <= hi
  {
    var found := GetSectionByIndex(data, sectionIndex);
    if found.Some? {
      assert found.value in data.sections;
      if |SectionEvals(found.value)| > 0 {
        MeanWithin(Scores(SectionEvals(found.value)), lo, hi);
      }
    }
  }

  /* ---------------------------------------------------------------------- */
  /* First-occurrence deduplication.                                          */

  /** `uniqBy` continued from a point where the keys in `seen` were kept
      already: an item is kept when its key is new. */
  function UniqFrom<T>(xs: seq<T>, seen: set<string>, key: T -> string): (r: seq<T>)
    ensures |r| <= |xs|
  {
    if |xs| == 0 then []
    else if key(xs[0]) in seen then UniqFrom(xs[1..], seen, key)
    else [xs[0]] + UniqFrom(xs[1..], seen + {key(xs[0])}, key)
  }

  /** `uniqBy(xs, key)`. */
  function UniqBy<T>(xs: seq<T>, key: T -> string): seq<T> {
    UniqFrom(xs, {}, key)
  }

  /** No earlier item of `xs` has the key of item `k`. */
  ghost predicate FirstOfKey<T>(xs: seq<T>, k: int, key: T -> string)
    requires 0 <= k < |xs|
  {
    forall m :: 0 <= m < k ==> key(xs[m]) != key(xs[k])
  }

  /** `r` is the subsequence of `xs`, in the order of `xs`, at exactly the
      positions whose item has an unseen key and is the first with it. */
  ghost predicate FirstsInOrder<T>(r: seq<T>, xs: seq<T>, seen: set<string>, key: T -> string) {
    exists pos :: Keyed.Picks(r, xs, pos)
      && forall k :: 0 <= k < |xs| ==> (k in pos <==> key(xs[k]) !in seen && FirstOfKey(xs, k, key))
  }

  /** What `UniqFrom` keeps: items of `xs` with unseen keys, one per key, each
      the first item of `xs` with its key, in the order of `xs`. */
  ghost predicate UniqOf<T(!new)>(r: seq<T>, xs: seq<T>, seen: set<string>, key: T -> string) {
    && Keyed.DistinctKeys(r, key)
    && (forall x :: x in r ==> x in xs && key(x) !in seen)
    && (forall k :: 0 <= k < |xs| && key(xs[k]) !in seen && FirstOfKey(xs, k, key) ==> xs[k] in r)
    && FirstsInOrder(r, xs, seen, key)
  }

  /** Being first with a key in `[x] + xs`, at a later position. */
  lemma FirstOfKeyCons<T>(xs: seq<T>, k: nat, key: T -> string)
    requires 1 <= k < |xs|
    ensures FirstOfKey(xs, k, key) <==> key(xs[0]) != key(xs[k]) && FirstOfKey(xs[1..], k - 1, key)
  {
    if key(xs[0]) != key(xs[k]) && FirstOfKey(xs[1..], k - 1, key) {
      forall m | 0 <= m < k ensures key(xs[m]) != key(xs[k]) {
        if m > 0 {
          assert xs[m] == xs[1..][m - 1];
        }
      }
    }
    if FirstOfKey(xs, k, key) {
      forall m | 0 <= m < k - 1 ensures key(xs[1..][m]) != key(xs[1..][k - 1]) {
        assert xs[1..][m] == xs[m + 1];
      }
    }
  }

  /** `UniqFrom` keeps the first items of each unseen key in the order of `xs`. */
  lemma {:induction false} UniqFromOrder<T(!new)>(xs: seq<T>, seen: set<string>, key: T -> string)
    ensures FirstsInOrder(UniqFrom(xs, seen, key), xs, seen, key)
    decreases |xs|
  {
    if |xs| == 0 {
      assert Keyed.Picks([], xs, []);
    } else {
      var keep := key(xs[0]) !in seen;
      var seen' := if keep then seen + {key(xs[0])} else seen;
      UniqFromOrder(xs[1..], seen', key);
      var p :| Keyed.Picks(UniqFrom(xs[1..], seen', key), xs[1..], p)
        && forall k :: 0 <= k < |xs[1..]| ==> (k in p <==> key(xs[1..][k]) !in seen' && FirstOfKey(xs[1..], k, key));
      UniqStep(xs, seen, key, p);
    }
  }

  /** One step of `UniqFromOrder`: from the positions kept in the tail to
      those kept in the whole list. */
  lemma UniqStep<T(!new)>(xs: seq<T>, seen: set<string>, key: T -> string, p: seq<nat>)
    requires |xs| > 0
    requires var after := if key(xs[0]) !in seen then seen + {key(xs[0])} else seen;
      && Keyed.Picks(UniqFrom(xs[1..], after, key), xs[1..], p)
      && forall k :: 0 <= k < |xs[1..]| ==> (k in p <==> key(xs[1..][k]) !in after && FirstOfKey(xs[1..], k, key))
    ensures FirstsInOrder(UniqFrom(xs, seen, key), xs, seen, key)
  {
    var keep := key(xs[0]) !in seen;
    var after := if keep then seen + {key(xs[0])} else seen;
    var q := Keyed.ConsPositions(keep, p);
    UniqPicks(xs, seen, after, key, p, keep);
    UniqPositions(xs, seen, after, key, p, q);
  }

  /** The items `UniqFrom` keeps sit at the tail's positions moved one on,
      after position 0 when the head is kept. */
  lemma UniqPicks<T(!new)>(xs: seq<T>, seen: set<string>, after: set<string>, key: T -> string, p: seq<nat>, keep: bool)
    requires |xs| > 0 && keep == (key(xs[0]) !in seen)
    requires after == if keep then seen + {key(xs[0])} else seen
    requires Keyed.Picks(UniqFrom(xs[1..], after, key), xs[1..], p)
    ensures Keyed.Picks(UniqFrom(xs, seen, key), xs, Keyed.ConsPositions(keep, p))
    ensures 0 in Keyed.ConsPositions(keep, p) <==> keep
    ensures forall k :: 1 <= k <= |xs[1..]| ==> (k in Keyed.ConsPositions(keep, p) <==> k - 1 in p)
  {
    var rest := UniqFrom(xs[1..], after, key);
    Keyed.PicksCons(xs[0], xs[1..], rest, p, keep);
    assert [xs[0]] + xs[1..] == xs;
  }

  /** The kept positions of the whole list, from those of its tail, where
      `after` is `seen` with the head's key added when the head is kept. */
  lemma UniqPositions<T>(xs: seq<T>, seen: set<string>, after: set<string>, key: T -> string, p: seq<nat>, q: seq<nat>)
    requires |xs| > 0
    requires after == if key(xs[0]) in seen then seen else seen + {key(xs[0])}
    requires forall k :: 0 <= k < |xs[1..]| ==> (k in p <==> key(xs[1..][k]) !in after && FirstOfKey(xs[1..], k, key))
    requires 0 in q <==> key(xs[0]) !in seen
    requires forall k :: 1 <= k <= |xs[1..]| ==> (k in q <==> k - 1 in p)
    ensures forall k :: 0 <= k < |xs| ==> (k in q <==> key(xs[k]) !in seen && FirstOfKey(xs, k, key))
  {
    forall k | 1 <= k < |xs| ensures k in q <==> key(xs[k]) !in seen && FirstOfKey(xs, k, key) {
      assert xs[k] == xs[1..][k - 1];
      FirstOfKeyCons(xs, k, key);
    }
  }

  /** `UniqFrom` is the one list that keeps the first items of each unseen
      key in the order of `xs`. */
  lemma UniqFromCharacterised<T(!new)>(xs: seq<T>, seen: set<string>, key: T -> string, r: seq<T>)
    ensures FirstsInOrder(r, xs, seen, key) <==> r == UniqFrom(xs, seen, key)
  {
    UniqFromOrder(xs, seen, key);
    if FirstsInOrder(r, xs, seen, key) {
      var u := UniqFrom(xs, seen, key);
      var p1 :| Keyed.Picks(r, xs, p1)
        && forall k :: 0 <= k < |xs| ==> (k in p1 <==> key(xs[k]) !in seen && FirstOfKey(xs, k, key));
      var p2 :| Keyed.Picks(u, xs, p2)
        && forall k :: 0 <= k < |xs| ==> (k in p2 <==> key(xs[k]) !in seen && FirstOfKey(xs, k, key));
      Keyed.PicksSame(r, u, xs, p1, p2);
    }
  }

  lemma {:induction false} UniqFromSpec<T(!new)>(xs: seq<T>, seen: set<string>, key: T -> string)
    ensures UniqOf(UniqFrom(xs, seen, key), xs, seen, key)
    decreases |xs|
  {
    if |xs| > 0 {
      var tail := xs[1..];
      var x0 := xs[0];
      var seen' := if key(x0) in seen then seen else seen + {key(x0)};
      UniqFromSpec(tail, seen', key);
      var rest := UniqFrom(tail, seen', key);
      assert forall x :: x in tail ==> x in xs;
      forall k | 0 <= k < |xs| && key(xs[k]) !in seen && FirstOfKey(xs, k, key)
        ensures xs[k] in UniqFrom(xs, seen, key)
      {
        if k > 0 {
          assert tail[k - 1] == xs[k];
          assert key(xs[k]) != key(x0);
          assert FirstOfKey(tail, k - 1, key) by {
            forall m | 0 <= m < k - 1 ensures key(tail[m]) != key(tail[k - 1]) {
              assert tail[m] == xs[m + 1];
            }
          }
        }
      }
      if key(x0) !in seen {
        UniqCons(x0, rest, key);
      }
    }
    UniqFromOrder(xs, seen, key);
  }

  lemma UniqCons<T>(x0: T, rest: seq<T>, key: T -> string)
    requires Keyed.DistinctKeys(rest, key)
    requires forall x :: x in rest ==> key(x) != key(x0)
    ensures Keyed.DistinctKeys([x0] + rest, key)
  {
    var r := [x0] + rest;
    forall i, j | 0 <= i < j < |r| ensures key(r[i]) != key(r[j]) {
      assert r[j] == rest[j - 1];
      if i > 0 { assert r[i] == rest[i - 1]; } else { assert r[j] in rest; }
    }
  }

  /** Every key of `xs` outside `seen` survives. */
  lemma {:induction false} UniqFromCovers<T(!new)>(xs: seq<T>, seen: set<string>, key: T -> string)
    ensures forall x :: x in xs && key(x) !in seen ==> key(x) in Keyed.Keys(UniqFrom(xs, seen, key), key)
    decreases |xs|
  {
    if |xs| > 0 {
      var x0 := xs[0];
      var seen' := if key(x0) in seen then seen else seen + {key(x0)};
      UniqFromCovers(xs[1..], seen', key);
      assert forall x :: x in xs ==> x == x0 || x in xs[1..];
      if key(x0) !in seen {
        var r := UniqFrom(xs, seen, key);
        assert r[0] == x0;
        assert Keyed.Keys(UniqFrom(xs[1..], seen', key), key) <= Keyed.Keys(r, key) by {
          forall x | x in UniqFrom(xs[1..], seen', key) ensures x in r {
          }
        }
      }
    }
  }

  /** Deduplicating a concatenation keeps the first part's survivors first. */
  lemma {:induction false} UniqFromAppend<T(!new)>(a: seq<T>, b: seq<T>, seen: set<string>, key: T -> string)
    ensures UniqFrom(a + b, seen, key) == UniqFrom(a, seen, key) + UniqFrom(b, seen + Keyed.Keys(a, key), key)
    decreases |a|
  {
    if |a| == 0 {
      assert a + b == b;
      assert Keyed.Keys(a, key) == {};
      assert seen + {} == seen;
    } else {
      var x0 := a[0];
      var seen' := if key(x0) in seen then seen else seen + {key(x0)};
      assert (a + b)[1..] == a[1..] + b;
      UniqFromAppend(a[1..], b, seen', key);
      assert seen' + Keyed.Keys(a[1..], key) == seen + Keyed.Keys(a, key) by {
        assert forall x :: x in a <==> x == x0 || x in a[1..];
      }
    }
  }

  /** `getAllRequirementsForSentence`. */
  function GetAllRequirementsForSentence(data: Data, sectionIndex: int, sentenceIndex: int): (r: seq<Evaluation>)
    ensures GetSentenceByIndex(data, sectionIndex, sentenceIndex).None? ==> r == []
    ensures GetSentenceByIndex(data, sectionIndex, sentenceIndex).Some? ==>
      r == GetSentenceByIndex(data, sectionIndex, sentenceIndex).value.requirementEvaluations
  {
    match GetSentenceByIndex(data, sectionIndex, sentenceIndex)
    case None => []
    case Some(s) => s.requirementEvaluations
  }

  /** `getAllRequirementsForSection`: the section's evaluations with repeated
      requirement ids removed, keeping the first. */
  function GetAllRequirementsForSection(data: Data, sectionIndex: int): (r: seq<Evaluation>)
    ensures GetSectionByIndex(data, sectionIndex).None? ==> r == []
    ensures GetSectionByIndex(data, sectionIndex).Some? ==>
      UniqOf(r, SectionEvals(GetSectionByIndex(data, sectionIndex).value), {}, RequirementId)
  {
    match GetSectionByIndex(data, sectionIndex)
    case None => []
    case Some(s) =>
      UniqFromSpec(SectionEvals(s), {}, RequirementId);
      UniqBy(SectionEvals(s), RequirementId)
  }

  /** Every evaluation of the article, article-level first, then each
      section's own and its sentences'. */
  function ArticleEvals(data: Data): seq<Evaluation> {
    data.article.requirementEvaluations + SectionsEvals(data.sections)
  }

  /** `getAllRequirementsForArticle`: every evaluation with repeated
      requirement ids removed, keeping the first. */
  function GetAllRequirementsForArticle(data: Data): (r: seq<Evaluation>)
    ensures UniqOf(r, ArticleEvals(data), {}, RequirementId)
  {
    UniqFromSpec(ArticleEvals(data), {}, RequirementId);
    UniqBy(ArticleEvals(data), RequirementId)
  }

  /** Each requirement id of the section or article appears in the result. */
  lemma GetAllRequirementsCover(data: Data, sectionIndex: int)
    ensures forall x :: x in ArticleEvals(data) ==> x.requirementId in Keyed.Keys(GetAllRequirementsForArticle(data), RequirementId)
    ensures GetSectionByIndex(data, sectionIndex).Some? ==> forall x :: x in SectionEvals(GetSectionByIndex(data, sectionIndex).value) ==>
      x.requirementId in Keyed.Keys(GetAllRequirementsForSection(data, sectionIndex), RequirementId)
  {
    UniqFromCovers(ArticleEvals(data), {}, RequirementId);
    if GetSectionByIndex(data, sectionIndex).Some? {
      UniqFromCovers(SectionEvals(GetSectionByIndex(data, sectionIndex).value), {}, RequirementId);
    }
  }

  /** The article-level evaluations come first in the article's list, then
      those of the sections whose id the article level did not have. */
  lemma GetAllRequirementsForArticleOrder(data: Data)
    ensures GetAllRequirementsForArticle(data)
      == UniqBy(data.article.requirementEvaluations, RequirementId)
         + UniqFrom(SectionsEvals(data.sections), Keyed.Keys(data.article.requirementEvaluations, RequirementId), RequirementId)
  {
    UniqFromAppend(data.article.requirementEvaluations, SectionsEvals(data.sections), {}, RequirementId);
    assert {} + Keyed.Keys(data.article.requirementEvaluations, RequirementId) == Keyed.Keys(data.article.requirementEvaluations, RequirementId);
  }

  /* ---------------------------------------------------------------------- */
  /* Joining with the requirement documents.                                  */

  /** An evaluation with the details of its requirement. */
  datatype EnhancedEvaluation = EnhancedEvaluation(
    evaluation: Evaluation,
    description: string,
    reference: string,
    where: string,
    when: string)

  type Requirement = Requirements.BasicRequirement

  /** The groups of a requirements file in `Object.values` order, one list
      per category. */
  type RequirementGroups = seq<seq<Requirement>>

  /** The group has a requirement with the id. */
  predicate Holds(group: seq<Requirement>, id: string) {
    FindBy(group, Requirements.BasicKey, id).Some?
  }

  /** The last group holding a requirement with the id. */
  function LastGroupWith(groups: RequirementGroups, id: string): (r: Option<nat>)
    ensures r.None? <==> forall j :: 0 <= j < |groups| ==> !Holds(groups[j], id)
    ensures r.Some? ==> r.value < |groups| && Holds(groups[r.value], id)
    ensures r.Some? ==> forall k :: r.value < k < |groups| ==> !Holds(groups[k], id)
  {
    if |groups| == 0 then None
    else
      assert forall j :: 0 < j < |groups| ==> groups[1..][j - 1] == groups[j];
      match LastGroupWith(groups[1..], id)
      case Some(j) => Some(j + 1)
      case None => if Holds(groups[0], id) then Some(0) else None
  }

  /** The requirement the `forEach` over the groups ends with: each group's
      first requirement with the id replaces what an earlier group gave. */
  function LastFound(groups: RequirementGroups, id: string): (r: Option<Requirement>)
    ensures r.None? <==> forall j :: 0 <= j < |groups| ==> !Holds(groups[j], id)
    ensures r.Some? ==> r.value.id == id
    ensures r.Some? ==> r == FindBy(groups[LastGroupWith(groups, id).value], Requirements.BasicKey, id)
  {
    match LastGroupWith(groups, id)
    case None => None
    case Some(j) =>
      var g := groups[j];
      assert g[FirstAt(g, Requirements.BasicKey, id).value].id == id;
      FindBy(g, Requirements.BasicKey, id)
  }

  /** `mergeRequirementWithEvaluation`: every evaluation field is kept; the
      four details come from the requirement found, or are empty. */
  function MergeRequirementWithEvaluation(evaluation: Evaluation, groups: RequirementGroups): (r: EnhancedEvaluation)
    ensures r.evaluation == evaluation
    ensures LastFound(groups, evaluation.requirementId).None? ==>
      r.description == "" && r.reference == "" && r.where == "" && r.when == ""
    ensures LastFound(groups, evaluation.requirementId).Some? ==>
      var q := LastFound(groups, evaluation.requirementId).value;
      r.description == q.description && r.reference == q.reference && r.where == q.where && r.when == q.when
  {
    match LastFound(groups, evaluation.requirementId)
    case None => EnhancedEvaluation(evaluation, "", "", "", "")
    case Some(q) => EnhancedEvaluation(evaluation, q.description, q.reference, q.where, q.when)
  }

  /** When a single group holds the id, its requirement supplies the details. */
  lemma MergeFromOnlyGroup(evaluation: Evaluation, groups: RequirementGroups, g: nat, q: Requirement)
    requires g < |groups| && q in groups[g] && q.id == evaluation.requirementId
    requires forall j, m :: 0 <= j < |groups| && 0 <= m < |groups[j]| && groups[j][m].id == q.id ==> j == g && groups[j][m] == q
    ensures MergeRequirementWithEvaluation(evaluation, groups).description == q.description
    ensures MergeRequirementWithEvaluation(evaluation, groups).reference == q.reference
  {
    var id := evaluation.requirementId;
    var found := LastFound(groups, id);
    var m :| 0 <= m < |groups[g]| && groups[g][m] == q;
    assert Holds(groups[g], id) by { assert Requirements.BasicKey(groups[g][m]) == id; }
    var j := LastGroupWith(groups, id).value;
    var at := FirstAt(groups[j], Requirements.BasicKey, id).value;
    assert groups[j][at].id == id;
  }

  /** Enhancing keeps the list: one result per evaluation, in order. */
  function Enhance(evals: seq<Evaluation>, groups: RequirementGroups): (r: seq<EnhancedEvaluation>)
    ensures |r| == |evals|
    ensures forall j :: 0 <= j < |r| ==> r[j] == MergeRequirementWithEvaluation(evals[j], groups)
  {
    seq(|evals|, j requires 0 <= j < |evals| => MergeRequirementWithEvaluation(evals[j], groups))
  }

  /** `getEnhancedRequirementsForSection`. */
  function GetEnhancedRequirementsForSection(data: Data, sectionIndex: int, groups: RequirementGroups)
    : (r: seq<EnhancedEvaluation>)
    ensures |r| == |GetAllRequirementsForSection(data, sectionIndex)|
    ensures forall j :: 0 <= j < |r| ==> r[j].evaluation == GetAllRequirementsForSection(data, sectionIndex)[j]
  {
    Enhance(GetAllRequirementsForSection(data, sectionIndex), groups)
  }

  /** `getEnhancedRequirementsForSentence`. */
  function GetEnhancedRequirementsForSentence(data: Data, sectionIndex: int, sentenceIndex: int, groups: RequirementGroups)
    : (r: seq<EnhancedEvaluation>)
    ensures |r| == |GetAllRequirementsForSentence(data, sectionIndex, sentenceIndex)|
    ensures forall j :: 0 <= j < |r| ==> r[j].evaluation == GetAllRequirementsForSentence(data, sectionIndex, sentenceIndex)[j]
  {
    Enhance(GetAllRequirementsForSentence(data, sectionIndex, sentenceIndex), groups)
  }

  /** `getEnhancedRequirementsForArticle`. */
  function GetEnhancedRequirementsForArticle(data: Data, groups: RequirementGroups): (r: seq<EnhancedEvaluation>)
    ensures |r| == |GetAllRequirementsForArticle(data)|
    ensures forall j :: 0 <= j < |r| ==> r[j].evaluation == GetAllRequirementsForArticle(data)[j]
  {
    Enhance(GetAllRequirementsForArticle(data), groups)
  }

  /* ---------------------------------------------------------------------- */
  /* Converting stored evaluations.                                           */

  type Stored = RequirementEvaluation<Option<real>>

  /** `isValidRequirementEvaluation`: both score and confidence are present. */
  predicate IsValid(e: Stored) {
    e.score.Some? && e.confidence.Some?
  }

  /** The client record of a valid stored evaluation. */
  function Settle(e: Stored): (r: Evaluation)
    requires IsValid(e)
    ensures Forget(r) == e
  {
    RequirementEvaluation(e.requirementId, e.requirementCategory, e.classification, e.applicable,
                          e.applicabilityReasoning, e.score.value, e.confidence.value, e.evidence,
                          e.reasoning, e.overlapNotes)
  }

  /** A client record seen as a stored one. */
  function Forget(e: Evaluation): (r: Stored)
    ensures IsValid(r)
  {
    RequirementEvaluation(e.requirementId, e.requirementCategory, e.classification, e.applicable,
                          e.applicabilityReasoning, Some(e.score), Some(e.confidence), e.evidence,
                          e.reasoning, e.overlapNotes)
  }

  function ForgetAll(es: seq<Evaluation>): (r: seq<Stored>)
    ensures |r| == |es| && forall j :: 0 <= j < |r| ==> r[j] == Forget(es[j])
  {
    seq(|es|, j requires 0 <= j < |es| => Forget(es[j]))
  }

  lemma ForgetAllCons(e: Stored, rest: seq<Evaluation>)
    requires IsValid(e)
    ensures ForgetAll([Settle(e)] + rest) == [e] + ForgetAll(rest)
  {
    var a := ForgetAll([Settle(e)] + rest);
    var b := [e] + ForgetAll(rest);
    assert forall j :: 0 <= j < |a| ==> a[j] == b[j] by {
      forall j | 0 <= j < |a| ensures a[j] == b[j] {
        if j > 0 { assert ([Settle(e)] + rest)[j] == rest[j - 1]; }
      }
    }
  }

  /** `filter(isValidRequirementEvaluation)`: the valid evaluations, in order. */
  function KeepValid(es: seq<Stored>): (r: seq<Evaluation>)
    ensures |r| <= |es|
    ensures forall x :: x in ForgetAll(r) <==> x in es && IsValid(x)
  {
    if |es| == 0 then []
    else
      var rest := KeepValid(es[1..]);
      assert forall x :: x in es <==> x == es[0] || x in es[1..];
      if IsValid(es[0]) then
        ForgetAllCons(es[0], rest);
        [Settle(es[0])] + rest
      else rest
  }

  /** Nothing valid is lost: keeping the valid evaluations and reading them
      back as stored ones is `filter` itself. */
  lemma {:induction false} KeepValidFilters(es: seq<Stored>)
    ensures ForgetAll(KeepValid(es)) == Valid(es)
  {
    if |es| > 0 {
      KeepValidFilters(es[1..]);
      if IsValid(es[0]) {
        ForgetAllCons(es[0], KeepValid(es[1..]));
      }
    }
  }

  /** The stored evaluations that `filter` keeps, as a reference. */
  function Valid(es: seq<Stored>): (r: seq<Stored>)
    ensures forall j :: 0 <= j < |r| ==> IsValid(r[j])
  {
    if |es| == 0 then []
    else if IsValid(es[0]) then [es[0]] + Valid(es[1..])
    else Valid(es[1..])
  }

  function ConvertSentence(s: SentenceEvaluation<Option<real>>): SentenceEvaluation<real> {
    SentenceEvaluation(s.index, s.sentence, KeepValid(s.requirementEvaluations), s.metaNotes)
  }

  function ConvertSection(s: SectionEvaluation<Option<real>>): (r: SectionEvaluation<real>)
    ensures |r.sentenceEvaluations| == |s.sentenceEvaluations|
  {
    SectionEvaluation(s.index, s.title,
                      seq(|s.sentenceEvaluations|, j requires 0 <= j < |s.sentenceEvaluations| => ConvertSentence(s.sentenceEvaluations[j])),
                      KeepValid(s.requirementEvaluations), s.metaNotes)
  }

  /** `convertCacheToEvalData`: the same sections and sentences, in the same
      order and with the same indices, titles and notes, holding exactly the
      stored evaluations that have both a score and a confidence. */
  function ConvertCacheToEvalData(cache: EvaluationData<Option<real>>): (r: Data)
    ensures |r.sections| == |cache.sections|
    ensures forall j :: 0 <= j < |r.sections| ==>
      var a := cache.sections[j];
      var b := r.sections[j];
      && b.index == a.index && b.title == a.title && b.metaNotes == a.metaNotes
      && ForgetAll(b.requirementEvaluations) == Valid(a.requirementEvaluations)
      && |b.sentenceEvaluations| == |a.sentenceEvaluations|
      && forall k :: 0 <= k < |b.sentenceEvaluations| ==>
           && b.sentenceEvaluations[k].index == a.sentenceEvaluations[k].index
           && b.sentenceEvaluations[k].sentence == a.sentenceEvaluations[k].sentence
           && b.sentenceEvaluations[k].metaNotes == a.sentenceEvaluations[k].metaNotes
           && ForgetAll(b.sentenceEvaluations[k].requirementEvaluations) == Valid(a.sentenceEvaluations[k].requirementEvaluations)
    ensures r.article.metaNotes == cache.article.metaNotes
    ensures ForgetAll(r.article.requirementEvaluations) == Valid(cache.article.requirementEvaluations)
  {
    var sections := seq(|cache.sections|, j requires 0 <= j < |cache.sections| => ConvertSection(cache.sections[j]));
    forall j | 0 <= j < |cache.sections| ensures ForgetAll(sections[j].requirementEvaluations) == Valid(cache.sections[j].requirementEvaluations) {
      KeepValidFilters(cache.sections[j].requirementEvaluations);
    }
    forall j, k | 0 <= j < |cache.sections| && 0 <= k < |cache.sections[j].sentenceEvaluations|
      ensures ForgetAll(sections[j].sentenceEvaluations[k].requirementEvaluations)
              == Valid(cache.sections[j].sentenceEvaluations[k].requirementEvaluations)
    {
      KeepValidFilters(cache.sections[j].sentenceEvaluations[k].requirementEvaluations);
    }
    KeepValidFilters(cache.article.requirementEvaluations);
    EvaluationData(sections, ArticleEvaluation(KeepValid(cache.article.requirementEvaluations), cache.article.metaNotes))
  }

  /** Stored data with no missing score or confidence converts without loss. */
  lemma {:induction false} ValidKeepsAll(es: seq<Stored>)
    requires forall j :: 0 <= j < |es| ==> IsValid(es[j])
    ensures Valid(es) == es
  {
    if |es| > 0 {
      ValidKeepsAll(es[1..]);
      assert es == [es[0]] + es[1..];
    }
  }
}
