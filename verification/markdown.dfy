/**
 * The markdown sectioniser and the sentence splitter, in the two shapes the
 * backend carries: the contiguous one (`index` counts emitted sections) and
 * the counter one (`index` counts header lines), plus the converters built on
 * them.
 *
 * A line is a header when its stripped form starts with `#`; its level is
 * the number of `#` its stripped form starts with and its title is
 * `line.strip("#").strip()`. The lines after a header, up to the next header,
 * are its content. Text before the first header and sections whose title is
 * empty are dropped.
 */
module Markdown {
  import opened Text
  import opened Fences

  /* ---------------------------------------------------------------------- */
  /* Header lines.                                                            */

  predicate IsHeader(line: string) {
    StartsWith(Strip(line), "#")
  }

  /** `len(re.match(r"^#+", line.strip()).group())`. */
  function Level(line: string): nat {
    LeadingCount(Strip(line), '#')
  }

  /** `line.strip("#").strip()`. */
  function Title(line: string): (r: string)
    ensures IsStripped(r)
  {
    Strip(StripHashes(line))
  }

  lemma HeaderLevel(line: string)
    requires IsHeader(line)
    ensures Level(line) >= 1
  {
    assert Strip(line)[0] == '#';
  }

  function Lines(markdown: string): seq<string> {
    Split(markdown, '\n')
  }

  /** A line as the sectioniser sees it. */
  datatype Line = Header(title: string, level: nat) | Body(text: string)

  function Classify(line: string): (r: Line)
    ensures r.Header? ==> r.level >= 1 && IsStripped(r.title)
  {
    if IsHeader(line) then
      HeaderLevel(line);
      Header(Title(line), Level(line))
    else Body(line)
  }

  function ClassifyAll(lines: seq<string>): (r: seq<Line>)
    ensures |r| == |lines|
    ensures forall i :: 0 <= i < |r| ==> r[i] == Classify(lines[i])
  {
    if |lines| == 0 then [] else [Classify(lines[0])] + ClassifyAll(lines[1..])
  }

  /** The classified lines of a document. */
  function Outline(markdown: string): seq<Line> {
    ClassifyAll(Lines(markdown))
  }

  function HeaderCount(ls: seq<Line>): nat {
    if |ls| == 0 then 0
    else (if ls[0].Header? then 1 else 0) + HeaderCount(ls[1..])
  }

  predicate IsTitled(l: Line) {
    l.Header? && l.title != ""
  }

  /** The number of header lines whose title is not empty. */
  function TitledCount(ls: seq<Line>): (n: nat)
    ensures n <= HeaderCount(ls)
  {
    if |ls| == 0 then 0
    else (if IsTitled(ls[0]) then 1 else 0) + TitledCount(ls[1..])
  }

  /** The `k`-th header line, counting from 1. */
  function NthHeader(ls: seq<Line>, k: nat): (h: Line)
    requires 1 <= k <= HeaderCount(ls)
    ensures h.Header?
  {
    if ls[0].Header? then (if k == 1 then ls[0] else NthHeader(ls[1..], k - 1))
    else NthHeader(ls[1..], k)
  }

  /** The lines after the `k`-th header line. */
  function AfterNth(ls: seq<Line>, k: nat): seq<Line>
    requires 1 <= k <= HeaderCount(ls)
  {
    if ls[0].Header? then (if k == 1 then ls[1..] else AfterNth(ls[1..], k - 1))
    else AfterNth(ls[1..], k)
  }

  /** The text of the lines up to the next header line. */
  function Leading(ls: seq<Line>): (r: seq<string>)
    ensures |r| <= |ls|
    ensures forall i :: 0 <= i < |r| ==> ls[i] == Body(r[i])
    ensures |r| < |ls| ==> ls[|r|].Header?
  {
    if |ls| == 0 || ls[0].Header? then []
    else [ls[0].text] + Leading(ls[1..])
  }

  /* ---------------------------------------------------------------------- */
  /* The scan both sectionisers share.                                        */

  /** The section being accumulated: `headerNo` counts the header lines seen
      up to and including its own. */
  datatype Pending = Pending(title: string, level: nat, content: seq<string>, headerNo: nat)

  /** A closed section before it is given its index: `body` holds its
      content lines as they were. */
  datatype Block = Block(title: string, level: nat, body: seq<string>, headerNo: nat)

  /** `"\n".join(lines).strip()`: the content text of a section. */
  function SectionText(lines: seq<string>): (r: string)
    ensures IsStripped(r)
  {
    Strip(Join(lines, "\n"))
  }

  /** The state the loop starts from: an untitled section that is never emitted. */
  const Untitled := Pending("", 0, [], 0)

  function Closed(p: Pending): Block {
    Block(p.title, p.level, p.content, p.headerNo)
  }

  /** A pending section is emitted only when its title is not empty. */
  function Close(p: Pending): (r: seq<Block>)
    ensures |r| <= 1
  {
    if p.title != "" then [Closed(p)] else []
  }

  /** The loop over `markdown_content.split("\n")`: a header line closes the
      pending section and opens a new one, any other line joins the pending
      section's content; the last pending section is closed at the end. */
  function Scan(ls: seq<Line>, p: Pending, counter: nat): seq<Block>
    decreases |ls|
  {
    if |ls| == 0 then Close(p)
    else match ls[0]
      case Header(title, level) => Close(p) + Scan(ls[1..], Pending(title, level, [], counter + 1), counter + 1)
      case Body(text) => Scan(ls[1..], p.(content := p.content + [text]), counter)
  }

  function ScanMarkdown(markdown: string): seq<Block> {
    Scan(Outline(markdown), Untitled, 0)
  }

  /** Block `b` is what the `k`-th header line of `ls` and the lines after it
      up to the next header make. */
  predicate FromHeader(b: Block, ls: seq<Line>, k: nat) {
    && 1 <= k <= HeaderCount(ls)
    && NthHeader(ls, k) == Header(b.title, b.level)
    && b.body == Leading(AfterNth(ls, k))
  }

  /** One block per titled header line, plus the pending one when it has a title. */
  lemma {:induction false} ScanCount(ls: seq<Line>, p: Pending, counter: nat)
    ensures |Scan(ls, p, counter)| == (if p.title != "" then 1 else 0) + TitledCount(ls)
    decreases |ls|
  {
    if |ls| > 0 {
      match ls[0]
      case Header(title, level) =>
        ScanCount(ls[1..], Pending(title, level, [], counter + 1), counter + 1);
      case Body(text) =>
        ScanCount(ls[1..], p.(content := p.content + [text]), counter);
    }
  }

  /** Every block has a title and header numbers grow strictly within `lo..hi`. */
  ghost predicate Ordered(r: seq<Block>, lo: nat, hi: nat) {
    && (forall j :: 0 <= j < |r| ==> r[j].title != "" && lo <= r[j].headerNo <= hi)
    && (forall i, j :: 0 <= i < j < |r| ==> r[i].headerNo < r[j].headerNo)
  }

  lemma {:induction false} ScanOrder(ls: seq<Line>, p: Pending, counter: nat)
    requires p.headerNo <= counter
    ensures Ordered(Scan(ls, p, counter), p.headerNo, counter + HeaderCount(ls))
    decreases |ls|
  {
    if |ls| > 0 {
      match ls[0]
      case Header(title, level) =>
        var q := Pending(title, level, [], counter + 1);
        ScanOrder(ls[1..], q, counter + 1);
        assert HeaderCount(ls) == 1 + HeaderCount(ls[1..]);
        OrderedAfterClose(p, Scan(ls[1..], q, counter + 1), counter, counter + HeaderCount(ls));
      case Body(text) =>
        ScanOrder(ls[1..], p.(content := p.content + [text]), counter);
        assert HeaderCount(ls) == HeaderCount(ls[1..]);
    }
  }

  /** A closed pending section goes in front of the blocks of later headers. */
  lemma OrderedAfterClose(p: Pending, tail: seq<Block>, counter: nat, hi: nat)
    requires p.headerNo <= counter < hi
    requires Ordered(tail, counter + 1, hi)
    ensures Ordered(Close(p) + tail, p.headerNo, hi)
  {
    var r := Close(p) + tail;
    forall j | 0 <= j < |r|
      ensures r[j].title != "" && p.headerNo <= r[j].headerNo <= hi
    {
      if j >= |Close(p)| {
        assert r[j] == tail[j - |Close(p)|];
      } else {
        assert r[j] == Closed(p);
      }
    }
    forall i, j | 0 <= i < j < |r| ensures r[i].headerNo < r[j].headerNo {
      if |Close(p)| == 1 && i == 0 {
        assert r[i] == Closed(p);
        assert r[j] == tail[j - 1];
      } else {
        assert r[i] == tail[i - |Close(p)|] && r[j] == tail[j - |Close(p)|];
      }
    }
  }


  lemma NthHeaderHead(ls: seq<Line>, k: nat)
    requires |ls| > 0 && ls[0].Header? && 1 <= k <= HeaderCount(ls[1..])
    ensures NthHeader(ls, k + 1) == NthHeader(ls[1..], k)
    ensures AfterNth(ls, k + 1) == AfterNth(ls[1..], k)
  {
  }

  lemma NthHeaderBody(ls: seq<Line>, k: nat)
    requires |ls| > 0 && ls[0].Body? && 1 <= k <= HeaderCount(ls[1..])
    ensures NthHeader(ls, k) == NthHeader(ls[1..], k)
    ensures AfterNth(ls, k) == AfterNth(ls[1..], k)
  {
  }

  /** Each block is the pending section, closed at the next header line, or
      comes from one header line of `ls` and the content after it. */
  ghost predicate Traced(r: seq<Block>, ls: seq<Line>, p: Pending, counter: nat) {
    forall j :: 0 <= j < |r| ==> TracedAt(r, ls, p, counter, j)
  }

  lemma {:induction false} ScanOrigin(ls: seq<Line>, p: Pending, counter: nat)
    requires p.headerNo <= counter
    ensures Traced(Scan(ls, p, counter), ls, p, counter)
    decreases |ls|
  {
    if |ls| == 0 {
      assert p.content + Leading(ls) == p.content;
    } else {
      match ls[0]
      case Header(title, level) =>
        var q := Pending(title, level, [], counter + 1);
        ScanOrigin(ls[1..], q, counter + 1);
        ScanOrder(ls[1..], q, counter + 1);
        TracedHeader(ls, p, counter);
      case Body(text) =>
        ScanOrigin(ls[1..], p.(content := p.content + [text]), counter);
        TracedBody(ls, p, counter);
    }
  }

  /** What `Traced` says about the block at position `j`. */
  ghost predicate TracedAt(r: seq<Block>, ls: seq<Line>, p: Pending, counter: nat, j: nat)
    requires j < |r|
  {
    if r[j].headerNo > counter then FromHeader(r[j], ls, r[j].headerNo - counter)
    else j == 0 && r[j] == Closed(p.(content := p.content + Leading(ls)))
  }

  /** The step of `ScanOrigin` at a header line. */
  lemma TracedHeader(ls: seq<Line>, p: Pending, counter: nat)
    requires |ls| > 0 && ls[0].Header? && p.headerNo <= counter
    requires var q := Pending(ls[0].title, ls[0].level, [], counter + 1);
      && Traced(Scan(ls[1..], q, counter + 1), ls[1..], q, counter + 1)
      && Ordered(Scan(ls[1..], q, counter + 1), counter + 1, counter + 1 + HeaderCount(ls[1..]))
    ensures Traced(Scan(ls, p, counter), ls, p, counter)
  {
    var r := Scan(ls, p, counter);
    forall j | 0 <= j < |r| ensures TracedAt(r, ls, p, counter, j) {
      TracedHeaderAt(ls, p, counter, j);
    }
  }

  lemma TracedHeaderAt(ls: seq<Line>, p: Pending, counter: nat, j: nat)
    requires |ls| > 0 && ls[0].Header? && p.headerNo <= counter
    requires var q := Pending(ls[0].title, ls[0].level, [], counter + 1);
      && Traced(Scan(ls[1..], q, counter + 1), ls[1..], q, counter + 1)
      && Ordered(Scan(ls[1..], q, counter + 1), counter + 1, counter + 1 + HeaderCount(ls[1..]))
    requires j < |Scan(ls, p, counter)|
    ensures TracedAt(Scan(ls, p, counter), ls, p, counter, j)
  {
    var q := Pending(ls[0].title, ls[0].level, [], counter + 1);
    var tail := Scan(ls[1..], q, counter + 1);
    var r := Scan(ls, p, counter);
    assert r == Close(p) + tail;
    if j < |Close(p)| {
      assert r[j] == Closed(p);
      assert p.content + Leading(ls) == p.content;
    } else {
      var b := tail[j - |Close(p)|];
      assert r[j] == b;
      assert TracedAt(tail, ls[1..], q, counter + 1, j - |Close(p)|);
      assert b.headerNo >= counter + 1;
      if b.headerNo > counter + 1 {
        NthHeaderHead(ls, b.headerNo - counter - 1);
      } else {
        assert q.content + Leading(ls[1..]) == Leading(AfterNth(ls, 1));
      }
    }
  }

  /** The step of `ScanOrigin` at a content line. */
  lemma TracedBody(ls: seq<Line>, p: Pending, counter: nat)
    requires |ls| > 0 && ls[0].Body?
    requires var q := p.(content := p.content + [ls[0].text]);
      Traced(Scan(ls[1..], q, counter), ls[1..], q, counter)
    ensures Traced(Scan(ls, p, counter), ls, p, counter)
  {
    var q := p.(content := p.content + [ls[0].text]);
    var r := Scan(ls, p, counter);
    assert r == Scan(ls[1..], q, counter);
    forall j | 0 <= j < |r| ensures TracedAt(r, ls, p, counter, j) {
      assert TracedAt(Scan(ls[1..], q, counter), ls[1..], q, counter, j);
      TracedBodyAt(ls, p, counter, j);
    }
  }

  lemma TracedBodyAt(ls: seq<Line>, p: Pending, counter: nat, j: nat)
    requires |ls| > 0 && ls[0].Body?
    requires j < |Scan(ls, p, counter)|
    requires var q := p.(content := p.content + [ls[0].text]);
      var r := Scan(ls[1..], q, counter);
      j < |r| && TracedAt(r, ls[1..], q, counter, j)
    ensures TracedAt(Scan(ls, p, counter), ls, p, counter, j)
  {
    var q := p.(content := p.content + [ls[0].text]);
    var r := Scan(ls, p, counter);
    assert r == Scan(ls[1..], q, counter);
    var b := r[j];
    if b.headerNo > counter {
      FromHeaderBody(ls, b, b.headerNo - counter);
    } else {
      ClosedBody(ls, p);
    }
  }

  lemma FromHeaderBody(ls: seq<Line>, b: Block, k: nat)
    requires |ls| > 0 && ls[0].Body?
    requires FromHeader(b, ls[1..], k)
    ensures FromHeader(b, ls, k)
  {
    assert HeaderCount(ls) == HeaderCount(ls[1..]);
    NthHeaderBody(ls, k);
  }

  lemma ClosedBody(ls: seq<Line>, p: Pending)
    requires |ls| > 0 && ls[0].Body?
    ensures p.content + [ls[0].text] + Leading(ls[1..]) == p.content + Leading(ls)
  {
  }

  /** The blocks of a whole document: one per header line with a non-empty
      title, in order, each built from its header line and the lines up to
      the next header. */
  ghost predicate DocumentBlocks(r: seq<Block>, ls: seq<Line>) {
    && |r| == TitledCount(ls)
    && Ordered(r, 1, HeaderCount(ls))
    && (forall j :: 0 <= j < |r| ==> r[j].level >= 1 && FromHeader(r[j], ls, r[j].headerNo))
  }

  lemma ScanMarkdownFacts(markdown: string)
    ensures DocumentBlocks(ScanMarkdown(markdown), Outline(markdown))
  {
    var ls := Outline(markdown);
    var r := ScanMarkdown(markdown);
    ScanCount(ls, Untitled, 0);
    ScanOrder(ls, Untitled, 0);
    ScanOrigin(ls, Untitled, 0);
    assert Ordered(r, 0, HeaderCount(ls));
    assert Traced(r, ls, Untitled, 0);
    forall j | 0 <= j < |r| ensures 1 <= r[j].headerNo && r[j].level >= 1 && FromHeader(r[j], ls, r[j].headerNo) {
      assert TracedAt(r, ls, Untitled, 0, j);
      assert r[j].title != "";
      assert r[j].headerNo > 0;
      NthHeaderClassified(Lines(markdown), r[j].headerNo);
    }
  }

  /** Every header of a classified document has level at least 1. */
  lemma {:induction false} NthHeaderClassified(lines: seq<string>, k: nat)
    requires 1 <= k <= HeaderCount(ClassifyAll(lines))
    ensures NthHeader(ClassifyAll(lines), k).level >= 1
  {
    var ls := ClassifyAll(lines);
    assert ls[0] == Classify(lines[0]);
    assert ls[1..] == ClassifyAll(lines[1..]);
    if !(ls[0].Header? && k == 1) {
      NthHeaderClassified(lines[1..], if ls[0].Header? then k - 1 else k);
    }
  }

  /* ---------------------------------------------------------------------- */
  /* The two sectionisers.                                                    */

  /** A section as `utils/split.py` and both `format.py` modules return it. */
  datatype Section = Section(title: string, content: string, level: nat, index: nat)

  /** A section as the index-tracking evaluator returns it. */
  datatype IndexedSection = IndexedSection(index: nat, title: string, content: string)

  function Numbered(blocks: seq<Block>, first: nat): (r: seq<Section>)
    ensures |r| == |blocks|
    ensures forall j :: 0 <= j < |r| ==>
      r[j] == Section(blocks[j].title, SectionText(blocks[j].body), blocks[j].level, first + j)
  {
    if |blocks| == 0 then []
    else
      [Section(blocks[0].title, SectionText(blocks[0].body), blocks[0].level, first)] + Numbered(blocks[1..], first + 1)
  }

  /** The header numbers the sections of a document come from. */
  ghost function Origins(markdown: string): (r: seq<nat>)
    ensures |r| == |ScanMarkdown(markdown)|
  {
    var blocks := ScanMarkdown(markdown);
    seq(|blocks|, j requires 0 <= j < |blocks| => blocks[j].headerNo)
  }

  /**
   * `parse_markdown_to_sections` with `current_index`: sections are numbered
   * 1, 2, ... in the order they are emitted. Section `j` is made from header
   * line number `Origins(markdown)[j]`; these grow strictly and cover
   * exactly the header lines with a non-empty title.
   */
  function ParseSections(markdown: string): (r: seq<Section>)
    ensures var ls := Outline(markdown);
      var origin := Origins(markdown);
      && |r| == |origin| == TitledCount(ls)
      && (forall j :: 0 <= j < |r| ==> r[j].index == j + 1)
      && (forall j :: 0 <= j < |r| ==> r[j].title != "" && r[j].level >= 1)
      && (forall i, j :: 0 <= i < j < |r| ==> origin[i] < origin[j])
      && (forall j :: 0 <= j < |r| ==>
            && 1 <= origin[j] <= HeaderCount(ls)
            && NthHeader(ls, origin[j]) == Header(r[j].title, r[j].level)
            && r[j].content == SectionText(Leading(AfterNth(ls, origin[j]))))
  {
    ScanMarkdownFacts(markdown);
    Numbered(ScanMarkdown(markdown), 1)
  }

  function Counted(blocks: seq<Block>): (r: seq<IndexedSection>)
    ensures |r| == |blocks|
    ensures forall j :: 0 <= j < |r| ==>
      r[j] == IndexedSection(blocks[j].headerNo, blocks[j].title, SectionText(blocks[j].body))
  {
    if |blocks| == 0 then []
    else [IndexedSection(blocks[0].headerNo, blocks[0].title, SectionText(blocks[0].body))] + Counted(blocks[1..])
  }

  /**
   * `parse_markdown_to_sections` with `section_counter`: a section's index is
   * the number of its header line among all header lines, so the indices
   * grow strictly but skip the header lines whose title is empty.
   */
  function ParseSectionsCounted(markdown: string): (r: seq<IndexedSection>)
    ensures var ls := Outline(markdown);
      && |r| == TitledCount(ls)
      && (forall j :: 0 <= j < |r| ==> r[j].title != "" && 1 <= r[j].index <= HeaderCount(ls))
      && (forall i, j :: 0 <= i < j < |r| ==> r[i].index < r[j].index)
      && (forall j :: 0 <= j < |r| ==>
            && NthHeader(ls, r[j].index).title == r[j].title
            && r[j].content == SectionText(Leading(AfterNth(ls, r[j].index))))
  {
    ScanMarkdownFacts(markdown);
    Counted(ScanMarkdown(markdown))
  }

  /** The two sectionisers find the same sections, in the same order, and
      differ only in the index they give them. */
  lemma SectionisersAgree(markdown: string)
    ensures var a := ParseSections(markdown);
      var b := ParseSectionsCounted(markdown);
      && |a| == |b|
      && (forall j :: 0 <= j < |a| ==>
            a[j].title == b[j].title && a[j].content == b[j].content && a[j].index <= b[j].index)
  {
    var a := ParseSections(markdown);
    var b := ParseSectionsCounted(markdown);
    forall j | 0 <= j < |a| ensures a[j].index <= b[j].index {
      IndexAtLeastPosition(b, j);
    }
  }

  lemma {:induction false} IndexAtLeastPosition(b: seq<IndexedSection>, j: nat)
    requires j < |b|
    requires forall k :: 0 <= k < |b| ==> 1 <= b[k].index
    requires forall i, k :: 0 <= i < k < |b| ==> b[i].index < b[k].index
    ensures j + 1 <= b[j].index
  {
    if j > 0 {
      IndexAtLeastPosition(b, j - 1);
    }
  }

  /** A header whose title is empty does not make a section but still counts
      for the index of the sections after it. */
  lemma CountedSkipsUntitled()
    ensures ParseSectionsCounted("#\n# A") == [IndexedSection(2, "A", "")]
    ensures ParseSections("#\n# A") == [Section("A", "", 1, 1)]
  {
    UntitledExampleOutline();
    var ls := Outline("#\n# A");
    ScanHeaderStep("", 1, [Header("A", 1)], Untitled, 0);
    ScanHeaderStep("A", 1, [], Pending("", 1, [], 1), 1);
    assert [Header("", 1)] + [Header("A", 1)] == ls;
    assert [Header("A", 1)] + [] == [Header("A", 1)];
    assert Scan(ls, Untitled, 0) == [Block("A", 1, [], 2)];
    assert Join([], "\n") == "";
  }

  lemma UntitledExampleOutline()
    ensures Outline("#\n# A") == [Header("", 1), Header("A", 1)]
  {
    ExampleLines();
    LoneHashClassified();
    HeaderAClassified();
  }

  lemma ExampleLines()
    ensures Lines("#\n# A") == ["#", "# A"]
  {
    SplitAppend("#", "# A", '\n');
    assert "#\n# A" == "#" + ['\n'] + "# A";
    SplitFree("#", '\n');
    SplitFree("# A", '\n');
  }

  /** A line of hashes alone is a header with an empty title. */
  lemma LoneHashClassified()
    ensures Classify("#") == Header("", 1)
  {
    StripStripped("#");
    assert StripHashes("#") == "";
  }

  lemma HeaderAClassified()
    ensures Classify("# A") == Header("A", 1)
  {
    HeaderParts("#", " A");
    assert "#" + " A" == "# A";
    assert Strip(" A") == "A" by {
      assert " A" == " " + "A";
      StripSpacePrefix(" ", "A");
      StripStripped("A");
    }
  }



  /** The `k`-th classified header is the classification of a raw header line
      that has `k - 1` header lines before it. */
  lemma {:induction false} NthHeaderLine(lines: seq<string>, k: nat) returns (i: nat)
    requires 1 <= k <= HeaderCount(ClassifyAll(lines))
    ensures i < |lines| && IsHeader(lines[i])
    ensures HeaderCount(ClassifyAll(lines[..i])) == k - 1
    ensures NthHeader(ClassifyAll(lines), k) == Header(Title(lines[i]), Level(lines[i]))
  {
    var ls := ClassifyAll(lines);
    i := NthHeaderAt(ls, k);
    assert ls[i] == Classify(lines[i]);
    assert ClassifyAll(lines[..i]) == ls[..i];
  }

  /** Where the `k`-th header line stands: `k - 1` header lines come before it. */
  lemma {:induction false} NthHeaderAt(ls: seq<Line>, k: nat) returns (i: nat)
    requires 1 <= k <= HeaderCount(ls)
    ensures i < |ls| && ls[i].Header?
    ensures HeaderCount(ls[..i]) == k - 1
    ensures NthHeader(ls, k) == ls[i]
    decreases |ls|
  {
    if ls[0].Header? && k == 1 {
      i := 0;
      assert ls[..0] == [];
    } else {
      var i' := NthHeaderAt(ls[1..], if ls[0].Header? then k - 1 else k);
      i := i' + 1;
      assert ls[..i][1..] == ls[1..][..i'];
    }
  }


  /* ---------------------------------------------------------------------- */
  /* Sentences.                                                               */

  predicate IsStop(c: char) {
    c == '.' || c == '!' || c == '?'
  }

  /** `re.split(r"(?<=[.!?])\s+", text)` read from a point where the previous
      character was a sentence stop (`afterStop`) or not: a whitespace run
      right after a stop is a break and is dropped whole. */
  function Pieces(s: string, afterStop: bool): (r: seq<string>)
    ensures |r| >= 1
    decreases |s|
  {
    if |s| == 0 then [""]
    else if afterStop && IsSpace(s[0]) then [""] + Pieces(TrimStart(s, IsSpace), false)
    else
      var t := Pieces(s[1..], IsStop(s[0]));
      [[s[0]] + t[0]] + t[1..]
  }

  /** The whitespace runs the split drops, in order. */
  function Breaks(s: string, afterStop: bool): seq<string>
    decreases |s|
  {
    if |s| == 0 then []
    else if afterStop && IsSpace(s[0]) then
      var rest := TrimStart(s, IsSpace);
      [s[..|s| - |rest|]] + Breaks(rest, false)
    else Breaks(s[1..], IsStop(s[0]))
  }

  /** The pieces with the dropped runs put back between them. */
  function Weave(pieces: seq<string>, breaks: seq<string>): string
    requires |breaks| + 1 == |pieces|
  {
    if |breaks| == 0 then pieces[0]
    else pieces[0] + breaks[0] + Weave(pieces[1..], breaks[1..])
  }

  /** No piece holds a stop followed by whitespace. */
  predicate Unbroken(p: string) {
    forall i :: 0 <= i < |p| - 1 ==> !(IsStop(p[i]) && IsSpace(p[i + 1]))
  }

  /** Every run the split drops is non-empty whitespace. */
  ghost predicate SpaceRuns(gaps: seq<string>) {
    forall j :: 0 <= j < |gaps| ==> gaps[j] != "" && AllSpace(gaps[j])
  }

  /** Every piece before a break ends with a stop, except an empty first
      piece when the text began right after a stop. */
  ghost predicate StopEnded(r: seq<string>, afterStop: bool) {
    forall j :: 0 <= j < |r| - 1 ==>
      (j == 0 && afterStop && r[j] == "") || (r[j] != "" && IsStop(r[j][|r[j]| - 1]))
  }

  ghost predicate AllUnbroken(r: seq<string>) {
    forall j :: 0 <= j < |r| ==> Unbroken(r[j])
  }

  /** No piece that follows a break starts with whitespace. */
  ghost predicate NoLeadingSpace(r: seq<string>, afterStop: bool) {
    forall j :: 0 <= j < |r| && r[j] != "" && (j > 0 || afterStop) ==> !IsSpace(r[j][0])
  }

  /** Putting the dropped whitespace runs back between the pieces gives the text. */
  lemma {:induction false} PiecesWeave(s: string, afterStop: bool)
    ensures |Breaks(s, afterStop)| + 1 == |Pieces(s, afterStop)|
    ensures Weave(Pieces(s, afterStop), Breaks(s, afterStop)) == s
    decreases |s|
  {
    if |s| == 0 {
    } else if afterStop && IsSpace(s[0]) {
      var rest := TrimStart(s, IsSpace);
      var gap := s[..|s| - |rest|];
      assert Pieces(s, afterStop) == [""] + Pieces(rest, false);
      assert Breaks(s, afterStop) == [gap] + Breaks(rest, false);
      PiecesWeave(rest, false);
      assert gap + Weave(Pieces(rest, false), Breaks(rest, false)) == s by {
        assert s == gap + rest;
      }
      WeaveSkip(gap, Pieces(rest, false), Breaks(rest, false));
    } else {
      var t := Pieces(s[1..], IsStop(s[0]));
      var gaps := Breaks(s[1..], IsStop(s[0]));
      assert Pieces(s, afterStop) == [[s[0]] + t[0]] + t[1..];
      assert Breaks(s, afterStop) == gaps;
      PiecesWeave(s[1..], IsStop(s[0]));
      assert [s[0]] + Weave(t, gaps) == s by {
        assert s == [s[0]] + s[1..];
      }
      WeaveCons(s[0], t, gaps);
    }
  }


  lemma WeaveSkip(gap: string, t: seq<string>, gaps: seq<string>)
    requires |gaps| + 1 == |t|
    ensures Weave([""] + t, [gap] + gaps) == gap + Weave(t, gaps)
  {
    var a, b := [""] + t, [gap] + gaps;
    assert a[0] == "" && b[0] == gap;
    assert a[1..] == t && b[1..] == gaps;
    assert Weave(a, b) == "" + gap + Weave(t, gaps);
    assert "" + gap == gap;
  }

  lemma {:induction false} BreaksSpace(s: string, afterStop: bool)
    ensures SpaceRuns(Breaks(s, afterStop))
    decreases |s|
  {
    if |s| == 0 {
    } else if afterStop && IsSpace(s[0]) {
      var rest := TrimStart(s, IsSpace);
      BreaksSpace(rest, false);
      var g := s[..|s| - |rest|];
      assert g[0] == s[0];
      assert AllSpace(g) by {
        forall i | 0 <= i < |g| ensures IsSpace(g[i]) { assert g[i] == s[i]; }
      }
      var gaps := Breaks(s, afterStop);
      forall j | 0 <= j < |gaps| ensures gaps[j] != "" && AllSpace(gaps[j]) {
        if j > 0 { assert gaps[j] == Breaks(rest, false)[j - 1]; }
      }
    } else {
      BreaksSpace(s[1..], IsStop(s[0]));
    }
  }

  /** The first piece starts where the text does, unless the text begins
      with a break. */
  lemma PiecesHead(s: string, afterStop: bool)
    requires |s| > 0 && !(afterStop && IsSpace(s[0]))
    ensures Pieces(s, afterStop)[0] != "" && Pieces(s, afterStop)[0][0] == s[0]
  {
  }

  lemma {:induction false} PiecesStops(s: string, afterStop: bool)
    ensures StopEnded(Pieces(s, afterStop), afterStop)
    decreases |s|
  {
    if |s| == 0 {
    } else if afterStop && IsSpace(s[0]) {
      var rest := TrimStart(s, IsSpace);
      PiecesStops(rest, false);
      StopEndedSkip(Pieces(rest, false));
    } else {
      PiecesStops(s[1..], IsStop(s[0]));
      StopEndedCons(s[0], Pieces(s[1..], IsStop(s[0])), afterStop);
    }
  }

  /** A break at the start adds an empty first piece. */
  lemma StopEndedSkip(t: seq<string>)
    requires |t| >= 1 && StopEnded(t, false)
    ensures StopEnded([""] + t, true)
  {
    var r := [""] + t;
    forall j | 0 <= j < |r| - 1
      ensures (j == 0 && r[j] == "") || (r[j] != "" && IsStop(r[j][|r[j]| - 1]))
    {
      if j > 0 { assert r[j] == t[j - 1]; }
    }
  }

  /** A character that is not a break joins the first piece. */
  lemma StopEndedCons(c: char, t: seq<string>, afterStop: bool)
    requires |t| >= 1 && StopEnded(t, IsStop(c))
    ensures StopEnded([[c] + t[0]] + t[1..], afterStop)
  {
    var r := [[c] + t[0]] + t[1..];
    forall j | 0 <= j < |r| - 1
      ensures r[j] != "" && IsStop(r[j][|r[j]| - 1])
    {
      if j == 0 {
        if t[0] == "" {
          assert r[0] == [c];
        } else {
          assert r[0][|r[0]| - 1] == t[0][|t[0]| - 1];
        }
      } else {
        assert r[j] == t[j];
      }
    }
  }

  lemma ConsUnbroken(c: char, p: string)
    requires Unbroken(p)
    requires |p| > 0 ==> !(IsStop(c) && IsSpace(p[0]))
    ensures Unbroken([c] + p)
  {
    var q := [c] + p;
    forall i | 0 <= i < |q| - 1 ensures !(IsStop(q[i]) && IsSpace(q[i + 1])) {
      if i > 0 {
        assert q[i] == p[i - 1] && q[i + 1] == p[i];
      }
    }
  }

  lemma {:induction false} PiecesUnbroken(s: string, afterStop: bool)
    ensures AllUnbroken(Pieces(s, afterStop))
    decreases |s|
  {
    var r := Pieces(s, afterStop);
    if |s| == 0 {
    } else if afterStop && IsSpace(s[0]) {
      var rest := TrimStart(s, IsSpace);
      PiecesUnbroken(rest, false);
      var t := Pieces(rest, false);
      forall j | 0 <= j < |r| ensures Unbroken(r[j]) {
        if j > 0 { assert r[j] == t[j - 1]; }
      }
    } else {
      var c := s[0];
      var t := Pieces(s[1..], IsStop(c));
      PiecesUnbroken(s[1..], IsStop(c));
      if |t[0]| > 0 && IsStop(c) {
        PiecesHead(s[1..], true);
      }
      ConsUnbroken(c, t[0]);
      forall j | 0 <= j < |r| ensures Unbroken(r[j]) {
        if j > 0 { assert r[j] == t[j]; }
      }
    }
  }

  lemma {:induction false} PiecesNoLeadingSpace(s: string, afterStop: bool)
    ensures NoLeadingSpace(Pieces(s, afterStop), afterStop)
    decreases |s|
  {
    var r := Pieces(s, afterStop);
    if |s| == 0 {
    } else if afterStop && IsSpace(s[0]) {
      var rest := TrimStart(s, IsSpace);
      PiecesNoLeadingSpace(rest, false);
      var t := Pieces(rest, false);
      forall j | 0 <= j < |r| && r[j] != "" && (j > 0 || afterStop) ensures !IsSpace(r[j][0]) {
        assert r[j] == t[j - 1];
        if j == 1 && |rest| > 0 {
          PiecesHead(rest, false);
        }
      }
    } else {
      var c := s[0];
      var t := Pieces(s[1..], IsStop(c));
      PiecesNoLeadingSpace(s[1..], IsStop(c));
      forall j | 0 <= j < |r| && r[j] != "" && (j > 0 || afterStop) ensures !IsSpace(r[j][0]) {
        if j > 0 { assert r[j] == t[j]; }
      }
    }
  }

  /** The split is exactly at the breaks: putting the dropped whitespace runs
      back between the pieces gives the text, every run is non-empty
      whitespace, every piece before a break ends with a stop, no piece
      holds a stop followed by whitespace, and no piece after a break
      starts with whitespace. */
  lemma PiecesSpec(s: string, afterStop: bool)
    ensures |Breaks(s, afterStop)| + 1 == |Pieces(s, afterStop)|
    ensures Weave(Pieces(s, afterStop), Breaks(s, afterStop)) == s
    ensures SpaceRuns(Breaks(s, afterStop))
    ensures StopEnded(Pieces(s, afterStop), afterStop)
    ensures AllUnbroken(Pieces(s, afterStop))
    ensures NoLeadingSpace(Pieces(s, afterStop), afterStop)
  {
    PiecesWeave(s, afterStop);
    BreaksSpace(s, afterStop);
    PiecesStops(s, afterStop);
    PiecesUnbroken(s, afterStop);
    PiecesNoLeadingSpace(s, afterStop);
  }

  lemma WeaveCons(c: char, t: seq<string>, gaps: seq<string>)
    requires |gaps| + 1 == |t|
    ensures Weave([[c] + t[0]] + t[1..], gaps) == [c] + Weave(t, gaps)
  {
    var u := [[c] + t[0]] + t[1..];
    assert u[1..] == t[1..];
  }

  /** `[s.strip() for s in pieces if s.strip()]`. */
  function Kept(pieces: seq<string>): (r: seq<string>)
    ensures |r| <= |pieces|
    ensures forall j :: 0 <= j < |r| ==> r[j] != "" && IsStripped(r[j])
  {
    if |pieces| == 0 then []
    else if Strip(pieces[0]) != "" then [Strip(pieces[0])] + Kept(pieces[1..])
    else Kept(pieces[1..])
  }

  /** `split_into_sentences`: the stripped, non-empty pieces of the split. */
  function SplitSentences(text: string): (r: seq<string>)
    ensures forall j :: 0 <= j < |r| ==> r[j] != "" && IsStripped(r[j])
  {
    Kept(Pieces(text, false))
  }

  /** Each sentence is a slice of the text that holds no stop followed by
      whitespace. */
  lemma SentencesUnbroken(text: string)
    ensures forall j :: 0 <= j < |SplitSentences(text)| ==> Unbroken(SplitSentences(text)[j])
  {
    PiecesSpec(text, false);
    KeptUnbroken(Pieces(text, false));
  }

  lemma {:induction false} KeptUnbroken(pieces: seq<string>)
    requires forall j :: 0 <= j < |pieces| ==> Unbroken(pieces[j])
    ensures forall j :: 0 <= j < |Kept(pieces)| ==> Unbroken(Kept(pieces)[j])
  {
    if |pieces| > 0 {
      KeptUnbroken(pieces[1..]);
      var p := pieces[0];
      var sp := Strip(p);
      if sp != "" {
        assert Unbroken(p);
        StripSlice(p);
        var k :| IsSliceAt(sp, p, k);
        forall i | 0 <= i < |sp| - 1 ensures !(IsStop(sp[i]) && IsSpace(sp[i + 1])) {
          assert sp[i] == p[k + i] && sp[i + 1] == p[k + i + 1];
        }
        var r := Kept(pieces);
        forall j | 0 <= j < |r| ensures Unbroken(r[j]) {
          if j > 0 { assert r[j] == Kept(pieces[1..])[j - 1]; }
        }
      }
    }
  }

  /** The text has no break, so the one sentence is the stripped text. */
  lemma SentencesNoBreak(text: string)
    requires Unbroken(text) && Strip(text) != ""
    ensures SplitSentences(text) == [Strip(text)]
  {
    PiecesSpec(text, false);
    var r := Pieces(text, false);
    if |r| > 1 {
      var gaps := Breaks(text, false);
      assert r[0] != "" && IsStop(r[0][|r[0]| - 1]);
      WeaveBreakAt(r, gaps);
      assert false;
    }
  }

  /** The first piece is followed by a whitespace run in the text. */
  lemma WeaveBreakAt(pieces: seq<string>, gaps: seq<string>)
    requires |gaps| + 1 == |pieces| && |gaps| > 0
    requires gaps[0] != "" && AllSpace(gaps[0]) && pieces[0] != ""
    requires IsStop(pieces[0][|pieces[0]| - 1])
    ensures !Unbroken(Weave(pieces, gaps))
  {
    var w := Weave(pieces, gaps);
    var n := |pieces[0]|;
    assert w == pieces[0] + gaps[0] + Weave(pieces[1..], gaps[1..]);
    assert w[n - 1] == pieces[0][n - 1];
    assert w[n] == gaps[0][0];
  }

  datatype IndexedSentence = IndexedSentence(index: nat, sentence: string)

  /** Every piece stripped. */
  function StripAll(pieces: seq<string>): (r: seq<string>)
    ensures |r| == |pieces|
    ensures forall j :: 0 <= j < |r| ==> r[j] == Strip(pieces[j])
  {
    seq(|pieces|, j requires 0 <= j < |pieces| => Strip(pieces[j]))
  }

  /** `enumerate` from `first`, keeping the non-empty texts. */
  function Numbering(texts: seq<string>, first: nat): (r: seq<IndexedSentence>)
    ensures |r| <= |texts|
  {
    if |texts| == 0 then []
    else
      var rest := Numbering(texts[1..], first + 1);
      if texts[0] != "" then [IndexedSentence(first, texts[0])] + rest else rest
  }

  /** Each numbered text is the non-empty text at its index, counted from
      `first`; every non-empty text is numbered with its position plus
      `first`, empty ones still taking up their index; and the indices grow
      strictly. */
  ghost predicate NumberedFrom(r: seq<IndexedSentence>, texts: seq<string>, first: nat) {
    && (forall j :: 0 <= j < |r| ==>
          first <= r[j].index < first + |texts| && r[j].sentence == texts[r[j].index - first] != "")
    && (forall k :: 0 <= k < |texts| && TextAt(texts, k) != "" ==> IndexedSentence(first + k, TextAt(texts, k)) in r)
    && (forall i, j :: 0 <= i < j < |r| ==> r[i].index < r[j].index)
  }

  /** Text `k`, named so that a statement about every position is used only
      where a position is asked about. */
  function TextAt(texts: seq<string>, k: nat): string
    requires k < |texts|
  {
    texts[k]
  }

  lemma {:induction false} NumberingSpec(texts: seq<string>, first: nat)
    ensures NumberedFrom(Numbering(texts, first), texts, first)
  {
    if |texts| > 0 {
      var rest := Numbering(texts[1..], first + 1);
      NumberingSpec(texts[1..], first + 1);
      NumberingCons(texts, first, rest);
    }
  }

  lemma NumberingCons(texts: seq<string>, first: nat, rest: seq<IndexedSentence>)
    requires |texts| > 0 && NumberedFrom(rest, texts[1..], first + 1)
    ensures texts[0] == "" ==> NumberedFrom(rest, texts, first)
    ensures texts[0] != "" ==> NumberedFrom([IndexedSentence(first, texts[0])] + rest, texts, first)
  {
    NumberingTail(texts, first, rest);
    if texts[0] != "" {
      NumberingKeep(texts, first, rest);
    }
  }

  /** The tail's numbering read against the whole list. */
  lemma NumberingTail(texts: seq<string>, first: nat, rest: seq<IndexedSentence>)
    requires |texts| > 0 && NumberedFrom(rest, texts[1..], first + 1)
    ensures forall j :: 0 <= j < |rest| ==>
      first + 1 <= rest[j].index < first + |texts| && rest[j].sentence == texts[rest[j].index - first] != ""
    ensures forall k :: 1 <= k < |texts| && TextAt(texts, k) != "" ==> IndexedSentence(first + k, TextAt(texts, k)) in rest
  {
    forall j | 0 <= j < |rest| ensures rest[j].sentence == texts[rest[j].index - first] {
      assert texts[1..][rest[j].index - first - 1] == texts[rest[j].index - first];
    }
    forall k | 1 <= k < |texts| && TextAt(texts, k) != "" ensures IndexedSentence(first + k, TextAt(texts, k)) in rest {
      assert TextAt(texts[1..], k - 1) == texts[k];
    }
  }

  lemma NumberingKeep(texts: seq<string>, first: nat, rest: seq<IndexedSentence>)
    requires |texts| > 0 && texts[0] != ""
    requires forall j :: 0 <= j < |rest| ==>
      first + 1 <= rest[j].index < first + |texts| && rest[j].sentence == texts[rest[j].index - first] != ""
    requires forall k :: 1 <= k < |texts| && TextAt(texts, k) != "" ==> IndexedSentence(first + k, TextAt(texts, k)) in rest
    requires forall i, j :: 0 <= i < j < |rest| ==> rest[i].index < rest[j].index
    ensures NumberedFrom([IndexedSentence(first, texts[0])] + rest, texts, first)
  {
    var r := [IndexedSentence(first, texts[0])] + rest;
    assert forall x :: x in rest ==> x in r;
    forall j | 0 <= j < |r|
      ensures first <= r[j].index < first + |texts| && r[j].sentence == texts[r[j].index - first] != ""
    {
      if j > 0 {
        assert r[j] == rest[j - 1];
      }
    }
    forall i, j | 0 <= i < j < |r| ensures r[i].index < r[j].index {
      assert r[j] == rest[j - 1];
      if i > 0 {
        assert r[i] == rest[i - 1];
      }
    }
  }

  /** `enumerate` with `idx + 1`, keeping the stripped non-empty pieces. */
  function IndexedFrom(pieces: seq<string>, first: nat): (r: seq<IndexedSentence>)
    ensures NumberedFrom(r, StripAll(pieces), first)
  {
    NumberingSpec(StripAll(pieces), first);
    Numbering(StripAll(pieces), first)
  }


  /** The index-tracking `split_into_sentences`: a sentence's index is its
      position, from 1, among all pieces of the split, empty ones included. */
  function IndexedSentences(text: string): seq<IndexedSentence> {
    IndexedFrom(Pieces(text, false), 1)
  }

  function SentenceTexts(xs: seq<IndexedSentence>): (r: seq<string>)
    ensures |r| == |xs|
  {
    if |xs| == 0 then [] else [xs[0].sentence] + SentenceTexts(xs[1..])
  }

  lemma {:induction false} NumberingKept(pieces: seq<string>, first: nat)
    ensures SentenceTexts(Numbering(StripAll(pieces), first)) == Kept(pieces)
  {
    if |pieces| > 0 {
      var texts := StripAll(pieces);
      assert texts[1..] == StripAll(pieces[1..]);
      NumberingKept(pieces[1..], first + 1);
      var rest := Numbering(texts[1..], first + 1);
      if texts[0] != "" {
        assert ([IndexedSentence(first, texts[0])] + rest)[1..] == rest;
      }
    }
  }

  lemma IndexedFromKept(pieces: seq<string>, first: nat)
    ensures SentenceTexts(IndexedFrom(pieces, first)) == Kept(pieces)
  {
    NumberingKept(pieces, first);
  }


  /** Both sentence splitters keep the same sentences in the same order. */
  lemma IndexedSentencesAgree(text: string)
    ensures SentenceTexts(IndexedSentences(text)) == SplitSentences(text)
  {
    IndexedFromKept(Pieces(text, false), 1);
  }


  /* ---------------------------------------------------------------------- */
  /* The converters.                                                          */

  /** `MarkdownDocument`: the document the converter accumulates. */
  datatype MarkdownDocument = MarkdownDocument(content: string) {
    /** `update`: appends to the content. */
    function Update(additional: string): (r: MarkdownDocument)
      ensures |r.content| == |content| + |additional|
      ensures r.content[..|content|] == content && r.content[|content|..] == additional
    {
      MarkdownDocument(content + additional)
    }
  }

  /** Two updates are one update with both texts, and an empty update
      changes nothing. */
  lemma UpdateCompose(d: MarkdownDocument, a: string, b: string)
    ensures d.Update(a).Update(b) == d.Update(a + b)
    ensures d.Update("") == d
  {
    assert d.content + a + b == d.content + (a + b);
    assert d.content + "" == d.content;
  }

  /** The converter of `utils/format.py` after the model has answered `raw`:
      strip, drop the markdown and plain code fences, strip, append to an
      empty document and strip its content. */
  function ConvertWikitext(raw: string): (r: string)
    ensures !Contains(r, Fence)
    ensures IsStripped(r)
  {
    var doc := MarkdownDocument("").Update(Unfence(Strip(raw), MarkdownFence));
    StripStripped(doc.content);
    Strip(doc.content)
  }

  /** The converter returns exactly the unfenced answer. */
  lemma ConvertWikitextUnfences(raw: string)
    ensures ConvertWikitext(raw) == Unfence(Strip(raw), MarkdownFence)
  {
    var u := Unfence(Strip(raw), MarkdownFence);
    StripStripped(u);
    assert "" + u == u;
  }

  /** An answer that is a fenced markdown block comes back as its stripped body. */
  lemma ConvertWikitextFenced(body: string)
    requires NoTicks(body)
    ensures ConvertWikitext(MarkdownFence + body + Fence) == Strip(body)
  {
    ConvertWikitextUnfences(MarkdownFence + body + Fence);
    WrappedStripped(MarkdownFence, body);
    UnfenceWrapped(body, MarkdownFence);
  }

  /** The words of the prompt's task line, joined by single spaces. */
  function TaskWords(): seq<string> {
    ["Your", "task", "is", "to", "convert", "the", "provided", "Wikitext", "chunk", "into",
     "perfectly", "formatted", "Markdown,", "excluding", "any", "images."]
  }

  function TaskLine(): string { Join(TaskWords(), " ") }
  function InputHeader(): string { "###" + " Input Data:" }

  lemma TaskLineFacts()
    ensures '\n' !in TaskLine() && |TaskLine()| > 0 && TaskLine()[0] == 'Y'
  {
    var w := TaskWords();
    forall i | 0 <= i < |w| ensures '\n' !in w[i] { }
    JoinFree(w, " ", '\n');
    assert TaskLine() == "Your" + " " + Join(w[1..], " ");
  }

  /** A line that starts with neither whitespace nor `#` is body text. */
  lemma BodyLine(line: string)
    requires |line| > 0 && !IsSpace(line[0]) && line[0] != '#'
    ensures Classify(line) == Body(line)
  {
    StripFirst(line);
  }

  /** The prompt text around a task line and the wikitext. */
  function Prompt(task: string, wikitext: string): string {
    "\n" + task + "\n\n" + InputHeader() + "\n\n" + wikitext + "\n"
  }

  /** `convert_wikitext_to_markdown` of `prompts/extract/format.py`: it
      returns its prompt, not a conversion. */
  function WikitextPrompt(wikitext: string): (r: string)
    ensures Lines(r) == ["", TaskLine(), "", InputHeader(), ""] + Lines(wikitext) + [""]
  {
    TaskLineReady();
    PromptTextLines(TaskLine(), wikitext);
    Prompt(TaskLine(), wikitext)
  }


  /** A line without a newline, then a newline, is one line of the split. */
  lemma SplitLine(line: string, rest: string)
    requires '\n' !in line
    ensures Lines(line + "\n" + rest) == [line] + Lines(rest)
  {
    SplitAppend(line, rest, '\n');
    SplitFree(line, '\n');
  }

  /** The lines of the prompt: a blank line, the task line, a blank line,
      the header, a blank line, the lines of the wikitext and a final blank
      line. */
  lemma PromptLines(task: string, header: string, wikitext: string)
    requires '\n' !in task && '\n' !in header
    ensures Lines("\n" + task + "\n\n" + header + "\n\n" + wikitext + "\n")
         == ["", task, "", header, ""] + Lines(wikitext) + [""]
  {
    var t5 := wikitext + "\n";
    var t4 := "" + "\n" + t5;
    var t3 := header + "\n" + t4;
    var t2 := "" + "\n" + t3;
    var t1 := task + "\n" + t2;
    var t0 := "" + "\n" + t1;
    assert t0 == "\n" + task + "\n\n" + header + "\n\n" + wikitext + "\n";
    assert Lines(t5) == Lines(wikitext) + [""] by {
      SplitAppend(wikitext, "", '\n');
      assert t5 == wikitext + ['\n'] + "";
    }
    assert Lines(t4) == [""] + Lines(t5) by { SplitLine("", t5); }
    assert Lines(t3) == [header] + Lines(t4) by { SplitLine(header, t4); }
    assert Lines(t2) == [""] + Lines(t3) by { SplitLine("", t3); }
    assert Lines(t1) == [task] + Lines(t2) by { SplitLine(task, t2); }
    assert Lines(t0) == [""] + Lines(t1) by { SplitLine("", t1); }
  }

  /** A section of `prompts/extract/format.py`'s `convert_wikitext`: the
      content replaced by its sentences. */
  datatype SentencedSection = SentencedSection(title: string, level: nat, index: nat, sentences: seq<string>)

  function WithSentences(sections: seq<Section>): (r: seq<SentencedSection>)
    ensures |r| == |sections|
    ensures forall j :: 0 <= j < |r| ==>
      var s := sections[j];
      r[j] == SentencedSection(s.title, s.level, s.index, if s.content != "" then SplitSentences(s.content) else [])
  {
    if |sections| == 0 then []
    else
      var s := sections[0];
      [SentencedSection(s.title, s.level, s.index, if s.content != "" then SplitSentences(s.content) else [])]
        + WithSentences(sections[1..])
  }

  /** `convert_wikitext` of `prompts/extract/format.py`. */
  function ConvertWikitextSections(wikitext: string): seq<SentencedSection> {
    WithSentences(ParseSections(WikitextPrompt(wikitext)))
  }

  /** A run of `#` followed by a text that starts with a space and does not
      end with whitespace or `#` is a header whose level is the run's length
      and whose title is the stripped text. */
  lemma HeaderParts(hashes: string, text: string)
    requires |hashes| > 0 && forall i :: 0 <= i < |hashes| ==> hashes[i] == '#'
    requires |text| > 1 && text[0] == ' ' && !IsSpace(text[|text| - 1]) && text[|text| - 1] != '#'
    ensures Classify(hashes + text) == Header(Strip(text), |hashes|)
  {
    var line := hashes + text;
    assert line[0] == '#' && line[|line| - 1] == text[|text| - 1];
    assert IsStripped(line);
    StripStripped(line);
    assert line[..1] == "#";
    assert IsHeader(line);
    HashRun(hashes, text);
    assert Level(line) == |hashes|;
    assert Title(line) == Strip(text);
  }

  lemma {:induction false} HashRun(hashes: string, text: string)
    requires forall i :: 0 <= i < |hashes| ==> hashes[i] == '#'
    requires |text| > 1 && text[0] == ' ' && text[|text| - 1] != '#'
    ensures LeadingCount(hashes + text, '#') == |hashes|
    ensures StripHashes(hashes + text) == text
  {
    if |hashes| > 0 {
      HashRun(hashes[1..], text);
      assert (hashes + text)[1..] == hashes[1..] + text;
    } else {
      assert hashes + text == text;
    }
  }

  lemma TaskLineBody()
    ensures Classify(TaskLine()) == Body(TaskLine())
  {
    TaskLineFacts();
    BodyLine(TaskLine());
  }

  lemma InputHeaderClassified()
    ensures Classify(InputHeader()) == Header("Input Data:", 3)
  {
    HeaderParts("###", " Input Data:");
    assert " Input Data:" == " " + "Input Data:";
    StripSpacePrefix(" ", "Input Data:");
    StripStripped("Input Data:");
  }

  /** How the prompt's own lines are classified: the blank lines and the
      task line are body text, the input line is a level-3 header titled
      "Input Data:". */
  lemma PromptHeaders()
    ensures Classify("") == Body("") && Classify(TaskLine()) == Body(TaskLine())
    ensures Classify(InputHeader()) == Header("Input Data:", 3)
  {
    TaskLineBody();
    InputHeaderClassified();
  }

  lemma {:induction false} ClassifyAllAppend(a: seq<string>, b: seq<string>)
    ensures ClassifyAll(a + b) == ClassifyAll(a) + ClassifyAll(b)
  {
    if |a| == 0 {
      assert a + b == b;
    } else {
      assert (a + b)[1..] == a[1..] + b;
      assert (a + b)[0] == a[0];
      ClassifyAllAppend(a[1..], b);
    }
  }

  /** Scanning lines without headers only adds them to the pending content. */
  lemma {:induction false} ScanNoHeaders(ls: seq<Line>, p: Pending, counter: nat)
    requires forall i :: 0 <= i < |ls| ==> ls[i].Body?
    ensures Scan(ls, p, counter) == Close(p.(content := p.content + Leading(ls)))
    decreases |ls|
  {
    if |ls| == 0 {
      assert p.content + Leading(ls) == p.content;
    } else {
      ScanNoHeaders(ls[1..], p.(content := p.content + [ls[0].text]), counter);
      ClosedBody(ls, p);
    }
  }

  /** A titled pending section is the first block, with the lines up to the
      next header as the rest of its content. */
  lemma {:induction false} ScanFirst(ls: seq<Line>, p: Pending, counter: nat)
    requires p.title != ""
    ensures |Scan(ls, p, counter)| > 0
    ensures Scan(ls, p, counter)[0] == Closed(p.(content := p.content + Leading(ls)))
    decreases |ls|
  {
    if |ls| == 0 || ls[0].Header? {
      assert p.content + Leading(ls) == p.content;
    } else {
      ScanFirst(ls[1..], p.(content := p.content + [ls[0].text]), counter);
      ClosedBody(ls, p);
    }
  }

  lemma {:induction false} TitledCountAppend(a: seq<Line>, b: seq<Line>)
    ensures TitledCount(a + b) == TitledCount(a) + TitledCount(b)
  {
    if |a| > 0 {
      TitledCountAppend(a[1..], b);
      assert (a + b)[1..] == a[1..] + b;
    } else {
      assert a + b == b;
    }
  }

  /** What the scan holds once it has passed the prompt's "Input Data:" header. */
  const InputPending := Pending("Input Data:", 3, [], 1)

  /** The classified lines after the prompt's header: a blank line, the
      wikitext's lines and the final blank line. */
  function InputLines(wikitext: string): (r: seq<Line>)
    ensures |r| == |Outline(wikitext)| + 2
  {
    [Body("")] + Outline(wikitext) + [Body("")]
  }

  /** A task line the prompt can carry: one line of body text. */
  predicate TaskReady(task: string) {
    '\n' !in task && Classify(task) == Body(task)
  }

  lemma TaskLineReady()
    ensures TaskReady(TaskLine())
  {
    TaskLineFacts();
    TaskLineBody();
  }

  lemma InputHeaderFree()
    ensures '\n' !in InputHeader()
  {
    assert '\n' !in "###";
    assert '\n' !in " Input Data:";
  }

  lemma PromptOutline(task: string, wikitext: string)
    requires TaskReady(task)
    ensures Outline(Prompt(task, wikitext))
         == [Body(""), Body(task), Body(""), Header("Input Data:", 3)] + InputLines(wikitext)
  {
    PromptTextLines(task, wikitext);
    InputHeaderClassified();
    LinesOutline(Prompt(task, wikitext), task, InputHeader(), wikitext);
  }

  lemma PromptTextLines(task: string, wikitext: string)
    requires '\n' !in task
    ensures Lines(Prompt(task, wikitext)) == ["", task, "", InputHeader(), ""] + Lines(wikitext) + [""]
  {
    InputHeaderFree();
    PromptLines(task, InputHeader(), wikitext);
  }

  lemma LinesOutline(markdown: string, task: string, header: string, wikitext: string)
    requires TaskReady(task) && Classify(header) == Header("Input Data:", 3)
    requires Lines(markdown) == ["", task, "", header, ""] + Lines(wikitext) + [""]
    ensures Outline(markdown)
         == [Body(""), Body(task), Body(""), Header("Input Data:", 3)] + InputLines(wikitext)
  {
    var pre := ["", task, "", header, ""];
    var head := [Body(""), Body(task), Body(""), Header("Input Data:", 3)];
    assert ClassifyAll(pre) == head + [Body("")] by {
      PromptHeadClassified(task, header);
    }
    assert ClassifyAll(pre + Lines(wikitext) + [""]) == head + [Body("")] + Outline(wikitext) + [Body("")] by {
      assert ClassifyAll([""]) == [Body("")];
      ClassifyAllAppend(pre + Lines(wikitext), [""]);
      ClassifyAllAppend(pre, Lines(wikitext));
    }
    ConcatShift(head, Body(""), Outline(wikitext), [Body("")]);
  }



  lemma PromptHeadClassified(task: string, header: string)
    requires TaskReady(task) && Classify(header) == Header("Input Data:", 3)
    ensures ClassifyAll(["", task, "", header, ""])
         == [Body(""), Body(task), Body(""), Header("Input Data:", 3), Body("")]
  {
    var c := ClassifyAll(["", task, "", header, ""]);
    assert c[0] == Classify("") == Body("");
    assert c[1] == Classify(task);
    assert c[2] == Classify("");
    assert c[3] == Classify(header);
    assert c[4] == Classify("");
  }


  lemma ConsFour<T>(a: T, b: T, c: T, d: T, rest: seq<T>)
    ensures [a, b, c, d] + rest == [a] + ([b] + ([c] + ([d] + rest)))
  {
  }

  lemma ConcatShift<T>(a: seq<T>, b: T, c: seq<T>, d: seq<T>)
    ensures (a + [b]) + c + d == a + ([b] + c + d)
  {
  }

  lemma ScanBodyStep(text: string, ls: seq<Line>, p: Pending, counter: nat)
    ensures Scan([Body(text)] + ls, p, counter) == Scan(ls, p.(content := p.content + [text]), counter)
  {
    assert ([Body(text)] + ls)[1..] == ls;
  }

  lemma ScanHeaderStep(title: string, level: nat, ls: seq<Line>, p: Pending, counter: nat)
    ensures Scan([Header(title, level)] + ls, p, counter)
         == Close(p) + Scan(ls, Pending(title, level, [], counter + 1), counter + 1)
  {
    assert ([Header(title, level)] + ls)[1..] == ls;
  }

  /** The prompt's first three lines are body text with no title, so the
      scan drops them and opens the "Input Data:" section at header 1. */
  lemma PromptScan(task: string, wikitext: string)
    requires TaskReady(task)
    ensures ScanMarkdown(Prompt(task, wikitext)) == Scan(InputLines(wikitext), InputPending, 1)
  {
    PromptOutline(task, wikitext);
    OutlineScan(Prompt(task, wikitext), task, InputLines(wikitext));
  }

  lemma OutlineScan(markdown: string, task: string, after: seq<Line>)
    requires Outline(markdown) == [Body(""), Body(task), Body(""), Header("Input Data:", 3)] + after
    ensures ScanMarkdown(markdown) == Scan(after, InputPending, 1)
  {
    var l3 := [Header("Input Data:", 3)] + after;
    var l2 := [Body("")] + l3;
    var l1 := [Body(task)] + l2;
    ConsFour(Body(""), Body(task), Body(""), Header("Input Data:", 3), after);
    var p1 := Untitled.(content := Untitled.content + [""]);
    var p2 := p1.(content := p1.content + [task]);
    var p3 := p2.(content := p2.content + [""]);
    ScanBodyStep("", l1, Untitled, 0);
    ScanBodyStep(task, l2, p1, 0);
    ScanBodyStep("", l3, p2, 0);
    ScanHeaderStep("Input Data:", 3, after, p3, 0);
    assert Close(p3) == [];
  }

  lemma WikitextScan(wikitext: string)
    ensures ScanMarkdown(WikitextPrompt(wikitext)) == Scan(InputLines(wikitext), InputPending, 1)
  {
    TaskLineReady();
    PromptScan(TaskLine(), wikitext);
  }

  /** The converted document has one section for the prompt's own header and
      one for every titled header line of the wikitext. */
  lemma ConvertWikitextSectionsCount(wikitext: string)
    ensures |ConvertWikitextSections(wikitext)| == 1 + TitledCount(Outline(wikitext))
  {
    WikitextScan(wikitext);
    ScanCount(InputLines(wikitext), InputPending, 1);
    TitledCountAppend([Body("")] + Outline(wikitext), [Body("")]);
    TitledCountAppend([Body("")], Outline(wikitext));
  }

  /** Whatever the wikitext, the converted document starts with the prompt's
      own "Input Data:" section, at level 3 and index 1. */
  lemma ConvertWikitextSectionsFirst(wikitext: string)
    ensures |ConvertWikitextSections(wikitext)| > 0
    ensures ConvertWikitextSections(wikitext)[0].title == "Input Data:"
    ensures ConvertWikitextSections(wikitext)[0].level == 3
    ensures ConvertWikitextSections(wikitext)[0].index == 1
  {
    WikitextScan(wikitext);
    ScanFirst(InputLines(wikitext), InputPending, 1);
    var blocks := ScanMarkdown(WikitextPrompt(wikitext));
    assert blocks[0].title == "Input Data:" && blocks[0].level == 3;
    assert ParseSections(WikitextPrompt(wikitext)) == Numbered(blocks, 1);
  }

  /** The leading text of the input lines of a wikitext without header lines
      is all of its lines, between the two blank lines. */
  lemma InputLinesText(wikitext: string)
    requires forall i :: 0 <= i < |Lines(wikitext)| ==> !IsHeader(Lines(wikitext)[i])
    ensures forall i :: 0 <= i < |InputLines(wikitext)| ==> InputLines(wikitext)[i].Body?
    ensures Leading(InputLines(wikitext)) == Lines("\n" + wikitext + "\n")
  {
    var after := InputLines(wikitext);
    var texts := [""] + Lines(wikitext) + [""];
    InputLinesBodies(wikitext);
    LeadingBodies(after);
    forall i | 0 <= i < |after| ensures Leading(after)[i] == texts[i] {
      assert after[i] == Body(Leading(after)[i]);
    }
    PaddedLines(wikitext);
  }

  lemma InputLinesBodies(wikitext: string)
    requires forall i :: 0 <= i < |Lines(wikitext)| ==> !IsHeader(Lines(wikitext)[i])
    ensures forall i :: 0 <= i < |InputLines(wikitext)| ==>
      InputLines(wikitext)[i] == Body(([""] + Lines(wikitext) + [""])[i])
  {
    var after := InputLines(wikitext);
    var texts := [""] + Lines(wikitext) + [""];
    forall i | 0 <= i < |after| ensures after[i] == Body(texts[i]) {
      if 0 < i < |after| - 1 {
        assert after[i] == Outline(wikitext)[i - 1] == Classify(Lines(wikitext)[i - 1]);
      }
    }
  }

  /** Lines of body text only are all leading text. */
  lemma {:induction false} LeadingBodies(ls: seq<Line>)
    requires forall i :: 0 <= i < |ls| ==> ls[i].Body?
    ensures |Leading(ls)| == |ls|
  {
    if |ls| > 0 {
      LeadingBodies(ls[1..]);
    }
  }

  /** A newline at either end adds an empty line there. */
  lemma PaddedLines(wikitext: string)
    ensures Lines("\n" + wikitext + "\n") == [""] + Lines(wikitext) + [""]
  {
    SplitAppend("", wikitext + "\n", '\n');
    SplitAppend(wikitext, "", '\n');
    assert "\n" + wikitext + "\n" == "" + ['\n'] + (wikitext + ['\n'] + "");
  }


  /** When no line of the wikitext is a header line, the "Input Data:"
      section is the only one, and its sentences are those of the stripped
      wikitext. */
  lemma ConvertWikitextSectionsPlain(wikitext: string)
    requires forall i :: 0 <= i < |Lines(wikitext)| ==> !IsHeader(Lines(wikitext)[i])
    ensures ConvertWikitextSections(wikitext)
         == [SentencedSection("Input Data:", 3, 1, if Strip(wikitext) != "" then SplitSentences(Strip(wikitext)) else [])]
  {
    WikitextScan(wikitext);
    PlainSections(WikitextPrompt(wikitext), wikitext);
  }

  lemma PlainSections(markdown: string, wikitext: string)
    requires forall i :: 0 <= i < |Lines(wikitext)| ==> !IsHeader(Lines(wikitext)[i])
    requires ScanMarkdown(markdown) == Scan(InputLines(wikitext), InputPending, 1)
    ensures ParseSections(markdown) == [Section("Input Data:", Strip(wikitext), 3, 1)]
  {
    var texts := Lines("\n" + wikitext + "\n");
    InputLinesText(wikitext);
    ScanNoHeaders(InputLines(wikitext), InputPending, 1);
    assert [] + texts == texts;
    assert ScanMarkdown(markdown) == [Block("Input Data:", 3, texts, 1)];
    PaddedSectionText(wikitext);
  }

  /** The text of the lines of a wikitext between two newlines is the
      stripped wikitext. */
  lemma PaddedSectionText(wikitext: string)
    ensures SectionText(Lines("\n" + wikitext + "\n")) == Strip(wikitext)
  {
    JoinSplit("\n" + wikitext + "\n", '\n');
    StripPadded("\n", wikitext, "\n");
  }
}
