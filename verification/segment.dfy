/**
 * The segmenter of `page_content`: one page's scored lines are read in order
 * and turned into heading and paragraph nodes. Its state is the current
 * section, the current subsection and a buffer of paragraph lines; a heading
 * flushes the buffer into a paragraph and then becomes a section (when its
 * size is the page maximum) or a subsection; other non-blank lines are
 * buffered; a final flush closes the page.
 */
module Segment {
  import opened Wrappers
  import opened Text
  import Scoring

  type Line = Scoring.ScoredLine

  /** An element of a page's content list, with the labels in force when it was emitted. */
  datatype Node =
    | Heading(section: Option<string>, subsection: Option<string>, text: string, size: real)
    | Paragraph(section: Option<string>, subsection: Option<string>, text: string)

  /** `current_section`, `current_subsection`, `current_paragraph_lines` and `content`. */
  datatype State = State(section: Option<string>, subsection: Option<string>, pending: seq<string>, content: seq<Node>)

  const Start: State := State(None, None, [], [])

  /** `max(all_size) if all_size else 0`, over every line of the page, headings or not. */
  function MaxSize(lines: seq<Line>): (m: real)
    ensures lines == [] ==> m == 0.0
    ensures forall i :: 0 <= i < |lines| ==> lines[i].avgSize <= m
    ensures lines != [] ==> exists i :: 0 <= i < |lines| && lines[i].avgSize == m
  {
    if lines == [] then 0.0
    else
      var x := lines[|lines| - 1].avgSize;
      if |lines| == 1 then x
      else
        var rest := MaxSize(lines[..|lines| - 1]);
        if x > rest then x else rest
  }

  /** `"\n".join(line.strip() for line in current_paragraph_lines).strip()`. */
  function ParagraphText(pending: seq<string>): string
  {
    Strip(JoinLines(StripAll(pending)))
  }

  /**
   * `flush_paragraph`, given the buffer's paragraph text: a non-empty buffer
   * becomes a paragraph (unless that text is blank) and is cleared.
   */
  function Close(st: State, text: string): (r: State)
    ensures r.pending == []
    ensures r.section == st.section && r.subsection == st.subsection
  {
    if st.pending == [] then st
    else
      var content := if text != [] then st.content + [Paragraph(st.section, st.subsection, text)] else st.content;
      State(st.section, st.subsection, [], content)
  }

  /** `flush_paragraph`. */
  function Flush(st: State): State
  {
    Close(st, ParagraphText(st.pending))
  }

  /**
   * One pass of `for line in lines`, given the buffer's paragraph text `para`
   * and the line's stripped text: a heading flushes the buffer and then opens
   * a section (at the page maximum) or a subsection; another non-blank line
   * is buffered; a blank one is skipped.
   */
  function Advance(st: State, para: string, text: string, isHeading: bool, size: real, maxSize: real): State
  {
    if isHeading then
      var f := Close(st, para);
      var section := if size == maxSize then Some(text) else f.section;
      var subsection := if size == maxSize then None else Some(text);
      State(section, subsection, f.pending, f.content + [Heading(section, subsection, text, size)])
    else if text != [] then
      st.(pending := st.pending + [text])
    else
      st
  }

  /** One pass of `for line in lines`. */
  function Step(st: State, line: Line, maxSize: real): State
  {
    Advance(st, ParagraphText(st.pending), Strip(line.text), line.isHeading, line.avgSize, maxSize)
  }

  /** The state after reading `lines` from the start state. */
  function Feed(lines: seq<Line>, maxSize: real): State
  {
    if lines == [] then Start
    else Step(Feed(lines[..|lines| - 1], maxSize), lines[|lines| - 1], maxSize)
  }

  /** The content list of a page: read every line against the page maximum, then flush. */
  function Segmented(lines: seq<Line>): seq<Node>
  {
    Flush(Feed(lines, MaxSize(lines))).content
  }

  // ---------------------------------------------------------------------
  // The imperative segmenter.
  // ---------------------------------------------------------------------

  /** The closure `flush_paragraph` over the segmenter's local state. */
  method FlushParagraph(section: Option<string>, subsection: Option<string>, pending: seq<string>, content: seq<Node>)
    returns (pending': seq<string>, content': seq<Node>)
    ensures State(section, subsection, pending', content') == Flush(State(section, subsection, pending, content))
  {
    pending', content' := pending, content;
    if pending != [] {
      var text := Strip(JoinLines(StripAll(pending)));
      if text != [] {
        content' := content + [Paragraph(section, subsection, text)];
      }
      pending' := [];
    }
  }

  /** One pass of `for line in lines` over the segmenter's local state. */
  method ReadLine(section: Option<string>, subsection: Option<string>, pending: seq<string>, content: seq<Node>,
                  line: Line, maxSize: real)
    returns (section': Option<string>, subsection': Option<string>, pending': seq<string>, content': seq<Node>)
    ensures State(section', subsection', pending', content') == Step(State(section, subsection, pending, content), line, maxSize)
  {
    section', subsection', pending', content' := section, subsection, pending, content;
    var text := Strip(line.text);
    if line.isHeading {
      pending', content' := FlushParagraph(section, subsection, pending, content);
      if line.avgSize == maxSize {
        section' := Some(text);
        subsection' := None;
      } else {
        subsection' := Some(text);
      }
      content' := content' + [Heading(section', subsection', text, line.avgSize)];
    } else if text != [] {
      pending' := pending + [text];
    }
  }

  lemma FeedPrefix(lines: seq<Line>, i: nat, maxSize: real)
    requires i < |lines|
    ensures Feed(lines[..i + 1], maxSize) == Step(Feed(lines[..i], maxSize), lines[i], maxSize)
  {
    assert lines[..i + 1][..i] == lines[..i];
  }

  /** The body of the `for page_num, lines in sorted(page_dict.items())` loop. */
  method SegmentPage(lines: seq<Line>) returns (content: seq<Node>)
    ensures content == Segmented(lines)
  {
    content := [];
    var section: Option<string> := None;
    var subsection: Option<string> := None;
    var pending: seq<string> := [];
    var maxSize := MaxSize(lines);
    for i := 0 to |lines|
      invariant State(section, subsection, pending, content) == Feed(lines[..i], maxSize)
    {
      FeedPrefix(lines, i, maxSize);
      section, subsection, pending, content := ReadLine(section, subsection, pending, content, lines[i], maxSize);
    }
    assert lines[..|lines|] == lines;
    pending, content := FlushParagraph(section, subsection, pending, content);
  }

  // ---------------------------------------------------------------------
  // Heading nodes: one per heading line, in order, same text and size.
  // ---------------------------------------------------------------------

  /** The (text, size) of the heading nodes, in order. */
  function HeadingNodes(content: seq<Node>): seq<(string, real)>
  {
    if content == [] then []
    else
      var n := content[|content| - 1];
      HeadingNodes(content[..|content| - 1]) + (if n.Heading? then [(n.text, n.size)] else [])
  }

  /** The (stripped text, size) of the heading lines, in order. */
  function HeadingLines(lines: seq<Line>): seq<(string, real)>
  {
    if lines == [] then []
    else
      var l := lines[|lines| - 1];
      HeadingLines(lines[..|lines| - 1]) + (if l.isHeading then [(Strip(l.text), l.avgSize)] else [])
  }

  lemma HeadingNodesAppendParagraph(content: seq<Node>, p: Node)
    requires p.Paragraph?
    ensures HeadingNodes(content + [p]) == HeadingNodes(content)
  {
    assert (content + [p])[..|content|] == content;
  }

  lemma HeadingNodesAppendHeading(content: seq<Node>, h: Node)
    requires h.Heading?
    ensures HeadingNodes(content + [h]) == HeadingNodes(content) + [(h.text, h.size)]
  {
    assert (content + [h])[..|content|] == content;
  }

  /** A flush adds no heading node. */
  lemma CloseHeadings(st: State, para: string)
    ensures HeadingNodes(Close(st, para).content) == HeadingNodes(st.content)
  {
    if st.pending != [] && para != [] {
      HeadingNodesAppendParagraph(st.content, Paragraph(st.section, st.subsection, para));
    }
  }

  /** A step adds a heading node exactly for a heading line. */
  lemma AdvanceHeadings(st: State, para: string, text: string, isHeading: bool, size: real, maxSize: real)
    ensures HeadingNodes(Advance(st, para, text, isHeading, size, maxSize).content)
         == HeadingNodes(st.content) + (if isHeading then [(text, size)] else [])
  {
    if isHeading {
      var f := Close(st, para);
      CloseHeadings(st, para);
      var r := Advance(st, para, text, isHeading, size, maxSize);
      var h := r.content[|r.content| - 1];
      assert r.content == f.content + [h];
      HeadingNodesAppendHeading(f.content, h);
    }
  }

  lemma {:induction false} FeedHeadings(lines: seq<Line>, maxSize: real)
    ensures HeadingNodes(Feed(lines, maxSize).content) == HeadingLines(lines)
  {
    if lines != [] {
      var init, l := lines[..|lines| - 1], lines[|lines| - 1];
      FeedHeadings(init, maxSize);
      var st := Feed(init, maxSize);
      AdvanceHeadings(st, ParagraphText(st.pending), Strip(l.text), l.isHeading, l.avgSize, maxSize);
    }
  }

  /** The segmenter emits exactly one heading node per heading line, in order, with its stripped text and size. */
  lemma SegmentedHeadings(lines: seq<Line>)
    ensures HeadingNodes(Segmented(lines)) == HeadingLines(lines)
  {
    var st := Feed(lines, MaxSize(lines));
    FeedHeadings(lines, MaxSize(lines));
    CloseHeadings(st, ParagraphText(st.pending));
  }

  // ---------------------------------------------------------------------
  // Section and subsection labels.
  // ---------------------------------------------------------------------

  /** The labels in force after `content`: those of its last node, or none at the start of the page. */
  function LabelsAfter(content: seq<Node>): (Option<string>, Option<string>)
  {
    if content == [] then (None, None)
    else (content[|content| - 1].section, content[|content| - 1].subsection)
  }

  /**
   * The labelling rule for one node, given the labels in force before it: a
   * paragraph carries them unchanged; a heading at the page maximum opens a
   * section and clears the subsection; any other heading keeps the section
   * and opens a subsection.
   */
  predicate NodeLabelled(before: (Option<string>, Option<string>), n: Node, maxSize: real)
  {
    match n
    case Paragraph(section, subsection, _) => (section, subsection) == before
    case Heading(section, subsection, text, size) =>
      if size == maxSize then section == Some(text) && subsection == None
      else section == before.0 && subsection == Some(text)
  }

  predicate WellLabelled(content: seq<Node>, maxSize: real)
  {
    forall i :: 0 <= i < |content| ==> NodeLabelled(LabelsAfter(content[..i]), content[i], maxSize)
  }

  /** The state's labels are those of its last node, and every node obeys the rule. */
  predicate LabelsHold(st: State, maxSize: real)
  {
    (st.section, st.subsection) == LabelsAfter(st.content) && WellLabelled(st.content, maxSize)
  }

  lemma AppendLabelled(content: seq<Node>, n: Node, maxSize: real)
    requires WellLabelled(content, maxSize)
    requires NodeLabelled(LabelsAfter(content), n, maxSize)
    ensures WellLabelled(content + [n], maxSize)
    ensures LabelsAfter(content + [n]) == (n.section, n.subsection)
  {
    var c := content + [n];
    forall i | 0 <= i < |c| ensures NodeLabelled(LabelsAfter(c[..i]), c[i], maxSize) {
      assert c[..i] == content[..i] || i == |content|;
      if i == |content| {
        assert c[..i] == content;
      }
    }
  }

  lemma CloseLabels(st: State, para: string, maxSize: real)
    requires LabelsHold(st, maxSize)
    ensures LabelsHold(Close(st, para), maxSize)
  {
    if st.pending != [] && para != [] {
      AppendLabelled(st.content, Paragraph(st.section, st.subsection, para), maxSize);
    }
  }

  lemma AdvanceLabels(st: State, para: string, text: string, isHeading: bool, size: real, maxSize: real)
    requires LabelsHold(st, maxSize)
    ensures LabelsHold(Advance(st, para, text, isHeading, size, maxSize), maxSize)
  {
    if isHeading {
      var f := Close(st, para);
      CloseLabels(st, para, maxSize);
      var r := Advance(st, para, text, isHeading, size, maxSize);
      var h := r.content[|r.content| - 1];
      assert r.content == f.content + [h];
      AppendLabelled(f.content, h, maxSize);
    }
  }

  lemma {:induction false} FeedLabels(lines: seq<Line>, maxSize: real)
    ensures LabelsHold(Feed(lines, maxSize), maxSize)
  {
    if lines != [] {
      var init, l := lines[..|lines| - 1], lines[|lines| - 1];
      FeedLabels(init, maxSize);
      var st := Feed(init, maxSize);
      AdvanceLabels(st, ParagraphText(st.pending), Strip(l.text), l.isHeading, l.avgSize, maxSize);
    }
  }

  /**
   * Every node of a page's content obeys the labelling rule against the
   * page maximum: paragraphs carry the labels in force before the heading
   * that flushed them, and headings open a section or a subsection.
   */
  lemma SegmentedLabels(lines: seq<Line>)
    ensures WellLabelled(Segmented(lines), MaxSize(lines))
  {
    var st := Feed(lines, MaxSize(lines));
    FeedLabels(lines, MaxSize(lines));
    CloseLabels(st, ParagraphText(st.pending), MaxSize(lines));
  }

  /**
   * A heading node opens a section exactly when no line of the page, heading
   * or not, is larger than it; otherwise it opens a subsection.
   */
  lemma HeadingLevels(lines: seq<Line>, i: nat)
    requires i < |Segmented(lines)| && Segmented(lines)[i].Heading?
    ensures var n := Segmented(lines)[i];
      && (n.subsection.None? <==> forall j :: 0 <= j < |lines| ==> lines[j].avgSize <= n.size)
      && (n.subsection.None? ==> n.section == Some(n.text))
      && (n.subsection.Some? ==> n.subsection == Some(n.text))
  {
    var content := Segmented(lines);
    SegmentedHeadings(lines);
    HeadingNodeIsLine(content, lines, i);
    SegmentedLabels(lines);
    LevelOfHeading(content[i], LabelsAfter(content[..i]), lines, MaxSize(lines));
  }

  lemma LevelOfHeading(n: Node, before: (Option<string>, Option<string>), lines: seq<Line>, m: real)
    requires n.Heading? && NodeLabelled(before, n, m)
    requires forall j :: 0 <= j < |lines| ==> lines[j].avgSize <= m
    requires lines != [] ==> exists j :: 0 <= j < |lines| && lines[j].avgSize == m
    requires exists j :: 0 <= j < |lines| && lines[j].avgSize == n.size
    ensures n.subsection.None? <==> forall j :: 0 <= j < |lines| ==> lines[j].avgSize <= n.size
    ensures n.subsection.None? ==> n.section == Some(n.text)
    ensures n.subsection.Some? ==> n.subsection == Some(n.text)
  {
  }

  /** A heading node's size is the size of some line. */
  lemma HeadingNodeIsLine(content: seq<Node>, lines: seq<Line>, i: nat)
    requires HeadingNodes(content) == HeadingLines(lines)
    requires i < |content| && content[i].Heading?
    ensures exists j :: 0 <= j < |lines| && lines[j].avgSize == content[i].size
  {
    HeadingNodesMember(content, i);
    HeadingLinesMember(lines, (content[i].text, content[i].size));
  }

  lemma {:induction false} HeadingNodesMember(content: seq<Node>, i: nat)
    requires i < |content| && content[i].Heading?
    ensures (content[i].text, content[i].size) in HeadingNodes(content)
  {
    var init := content[..|content| - 1];
    if i < |init| {
      HeadingNodesMember(init, i);
      assert content[i] == init[i];
    }
  }

  lemma {:induction false} HeadingLinesMember(lines: seq<Line>, h: (string, real))
    requires h in HeadingLines(lines)
    ensures exists j :: 0 <= j < |lines| && lines[j].avgSize == h.1
  {
    var init := lines[..|lines| - 1];
    if h in HeadingLines(init) {
      HeadingLinesMember(init, h);
      var j :| 0 <= j < |init| && init[j].avgSize == h.1;
      assert lines[j] == init[j];
    }
  }

  // ---------------------------------------------------------------------
  // Paragraph nodes.
  // ---------------------------------------------------------------------

  /** Non-blank, already stripped text. */
  predicate Solid(s: string)
  {
    s != [] && IsStripped(s)
  }

  /**
   * The shape of a content list: every paragraph is non-blank and stripped,
   * and a paragraph is always followed by a heading.
   */
  predicate ContentShaped(content: seq<Node>)
  {
    && (forall i :: 0 <= i < |content| ==> content[i].Paragraph? ==> Solid(content[i].text))
    && (forall i :: 0 <= i < |content| - 1 ==> content[i].Paragraph? ==> content[i + 1].Heading?)
  }

  predicate EndsClosed(content: seq<Node>)
  {
    content == [] || content[|content| - 1].Heading?
  }

  predicate SolidLines(pending: seq<string>)
  {
    forall i :: 0 <= i < |pending| ==> Solid(pending[i])
  }

  /** The shape of a state between lines: the buffer holds non-blank stripped lines and the content ends with a heading. */
  predicate Shaped(st: State)
  {
    SolidLines(st.pending) && ContentShaped(st.content) && EndsClosed(st.content)
  }

  lemma AppendShaped(content: seq<Node>, n: Node)
    requires ContentShaped(content)
    requires n.Paragraph? ==> Solid(n.text) && EndsClosed(content)
    ensures ContentShaped(content + [n])
  {
    var c := content + [n];
    forall i | 0 <= i < |c| - 1 && c[i].Paragraph? ensures c[i + 1].Heading? {
      assert c[i] == content[i];
      if i + 1 < |content| {
        assert c[i + 1] == content[i + 1];
      }
    }
  }

  /** A flush from a shaped state leaves a shaped content list (which may now end with a paragraph). */
  lemma CloseShape(st: State, para: string)
    requires Shaped(st) && IsStripped(para)
    ensures ContentShaped(Close(st, para).content)
  {
    if st.pending != [] && para != [] {
      AppendShaped(st.content, Paragraph(st.section, st.subsection, para));
    }
  }

  lemma AdvanceShape(st: State, para: string, text: string, isHeading: bool, size: real, maxSize: real)
    requires Shaped(st) && IsStripped(para) && IsStripped(text)
    ensures Shaped(Advance(st, para, text, isHeading, size, maxSize))
  {
    var r := Advance(st, para, text, isHeading, size, maxSize);
    if isHeading {
      var f := Close(st, para);
      CloseShape(st, para);
      var h := r.content[|r.content| - 1];
      assert r.content == f.content + [h];
      AppendShaped(f.content, h);
    } else if text != [] {
      assert r.pending == st.pending + [text];
    }
  }

  lemma {:induction false} FeedShape(lines: seq<Line>, maxSize: real)
    ensures Shaped(Feed(lines, maxSize))
  {
    if lines != [] {
      var init, l := lines[..|lines| - 1], lines[|lines| - 1];
      FeedShape(init, maxSize);
      var st := Feed(init, maxSize);
      AdvanceShape(st, ParagraphText(st.pending), Strip(l.text), l.isHeading, l.avgSize, maxSize);
    }
  }

  /**
   * Every paragraph of a page's content has non-blank, stripped text, and the
   * node after a paragraph, if any, is a heading: a paragraph is only ever
   * closed by the heading that follows it or by the end of the page.
   */
  lemma SegmentedParagraphs(lines: seq<Line>)
    ensures forall i :: 0 <= i < |Segmented(lines)| && Segmented(lines)[i].Paragraph? ==> Solid(Segmented(lines)[i].text)
    ensures forall i :: 0 <= i < |Segmented(lines)| - 1 && Segmented(lines)[i].Paragraph? ==> Segmented(lines)[i + 1].Heading?
  {
    var st := Feed(lines, MaxSize(lines));
    FeedShape(lines, MaxSize(lines));
    CloseShape(st, ParagraphText(st.pending));
  }

  // ---------------------------------------------------------------------
  // Reconstruction: the content gives back every non-blank line text.
  // ---------------------------------------------------------------------

  /** Heading texts, and paragraph texts split on newlines, in content order. */
  function Pieces(content: seq<Node>): seq<string>
  {
    if content == [] then []
    else
      var n := content[|content| - 1];
      Pieces(content[..|content| - 1]) + (if n.Heading? then [n.text] else SplitLines(n.text))
  }

  /** The stripped text of every heading line and of every non-blank other line, in order. */
  function LineItems(lines: seq<Line>): seq<string>
  {
    if lines == [] then []
    else
      var l := lines[|lines| - 1];
      LineItems(lines[..|lines| - 1]) + Item(l)
  }

  lemma PiecesAppend(content: seq<Node>, n: Node)
    ensures Pieces(content + [n]) == Pieces(content) + (if n.Heading? then [n.text] else SplitLines(n.text))
  {
    assert (content + [n])[..|content|] == content;
  }

  /** Buffered lines that are non-blank and stripped are left alone by the paragraph join, and their join is non-blank. */
  lemma ParagraphOfSolid(pending: seq<string>)
    requires pending != [] && SolidLines(pending)
    ensures ParagraphText(pending) == JoinLines(pending)
    ensures Solid(JoinLines(pending))
  {
    forall i | 0 <= i < |pending| ensures Strip(pending[i]) == pending[i] {
      StripKeepsStripped(pending[i]);
    }
    assert StripAll(pending) == pending;
    JoinStrippedLines(pending);
    StripKeepsStripped(JoinLines(pending));
  }

  predicate NoNewlines(xs: seq<string>)
  {
    forall i :: 0 <= i < |xs| ==> NoNewline(xs[i])
  }

  /** Flushing moves the buffered lines, unchanged and in order, into the content. */
  lemma ClosePieces(st: State, para: string)
    requires SolidLines(st.pending) && NoNewlines(st.pending)
    requires st.pending != [] ==> para == JoinLines(st.pending) && para != []
    ensures Pieces(Close(st, para).content) == Pieces(st.content) + st.pending
  {
    if st.pending != [] {
      PiecesAppend(st.content, Paragraph(st.section, st.subsection, para));
      SplitJoinLines(st.pending);
    }
  }

  predicate NoNewlineLines(lines: seq<Line>)
  {
    forall i :: 0 <= i < |lines| ==> NoNewline(Strip(lines[i].text))
  }

  /** The item a line contributes to the reading: its stripped text, unless it is a blank non-heading line. */
  function Item(l: Line): seq<string>
  {
    var text := Strip(l.text);
    if l.isHeading || text != [] then [text] else []
  }

  lemma AdvancePieces(st: State, para: string, text: string, isHeading: bool, size: real, maxSize: real)
    requires SolidLines(st.pending) && NoNewlines(st.pending) && NoNewline(text)
    requires st.pending != [] ==> para == JoinLines(st.pending) && para != []
    ensures NoNewlines(Advance(st, para, text, isHeading, size, maxSize).pending)
    ensures Pieces(Advance(st, para, text, isHeading, size, maxSize).content) + Advance(st, para, text, isHeading, size, maxSize).pending
         == Pieces(st.content) + st.pending + (if isHeading || text != [] then [text] else [])
  {
    var r := Advance(st, para, text, isHeading, size, maxSize);
    if isHeading {
      var f := Close(st, para);
      ClosePieces(st, para);
      var h := r.content[|r.content| - 1];
      assert r.content == f.content + [h];
      PiecesAppend(f.content, h);
    } else if text != [] {
      assert r.pending == st.pending + [text];
    }
  }

  /** A shaped state's buffer reads back, through the paragraph join, as itself. */
  lemma FlushReady(st: State)
    requires Shaped(st)
    ensures st.pending != [] ==> ParagraphText(st.pending) == JoinLines(st.pending) && ParagraphText(st.pending) != []
  {
    if st.pending != [] {
      ParagraphOfSolid(st.pending);
    }
  }

  lemma {:induction false} FeedPieces(lines: seq<Line>, maxSize: real)
    requires NoNewlineLines(lines)
    ensures NoNewlines(Feed(lines, maxSize).pending)
    ensures Pieces(Feed(lines, maxSize).content) + Feed(lines, maxSize).pending == LineItems(lines)
  {
    if lines != [] {
      var init, l := lines[..|lines| - 1], lines[|lines| - 1];
      assert NoNewlineLines(init) by {
        forall i | 0 <= i < |init| ensures NoNewline(Strip(init[i].text)) {
          assert init[i] == lines[i];
        }
      }
      FeedPieces(init, maxSize);
      var st := Feed(init, maxSize);
      FeedShape(init, maxSize);
      FlushReady(st);
      AdvancePieces(st, ParagraphText(st.pending), Strip(l.text), l.isHeading, l.avgSize, maxSize);
    }
  }

  /**
   * Reading the content back (heading texts, and paragraph texts split on
   * newlines) gives every heading text and every non-blank line text of the
   * page, in order, provided no stripped line text itself holds a newline.
   */
  lemma SegmentedPieces(lines: seq<Line>)
    requires NoNewlineLines(lines)
    ensures Pieces(Segmented(lines)) == LineItems(lines)
  {
    var st := Feed(lines, MaxSize(lines));
    FeedPieces(lines, MaxSize(lines));
    FeedShape(lines, MaxSize(lines));
    FlushReady(st);
    ClosePieces(st, ParagraphText(st.pending));
  }
}
