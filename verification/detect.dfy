/**
 * `detect_headings`: for every selected page, group the glyphs into visual
 * lines, score each non-blank line against the page statistics, and collect
 * the full debug list and the compact list of headings; finally sort the
 * debug list by (page, top, -score).
 */
module Detect {
  import opened Wrappers
  import opened Lines
  import opened Scoring
  import opened Text

  /** One page as the PDF library reports it: its glyphs and its height (0 when unknown). */
  datatype Page = Page(chars: seq<Glyph>, height: real)

  /** The compact record kept for a heading line. */
  datatype HeadingEntry = HeadingEntry(page: int, top: real, text: string, avgSize: real, score: real)

  /** Key `k` yields a debug line on a page with glyphs `chars`: the page has a positive size and the line is not blank. */
  predicate OnPage(chars: seq<Glyph>, k: real, env: Env)
  {
    PositiveSizes(chars, env.round1) != [] && !AllSpace(Concat(Texts(LineOf(chars, env.round1, k))))
  }

  /** The scored line for key `k` of a page. */
  function LineAt(chars: seq<Glyph>, height: real, pnum: int, k: real, cfg: Config, env: Env): (r: ScoredLine)
    requires OnPage(chars, k, env)
    ensures r.page == pnum && r.top == k
  {
    ScoreLine(pnum, k, LineOf(chars, env.round1, k), PageStats(chars, env.round1).value, height, cfg, env)
  }

  /**
   * The per-page body of `detect_headings`: a page with no glyphs or no
   * positive size yields nothing; otherwise exactly the non-blank lines, one
   * per rounded `top`, in strictly ascending `top` order, each scored.
   */
  method ScorePage(chars: seq<Glyph>, height: real, pnum: int, cfg: Config, env: Env) returns (lines: seq<ScoredLine>)
    ensures PageStats(chars, env.round1).None? ==> lines == []
    ensures forall i, j :: 0 <= i < j < |lines| ==> lines[i].top < lines[j].top
    ensures forall i :: 0 <= i < |lines| ==> lines[i].page == pnum
    ensures forall i :: 0 <= i < |lines| ==> ScoreAt(chars, height, pnum, lines[i].top, cfg, env) == Some(lines[i])
    ensures forall k :: OnPage(chars, k, env) ==> k in TopSet(lines)
  {
    lines := [];
    if chars == [] {
      return;
    }
    var linesMap := GroupByTop(chars, env.round1);
    var stats := PageStats(chars, env.round1);
    if stats.None? {
      return;
    }
    var keys := SortKeys(linesMap.Keys);
    forall j | 0 <= j < |keys| ensures keys[j] in linesMap {
      assert keys[j] in keys;
    }
    ghost var scoreAt := k => ScoreAt(chars, height, pnum, k, cfg, env);
    lines := ScoreKeys(chars, height, pnum, keys, linesMap, cfg, env, scoreAt);
    PageLines(chars, height, pnum, keys, cfg, env, scoreAt);
  }

  /** Visiting every key of the page in ascending order collects exactly the page's lines, by ascending `top`. */
  lemma PageLines(chars: seq<Glyph>, height: real, pnum: int, keys: seq<real>, cfg: Config, env: Env,
                  scoreAt: real -> Option<ScoredLine>)
    requires StrictlyAscending(keys)
    requires forall k :: k in keys <==> k in KeySet(chars, env.round1)
    requires forall k :: scoreAt(k) == ScoreAt(chars, height, pnum, k, cfg, env)
    ensures var r := KeyedLines(keys, scoreAt);
      && (forall i, j :: 0 <= i < j < |r| ==> r[i].top < r[j].top)
      && (forall i :: 0 <= i < |r| ==> ScoreAt(chars, height, pnum, r[i].top, cfg, env) == Some(r[i]))
      && (forall k :: OnPage(chars, k, env) ==> k in TopSet(r))
  {
    assert KeepsKey(scoreAt);
    KeyedLinesSound(keys, scoreAt);
    KeyedLinesAscending(keys, scoreAt);
    KeyedLinesComplete(keys, scoreAt);
    forall k | OnPage(chars, k, env) ensures k in keys && scoreAt(k).Some? {
      OnPageKey(chars, k, env);
    }
  }

  /** The outcome for key `k` of a page: its scored line, or nothing when the line is blank. */
  function ScoreAt(chars: seq<Glyph>, height: real, pnum: int, k: real, cfg: Config, env: Env): (r: Option<ScoredLine>)
    ensures r.Some? ==> r.value.page == pnum && r.value.top == k
  {
    if OnPage(chars, k, env) then Some(LineAt(chars, height, pnum, k, cfg, env)) else None
  }

  /** The `for top in sorted(lines_map.keys())` loop: score each key's line, skipping blank ones. */
  method ScoreKeys(chars: seq<Glyph>, height: real, pnum: int, keys: seq<real>, linesMap: map<real, seq<Glyph>>,
                   cfg: Config, env: Env, ghost scoreAt: real -> Option<ScoredLine>)
    returns (lines: seq<ScoredLine>)
    requires PageStats(chars, env.round1).Some?
    requires forall j :: 0 <= j < |keys| ==> keys[j] in linesMap && linesMap[keys[j]] == LineOf(chars, env.round1, keys[j])
    requires forall k :: scoreAt(k) == ScoreAt(chars, height, pnum, k, cfg, env)
    ensures lines == KeyedLines(keys, scoreAt)
  {
    lines := [];
    for i := 0 to |keys|
      invariant lines == KeyedLines(keys[..i], scoreAt)
    {
      var top := keys[i];
      var scored := ScoreKey(chars, height, pnum, top, linesMap[top], cfg, env);
      assert scored == scoreAt(top);
      KeyedPrefix(keys, scoreAt, i);
      if scored.Some? {
        lines := lines + [scored.value];
      }
    }
    assert keys[..|keys|] == keys;
  }

  lemma KeyedPrefix(keys: seq<real>, scoreAt: real -> Option<ScoredLine>, i: nat)
    requires i < |keys|
    ensures KeyedLines(keys[..i + 1], scoreAt)
         == KeyedLines(keys[..i], scoreAt) + (if scoreAt(keys[i]).Some? then [scoreAt(keys[i]).value] else [])
  {
    assert keys[..i + 1][..i] == keys[..i];
  }

  /** Every outcome a scorer produces for a key carries that key as its `top`. */
  ghost predicate KeepsKey(scoreAt: real -> Option<ScoredLine>)
  {
    forall k :: scoreAt(k).Some? ==> scoreAt(k).value.top == k
  }

  /** The outcomes for `keys`, in the order of `keys`, skipping keys without a line. */
  function KeyedLines(keys: seq<real>, scoreAt: real -> Option<ScoredLine>): (r: seq<ScoredLine>)
    ensures |r| <= |keys|
  {
    if keys == [] then []
    else
      var k := keys[|keys| - 1];
      KeyedLines(keys[..|keys| - 1], scoreAt) + (if scoreAt(k).Some? then [scoreAt(k).value] else [])
  }

  /** Each collected line is the outcome of one of the keys. */
  lemma {:induction false} KeyedLinesSound(keys: seq<real>, scoreAt: real -> Option<ScoredLine>)
    requires KeepsKey(scoreAt)
    ensures forall i :: 0 <= i < |KeyedLines(keys, scoreAt)| ==>
      KeyedLines(keys, scoreAt)[i].top in keys && scoreAt(KeyedLines(keys, scoreAt)[i].top) == Some(KeyedLines(keys, scoreAt)[i])
  {
    if keys != [] {
      var init, k := keys[..|keys| - 1], keys[|keys| - 1];
      KeyedLinesSound(init, scoreAt);
      var prev, r := KeyedLines(init, scoreAt), KeyedLines(keys, scoreAt);
      forall i | 0 <= i < |r| ensures r[i].top in keys && scoreAt(r[i].top) == Some(r[i]) {
        if i < |prev| {
          assert r[i] == prev[i];
          assert prev[i].top in init;
        }
      }
    }
  }

  /** For strictly ascending keys, the collected lines ascend strictly by `top`. */
  lemma {:induction false} KeyedLinesAscending(keys: seq<real>, scoreAt: real -> Option<ScoredLine>)
    requires KeepsKey(scoreAt)
    requires StrictlyAscending(keys)
    ensures forall i, j :: 0 <= i < j < |KeyedLines(keys, scoreAt)| ==>
      KeyedLines(keys, scoreAt)[i].top < KeyedLines(keys, scoreAt)[j].top
  {
    if keys != [] {
      var init, k := keys[..|keys| - 1], keys[|keys| - 1];
      assert StrictlyAscending(init);
      KeyedLinesAscending(init, scoreAt);
      KeyedLinesSound(init, scoreAt);
      var prev, r := KeyedLines(init, scoreAt), KeyedLines(keys, scoreAt);
      forall i, j | 0 <= i < j < |r| ensures r[i].top < r[j].top {
        assert r[i] == prev[i];
        if j < |prev| {
          assert r[j] == prev[j];
        } else {
          var t :| 0 <= t < |init| && init[t] == prev[i].top;
          assert keys[t] == init[t];
        }
      }
    }
  }

  /** The `top` values of the lines. */
  function TopSet(s: seq<ScoredLine>): (r: set<real>)
    ensures forall i :: 0 <= i < |s| ==> s[i].top in r
  {
    set i | 0 <= i < |s| :: s[i].top
  }

  /** Every key with an outcome has its line collected. */
  lemma {:induction false} KeyedLinesComplete(keys: seq<real>, scoreAt: real -> Option<ScoredLine>)
    requires KeepsKey(scoreAt)
    ensures forall k :: k in keys && scoreAt(k).Some? ==> k in TopSet(KeyedLines(keys, scoreAt))
  {
    if keys != [] {
      var init, last := keys[..|keys| - 1], keys[|keys| - 1];
      KeyedLinesComplete(init, scoreAt);
      var prev, r := KeyedLines(init, scoreAt), KeyedLines(keys, scoreAt);
      forall k | k in keys && scoreAt(k).Some? ensures k in TopSet(r) {
        if k == last {
          assert r[|prev|].top == k;
        } else {
          assert k in init;
          var i :| 0 <= i < |prev| && prev[i].top == k;
          assert r[i] == prev[i];
        }
      }
    }
  }

  /** A key that yields a line is the rounded `top` of some glyph of the page. */
  lemma OnPageKey(chars: seq<Glyph>, k: real, env: Env)
    requires OnPage(chars, k, env)
    ensures k in KeySet(chars, env.round1)
  {
    LineOfNonEmpty(chars, env.round1, k);
  }

  /**
   * The body of the per-line loop: the stripped text of the line at key `k`,
   * and, unless it is blank, the line scored against the page statistics.
   */
  method ScoreKey(chars: seq<Glyph>, height: real, pnum: int, k: real, line: seq<Glyph>, cfg: Config, env: Env)
    returns (r: Option<ScoredLine>)
    requires PageStats(chars, env.round1).Some?
    requires line == LineOf(chars, env.round1, k)
    ensures r == ScoreAt(chars, height, pnum, k, cfg, env)
  {
    var text := LineText(line);
    if text == [] {
      return None;
    }
    r := Some(ScoreLine(pnum, k, line, PageStats(chars, env.round1).value, height, cfg, env));
  }

  /** A page is selected when no page number is given, or it is the given one. */
  predicate Selected(pnum: int, pageNumber: Option<int>)
  {
    pageNumber.None? || pnum == pageNumber.value
  }

  /** Page `p` (numbered from 1) is selected and yields a debug line at key `k`. */
  predicate Yields(pages: seq<Page>, pageNumber: Option<int>, p: int, k: real, env: Env)
  {
    1 <= p <= |pages| && Selected(p, pageNumber) && OnPage(pages[p - 1].chars, k, env)
  }

  /** `d` is the scored line of a selected page of the document at its own `top`. */
  predicate FromDocument(pages: seq<Page>, pageNumber: Option<int>, d: ScoredLine, cfg: Config, env: Env)
  {
    1 <= d.page <= |pages| && Selected(d.page, pageNumber)
    && ScoreAt(pages[d.page - 1].chars, pages[d.page - 1].height, d.page, d.top, cfg, env) == Some(d)
  }

  /** The (page, top) position of each line, in order. */
  function Positions(s: seq<ScoredLine>): (r: seq<(int, real)>)
    ensures |r| == |s| && forall i :: 0 <= i < |s| ==> r[i] == (s[i].page, s[i].top)
  {
    if s == [] then [] else Positions(s[..|s| - 1]) + [(s[|s| - 1].page, s[|s| - 1].top)]
  }

  /** Reading order: strictly ascending by page, then by `top`. */
  predicate Before(a: ScoredLine, b: ScoredLine)
  {
    a.page < b.page || (a.page == b.page && a.top < b.top)
  }

  predicate InReadingOrder(s: seq<ScoredLine>)
  {
    forall i, j :: 0 <= i < j < |s| ==> Before(s[i], s[j])
  }

  function Compact(d: ScoredLine): HeadingEntry
  {
    HeadingEntry(d.page, d.top, d.text, d.avgSize, d.score)
  }

  /** The compact entries of the heading lines of `debug`, in order. */
  function HeadingsOf(debug: seq<ScoredLine>): (r: seq<HeadingEntry>)
    ensures |r| <= |debug|
  {
    if debug == [] then []
    else
      var last := debug[|debug| - 1];
      HeadingsOf(debug[..|debug| - 1]) + (if last.isHeading then [Compact(last)] else [])
  }

  /** Every heading entry comes from a heading line of the debug list, and every heading line has its entry. */
  lemma {:induction false} HeadingsOfMembers(debug: seq<ScoredLine>)
    ensures forall h :: h in HeadingsOf(debug) ==> exists d :: d in debug && d.isHeading && Compact(d) == h
    ensures forall d :: d in debug && d.isHeading ==> Compact(d) in HeadingsOf(debug)
  {
    if debug != [] {
      var init, last := debug[..|debug| - 1], debug[|debug| - 1];
      HeadingsOfMembers(init);
      assert forall d :: d in debug <==> d in init || d == last;
    }
  }

  /** Filtering headings commutes with concatenation, so their order is the debug order. */
  lemma {:induction false} HeadingsOfAppend(a: seq<ScoredLine>, b: seq<ScoredLine>)
    ensures HeadingsOf(a + b) == HeadingsOf(a) + HeadingsOf(b)
  {
    if b == [] {
      assert a + b == a;
    } else {
      var b' := b[..|b| - 1];
      HeadingsOfAppend(a, b');
      assert (a + b)[..|a + b| - 1] == a + b';
    }
  }

  /**
   * `detect_headings` over a document: the debug list holds exactly one
   * scored line per selected page and non-blank line key, in reading order,
   * and the headings list is its heading lines, in the same order.
   */
  method DetectHeadings(pages: seq<Page>, pageNumber: Option<int>, cfg: Config, env: Env)
    returns (headings: seq<HeadingEntry>, debug: seq<ScoredLine>)
    ensures InReadingOrder(debug)
    ensures forall i :: 0 <= i < |debug| ==> FromDocument(pages, pageNumber, debug[i], cfg, env)
    ensures forall p, k :: Yields(pages, pageNumber, p, k, env) ==> (p, k) in Positions(debug)
    ensures headings == HeadingsOf(debug)
  {
    headings, debug := [], [];
    for pidx := 0 to |pages|
      invariant Built(pages, pageNumber, cfg, env, pidx, debug)
      invariant headings == HeadingsOf(debug)
    {
      var lines := SelectedPageLines(pages, pageNumber, pidx, cfg, env);
      ghost var before := debug;
      headings, debug := AppendLines(headings, debug, lines);
      BuiltExtend(pages, pageNumber, cfg, env, pidx, before, lines);
    }
    ghost var built := debug;
    debug := SortDebug(debug);
    SortDebugKeepsOrdered(built);
  }

  /**
   * The state after the first `n` pages: lines of pages up to `n` only, in
   * reading order, each from the document, and every position those pages
   * yield present.
   */
  ghost predicate Built(pages: seq<Page>, pageNumber: Option<int>, cfg: Config, env: Env, n: int, debug: seq<ScoredLine>)
  {
    && (forall i :: 0 <= i < |debug| ==> debug[i].page <= n)
    && InReadingOrder(debug)
    && (forall i :: 0 <= i < |debug| ==> FromDocument(pages, pageNumber, debug[i], cfg, env))
    && (forall p, k :: p <= n && Yields(pages, pageNumber, p, k, env) ==> (p, k) in Positions(debug))
  }

  /** Appending the lines of page `n + 1`, in ascending `top`, extends the state to the first `n + 1` pages. */
  lemma BuiltExtend(pages: seq<Page>, pageNumber: Option<int>, cfg: Config, env: Env, n: int,
                    before: seq<ScoredLine>, lines: seq<ScoredLine>)
    requires Built(pages, pageNumber, cfg, env, n, before)
    requires forall i :: 0 <= i < |lines| ==>
      lines[i].page == n + 1 && FromDocument(pages, pageNumber, lines[i], cfg, env)
    requires forall i, j :: 0 <= i < j < |lines| ==> lines[i].top < lines[j].top
    requires forall k :: Yields(pages, pageNumber, n + 1, k, env) ==> k in TopSet(lines)
    ensures Built(pages, pageNumber, cfg, env, n + 1, before + lines)
  {
    AppendInOrder(before, lines, n + 1);
    AppendFromDocument(pages, pageNumber, cfg, env, before, lines);
    AppendYields(pages, pageNumber, env, n, before, lines);
  }

  lemma AppendFromDocument(pages: seq<Page>, pageNumber: Option<int>, cfg: Config, env: Env,
                           before: seq<ScoredLine>, lines: seq<ScoredLine>)
    requires forall i :: 0 <= i < |before| ==> FromDocument(pages, pageNumber, before[i], cfg, env)
    requires forall i :: 0 <= i < |lines| ==> FromDocument(pages, pageNumber, lines[i], cfg, env)
    ensures forall i :: 0 <= i < |before + lines| ==> FromDocument(pages, pageNumber, (before + lines)[i], cfg, env)
  {
    AppendAll(d => FromDocument(pages, pageNumber, d, cfg, env), before, lines);
  }

  lemma AppendYields(pages: seq<Page>, pageNumber: Option<int>, env: Env, n: int,
                     before: seq<ScoredLine>, lines: seq<ScoredLine>)
    requires forall p, k :: p <= n && Yields(pages, pageNumber, p, k, env) ==> (p, k) in Positions(before)
    requires forall i :: 0 <= i < |lines| ==> lines[i].page == n + 1
    requires forall k :: Yields(pages, pageNumber, n + 1, k, env) ==> k in TopSet(lines)
    ensures forall p, k :: p <= n + 1 && Yields(pages, pageNumber, p, k, env) ==> (p, k) in Positions(before + lines)
  {
    AppendComplete((p, k) => Yields(pages, pageNumber, p, k, env), n, before, lines);
  }

  /**
   * One pass of the page loop: an unselected page contributes nothing; a
   * selected one its scored lines, in ascending `top`, every one from the
   * document and every position it yields among them.
   */
  method SelectedPageLines(pages: seq<Page>, pageNumber: Option<int>, pidx: nat, cfg: Config, env: Env)
    returns (lines: seq<ScoredLine>)
    requires pidx < |pages|
    ensures !Selected(pidx + 1, pageNumber) ==> lines == []
    ensures forall i, j :: 0 <= i < j < |lines| ==> lines[i].top < lines[j].top
    ensures forall i :: 0 <= i < |lines| ==>
      lines[i].page == pidx + 1 && FromDocument(pages, pageNumber, lines[i], cfg, env)
    ensures forall k :: Yields(pages, pageNumber, pidx + 1, k, env) ==> k in TopSet(lines)
  {
    lines := [];
    if Selected(pidx + 1, pageNumber) {
      var page := pages[pidx];
      lines := ScorePage(page.chars, page.height, pidx + 1, cfg, env);
      PageOutcome(pages, pageNumber, pidx, lines, cfg, env);
    }
  }

  /** The scored lines of the selected page `pidx + 1` come from the document, and so do all its positions. */
  lemma PageOutcome(pages: seq<Page>, pageNumber: Option<int>, pidx: nat, lines: seq<ScoredLine>, cfg: Config, env: Env)
    requires pidx < |pages| && Selected(pidx + 1, pageNumber)
    requires forall i :: 0 <= i < |lines| ==> lines[i].page == pidx + 1
    requires forall i :: 0 <= i < |lines| ==>
      ScoreAt(pages[pidx].chars, pages[pidx].height, pidx + 1, lines[i].top, cfg, env) == Some(lines[i])
    requires forall k :: OnPage(pages[pidx].chars, k, env) ==> k in TopSet(lines)
    ensures forall i :: 0 <= i < |lines| ==> FromDocument(pages, pageNumber, lines[i], cfg, env)
    ensures forall k :: Yields(pages, pageNumber, pidx + 1, k, env) ==> k in TopSet(lines)
  {
    assert pages[(pidx + 1) - 1] == pages[pidx];
  }

  /** The per-line appends: every line goes to the debug list, and the heading lines also to the headings list. */
  method AppendLines(headings: seq<HeadingEntry>, debug: seq<ScoredLine>, lines: seq<ScoredLine>)
    returns (headings': seq<HeadingEntry>, debug': seq<ScoredLine>)
    requires headings == HeadingsOf(debug)
    ensures debug' == debug + lines
    ensures headings' == HeadingsOf(debug')
  {
    headings', debug' := headings, debug;
    for j := 0 to |lines|
      invariant debug' == debug + lines[..j]
      invariant headings' == HeadingsOf(debug')
    {
      assert (debug + lines[..j + 1])[..|debug| + j] == debug + lines[..j];
      debug' := debug' + [lines[j]];
      if lines[j].isHeading {
        headings' := headings' + [Compact(lines[j])];
      }
    }
    assert lines[..|lines|] == lines;
  }

  /** Appending a page's lines, in ascending `top`, after the lines of earlier pages keeps reading order. */
  lemma AppendInOrder(before: seq<ScoredLine>, lines: seq<ScoredLine>, pnum: int)
    requires forall i :: 0 <= i < |before| ==> before[i].page < pnum
    requires InReadingOrder(before)
    requires forall i :: 0 <= i < |lines| ==> lines[i].page == pnum
    requires forall i, j :: 0 <= i < j < |lines| ==> lines[i].top < lines[j].top
    ensures InReadingOrder(before + lines)
    ensures forall i :: 0 <= i < |before + lines| ==> (before + lines)[i].page <= pnum
  {
    var after := before + lines;
    forall i, j | 0 <= i < j < |after| ensures Before(after[i], after[j]) {
      if j < |before| {
        assert after[i] == before[i] && after[j] == before[j];
      } else if i < |before| {
        assert after[i] == before[i] && after[j] == lines[j - |before|];
      } else {
        assert after[i] == lines[i - |before|] && after[j] == lines[j - |before|];
      }
    }
  }

  /** Lines that all satisfy `ok` (the document's `FromDocument`, kept abstract here) still do after concatenation. */
  lemma AppendAll(ok: ScoredLine -> bool, before: seq<ScoredLine>, lines: seq<ScoredLine>)
    requires forall i :: 0 <= i < |before| ==> ok(before[i])
    requires forall i :: 0 <= i < |lines| ==> ok(lines[i])
    ensures forall i :: 0 <= i < |before + lines| ==> ok((before + lines)[i])
  {
    forall i | 0 <= i < |before + lines| ensures ok((before + lines)[i]) {
      if i < |before| {
        assert (before + lines)[i] == before[i];
      } else {
        assert (before + lines)[i] == lines[i - |before|];
      }
    }
  }

  /**
   * Every wanted position of the first `n` pages and of the new page `n + 1` is
   * among the positions after the append (`wanted` is the document's
   * `Yields`, kept abstract here).
   */
  lemma AppendComplete(wanted: (int, real) -> bool, n: int, before: seq<ScoredLine>, lines: seq<ScoredLine>)
    requires forall p, k :: p <= n && wanted(p, k) ==> (p, k) in Positions(before)
    requires forall i :: 0 <= i < |lines| ==> lines[i].page == n + 1
    requires forall k :: wanted(n + 1, k) ==> k in TopSet(lines)
    ensures forall p, k :: p <= n + 1 && wanted(p, k) ==> (p, k) in Positions(before + lines)
  {
    var after := before + lines;
    forall p, k | p <= n + 1 && wanted(p, k) ensures (p, k) in Positions(after) {
      if p == n + 1 {
        assert wanted(n + 1, k) && k in TopSet(lines);
        var a :| 0 <= a < |lines| && lines[a].top == k;
        assert after[|before| + a] == lines[a];
        assert Positions(after)[|before| + a] == (p, k);
      } else {
        assert p <= n && (p, k) in Positions(before);
        var i :| 0 <= i < |before| && Positions(before)[i] == (p, k);
        assert after[i] == before[i];
        assert Positions(after)[i] == (p, k);
      }
    }
  }

  // ---------------------------------------------------------------------
  // The final `sorted(debug_lines, key=(page, top, -score))`.
  // ---------------------------------------------------------------------

  /** The sort key `(page, top, -score)` of `a` is at most that of `b`. */
  predicate KeyAtMost(a: ScoredLine, b: ScoredLine)
  {
    a.page < b.page
    || (a.page == b.page && (a.top < b.top || (a.top == b.top && -a.score <= -b.score)))
  }

  /** Inserts `x` before the first element whose key is not below `x`'s (stable). */
  function InsertByKey(x: ScoredLine, s: seq<ScoredLine>): (r: seq<ScoredLine>)
    ensures |r| == |s| + 1
    ensures multiset(r) == multiset(s) + multiset{x}
  {
    if s == [] || KeyAtMost(x, s[0]) then [x] + s
    else
      assert s == [s[0]] + s[1..];
      [s[0]] + InsertByKey(x, s[1..])
  }

  /**
   * Where `InsertByKey` puts `x`: every entry before the cut has a key strictly
   * below `x`'s, and the entry at the cut (if any) does not.
   */
  function CutPoint(x: ScoredLine, s: seq<ScoredLine>): (i: nat)
    ensures i <= |s|
    ensures forall j :: 0 <= j < i ==> !KeyAtMost(x, s[j])
    ensures i < |s| ==> KeyAtMost(x, s[i])
  {
    if s == [] || KeyAtMost(x, s[0]) then 0
    else
      var i := 1 + CutPoint(x, s[1..]);
      assert forall j :: 1 <= j < i ==> s[j] == s[1..][j - 1];
      i
  }

  /**
   * `x` goes in at the cut point and `s` keeps its order on both sides of it.
   * The cut is the first entry whose key is not below `x`'s, so `x` lands ahead
   * of the entries with an equal key. `SortDebug` inserts each head into its
   * already sorted tail, so equal keys keep their input order: the sort is stable.
   */
  lemma {:induction false} InsertAtCut(x: ScoredLine, s: seq<ScoredLine>)
    ensures InsertByKey(x, s) == s[..CutPoint(x, s)] + [x] + s[CutPoint(x, s)..]
  {
    if s == [] || KeyAtMost(x, s[0]) {
      assert s[..0] == [] && s[0..] == s;
    } else {
      var i := CutPoint(x, s[1..]);
      InsertAtCut(x, s[1..]);
      CutStep(x, s);
      ConsSlices(s, i);
    }
  }

  /** Past an entry whose key is below `x`'s, both the insertion and the cut move one step on. */
  lemma CutStep(x: ScoredLine, s: seq<ScoredLine>)
    requires s != [] && !KeyAtMost(x, s[0])
    ensures CutPoint(x, s) == CutPoint(x, s[1..]) + 1
    ensures InsertByKey(x, s) == [s[0]] + InsertByKey(x, s[1..])
  {
  }

  lemma ConsSlices<T>(s: seq<T>, i: nat)
    requires i < |s|
    ensures s[..i + 1] == [s[0]] + s[1..][..i]
    ensures s[i + 1..] == s[1..][i..]
  {
  }

  /** Ordered by the sort key `(page, top, -score)`. */
  predicate KeySorted(s: seq<ScoredLine>)
  {
    forall i, j :: 0 <= i < j < |s| ==> KeyAtMost(s[i], s[j])
  }

  lemma KeyAtMostTotal(a: ScoredLine, b: ScoredLine)
    ensures KeyAtMost(a, b) || KeyAtMost(b, a)
  {
  }

  lemma KeyAtMostTransitive(a: ScoredLine, b: ScoredLine, c: ScoredLine)
    requires KeyAtMost(a, b) && KeyAtMost(b, c)
    ensures KeyAtMost(a, c)
  {
  }

  /** A lower bound of `x` and of every element of `s` bounds every element of the insertion. */
  lemma {:induction false} InsertBounded(b: ScoredLine, x: ScoredLine, s: seq<ScoredLine>)
    requires KeyAtMost(b, x)
    requires forall i :: 0 <= i < |s| ==> KeyAtMost(b, s[i])
    ensures forall i :: 0 <= i < |InsertByKey(x, s)| ==> KeyAtMost(b, InsertByKey(x, s)[i])
  {
    if s == [] || KeyAtMost(x, s[0]) {
      assert InsertByKey(x, s) == [x] + s;
    } else {
      var rest := s[1..];
      assert forall i :: 0 <= i < |rest| ==> rest[i] == s[i + 1];
      InsertBounded(b, x, rest);
      assert InsertByKey(x, s) == [s[0]] + InsertByKey(x, rest);
    }
  }

  /** Inserting into a list ordered by key keeps it ordered by key. */
  lemma {:induction false} InsertSorted(x: ScoredLine, s: seq<ScoredLine>)
    requires KeySorted(s)
    ensures KeySorted(InsertByKey(x, s))
  {
    var r := InsertByKey(x, s);
    if s == [] || KeyAtMost(x, s[0]) {
      assert r == [x] + s;
      forall i, j | 0 <= i < j < |r| ensures KeyAtMost(r[i], r[j]) {
        if i == 0 && j > 1 {
          KeyAtMostTransitive(x, s[0], s[j - 1]);
        }
      }
    } else {
      var rest := s[1..];
      assert forall i :: 0 <= i < |rest| ==> rest[i] == s[i + 1];
      assert KeySorted(rest);
      InsertSorted(x, rest);
      KeyAtMostTotal(x, s[0]);
      InsertBounded(s[0], x, rest);
      var t := InsertByKey(x, rest);
      assert r == [s[0]] + t;
      forall i, j | 0 <= i < j < |r| ensures KeyAtMost(r[i], r[j]) {
        if i == 0 {
          assert r[j] == t[j - 1];
        } else {
          assert r[i] == t[i - 1] && r[j] == t[j - 1];
        }
      }
    }
  }

  /** Python's stable `sorted` on the key `(page, top, -score)`, as an insertion sort. */
  function SortDebug(s: seq<ScoredLine>): (r: seq<ScoredLine>)
    ensures |r| == |s|
    ensures multiset(r) == multiset(s)
    ensures KeySorted(r)
  {
    if s == [] then []
    else
      assert s == [s[0]] + s[1..];
      var sorted := SortDebug(s[1..]);
      InsertSorted(s[0], sorted);
      InsertByKey(s[0], sorted)
  }

  /**
   * A debug list already in reading order (pages ascending, tops unique and
   * ascending within a page) is left unchanged by the final sort.
   */
  lemma {:induction false} SortDebugKeepsOrdered(s: seq<ScoredLine>)
    requires InReadingOrder(s)
    ensures SortDebug(s) == s
  {
    if s != [] {
      var rest := s[1..];
      assert InReadingOrder(rest) by {
        forall i, j | 0 <= i < j < |rest| ensures Before(rest[i], rest[j]) {
          assert rest[i] == s[i + 1] && rest[j] == s[j + 1];
        }
      }
      SortDebugKeepsOrdered(rest);
      if rest != [] {
        assert Before(s[0], s[1]);
      }
      assert [s[0]] + rest == s;
    }
  }
}
