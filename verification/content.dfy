/**
 * The page loop of `page_content`: the scored lines are grouped by page
 * (keeping only the requested page when one is given), and the pages are
 * segmented one by one in increasing page order.
 */
module PageContent {
  import opened Wrappers
  import Scoring
  import Segment

  type Line = Scoring.ScoredLine

  /**
   * The filter `if page_number and page_num != page_number: continue`: a
   * missing page number or page number 0 is falsy and keeps every line.
   */
  predicate Kept(line: Line, pageNumber: Option<int>)
  {
    !(pageNumber.Some? && pageNumber.value != 0 && line.page != pageNumber.value)
  }

  /** The kept lines of page `p`, in their original order. */
  function OfPage(lines: seq<Line>, p: int, pageNumber: Option<int>): (r: seq<Line>)
    ensures |r| <= |lines|
    ensures forall i :: 0 <= i < |r| ==> r[i].page == p && Kept(r[i], pageNumber)
  {
    if lines == [] then []
    else
      var l := lines[|lines| - 1];
      OfPage(lines[..|lines| - 1], p, pageNumber) + (if l.page == p && Kept(l, pageNumber) then [l] else [])
  }

  /** `page_dict` after the given lines. */
  function Grouped(lines: seq<Line>, pageNumber: Option<int>): map<int, seq<Line>>
  {
    if lines == [] then map[]
    else
      var g := Grouped(lines[..|lines| - 1], pageNumber);
      var l := lines[|lines| - 1];
      if Kept(l, pageNumber) then g[l.page := (if l.page in g then g[l.page] else []) + [l]]
      else g
  }

  /** The loop `page_dict.setdefault(page_num, []).append(line)`. */
  method GroupByPage(lines: seq<Line>, pageNumber: Option<int>) returns (pageDict: map<int, seq<Line>>)
    ensures pageDict == Grouped(lines, pageNumber)
  {
    pageDict := map[];
    for i := 0 to |lines|
      invariant pageDict == Grouped(lines[..i], pageNumber)
    {
      assert lines[..i + 1][..i] == lines[..i];
      var line := lines[i];
      if Kept(line, pageNumber) {
        var group := if line.page in pageDict then pageDict[line.page] else [];
        pageDict := pageDict[line.page := group + [line]];
      }
    }
    assert lines[..|lines|] == lines;
  }

  /**
   * The grouping is exact: a page has a group if and only if some kept line
   * is on it, and its group is the kept lines of that page in order.
   */
  lemma {:induction false} GroupedPages(lines: seq<Line>, pageNumber: Option<int>, p: int)
    ensures p in Grouped(lines, pageNumber) <==> OfPage(lines, p, pageNumber) != []
    ensures p in Grouped(lines, pageNumber) ==> Grouped(lines, pageNumber)[p] == OfPage(lines, p, pageNumber)
  {
    if lines != [] {
      GroupedPages(lines[..|lines| - 1], pageNumber, p);
    }
  }

  /** Every kept line lands in the group of its page; no other line lands anywhere. */
  lemma {:induction false} OfPageMember(lines: seq<Line>, p: int, pageNumber: Option<int>, l: Line)
    ensures l in OfPage(lines, p, pageNumber) <==> l in lines && l.page == p && Kept(l, pageNumber)
  {
    if lines != [] {
      var init := lines[..|lines| - 1];
      OfPageMember(init, p, pageNumber, l);
      assert lines == init + [lines[|lines| - 1]];
    }
  }

  // Page numbers are integers while the line keys of `Lines` are reals, and
  // Dafny offers no ordering over a type parameter; so the ascending order,
  // the smallest element and the selection sort below are the integer
  // counterparts of `Lines.StrictlyAscending`, `Lines.MinimumExists` and
  // `Lines.SortKeys`.

  /** Strictly ascending page numbers. */
  predicate Ascending(s: seq<int>)
  {
    forall i, j :: 0 <= i < j < |s| ==> s[i] < s[j]
  }

  /**
   * The integer counterpart of `Lines.EmptyOrHasElement`. A single generic
   * lemma over `set<T>` states its witness on boxed values and does not let a
   * `var x :| x in s` on integers go through, hence the second copy.
   */
  lemma EmptyOrHasPage(s: set<int>)
    ensures s == {} || exists x :: x in s
  {
    if forall x :: x !in s {
      assert s == {};
    }
  }

  /** A non-empty finite set of page numbers has a smallest one. */
  lemma {:induction false} SmallestPage(s: set<int>)
    requires s != {}
    ensures exists m :: m in s && forall k :: k in s ==> m <= k
  {
    EmptyOrHasPage(s);
    var x :| x in s;
    if s != {x} {
      var rest := s - {x};
      SmallestPage(rest);
      var m :| m in rest && forall k :: k in rest ==> m <= k;
      var least := if x < m then x else m;
      forall k | k in s ensures least <= k {
        if k != x {
          assert k in rest;
        }
      }
    }
  }

  /** `sorted(page_dict.items())`, on the keys: each page once, in increasing order. */
  method SortPages(keys: set<int>) returns (sorted: seq<int>)
    ensures Ascending(sorted)
    ensures forall p :: p in sorted <==> p in keys
  {
    sorted := [];
    var rest := keys;
    while rest != {}
      invariant rest <= keys
      invariant forall k :: k in keys <==> k in sorted || k in rest
      invariant Ascending(sorted)
      invariant forall i, k :: 0 <= i < |sorted| && k in rest ==> sorted[i] < k
      decreases |rest|
    {
      SmallestPage(rest);
      var m :| m in rest && forall k :: k in rest ==> m <= k;
      sorted := sorted + [m];
      rest := rest - {m};
    }
  }

  /**
   * The page loop: every page with kept lines, in increasing order, with the
   * content list the segmenter builds from that page's lines.
   */
  method PageContents(lines: seq<Line>, pageNumber: Option<int>) returns (pages: seq<(int, seq<Segment.Node>)>)
    ensures forall i, j :: 0 <= i < j < |pages| ==> pages[i].0 < pages[j].0
    ensures forall p :: (exists i :: 0 <= i < |pages| && pages[i].0 == p) <==> OfPage(lines, p, pageNumber) != []
    ensures forall i :: 0 <= i < |pages| ==> pages[i].1 == Segment.Segmented(OfPage(lines, pages[i].0, pageNumber))
  {
    var pageDict := GroupByPage(lines, pageNumber);
    var order := SortPages(pageDict.Keys);
    pages := SegmentPages(pageDict, order);
    SegmentsFacts(Segment.Segmented, pageDict, order);
    Assembled(lines, pageNumber, order, pages);
  }

  /** Each page of `order` with its lines passed through `segment` (no lines for a page without a group). */
  function Segments(segment: seq<Line> -> seq<Segment.Node>, pageDict: map<int, seq<Line>>, order: seq<int>)
    : seq<(int, seq<Segment.Node>)>
  {
    if order == [] then []
    else
      var p := order[|order| - 1];
      Segments(segment, pageDict, order[..|order| - 1]) + [(p, segment(if p in pageDict then pageDict[p] else []))]
  }

  /** `for page_num, lines in ...`: each page of `order`, with its lines segmented. */
  method SegmentPages(pageDict: map<int, seq<Line>>, order: seq<int>) returns (pages: seq<(int, seq<Segment.Node>)>)
    requires forall k :: 0 <= k < |order| ==> order[k] in pageDict
    ensures pages == Segments(Segment.Segmented, pageDict, order)
  {
    pages := [];
    for i := 0 to |order|
      invariant pages == Segments(Segment.Segmented, pageDict, order[..i])
    {
      assert order[..i + 1][..i] == order[..i];
      var content := Segment.SegmentPage(pageDict[order[i]]);
      pages := pages + [(order[i], content)];
    }
    assert order[..|order|] == order;
  }

  lemma {:induction false} SegmentsFacts(segment: seq<Line> -> seq<Segment.Node>, pageDict: map<int, seq<Line>>,
                                         order: seq<int>)
    ensures |Segments(segment, pageDict, order)| == |order|
    ensures forall k :: 0 <= k < |order| ==> Segments(segment, pageDict, order)[k].0 == order[k]
    ensures forall k :: 0 <= k < |order| && order[k] in pageDict ==>
      Segments(segment, pageDict, order)[k].1 == segment(pageDict[order[k]])
  {
    if order != [] {
      var init := order[..|order| - 1];
      SegmentsFacts(segment, pageDict, init);
      forall k | 0 <= k < |init| ensures order[k] == init[k] { }
    }
  }

  /** The pages in sorted order, each with its group segmented, are exactly the pages with kept lines. */
  lemma Assembled(lines: seq<Line>, pageNumber: Option<int>, order: seq<int>, pages: seq<(int, seq<Segment.Node>)>)
    requires Ascending(order)
    requires forall p :: p in order <==> p in Grouped(lines, pageNumber)
    requires |pages| == |order|
    requires forall k :: 0 <= k < |order| ==>
      pages[k].0 == order[k] && pages[k].1 == Segment.Segmented(Grouped(lines, pageNumber)[order[k]])
    ensures forall i, j :: 0 <= i < j < |pages| ==> pages[i].0 < pages[j].0
    ensures forall p :: (exists i :: 0 <= i < |pages| && pages[i].0 == p) <==> OfPage(lines, p, pageNumber) != []
    ensures forall i :: 0 <= i < |pages| ==> pages[i].1 == Segment.Segmented(OfPage(lines, pages[i].0, pageNumber))
  {
    forall i | 0 <= i < |pages| ensures pages[i].1 == Segment.Segmented(OfPage(lines, pages[i].0, pageNumber)) {
      GroupedPages(lines, pageNumber, order[i]);
    }
    forall p ensures (exists i :: 0 <= i < |pages| && pages[i].0 == p) <==> OfPage(lines, p, pageNumber) != [] {
      GroupedPages(lines, pageNumber, p);
      if p in order {
        var i :| 0 <= i < |order| && order[i] == p;
        assert pages[i].0 == p;
      }
    }
  }
}
