/**
 * `extract_images_from_pdf`: the pages are visited in order; on every
 * selected page each image reference (xref) not seen before anywhere in the
 * document gets the page's next counter value and a file name
 * `page{p}_img{n}.{ext}` under the output directory.
 */
module Images {
  import opened Wrappers
  import opened Text

  /** What the PDF library reports for one image: its extension and size, each possibly missing. */
  datatype ImageData = ImageData(ext: Option<string>, width: Option<int>, height: Option<int>)

  /**
   * One result entry. `xref` and `index` (the per-page counter) are kept
   * alongside the entry's own fields so that properties can name them.
   */
  datatype ImageRecord = ImageRecord(
    path: string, page: int, ext: string, width: Option<int>, height: Option<int>,
    xref: int, index: int)

  /**
   * The page filter: `None` when no page is given, else the set of wanted
   * pages. An empty set is falsy in the source and filters nothing.
   */
  predicate Selected(pnum: int, filter: Option<set<int>>)
  {
    filter.None? || filter.value == {} || pnum in filter.value
  }

  /** `os.path.join(out_dir, name)` for a relative `name`. */
  function JoinPath(dir: string, name: string): string
  {
    if dir == [] then name
    else if dir[|dir| - 1] == '/' then dir + name
    else dir + "/" + name
  }

  /** `f"page{pnum}_img{img_counter}.{ext}"`. */
  function FileName(pnum: nat, n: nat, ext: string): string
  {
    "page" + Decimal(pnum) + "_img" + Decimal(n) + "." + ext
  }

  /** The entry for the `n`-th new image `xref` of page `pnum`; the extension defaults to "png". */
  function MakeRecord(dir: string, pnum: nat, n: nat, xref: int, data: ImageData): (r: ImageRecord)
    ensures data.ext.None? ==> r.ext == "png"
    ensures data.ext.Some? ==> r.ext == data.ext.value
    ensures r.path == JoinPath(dir, FileName(pnum, n, r.ext))
  {
    var ext := data.ext.GetOr("png");
    ImageRecord(JoinPath(dir, FileName(pnum, n, ext)), pnum, ext, data.width, data.height, xref, n)
  }

  function Elems(xs: seq<int>): set<int>
  {
    set x | x in xs
  }

  /** The xrefs of `xs` not in `seen` and not earlier in `xs`, in order of first occurrence. */
  function FreshOf(seen: set<int>, xs: seq<int>): seq<int>
  {
    if xs == [] then []
    else
      var init, x := xs[..|xs| - 1], xs[|xs| - 1];
      FreshOf(seen, init) + (if x in seen || x in init then [] else [x])
  }

  /** The entries of the new images of page `pnum`, numbered from 1. */
  function PageRecords(dir: string, pnum: nat, added: seq<int>, extract: int -> ImageData): (r: seq<ImageRecord>)
    ensures |r| == |added|
  {
    if added == [] then []
    else
      var x := added[|added| - 1];
      PageRecords(dir, pnum, added[..|added| - 1], extract) + [MakeRecord(dir, pnum, |added|, x, extract(x))]
  }

  /** The `k`-th new image of a page is numbered `k + 1`. */
  lemma {:induction false} PageRecordsAt(dir: string, pnum: nat, added: seq<int>, extract: int -> ImageData)
    ensures forall k :: 0 <= k < |added| ==>
      PageRecords(dir, pnum, added, extract)[k] == MakeRecord(dir, pnum, k + 1, added[k], extract(added[k]))
  {
    if added != [] {
      var init := added[..|added| - 1];
      PageRecordsAt(dir, pnum, init, extract);
      forall k | 0 <= k < |init| ensures added[k] == init[k] { }
    }
  }

  /** `seen_xrefs` after the given pages: every xref of a selected page. */
  function SeenIn(pages: seq<seq<int>>, filter: Option<set<int>>): set<int>
  {
    if pages == [] then {}
    else
      var n := |pages|;
      SeenIn(pages[..n - 1], filter) + (if Selected(n, filter) then Elems(pages[n - 1]) else {})
  }

  /** `results` after the given pages. */
  function DocRecords(pages: seq<seq<int>>, filter: Option<set<int>>, dir: string, extract: int -> ImageData)
    : seq<ImageRecord>
  {
    if pages == [] then []
    else
      var n := |pages|;
      var before := DocRecords(pages[..n - 1], filter, dir, extract);
      if Selected(n, filter) then before + PageRecords(dir, n, FreshOf(SeenIn(pages[..n - 1], filter), pages[n - 1]), extract)
      else before
  }

  // ---------------------------------------------------------------------
  // The imperative loop.
  // ---------------------------------------------------------------------

  lemma FreshOfStep(seen: set<int>, xs: seq<int>, j: nat)
    requires j < |xs|
    ensures xs[..j + 1][..j] == xs[..j]
    ensures FreshOf(seen, xs[..j + 1]) ==
      FreshOf(seen, xs[..j]) + (if xs[j] in seen + Elems(xs[..j]) then [] else [xs[j]])
  {
    assert xs[..j + 1][..j] == xs[..j];
    assert xs[..j + 1][j] == xs[j];
  }

  lemma PageRecordsAppend(dir: string, pnum: nat, added: seq<int>, x: int, extract: int -> ImageData)
    ensures PageRecords(dir, pnum, added + [x], extract)
      == PageRecords(dir, pnum, added, extract) + [MakeRecord(dir, pnum, |added| + 1, x, extract(x))]
  {
    assert (added + [x])[..|added|] == added;
  }

  /**
   * One pass of `for img in image_list`: an xref already seen is skipped;
   * a new one is recorded, counted and given the next file name.
   */
  method VisitImage(dir: string, pnum: nat, xref: int, extract: int -> ImageData,
                    seen: set<int>, counter: nat, results: seq<ImageRecord>)
    returns (seen': set<int>, counter': nat, results': seq<ImageRecord>)
    ensures xref in seen ==> seen' == seen && counter' == counter && results' == results
    ensures xref !in seen ==>
      (seen' == seen + {xref} && counter' == counter + 1 &&
       results' == results + [MakeRecord(dir, pnum, counter + 1, xref, extract(xref))])
  {
    seen', counter', results' := seen, counter, results;
    if xref !in seen {
      seen' := seen + {xref};
      counter' := counter + 1;
      var data := extract(xref);
      var ext := data.ext.GetOr("png");
      var filename := "page" + Decimal(pnum) + "_img" + Decimal(counter') + "." + ext;
      var path := JoinPath(dir, filename);
      results' := results + [ImageRecord(path, pnum, ext, data.width, data.height, xref, counter')];
    }
  }

  /** The inner `for img in image_list` loop of one selected page. */
  method ScanPage(dir: string, pnum: nat, imageList: seq<int>, extract: int -> ImageData,
                  seen0: set<int>, results0: seq<ImageRecord>)
    returns (seen: set<int>, results: seq<ImageRecord>)
    ensures seen == seen0 + Elems(imageList)
    ensures results == results0 + PageRecords(dir, pnum, FreshOf(seen0, imageList), extract)
  {
    seen, results := seen0, results0;
    var counter := 0;
    for j := 0 to |imageList|
      invariant seen == seen0 + Elems(imageList[..j])
      invariant counter == |FreshOf(seen0, imageList[..j])|
      invariant results == results0 + PageRecords(dir, pnum, FreshOf(seen0, imageList[..j]), extract)
    {
      var xref := imageList[j];
      FreshOfStep(seen0, imageList, j);
      ElemsStep(imageList, j);
      ghost var before := PageRecords(dir, pnum, FreshOf(seen0, imageList[..j]), extract);
      ghost var next := MakeRecord(dir, pnum, counter + 1, xref, extract(xref));
      ghost var isNew := xref !in seen;
      if isNew {
        ScanStep(dir, pnum, seen0, imageList, j, extract);
        assert (results0 + before) + [next] == results0 + (before + [next]);
      }
      seen, counter, results := VisitImage(dir, pnum, xref, extract, seen, counter, results);
      if isNew {
        assert results == (results0 + before) + [next];
        assert PageRecords(dir, pnum, FreshOf(seen0, imageList[..j + 1]), extract) == before + [next];
      } else {
        assert FreshOf(seen0, imageList[..j + 1]) == FreshOf(seen0, imageList[..j]);
      }
    }
    assert imageList[..|imageList|] == imageList;
  }

  /** A new xref adds the next entry of the page. */
  lemma ScanStep(dir: string, pnum: nat, seen0: set<int>, xs: seq<int>, j: nat, extract: int -> ImageData)
    requires j < |xs| && xs[j] !in seen0 + Elems(xs[..j])
    ensures PageRecords(dir, pnum, FreshOf(seen0, xs[..j + 1]), extract)
         == PageRecords(dir, pnum, FreshOf(seen0, xs[..j]), extract)
            + [MakeRecord(dir, pnum, |FreshOf(seen0, xs[..j])| + 1, xs[j], extract(xs[j]))]
  {
    FreshOfStep(seen0, xs, j);
    PageRecordsAppend(dir, pnum, FreshOf(seen0, xs[..j]), xs[j], extract);
  }

  lemma ElemsStep(xs: seq<int>, j: nat)
    requires j < |xs|
    ensures Elems(xs[..j + 1]) == Elems(xs[..j]) + {xs[j]}
  {
    assert xs[..j + 1] == xs[..j] + [xs[j]];
  }

  lemma DocPrefix(pages: seq<seq<int>>, filter: Option<set<int>>, dir: string, extract: int -> ImageData, p: nat)
    requires p < |pages|
    ensures SeenIn(pages[..p + 1], filter) == SeenIn(pages[..p], filter) + (if Selected(p + 1, filter) then Elems(pages[p]) else {})
    ensures DocRecords(pages[..p + 1], filter, dir, extract) == DocRecords(pages[..p], filter, dir, extract)
      + (if Selected(p + 1, filter) then PageRecords(dir, p + 1, FreshOf(SeenIn(pages[..p], filter), pages[p]), extract) else [])
  {
    assert pages[..p + 1][..p] == pages[..p];
    assert pages[..p + 1][p] == pages[p];
  }

  /**
   * The page loop: `seen_xrefs` is shared by the whole document and the
   * counter restarts on every page; the result is `DocRecords`.
   */
  method ExtractImages(pages: seq<seq<int>>, filter: Option<set<int>>, dir: string, extract: int -> ImageData)
    returns (results: seq<ImageRecord>)
    ensures results == DocRecords(pages, filter, dir, extract)
  {
    results := [];
    var seen: set<int> := {};
    for pidx := 0 to |pages|
      invariant seen == SeenIn(pages[..pidx], filter)
      invariant results == DocRecords(pages[..pidx], filter, dir, extract)
    {
      DocPrefix(pages, filter, dir, extract, pidx);
      var pnum := pidx + 1;
      if Selected(pnum, filter) {
        var imageList := pages[pidx];
        if imageList != [] {
          seen, results := ScanPage(dir, pnum, imageList, extract, seen, results);
        } else {
          assert Elems(imageList) == {};
        }
      }
    }
    assert pages[..|pages|] == pages;
  }

  // ---------------------------------------------------------------------
  // Properties of the records.
  // ---------------------------------------------------------------------

  /** The new xrefs of a page are distinct, none was seen before, and together with `seen` they cover the page. */
  lemma {:induction false} FreshOfFacts(seen: set<int>, xs: seq<int>)
    ensures forall i, j :: 0 <= i < j < |FreshOf(seen, xs)| ==> FreshOf(seen, xs)[i] != FreshOf(seen, xs)[j]
    ensures forall x :: x in FreshOf(seen, xs) <==> x in xs && x !in seen
  {
    if xs != [] {
      var init, x := xs[..|xs| - 1], xs[|xs| - 1];
      FreshOfFacts(seen, init);
      assert forall y :: y in xs <==> y in init || y == x;
    }
  }

  /** The xrefs of the records, in order. */
  function Xrefs(rs: seq<ImageRecord>): (r: seq<int>)
    ensures |r| == |rs| && forall i :: 0 <= i < |rs| ==> r[i] == rs[i].xref
  {
    if rs == [] then [] else Xrefs(rs[..|rs| - 1]) + [rs[|rs| - 1].xref]
  }

  predicate Distinct(xs: seq<int>)
  {
    forall i, j :: 0 <= i < j < |xs| ==> xs[i] != xs[j]
  }

  lemma PageRecordsXrefs(dir: string, pnum: nat, added: seq<int>, extract: int -> ImageData)
    ensures Xrefs(PageRecords(dir, pnum, added, extract)) == added
  {
    PageRecordsAt(dir, pnum, added, extract);
  }

  lemma DistinctAppend(a: seq<int>, b: seq<int>)
    requires Distinct(a) && Distinct(b)
    requires forall x :: x in b ==> x !in a
    ensures Distinct(a + b)
  {
    var c := a + b;
    forall i, j | 0 <= i < j < |c| ensures c[i] != c[j] {
      if j >= |a| && i < |a| {
        assert c[j] == b[j - |a|] && c[j] in b;
        assert c[i] == a[i];
      }
    }
  }

  /**
   * Every xref of a selected page gets exactly one entry in the whole
   * document, and no other xref gets one.
   */
  lemma {:induction false} DocRecordsXrefs(pages: seq<seq<int>>, filter: Option<set<int>>, dir: string,
                                           extract: int -> ImageData)
    ensures Distinct(Xrefs(DocRecords(pages, filter, dir, extract)))
    ensures forall x :: x in Xrefs(DocRecords(pages, filter, dir, extract)) <==> x in SeenIn(pages, filter)
  {
    if pages != [] {
      var n := |pages|;
      var init := pages[..n - 1];
      DocRecordsXrefs(init, filter, dir, extract);
      if Selected(n, filter) {
        var seen := SeenIn(init, filter);
        var added := FreshOf(seen, pages[n - 1]);
        var before := DocRecords(init, filter, dir, extract);
        var page := PageRecords(dir, n, added, extract);
        FreshOfFacts(seen, pages[n - 1]);
        PageRecordsXrefs(dir, n, added, extract);
        XrefsAppend(before, page);
        DistinctAppend(Xrefs(before), added);
      }
    }
  }

  lemma XrefsAppend(a: seq<ImageRecord>, b: seq<ImageRecord>)
    ensures Xrefs(a + b) == Xrefs(a) + Xrefs(b)
  {
    assert forall i :: 0 <= i < |a + b| ==> Xrefs(a + b)[i] == (Xrefs(a) + Xrefs(b))[i];
  }

  /**
   * The counter: each entry is on a selected page, pages never go back, and
   * within a page the entries are numbered 1, 2, ... in order.
   */
  predicate Numbered(rs: seq<ImageRecord>)
  {
    && (forall i :: 0 <= i < |rs| ==> rs[i].index >= 1)
    && (forall i :: 0 < i < |rs| ==> rs[i - 1].page <= rs[i].page)
    && (forall i :: 0 < i < |rs| ==>
          rs[i].index == (if rs[i - 1].page == rs[i].page then rs[i - 1].index + 1 else 1))
    && (rs != [] ==> rs[0].index == 1)
  }

  /** The entries of one page: all on page `n`, numbered 1, 2, ... */
  predicate Block(page: seq<ImageRecord>, n: int)
  {
    forall k :: 0 <= k < |page| ==> page[k].page == n && page[k].index == k + 1
  }

  lemma NumberedAppend(before: seq<ImageRecord>, page: seq<ImageRecord>, n: int)
    requires Numbered(before) && Block(page, n)
    requires forall i :: 0 <= i < |before| ==> before[i].page < n
    ensures Numbered(before + page)
  {
    var rs := before + page;
    forall i | 0 <= i < |rs| ensures rs[i].index >= 1 {
      if i < |before| {
        assert rs[i] == before[i];
      } else {
        assert rs[i] == page[i - |before|];
      }
    }
    forall i | 0 < i < |rs|
      ensures rs[i - 1].page <= rs[i].page
      ensures rs[i].index == (if rs[i - 1].page == rs[i].page then rs[i - 1].index + 1 else 1)
    {
      if i < |before| {
        assert rs[i - 1] == before[i - 1] && rs[i] == before[i];
      } else if i == |before| {
        assert rs[i] == page[0];
        assert rs[i - 1] == before[i - 1];
      } else {
        assert rs[i - 1] == page[i - 1 - |before|] && rs[i] == page[i - |before|];
      }
    }
    if before == [] && page != [] {
      assert rs[0] == page[0];
    }
  }

  /** Every entry is on a selected page of the document. */
  lemma {:induction false} DocRecordsPages(pages: seq<seq<int>>, filter: Option<set<int>>, dir: string,
                                           extract: int -> ImageData)
    ensures forall i :: 0 <= i < |DocRecords(pages, filter, dir, extract)| ==>
      1 <= DocRecords(pages, filter, dir, extract)[i].page <= |pages|
      && Selected(DocRecords(pages, filter, dir, extract)[i].page, filter)
  {
    if pages != [] {
      var n := |pages|;
      var init := pages[..n - 1];
      DocRecordsPages(init, filter, dir, extract);
      if Selected(n, filter) {
        var before := DocRecords(init, filter, dir, extract);
        var added := FreshOf(SeenIn(init, filter), pages[n - 1]);
        var page := PageRecords(dir, n, added, extract);
        PageRecordsAt(dir, n, added, extract);
        var rs := before + page;
        forall i | 0 <= i < |rs| ensures 1 <= rs[i].page <= n && Selected(rs[i].page, filter) {
          if i < |before| {
            assert rs[i] == before[i];
          } else {
            assert rs[i] == page[i - |before|];
          }
        }
      }
    }
  }

  /** The counter runs 1, 2, ... on every page and restarts on the next. */
  lemma {:induction false} DocRecordsNumbered(pages: seq<seq<int>>, filter: Option<set<int>>, dir: string,
                                              extract: int -> ImageData)
    ensures Numbered(DocRecords(pages, filter, dir, extract))
  {
    if pages != [] {
      var n := |pages|;
      var init := pages[..n - 1];
      DocRecordsNumbered(init, filter, dir, extract);
      if Selected(n, filter) {
        DocRecordsPages(init, filter, dir, extract);
        PageRecordsAt(dir, n, FreshOf(SeenIn(init, filter), pages[n - 1]), extract);
        NumberedAppend(DocRecords(init, filter, dir, extract),
          PageRecords(dir, n, FreshOf(SeenIn(init, filter), pages[n - 1]), extract), n);
      }
    }
  }

  // ---------------------------------------------------------------------
  // File names.
  // ---------------------------------------------------------------------

  lemma FileNameShape(p: nat, n: nat, e: string)
    ensures FileName(p, n, e) == "page" + (Decimal(p) + ['_'] + ("img" + (Decimal(n) + ['.'] + e)))
  {
  }

  lemma PrefixCancel(p: string, a: string, b: string)
    requires p + a == p + b
    ensures a == b
  {
    assert a == (p + a)[|p|..] && b == (p + b)[|p|..];
  }

  /** Different (page, counter) pairs give different file names, whatever the extensions. */
  lemma FileNameInjective(p1: nat, n1: nat, e1: string, p2: nat, n2: nat, e2: string)
    requires FileName(p1, n1, e1) == FileName(p2, n2, e2)
    ensures p1 == p2 && n1 == n2
  {
    var t1, t2 := Decimal(n1) + ['.'] + e1, Decimal(n2) + ['.'] + e2;
    var r1, r2 := "img" + t1, "img" + t2;
    FileNameShape(p1, n1, e1);
    FileNameShape(p2, n2, e2);
    PrefixCancel("page", Decimal(p1) + ['_'] + r1, Decimal(p2) + ['_'] + r2);
    DigitsBeforeMark(Decimal(p1), Decimal(p2), '_', r1, r2);
    DecimalInjective(p1, p2);
    PrefixCancel("img", t1, t2);
    DigitsBeforeMark(Decimal(n1), Decimal(n2), '.', e1, e2);
    DecimalInjective(n1, n2);
  }

  lemma JoinPathInjective(dir: string, a: string, b: string)
    requires JoinPath(dir, a) == JoinPath(dir, b)
    ensures a == b
  {
    var d := if dir == [] then [] else if dir[|dir| - 1] == '/' then dir else dir + "/";
    assert JoinPath(dir, a) == d + a && JoinPath(dir, b) == d + b;
    assert a == (d + a)[|d|..] && b == (d + b)[|d|..];
  }

  /**
   * No two entries of a document share a path: each image is written to a
   * file of its own.
   */
  lemma DocPathsDistinct(pages: seq<seq<int>>, filter: Option<set<int>>, dir: string, extract: int -> ImageData,
                         i: nat, j: nat)
    requires i < j < |DocRecords(pages, filter, dir, extract)|
    ensures DocRecords(pages, filter, dir, extract)[i].path != DocRecords(pages, filter, dir, extract)[j].path
  {
    var rs := DocRecords(pages, filter, dir, extract);
    DocRecordsNumbered(pages, filter, dir, extract);
    DocRecordsPaths(pages, filter, dir, extract);
    NumberedPairsDistinct(rs, i, j);
    if rs[i].path == rs[j].path {
      JoinPathInjective(dir, FileName(rs[i].page, rs[i].index, rs[i].ext), FileName(rs[j].page, rs[j].index, rs[j].ext));
      FileNameInjective(rs[i].page, rs[i].index, rs[i].ext, rs[j].page, rs[j].index, rs[j].ext);
    }
  }

  /** In a numbered list, no two entries share both page and counter. */
  lemma NumberedPairsDistinct(rs: seq<ImageRecord>, i: nat, j: nat)
    requires Numbered(rs) && i < j < |rs|
    ensures rs[i].page < rs[j].page || (rs[i].page == rs[j].page && rs[i].index < rs[j].index)
  {
    if j > i + 1 {
      NumberedPairsDistinct(rs, i, j - 1);
    }
  }

  /** Every entry's path is its file name under the output directory, and its counter is positive. */
  lemma {:induction false} DocRecordsPaths(pages: seq<seq<int>>, filter: Option<set<int>>, dir: string,
                                           extract: int -> ImageData)
    ensures forall i :: 0 <= i < |DocRecords(pages, filter, dir, extract)| ==>
      var r := DocRecords(pages, filter, dir, extract)[i];
      r.page >= 1 && r.index >= 1 && r.path == JoinPath(dir, FileName(r.page, r.index, r.ext))
      && r.ext == extract(r.xref).ext.GetOr("png")
  {
    if pages != [] {
      var n := |pages|;
      var init := pages[..n - 1];
      DocRecordsPaths(init, filter, dir, extract);
      if Selected(n, filter) {
        var before := DocRecords(init, filter, dir, extract);
        var added := FreshOf(SeenIn(init, filter), pages[n - 1]);
        var page := PageRecords(dir, n, added, extract);
        PageRecordsAt(dir, n, added, extract);
        var rs := before + page;
        forall i | 0 <= i < |rs|
          ensures rs[i].page >= 1 && rs[i].index >= 1 && rs[i].path == JoinPath(dir, FileName(rs[i].page, rs[i].index, rs[i].ext))
          ensures rs[i].ext == extract(rs[i].xref).ext.GetOr("png")
        {
          if i < |before| {
            assert rs[i] == before[i];
          } else {
            assert rs[i] == page[i - |before|];
          }
        }
      }
    }
  }
}
