/**
 * Glyph line aggregation: a page's character records are grouped into
 * visual lines keyed by their rounded `top`, and the keys are visited in
 * ascending order.
 */
module Lines {

  /** One character record of a page: its text, vertical offset from the page top, font size and font name. */
  datatype Glyph = Glyph(text: string, top: real, size: real, fontName: string)

  /** The glyphs whose rounded `top` is `k`, in page order: one visual line. */
  function LineOf(chars: seq<Glyph>, key: real -> real, k: real): (line: seq<Glyph>)
    ensures |line| <= |chars|
  {
    if chars == [] then []
    else
      var c := chars[|chars| - 1];
      var init := LineOf(chars[..|chars| - 1], key, k);
      if key(c.top) == k then init + [c] else init
  }

  /**
   * A line holds exactly the page's glyphs whose rounded `top` is its key, each
   * as many times as it occurs on the page: every glyph record goes to the line
   * of its own key and to no other, so the lines partition the page.
   */
  lemma {:induction false} LineOfMembers(chars: seq<Glyph>, key: real -> real, k: real)
    ensures forall g :: g in LineOf(chars, key, k) <==> g in chars && key(g.top) == k
    ensures forall g :: multiset(LineOf(chars, key, k))[g] == if key(g.top) == k then multiset(chars)[g] else 0
  {
    if chars != [] {
      var init := chars[..|chars| - 1];
      LineOfMembers(init, key, k);
      assert chars == init + [chars[|chars| - 1]];
      assert forall g :: g in chars <==> g in init || g == chars[|chars| - 1];
    }
  }

  /** The positions on the page of the glyphs whose rounded `top` is `k`, in increasing order. */
  function LineIndices(chars: seq<Glyph>, key: real -> real, k: real): (idx: seq<nat>)
    ensures forall i :: 0 <= i < |idx| ==> idx[i] < |chars| && key(chars[idx[i]].top) == k
    ensures forall i, j :: 0 <= i < j < |idx| ==> idx[i] < idx[j]
    ensures forall p :: 0 <= p < |chars| && key(chars[p].top) == k ==> p in idx
  {
    if chars == [] then []
    else
      var n := |chars| - 1;
      var init := LineIndices(chars[..n], key, k);
      assert forall i :: 0 <= i < |init| ==> chars[init[i]] == chars[..n][init[i]];
      assert forall p :: 0 <= p < n ==> chars[p] == chars[..n][p];
      if key(chars[n].top) == k then init + [n] else init
  }

  /**
   * A line is the sub-list of the page's glyphs at the matching positions:
   * it keeps their page order and leaves none out.
   */
  lemma {:induction false} LineOfIndices(chars: seq<Glyph>, key: real -> real, k: real)
    ensures |LineOf(chars, key, k)| == |LineIndices(chars, key, k)|
    ensures forall i :: 0 <= i < |LineOf(chars, key, k)| ==> LineOf(chars, key, k)[i] == chars[LineIndices(chars, key, k)[i]]
  {
    if chars != [] {
      var n := |chars| - 1;
      LineOfIndices(chars[..n], key, k);
      var line, idx := LineOf(chars[..n], key, k), LineIndices(chars[..n], key, k);
      forall i | 0 <= i < |line|
        ensures line[i] == chars[idx[i]]
      {
        assert chars[..n][idx[i]] == chars[idx[i]];
      }
      if key(chars[n].top) == k {
        assert LineOf(chars, key, k) == line + [chars[n]];
        assert LineIndices(chars, key, k) == idx + [n];
      } else {
        assert LineOf(chars, key, k) == line;
        assert LineIndices(chars, key, k) == idx;
      }
    }
  }

  /** The rounded `top` values that occur on the page. */
  function KeySet(chars: seq<Glyph>, key: real -> real): (keys: set<real>)
    ensures forall k :: k in keys <==> exists g :: g in chars && key(g.top) == k
  {
    set g | g in chars :: key(g.top)
  }

  /** A key names a non-empty line exactly when some glyph rounds to it. */
  lemma LineOfNonEmpty(chars: seq<Glyph>, key: real -> real, k: real)
    ensures LineOf(chars, key, k) != [] <==> k in KeySet(chars, key)
  {
    var line := LineOf(chars, key, k);
    LineOfMembers(chars, key, k);
    if line != [] {
      assert line[0] in line;
    }
    if k in KeySet(chars, key) {
      var g :| g in chars && key(g.top) == k;
      assert g in line;
    }
  }

  /**
   * The `lines_map` loop: every glyph is appended to the line keyed by its
   * rounded `top`, and to no other line.
   */
  method GroupByTop(chars: seq<Glyph>, key: real -> real) returns (linesMap: map<real, seq<Glyph>>)
    ensures linesMap.Keys == KeySet(chars, key)
    ensures forall k :: k in linesMap ==> linesMap[k] == LineOf(chars, key, k) && linesMap[k] != []
  {
    linesMap := map[];
    for i := 0 to |chars|
      invariant linesMap.Keys == KeySet(chars[..i], key)
      invariant forall k :: k in linesMap ==> linesMap[k] == LineOf(chars[..i], key, k)
    {
      var c := chars[i];
      var topKey := key(c.top);
      assert chars[..i + 1][..i] == chars[..i];
      assert chars[..i + 1] == chars[..i] + [c];
      if topKey !in linesMap {
        LineOfNonEmpty(chars[..i], key, topKey);
        linesMap := linesMap[topKey := []];
      }
      linesMap := linesMap[topKey := linesMap[topKey] + [c]];
    }
    assert chars[..|chars|] == chars;
    forall k | k in linesMap ensures linesMap[k] != [] {
      LineOfNonEmpty(chars, key, k);
    }
  }

  predicate StrictlyAscending(s: seq<real>)
  {
    forall i, j :: 0 <= i < j < |s| ==> s[i] < s[j]
  }

  predicate IsLeast(m: real, s: set<real>)
  {
    m in s && forall k :: k in s ==> m <= k
  }

  lemma EmptyOrHasElement(s: set<real>)
    ensures s == {} || exists x :: x in s
  {
    if forall x :: x !in s {
      assert s == {};
    }
  }

  /** A non-empty finite set of reals has a least element. */
  lemma {:induction false} MinimumExists(s: set<real>)
    requires s != {}
    ensures exists m :: IsLeast(m, s)
  {
    EmptyOrHasElement(s);
    var x :| x in s;
    if s == {x} {
      assert IsLeast(x, s);
    } else {
      var rest := s - {x};
      MinimumExists(rest);
      var m :| IsLeast(m, rest);
      var least := if x < m then x else m;
      forall k | k in s ensures least <= k {
        if k != x {
          assert k in rest;
        }
      }
      assert IsLeast(least, s);
    }
  }

  /** `sorted(lines_map.keys())`: the keys, each once, in strictly ascending order. */
  method SortKeys(keys: set<real>) returns (sorted: seq<real>)
    ensures StrictlyAscending(sorted)
    ensures forall k :: k in sorted <==> k in keys
  {
    sorted := [];
    var rest := keys;
    while rest != {}
      invariant rest <= keys
      invariant forall k :: k in keys <==> k in sorted || k in rest
      invariant StrictlyAscending(sorted)
      invariant forall i, k :: 0 <= i < |sorted| && k in rest ==> sorted[i] < k
      decreases |rest|
    {
      MinimumExists(rest);
      var m :| IsLeast(m, rest);
      sorted := sorted + [m];
      rest := rest - {m};
    }
  }
}
