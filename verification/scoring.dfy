/**
 * The heading classifier's arithmetic: page-level size statistics and the
 * four clamped component scores of a visual line, combined by fixed weights.
 * Reals are exact; `round(x, 1)`, `str.isalpha` and `str.isupper` are the
 * abstract primitives collected in `Env`.
 */
module Scoring {
  import opened Wrappers
  import opened Text
  import opened Lines

  /** The tunable thresholds of the classifier. */
  datatype Config = Config(topFraction: real, scoreThreshold: real)

  /** The defaults: the top quarter of the page is the header zone; 0.45 makes a heading. */
  const Defaults := Config(0.25, 0.45)

  /** Primitives taken as given: rounding to one decimal, and the Unicode letter tests. */
  datatype Env = Env(round1: real -> real, isAlpha: char -> bool, isUpper: char -> bool)

  // ---------------------------------------------------------------------
  // Sequences of reals: maximum, count, sort.
  // ---------------------------------------------------------------------

  /** `max(s)`. */
  function Max(s: seq<real>): (m: real)
    requires s != []
    ensures exists i :: 0 <= i < |s| && s[i] == m
    ensures forall i :: 0 <= i < |s| ==> s[i] <= m
  {
    if |s| == 1 then s[0]
    else
      var rest := Max(s[1..]);
      assert forall i :: 1 <= i < |s| ==> s[i] == s[1..][i - 1];
      if s[0] >= rest then s[0] else rest
  }

  /** `x < m` when `strict`, else `x <= m`. */
  predicate Below(x: real, m: real, strict: bool)
  {
    if strict then x < m else x <= m
  }

  /** How many elements of `s` lie below `m`. */
  function Count(s: seq<real>, m: real, strict: bool): (n: nat)
    ensures n <= |s|
  {
    if s == [] then 0 else (if Below(s[0], m, strict) then 1 else 0) + Count(s[1..], m, strict)
  }

  lemma {:induction false} CountAppend(a: seq<real>, b: seq<real>, m: real, strict: bool)
    ensures Count(a + b, m, strict) == Count(a, m, strict) + Count(b, m, strict)
  {
    if a != [] {
      CountAppend(a[1..], b, m, strict);
      assert (a + b)[1..] == a[1..] + b;
    } else {
      assert a + b == b;
    }
  }

  lemma CountRemove(b: seq<real>, j: nat, m: real, strict: bool)
    requires j < |b|
    ensures Count(b, m, strict) == Count(b[..j] + b[j + 1..], m, strict) + (if Below(b[j], m, strict) then 1 else 0)
    ensures multiset(b[..j] + b[j + 1..]) == multiset(b) - multiset{b[j]}
  {
    assert b == b[..j] + ([b[j]] + b[j + 1..]);
    CountAppend(b[..j], [b[j]] + b[j + 1..], m, strict);
    CountAppend([b[j]], b[j + 1..], m, strict);
    CountAppend(b[..j], b[j + 1..], m, strict);
  }

  /** A count depends only on the multiset of elements. */
  lemma {:induction false} CountPermutation(a: seq<real>, b: seq<real>, m: real, strict: bool)
    requires multiset(a) == multiset(b)
    ensures Count(a, m, strict) == Count(b, m, strict)
  {
    if a == [] {
      assert |b| == |multiset(b)| == 0;
    } else {
      var x := a[0];
      assert x in multiset(b);
      var j :| 0 <= j < |b| && b[j] == x;
      CountRemove(b, j, m, strict);
      assert a == [x] + a[1..];
      assert multiset(a[1..]) == multiset(a) - multiset{x};
      CountPermutation(a[1..], b[..j] + b[j + 1..], m, strict);
    }
  }

  predicate Sorted(s: seq<real>)
  {
    forall i, j :: 0 <= i < j < |s| ==> s[i] <= s[j]
  }

  lemma SortedCons(h: real, t: seq<real>)
    requires Sorted(t)
    requires forall y :: y in t ==> h <= y
    ensures Sorted([h] + t)
  {
    var r := [h] + t;
    forall i, j | 0 <= i < j < |r| ensures r[i] <= r[j] {
      if i == 0 {
        assert r[j] == t[j - 1] && t[j - 1] in t;
      } else {
        assert r[i] == t[i - 1] && r[j] == t[j - 1];
      }
    }
  }

  function Insert(x: real, s: seq<real>): (r: seq<real>)
    requires Sorted(s)
    ensures Sorted(r)
    ensures |r| == |s| + 1
    ensures forall y :: y in r ==> y == x || y in s
    ensures multiset(r) == multiset(s) + multiset{x}
  {
    if s == [] || x <= s[0] then
      SortedCons(x, s);
      [x] + s
    else
      SortedTail(s);
      var rest := Insert(x, s[1..]);
      assert s == [s[0]] + s[1..];
      SortedCons(s[0], rest);
      [s[0]] + rest
  }

  /** The tail of a sorted sequence is sorted and bounded below by the head. */
  lemma SortedTail(s: seq<real>)
    requires Sorted(s) && s != []
    ensures Sorted(s[1..])
    ensures forall y :: y in s[1..] ==> s[0] <= y
  {
    forall y | y in s[1..] ensures s[0] <= y {
      var k :| 0 <= k < |s[1..]| && s[1..][k] == y;
      assert s[k + 1] == y;
    }
  }

  /** `sorted(s)`: an ascending rearrangement of `s`. */
  function SortReals(s: seq<real>): (r: seq<real>)
    ensures Sorted(r)
    ensures |r| == |s|
    ensures multiset(r) == multiset(s)
  {
    if s == [] then []
    else
      assert s == [s[0]] + s[1..];
      Insert(s[0], SortReals(s[1..]))
  }

  // ---------------------------------------------------------------------
  // Page statistics.
  // ---------------------------------------------------------------------

  /** `[round(s, 1) for s in sizes if s > 0]` over the page's glyphs. */
  function PositiveSizes(chars: seq<Glyph>, round1: real -> real): (sizes: seq<real>)
    ensures |sizes| <= |chars|
    ensures sizes == [] <==> forall i :: 0 <= i < |chars| ==> chars[i].size <= 0.0
  {
    if chars == [] then []
    else
      var c := chars[|chars| - 1];
      var rest := PositiveSizes(chars[..|chars| - 1], round1);
      assert forall i :: 0 <= i < |chars| - 1 ==> chars[i] == chars[..|chars| - 1][i];
      if c.size > 0.0 then rest + [round1(c.size)] else rest
  }

  /** The size statistics a page contributes: the largest size and the lower median. */
  datatype Stats = Stats(largest: real, median: real)

  function Median(sizes: seq<real>): (m: real)
    requires sizes != []
    ensures exists i :: 0 <= i < |sizes| && sizes[i] == m
  {
    var sorted := SortReals(sizes);
    assert sorted[|sizes| / 2] in multiset(sizes);
    assert sorted[|sizes| / 2] in sizes;
    sorted[|sizes| / 2]
  }

  /**
   * The lower median is an order statistic: at most `n/2` sizes lie strictly
   * below it and more than `n/2` lie at or below it.
   */
  lemma MedianIsLowerMiddle(sizes: seq<real>)
    requires sizes != []
    ensures Count(sizes, Median(sizes), true) <= |sizes| / 2
    ensures Count(sizes, Median(sizes), false) >= |sizes| / 2 + 1
  {
    var sorted := SortReals(sizes);
    var h := |sizes| / 2;
    var m := sorted[h];
    assert m == Median(sizes);
    SortedSplit(sorted, h);
    CountPermutation(sorted, sizes, m, true);
    CountPermutation(sorted, sizes, m, false);
  }

  /** In an ascending sequence, at most `h` elements lie below `s[h]` and at least `h + 1` at or below it. */
  lemma SortedSplit(s: seq<real>, h: nat)
    requires Sorted(s) && h < |s|
    ensures Count(s, s[h], true) <= h
    ensures Count(s, s[h], false) >= h + 1
  {
    SortedBelow(s, h);
    SortedAtMost(s, h);
  }

  lemma SortedBelow(s: seq<real>, h: nat)
    requires Sorted(s) && h < |s|
    ensures Count(s, s[h], true) <= h
  {
    assert forall i :: h <= i < |s| ==> s[h] <= s[i];
    CountBelowPrefix(s, h);
  }

  lemma SortedAtMost(s: seq<real>, h: nat)
    requires Sorted(s) && h < |s|
    ensures Count(s, s[h], false) >= h + 1
  {
    assert forall i :: 0 <= i <= h ==> s[i] <= s[h];
    CountAtMostPrefix(s, h);
  }

  /** When nothing from index `h` on lies below `s[h]`, at most `h` elements do. */
  lemma CountBelowPrefix(s: seq<real>, h: nat)
    requires h < |s|
    requires forall i :: h <= i < |s| ==> s[h] <= s[i]
    ensures Count(s, s[h], true) <= h
  {
    CountAtMostLeading(s, s[h], true, h);
  }

  /** When everything up to index `h` lies at or below `s[h]`, at least `h + 1` elements do. */
  lemma CountAtMostPrefix(s: seq<real>, h: nat)
    requires h < |s|
    requires forall i :: 0 <= i <= h ==> s[i] <= s[h]
    ensures Count(s, s[h], false) >= h + 1
  {
    CountAtLeastLeading(s, s[h], false, h + 1);
  }

  /** If only the first `n` elements may lie below `m`, at most `n` do. */
  lemma {:induction false} CountAtMostLeading(s: seq<real>, m: real, strict: bool, n: nat)
    requires n <= |s|
    requires forall i :: n <= i < |s| ==> !Below(s[i], m, strict)
    ensures Count(s, m, strict) <= n
  {
    if s != [] {
      if n == 0 {
        NoneSatisfy(s, m, strict);
      } else {
        CountAtMostLeading(s[1..], m, strict, n - 1);
      }
    }
  }

  /** If the first `n` elements all lie below `m`, at least `n` do. */
  lemma {:induction false} CountAtLeastLeading(s: seq<real>, m: real, strict: bool, n: nat)
    requires n <= |s|
    requires forall i :: 0 <= i < n ==> Below(s[i], m, strict)
    ensures Count(s, m, strict) >= n
  {
    if n > 0 {
      CountAtLeastLeading(s[1..], m, strict, n - 1);
    }
  }

  lemma {:induction false} NoneSatisfy(s: seq<real>, m: real, strict: bool)
    requires forall i :: 0 <= i < |s| ==> !Below(s[i], m, strict)
    ensures Count(s, m, strict) == 0
  {
    if s != [] {
      NoneSatisfy(s[1..], m, strict);
    }
  }

  /**
   * The page statistics, or None when the page has no positive glyph size
   * (such a page contributes no lines).
   */
  function PageStats(chars: seq<Glyph>, round1: real -> real): (st: Option<Stats>)
    ensures st.None? <==> PositiveSizes(chars, round1) == []
  {
    var sizes := PositiveSizes(chars, round1);
    if sizes == [] then None else Some(Stats(Max(sizes), Median(sizes)))
  }

  /**
   * A page without glyphs or without a positive size has no statistics;
   * otherwise the largest size is the maximum of the positive sizes and the
   * median is one of them, hence at most the largest.
   */
  lemma PageStatsFacts(chars: seq<Glyph>, round1: real -> real)
    ensures chars == [] ==> PageStats(chars, round1).None?
    ensures PageStats(chars, round1).None? <==> forall g :: g in chars ==> g.size <= 0.0
    ensures PageStats(chars, round1).Some? ==>
      var st, sizes := PageStats(chars, round1).value, PositiveSizes(chars, round1);
      st.median in sizes && st.largest in sizes && st.median <= st.largest
      && (forall x :: x in sizes ==> x <= st.largest)
      && st.median == SortReals(sizes)[|sizes| / 2]
  {
  }

  // ---------------------------------------------------------------------
  // Component scores.
  // ---------------------------------------------------------------------

  /** `max(0.0, min(1.0, x))`. */
  function Clamp01(x: real): (r: real)
    ensures 0.0 <= r <= 1.0
    ensures 0.0 <= x <= 1.0 ==> r == x
    ensures x < 0.0 ==> r == 0.0
    ensures x > 1.0 ==> r == 1.0
  {
    if x < 0.0 then 0.0 else if x > 1.0 then 1.0 else x
  }

  /** How far the line's size stands above the median, relative to the spread up to the largest size. */
  function SizeScore(avgSize: real, st: Stats): (r: real)
    ensures 0.0 <= r <= 1.0
    ensures avgSize <= st.median ==> r == 0.0
    ensures st.largest - st.median >= 0.1 && avgSize >= st.largest ==> r == 1.0
  {
    var denom := if 0.1 >= st.largest - st.median then 0.1 else st.largest - st.median;
    var raw := if denom > 0.0 then (avgSize - st.median) / denom else 1.0;
    QuotientSign(avgSize - st.median, denom);
    Clamp01(raw)
  }

  /** A non-positive numerator gives a non-positive quotient; a numerator at least the denominator gives at least 1. */
  lemma QuotientSign(a: real, d: real)
    requires d > 0.0
    ensures a <= 0.0 ==> a / d <= 0.0
    ensures a >= d ==> a / d >= 1.0
  {
    var q := a / d;
    assert q * d == a;
    assert q > 0.0 ==> q * d > 0.0;
    assert q < 1.0 ==> q * d < d;
  }

  /** A larger line never gets a smaller size score. */
  lemma SizeScoreMonotone(a: real, b: real, st: Stats)
    requires a <= b
    ensures SizeScore(a, st) <= SizeScore(b, st)
  {
    var denom := if 0.1 >= st.largest - st.median then 0.1 else st.largest - st.median;
    QuotientMonotone(a - st.median, b - st.median, denom);
  }

  /** Dividing by a positive number keeps the order. */
  lemma QuotientMonotone(x: real, y: real, d: real)
    requires d > 0.0 && x <= y
    ensures x / d <= y / d
  {
    var p, q := x / d, y / d;
    assert p * d == x && q * d == y;
    assert (p - q) * d == p * d - q * d;
    assert p - q > 0.0 ==> (p - q) * d > 0.0;
  }

  /** The font names the classifier treats as bold: `Bold|Black|Heavy|Bd`, ignoring case. */
  predicate BoldFont(f: string)
  {
    ContainsFolded(f, "bold") || ContainsFolded(f, "black")
    || ContainsFolded(f, "heavy") || ContainsFolded(f, "bd")
  }

  /** Searching the space-joined font names is the same as searching each name. */
  lemma {:induction false} BoldInJoinedFonts(fonts: seq<string>)
    ensures BoldFont(JoinSpace(fonts)) <==> exists f :: f in fonts && BoldFont(f)
  {
    if |fonts| == 0 {
      assert !ContainsFolded([], "bold") && !ContainsFolded([], "black");
      assert !ContainsFolded([], "heavy") && !ContainsFolded([], "bd");
    } else if |fonts| == 1 {
      assert fonts[0] in fonts;
    } else {
      var rest := fonts[1..];
      BoldInJoinedFonts(rest);
      ContainsAcrossSpace(fonts[0], JoinSpace(rest), "bold");
      ContainsAcrossSpace(fonts[0], JoinSpace(rest), "black");
      ContainsAcrossSpace(fonts[0], JoinSpace(rest), "heavy");
      ContainsAcrossSpace(fonts[0], JoinSpace(rest), "bd");
      assert BoldFont(JoinSpace(fonts)) <==> BoldFont(fonts[0]) || BoldFont(JoinSpace(rest));
      if BoldFont(fonts[0]) {
        assert fonts[0] in fonts;
      }
      if exists f :: f in rest && BoldFont(f) {
        var f :| f in rest && BoldFont(f);
        assert f in fonts;
      }
      if exists f :: f in fonts && BoldFont(f) {
        var f :| f in fonts && BoldFont(f);
        if f != fonts[0] {
          assert f in rest;
        }
      }
    }
  }

  /** 1 exactly when some glyph's font name matches the bold pattern, else 0. */
  function BoldScore(fonts: seq<string>): (r: real)
    ensures r == 0.0 || r == 1.0
    ensures r == 1.0 <==> exists f :: f in fonts && BoldFont(f)
  {
    BoldInJoinedFonts(fonts);
    if BoldFont(JoinSpace(fonts)) then 1.0 else 0.0
  }

  /**
   * Higher on the page scores higher; anything in the header zone scores at
   * least 0.85; an unknown (zero) page height scores 0.
   */
  function PosScore(top: real, pageHeight: real, topFraction: real): (r: real)
    ensures pageHeight == 0.0 ==> r == 0.0
    ensures 0.0 <= r
    ensures pageHeight != 0.0 && top <= pageHeight * topFraction ==> r >= 0.85
    ensures 0.0 <= top && 0.0 <= pageHeight ==> r <= 1.0
  {
    if pageHeight != 0.0 then
      var linear := 1.0 - top / pageHeight;
      var pos := if 0.0 >= linear then 0.0 else linear;
      if top <= pageHeight * topFraction then (if pos >= 0.85 then pos else 0.85) else pos
    else 0.0
  }

  /** On a page of known height, a line higher up never gets a smaller position score. */
  lemma PosScoreMonotone(t1: real, t2: real, pageHeight: real, topFraction: real)
    requires t1 <= t2
    requires 0.0 < pageHeight
    ensures PosScore(t1, pageHeight, topFraction) >= PosScore(t2, pageHeight, topFraction)
  {
    QuotientMonotone(t1, t2, pageHeight);
  }

  function Filter(s: string, p: char -> bool): (r: string)
    ensures |r| <= |s|
    ensures forall c :: c in r <==> c in s && p(c)
    ensures r == [] <==> forall c :: c in s ==> !p(c)
  {
    if s == [] then []
    else
      assert forall c :: c in s <==> c == s[0] || c in s[1..];
      (if p(s[0]) then [s[0]] else []) + Filter(s[1..], p)
  }

  /**
   * The share of upper-case letters among the letters, scaled by 1.2 and
   * capped at 1; a line without letters scores 0.
   */
  function UpperScore(text: string, env: Env): (r: real)
    ensures 0.0 <= r <= 1.0
  {
    var alpha := Filter(text, env.isAlpha);
    var upper := Filter(alpha, env.isUpper);
    var ratio := if alpha != [] then (|upper| as real) / (|alpha| as real) else 0.0;
    assert 0.0 <= ratio by {
      if alpha != [] {
        RatioBounds(|upper|, |alpha|);
      }
    }
    var scaled := ratio * 1.2;
    if 1.0 <= scaled then 1.0 else scaled
  }

  lemma RatioBounds(part: nat, whole: nat)
    requires 0 < whole && part <= whole
    ensures 0.0 <= (part as real) / (whole as real) <= 1.0
    ensures part == whole ==> (part as real) / (whole as real) == 1.0
  {
  }

  /** A line with no letters has upper score 0. */
  lemma UpperScoreNoLetters(text: string, env: Env)
    requires forall c :: c in text ==> !env.isAlpha(c)
    ensures UpperScore(text, env) == 0.0
  {
    var alpha := Filter(text, env.isAlpha);
  }

  /** A line whose letters are all lower case has upper score 0. */
  lemma UpperScoreNoCapitals(text: string, env: Env)
    requires forall c :: c in text && env.isAlpha(c) ==> !env.isUpper(c)
    ensures UpperScore(text, env) == 0.0
  {
    var upper := Filter(Filter(text, env.isAlpha), env.isUpper);
  }

  /** A line with letters, all of them capitals, has upper score 1. */
  lemma UpperScoreAllCapitals(text: string, env: Env)
    requires exists c :: c in text && env.isAlpha(c)
    requires forall c :: c in text && env.isAlpha(c) ==> env.isUpper(c)
    ensures UpperScore(text, env) == 1.0
  {
    var alpha := Filter(text, env.isAlpha);
    var c :| c in text && env.isAlpha(c);
    assert c in alpha;
    FilterKeepsAll(alpha, env.isUpper);
    RatioBounds(|alpha|, |alpha|);
  }

  lemma {:induction false} FilterKeepsAll(s: string, p: char -> bool)
    requires forall c :: c in s ==> p(c)
    ensures Filter(s, p) == s
  {
    if s != [] {
      var rest := s[1..];
      forall c | c in rest ensures p(c) {
        assert c in s;
      }
      FilterKeepsAll(rest, p);
      assert s[0] in s;
      assert Filter(s, p) == [s[0]] + Filter(rest, p);
      assert [s[0]] + rest == s;
    }
  }

  /** The weighted sum; the weights add up to 1, so the total stays in [0, 1]. */
  function Weighted(sizeScore: real, boldScore: real, posScore: real, upperScore: real): (r: real)
    ensures 0.0 <= sizeScore <= 1.0 && 0.0 <= boldScore <= 1.0 && 0.0 <= posScore <= 1.0 && 0.0 <= upperScore <= 1.0
            ==> 0.0 <= r <= 1.0
  {
    0.6 * sizeScore + 0.2 * boldScore + 0.15 * posScore + 0.05 * upperScore
  }

  // ---------------------------------------------------------------------
  // A scored line.
  // ---------------------------------------------------------------------

  /** One entry of the debug list: a visual line with its scores and classification. */
  datatype ScoredLine = ScoredLine(
    page: int, top: real, pageHeight: real, text: string, avgSize: real, largestSize: real,
    sizeScore: real, boldScore: real, posScore: real, upperScore: real,
    score: real, isHeading: bool)

  function Texts(line: seq<Glyph>): (r: seq<string>)
    ensures |r| == |line| && forall i :: 0 <= i < |line| ==> r[i] == line[i].text
  {
    if line == [] then [] else Texts(line[..|line| - 1]) + [line[|line| - 1].text]
  }

  function Fonts(line: seq<Glyph>): (r: seq<string>)
    ensures |r| == |line| && forall i :: 0 <= i < |line| ==> r[i] == line[i].fontName
  {
    if line == [] then [] else Fonts(line[..|line| - 1]) + [line[|line| - 1].fontName]
  }

  function SumSizes(line: seq<Glyph>): real
  {
    if line == [] then 0.0 else SumSizes(line[..|line| - 1]) + line[|line| - 1].size
  }

  lemma BoldFontsOfLine(line: seq<Glyph>)
    ensures (exists f :: f in Fonts(line) && BoldFont(f)) <==> exists g :: g in line && BoldFont(g.fontName)
  {
    var fonts := Fonts(line);
    if exists f :: f in fonts && BoldFont(f) {
      var f :| f in fonts && BoldFont(f);
      var i :| 0 <= i < |fonts| && fonts[i] == f;
      assert line[i] in line;
    }
    if exists g :: g in line && BoldFont(g.fontName) {
      var g :| g in line && BoldFont(g.fontName);
      var i :| 0 <= i < |line| && line[i] == g;
      assert fonts[i] in fonts;
    }
  }

  /** The stripped text of a visual line: its glyph texts joined and stripped. */
  function LineText(line: seq<Glyph>): (t: string)
    ensures IsStripped(t)
  {
    Strip(Concat(Texts(line)))
  }

  /**
   * Scores one visual line (the glyphs keyed `top` on page `page`) against
   * the page statistics and classifies it.
   */
  function ScoreLine(page: int, top: real, line: seq<Glyph>, st: Stats, pageHeight: real, cfg: Config, env: Env)
    : (r: ScoredLine)
    ensures r.page == page && r.top == top
  {
    var text := LineText(line);
    var count := if 1 >= |line| then 1 else |line|;
    var avgSize := env.round1(SumSizes(line) / (count as real));
    var sizeScore := SizeScore(avgSize, st);
    var fonts := Fonts(line);
    var boldScore := BoldScore(fonts);
    var posScore := PosScore(top, pageHeight, cfg.topFraction);
    var upperScore := UpperScore(text, env);
    var score := Weighted(sizeScore, boldScore, posScore, upperScore);
    ScoredLine(page, top, pageHeight, text, avgSize, st.largest,
               sizeScore, boldScore, posScore, upperScore, score, score >= cfg.scoreThreshold)
  }

  /**
   * What the classifier promises of a scored line: each component lies in
   * [0, 1] (the position score given a non-negative `top` and page height),
   * the bold score is 1 exactly when some glyph's font is bold, an unknown
   * page height gives position score 0, the weighted total lies in [0, 1],
   * and the line is a heading exactly when its total reaches the threshold.
   */
  lemma ScoreLineFacts(page: int, top: real, line: seq<Glyph>, st: Stats, pageHeight: real, cfg: Config, env: Env)
    ensures var r := ScoreLine(page, top, line, st, pageHeight, cfg, env);
      && r.pageHeight == pageHeight && r.largestSize == st.largest
      && r.text == LineText(line)
      && 0.0 <= r.sizeScore <= 1.0 && 0.0 <= r.upperScore <= 1.0 && 0.0 <= r.posScore
      && (r.boldScore == 0.0 || r.boldScore == 1.0)
      && (r.boldScore == 1.0 <==> exists g :: g in line && BoldFont(g.fontName))
      && (pageHeight == 0.0 ==> r.posScore == 0.0)
      && (0.0 <= top && 0.0 <= pageHeight ==> r.posScore <= 1.0 && 0.0 <= r.score <= 1.0)
      && (r.isHeading <==> r.score >= cfg.scoreThreshold)
  {
    BoldFontsOfLine(line);
  }

  /**
   * With the default weights and threshold, size decides: bold, position and
   * case together weigh at most 0.4, below 0.45, so a line no larger than the
   * page median is never a heading.
   */
  lemma DefaultsNeedSize(page: int, top: real, line: seq<Glyph>, st: Stats, pageHeight: real, env: Env)
    requires 0.0 <= top && 0.0 <= pageHeight
    requires ScoreLine(page, top, line, st, pageHeight, Defaults, env).avgSize <= st.median
    ensures !ScoreLine(page, top, line, st, pageHeight, Defaults, env).isHeading
  {
    var r := ScoreLine(page, top, line, st, pageHeight, Defaults, env);
    ScoreLineFacts(page, top, line, st, pageHeight, Defaults, env);
    assert r.sizeScore == 0.0;
    assert r.score <= 0.4;
  }

  /**
   * With the default weights and threshold, a line at the largest size of a
   * page whose sizes spread by at least 0.1 is always a heading: its size
   * score alone weighs 0.6.
   */
  lemma DefaultsLargestIsHeading(page: int, top: real, line: seq<Glyph>, st: Stats, pageHeight: real, env: Env)
    requires st.largest - st.median >= 0.1
    requires ScoreLine(page, top, line, st, pageHeight, Defaults, env).avgSize >= st.largest
    ensures ScoreLine(page, top, line, st, pageHeight, Defaults, env).isHeading
  {
    var r := ScoreLine(page, top, line, st, pageHeight, Defaults, env);
    ScoreLineFacts(page, top, line, st, pageHeight, Defaults, env);
    assert r.sizeScore == 1.0;
    assert r.score >= 0.6;
  }
}
