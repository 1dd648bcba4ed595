/**
 * The string primitives the parser relies on: `str.strip()`, `"\n".join`,
 * `str.split("\n")`, `" ".join`, decimal formatting of integers and the
 * case-insensitive substring search behind the bold-font test.
 * Strings are sequences of Unicode scalar values.
 */
module Text {

  /** The characters Python's `str.isspace` accepts, which `str.strip()` removes. */
  predicate IsSpace(c: char)
  {
    c == ' ' || c == '\t' || c == '\n' || c == '\r' || c == '\U{B}' || c == '\U{C}'
    || ('\U{1C}' <= c <= '\U{1F}') || c == '\U{85}' || c == '\U{A0}' || c == '\U{1680}'
    || ('\U{2000}' <= c <= '\U{200A}') || c == '\U{2028}' || c == '\U{2029}'
    || c == '\U{202F}' || c == '\U{205F}' || c == '\U{3000}'
  }

  predicate AllSpace(s: string)
  {
    forall i :: 0 <= i < |s| ==> IsSpace(s[i])
  }

  /** A string that `strip()` leaves alone: empty, or non-blank at both ends. */
  predicate IsStripped(s: string)
  {
    s == [] || (!IsSpace(s[0]) && !IsSpace(s[|s| - 1]))
  }

  function TrimLeft(s: string): (r: string)
    ensures |r| <= |s| && r == s[|s| - |r|..]
    ensures forall i :: 0 <= i < |s| - |r| ==> IsSpace(s[i])
    ensures r != [] ==> !IsSpace(r[0])
  {
    if s != [] && IsSpace(s[0]) then TrimLeft(s[1..]) else s
  }

  function TrimRight(s: string): (r: string)
    ensures |r| <= |s| && r == s[..|r|]
    ensures forall i :: |r| <= i < |s| ==> IsSpace(s[i])
    ensures r != [] ==> !IsSpace(r[|r| - 1])
  {
    if s != [] && IsSpace(s[|s| - 1]) then TrimRight(s[..|s| - 1]) else s
  }

  /** `s.strip()`: the slice of `s` left after removing blank characters at both ends. */
  function Strip(s: string): (r: string)
    ensures IsStripped(r)
    ensures |r| <= |s|
    ensures r == [] <==> AllSpace(s)
  {
    var t := TrimRight(s);
    var r := TrimLeft(t);
    assert r != [] ==> r[|r| - 1] == t[|t| - 1];
    assert r == [] ==> AllSpace(s) by {
      if r == [] {
        forall i | 0 <= i < |s| ensures IsSpace(s[i]) {
          if i < |t| { assert s[i] == t[i]; }
        }
      }
    }
    assert r != [] ==> !AllSpace(s) by {
      if r != [] {
        assert r[0] == s[|t| - |r|];
      }
    }
    r
  }

  /** `strip()` cuts blank characters off both ends and nothing else: the result is the slice in between. */
  lemma StripSlice(s: string)
    ensures exists i, j :: 0 <= i <= j <= |s| && Strip(s) == s[i..j] && AllSpace(s[..i]) && AllSpace(s[j..])
  {
    var t := TrimRight(s);
    var r := TrimLeft(t);
    var i, j := |t| - |r|, |t|;
    assert Strip(s) == r;
    SliceOfPrefix(s, i, j);
    TrimLeftCut(t);
    TrimRightCut(s);
    assert s[..i] == t[..i];
    assert 0 <= i <= j <= |s| && Strip(s) == s[i..j] && AllSpace(s[..i]) && AllSpace(s[j..]);
  }

  lemma TrimLeftCut(s: string)
    ensures AllSpace(s[..|s| - |TrimLeft(s)|])
  {
    var n := |s| - |TrimLeft(s)|;
    forall q | 0 <= q < n
      ensures IsSpace(s[..n][q])
    {
      assert s[..n][q] == s[q];
    }
  }

  lemma TrimRightCut(s: string)
    ensures AllSpace(s[|TrimRight(s)|..])
  {
    var n := |TrimRight(s)|;
    forall q | 0 <= q < |s| - n
      ensures IsSpace(s[n..][q])
    {
      assert s[n..][q] == s[n + q];
    }
  }

  lemma SliceOfPrefix<T>(s: seq<T>, i: nat, j: nat)
    requires i <= j <= |s|
    ensures s[..j][i..] == s[i..j]
  {
  }

  lemma StripKeepsStripped(s: string)
    requires IsStripped(s)
    ensures Strip(s) == s
  {
  }

  /** `strip()` is idempotent. */
  lemma {:induction false} StripIdempotent(s: string)
    ensures Strip(Strip(s)) == Strip(s)
  {
    StripKeepsStripped(Strip(s));
  }

  /** `[line.strip() for line in xs]`. */
  function StripAll(xs: seq<string>): (r: seq<string>)
    ensures |r| == |xs|
    ensures forall i :: 0 <= i < |xs| ==> r[i] == Strip(xs[i])
  {
    if xs == [] then [] else [Strip(xs[0])] + StripAll(xs[1..])
  }

  /** `"\n".join(xs)`. */
  function JoinLines(xs: seq<string>): string
  {
    if |xs| == 0 then []
    else if |xs| == 1 then xs[0]
    else xs[0] + "\n" + JoinLines(xs[1..])
  }

  /** `s.split("\n")`: never empty; the empty string splits into one empty piece. */
  function SplitLines(s: string): (r: seq<string>)
    ensures |r| >= 1
  {
    if s == [] then [[]]
    else
      var rest := SplitLines(s[1..]);
      if s[0] == '\n' then [[]] + rest
      else [[s[0]] + rest[0]] + rest[1..]
  }

  predicate NoNewline(s: string)
  {
    forall i :: 0 <= i < |s| ==> s[i] != '\n'
  }

  lemma {:induction false} SplitNoNewline(x: string, t: string)
    requires NoNewline(x)
    ensures SplitLines(x) == [x]
    ensures SplitLines(x + "\n" + t) == [x] + SplitLines(t)
  {
    if x != [] {
      SplitNoNewline(x[1..], t);
      assert [x[0]] + x[1..] == x;
      assert (x + "\n" + t)[0] == x[0];
      assert (x + "\n" + t)[1..] == x[1..] + "\n" + t;
    } else {
      assert x + "\n" + t == "\n" + t;
      assert ("\n" + t)[1..] == t;
    }
  }

  /** Splitting the newline-join of newline-free pieces gives the pieces back. */
  lemma {:induction false} SplitJoinLines(xs: seq<string>)
    requires xs != []
    requires forall i :: 0 <= i < |xs| ==> NoNewline(xs[i])
    ensures SplitLines(JoinLines(xs)) == xs
  {
    if |xs| == 1 {
      SplitNoNewline(xs[0], []);
    } else {
      SplitJoinLines(xs[1..]);
      SplitNoNewline(xs[0], JoinLines(xs[1..]));
    }
  }

  /** The newline-join of non-blank stripped lines is already stripped and not empty. */
  lemma {:induction false} JoinStrippedLines(xs: seq<string>)
    requires xs != []
    requires forall i :: 0 <= i < |xs| ==> xs[i] != [] && IsStripped(xs[i])
    ensures JoinLines(xs) != []
    ensures JoinLines(xs)[0] == xs[0][0]
    ensures JoinLines(xs)[|JoinLines(xs)| - 1] == xs[|xs| - 1][|xs[|xs| - 1]| - 1]
    ensures IsStripped(JoinLines(xs))
  {
    if |xs| > 1 {
      var rest := JoinLines(xs[1..]);
      JoinStrippedLines(xs[1..]);
      var j := xs[0] + "\n" + rest;
      assert JoinLines(xs) == j;
      assert j[0] == xs[0][0];
      assert j[|j| - 1] == rest[|rest| - 1];
      assert xs[1..][|xs[1..]| - 1] == xs[|xs| - 1];
    }
  }

  /** `" ".join(xs)`. */
  function JoinSpace(xs: seq<string>): string
  {
    if |xs| == 0 then []
    else if |xs| == 1 then xs[0]
    else xs[0] + " " + JoinSpace(xs[1..])
  }

  /** `"".join(xs)`. */
  function Concat(xs: seq<string>): (r: string)
  {
    if xs == [] then [] else Concat(xs[..|xs| - 1]) + xs[|xs| - 1]
  }

  // ---------------------------------------------------------------------
  // Case-insensitive substring search (the `re.I` bold-font pattern).
  // ---------------------------------------------------------------------

  /**
   * Case folding as far as it matters for ASCII lower-case needles: ASCII
   * capitals fold to lower case, and U+212A KELVIN SIGN folds to 'k'.
   */
  function Fold(c: char): (r: char)
    ensures c == ' ' ==> r == ' '
  {
    if 'A' <= c <= 'Z' then (c as int + 32) as char
    else if c == '\U{212A}' then 'k'
    else c
  }

  predicate MatchesAt(hay: string, needle: string, i: nat)
    requires i + |needle| <= |hay|
  {
    forall j :: 0 <= j < |needle| ==> Fold(hay[i + j]) == needle[j]
  }

  /** `needle` (lower case) occurs in `hay` ignoring case. */
  predicate ContainsFolded(hay: string, needle: string)
  {
    exists i: nat :: i + |needle| <= |hay| && MatchesAt(hay, needle, i)
  }

  /** An occurrence of a space-free needle in `a + " " + b` lies wholly in `a` or wholly in `b`. */
  lemma ContainsAcrossSpace(a: string, b: string, needle: string)
    requires forall j :: 0 <= j < |needle| ==> needle[j] != ' '
    ensures ContainsFolded(a + " " + b, needle) <==> ContainsFolded(a, needle) || ContainsFolded(b, needle)
  {
    var s := a + " " + b;
    if ContainsFolded(s, needle) {
      var i: nat :| i + |needle| <= |s| && MatchesAt(s, needle, i);
      assert s[|a|] == ' ';
      forall k | i <= k < i + |needle| ensures s[k] != ' ' {
        assert Fold(s[i + (k - i)]) == needle[k - i];
      }
      if i + |needle| <= |a| {
        assert MatchesAt(a, needle, i) by {
          forall j | 0 <= j < |needle| ensures Fold(a[i + j]) == needle[j] {
            assert s[i + j] == a[i + j];
          }
        }
      } else {
        var k: nat := i - |a| - 1;
        assert MatchesAt(b, needle, k) by {
          forall j | 0 <= j < |needle| ensures Fold(b[k + j]) == needle[j] {
            assert s[i + j] == b[k + j];
          }
        }
      }
    }
    if ContainsFolded(a, needle) {
      var i: nat :| i + |needle| <= |a| && MatchesAt(a, needle, i);
      assert MatchesAt(s, needle, i) by {
        forall j | 0 <= j < |needle| ensures Fold(s[i + j]) == needle[j] {
          assert s[i + j] == a[i + j];
        }
      }
    }
    if ContainsFolded(b, needle) {
      var k: nat :| k + |needle| <= |b| && MatchesAt(b, needle, k);
      var i := k + |a| + 1;
      assert MatchesAt(s, needle, i) by {
        forall j | 0 <= j < |needle| ensures Fold(s[i + j]) == needle[j] {
          assert s[i + j] == b[k + j];
        }
      }
    }
  }

  // ---------------------------------------------------------------------
  // Decimal formatting (f-string `{n}` of a non-negative int).
  // ---------------------------------------------------------------------

  predicate IsDigit(c: char)
  {
    '0' <= c <= '9'
  }

  function DigitChar(d: nat): (c: char)
    requires d < 10
    ensures IsDigit(c)
  {
    ('0' as int + d) as char
  }

  function Decimal(n: nat): (r: string)
    ensures r != []
    ensures forall i :: 0 <= i < |r| ==> IsDigit(r[i])
  {
    if n < 10 then [DigitChar(n)] else Decimal(n / 10) + [DigitChar(n % 10)]
  }

  function DecimalValue(s: string): int
  {
    if s == [] then 0 else 10 * DecimalValue(s[..|s| - 1]) + (s[|s| - 1] as int - '0' as int)
  }

  lemma {:induction false} DecimalValueOfDecimal(n: nat)
    ensures DecimalValue(Decimal(n)) == n
  {
    if n >= 10 {
      DecimalValueOfDecimal(n / 10);
      var s := Decimal(n / 10) + [DigitChar(n % 10)];
      assert s[..|s| - 1] == Decimal(n / 10);
    }
  }

  /** Different numbers are written differently. */
  lemma DecimalInjective(m: nat, n: nat)
    requires Decimal(m) == Decimal(n)
    ensures m == n
  {
    DecimalValueOfDecimal(m);
    DecimalValueOfDecimal(n);
  }

  /** A run of digits followed by a non-digit is determined by the whole string. */
  lemma DigitsBeforeMark(x: string, y: string, c: char, r1: string, r2: string)
    requires forall i :: 0 <= i < |x| ==> IsDigit(x[i])
    requires forall i :: 0 <= i < |y| ==> IsDigit(y[i])
    requires !IsDigit(c)
    requires x + [c] + r1 == y + [c] + r2
    ensures x == y && r1 == r2
  {
    var s1, s2 := x + [c] + r1, y + [c] + r2;
    assert s1[|x|] == c && s2[|y|] == c;
    assert |x| == |y|;
    assert x == s1[..|x|] && y == s2[..|y|];
    assert r1 == s1[|x| + 1..] && r2 == s2[|y| + 1..];
  }
}
