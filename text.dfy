/** The Python string operations the handlers use to derive names and keys,
    with Python's exact semantics: `s.split(sep)[-1]`, `s.split(sep)[0]`,
    `s.split(sep, 1)[1]`, `s.replace(pat, "")`, `s.startswith(p)` and
    `str(n)` for a non-negative integer. Every separator the handlers pass is
    a non-empty literal, so `split` never raises `ValueError` here. */
module Text {
  import opened Common

  /** `pat` occurs in `s` at index `i`. */
  predicate OccursAt(s: string, pat: string, i: nat)
  {
    i + |pat| <= |s| && forall m :: i <= m < i + |pat| ==> s[m] == pat[m - i]
  }

  predicate Contains(s: string, pat: string)
  {
    exists i: nat | i <= |s| :: OccursAt(s, pat, i)
  }

  /** A one-character pattern occurs exactly when the character does. */
  lemma ContainsChar(s: string, c: char)
    ensures Contains(s, [c]) <==> c in s
  {
    if c in s {
      var i :| 0 <= i < |s| && s[i] == c;
      assert OccursAt(s, [c], i);
    }
    if Contains(s, [c]) {
      var i: nat :| i <= |s| && OccursAt(s, [c], i);
      assert s[i + 0] == [c][0];
    }
  }

  predicate StartsWith(s: string, p: string)
  {
    |p| <= |s| && s[..|p|] == p
  }

  lemma OccursInSuffix(s: string, pat: string, m: nat, k: nat)
    requires m <= |s|
    ensures OccursAt(s[m..], pat, k) <==> OccursAt(s, pat, m + k)
  {
    if m + k + |pat| <= |s| {
      forall y | k <= y < k + |pat| ensures s[m..][y] == s[m + y] { }
    }
  }

  lemma OccursInPrefix(s: string, pat: string, m: nat, k: nat)
    requires m <= |s|
    ensures OccursAt(s[..m], pat, k) <==> OccursAt(s, pat, k) && k + |pat| <= m
  {
    if k + |pat| <= m {
      forall y | k <= y < k + |pat| ensures s[..m][y] == s[y] { }
    }
  }

  /** The first index at which `pat` occurs in `s`, as `str.find` does. */
  function IndexOf(s: string, pat: string): (r: Option<nat>)
    requires |pat| > 0
    ensures r.Some? ==> r.value + |pat| <= |s|
    decreases |s|
  {
    if |s| < |pat| then None
    else if s[..|pat|] == pat then Some(0)
    else match IndexOf(s[1..], pat)
      case None => None
      case Some(j) => Some(j + 1)
  }

  /** `IndexOf` finds an occurrence exactly when there is one, and then the
      leftmost. */
  lemma IndexOfFirst(s: string, pat: string)
    requires |pat| > 0
    ensures IndexOf(s, pat).Some? ==> OccursAt(s, pat, IndexOf(s, pat).value)
    ensures IndexOf(s, pat).Some? ==> forall k: nat :: k < IndexOf(s, pat).value ==> !OccursAt(s, pat, k)
    ensures IndexOf(s, pat).None? <==> !Contains(s, pat)
  {
    IndexOfOccurs(s, pat);
    IndexOfLeftmost(s, pat);
    IndexOfComplete(s, pat);
  }

  /** Where `IndexOf` stops, the pattern occurs. */
  lemma {:induction false} IndexOfOccurs(s: string, pat: string)
    requires |pat| > 0
    ensures IndexOf(s, pat).Some? ==> OccursAt(s, pat, IndexOf(s, pat).value)
    decreases |s|
  {
    if |s| < |pat| {
    } else if s[..|pat|] == pat {
      assert forall m | 0 <= m < |pat| :: s[..|pat|][m] == s[m];
    } else if IndexOf(s[1..], pat).Some? {
      IndexOfOccurs(s[1..], pat);
      OccursInSuffix(s, pat, 1, IndexOf(s[1..], pat).value);
    }
  }

  /** `IndexOf` skips no earlier occurrence. */
  lemma {:induction false} IndexOfLeftmost(s: string, pat: string)
    requires |pat| > 0
    ensures IndexOf(s, pat).Some? ==> forall k: nat :: k < IndexOf(s, pat).value ==> !OccursAt(s, pat, k)
    decreases |s|
  {
    if |s| >= |pat| && s[..|pat|] != pat && IndexOf(s[1..], pat).Some? {
      IndexOfLeftmost(s[1..], pat);
      var j := IndexOf(s[1..], pat).value;
      assert forall m | 0 <= m < |pat| :: s[..|pat|][m] == s[m];
      forall k: nat | k < j + 1 ensures !OccursAt(s, pat, k) {
        if k > 0 {
          OccursInSuffix(s, pat, 1, k - 1);
        }
      }
    }
  }

  /** `IndexOf` finds nothing exactly when the pattern does not occur. */
  lemma {:induction false} IndexOfComplete(s: string, pat: string)
    requires |pat| > 0
    ensures IndexOf(s, pat).None? <==> !Contains(s, pat)
    decreases |s|
  {
    IndexOfOccurs(s, pat);
    if IndexOf(s, pat).Some? {
      assert OccursAt(s, pat, IndexOf(s, pat).value);
    } else if |s| >= |pat| {
      IndexOfComplete(s[1..], pat);
      assert forall m | 0 <= m < |pat| :: s[..|pat|][m] == s[m];
      forall i: nat | i <= |s| ensures !OccursAt(s, pat, i) {
        if i > 0 {
          OccursInSuffix(s, pat, 1, i - 1);
        }
      }
    }
  }

  /** Where `IndexOf` stops, the pattern occurs. */
  lemma IndexOfFound(s: string, pat: string)
    requires |pat| > 0 && IndexOf(s, pat).Some?
    ensures OccursAt(s, pat, IndexOf(s, pat).value) && Contains(s, pat)
  {
    IndexOfFirst(s, pat);
  }

  /** When the pattern occurs, `IndexOf` finds an occurrence. */
  lemma IndexOfHit(s: string, pat: string)
    requires |pat| > 0 && Contains(s, pat)
    ensures IndexOf(s, pat).Some? && OccursAt(s, pat, IndexOf(s, pat).value)
  {
    IndexOfFirst(s, pat);
  }

  /** When `IndexOf` finds nothing, the pattern does not occur. */
  lemma IndexOfMissed(s: string, pat: string)
    requires |pat| > 0 && IndexOf(s, pat).None?
    ensures !Contains(s, pat)
  {
    IndexOfFirst(s, pat);
  }

  lemma AfterLastUnfold(s: string, sep: string, j: nat)
    requires |sep| > 0 && IndexOf(s, sep) == Some(j)
    ensures AfterLast(s, sep) == AfterLast(s[j + |sep|..], sep)
  {
  }

  /** `s.split(sep)[-1]`: the text after the last separator the left-to-right
      scan of `split` finds, or `s` itself when `sep` does not occur. */
  function AfterLast(s: string, sep: string): (r: string)
    requires |sep| > 0
    ensures |r| <= |s|
    decreases |s|
  {
    match IndexOf(s, sep)
    case None => s
    case Some(j) => AfterLast(s[j + |sep|..], sep)
  }

  /** The last piece is a suffix holding no separator; it is the whole text
      when there is no separator. */
  lemma AfterLastPiece(s: string, sep: string)
    requires |sep| > 0
    ensures AfterLast(s, sep) == s[|s| - |AfterLast(s, sep)|..]
    ensures !Contains(AfterLast(s, sep), sep)
    ensures !Contains(s, sep) ==> AfterLast(s, sep) == s
  {
    AfterLastSuffix(s, sep);
    AfterLastNoSep(s, sep);
    if !Contains(s, sep) {
      IndexOfFirst(s, sep);
    }
  }

  /** The last piece is a suffix of the text. */
  lemma {:induction false} AfterLastSuffix(s: string, sep: string)
    requires |sep| > 0
    ensures AfterLast(s, sep) == s[|s| - |AfterLast(s, sep)|..]
    decreases |s|
  {
    if IndexOf(s, sep).Some? {
      var j := IndexOf(s, sep).value;
      var t := s[j + |sep|..];
      AfterLastSuffix(t, sep);
      var r := AfterLast(t, sep);
      AfterLastUnfold(s, sep, j);
      assert t[|t| - |r|..] == s[|s| - |r|..];
    }
  }

  /** The last piece holds no separator. */
  lemma {:induction false} AfterLastNoSep(s: string, sep: string)
    requires |sep| > 0
    ensures !Contains(AfterLast(s, sep), sep)
    decreases |s|
  {
    if IndexOf(s, sep).Some? {
      var j := IndexOf(s, sep).value;
      AfterLastNoSep(s[j + |sep|..], sep);
      AfterLastUnfold(s, sep, j);
    } else {
      IndexOfMissed(s, sep);
    }
  }

  /** When the text holds a separator, one stands right before the last
      piece. */
  lemma {:induction false} AfterLastPreceded(s: string, sep: string)
    requires |sep| > 0 && Contains(s, sep)
    ensures |AfterLast(s, sep)| + |sep| <= |s|
    ensures OccursAt(s, sep, |s| - |AfterLast(s, sep)| - |sep|)
    decreases |s|
  {
    IndexOfHit(s, sep);
    var j := IndexOf(s, sep).value;
    var t := s[j + |sep|..];
    AfterLastUnfold(s, sep, j);
    assert AfterLast(s, sep) == AfterLast(t, sep);
    if IndexOf(t, sep).Some? {
      IndexOfFound(t, sep);
      AfterLastPreceded(t, sep);
      PrecededInSuffix(s, sep, j + |sep|, AfterLast(t, sep));
    } else {
      AfterLastWhole(t, sep);
      PrecededByFirst(s, sep, j, AfterLast(t, sep));
    }
  }

  lemma AfterLastWhole(s: string, sep: string)
    requires |sep| > 0 && IndexOf(s, sep).None?
    ensures AfterLast(s, sep) == s
  {
  }

  lemma PrecededInSuffix(s: string, sep: string, off: nat, r: string)
    requires off <= |s| && |r| + |sep| <= |s| - off
    requires OccursAt(s[off..], sep, |s[off..]| - |r| - |sep|)
    ensures |r| + |sep| <= |s| && OccursAt(s, sep, |s| - |r| - |sep|)
  {
    OccursInSuffix(s, sep, off, |s| - off - |r| - |sep|);
  }

  lemma PrecededByFirst(s: string, sep: string, j: nat, r: string)
    requires OccursAt(s, sep, j) && |r| == |s| - j - |sep|
    ensures |r| + |sep| <= |s| && OccursAt(s, sep, |s| - |r| - |sep|)
  {
  }

  /** `s.split(sep)[0]`: the text before the first separator, or `s` itself
      when `sep` does not occur. */
  function BeforeFirst(s: string, sep: string): (r: string)
    requires |sep| > 0
    ensures |r| <= |s| && r == s[..|r|]
  {
    match IndexOf(s, sep)
    case None => s
    case Some(j) => s[..j]
  }

  /** The first piece holds no separator; it is the whole text when there is
      none, and otherwise a separator stands right after it. */
  lemma BeforeFirstPiece(s: string, sep: string)
    requires |sep| > 0
    ensures !Contains(BeforeFirst(s, sep), sep)
    ensures !Contains(s, sep) ==> BeforeFirst(s, sep) == s
    ensures Contains(s, sep) ==> OccursAt(s, sep, |BeforeFirst(s, sep)|)
  {
    IndexOfFirst(s, sep);
    match IndexOf(s, sep)
    case None =>
    case Some(j) =>
      if Contains(s[..j], sep) {
        var k: nat :| k <= j && OccursAt(s[..j], sep, k);
        OccursInPrefix(s, sep, j, k);
        assert false;
      }
  }

  /** `s.split(sep, 1)[1]`: the text after the first separator; `None` stands
      for the `IndexError` raised when `sep` does not occur. */
  function AfterFirst(s: string, sep: string): (r: Option<string>)
    requires |sep| > 0
    ensures r.Some? <==> IndexOf(s, sep).Some?
    ensures r.Some? ==> s == BeforeFirst(s, sep) + sep + r.value
  {
    match IndexOf(s, sep)
    case None => None
    case Some(j) =>
      IndexOfFirst(s, sep);
      assert s == s[..j] + s[j..j + |sep|] + s[j + |sep|..];
      Some(s[j + |sep|..])
  }

  /** `s.replace(pat, "")`: every occurrence found by a left-to-right scan is
      removed; the text between them is kept in order. */
  function RemoveAll(s: string, pat: string): (r: string)
    requires |pat| > 0
    ensures |r| <= |s|
    decreases |s|
  {
    match IndexOf(s, pat)
    case None => s
    case Some(j) => s[..j] + RemoveAll(s[j + |pat|..], pat)
  }

  /** A text without the pattern is left as it is. */
  lemma RemoveAllAbsent(s: string, pat: string)
    requires |pat| > 0 && !Contains(s, pat)
    ensures RemoveAll(s, pat) == s
  {
    IndexOfFirst(s, pat);
  }

  /** Removing a pattern from a text that starts with it drops that leading
      copy and goes on with the rest. */
  lemma RemoveAllLeading(pat: string, rest: string)
    requires |pat| > 0
    ensures RemoveAll(pat + rest, pat) == RemoveAll(rest, pat)
  {
    var s := pat + rest;
    assert s[..|pat|] == pat;
    assert IndexOf(s, pat) == Some(0);
    assert s[|pat|..] == rest;
  }

  /** `IndexOf` returns the first occurrence. */
  lemma IndexOfIsFirst(s: string, pat: string, m: nat)
    requires |pat| > 0 && OccursAt(s, pat, m)
    requires forall k: nat :: k < m ==> !OccursAt(s, pat, k)
    ensures IndexOf(s, pat) == Some(m)
  {
    IndexOfFirst(s, pat);
    assert m <= |s| && Contains(s, pat);
  }

  /** One separator character followed by a piece without it: `split` puts
      exactly that piece last. */
  lemma AfterLastOfJoin(p: string, c: char, q: string)
    requires c !in q
    ensures AfterLast(p + [c] + q, [c]) == q
  {
    var s := p + [c] + q;
    var r := AfterLast(s, [c]);
    assert OccursAt(s, [c], |p|);
    AfterLastPiece(s, [c]);
    AfterLastPreceded(s, [c]);
    ContainsChar(r, c);
    assert s[|s| - |r| - 1 + 0] == [c][0];
    assert forall k | |p| < k < |s| :: s[k] == q[k - |p| - 1];
    assert |q| <= |r|;
    assert forall k | |s| - |r| <= k < |s| :: s[k] == r[k - (|s| - |r|)];
    assert s[|p|] == c;
    assert |r| <= |q|;
    assert s[|s| - |q|..] == q;
  }

  /** A piece without the separator character followed by one: `split` puts
      exactly that piece first. */
  lemma BeforeFirstOfJoin(p: string, c: char, q: string)
    requires c !in p
    ensures BeforeFirst(p + [c] + q, [c]) == p
  {
    var s := p + [c] + q;
    assert OccursAt(s, [c], |p|);
    forall k: nat | k < |p|
      ensures !OccursAt(s, [c], k)
    {
      assert p[k] in p;
      assert s[k + 0] != [c][0];
    }
    IndexOfIsFirst(s, [c], |p|);
    assert s[..|p|] == p;
  }

  /** A pattern that holds a character at two positions does not occur in a
      text that holds that character at most once. */
  lemma NotContainsTwice(s: string, pat: string, c: char, i: nat, j: nat)
    requires i < j < |pat| && pat[i] == c && pat[j] == c
    requires forall a, b | 0 <= a < b < |s| && s[a] == c :: s[b] != c
    ensures !Contains(s, pat)
  {
    forall k: nat | k <= |s|
      ensures !OccursAt(s, pat, k)
    {
      if k + |pat| <= |s| {
        assert s[k + i] != pat[i] || s[k + j] != pat[j];
      }
    }
  }

  predicate IsDigit(ch: char)
  {
    '0' <= ch <= '9'
  }

  predicate AllDigits(s: string)
  {
    forall i :: 0 <= i < |s| ==> IsDigit(s[i])
  }

  /** `str(n)` for a non-negative integer: its decimal digits, most
      significant first, without leading zeros. */
  function Decimal(n: nat): (r: string)
    ensures |r| > 0 && AllDigits(r)
    ensures r[0] == '0' ==> n == 0
    decreases n
  {
    if n < 10 then ["0123456789"[n]]
    else Decimal(n / 10) + ["0123456789"[n % 10]]
  }

  /** Reads a string of decimal digits back as a number. */
  function ParseDecimal(s: string): nat
    requires AllDigits(s)
    decreases |s|
  {
    if s == [] then 0
    else ParseDecimal(s[..|s| - 1]) * 10 + (s[|s| - 1] as int - '0' as int)
  }

  lemma {:induction false} DecimalRoundTrip(n: nat)
    ensures ParseDecimal(Decimal(n)) == n
  {
    if n >= 10 {
      var d := Decimal(n);
      assert d[..|d| - 1] == Decimal(n / 10);
      DecimalRoundTrip(n / 10);
    }
  }

  /** Distinct numbers print differently. */
  lemma DecimalInjective(m: nat, n: nat)
    requires Decimal(m) == Decimal(n)
    ensures m == n
  {
    DecimalRoundTrip(m);
    DecimalRoundTrip(n);
  }
}
