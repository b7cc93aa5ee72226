/** Python string primitives used by the validator: the `\s` character class,
    negative indexing and slicing, `str.replace`, `in`, `startswith`, and the
    decimal conversions `int(...)` / `str(...)`. */
module Text {

  /** An operation that either yields a value or raises Python's IndexError. */
  datatype PyResult<T> = Ok(value: T) | IndexError

  /** Python's `\s` for str patterns (the Unicode whitespace of `str.isspace`). */
  predicate IsSpace(c: char) {
    ('\t' <= c <= '\r') || ('\U{1c}' <= c <= '\U{1f}') || c == ' ' ||
    c == '\U{85}' || c == '\U{a0}' || c == '\U{1680}' ||
    ('\U{2000}' <= c <= '\U{200a}') || c == '\U{2028}' || c == '\U{2029}' ||
    c == '\U{202f}' || c == '\U{205f}' || c == '\U{3000}'
  }

  predicate IsDigit(c: char) {
    '0' <= c <= '9'
  }

  predicate AllSpace(s: string) {
    forall k :: 0 <= k < |s| ==> IsSpace(s[k])
  }

  predicate NoSpace(s: string) {
    forall k :: 0 <= k < |s| ==> !IsSpace(s[k])
  }

  predicate AllDigits(s: string) {
    forall k :: 0 <= k < |s| ==> IsDigit(s[k])
  }

  /** The end of the run of whitespace starting at `j` (what a greedy `\s*` consumes). */
  function SkipSpaces(s: string, j: nat): (r: nat)
    requires j <= |s|
    ensures j <= r <= |s|
    decreases |s| - j
  {
    if j == |s| || !IsSpace(s[j]) then j else SkipSpaces(s, j + 1)
  }

  /** The run `SkipSpaces` passes over is whitespace, and it stops at the first
      character that is not. */
  lemma {:induction false} SkipSpacesRun(s: string, j: nat)
    requires j <= |s|
    ensures AllSpace(s[j..SkipSpaces(s, j)])
    ensures SkipSpaces(s, j) < |s| ==> !IsSpace(s[SkipSpaces(s, j)])
    decreases |s| - j
  {
    if j < |s| && IsSpace(s[j]) {
      SkipSpacesRun(s, j + 1);
      assert s[j..SkipSpaces(s, j)] == [s[j]] + s[j + 1..SkipSpaces(s, j)];
    }
  }

  /** The end of the run of non-whitespace starting at `j` (what a greedy `\S*` consumes). */
  function SkipNonSpaces(s: string, j: nat): (r: nat)
    requires j <= |s|
    ensures j <= r <= |s|
    decreases |s| - j
  {
    if j == |s| || IsSpace(s[j]) then j else SkipNonSpaces(s, j + 1)
  }

  /** The run `SkipNonSpaces` passes over holds no whitespace, and it stops at the first
      whitespace character. */
  lemma {:induction false} SkipNonSpacesRun(s: string, j: nat)
    requires j <= |s|
    ensures NoSpace(s[j..SkipNonSpaces(s, j)])
    ensures SkipNonSpaces(s, j) < |s| ==> IsSpace(s[SkipNonSpaces(s, j)])
    decreases |s| - j
  {
    if j < |s| && !IsSpace(s[j]) {
      SkipNonSpacesRun(s, j + 1);
      assert s[j..SkipNonSpaces(s, j)] == [s[j]] + s[j + 1..SkipNonSpaces(s, j)];
    }
  }

  /** A whitespace run is determined by where it starts: any `r` that closes one is the one. */
  lemma {:induction false} SkipSpacesExact(s: string, j: nat, r: nat)
    requires j <= r <= |s| && AllSpace(s[j..r]) && (r < |s| ==> !IsSpace(s[r]))
    ensures SkipSpaces(s, j) == r
    decreases r - j
  {
    if j < r {
      assert s[j..r][0] == s[j];
      assert s[j + 1..r] == s[j..r][1..];
      SkipSpacesExact(s, j + 1, r);
    }
  }

  lemma {:induction false} SkipNonSpacesExact(s: string, j: nat, r: nat)
    requires j <= r <= |s| && NoSpace(s[j..r]) && (r < |s| ==> IsSpace(s[r]))
    ensures SkipNonSpaces(s, j) == r
    decreases r - j
  {
    if j < r {
      assert s[j..r][0] == s[j];
      assert s[j + 1..r] == s[j..r][1..];
      SkipNonSpacesExact(s, j + 1, r);
    }
  }

  /** `s[j]` does not raise: Python accepts `-len(s) <= j < len(s)`. */
  predicate IndexOk(s: string, j: int) {
    -|s| <= j < |s|
  }

  /** Python's `s[j]`, where a negative index counts from the end. */
  function At(s: string, j: int): char
    requires IndexOk(s, j)
  {
    if j < 0 then s[|s| + j] else s[j]
  }

  /** Every index Python accepts reads the character at that index taken modulo the
      length. */
  lemma AtModulo(s: string, j: int)
    requires IndexOk(s, j)
    ensures At(s, j) == s[j % |s|]
  {
  }

  /** The position a Python slice bound denotes once it is normalised and clamped. */
  function SliceBound(n: nat, a: int): (r: nat)
    ensures r <= n
    ensures 0 <= a <= n ==> r == a
    ensures a < 0 && 0 <= a + n ==> r == a + n
  {
    if a < 0 then (if a + n < 0 then 0 else a + n)
    else if a > n then n
    else a
  }

  /** Python's `s[a:b]`: never raises, empty when the bounds cross. */
  function Slice(s: string, a: int, b: int): (r: string)
    ensures |r| <= |s|
    ensures 0 <= a <= b <= |s| ==> r == s[a..b]
  {
    var lo := SliceBound(|s|, a);
    var hi := SliceBound(|s|, b);
    if lo < hi then s[lo..hi] else ""
  }

  predicate StartsWith(s: string, prefix: string) {
    |prefix| <= |s| && s[..|prefix|] == prefix
  }

  /** Python's `pat in s`. */
  predicate Contains(s: string, pat: string)
    decreases |s|
  {
    StartsWith(s, pat) || (s != [] && Contains(s[1..], pat))
  }

  /** Python's `s.replace(pat, rep)`: every non-overlapping occurrence, left to right. */
  function ReplaceAll(s: string, pat: string, rep: string): string
    requires pat != ""
    decreases |s|
  {
    if |s| < |pat| then s
    else if s[..|pat|] == pat then rep + ReplaceAll(s[|pat|..], pat, rep)
    else [s[0]] + ReplaceAll(s[1..], pat, rep)
  }

  /** The number of occurrences `s.replace(pat, rep)` replaces (Python's `s.count(pat)`). */
  function Count(s: string, pat: string): nat
    requires pat != ""
    decreases |s|
  {
    if |s| < |pat| then 0
    else if s[..|pat|] == pat then 1 + Count(s[|pat|..], pat)
    else Count(s[1..], pat)
  }

  /** Each replaced occurrence changes the length by `|rep| - |pat|`. */
  lemma {:induction false} ReplaceAllLength(s: string, pat: string, rep: string)
    requires pat != ""
    ensures |ReplaceAll(s, pat, rep)| == |s| + Count(s, pat) * (|rep| - |pat|)
    decreases |s|
  {
    if |s| < |pat| {
    } else if s[..|pat|] == pat {
      var rest := s[|pat|..];
      ReplaceAllLength(rest, pat, rep);
      var c, d := Count(rest, pat), |rep| - |pat|;
      assert |ReplaceAll(s, pat, rep)| == |rep| + |ReplaceAll(rest, pat, rep)|;
      assert |ReplaceAll(rest, pat, rep)| == |rest| + c * d;
      MulSucc(c, d);
    } else {
      var rest := s[1..];
      ReplaceAllLength(rest, pat, rep);
      assert |ReplaceAll(s, pat, rep)| == 1 + |ReplaceAll(rest, pat, rep)|;
    }
  }

  lemma MulSucc(c: nat, d: int)
    ensures (c + 1) * d == c * d + d
  {
  }

  /** `str.replace` finds something to replace exactly when the pattern occurs. */
  lemma {:induction false} CountPositiveIffContains(s: string, pat: string)
    requires pat != ""
    ensures Count(s, pat) > 0 <==> Contains(s, pat)
    decreases |s|
  {
    if |s| < |pat| {
      if s != [] {
        CountPositiveIffContains(s[1..], pat);
      }
    } else if s[..|pat|] == pat {
    } else {
      CountPositiveIffContains(s[1..], pat);
    }
  }

  /** Replacing a pattern that does not occur leaves the string unchanged. */
  lemma {:induction false} ReplaceAllAbsent(s: string, pat: string, rep: string)
    requires pat != ""
    requires !Contains(s, pat)
    ensures ReplaceAll(s, pat, rep) == s
    decreases |s|
  {
    if |s| < |pat| {
    } else {
      assert !StartsWith(s, pat);
      ReplaceAllAbsent(s[1..], pat, rep);
    }
  }

  /** A string that does not even hold the pattern's first character is left unchanged. */
  lemma {:induction false} ReplaceAllWithoutFirstChar(s: string, pat: string, rep: string)
    requires pat != "" && pat[0] !in s
    ensures ReplaceAll(s, pat, rep) == s
    decreases |s|
  {
    if |s| >= |pat| {
      assert s[0] in s;
      assert s[..|pat|][0] == s[0];
      ReplaceAllWithoutFirstChar(s[1..], pat, rep);
      assert s == [s[0]] + s[1..];
    }
  }

  /** Replacing a pattern by itself leaves the string unchanged. */
  lemma {:induction false} ReplaceAllSelf(s: string, pat: string)
    requires pat != ""
    ensures ReplaceAll(s, pat, pat) == s
    decreases |s|
  {
    if |s| < |pat| {
    } else if s[..|pat|] == pat {
      ReplaceAllSelf(s[|pat|..], pat);
      assert s == pat + s[|pat|..];
    } else {
      ReplaceAllSelf(s[1..], pat);
      assert s == [s[0]] + s[1..];
    }
  }

  /** A prefix in which no occurrence of the pattern starts is copied through unchanged. */
  lemma {:induction false} ReplaceAllSkip(s: string, k: nat, pat: string, rep: string)
    requires pat != "" && k <= |s|
    requires forall j :: 0 <= j < k ==> !StartsWith(s[j..], pat)
    ensures ReplaceAll(s, pat, rep) == s[..k] + ReplaceAll(s[k..], pat, rep)
    decreases k
  {
    if k > 0 {
      assert !StartsWith(s[0..], pat);
      assert s[0..] == s;
      if |s| < |pat| {
        assert !StartsWith(s[k..], pat) by {
          assert |s[k..]| < |pat|;
        }
        assert |s[k..]| < |pat|;
      } else {
        var t := s[1..];
        forall j | 0 <= j < k - 1
          ensures !StartsWith(t[j..], pat)
        {
          assert t[j..] == s[j + 1..];
        }
        ReplaceAllSkip(t, k - 1, pat, rep);
        assert t[..k - 1] == s[1..k];
        assert t[k - 1..] == s[k..];
        assert s[..k] == [s[0]] + s[1..k];
      }
    }
  }

  /** Text without the pattern's first character passes through unchanged. */
  lemma {:induction false} ReplaceAllPast(x: string, y: string, pat: string, rep: string)
    requires pat != "" && pat[0] !in x
    ensures ReplaceAll(x + y, pat, rep) == x + ReplaceAll(y, pat, rep)
    decreases |x|
  {
    if x != [] {
      var s := x + y;
      assert s[0] == x[0];
      if |s| < |pat| {
        assert |y| < |pat|;
      } else {
        assert s[..|pat|][0] == x[0];
        assert s[1..] == x[1..] + y;
        ReplaceAllPast(x[1..], y, pat, rep);
      }
    } else {
      assert x + y == y;
    }
  }

  /** A string that starts with the pattern has that occurrence replaced first. */
  lemma ReplaceAllHead(pat: string, rest: string, rep: string)
    requires pat != ""
    ensures ReplaceAll(pat + rest, pat, rep) == rep + ReplaceAll(rest, pat, rep)
  {
    var s := pat + rest;
    assert s[..|pat|] == pat;
    assert s[|pat|..] == rest;
  }

  /** No character occurs in both strings. */
  predicate Disjoint(a: string, b: string) {
    forall c :: c in a ==> c !in b
  }

  /** An occurrence in a suffix is an occurrence in the string. */
  lemma {:induction false} ContainsSuffix(s: string, k: nat, pat: string)
    requires k <= |s| && Contains(s[k..], pat)
    ensures Contains(s, pat)
    decreases k
  {
    if k > 0 {
      assert s[1..][k - 1..] == s[k..];
      ContainsSuffix(s[1..], k - 1, pat);
    }
  }

  /** An occurrence of `pat` cannot start inside a prefix that shares no character with it. */
  lemma {:induction false} ContainsPastDisjoint(rep: string, x: string, pat: string)
    requires pat != "" && Disjoint(pat, rep)
    requires Contains(rep + x, pat)
    ensures Contains(x, pat)
    decreases |rep|
  {
    if rep != [] {
      assert pat[0] in pat;
      assert (rep + x)[0] == rep[0] && rep[0] in rep;
      assert !StartsWith(rep + x, pat);
      assert (rep + x)[1..] == rep[1..] + x;
      ContainsPastDisjoint(rep[1..], x, pat);
    } else {
      assert rep + x == x;
    }
  }

  /** A prefix of the replaced string in which the replacement's first character does not
      appear is a prefix of the original string, left as it was. */
  lemma {:induction false} ReplaceAllUntouchedPrefix(t: string, m: nat, pat: string, rep: string)
    requires pat != "" && rep != ""
    requires m <= |ReplaceAll(t, pat, rep)|
    requires forall j :: 0 <= j < m ==> ReplaceAll(t, pat, rep)[j] != rep[0]
    ensures m <= |t| && t[..m] == ReplaceAll(t, pat, rep)[..m]
    decreases |t|
  {
    var r := ReplaceAll(t, pat, rep);
    assert |t| >= |pat| && t[..|pat|] == pat ==> r[0] == rep[0];
    if m == 0 || |t| < |pat| {
    } else if t[..|pat|] == pat {
      // r starts with rep[0], which the requires exclude for m > 0
    } else {
      var r1 := ReplaceAll(t[1..], pat, rep);
      assert r == [t[0]] + r1;
      forall j | 0 <= j < m - 1
        ensures r1[j] != rep[0]
      {
        assert r1[j] == r[j + 1];
      }
      ReplaceAllUntouchedPrefix(t[1..], m - 1, pat, rep);
      assert t[..m] == [t[0]] + t[1..][..m - 1];
      assert r[..m] == [t[0]] + r1[..m - 1];
    }
  }

  /** Past a first character that is not replaced, an occurrence of `kw` at the start of
      the replaced string was already at the start of the original. */
  lemma ReplaceAllStartsWith(s: string, pat: string, rep: string, kw: string)
    requires pat != "" && rep != "" && kw != "" && Disjoint(kw, rep)
    requires |s| >= |pat| && s[..|pat|] != pat
    requires StartsWith(ReplaceAll(s, pat, rep), kw)
    ensures StartsWith(s, kw)
  {
    var r := ReplaceAll(s, pat, rep);
    var t := s[1..];
    var r1 := ReplaceAll(t, pat, rep);
    assert r == [s[0]] + r1;
    var m := |kw| - 1;
    forall j | 0 <= j < m
      ensures r1[j] != rep[0]
    {
      assert r1[j] == kw[j + 1] && kw[j + 1] in kw && rep[0] in rep;
    }
    ReplaceAllUntouchedPrefix(t, m, pat, rep);
    assert s[..|kw|] == [s[0]] + t[..m];
    assert r[..|kw|] == [s[0]] + r1[..m];
  }

  /** Replacing with text that shares no character with `kw` does not create an
      occurrence of `kw`. */
  lemma {:induction false} ReplaceAllKeepsAbsent(s: string, pat: string, rep: string, kw: string)
    requires pat != "" && rep != "" && kw != "" && Disjoint(kw, rep)
    requires !Contains(s, kw)
    ensures !Contains(ReplaceAll(s, pat, rep), kw)
    decreases |s|
  {
    var r := ReplaceAll(s, pat, rep);
    if |s| < |pat| {
    } else if s[..|pat|] == pat {
      var rest := s[|pat|..];
      if Contains(rest, kw) {
        ContainsSuffix(s, |pat|, kw);
      } else {
        ReplaceAllKeepsAbsent(rest, pat, rep, kw);
        if Contains(r, kw) {
          ContainsPastDisjoint(rep, ReplaceAll(rest, pat, rep), kw);
        }
      }
    } else {
      var t := s[1..];
      ReplaceAllKeepsAbsent(t, pat, rep, kw);
      assert r[1..] == ReplaceAll(t, pat, rep);
      if StartsWith(r, kw) {
        ReplaceAllStartsWith(s, pat, rep, kw);
      }
    }
  }

  /** The value of a run of decimal digits, as Python's `int(...)` reads it. */
  function DigitsValue(ds: string): nat
    requires AllDigits(ds)
    decreases |ds|
  {
    if ds == [] then 0
    else DigitsValue(ds[..|ds| - 1]) * 10 + (ds[|ds| - 1] as int - '0' as int)
  }

  function DigitChar(d: nat): (c: char)
    requires d < 10
    ensures IsDigit(c)
  {
    ('0' as int + d) as char
  }

  /** Python's `str(n)` for a natural number: decimal digits, no leading zero. */
  function Decimal(n: nat): (r: string)
    ensures r != [] && AllDigits(r)
    decreases n
  {
    if n < 10 then [DigitChar(n)] else Decimal(n / 10) + [DigitChar(n % 10)]
  }

  /** A canonical decimal: non-empty digits with no leading zero (other than "0" itself). */
  predicate Canonical(ds: string) {
    ds != [] && AllDigits(ds) && (ds[0] == '0' ==> |ds| == 1)
  }

  /** `int(str(n)) == n`. */
  lemma {:induction false} DigitsValueOfDecimal(n: nat)
    ensures DigitsValue(Decimal(n)) == n
    decreases n
  {
    var ds := Decimal(n);
    if n >= 10 {
      DigitsValueOfDecimal(n / 10);
      assert ds[..|ds| - 1] == Decimal(n / 10);
    }
  }

  /** `str(n)` is canonical. */
  lemma {:induction false} DecimalIsCanonical(n: nat)
    ensures Canonical(Decimal(n))
    ensures n >= 10 <==> |Decimal(n)| >= 2
    decreases n
  {
    if n >= 10 {
      DecimalIsCanonical(n / 10);
      var ds := Decimal(n);
      assert ds[0] == Decimal(n / 10)[0];
    }
  }

  /** A canonical run of digits with a non-zero first digit has a positive value,
      and at least 10 when it has two digits or more. */
  lemma {:induction false} CanonicalValueBound(ds: string)
    requires AllDigits(ds) && ds != [] && ds[0] != '0'
    ensures DigitsValue(ds) >= 1
    ensures |ds| >= 2 ==> DigitsValue(ds) >= 10
    decreases |ds|
  {
    if |ds| >= 2 {
      var init := ds[..|ds| - 1];
      assert init[0] == ds[0];
      CanonicalValueBound(init);
    }
  }

  /** `str(int(ds)) == ds` for a canonical run of digits. */
  lemma {:induction false} DecimalOfDigitsValue(ds: string)
    requires Canonical(ds)
    ensures Decimal(DigitsValue(ds)) == ds
    decreases |ds|
  {
    var n := DigitsValue(ds);
    if |ds| == 1 {
      assert ds == [ds[0]];
      assert ds[..0] == [];
      assert n == DigitsValue([]) * 10 + (ds[0] as int - '0' as int);
    } else {
      var init := ds[..|ds| - 1];
      assert ds[0] != '0';
      CanonicalValueBound(ds);
      assert init[0] == ds[0];
      CanonicalValueBound(init);
      DecimalOfDigitsValue(init);
      var d := ds[|ds| - 1] as int - '0' as int;
      assert n == DigitsValue(init) * 10 + d;
      assert n / 10 == DigitsValue(init) && n % 10 == d;
      assert ds == init + [ds[|ds| - 1]];
    }
  }
}
