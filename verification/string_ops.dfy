/**
  The few Python string built-ins the importer relies on: substring
  containment (`sub in s`), `str.strip()` without arguments, and the
  decimal rendering of an integer (`str(n)`, as used by f-strings).
 */
module StringOps {

  // ---------------------------------------------------------------------------
  // Substring containment
  // ---------------------------------------------------------------------------

  /** `sub` occurs in `s` starting at index `i`. */
  predicate OccursAt(s: string, sub: string, i: int)
  {
    0 <= i && i + |sub| <= |s| && s[i..i + |sub|] == sub
  }

  /** `s` begins with `prefix`. */
  predicate StartsWith(s: string, prefix: string)
  {
    |prefix| <= |s| && s[..|prefix|] == prefix
  }

  /** `s` ends with `suffix`. */
  predicate EndsWith(s: string, suffix: string)
  {
    |suffix| <= |s| && s[|s| - |suffix|..] == suffix
  }

  /** An occurrence of `sub` in `s[1..]` is an occurrence in `s`, one place further on. */
  lemma OccursShifted(s: string, sub: string, i: int)
    requires s != [] && 0 <= i
    ensures OccursAt(s[1..], sub, i) <==> OccursAt(s, sub, i + 1)
  {
    if 0 <= i && i + |sub| <= |s| - 1 {
      assert s[1..][i..i + |sub|] == s[i + 1..i + 1 + |sub|];
    }
  }

  /** Python's `sub in s` on two strings: `sub` is a substring of `s`. */
  function Contains(s: string, sub: string): (r: bool)
    ensures r <==> exists i :: OccursAt(s, sub, i)
    decreases |s|
  {
    if StartsWith(s, sub) then
      assert OccursAt(s, sub, 0);
      true
    else if s == [] then
      false
    else
      var r := Contains(s[1..], sub);
      assert r ==> exists i :: OccursAt(s, sub, i) by {
        if r {
          var i :| OccursAt(s[1..], sub, i);
          OccursShifted(s, sub, i);
        }
      }
      assert (exists i :: OccursAt(s, sub, i)) ==> r by {
        if i :| OccursAt(s, sub, i) {
          assert i != 0;
          OccursShifted(s, sub, i - 1);
        }
      }
      r
  }

  /** A substring of a part of a concatenation is a substring of the whole. */
  lemma ContainsInConcat(a: string, b: string, sub: string)
    ensures Contains(a, sub) ==> Contains(a + b, sub)
    ensures Contains(b, sub) ==> Contains(a + b, sub)
  {
    if Contains(a, sub) {
      var i :| OccursAt(a, sub, i);
      assert (a + b)[i..i + |sub|] == a[i..i + |sub|];
      assert OccursAt(a + b, sub, i);
    }
    if Contains(b, sub) {
      var i :| OccursAt(b, sub, i);
      assert (a + b)[|a| + i..|a| + i + |sub|] == b[i..i + |sub|];
      assert OccursAt(a + b, sub, |a| + i);
    }
  }

  /** A string lacking some character of `sub` does not contain `sub`. */
  lemma MissingCharNotContained(s: string, sub: string, k: nat)
    requires k < |sub| && sub[k] !in s
    ensures !Contains(s, sub)
  {
    forall i ensures !OccursAt(s, sub, i) {
      if 0 <= i && i + |sub| <= |s| {
        assert s[i..i + |sub|][k] == s[i + k];
        assert s[i + k] != sub[k];
      }
    }
  }

  // ---------------------------------------------------------------------------
  // Whitespace and str.strip()
  // ---------------------------------------------------------------------------

  /**
    The characters for which Python's `str.isspace()` holds: TAB through
    CR, the four ASCII information separators, SPACE, NEL, NO-BREAK SPACE
    and the Unicode space, line and paragraph separators.
   */
  predicate IsSpace(c: char)
  {
    || '\t' <= c <= '\r'
    || '\U{1C}' <= c <= ' '
    || c == '\U{85}' || c == '\U{A0}' || c == '\U{1680}'
    || '\U{2000}' <= c <= '\U{200A}'
    || c == '\U{2028}' || c == '\U{2029}' || c == '\U{202F}' || c == '\U{205F}' || c == '\U{3000}'
  }

  /** Every character of `s` is whitespace (in particular, the empty string). */
  predicate AllSpace(s: string)
  {
    forall i :: 0 <= i < |s| ==> IsSpace(s[i])
  }

  /** `s` without its leading whitespace (`str.lstrip()`). */
  function TrimStart(s: string): (r: string)
    ensures |r| <= |s|
    decreases |s|
  {
    if s != [] && IsSpace(s[0]) then TrimStart(s[1..]) else s
  }

  /** `s` without its trailing whitespace (`str.rstrip()`). */
  function TrimEnd(s: string): (r: string)
    ensures |r| <= |s|
    decreases |s|
  {
    if s != [] && IsSpace(s[|s| - 1]) then TrimEnd(s[..|s| - 1]) else s
  }

  /** `lstrip()` removes a whitespace-only head and leaves a tail that starts with a non-space. */
  lemma {:induction false} TrimStartExact(s: string)
    ensures var r := TrimStart(s);
      && r == s[|s| - |r|..] && AllSpace(s[..|s| - |r|])
      && (r != [] ==> !IsSpace(r[0]))
    decreases |s|
  {
    if s != [] && IsSpace(s[0]) {
      var t := s[1..];
      var r := TrimStart(t);
      TrimStartExact(t);
      var k := |s| - |r|;
      assert r == s[k..] by { assert t[|t| - |r|..] == s[k..]; }
      forall j | 0 <= j < k ensures IsSpace(s[..k][j]) {
        if j > 0 {
          assert s[..k][j] == t[..k - 1][j - 1];
        }
      }
    }
  }

  /** `rstrip()` removes a whitespace-only tail and leaves a head that ends with a non-space. */
  lemma {:induction false} TrimEndExact(s: string)
    ensures var r := TrimEnd(s);
      && r == s[..|r|] && AllSpace(s[|r|..])
      && (r != [] ==> !IsSpace(r[|r| - 1]))
    decreases |s|
  {
    if s != [] && IsSpace(s[|s| - 1]) {
      var t := s[..|s| - 1];
      var r := TrimEnd(t);
      TrimEndExact(t);
      assert r == s[..|r|] by { assert t[..|r|] == s[..|r|]; }
      forall j | 0 <= j < |s| - |r| ensures IsSpace(s[|r|..][j]) {
        if j < |t| - |r| {
          assert s[|r|..][j] == t[|r|..][j];
        }
      }
    }
  }

  /** Whitespace-only strings are closed under concatenation and splitting. */
  lemma AllSpaceConcat(a: string, b: string)
    ensures AllSpace(a + b) <==> AllSpace(a) && AllSpace(b)
  {
    if AllSpace(a) && AllSpace(b) {
      forall k | 0 <= k < |a + b| ensures IsSpace((a + b)[k]) {
        if k >= |a| { assert (a + b)[k] == b[k - |a|]; }
      }
    }
    if AllSpace(a + b) {
      forall k | 0 <= k < |a| ensures IsSpace(a[k]) {
        assert (a + b)[k] == a[k];
      }
      forall k | 0 <= k < |b| ensures IsSpace(b[k]) {
        assert (a + b)[|a| + k] == b[k];
      }
    }
  }

  /** `r` is the slice of `s` at index `i` with only whitespace before and after it. */
  predicate SurroundedBySpace(s: string, r: string, i: int)
  {
    OccursAt(s, r, i) && AllSpace(s[..i]) && AllSpace(s[i + |r|..])
  }

  /**
    Python's `s.strip()`: `s` without the whitespace at either end.
    StripExact says what is left and where in `s` it sits.
   */
  function Strip(s: string): string
  {
    TrimEnd(TrimStart(s))
  }

  /** A whitespace-only head of `s` followed by a part of the rest and a whitespace-only tail. */
  lemma SplitAtSpace(s: string, i: nat, r: string)
    requires i <= |s| && AllSpace(s[..i])
    requires |r| <= |s| - i && r == s[i..i + |r|] && AllSpace(s[i + |r|..])
    ensures SurroundedBySpace(s, r, i)
    ensures AllSpace(s) <==> AllSpace(r)
  {
    var pre, post := s[..i], s[i + |r|..];
    assert s == pre + (r + post);
    AllSpaceConcat(pre, r + post);
    AllSpaceConcat(r, post);
  }

  /** Where in `s` the result of `strip()` starts: the length of its leading whitespace. */
  function StripOffset(s: string): (i: nat)
    ensures i <= |s|
  {
    |s| - |TrimStart(s)|
  }

  /**
    `strip()` leaves the part of `s` that lies between a whitespace-only
    head and a whitespace-only tail, and that part is empty exactly when
    `s` is whitespace only.
   */
  lemma StripExact(s: string)
    ensures SurroundedBySpace(s, Strip(s), StripOffset(s))
    ensures Strip(s) == [] <==> AllSpace(s)
    ensures Strip(s) != [] ==> !IsSpace(Strip(s)[0]) && !IsSpace(Strip(s)[|Strip(s)| - 1])
  {
    var left := TrimStart(s);
    var i := |s| - |left|;
    var r := TrimEnd(left);
    assert left == s[i..] && AllSpace(s[..i]) && (left != [] ==> !IsSpace(left[0])) by {
      TrimStartExact(s);
    }
    assert r == left[..|r|] && AllSpace(left[|r|..]) && (r != [] ==> !IsSpace(r[|r| - 1])) by {
      TrimEndExact(left);
    }
    assert r == s[i..i + |r|];
    assert s[i + |r|..] == left[|r|..];
    SplitAtSpace(s, i, r);
    assert r != [] ==> r[0] == left[0];
    assert r == [] <==> AllSpace(r);
  }

  /** Dropping leading whitespace from a string that goes on with a non-space. */
  lemma {:induction false} TrimStartAfterSpace(left: string, x: string)
    requires AllSpace(left)
    requires x == [] || !IsSpace(x[0])
    ensures TrimStart(left + x) == x
    decreases |left|
  {
    if left != [] {
      assert (left + x)[1..] == left[1..] + x;
      TrimStartAfterSpace(left[1..], x);
    }
  }

  /** Dropping trailing whitespace from a string that is a non-space before it. */
  lemma {:induction false} TrimEndBeforeSpace(x: string, right: string)
    requires AllSpace(right)
    requires x == [] || !IsSpace(x[|x| - 1])
    ensures TrimEnd(x + right) == x
    decreases |right|
  {
    if right != [] {
      var s := x + right;
      assert s[|s| - 1] == right[|right| - 1];
      assert s[..|s| - 1] == x + right[..|right| - 1];
      TrimEndBeforeSpace(x, right[..|right| - 1]);
    } else {
      assert x + right == x;
    }
  }

  /**
    A string that is non-empty and neither starts nor ends with whitespace
    is what `strip()` returns for it surrounded by any whitespace.
   */
  lemma StripOfTrimmed(m: string, left: string, right: string)
    requires AllSpace(left) && AllSpace(right)
    requires m != [] && !IsSpace(m[0]) && !IsSpace(m[|m| - 1])
    ensures Strip(left + m + right) == m
  {
    assert left + m + right == left + (m + right);
    TrimStartAfterSpace(left, m + right);
    TrimEndBeforeSpace(m, right);
  }

  /** Stripping a string twice is the same as stripping it once. */
  lemma StripIdempotent(s: string)
    ensures Strip(Strip(s)) == Strip(s)
  {
    var r := Strip(s);
    if r != [] {
      StripExact(s);
      StripOfTrimmed(r, "", "");
      assert "" + r + "" == r;
    }
  }

  // ---------------------------------------------------------------------------
  // Decimal numerals
  // ---------------------------------------------------------------------------

  predicate IsDigit(c: char)
  {
    '0' <= c <= '9'
  }

  predicate AllDigits(s: string)
  {
    forall i :: 0 <= i < |s| ==> IsDigit(s[i])
  }

  function DigitChar(d: nat): (c: char)
    requires d < 10
    ensures IsDigit(c)
  {
    (('0' as int) + d) as char
  }

  function DigitValue(c: char): nat
    requires IsDigit(c)
  {
    (c as int) - ('0' as int)
  }

  /** The decimal numeral of `n`, most significant digit first, as `str(n)` writes it. */
  function NatToDecimal(n: nat): (s: string)
    ensures s != [] && AllDigits(s)
    ensures s[0] == '0' <==> n == 0
    decreases n
  {
    if n < 10 then [DigitChar(n)] else NatToDecimal(n / 10) + [DigitChar(n % 10)]
  }

  /** The number a run of decimal digits denotes ("" denotes 0). */
  function DecimalValue(s: string): nat
    requires AllDigits(s)
    decreases |s|
  {
    if s == [] then 0 else DecimalValue(s[..|s| - 1]) * 10 + DigitValue(s[|s| - 1])
  }

  /** Reading back a rendered numeral gives the number. */
  lemma {:induction false} DecimalRoundTrip(n: nat)
    ensures DecimalValue(NatToDecimal(n)) == n
    decreases n
  {
    if n >= 10 {
      DecimalRoundTrip(n / 10);
      var s := NatToDecimal(n);
      assert s[..|s| - 1] == NatToDecimal(n / 10);
    }
  }

  /** `str(n)` for any integer: a minus sign before the magnitude when negative. */
  function IntToDecimal(n: int): string
  {
    if n < 0 then "-" + NatToDecimal(-n) else NatToDecimal(n)
  }
}
