/**
 * The string operations the script relies on, written with Python's meaning:
 * `str.strip()` (Unicode whitespace), `str.replace(c, "")`, `str.lower()` as far as it can
 * produce ASCII letters, string comparison by code point, and zero-padded decimal digits.
 */
module Text {

  /** Python's `str.isspace()` for a single character. */
  predicate IsSpace(c: char) {
    ('\t' <= c <= '\r') || ('\U{1C}' <= c <= '\U{1F}') || c == ' ' || c == '\U{85}' ||
    c == '\U{A0}' || c == '\U{1680}' || ('\U{2000}' <= c <= '\U{200A}') ||
    c == '\U{2028}' || c == '\U{2029}' || c == '\U{202F}' || c == '\U{205F}' || c == '\U{3000}'
  }

  /** Neither end of `s` is whitespace: what `strip()` returns. */
  predicate IsStripped(s: string) {
    s == [] || (!IsSpace(s[0]) && !IsSpace(s[|s| - 1]))
  }

  /** `lstrip()`. */
  function StripLeft(s: string): string {
    if |s| > 0 && IsSpace(s[0]) then StripLeft(s[1..]) else s
  }

  /** `rstrip()`. */
  function StripRight(s: string): string {
    if |s| > 0 && IsSpace(s[|s| - 1]) then StripRight(s[..|s| - 1]) else s
  }

  /** `lstrip()` removes exactly the longest whitespace prefix. */
  lemma {:induction false} StripLeftSpec(s: string)
    ensures |StripLeft(s)| <= |s| && StripLeft(s) == s[|s| - |StripLeft(s)|..]
    ensures StripLeft(s) == [] || !IsSpace(StripLeft(s)[0])
    ensures forall k :: 0 <= k < |s| - |StripLeft(s)| ==> IsSpace(s[k])
  {
    if |s| > 0 && IsSpace(s[0]) {
      var t := s[1..];
      StripLeftSpec(t);
      var r := StripLeft(t);
      assert StripLeft(s) == r;
      assert s[|s| - |r|..] == t[|t| - |r|..];
      forall k | 0 <= k < |s| - |r| ensures IsSpace(s[k]) {
        if k > 0 { assert s[k] == t[k - 1]; }
      }
    }
  }

  /** `rstrip()` removes exactly the longest whitespace suffix. */
  lemma {:induction false} StripRightSpec(s: string)
    ensures |StripRight(s)| <= |s| && StripRight(s) == s[..|StripRight(s)|]
    ensures StripRight(s) == [] || !IsSpace(StripRight(s)[|StripRight(s)| - 1])
    ensures forall k :: |StripRight(s)| <= k < |s| ==> IsSpace(s[k])
  {
    if |s| > 0 && IsSpace(s[|s| - 1]) {
      var t := s[..|s| - 1];
      StripRightSpec(t);
      var r := StripRight(t);
      assert StripRight(s) == r;
      assert s[..|r|] == t[..|r|];
      forall k | |r| <= k < |s| ensures IsSpace(s[k]) {
        if k < |t| { assert s[k] == t[k]; }
      }
    }
  }

  /** `strip()`: the result has no whitespace at either end. */
  function Strip(s: string): (r: string)
    ensures IsStripped(r)
  {
    var left := StripLeft(s);
    StripLeftSpec(s);
    StripRightSpec(left);
    var r := StripRight(left);
    assert r != [] ==> r[0] == left[0];
    r
  }

  /** Stripping that removes no character returns its input. */
  lemma StripSameLength(s: string)
    requires |Strip(s)| == |s|
    ensures Strip(s) == s
  {
    var left := StripLeft(s);
    StripLeftSpec(s);
    StripRightSpec(left);
    assert StripRight(left) == Strip(s);
    assert |left| == |s|;
    assert left == s[0..] == s;
    assert Strip(s) == left[..|left|] == left;
  }

  /** A string that is not already stripped loses at least one character. */
  lemma StripShortens(s: string)
    requires !IsStripped(s)
    ensures |Strip(s)| < |s|
  {
    StripProperties(s);
    if |Strip(s)| == |s| {
      StripSameLength(s);
    }
  }

  /** Stripping shortens, keeps a string that is already stripped, and empties exactly a blank one. */
  lemma StripProperties(s: string)
    ensures |Strip(s)| <= |s|
    ensures IsStripped(s) ==> Strip(s) == s
    ensures Strip(s) == "" <==> forall k :: 0 <= k < |s| ==> IsSpace(s[k])
  {
    var left := StripLeft(s);
    StripLeftSpec(s);
    StripRightSpec(left);
    assert IsStripped(s) && s != [] ==> left == s && StripRight(s) == s;
    assert s != [] && !IsSpace(s[0]) ==> left == s;
  }

  /** Stripping whitespace padding around a stripped, non-empty string gives that string back. */
  lemma StripPadded(pre: string, x: string, post: string)
    requires forall k :: 0 <= k < |pre| ==> IsSpace(pre[k])
    requires forall k :: 0 <= k < |post| ==> IsSpace(post[k])
    requires x != [] && IsStripped(x)
    ensures Strip(pre + x + post) == x
  {
    var s := pre + x + post;
    assert s == pre + (x + post);
    StripLeftPadded(pre, x + post);
    assert StripLeft(s) == x + post;
    StripRightPadded(x, post);
    assert Strip(s) == StripRight(StripLeft(s));
  }

  lemma {:induction false} StripLeftPadded(pre: string, x: string)
    requires forall k :: 0 <= k < |pre| ==> IsSpace(pre[k])
    requires x != [] && !IsSpace(x[0])
    ensures StripLeft(pre + x) == x
  {
    if pre == [] {
      assert pre + x == x;
    } else {
      assert (pre + x)[1..] == pre[1..] + x;
      StripLeftPadded(pre[1..], x);
    }
  }

  lemma {:induction false} StripRightPadded(x: string, post: string)
    requires forall k :: 0 <= k < |post| ==> IsSpace(post[k])
    requires x != [] && !IsSpace(x[|x| - 1])
    ensures StripRight(x + post) == x
  {
    if post == [] {
      assert x + post == x;
    } else {
      assert (x + post)[..|x + post| - 1] == x + post[..|post| - 1];
      StripRightPadded(x, post[..|post| - 1]);
    }
  }

  /** Deleting a character distributes over concatenation. */
  lemma {:induction false} RemoveConcat(a: string, b: string, c: char)
    ensures Remove(a + b, c) == Remove(a, c) + Remove(b, c)
  {
    if b == [] {
      assert a + b == a;
    } else {
      assert (a + b)[..|a + b| - 1] == a + b[..|b| - 1];
      RemoveConcat(a, b[..|b| - 1], c);
    }
  }

  /** `s.replace(c, "")`: every `c` is deleted and nothing else changes. */
  function Remove(s: string, c: char): (r: string)
    ensures c !in r
    ensures |r| <= |s|
    ensures forall d :: d != c ==> (d in r <==> d in s)
    ensures c !in s ==> r == s
  {
    if s == [] then []
    else
      var rest := Remove(s[..|s| - 1], c);
      assert s == s[..|s| - 1] + [s[|s| - 1]];
      if s[|s| - 1] == c then rest else rest + [s[|s| - 1]]
  }

  /**
   * `lower()` of one character, restricted to what can yield an ASCII letter:
   * `A`..`Z` and the Kelvin sign U+212A (whose lower case is `k`). Every other
   * character is kept; see README for what this leaves out.
   */
  function LowerChar(c: char): (d: char)
    ensures 'A' <= c <= 'Z' ==> d as int == c as int + 32
    ensures ('a' <= d <= 'z') <==> ('a' <= c <= 'z' || 'A' <= c <= 'Z' || c == '\U{212A}')
  {
    if 'A' <= c <= 'Z' then (c as int + 32) as char
    else if c == '\U{212A}' then 'k'
    else c
  }

  /** `lower()` character by character. */
  function Lower(s: string): (r: string)
    ensures |r| == |s|
    ensures forall k :: 0 <= k < |s| ==> r[k] == LowerChar(s[k])
  {
    seq(|s|, k requires 0 <= k < |s| => LowerChar(s[k]))
  }

  // ---------------------------------------------------------------------------
  // String order: Python compares strings code point by code point, and a proper
  // prefix comes first. pandas' `groupby` and Python's `sorted` use this order.
  // ---------------------------------------------------------------------------

  predicate Less(a: string, b: string) {
    |b| > 0 && (|a| == 0 || a[0] < b[0] || (a[0] == b[0] && Less(a[1..], b[1..])))
  }

  lemma {:induction false} LessIrreflexive(a: string)
    ensures !Less(a, a)
  {
    if |a| > 0 { LessIrreflexive(a[1..]); }
  }

  lemma {:induction false} LessTransitive(a: string, b: string, c: string)
    requires Less(a, b) && Less(b, c)
    ensures Less(a, c)
  {
    if |a| > 0 && a[0] == b[0] && b[0] == c[0] {
      LessTransitive(a[1..], b[1..], c[1..]);
    }
  }

  lemma {:induction false} LessTotal(a: string, b: string)
    ensures a == b || Less(a, b) || Less(b, a)
  {
    if |a| > 0 && |b| > 0 && a[0] == b[0] {
      LessTotal(a[1..], b[1..]);
      if a[1..] == b[1..] {
        assert a == [a[0]] + a[1..] && b == [b[0]] + b[1..];
      }
    }
  }

  lemma {:induction false} LessAsymmetric(a: string, b: string)
    requires Less(a, b)
    ensures !Less(b, a)
  {
    if Less(b, a) {
      LessTransitive(a, b, a);
      LessIrreflexive(a);
    }
  }

  /** On strings of equal length, order is decided by the first part, then by the rest. */
  lemma {:induction false} LessConcat(a: string, c: string, b: string, d: string)
    requires |a| == |b|
    ensures Less(a + c, b + d) <==> Less(a, b) || (a == b && Less(c, d))
  {
    if |a| > 0 {
      assert (a + c)[1..] == a[1..] + c && (b + d)[1..] == b[1..] + d;
      LessConcat(a[1..], c, b[1..], d);
      if a[0] == b[0] && a[1..] == b[1..] {
        assert a == [a[0]] + a[1..] && b == [b[0]] + b[1..];
      }
    } else {
      assert a + c == c && b + d == d;
    }
  }

  /** Strictly increasing in string order: sorted and free of duplicates. */
  predicate StrictlyAscending(s: seq<string>) {
    forall i, j :: 0 <= i < j < |s| ==> Less(s[i], s[j])
  }

  /** Nondecreasing in string order: what `sorted` returns. */
  predicate Ascending(s: seq<string>) {
    forall i, j :: 0 <= i < j < |s| ==> !Less(s[j], s[i])
  }

  /** Two strictly ascending sequences with the same elements are the same sequence. */
  lemma {:induction false} StrictlyAscendingUnique(a: seq<string>, b: seq<string>)
    requires StrictlyAscending(a) && StrictlyAscending(b)
    requires forall x :: x in a <==> x in b
    ensures a == b
  {
    assert a != [] ==> a[0] in b;
    assert b != [] ==> b[0] in a;
    if a != [] && b != [] {
      if a[0] != b[0] {
        assert b[0] in a && a[0] in b;
        var i :| 0 <= i < |a| && a[i] == b[0];
        var j :| 0 <= j < |b| && b[j] == a[0];
        assert i > 0 && j > 0;
        LessAsymmetric(a[0], a[i]);
      }
      forall x ensures x in a[1..] <==> x in b[1..] {
        if x in a[1..] {
          var i :| 1 <= i < |a| && a[i] == x;
          if x == b[0] { LessIrreflexive(a[0]); }
          assert x in b;
          var j :| 0 <= j < |b| && b[j] == x;
          assert j != 0;
        }
        if x in b[1..] {
          var j :| 1 <= j < |b| && b[j] == x;
          if x == a[0] { LessIrreflexive(b[0]); }
          assert x in a;
          var i :| 0 <= i < |a| && a[i] == x;
          assert i != 0;
        }
      }
      StrictlyAscendingUnique(a[1..], b[1..]);
      assert a == [a[0]] + a[1..] && b == [b[0]] + b[1..];
    }
  }

  // ---------------------------------------------------------------------------
  // Zero-padded decimal digits, as in the `YYYY-MM` labels of monthly periods.
  // ---------------------------------------------------------------------------

  function Pow10(n: nat): (p: nat)
    ensures p >= 1
  {
    if n == 0 then 1 else 10 * Pow10(n - 1)
  }

  function DigitChar(d: nat): (c: char)
    requires d < 10
    ensures '0' <= c <= '9'
  {
    ('0' as int + d) as char
  }

  /** The last `n` decimal digits of `x`, padded on the left with zeros. */
  function Digits(x: nat, n: nat): (r: string)
    ensures |r| == n
    ensures forall k :: 0 <= k < n ==> '0' <= r[k] <= '9'
  {
    if n == 0 then [] else Digits(x / 10, n - 1) + [DigitChar(x % 10)]
  }

  /** The number a string of decimal digits denotes (`int(s)`). */
  function DecimalValue(s: string): int {
    if s == [] then 0 else 10 * DecimalValue(s[..|s| - 1]) + (s[|s| - 1] as int - '0' as int)
  }

  /** A number that fits in `n` digits is read back exactly from its padded digits. */
  lemma {:induction false} DigitsValue(x: nat, n: nat)
    requires x < Pow10(n)
    ensures DecimalValue(Digits(x, n)) == x
  {
    if n > 0 {
      assert x == 10 * (x / 10) + x % 10;
      DigitsValue(x / 10, n - 1);
      var d := Digits(x, n);
      assert d[..n - 1] == Digits(x / 10, n - 1);
      assert d[n - 1] as int - '0' as int == x % 10;
    }
  }

  lemma Pow10Small()
    ensures Pow10(2) == 100 && Pow10(4) == 10000
  {
  }

  /** For numbers that fit in `n` digits, the padded labels are equal exactly when the numbers are. */
  lemma {:induction false} DigitsInjective(x: nat, y: nat, n: nat)
    requires x < Pow10(n) && y < Pow10(n)
    ensures Digits(x, n) == Digits(y, n) <==> x == y
  {
    if n > 0 {
      DigitsInjective(x / 10, y / 10, n - 1);
      var a, b := Digits(x, n), Digits(y, n);
      if a == b {
        assert a[n - 1] == b[n - 1] && a[..n - 1] == b[..n - 1];
        assert Digits(x / 10, n - 1) == a[..n - 1] && Digits(y / 10, n - 1) == b[..n - 1];
        assert x % 10 == y % 10;
      }
    }
  }

  /** For numbers that fit in `n` digits, string order of the padded labels is numeric order. */
  lemma {:induction false} DigitsOrder(x: nat, y: nat, n: nat)
    requires x < Pow10(n) && y < Pow10(n)
    ensures Less(Digits(x, n), Digits(y, n)) <==> x < y
  {
    if n == 0 {
    } else {
      DigitsOrder(x / 10, y / 10, n - 1);
      DigitsInjective(x / 10, y / 10, n - 1);
      LessConcat(Digits(x / 10, n - 1), [DigitChar(x % 10)], Digits(y / 10, n - 1), [DigitChar(y % 10)]);
      assert Less([DigitChar(x % 10)], [DigitChar(y % 10)]) <==> x % 10 < y % 10 by {
        assert [DigitChar(x % 10)][1..] == [];
      }
    }
  }
}
