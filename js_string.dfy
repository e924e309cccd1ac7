/**
 * Models of the JavaScript string built-ins the core relies on:
 * `lastIndexOf`, `split(c)[0]`, `replace(/[..]/g, "")`, `toLowerCase`,
 * the decimal rendering of an integer in a template string, and `join`.
 */
module JsString {

  /** `b` contains `a` as a contiguous piece. */
  ghost predicate Occurs(a: string, b: string)
  {
    exists p, q :: b == p + a + q
  }

  lemma OccursTrans(a: string, b: string, c: string)
    requires Occurs(a, b) && Occurs(b, c)
    ensures Occurs(a, c)
  {
    var p1, q1 :| b == p1 + a + q1;
    var p2, q2 :| c == p2 + b + q2;
    assert c == (p2 + p1) + a + (q1 + q2);
  }

  lemma OccursIn(a: string, p: string, q: string)
    ensures Occurs(a, p + a + q)
  {
    assert p + a + q == p + a + q;
  }

  lemma OccursAtStart(a: string, q: string)
    ensures Occurs(a, a + q)
  {
    assert a + q == "" + a + q;
  }

  lemma OccursAtEnd(a: string, p: string)
    ensures Occurs(a, p + a)
  {
    assert p + a == p + a + "";
  }

  lemma OccursAppend(a: string, b: string, c: string)
    requires Occurs(a, b)
    ensures Occurs(a, b + c)
  {
    var p, q :| b == p + a + q;
    assert b + c == p + a + (q + c);
  }

  /** `s.lastIndexOf(c)` for a one-character needle; -1 when `c` is absent. */
  function LastIndexOf(s: string, c: char): (r: int)
    ensures -1 <= r < |s|
    ensures r == -1 <==> c !in s
    ensures 0 <= r ==> s[r] == c && c !in s[r + 1..]
  {
    if s == [] then -1
    else if s[|s| - 1] == c then |s| - 1
    else
      assert s == s[..|s| - 1] + [s[|s| - 1]];
      LastIndexOf(s[..|s| - 1], c)
  }

  /** The last occurrence is the one with no further occurrence after it. */
  lemma LastIndexOfAt(s: string, c: char, k: nat)
    requires k < |s| && s[k] == c && c !in s[k + 1..]
    ensures LastIndexOf(s, c) == k
  {
  }

  /** `s.split(c)[0]`: the text before the first `c`, or all of `s` when there is none. */
  function BeforeFirst(s: string, c: char): (r: string)
    ensures r <= s
    ensures c !in r
    ensures |r| < |s| ==> s[|r|] == c
  {
    if s == [] || s[0] == c then [] else [s[0]] + BeforeFirst(s[1..], c)
  }

  lemma {:induction false} BeforeFirstStops(a: string, c: char, b: string)
    requires c !in a
    ensures BeforeFirst(a + [c] + b, c) == a
  {
    if a != [] {
      assert (a + [c] + b)[1..] == a[1..] + [c] + b;
      BeforeFirstStops(a[1..], c, b);
    }
  }

  /** `s.replace(/[...]/g, "")`: `s` without any character of `drop`, order kept. */
  function RemoveAll(s: string, drop: set<char>): (r: string)
    ensures |r| <= |s|
    ensures forall i :: 0 <= i < |r| ==> r[i] !in drop
  {
    if s == [] then []
    else (if s[0] in drop then [] else [s[0]]) + RemoveAll(s[1..], drop)
  }

  lemma {:induction false} RemoveAllAppend(a: string, b: string, drop: set<char>)
    ensures RemoveAll(a + b, drop) == RemoveAll(a, drop) + RemoveAll(b, drop)
  {
    if a == [] {
      assert a + b == b;
    } else {
      assert (a + b)[1..] == a[1..] + b;
      RemoveAllAppend(a[1..], b, drop);
    }
  }

  lemma {:induction false} RemoveAllKeeps(s: string, drop: set<char>)
    requires forall i :: 0 <= i < |s| ==> s[i] !in drop
    ensures RemoveAll(s, drop) == s
  {
    if s != [] {
      RemoveAllKeeps(s[1..], drop);
    }
  }

  /** The ASCII case mapping `toLowerCase` applies to `A`..`Z`. */
  function LowerChar(c: char): (r: char)
    ensures ('A' <= c <= 'Z') == (r != c)
    ensures r == '.' <==> c == '.'
    ensures r == '/' <==> c == '/'
  {
    if 'A' <= c <= 'Z' then (c as int + 32) as char else c
  }

  /** `s.toLowerCase()` restricted to ASCII letters, character by character. */
  function AsciiLower(s: string): (r: string)
    ensures |r| == |s|
    ensures forall i :: 0 <= i < |s| ==> r[i] == LowerChar(s[i])
  {
    seq(|s|, k requires 0 <= k < |s| => LowerChar(s[k]))
  }

  lemma AsciiLowerSlice(s: string, i: nat, j: nat)
    requires i <= j <= |s|
    ensures AsciiLower(s[i..j]) == AsciiLower(s)[i..j]
  {
    assert forall k :: 0 <= k < j - i ==> AsciiLower(s[i..j])[k] == AsciiLower(s)[i..j][k];
  }

  lemma AsciiLowerSuffix(s: string, i: nat)
    requires i <= |s|
    ensures AsciiLower(s[i..]) == AsciiLower(s)[i..]
  {
    assert forall k :: 0 <= k < |s| - i ==> AsciiLower(s[i..])[k] == AsciiLower(s)[i..][k];
  }

  predicate IsDigit(c: char) { '0' <= c <= '9' }

  function DigitChar(d: nat): (c: char)
    requires d < 10
    ensures IsDigit(c)
  {
    (d + '0' as int) as char
  }

  function DigitValue(c: char): (d: nat)
    requires IsDigit(c)
    ensures d < 10 && DigitChar(d) == c
  {
    c as int - '0' as int
  }

  predicate AllDigits(s: string)
  {
    forall i :: 0 <= i < |s| ==> IsDigit(s[i])
  }

  /** `${n}` for a non-negative integer: decimal digits, no padding. */
  function Decimal(n: nat): (r: string)
    ensures 1 <= |r|
    ensures forall i :: 0 <= i < |r| ==> IsDigit(r[i])
    ensures r[0] == '0' ==> n == 0 && r == "0"
  {
    if n < 10 then [DigitChar(n)] else Decimal(n / 10) + [DigitChar(n % 10)]
  }

  /** Reading a string of decimal digits back as a number. */
  function ParseDecimal(s: string): nat
    requires forall i :: 0 <= i < |s| ==> IsDigit(s[i])
  {
    if s == [] then 0 else ParseDecimal(s[..|s| - 1]) * 10 + DigitValue(s[|s| - 1])
  }

  lemma {:induction false} DecimalRoundTrip(n: nat)
    ensures ParseDecimal(Decimal(n)) == n
  {
    if n >= 10 {
      DecimalRoundTrip(n / 10);
      var s := Decimal(n);
      assert s[..|s| - 1] == Decimal(n / 10);
      assert DigitValue(DigitChar(n % 10)) == n % 10;
    }
  }

  lemma {:induction false} DecimalLength(n: nat, k: nat)
    requires n < Pow10(k) && 1 <= k
    ensures |Decimal(n)| <= k
  {
    if n >= 10 {
      DecimalLength(n / 10, k - 1);
    }
  }

  function Pow10(k: nat): (r: nat)
    ensures r >= 1
  {
    if k == 0 then 1 else 10 * Pow10(k - 1)
  }

  /** `xs.join(sep)`. */
  function Join(xs: seq<string>, sep: string): string
  {
    if |xs| == 0 then ""
    else if |xs| == 1 then xs[0]
    else xs[0] + sep + Join(xs[1..], sep)
  }

  lemma {:induction false} JoinMentionsEach(xs: seq<string>, sep: string, i: nat)
    requires i < |xs|
    ensures Occurs(xs[i], Join(xs, sep))
  {
    if |xs| == 1 {
      assert Join(xs, sep) == "" + xs[0] + "";
    } else if i == 0 {
      assert Join(xs, sep) == "" + xs[0] + (sep + Join(xs[1..], sep));
    } else {
      JoinMentionsEach(xs[1..], sep, i - 1);
      OccursIn(Join(xs[1..], sep), xs[0] + sep, "");
      assert Join(xs, sep) == xs[0] + sep + Join(xs[1..], sep) + "";
      OccursTrans(xs[i], Join(xs[1..], sep), Join(xs, sep));
    }
  }
}
