/**
 * Model of `appendTimestampToFile` (utils/stringUtils.js): a file name made
 * unique by inserting `_<timestamp>_<random>` before its last dot.  The clock
 * (`new Date().toISOString()`) and `Math.random()` are parameters.
 */
module StringUtils {
  import opened JsString

  /** The values `Math.floor(Math.random() * 10000)` can take. */
  type RandomToken = r: int | 0 <= r < 10000

  /** `Math.floor(u * 10000)` for a draw `u` of `Math.random()`, which lies in [0, 1). */
  function RandomNumber(u: real): (r: RandomToken)
    requires 0.0 <= u < 1.0
    ensures r as real <= u * 10000.0 < r as real + 1.0
  {
    (u * 10000.0).Floor
  }

  /** `iso.replace(/[-:T]/g, "").split(".")[0]`. */
  function Timestamp(iso: string): (ts: string)
    ensures |ts| <= |iso|
    ensures '-' !in ts && ':' !in ts && 'T' !in ts && '.' !in ts
  {
    var stripped := RemoveAll(iso, {'-', ':', 'T'});
    var ts := BeforeFirst(stripped, '.');
    assert forall i :: 0 <= i < |ts| ==> ts[i] == stripped[i];
    ts
  }

  /** The piece inserted into the name: `_${timestamp}_${randomNumber}`. */
  function Token(iso: string, random: RandomToken): string
  {
    "_" + Timestamp(iso) + "_" + Decimal(random)
  }

  function AppendTimestampToFile(filename: string, iso: string, random: RandomToken): (r: string)
    ensures |r| == |filename| + 2 + |Timestamp(iso)| + |Decimal(random)|
  {
    var lastDot := LastIndexOf(filename, '.');
    if lastDot == -1 then filename + Token(iso, random)
    else filename[..lastDot] + Token(iso, random) + filename[lastDot..]
  }

  /** `p` is where the token goes: the last dot of `filename`, or its end when there is no dot. */
  predicate IsInsertionPoint(filename: string, p: nat)
  {
    && p <= |filename|
    && ('.' !in filename ==> p == |filename|)
    && ('.' in filename ==> p < |filename| && filename[p] == '.' && '.' !in filename[p + 1..])
  }

  /**
   * The result is the original name cut in two at the last dot (or at its
   * end), with the token in between: the extension keeps its dot and every
   * earlier dot stays in the name part.
   */
  lemma InsertsBeforeLastDot(filename: string, iso: string, random: RandomToken)
    ensures exists p: nat ::
      && IsInsertionPoint(filename, p)
      && AppendTimestampToFile(filename, iso, random) == filename[..p] + Token(iso, random) + filename[p..]
  {
    var lastDot := LastIndexOf(filename, '.');
    var p: nat := if lastDot == -1 then |filename| else lastDot;
    assert filename[..|filename|] == filename && filename[|filename|..] == [];
    assert IsInsertionPoint(filename, p);
  }

  /** The insertion point is unique, so the original name can be read back from the result. */
  lemma InsertionPointUnique(filename: string, p: nat, q: nat)
    requires IsInsertionPoint(filename, p) && IsInsertionPoint(filename, q)
    ensures p == q
  {
  }

  /** A name without any dot gets the token appended at its end. */
  lemma NoDotAppends(filename: string, iso: string, random: RandomToken)
    requires '.' !in filename
    ensures AppendTimestampToFile(filename, iso, random)
         == filename + "_" + Timestamp(iso) + "_" + Decimal(random)
  {
    var ts, r := Timestamp(iso), Decimal(random);
    assert AppendTimestampToFile(filename, iso, random) == filename + Token(iso, random);
    assert filename + ("_" + ts + "_" + r) == filename + "_" + ts + "_" + r;
  }

  /**
   * Only the last dot of the whole string counts: when the file part of a
   * path has no dot, the token lands inside the directory part, before its
   * last dot (`./out/report` becomes `_<ts>_<r>./out/report`).
   */
  lemma DotInDirectoryOnly(dir: string, base: string, iso: string, random: RandomToken)
    requires '.' in dir && '.' !in base
    ensures var k := LastIndexOf(dir, '.');
      && 0 <= k
      && AppendTimestampToFile(dir + "/" + base, iso, random)
         == dir[..k] + Token(iso, random) + dir[k..] + "/" + base
  {
    var tail := "/" + base;
    InsertInDirectory(dir, tail, iso, random);
    assert dir + "/" + base == dir + tail;
    var k, t := LastIndexOf(dir, '.'), Token(iso, random);
    assert dir[..k] + t + dir[k..] + "/" + base == dir[..k] + t + dir[k..] + tail;
  }

  /** The last dot of `dir` is the last dot of `dir + tail` when `tail` has none. */
  lemma InsertInDirectory(dir: string, tail: string, iso: string, random: RandomToken)
    requires '.' in dir && '.' !in tail
    ensures var k := LastIndexOf(dir, '.');
      AppendTimestampToFile(dir + tail, iso, random) == dir[..k] + Token(iso, random) + dir[k..] + tail
  {
    var k, t := LastIndexOf(dir, '.'), Token(iso, random);
    SplitInside(dir, tail, k);
    InsertAtDot(dir + tail, k, iso, random);
    InsertShape(dir, tail, t, k);
  }

  lemma SplitInside(a: string, b: string, k: nat)
    requires k < |a|
    ensures (a + b)[k] == a[k] && (a + b)[k + 1..] == a[k + 1..] + b
  {
  }

  lemma InsertShape(a: string, b: string, t: string, k: nat)
    requires k < |a|
    ensures (a + b)[..k] + t + (a + b)[k..] == a[..k] + t + a[k..] + b
  {
    assert (a + b)[..k] == a[..k];
    assert (a + b)[k..] == a[k..] + b;
  }

  /** The token goes in front of a dot that no later dot follows. */
  lemma InsertAtDot(filename: string, k: nat, iso: string, random: RandomToken)
    requires k < |filename| && filename[k] == '.' && '.' !in filename[k + 1..]
    ensures AppendTimestampToFile(filename, iso, random) == filename[..k] + Token(iso, random) + filename[k..]
  {
    LastIndexOfAt(filename, '.', k);
  }

  /** All characters of `s` are digits and there are exactly `n` of them. */
  predicate DigitsOfLength(s: string, n: nat)
  {
    |s| == n && AllDigits(s)
  }

  /**
   * For the form `YYYY-MM-DDTHH:mm:ss.sssZ` that `toISOString` produces, the
   * timestamp is the fourteen digits `YYYYMMDDHHmmss`, date and time run
   * together without a separator.
   */
  lemma IsoTimestamp(y: string, mo: string, d: string, h: string, mi: string, s: string, ms: string)
    requires DigitsOfLength(y, 4) && DigitsOfLength(mo, 2) && DigitsOfLength(d, 2)
    requires DigitsOfLength(h, 2) && DigitsOfLength(mi, 2) && DigitsOfLength(s, 2)
    requires DigitsOfLength(ms, 3)
    ensures Timestamp(y + "-" + mo + "-" + d + "T" + h + ":" + mi + ":" + s + "." + ms + "Z")
         == y + mo + d + h + mi + s
    ensures DigitsOfLength(y + mo + d + h + mi + s, 14)
  {
    var drop := {'-', ':', 'T'};
    var tail := "." + ms + "Z";
    DigitsAreKept(tail[1..|tail| - 1]);
    RemoveAllAppend(tail[..|tail| - 1], "Z", drop);
    RemoveAllAppend(".", tail[1..|tail| - 1], drop);
    assert tail == "." + tail[1..|tail| - 1] + "Z";
    assert RemoveAll(tail, drop) == tail;
    StripSeparators(y, mo, d, h, mi, s, tail);
    var digits := y + mo + d + h + mi + s;
    FlatIso(y, mo, d, h, mi, s, ms);
    Regroup6(y, mo, d, h, mi, s, tail);
    assert digits + tail == digits + ['.'] + (ms + "Z");
    BeforeFirstStops(digits, '.', ms + "Z");
    DigitsJoin(y, mo, d, h, mi, s);
  }

  lemma FlatIso(y: string, mo: string, d: string, h: string, mi: string, s: string, ms: string)
    ensures y + "-" + mo + "-" + d + "T" + h + ":" + mi + ":" + s + "." + ms + "Z"
         == y + ("-" + (mo + ("-" + (d + ("T" + (h + (":" + (mi + (":" + (s + ("." + ms + "Z")))))))))))
  {
  }

  lemma DigitsJoin(y: string, mo: string, d: string, h: string, mi: string, s: string)
    requires DigitsOfLength(y, 4) && DigitsOfLength(mo, 2) && DigitsOfLength(d, 2)
    requires DigitsOfLength(h, 2) && DigitsOfLength(mi, 2) && DigitsOfLength(s, 2)
    ensures DigitsOfLength(y + mo + d + h + mi + s, 14)
  {
    var digits := y + mo + d + h + mi + s;
    forall i | 0 <= i < |digits| ensures IsDigit(digits[i]) {
      if i < 4 { assert digits[i] == y[i]; }
      else if i < 6 { assert digits[i] == mo[i - 4]; }
      else if i < 8 { assert digits[i] == d[i - 6]; }
      else if i < 10 { assert digits[i] == h[i - 8]; }
      else if i < 12 { assert digits[i] == mi[i - 10]; }
      else { assert digits[i] == s[i - 12]; }
    }
  }

  lemma StripSeparators(y: string, mo: string, d: string, h: string, mi: string, s: string, tail: string)
    requires AllDigits(y) && AllDigits(mo) && AllDigits(d) && AllDigits(h) && AllDigits(mi) && AllDigits(s)
    ensures RemoveAll(y + ("-" + (mo + ("-" + (d + ("T" + (h + (":" + (mi + (":" + (s + tail)))))))))), {'-', ':', 'T'})
         == y + (mo + (d + (h + (mi + (s + RemoveAll(tail, {'-', ':', 'T'}))))))
  {
    StripTime(h, mi, s, tail);
    StripDate(y, mo, d, h + (":" + (mi + (":" + (s + tail)))));
  }

  lemma StripDate(y: string, mo: string, d: string, rest: string)
    requires AllDigits(y) && AllDigits(mo) && AllDigits(d)
    ensures RemoveAll(y + ("-" + (mo + ("-" + (d + ("T" + rest))))), {'-', ':', 'T'})
         == y + (mo + (d + RemoveAll(rest, {'-', ':', 'T'})))
  {
    var drop := {'-', ':', 'T'};
    DigitsAreKept(y);
    DigitsAreKept(mo);
    DigitsAreKept(d);
    Strip1(d, 'T', rest, drop);
    Strip1(mo, '-', d + ("T" + rest), drop);
    Strip1(y, '-', mo + ("-" + (d + ("T" + rest))), drop);
  }

  lemma StripTime(h: string, mi: string, s: string, tail: string)
    requires AllDigits(h) && AllDigits(mi) && AllDigits(s)
    ensures RemoveAll(h + (":" + (mi + (":" + (s + tail)))), {'-', ':', 'T'})
         == h + (mi + (s + RemoveAll(tail, {'-', ':', 'T'})))
  {
    var drop := {'-', ':', 'T'};
    DigitsAreKept(h);
    DigitsAreKept(mi);
    DigitsAreKept(s);
    RemoveAllAppend(s, tail, drop);
    Strip1(mi, ':', s + tail, drop);
    Strip1(h, ':', mi + (":" + (s + tail)), drop);
  }

  lemma Regroup6(a: string, b: string, c: string, d: string, e: string, f: string, g: string)
    ensures a + (b + (c + (d + (e + (f + g))))) == a + b + c + d + e + f + g
  {
  }

  /** Digits are not among the characters the timestamp strips. */
  lemma DigitsAreKept(g: string)
    requires AllDigits(g)
    ensures RemoveAll(g, {'-', ':', 'T'}) == g
  {
    forall i | 0 <= i < |g| ensures g[i] !in {'-', ':', 'T'} {
      assert IsDigit(g[i]);
    }
    RemoveAllKeeps(g, {'-', ':', 'T'});
  }

  /** One kept group followed by one dropped separator leaves just the group. */
  lemma Strip1(g: string, sep: char, rest: string, drop: set<char>)
    requires RemoveAll(g, drop) == g && sep in drop
    ensures RemoveAll(g + ([sep] + rest), drop) == g + RemoveAll(rest, drop)
  {
    var sr := [sep] + rest;
    assert sr[0] == sep && sr[1..] == rest;
    assert RemoveAll(sr, drop) == RemoveAll(rest, drop);
    RemoveAllAppend(g, sr, drop);
  }

  /** The random part is one to four digits, never zero-padded, and reads back as the number drawn. */
  lemma RandomTokenDigits(random: RandomToken)
    ensures 1 <= |Decimal(random)| <= 4
    ensures Decimal(random)[0] == '0' ==> random == 0
    ensures ParseDecimal(Decimal(random)) == random
  {
    assert Pow10(4) == 10000;
    DecimalLength(random, 4);
    DecimalRoundTrip(random);
  }
}
