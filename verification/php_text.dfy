/**
 * The few PHP string primitives the discount engine, the checkout-field settings and the
 * category-list renderer rely on: `trim`, ASCII `strtolower`, string truthiness, and
 * `explode` on a one-character separator.
 */
module PhpText {

  /** The characters PHP's `trim()` strips by default: space, tab, LF, CR, NUL and vertical tab. */
  predicate IsTrimChar(c: char) {
    c == ' ' || c == '\t' || c == '\n' || c == '\r' || c == '\0' || c == '\U{B}'
  }

  /** True when `s` neither starts nor ends with a character `trim()` would strip. */
  predicate IsTrimmed(s: string) {
    |s| == 0 || (!IsTrimChar(s[0]) && !IsTrimChar(s[|s| - 1]))
  }

  /** True when every character of `s` is one `trim()` strips. */
  predicate AllTrimChars(s: string) {
    forall i :: 0 <= i < |s| ==> IsTrimChar(s[i])
  }

  /** PHP `ltrim`: drops the longest prefix of trim characters. */
  function TrimLeft(s: string): (r: string)
    ensures |r| <= |s| && r == s[|s| - |r|..]
    ensures AllTrimChars(s[..|s| - |r|])
    ensures |r| > 0 ==> !IsTrimChar(r[0])
  {
    if |s| > 0 && IsTrimChar(s[0]) then TrimLeft(s[1..]) else s
  }

  /** PHP `rtrim`: drops the longest suffix of trim characters. */
  function TrimRight(s: string): (r: string)
    ensures |r| <= |s| && r == s[..|r|]
    ensures AllTrimChars(s[|r|..])
    ensures |r| > 0 ==> !IsTrimChar(r[|r| - 1])
  {
    if |s| > 0 && IsTrimChar(s[|s| - 1]) then TrimRight(s[..|s| - 1]) else s
  }

  /** PHP `trim`. */
  function Trim(s: string): (r: string)
    ensures IsTrimmed(r)
    ensures |r| <= |s|
  {
    var l := TrimLeft(s);
    var r := TrimRight(l);
    assert |r| > 0 ==> r[0] == l[0];
    r
  }

  lemma {:induction false} TrimLeftPadded(a: string, s: string)
    requires AllTrimChars(a)
    requires |s| == 0 || !IsTrimChar(s[0])
    ensures TrimLeft(a + s) == s
    decreases |a|
  {
    if |a| > 0 {
      assert (a + s)[1..] == a[1..] + s;
      TrimLeftPadded(a[1..], s);
    } else {
      assert a + s == s;
    }
  }

  lemma {:induction false} TrimRightPadded(s: string, b: string)
    requires AllTrimChars(b)
    requires |s| == 0 || !IsTrimChar(s[|s| - 1])
    ensures TrimRight(s + b) == s
    decreases |b|
  {
    if |b| > 0 {
      assert (s + b)[..|s + b| - 1] == s + b[..|b| - 1];
      TrimRightPadded(s, b[..|b| - 1]);
    } else {
      assert s + b == s;
    }
  }

  /**
   * `trim` removes exactly the surrounding padding: a trimmed string wrapped in trim
   * characters on either side trims back to itself. Together with `IsTrimmed(Trim(s))`
   * this pins `Trim` down completely.
   */
  lemma TrimOfPadded(a: string, s: string, b: string)
    requires AllTrimChars(a) && AllTrimChars(b) && IsTrimmed(s)
    ensures Trim(a + s + b) == s
  {
    if |s| == 0 {
      assert a + s + b == a + b;
      TrimLeftPadded(a + b, "");
      assert a + b + "" == a + b;
      assert AllTrimChars(a + b) by {
        forall i | 0 <= i < |a + b| ensures IsTrimChar((a + b)[i]) {
          if i < |a| { assert (a + b)[i] == a[i]; } else { assert (a + b)[i] == b[i - |a|]; }
        }
      }
      assert TrimLeft(a + b) == "";
      assert TrimRight("") == "";
    } else {
      assert a + s + b == a + (s + b);
      TrimLeftPadded(a, s + b);
      TrimRightPadded(s, b);
    }
  }

  /** A string with nothing to strip is its own trim. */
  lemma TrimOfTrimmed(s: string)
    requires IsTrimmed(s)
    ensures Trim(s) == s
  {
    TrimOfPadded("", s, "");
    assert "" + s + "" == s;
  }

  /** `trim` is idempotent. */
  lemma TrimIdempotent(s: string)
    ensures Trim(Trim(s)) == Trim(s)
  {
    TrimOfTrimmed(Trim(s));
  }

  /** PHP 8.2+ `strtolower` on one character (the C locale): only ASCII letters change. */
  function LowerChar(c: char): char {
    if 'A' <= c <= 'Z' then (c as int + 32) as char else c
  }

  /** PHP 8.2+ `strtolower`, which is locale-insensitive and ASCII-only (the C locale). */
  function Lower(s: string): (r: string)
    ensures |r| == |s|
    ensures forall i :: 0 <= i < |s| ==> r[i] == LowerChar(s[i])
  {
    seq(|s|, i requires 0 <= i < |s| => LowerChar(s[i]))
  }

  /** Lower-casing keeps trim characters and leaves no others behind. */
  lemma LowerKeepsTrimmed(s: string)
    requires IsTrimmed(s)
    ensures IsTrimmed(Lower(s))
  {
  }

  /** `ltrim` drops a prefix made of trim characters only. */
  lemma TrimLeftSplit(s: string) returns (a: string)
    ensures AllTrimChars(a) && s == a + TrimLeft(s)
  {
    a := s[..|s| - |TrimLeft(s)|];
  }

  /** `rtrim` drops a suffix made of trim characters only. */
  lemma TrimRightSplit(s: string) returns (b: string)
    ensures AllTrimChars(b) && s == TrimRight(s) + b
  {
    b := s[|TrimRight(s)|..];
  }

  lemma Concat3(s: string, a: string, l: string, t: string, b: string)
    requires s == a + l && l == t + b
    ensures s == a + t + b
  {
  }

  /** Every string is its trimmed core wrapped in trim characters. */
  lemma TrimSplit(s: string) returns (a: string, b: string)
    ensures AllTrimChars(a) && AllTrimChars(b) && s == a + Trim(s) + b
  {
    a := TrimLeftSplit(s);
    var l := TrimLeft(s);
    b := TrimRightSplit(l);
    var t := TrimRight(l);
    Concat3(s, a, l, t, b);
    assert Trim(s) == t;
  }

  lemma AllTrimCharsConcat(x: string, y: string)
    requires AllTrimChars(x) && AllTrimChars(y)
    ensures AllTrimChars(x + y)
  {
    forall i | 0 <= i < |x + y| ensures IsTrimChar((x + y)[i]) {
      if i < |x| { assert (x + y)[i] == x[i]; } else { assert (x + y)[i] == y[i - |x|]; }
    }
  }

  lemma Regroup(a: string, s: string, b: string, p: string, t: string, q: string)
    requires s == p + t + q
    ensures a + s + b == (a + p) + t + (q + b)
  {
  }

  /** Extra padding around a string makes no difference to its trimmed form. */
  lemma TrimAbsorbsPadding(a: string, s: string, b: string)
    requires AllTrimChars(a) && AllTrimChars(b)
    ensures Trim(a + s + b) == Trim(s)
  {
    var p, q := TrimSplit(s);
    var t := Trim(s);
    Regroup(a, s, b, p, t, q);
    AllTrimCharsConcat(a, p);
    AllTrimCharsConcat(q, b);
    TrimOfPadded(a + p, t, q + b);
  }

  lemma LowerConcat3(a: string, t: string, b: string)
    ensures Lower(a + t + b) == Lower(a) + Lower(t) + Lower(b)
  {
  }

  /** Lower-casing leaves trim characters as they are. */
  lemma LowerOfTrimChars(a: string)
    requires AllTrimChars(a)
    ensures Lower(a) == a
  {
  }

  /** Lower-casing and trimming can be done in either order. */
  lemma LowerTrimCommute(s: string)
    ensures Lower(Trim(s)) == Trim(Lower(s))
  {
    var a, b := TrimSplit(s);
    var t := Trim(s);
    LowerConcat3(a, t, b);
    LowerOfTrimChars(a);
    LowerOfTrimChars(b);
    LowerKeepsTrimmed(t);
    TrimOfPadded(a, Lower(t), b);
  }

  /** PHP truthiness of a string: everything except "" and "0" is true. */
  predicate Truthy(s: string) {
    s != "" && s != "0"
  }

  /** Drops PHP-falsy entries, as `array_filter` without a callback does on strings. */
  function TruthyOnly(xs: seq<string>): (r: seq<string>)
    ensures forall k :: 0 <= k < |r| ==> Truthy(r[k]) && r[k] in xs
    ensures forall x :: x in xs && Truthy(x) ==> x in r
  {
    if |xs| == 0 then []
    else if Truthy(xs[0]) then [xs[0]] + TruthyOnly(xs[1..])
    else TruthyOnly(xs[1..])
  }

  /** `array_map('trim', ...)`. */
  function TrimAll(xs: seq<string>): (r: seq<string>)
    ensures |r| == |xs|
    ensures forall k :: 0 <= k < |xs| ==> r[k] == Trim(xs[k])
  {
    seq(|xs|, k requires 0 <= k < |xs| => Trim(xs[k]))
  }

  /** Index of the first `c` in `s`. */
  function IndexOf(s: string, c: char): (i: nat)
    requires c in s
    ensures i < |s| && s[i] == c && c !in s[..i]
  {
    if s[0] == c then 0 else 1 + IndexOf(s[1..], c)
  }

  /** PHP `explode` on a one-character separator: `explode(',', "")` is `[""]`. */
  function Split(s: string, sep: char): (parts: seq<string>)
    ensures |parts| >= 1
    ensures forall k :: 0 <= k < |parts| ==> sep !in parts[k]
    decreases |s|
  {
    if sep !in s then [s]
    else
      var i := IndexOf(s, sep);
      [s[..i]] + Split(s[i + 1..], sep)
  }

  /** PHP `implode`, the inverse of `Split`. */
  function Join(parts: seq<string>, sep: char): string
    requires |parts| >= 1
  {
    if |parts| == 1 then parts[0] else parts[0] + [sep] + Join(parts[1..], sep)
  }

  /** Splitting then joining gives back the original string. */
  lemma {:induction false} JoinSplit(s: string, sep: char)
    ensures Join(Split(s, sep), sep) == s
    decreases |s|
  {
    if sep in s {
      var i := IndexOf(s, sep);
      JoinSplit(s[i + 1..], sep);
      assert s == s[..i] + [sep] + s[i + 1..];
    }
  }

  /** Joining separator-free parts then splitting gives back the parts. */
  lemma {:induction false} SplitJoin(parts: seq<string>, sep: char)
    requires |parts| >= 1
    requires forall k :: 0 <= k < |parts| ==> sep !in parts[k]
    ensures Split(Join(parts, sep), sep) == parts
  {
    if |parts| > 1 {
      var s := Join(parts, sep);
      var rest := Join(parts[1..], sep);
      assert s == parts[0] + [sep] + rest;
      assert s[|parts[0]|] == sep;
      assert sep in s;
      assert s[..|parts[0]|] == parts[0];
      var i := IndexOf(s, sep);
      assert i == |parts[0]|;
      assert s[i + 1..] == rest;
      SplitJoin(parts[1..], sep);
    } else {
      assert Join(parts, sep) == parts[0];
    }
  }
}
