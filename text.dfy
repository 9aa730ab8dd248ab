/**
  String helpers shared by the TypeScript parts of the site: number rendering
  (`Number.prototype.toString`), `Array.prototype.join`, `String.prototype.split`
  on one character, `trim`, ASCII lower-casing, the default `Array.prototype.sort`
  order on strings (code-unit order) and `parseInt` in base 10.
*/
module Strings {
  import opened Wrappers

  // ---------------------------------------------------------------------------
  // Number rendering and parsing
  // ---------------------------------------------------------------------------

  function HexDigit(d: nat): (c: char)
    requires d < 16
    ensures IsHexChar(c) && HexValue(c) == d
  {
    if d < 10 then ('0' as int + d) as char else ('a' as int + d - 10) as char
  }

  predicate IsHexChar(c: char) { '0' <= c <= '9' || 'a' <= c <= 'f' }

  function HexValue(c: char): (d: nat)
    requires IsHexChar(c)
    ensures d < 16
  {
    if c <= '9' then c as int - '0' as int else c as int - 'a' as int + 10
  }

  /** `n.toString(16)`: lower-case hexadecimal, no leading zeros. */
  function Hex(n: nat): (s: string)
    ensures |s| >= 1 && forall k :: 0 <= k < |s| ==> IsHexChar(s[k])
    ensures |s| > 1 ==> s[0] != '0'
  {
    if n < 16 then [HexDigit(n)] else Hex(n / 16) + [HexDigit(n % 16)]
  }

  /** Reading a string of hexadecimal digits. */
  function ParseHex(s: string): nat
    requires forall k :: 0 <= k < |s| ==> IsHexChar(s[k])
  {
    if s == [] then 0 else 16 * ParseHex(s[..|s| - 1]) + HexValue(s[|s| - 1])
  }

  lemma {:induction false} HexRoundTrip(n: nat)
    ensures ParseHex(Hex(n)) == n
  {
    if n >= 16 {
      HexRoundTrip(n / 16);
      var s := Hex(n);
      assert s[..|s| - 1] == Hex(n / 16);
    }
  }

  function DecDigit(d: nat): (c: char)
    requires d < 10
    ensures '0' <= c <= '9' && c as int - '0' as int == d
  {
    ('0' as int + d) as char
  }

  /** `String(n)` for a non-negative integer: decimal, no leading zeros. */
  function Dec(n: nat): (s: string)
    ensures |s| >= 1 && forall k :: 0 <= k < |s| ==> '0' <= s[k] <= '9'
    ensures |s| > 1 ==> s[0] != '0'
  {
    if n < 10 then [DecDigit(n)] else Dec(n / 10) + [DecDigit(n % 10)]
  }

  /** Value of a string of decimal digits (`parseInt` on a digit run). */
  function ParseDec(s: string): nat
    requires forall k :: 0 <= k < |s| ==> '0' <= s[k] <= '9'
  {
    if s == [] then 0 else 10 * ParseDec(s[..|s| - 1]) + (s[|s| - 1] as int - '0' as int)
  }

  lemma {:induction false} DecRoundTrip(n: nat)
    ensures ParseDec(Dec(n)) == n
  {
    if n >= 10 {
      DecRoundTrip(n / 10);
      var s := Dec(n);
      assert s[..|s| - 1] == Dec(n / 10);
    }
  }

  /** `String(n)` for an integer: a minus sign before negative values. */
  function IntStr(n: int): (s: string)
    ensures |s| >= 1
    ensures n >= 0 ==> s == Dec(n)
    ensures n < 0 ==> s == "-" + Dec(-n)
  {
    if n >= 0 then Dec(n) else "-" + Dec(-n)
  }

  /** Reading back what `IntStr` writes. */
  function ParseInt(s: string): int
    requires s != [] && s[0] == '-' ==> forall k :: 1 <= k < |s| ==> '0' <= s[k] <= '9'
    requires s == [] || s[0] != '-' ==> forall k :: 0 <= k < |s| ==> '0' <= s[k] <= '9'
  {
    if s != [] && s[0] == '-' then 0 - ParseDec(s[1..]) else ParseDec(s)
  }

  lemma IntRoundTrip(n: int)
    ensures ParseInt(IntStr(n)) == n
  {
    if n >= 0 {
      DecRoundTrip(n);
    } else {
      DecRoundTrip(-n);
      assert IntStr(n)[1..] == Dec(-n);
    }
  }

  // ---------------------------------------------------------------------------
  // join and split
  // ---------------------------------------------------------------------------

  /** `parts.join(sep)`. */
  function Join(parts: seq<string>, sep: string): (s: string)
    ensures parts == [] ==> s == []
    ensures |parts| == 1 ==> s == parts[0]
  {
    if parts == [] then []
    else if |parts| == 1 then parts[0]
    else parts[0] + sep + Join(parts[1..], sep)
  }

  /** Position of the first `c` in `s`, or `|s|`. */
  function IndexOf(s: string, c: char): (i: nat)
    ensures i <= |s|
    ensures i < |s| ==> s[i] == c
    ensures forall k :: 0 <= k < i ==> s[k] != c
  {
    if s == [] then 0 else if s[0] == c then 0 else 1 + IndexOf(s[1..], c)
  }

  /** `s.split(c)` for a one-character separator. */
  function Split(s: string, c: char): (r: seq<string>)
    ensures |r| >= 1
    decreases |s|
  {
    var i := IndexOf(s, c);
    if i == |s| then [s] else [s[..i]] + Split(s[i + 1..], c)
  }

  /** The first separator in `p + [c] + rest` is the one after `p` when `p` has none. */
  lemma SplitFirst(p: string, c: char, rest: string)
    requires c !in p
    ensures Split(p + [c] + rest, c) == [p] + Split(rest, c)
  {
    var s := p + [c] + rest;
    assert s[|p|] == c;
    assert forall k :: 0 <= k < |p| ==> s[k] == p[k];
    assert IndexOf(s, c) == |p|;
    assert s[..|p|] == p && s[|p| + 1..] == rest;
  }

  /** A text without the separator splits into itself. */
  lemma SplitAbsent(p: string, c: char)
    requires c !in p
    ensures Split(p, c) == [p]
  {
    assert IndexOf(p, c) == |p|;
  }

  /** Splitting a join gives the parts back when no part holds the separator. */
  lemma {:induction false} SplitJoin(parts: seq<string>, c: char)
    requires parts != []
    requires forall i :: 0 <= i < |parts| ==> c !in parts[i]
    ensures Split(Join(parts, [c]), c) == parts
  {
    var p := parts[0];
    if |parts| == 1 {
      SplitAbsent(p, c);
    } else {
      assert c !in p;
      SplitFirst(p, c, Join(parts[1..], [c]));
      SplitJoin(parts[1..], c);
      assert [p] + parts[1..] == parts;
    }
  }

  /** Every part of a split is free of the separator, and there is one more part than separators. */
  lemma {:induction false} SplitParts(s: string, c: char)
    ensures forall i :: 0 <= i < |Split(s, c)| ==> c !in Split(s, c)[i]
    ensures |Split(s, c)| == Count(s, c) + 1
    decreases |s|
  {
    var i := IndexOf(s, c);
    if i == |s| {
      CountAbsent(s, c);
    } else {
      SplitParts(s[i + 1..], c);
      CountAt(s, c, i);
    }
  }

  /** Occurrences of `c` in `s`. */
  function Count(s: string, c: char): nat {
    if s == [] then 0 else (if s[0] == c then 1 else 0) + Count(s[1..], c)
  }

  lemma {:induction false} CountAbsent(s: string, c: char)
    requires c !in s
    ensures Count(s, c) == 0
  {
    if s != [] {
      assert c !in s[1..] by {
        assert forall k :: 0 <= k < |s[1..]| ==> s[1..][k] == s[k + 1];
      }
      CountAbsent(s[1..], c);
    }
  }

  /** With the first `c` at `i`, the count is one plus the count after it. */
  lemma {:induction false} CountAt(s: string, c: char, i: nat)
    requires i < |s| && s[i] == c && forall k :: 0 <= k < i ==> s[k] != c
    ensures Count(s, c) == 1 + Count(s[i + 1..], c)
  {
    if i > 0 {
      CountAt(s[1..], c, i - 1);
      assert s[1..][i..] == s[i + 1..];
    }
  }

  // ---------------------------------------------------------------------------
  // trim and lower-casing
  // ---------------------------------------------------------------------------

  /** The characters `String.prototype.trim` removes: WhiteSpace and LineTerminator. */
  predicate IsJsSpace(c: char) {
    var n := c as int;
    (9 <= n <= 13) || n == 32 || n == 0xA0 || n == 0x1680 || (0x2000 <= n <= 0x200A)
    || n == 0x2028 || n == 0x2029 || n == 0x202F || n == 0x205F || n == 0x3000 || n == 0xFEFF
  }

  function TrimStart(s: string): (r: string)
    ensures |r| <= |s| && r == s[|s| - |r|..]
    ensures r != [] ==> !IsJsSpace(r[0])
    ensures forall k :: 0 <= k < |s| - |r| ==> IsJsSpace(s[k])
  {
    if s != [] && IsJsSpace(s[0]) then
      var r := TrimStart(s[1..]);
      assert s[1..][|s| - 1 - |r|..] == s[|s| - |r|..];
      r
    else s
  }

  function TrimEnd(s: string): (r: string)
    ensures |r| <= |s| && r == s[..|r|]
    ensures r != [] ==> !IsJsSpace(r[|r| - 1])
    ensures forall k :: |r| <= k < |s| ==> IsJsSpace(s[k])
  {
    if s != [] && IsJsSpace(s[|s| - 1]) then
      var r := TrimEnd(s[..|s| - 1]);
      r
    else s
  }

  /** `s.trim()`: `s` without the white space at either end. */
  function Trim(s: string): (r: string)
    ensures r != [] ==> !IsJsSpace(r[0]) && !IsJsSpace(r[|r| - 1])
    ensures |r| <= |s|
    ensures var i := |s| - |TrimStart(s)|;
      i + |r| <= |s| && r == s[i..i + |r|]
      && (forall k :: 0 <= k < i ==> IsJsSpace(s[k]))
      && (forall k :: i + |r| <= k < |s| ==> IsJsSpace(s[k]))
  {
    var t := TrimStart(s);
    var r := TrimEnd(t);
    TrimSlice(s, t, r);
    r
  }

  /** Cutting the tail `[|r|..]` off the suffix `t` of `s` cuts the same characters off `s`. */
  lemma TrimSlice(s: string, t: string, r: string)
    requires |t| <= |s| && t == s[|s| - |t|..]
    requires t != [] ==> !IsJsSpace(t[0])
    requires forall k :: 0 <= k < |s| - |t| ==> IsJsSpace(s[k])
    requires |r| <= |t| && r == t[..|r|]
    requires r != [] ==> !IsJsSpace(r[|r| - 1])
    requires forall k :: |r| <= k < |t| ==> IsJsSpace(t[k])
    ensures r != [] ==> !IsJsSpace(r[0]) && !IsJsSpace(r[|r| - 1])
    ensures var i := |s| - |t|;
      i + |r| <= |s| && r == s[i..i + |r|]
      && (forall k :: 0 <= k < i ==> IsJsSpace(s[k]))
      && (forall k :: i + |r| <= k < |s| ==> IsJsSpace(s[k]))
  {
    var i := |s| - |t|;
    if r != [] {
      assert r[0] == t[0];
    }
    forall k | i + |r| <= k < |s| ensures IsJsSpace(s[k]) {
      assert s[k] == t[k - i];
    }
  }

  function LowerChar(c: char): (d: char)
    ensures !('A' <= d <= 'Z')
  {
    if 'A' <= c <= 'Z' then (c as int + 32) as char else c
  }

  /** `toLowerCase` on ASCII letters. */
  function Lower(s: string): (r: string)
    ensures |r| == |s| && forall k :: 0 <= k < |s| ==> r[k] == LowerChar(s[k])
  {
    if s == [] then [] else [LowerChar(s[0])] + Lower(s[1..])
  }

  /** Lower-casing twice is lower-casing once. */
  lemma LowerIdempotent(s: string)
    ensures Lower(Lower(s)) == Lower(s)
  {
    assert forall k :: 0 <= k < |s| ==> LowerChar(LowerChar(s[k])) == LowerChar(s[k]);
  }

  // ---------------------------------------------------------------------------
  // The default sort order of strings
  // ---------------------------------------------------------------------------

  /** Code-unit order: `a` sorts no later than `b`. */
  predicate LexLe(a: string, b: string) {
    a == [] || (b != [] && (a[0] < b[0] || (a[0] == b[0] && LexLe(a[1..], b[1..]))))
  }

  lemma {:induction false} LexLeTotal(a: string, b: string)
    ensures LexLe(a, b) || LexLe(b, a)
  {
    if a != [] && b != [] && a[0] == b[0] {
      LexLeTotal(a[1..], b[1..]);
    }
  }

  lemma {:induction false} LexLeTrans(a: string, b: string, c: string)
    requires LexLe(a, b) && LexLe(b, c)
    ensures LexLe(a, c)
  {
    if a != [] && b != [] && c != [] && a[0] == b[0] && b[0] == c[0] {
      LexLeTrans(a[1..], b[1..], c[1..]);
    }
  }

  lemma {:induction false} LexLeAntisym(a: string, b: string)
    requires LexLe(a, b) && LexLe(b, a)
    ensures a == b
  {
    if a != [] && b != [] {
      LexLeAntisym(a[1..], b[1..]);
    }
  }

  predicate Sorted(xs: seq<string>) {
    forall i, j :: 0 <= i < j < |xs| ==> LexLe(xs[i], xs[j])
  }

  function Insert(x: string, xs: seq<string>): (r: seq<string>)
    requires Sorted(xs)
    ensures Sorted(r) && multiset(r) == multiset(xs) + multiset{x}
  {
    if xs == [] then [x]
    else if LexLe(x, xs[0]) then
      InsertFrontSorted(x, xs);
      [x] + xs
    else
      LexLeTotal(x, xs[0]);
      var r := Insert(x, xs[1..]);
      InsertBehindSorted(x, xs, r);
      assert xs == [xs[0]] + xs[1..];
      [xs[0]] + r
  }

  lemma InsertFrontSorted(x: string, xs: seq<string>)
    requires Sorted(xs) && xs != [] && LexLe(x, xs[0])
    ensures Sorted([x] + xs)
  {
    var r := [x] + xs;
    forall i, j | 0 <= i < j < |r| ensures LexLe(r[i], r[j]) {
      if i == 0 && j > 1 { LexLeTrans(x, xs[0], xs[j - 1]); }
    }
  }

  lemma InsertBehindSorted(x: string, xs: seq<string>, r: seq<string>)
    requires Sorted(xs) && xs != [] && LexLe(xs[0], x)
    requires Sorted(r) && multiset(r) == multiset(xs[1..]) + multiset{x}
    ensures Sorted([xs[0]] + r)
  {
    forall j | 0 <= j < |r| ensures LexLe(xs[0], r[j]) {
      assert r[j] in multiset(r);
      if r[j] != x {
        assert r[j] in multiset(xs[1..]);
        var k :| 0 <= k < |xs[1..]| && xs[1..][k] == r[j];
        assert xs[k + 1] == r[j];
      }
    }
  }

  /** `xs.sort()` with no comparator: sorted, and a permutation of `xs`. */
  function Sort(xs: seq<string>): (r: seq<string>)
    ensures Sorted(r) && multiset(r) == multiset(xs)
  {
    if xs == [] then []
    else
      assert xs == [xs[0]] + xs[1..];
      Insert(xs[0], Sort(xs[1..]))
  }

  /** No string occurs twice. */
  predicate Distinct(xs: seq<string>) {
    forall i, j :: 0 <= i < j < |xs| ==> xs[i] != xs[j]
  }

  /** A distinct sequence holds each string at most once. */
  lemma {:induction false} DistinctCount(xs: seq<string>, x: string)
    requires Distinct(xs)
    ensures multiset(xs)[x] <= 1
  {
    if xs != [] {
      var n := |xs| - 1;
      assert xs == xs[..n] + [xs[n]];
      DistinctCount(xs[..n], x);
      if x == xs[n] {
        assert x !in xs[..n];
      }
    }
  }

  /** Reordering keeps a sequence distinct. */
  lemma DistinctPermutation(xs: seq<string>, ys: seq<string>)
    requires Distinct(xs) && multiset(xs) == multiset(ys)
    ensures Distinct(ys)
  {
    forall i, j | 0 <= i < j < |ys| ensures ys[i] != ys[j] {
      if ys[i] == ys[j] {
        assert ys == ys[..j] + [ys[j]] + ys[j + 1..];
        assert ys[i] in multiset(ys[..j]);
        assert multiset(ys)[ys[j]] >= 2;
        DistinctCount(xs, ys[j]);
      }
    }
  }

  // ---------------------------------------------------------------------------
  // Digit runs and parseInt
  // ---------------------------------------------------------------------------

  /** An ASCII digit, what `\d` matches in a JavaScript regular expression. */
  predicate IsDigit(c: char) { '0' <= c <= '9' }

  /** Length of the longest prefix of `s` whose characters are digits exactly when `digits`. */
  function Span(s: string, digits: bool): (n: nat)
    ensures n <= |s|
    ensures forall k :: 0 <= k < n ==> IsDigit(s[k]) == digits
    ensures n < |s| ==> IsDigit(s[n]) != digits
  {
    if s == [] || IsDigit(s[0]) != digits then 0 else 1 + Span(s[1..], digits)
  }

  /**
    `parseInt(x, 10)`: leading white space is skipped, an optional sign is
    read, then the longest digit prefix; `None` stands for `NaN` (no digits).
  */
  function ParseInt10(x: string): (v: Option<int>)
  {
    if x != [] && IsJsSpace(x[0]) then ParseInt10(x[1..])
    else if x != [] && x[0] == '-' then
      var n := Span(x[1..], true);
      if n == 0 then None else Some(0 - ParseDec(x[1..][..n]))
    else
      var u := if x != [] && x[0] == '+' then x[1..] else x;
      var n := Span(u, true);
      if n == 0 then None else Some(ParseDec(u[..n]))
  }

  /** On a string of digits, `parseInt` is its value. */
  lemma ParseDigits(x: string)
    requires x != [] && forall t :: 0 <= t < |x| ==> '0' <= x[t] <= '9'
    ensures ParseInt10(x) == Some(ParseDec(x))
  {
    assert Span(x, true) == |x|;
    assert x[..|x|] == x;
  }

  /** On a text that holds no digit, `parseInt` is `NaN`. */
  lemma {:induction false} ParseNoDigits(x: string)
    requires forall t :: 0 <= t < |x| ==> !IsDigit(x[t])
    ensures ParseInt10(x) == None
  {
    if x != [] && IsJsSpace(x[0]) {
      ParseNoDigits(x[1..]);
    } else if x != [] && x[0] == '-' {
      assert x[1..] != [] ==> x[1..][0] == x[1];
    } else if x != [] && x[0] == '+' {
      assert x[1..] != [] ==> x[1..][0] == x[1];
    }
  }

  /** A digit run followed by a non-digit: `parseInt` reads exactly the run. */
  lemma DecSpan(d: string, rest: string)
    requires d != [] && forall k :: 0 <= k < |d| ==> '0' <= d[k] <= '9'
    requires rest == [] || !IsDigit(rest[0])
    ensures Span(d + rest, true) == |d| && (d + rest)[..|d|] == d
  {
    var x := d + rest;
    assert forall k :: 0 <= k < |d| ==> IsDigit(x[k]);
    assert |d| < |x| ==> !IsDigit(x[|d|]);
  }

  /** Text that starts with a digit: `parseInt` is the value of the leading digit run. */
  lemma ParseAtDigit(x: string)
    requires x != [] && IsDigit(x[0])
    ensures ParseInt10(x) == Some(ParseDec(x[..Span(x, true)]))
  {
    assert !IsJsSpace(x[0]) && x[0] != '-' && x[0] != '+';
  }

  /** Digits then a non-digit: `parseInt` is the value of the digits. */
  lemma ParseDecRest(x: string, d: string, rest: string)
    requires d != [] && forall k :: 0 <= k < |d| ==> '0' <= d[k] <= '9'
    requires rest == [] || !IsDigit(rest[0])
    requires x == d + rest
    ensures ParseInt10(x) == Some(ParseDec(d))
  {
    DecSpan(d, rest);
    ParseAtDigit(x);
  }

  /** `parseInt` reads back what `String(n)` writes for `n >= 0`, whatever non-digit text follows. */
  lemma ParseIntStr(n: nat, rest: string)
    requires rest == [] || !IsDigit(rest[0])
    ensures ParseInt10(IntStr(n) + rest) == Some(n)
  {
    DecRoundTrip(n);
    ParseDecRest(Dec(n) + rest, Dec(n), rest);
  }
}
