/**
  The pure part of the content-maintenance script `script.py`: recognising an
  indexed Markdown file name, turning its captured index `01-A` into `01.A`, and
  the two regular-expression substitutions that put that index into the
  `title:` and `alias:` values of the file's text.

  The three patterns of the script are
    INDEX_REG  ^([0-9A-Z]+\-[0-9a-zA-Z]+)\-.*\.md$
    TITLE_REG  (title:\s)[0-9]+\.[0-9a-zA-Z]+( \- .*)
    ALIAS_REG  (alias:\s)[0-9]+\.[0-9a-zA-Z]+( \- .*)
  and are modelled by hand: a character class is a predicate, a maximal run of
  a class is `Run`, and `re.sub` is the left-to-right scan `Sub`.
*/
module IndexRewrite {
  import opened Wrappers

  // ---------------------------------------------------------------------------
  // Character classes
  // ---------------------------------------------------------------------------

  /** The classes the three patterns use. */
  datatype Class =
    | Digits       // [0-9]
    | UpperDigits  // [0-9A-Z]
    | Alnums       // [0-9a-zA-Z]
    | NotNewline   // `.` without DOTALL: anything but '\n'

  predicate IsDigit(c: char) { '0' <= c <= '9' }

  predicate IsAlnum(c: char) { IsDigit(c) || 'a' <= c <= 'z' || 'A' <= c <= 'Z' }

  predicate In(cls: Class, c: char) {
    match cls
    case Digits => IsDigit(c)
    case UpperDigits => IsDigit(c) || 'A' <= c <= 'Z'
    case Alnums => IsAlnum(c)
    case NotNewline => c != '\n'
  }

  /** Python's `\s` on `str` patterns: the characters for which `str.isspace()` holds. */
  predicate IsSpace(c: char) {
    var n := c as int;
    (9 <= n <= 13) || (28 <= n <= 32) || n == 0x85 || n == 0xA0 || n == 0x1680
    || (0x2000 <= n <= 0x200A) || n == 0x2028 || n == 0x2029 || n == 0x202F
    || n == 0x205F || n == 0x3000
  }

  predicate AllIn(cls: Class, s: string) {
    forall k :: 0 <= k < |s| ==> In(cls, s[k])
  }

  /** Characters a normalised index consists of: [0-9A-Za-z.]. */
  predicate IndexChars(s: string) {
    forall k :: 0 <= k < |s| ==> IsAlnum(s[k]) || s[k] == '.'
  }

  /** Length of the longest prefix of `s` inside `cls` (what a greedy `cls*` consumes). */
  function Run(cls: Class, s: string): (n: nat)
    ensures n <= |s|
  {
    if s == [] || !In(cls, s[0]) then 0 else 1 + Run(cls, s[1..])
  }

  /** The run is maximal: everything in it is in `cls`, and the character after it is not. */
  lemma {:induction false} RunProps(cls: Class, s: string)
    ensures forall k :: 0 <= k < Run(cls, s) ==> In(cls, s[k])
    ensures Run(cls, s) < |s| ==> !In(cls, s[Run(cls, s)])
  {
    if s != [] && In(cls, s[0]) {
      RunProps(cls, s[1..]);
    }
  }

  /** Conversely, a prefix inside `cls` followed by a character outside it (or the end) is the run. */
  lemma {:induction false} RunIs(cls: Class, s: string, n: nat)
    requires n <= |s| && forall k :: 0 <= k < n ==> In(cls, s[k])
    requires n < |s| ==> !In(cls, s[n])
    ensures Run(cls, s) == n
  {
    if n > 0 {
      RunIs(cls, s[1..], n - 1);
    }
  }

  /** A character outside `cls` bounds the run. */
  lemma {:induction false} RunBound(cls: Class, x: string, p: nat)
    requires p < |x| && !In(cls, x[p])
    ensures Run(cls, x) <= p
  {
    if p > 0 && In(cls, x[0]) {
      RunBound(cls, x[1..], p - 1);
    }
  }

  lemma {:induction false} RunConcat(cls: Class, x: string, y: string)
    requires AllIn(cls, x)
    ensures Run(cls, x + y) == |x| + Run(cls, y)
  {
    if x != [] {
      assert (x + y)[1..] == x[1..] + y;
      RunConcat(cls, x[1..], y);
    } else {
      assert x + y == y;
    }
  }

  /** A run of `cls` ends exactly where `x` ends when `y` does not continue it. */
  lemma RunExact(cls: Class, x: string, y: string)
    requires AllIn(cls, x)
    requires y == [] || !In(cls, y[0])
    ensures Run(cls, x + y) == |x|
  {
    RunConcat(cls, x, y);
  }

  /** The run is decided by the characters up to and including the first one outside `cls`. */
  lemma {:induction false} RunStable(cls: Class, x: string, y: string, n: nat)
    requires n <= |x| && n <= |y| && forall k :: 0 <= k < n ==> x[k] == y[k]
    requires Run(cls, x) < n
    ensures Run(cls, y) == Run(cls, x)
  {
    if In(cls, x[0]) {
      RunStable(cls, x[1..], y[1..], n - 1);
    }
  }

  /** Length of the current line: what `.*` consumes. */
  function LineLen(s: string): nat { Run(NotNewline, s) }

  predicate NoNewline(s: string) { AllIn(NotNewline, s) }

  /** The rest of the current line, and what follows it. */
  function Line(s: string): string { s[..LineLen(s)] }
  function Rest(s: string): string { s[LineLen(s)..] }

  predicate NewlineLed(s: string) { s == [] || s[0] == '\n' }

  lemma LineOfConcat(x: string, y: string)
    requires NoNewline(x)
    ensures LineLen(x + y) == |x| + LineLen(y)
    ensures Line(x + y) == x + Line(y) && Rest(x + y) == Rest(y)
  {
    RunConcat(NotNewline, x, y);
    assert (x + y)[..|x| + LineLen(y)] == x + y[..LineLen(y)];
    assert (x + y)[|x| + LineLen(y)..] == y[LineLen(y)..];
  }

  lemma LineProps(s: string)
    ensures NoNewline(Line(s)) && NewlineLed(Rest(s))
  {
    RunProps(NotNewline, s);
    assert forall k :: 0 <= k < LineLen(s) ==> Line(s)[k] == s[k];
  }

  /** A newline-free prefix of length `n` is part of the current line. */
  lemma {:induction false} LineLenSkip(x: string, n: nat)
    requires n <= |x| && forall k :: 0 <= k < n ==> x[k] != '\n'
    ensures LineLen(x) == n + LineLen(x[n..])
  {
    if n > 0 {
      LineLenSkip(x[1..], n - 1);
      assert x[1..][n - 1..] == x[n..];
    }
  }

  lemma LineOfNewlineLed(y: string)
    requires NewlineLed(y)
    ensures LineLen(y) == 0 && Line(y) == [] && Rest(y) == y
  {
  }

  // ---------------------------------------------------------------------------
  // The index value `[0-9]+\.[0-9a-zA-Z]+`
  // ---------------------------------------------------------------------------

  /** `v` is, as a whole, a value the two substitution patterns accept as an index. */
  predicate IsVersion(v: string) {
    var d := Run(Digits, v);
    0 < d && d + 1 < |v| && v[d] == '.' && forall k :: d < k < |v| ==> IsAlnum(v[k])
  }

  lemma VersionChars(v: string)
    requires IsVersion(v)
    ensures IndexChars(v)
  {
    var d := Run(Digits, v);
    RunProps(Digits, v);
    assert forall k :: 0 <= k < |v| ==> IsAlnum(v[k]) || v[k] == '.';
  }

  // ---------------------------------------------------------------------------
  // One match of TITLE_REG / ALIAS_REG
  // ---------------------------------------------------------------------------

  /** Which of the two front-matter fields a substitution targets. */
  datatype Field = Title | Alias

  function Key(f: Field): string {
    match f
    case Title => "title:"
    case Alias => "alias:"
  }

  /** Both keys are five lower-case letters and a ':'; their first letters differ from each other and from any key's second letter. */
  lemma KeyChars(f: Field)
    ensures forall k :: 0 <= k < 5 ==> 'a' <= KeyChar(f, k) <= 'z'
    ensures KeyChar(f, 1) != KeyChar(Title, 0) && KeyChar(f, 1) != KeyChar(Alias, 0)
    ensures KeyChar(Title, 0) != KeyChar(Alias, 0)
  {
  }

  /** The `i`-th character of `Key(f)`. */
  function KeyChar(f: Field, i: nat): (c: char)
    requires i < 6
    ensures c == Key(f)[i]
  {
    if i == 5 then ':'
    else if f == Title then (if i == 0 || i == 2 then 't' else if i == 1 then 'i' else if i == 3 then 'l' else 'e')
    else (if i == 0 || i == 3 then 'a' else if i == 1 then 'l' else if i == 2 then 'i' else 's')
  }

  /** The key of field `f` occurs at position `j` of `s`. */
  predicate KeyAt(f: Field, s: string, j: nat) {
    j + 6 <= |s| && s[j] == KeyChar(f, 0) && s[j + 1] == KeyChar(f, 1) && s[j + 2] == KeyChar(f, 2)
    && s[j + 3] == KeyChar(f, 3) && s[j + 4] == KeyChar(f, 4) && s[j + 5] == ':'
  }

  lemma KeyAtSlice(f: Field, s: string, j: nat)
    ensures KeyAt(f, s, j) <==> j + 6 <= |s| && s[j..j + 6] == Key(f)
  {
    if j + 6 <= |s| && KeyAt(f, s, j) {
      assert s[j..j + 6] == Key(f);
    }
  }

  /**
    Tries the pattern `(key\s)[0-9]+\.[0-9a-zA-Z]+( \- .*)` at the start of `s`.
    On success gives the position `a` where ` - ` begins: `s[..7]` is group 1, the
    replaced index is `s[7..a]`, and group 2 starts at `a`.  Both runs are greedy;
    since the character after each run is outside its class, no backtracking can
    produce another match.
  */
  function Head(f: Field, s: string): (r: Option<nat>)
    ensures r.Some? ==> 10 <= r.value && r.value + 3 <= |s|
  {
    if !KeyBlank(f, s) then None
    else
      var d := DigitEnd(s);
      if d == 7 || d == |s| || s[d] != '.' then None
      else
        var a := AlnumEnd(s, d);
        if a == d + 1 || !SepAt(s, a) then None
        else Some(a)
  }

  /** Group 1: the key and one whitespace character. */
  predicate KeyBlank(f: Field, s: string) {
    KeyAt(f, s, 0) && |s| >= 7 && IsSpace(s[6])
  }

  /** End of `[0-9]+` after group 1. */
  function DigitEnd(s: string): (d: nat)
    requires |s| >= 7
    ensures 7 <= d <= |s|
  {
    7 + Run(Digits, s[7..])
  }

  /** End of the `[0-9a-zA-Z]+` run after position `d`: after the '.' of an index value, or after the first hyphen of a file name. */
  function AlnumEnd(s: string, d: nat): (a: nat)
    requires d < |s|
    ensures d < a <= |s|
  {
    d + 1 + Run(Alnums, s[d + 1..])
  }

  /** Group 2 starts with ` - ` at `a`. */
  predicate SepAt(s: string, a: nat) {
    a + 3 <= |s| && s[a] == ' ' && s[a + 1] == '-' && s[a + 2] == ' '
  }

  /** What a match consists of: group 1 is the key and one blank, then an index value, then ` - `. */
  lemma HeadShape(f: Field, s: string)
    requires Head(f, s).Some?
    ensures KeyBlank(f, s)
    ensures forall k :: 7 <= k < Head(f, s).value ==> IsAlnum(s[k]) || s[k] == '.'
    ensures SepAt(s, Head(f, s).value)
  {
    var a := Head(f, s).value;
    var d := DigitEnd(s);
    RunProps(Digits, s[7..]);
    RunProps(Alnums, s[d + 1..]);
    forall k | 7 <= k < a ensures IsAlnum(s[k]) || s[k] == '.' {
      if k < d {
        assert s[7..][k - 7] == s[k];
      } else if k > d {
        assert s[d + 1..][k - d - 1] == s[k];
      }
    }
  }

  /** Where a match starting at 0 ends: the end of the line after ` - `. */
  function MatchEnd(s: string, a: nat): (e: nat)
    requires a + 3 <= |s|
    ensures a + 3 <= e <= |s|
  {
    a + 3 + LineLen(s[a + 3..])
  }

  /**
    `re.sub(pattern, r"\g<1>" + idx + r"\g<2>", s)` for the pattern of field `f`:
    scanning left to right, every match keeps its two groups and has the index
    between them replaced by `idx`; every other character is copied.
  */
  function Sub(f: Field, idx: string, s: string): string
    decreases |s|
  {
    if s == [] then []
    else
      match Head(f, s)
      case Some(a) =>
        var e := MatchEnd(s, a);
        s[..7] + idx + s[a..e] + Sub(f, idx, s[e..])
      case None => [s[0]] + Sub(f, idx, s[1..])
  }

  // ---------------------------------------------------------------------------
  // Basic facts about the scan
  // ---------------------------------------------------------------------------

  /** `s` and `t` agree on their first `m` characters. */
  predicate Agree(s: string, t: string, m: nat) {
    m <= |s| && m <= |t| && forall k :: 0 <= k < m ==> s[k] == t[k]
  }

  /** A run starting at `start` that ends inside the agreeing prefix ends at the same place in both. */
  lemma RunStableFrom(cls: Class, s: string, t: string, m: nat, start: nat)
    requires Agree(s, t, m) && start <= m
    requires start + Run(cls, s[start..]) < m
    ensures Run(cls, t[start..]) == Run(cls, s[start..])
  {
    RunStable(cls, s[start..], t[start..], m - start);
  }

  /** First position where the key of `f` occurs in `s`, or `|s|` when it does not occur. */
  function FirstKey(f: Field, s: string): (r: nat)
    ensures r <= |s|
    ensures r < |s| ==> KeyAt(f, s, r)
    ensures forall j :: 0 <= j < r ==> !KeyAt(f, s, j)
  {
    if |s| < 6 then |s|
    else if KeyAt(f, s, 0) then 0
    else
      var r := FirstKey(f, s[1..]);
      assert forall j :: 1 <= j <= r ==> !KeyAt(f, s, j) by {
        forall j | 1 <= j <= r ensures !KeyAt(f, s, j) {
          assert !KeyAt(f, s[1..], j - 1);
        }
      }
      if r < |s| - 1 then 1 + r else |s|
  }

  /** Key positions of `s[1..]` are those of `s` shifted by one. */
  lemma NoKeyShift(f: Field, s: string, n: nat)
    requires 0 < n <= |s|
    requires forall j :: 0 <= j < n ==> !KeyAt(f, s, j)
    ensures forall j :: 0 <= j < n - 1 ==> !KeyAt(f, s[1..], j)
  {
    forall j | 0 <= j < n - 1 ensures !KeyAt(f, s[1..], j) {
      assert !KeyAt(f, s, j + 1);
    }
  }

  /** Characters before the first key occurrence are copied unchanged. */
  lemma {:induction false} SubCopy(f: Field, idx: string, s: string, n: nat)
    requires n <= |s|
    requires forall j :: 0 <= j < n ==> !KeyAt(f, s, j)
    ensures Sub(f, idx, s) == s[..n] + Sub(f, idx, s[n..])
    decreases n
  {
    if n > 0 {
      assert !KeyAt(f, s, 0);
      SubNoHead(f, idx, s);
      NoKeyShift(f, s, n);
      SubCopy(f, idx, s[1..], n - 1);
      assert s[1..][n - 1..] == s[n..];
      ConsPrefix(s, n, Sub(f, idx, s), Sub(f, idx, s[1..]), Sub(f, idx, s[n..]));
    }
  }

  /** Gluing a copied first character onto a copied prefix of the remainder. */
  lemma ConsPrefix(s: string, n: nat, whole: string, tail: string, after: string)
    requires 0 < n <= |s|
    requires whole == [s[0]] + tail && tail == s[1..][..n - 1] + after
    ensures whole == s[..n] + after
  {
    assert s[..n] == [s[0]] + s[1..][..n - 1];
  }

  /** A text without the key is left exactly as it was. */
  lemma SubWithoutKey(f: Field, idx: string, s: string)
    requires forall j :: 0 <= j < |s| ==> !KeyAt(f, s, j)
    ensures Sub(f, idx, s) == s
  {
    SubCopy(f, idx, s, |s|);
    assert s[|s|..] == [];
  }

  /** The scan never touches the first `m` characters when no key occurs early enough to reach them. */
  lemma {:induction false} SubKeepsPrefix(f: Field, idx: string, s: string, m: nat)
    requires m <= |s|
    requires forall j :: 0 <= j && j + 7 < m ==> !KeyAt(f, s, j)
    ensures Agree(s, Sub(f, idx, s), m)
    decreases |s|
  {
    if s != [] && m > 0 {
      if Head(f, s).Some? {
        HeadShape(f, s);
        SubAtHead(f, idx, s, Head(f, s).value);
      } else {
        forall j | 0 <= j && j + 7 < m - 1 ensures !KeyAt(f, s[1..], j) {
          assert !KeyAt(f, s, j + 1);
        }
        SubKeepsPrefix(f, idx, s[1..], m - 1);
        SubNoHead(f, idx, s);
      }
    }
  }

  /** A newline cannot start a match, so a text that starts with one keeps it. */
  lemma SubNewlineLed(f: Field, idx: string, s: string)
    requires NewlineLed(s)
    ensures NewlineLed(Sub(f, idx, s))
  {
    if s != [] {
      KeyChars(f);
      assert !KeyAt(f, s, 0);
    }
  }

  /** The key cannot occur before `n` when only position 5 may hold ':' and `s[n]` is a blank. */
  lemma NoKeyBefore(g: Field, s: string, n: nat)
    requires n < |s| && (s[n] == ' ' || s[n] == '\n')
    requires !KeyAt(g, s, 0)
    requires forall k :: 5 < k < n ==> s[k] != ':'
    ensures forall j :: 0 <= j < n ==> !KeyAt(g, s, j)
  {
    KeyChars(g);
  }

  /** Within a line, every key occurrence lies wholly in the line. */
  lemma NoKeyAcrossNewline(g: Field, r: string, y: string, n: nat)
    requires NoNewline(r) && NewlineLed(y) && n <= |r|
    requires forall h :: 0 <= h < n ==> !KeyAt(g, r, h)
    ensures forall h :: 0 <= h < n ==> !KeyAt(g, r + y, h)
  {
    KeyChars(g);
    forall h | 0 <= h < n ensures !KeyAt(g, r + y, h) {
      if h + 6 <= |r| {
        assert !KeyAt(g, r, h);
      } else if h + 6 <= |r + y| {
        var i := |r| - h;
        assert (r + y)[h + i] == y[0] == '\n';
        assert KeyChar(g, i) != '\n';
      }
    }
  }

  // ---------------------------------------------------------------------------
  // How much of the text decides a match
  // ---------------------------------------------------------------------------

  /** A successful match is decided by its characters up to the end of ` - `. */
  lemma HeadStableSome(f: Field, s: string, t: string, a: nat)
    requires Head(f, s) == Some(a)
    requires Agree(s, t, a + 3)
    ensures Head(f, t) == Some(a)
  {
    assert KeyBlank(f, t);
    assert SepAt(t, a);
    var d := DigitEnd(s);
    RunStableFrom(Digits, s, t, a + 3, 7);
    assert DigitEnd(t) == d && t[d] == '.';
    RunStableFrom(Alnums, s, t, a + 3, d + 1);
    assert AlnumEnd(t, d) == a;
  }

  /** ` - ` cannot start where a ':' or a newline follows within three characters. */
  lemma NoSepOver(s: string, a: nat, c: nat)
    requires a <= c < a + 3 && c < |s| && (s[c] == ':' || s[c] == '\n')
    ensures !SepAt(s, a)
  {
  }

  lemma DigitEndStable(s: string, t: string, m: nat, c: nat)
    requires Agree(s, t, m) && 7 <= c < m && !IsDigit(s[c])
    ensures DigitEnd(s) == DigitEnd(t) <= c
  {
    RunBound(Digits, s[7..], c - 7);
    RunStableFrom(Digits, s, t, m, 7);
  }

  lemma AlnumEndStable(s: string, t: string, m: nat, c: nat, d: nat)
    requires Agree(s, t, m) && d < c < m && !IsAlnum(s[c])
    ensures AlnumEnd(s, d) == AlnumEnd(t, d) <= c
  {
    RunBound(Alnums, s[d + 1..], c - d - 1);
    RunStableFrom(Alnums, s, t, m, d + 1);
  }

  lemma SepStable(s: string, t: string, m: nat, c: nat, a: nat)
    requires Agree(s, t, m) && a <= c < m && (s[c] == ':' || s[c] == '\n')
    ensures SepAt(s, a) == SepAt(t, a)
  {
    if a + 3 > m {
      NoSepOver(s, a, c);
      NoSepOver(t, a, c);
    }
  }

  /** A match attempt is decided once the text shows a ':' or a newline after the separator. */
  lemma HeadStableStop(f: Field, s: string, t: string, m: nat, c: nat)
    requires Agree(s, t, m)
    requires 7 <= c < m && (s[c] == ':' || s[c] == '\n')
    ensures Head(f, s) == Head(f, t)
  {
    assert KeyBlank(f, s) == KeyBlank(f, t);
    if KeyBlank(f, s) {
      DigitEndStable(s, t, m, c);
      var d := DigitEnd(s);
      if d > 7 && s[d] == '.' {
        AlnumEndStable(s, t, m, c, d);
        SepStable(s, t, m, c, AlnumEnd(s, d));
      }
    }
  }

  /** A key, a blank and a well-formed index followed by ` - ` is always a match. */
  lemma HeadComplete(f: Field, p: string, v: string, tail: string)
    requires |p| == 7 && KeyBlank(f, p)
    requires IsVersion(v) && SepAt(tail, 0)
    ensures Head(f, p + v + tail) == Some(7 + |v|)
  {
    var s := p + v + tail;
    var d := Run(Digits, v);
    assert KeyBlank(f, s) by {
      assert forall k :: 0 <= k < 7 ==> s[k] == p[k];
    }
    assert s[7..] == v + tail;
    assert DigitEnd(s) == 7 + d by { VersionDigits(v, tail); }
    assert s[7 + d] == '.';
    assert s[8 + d..] == v[d + 1..] + tail;
    assert AlnumEnd(s, 7 + d) == 7 + |v| by { VersionAlnums(v, tail); }
    assert SepAt(s, 7 + |v|);
  }

  /** The digit run of a version stops at its '.', whatever follows. */
  lemma VersionDigits(v: string, tail: string)
    requires IsVersion(v)
    ensures Run(Digits, v + tail) == Run(Digits, v)
  {
    RunStable(Digits, v, v + tail, |v|);
  }

  /** After the '.', the alphanumeric run of a version stops where ` - ` begins. */
  lemma VersionAlnums(v: string, tail: string)
    requires IsVersion(v) && SepAt(tail, 0)
    ensures Run(Alnums, v[Run(Digits, v) + 1..] + tail) == |v| - Run(Digits, v) - 1
  {
    var d := Run(Digits, v);
    var x := v[d + 1..];
    assert forall k :: 0 <= k < |x| ==> x[k] == v[d + 1 + k];
    RunExact(Alnums, x, tail);
  }

  /** Unfolds one match: the kept prefix, the new index, the rest of the line, then the scan goes on. */
  lemma SubAtHead(f: Field, idx: string, s: string, a: nat)
    requires Head(f, s) == Some(a)
    ensures Sub(f, idx, s) == s[..7] + idx + Line(s[a..]) + Sub(f, idx, Rest(s[a..]))
    ensures NoNewline(Line(s[a..])) && NewlineLed(Rest(s[a..])) && SepAt(Line(s[a..]), 0)
  {
    MatchLine(f, s, a);
  }

  /** The text a match keeps after the index is exactly the rest of its line. */
  lemma MatchLine(f: Field, s: string, a: nat)
    requires Head(f, s) == Some(a)
    ensures Line(s[a..]) == s[a..MatchEnd(s, a)] && Rest(s[a..]) == s[MatchEnd(s, a)..]
    ensures NoNewline(Line(s[a..])) && NewlineLed(Rest(s[a..])) && SepAt(Line(s[a..]), 0)
  {
    var x := s[a..];
    assert SepAt(s, a) by { HeadShape(f, s); }
    assert x[3..] == s[a + 3..];
    assert LineLen(x) == 3 + LineLen(s[a + 3..]) by { LineLenSkip(x, 3); }
    var n := MatchEnd(s, a) - a;
    assert Line(x) == x[..n] == s[a..a + n];
    assert Rest(x) == x[n..] == s[a + n..];
    LineProps(x);
  }

  /** A line rewritten by a match is rewritten again the same way: the match only depends on the line. */
  lemma SubOfLine(f: Field, idx: string, p: string, v: string, r: string, w: string)
    requires |p| == 7 && KeyBlank(f, p) && IsVersion(v)
    requires SepAt(r, 0) && NoNewline(r) && NewlineLed(w)
    ensures Sub(f, idx, p + v + r + w) == p + idx + r + Sub(f, idx, w)
  {
    var u := p + v + r + w;
    var a := 7 + |v|;
    HeadOfBuilt(f, p, v, r, w, u);
    SubAtHead(f, idx, u, a);
    BuiltLine(p, v, r, w, u, a);
  }

  lemma HeadOfBuilt(f: Field, p: string, v: string, r: string, w: string, u: string)
    requires |p| == 7 && KeyBlank(f, p) && IsVersion(v) && SepAt(r, 0)
    requires u == p + v + r + w
    ensures Head(f, u) == Some(7 + |v|)
  {
    HeadComplete(f, p, v, r + w);
    assert p + v + (r + w) == u;
  }

  lemma BuiltLine(p: string, v: string, r: string, w: string, u: string, a: nat)
    requires NoNewline(r) && NewlineLed(w)
    requires u == p + v + r + w && a == |p| + |v|
    ensures u[..|p|] == p
    ensures Line(u[a..]) == r && Rest(u[a..]) == w
  {
    assert u[a..] == r + w;
    LineOfConcat(r, w);
    LineOfNewlineLed(w);
  }

  /** Dually, when no match starts here the first character is copied. */
  lemma SubNoHead(f: Field, idx: string, s: string)
    requires s != [] && Head(f, s) == None
    ensures Sub(f, idx, s) == [s[0]] + Sub(f, idx, s[1..])
  {
  }

  // ---------------------------------------------------------------------------
  // Idempotence of one substitution
  // ---------------------------------------------------------------------------

  /**
    When no match starts at 0, rewriting the rest of the text does not create one:
    the rewrite leaves the text alone up to the ':' of the next key, which ends any
    attempt that started at 0.
  */
  lemma NoHeadAfterSub(f: Field, g: Field, idx: string, s: string)
    requires s != [] && Head(f, s) == None
    ensures Head(f, [s[0]] + Sub(g, idx, s[1..])) == None
  {
    var x := s[1..];
    var u := [s[0]] + Sub(g, idx, x);
    var q := FirstKey(g, x);
    if q == |x| {
      SubWithoutKey(g, idx, x);
      assert u == s;
    } else {
      var m := if q + 7 < |x| then q + 7 else |x|;
      assert Agree(s, u, 1 + m) by { SubKeepsPrefix(g, idx, x, m); }
      if KeyAt(f, s, 0) {
        assert q > 0 && s[q + 6] == ':' by {
          KeyChars(f);
          KeyChars(g);
        }
        HeadStableStop(f, s, u, 1 + m, q + 6);
      }
    }
  }

  /**
    Running a substitution a second time changes nothing when the new index is
    itself a well-formed index value: each rewritten line is matched again and
    given the same index, and no new match appears.
  */
  lemma {:induction false} SubIdempotent(f: Field, idx: string, s: string)
    requires IsVersion(idx)
    ensures Sub(f, idx, Sub(f, idx, s)) == Sub(f, idx, s)
    decreases |s|
  {
    if s != [] {
      if Head(f, s).Some? {
        var a := Head(f, s).value;
        SubAtHead(f, idx, s, a);
        HeadShape(f, s);
        var line, rest := Line(s[a..]), Rest(s[a..]);
        SubIdempotent(f, idx, rest);
        SubNewlineLed(f, idx, rest);
        assert KeyBlank(f, s[..7]);
        SubOfLine(f, idx, s[..7], idx, line, Sub(f, idx, rest));
      } else {
        SubIdempotent(f, idx, s[1..]);
        NoHeadAfterSub(f, f, idx, s);
        var u := [s[0]] + Sub(f, idx, s[1..]);
        SubNoHead(f, idx, u);
        assert u[1..] == Sub(f, idx, s[1..]);
      }
    }
  }

  /** The modified content the script writes back: alias substitution applied to the title-substituted text. */
  function Rewrite(idx: string, text: string): (r: string)
    ensures KeyFree(text) ==> r == text
  {
    KeyFreeKept(idx, text);
    Sub(Alias, idx, Sub(Title, idx, text))
  }

  /** No `title:` and no `alias:` occurs anywhere in the text. */
  predicate KeyFree(text: string) {
    forall j :: 0 <= j < |text| ==> !KeyAt(Title, text, j) && !KeyAt(Alias, text, j)
  }

  /** A text without either key passes both substitutions unchanged. */
  lemma KeyFreeKept(idx: string, text: string)
    ensures KeyFree(text) ==> Sub(Alias, idx, Sub(Title, idx, text)) == text
  {
    if KeyFree(text) {
      SubWithoutKey(Title, idx, text);
      SubWithoutKey(Alias, idx, text);
    }
  }
}
