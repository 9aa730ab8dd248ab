/**
  The natural-order comparators of the site layout: the Explorer's `sortFn`
  (quartz.layout.ts) and the folder page's title comparator (quartz.config.ts).
  Both carry the same `naturalCompare`: split each string into runs of ASCII
  digits and runs of other characters, compare digit runs by value and other
  runs with `localeCompare`, and fall back on the number of runs.

  `localeCompare` is a parameter: any function from two strings to an integer.
*/
module NaturalSort {
  import opened Wrappers
  import opened Strings

  /** A run: not empty, and all digits or no digits. */
  predicate Uniform(x: string) {
    x != [] && forall t :: 0 <= t < |x| ==> IsDigit(x[t]) == IsDigit(x[0])
  }

  /** The run `s` starts with. */
  function Run(s: string): (r: string)
    requires s != []
    ensures |r| <= |s| && r == s[..|r|]
    ensures Uniform(r) && IsDigit(r[0]) == IsDigit(s[0])
  {
    s[..Span(s, IsDigit(s[0]))]
  }

  /** What follows the first run; it starts with the other kind of character. */
  function Rest(s: string): (r: string)
    requires s != []
    ensures |r| < |s| && s == Run(s) + r
    ensures r != [] ==> IsDigit(r[0]) != IsDigit(s[0])
  {
    s[Span(s, IsDigit(s[0]))..]
  }

  // ---------------------------------------------------------------------------
  // a.split(/(\d+)/).filter(Boolean)
  // ---------------------------------------------------------------------------

  /**
    `s.split(/(\d+)/)`: the text before the first digit run (empty when `s`
    starts with a digit), the digit run itself (the capture group), and so on;
    the last piece is the text after the last digit run, empty when there is none.
  */
  function RegexSplit(s: string): (r: seq<string>)
    decreases |s|
  {
    if s == [] then [[]]
    else if IsDigit(s[0]) then [[], Run(s)] + RegexSplit(Rest(s))
    else if Rest(s) == [] then [s]
    else [Run(s), Run(Rest(s))] + RegexSplit(Rest(Rest(s)))
  }

  /** `.filter(Boolean)`: the pieces that are not empty, in order. */
  function NonEmpty(xs: seq<string>): (r: seq<string>)
    ensures |r| <= |xs|
  {
    if xs == [] then [] else (if xs[0] != [] then [xs[0]] else []) + NonEmpty(xs[1..])
  }

  lemma {:induction false} NonEmptyConcat(a: seq<string>, b: seq<string>)
    ensures NonEmpty(a + b) == NonEmpty(a) + NonEmpty(b)
  {
    if a == [] {
      assert a + b == b;
    } else {
      assert (a + b)[0] == a[0] && (a + b)[1..] == a[1..] + b;
      NonEmptyConcat(a[1..], b);
    }
  }

  /** The segments: the maximal runs of `s`, in order. */
  function Segments(s: string): (r: seq<string>)
    decreases |s|
  {
    if s == [] then [] else [Run(s)] + Segments(Rest(s))
  }

  function Concat(xs: seq<string>): string {
    if xs == [] then [] else xs[0] + Concat(xs[1..])
  }

  /** A split into runs where runs that follow each other have different kinds. */
  predicate Alternating(xs: seq<string>) {
    && (forall k :: 0 <= k < |xs| ==> Uniform(xs[k]))
    && (forall k :: 0 <= k < |xs| - 1 ==> IsDigit(xs[k][0]) != IsDigit(xs[k + 1][0]))
  }

  /** The segments are non-empty runs of alternating kind that spell out `s`. */
  lemma {:induction false} SegmentsSpec(s: string)
    ensures Concat(Segments(s)) == s
    ensures Alternating(Segments(s))
    ensures Segments(s) != [] ==> Segments(s)[0][0] == s[0]
  {
    if s != [] {
      var r := Segments(s);
      SegmentsSpec(Rest(s));
      assert r[1..] == Segments(Rest(s));
    }
  }

  /** Only the segments have those three properties: any such split of a string is its segments. */
  lemma {:induction false} SegmentsUnique(parts: seq<string>)
    requires Alternating(parts)
    ensures Segments(Concat(parts)) == parts
  {
    if parts != [] {
      var s := Concat(parts);
      var tail := Concat(parts[1..]);
      SegmentsUnique(parts[1..]);
      assert s == parts[0] + tail;
      if parts[1..] != [] {
        assert tail == parts[1] + Concat(parts[2..]);
        assert tail[0] == parts[1][0];
      }
      SpanPrefix(parts[0], tail);
      assert Run(s) == parts[0];
      assert Rest(s) == tail;
    }
  }

  lemma SpanPrefix(x: string, y: string)
    requires Uniform(x)
    requires y != [] ==> IsDigit(y[0]) != IsDigit(x[0])
    ensures Span(x + y, IsDigit(x[0])) == |x|
  {
    assert forall k :: 0 <= k < |x| ==> (x + y)[k] == x[k];
    assert y != [] ==> (x + y)[|x|] == y[0];
  }

  /** Splitting on the digit runs and dropping the empty pieces gives the segments. */
  lemma {:induction false} SplitSegments(s: string)
    ensures NonEmpty(RegexSplit(s)) == Segments(s)
    decreases |s|
  {
    if s == [] {
      assert RegexSplit(s) == [[]];
    } else if IsDigit(s[0]) {
      SplitSegments(Rest(s));
      NonEmptyConcat([[], Run(s)], RegexSplit(Rest(s)));
    } else {
      if Rest(s) != [] {
        var t := Rest(s);
        SplitSegments(Rest(t));
        NonEmptyConcat([Run(s), Run(t)], RegexSplit(Rest(t)));
        assert NonEmpty([Run(s), Run(t)]) == [Run(s), Run(t)] by {
          assert [Run(s), Run(t)][1..] == [Run(t)];
        }
        assert Segments(t) == [Run(t)] + Segments(Rest(t));
      } else {
        assert NonEmpty([s]) == [s];
        assert Run(s) == s;
      }
    }
  }

  // ---------------------------------------------------------------------------
  // naturalCompare
  // ---------------------------------------------------------------------------

  /** One round of the loop: two numbers compare by difference, anything else by `localeCompare`. */
  function SegmentCompare(x: string, y: string, localeCompare: (string, string) -> int): int {
    var numA := ParseInt10(x);
    var numB := ParseInt10(y);
    if numA.Some? && numB.Some? then numA.value - numB.value else localeCompare(x, y)
  }

  /** The first segment pair that does not tie decides; otherwise the difference in segment counts. */
  function Compare(xs: seq<string>, ys: seq<string>, localeCompare: (string, string) -> int): int {
    if xs == [] || ys == [] then |xs| - |ys|
    else
      var c := SegmentCompare(xs[0], ys[0], localeCompare);
      if c != 0 then c else Compare(xs[1..], ys[1..], localeCompare)
  }

  /** The loop's round `i`: the segment pair at `i` decides unless it ties. */
  lemma CompareStep(xs: seq<string>, ys: seq<string>, localeCompare: (string, string) -> int, i: nat)
    requires i < |xs| && i < |ys|
    ensures Compare(xs[i..], ys[i..], localeCompare)
      == if SegmentCompare(xs[i], ys[i], localeCompare) != 0 then SegmentCompare(xs[i], ys[i], localeCompare)
         else Compare(xs[i + 1..], ys[i + 1..], localeCompare)
  {
    assert xs[i..][1..] == xs[i + 1..] && ys[i..][1..] == ys[i + 1..];
  }

  /** The order `naturalCompare` computes. */
  function NaturalOrder(a: string, b: string, localeCompare: (string, string) -> int): int {
    Compare(Segments(a), Segments(b), localeCompare)
  }

  /** `naturalCompare`: both strings split into segments, then the loop over them. */
  method NaturalCompare(a: string, b: string, localeCompare: (string, string) -> int) returns (r: int)
    ensures r == NaturalOrder(a, b, localeCompare)
  {
    var splitA := NonEmpty(RegexSplit(a));
    var splitB := NonEmpty(RegexSplit(b));
    SplitSegments(a);
    SplitSegments(b);
    r := CompareSegments(splitA, splitB, localeCompare);
  }

  /** The loop of `naturalCompare` over the common segments, with its early returns. */
  method CompareSegments(splitA: seq<string>, splitB: seq<string>, localeCompare: (string, string) -> int)
    returns (r: int)
    ensures r == Compare(splitA, splitB, localeCompare)
  {
    var n := if |splitA| < |splitB| then |splitA| else |splitB|;
    for i := 0 to n
      invariant Compare(splitA, splitB, localeCompare) == Compare(splitA[i..], splitB[i..], localeCompare)
    {
      CompareStep(splitA, splitB, localeCompare, i);
      var numA := ParseInt10(splitA[i]);
      var numB := ParseInt10(splitB[i]);
      if numA.Some? && numB.Some? {
        if numA.value != numB.value {
          return numA.value - numB.value;
        }
      } else {
        var compare := localeCompare(splitA[i], splitB[i]);
        if compare != 0 {
          return compare;
        }
      }
    }
    r := |splitA| - |splitB|;
  }


  /** Strings starting with digit runs of different values are ordered by those values. */
  lemma NumbersDecide(a: string, b: string, localeCompare: (string, string) -> int)
    requires a != [] && b != [] && IsDigit(a[0]) && IsDigit(b[0])
    ensures ParseDec(Run(a)) != ParseDec(Run(b)) ==>
      NaturalOrder(a, b, localeCompare) == ParseDec(Run(a)) - ParseDec(Run(b))
    ensures ParseDec(Run(a)) == ParseDec(Run(b)) ==>
      NaturalOrder(a, b, localeCompare) == NaturalOrder(Rest(a), Rest(b), localeCompare)
  {
    ParseDigits(Run(a));
    ParseDigits(Run(b));
    assert Segments(a)[1..] == Segments(Rest(a)) && Segments(b)[1..] == Segments(Rest(b));
  }

  /** Strings whose first runs are not both digit runs are ordered by `localeCompare` on those runs, or by the rest. */
  lemma TextDecides(a: string, b: string, localeCompare: (string, string) -> int)
    requires a != [] && b != [] && !(IsDigit(a[0]) && IsDigit(b[0]))
    ensures localeCompare(Run(a), Run(b)) != 0 ==>
      NaturalOrder(a, b, localeCompare) == localeCompare(Run(a), Run(b))
    ensures localeCompare(Run(a), Run(b)) == 0 ==>
      NaturalOrder(a, b, localeCompare) == NaturalOrder(Rest(a), Rest(b), localeCompare)
  {
    if IsDigit(a[0]) {
      ParseNoDigits(Run(b));
    } else {
      ParseNoDigits(Run(a));
    }
    assert Segments(a)[1..] == Segments(Rest(a)) && Segments(b)[1..] == Segments(Rest(b));
  }

  /** `2` sorts before `10`, whatever `localeCompare` does. */
  lemma TwoBeforeTen(localeCompare: (string, string) -> int)
    ensures NaturalOrder("2", "10", localeCompare) == -8
  {
    NumbersDecide("2", "10", localeCompare);
    assert Run("2") == "2" && Run("10") == "10";
    assert ParseDec("10") == 10 by { assert "10"[..1] == "1"; }
  }

  /** Leading zeros do not count: `01` and `1` tie. */
  lemma LeadingZerosTie(localeCompare: (string, string) -> int)
    ensures NaturalOrder("01", "1", localeCompare) == 0
  {
    NumbersDecide("01", "1", localeCompare);
    assert Run("01") == "01" && Run("1") == "1";
    assert Rest("01") == [] && Rest("1") == [];
    assert ParseDec("01") == 1 by { assert "01"[..1] == "0"; }
  }

  /** When all common segments tie, the difference in segment counts decides. */
  lemma {:induction false} CountsDecide(xs: seq<string>, ys: seq<string>, localeCompare: (string, string) -> int)
    requires forall k :: 0 <= k < |xs| && k < |ys| ==> SegmentCompare(xs[k], ys[k], localeCompare) == 0
    ensures Compare(xs, ys, localeCompare) == |xs| - |ys|
  {
    if xs != [] && ys != [] {
      assert SegmentCompare(xs[0], ys[0], localeCompare) == 0;
      CountsDecide(xs[1..], ys[1..], localeCompare);
    }
  }

  /** A string compared with itself gives 0 when `localeCompare` does. */
  lemma SelfTie(a: string, localeCompare: (string, string) -> int)
    requires forall x :: localeCompare(x, x) == 0
    ensures NaturalOrder(a, a, localeCompare) == 0
  {
    var xs := Segments(a);
    CountsDecide(xs, xs, localeCompare);
  }

  function Sign(n: int): int {
    if n < 0 then -1 else if n > 0 then 1 else 0
  }

  /** Swapping the arguments flips the sign, when it does so for `localeCompare`. */
  lemma {:induction false} CompareAntisymmetric(xs: seq<string>, ys: seq<string>, localeCompare: (string, string) -> int)
    requires forall x, y :: Sign(localeCompare(y, x)) == -Sign(localeCompare(x, y))
    ensures Sign(Compare(ys, xs, localeCompare)) == -Sign(Compare(xs, ys, localeCompare))
  {
    if xs != [] && ys != [] {
      assert Sign(SegmentCompare(ys[0], xs[0], localeCompare)) == -Sign(SegmentCompare(xs[0], ys[0], localeCompare));
      CompareAntisymmetric(xs[1..], ys[1..], localeCompare);
    }
  }

  lemma NaturalAntisymmetric(a: string, b: string, localeCompare: (string, string) -> int)
    requires forall x, y :: Sign(localeCompare(y, x)) == -Sign(localeCompare(x, y))
    ensures Sign(NaturalOrder(b, a, localeCompare)) == -Sign(NaturalOrder(a, b, localeCompare))
  {
    CompareAntisymmetric(Segments(a), Segments(b), localeCompare);
  }

  // ---------------------------------------------------------------------------
  // The Explorer's sortFn and the folder page's title comparator
  // ---------------------------------------------------------------------------

  /** An Explorer entry: its name, and whether it is a file (a folder otherwise). */
  datatype Entry = Entry(name: string, isFile: bool)

  /** `sortFn`: files before folders; two of a kind by the natural order of their lower-cased names. */
  function ExplorerOrder(a: Entry, b: Entry, localeCompare: (string, string) -> int): (r: int)
    ensures a.isFile && !b.isFile ==> r < 0
    ensures !a.isFile && b.isFile ==> r > 0
  {
    if a.isFile == b.isFile then NaturalOrder(Lower(a.name), Lower(b.name), localeCompare)
    else if a.isFile then -1
    else 1
  }

  /** Names that differ only in ASCII case sort alike. */
  lemma ExplorerIgnoresCase(a: Entry, a': Entry, b: Entry, localeCompare: (string, string) -> int)
    requires a.isFile == a'.isFile && Lower(a.name) == Lower(a'.name)
    ensures ExplorerOrder(a, b, localeCompare) == ExplorerOrder(a', b, localeCompare)
    ensures ExplorerOrder(b, a, localeCompare) == ExplorerOrder(b, a', localeCompare)
  {
  }

  lemma ExplorerAntisymmetric(a: Entry, b: Entry, localeCompare: (string, string) -> int)
    requires forall x, y :: Sign(localeCompare(y, x)) == -Sign(localeCompare(x, y))
    ensures Sign(ExplorerOrder(b, a, localeCompare)) == -Sign(ExplorerOrder(a, b, localeCompare))
  {
    if a.isFile == b.isFile {
      NaturalAntisymmetric(Lower(a.name), Lower(b.name), localeCompare);
    }
  }

  /** The folder page's comparator: lower-cased titles in natural order, a missing title read as empty. */
  function TitleOrder(t1: Option<string>, t2: Option<string>, localeCompare: (string, string) -> int): int {
    var f1Title := if t1.Some? then Lower(t1.value) else "";
    var f2Title := if t2.Some? then Lower(t2.value) else "";
    NaturalOrder(f1Title, f2Title, localeCompare)
  }

  /** A missing title has no segments: it ties with an empty title and sorts before any other. */
  lemma MissingTitleFirst(t: Option<string>, localeCompare: (string, string) -> int)
    ensures t.None? || t.value == "" ==> TitleOrder(None, t, localeCompare) == 0
    ensures t.Some? && t.value != "" ==> TitleOrder(None, t, localeCompare) < 0
    ensures t.Some? && t.value != "" ==> TitleOrder(t, None, localeCompare) > 0
  {
  }

  /** Titles that differ only in ASCII case tie, when `localeCompare` is 0 on equal strings. */
  lemma TitlesIgnoreCase(t1: string, t2: string, localeCompare: (string, string) -> int)
    requires forall x :: localeCompare(x, x) == 0
    requires Lower(t1) == Lower(t2)
    ensures TitleOrder(Some(t1), Some(t2), localeCompare) == 0
  {
    SelfTie(Lower(t1), localeCompare);
  }

  lemma TitleAntisymmetric(t1: Option<string>, t2: Option<string>, localeCompare: (string, string) -> int)
    requires forall x, y :: Sign(localeCompare(y, x)) == -Sign(localeCompare(x, y))
    ensures Sign(TitleOrder(t2, t1, localeCompare)) == -Sign(TitleOrder(t1, t2, localeCompare))
  {
    var f1Title := if t1.Some? then Lower(t1.value) else "";
    var f2Title := if t2.Some? then Lower(t2.value) else "";
    NaturalAntisymmetric(f1Title, f2Title, localeCompare);
  }
}
