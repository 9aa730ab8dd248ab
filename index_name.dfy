/**
  The file-name side of script.py: `INDEX_REG` decides which Markdown files are
  rewritten and captures their raw index (`01-A` in `01-A-intro.md`), which is
  then normalised by turning its hyphen into a dot (`01.A`).

  `INDEX_REG` is `^` + `[0-9A-Z]+` + `-` + `[0-9a-zA-Z]+` (group 1) + `-.*\.md$`.
  Neither class contains `-`, so both greedy runs are maximal and the match,
  when there is one, is unique; `findall` then returns a one-element list.
*/
module IndexName {
  import opened Wrappers
  import opened IndexRewrite

  /**
    What `.*\.md$` accepts after the second hyphen: `.` stops at a newline, and
    without MULTILINE `$` matches at the very end or just before a final '\n'.
  */
  predicate MdTail(t: string) {
    (|t| >= 3 && t[|t| - 3..] == ".md" && NoNewline(t[..|t| - 3]))
    || (|t| >= 4 && t[|t| - 4..] == ".md\n" && NoNewline(t[..|t| - 4]))
  }

  /**
    A raw index: a non-empty `[0-9A-Z]` run, one hyphen, and a non-empty
    `[0-9a-zA-Z]` tail.
  */
  predicate IsRawIndex(g: string) {
    var a := Run(UpperDigits, g);
    0 < a && a + 1 < |g| && g[a] == '-' && AllIn(Alnums, g[a + 1..])
  }

  /**
    `INDEX_REG.findall(file)`, reduced to its only possible element: `None`
    for the empty list, `Some(group 1)` otherwise.
  */
  function MatchIndex(name: string): (r: Option<string>)
    ensures r.Some? ==> |r.value| < |name| && name[..|r.value|] == r.value
  {
    var a := Run(UpperDigits, name);
    if a == 0 || a == |name| || name[a] != '-' then None
    else
      var b := AlnumEnd(name, a);
      if b == a + 1 || b == |name| || name[b] != '-' || !MdTailAfter(name, b) then None
      else
        Some(name[..b])
  }

  /** The text after the second hyphen at `b` is accepted by `.*\.md$`. */
  predicate MdTailAfter(name: string, b: nat)
    requires b < |name|
  {
    MdTail(name[b + 1..])
  }

  lemma RawIndexOfMatch(name: string, a: nat, b: nat)
    requires a == Run(UpperDigits, name) && 0 < a < |name| && name[a] == '-'
    requires b == AlnumEnd(name, a) && a + 1 < b < |name| && name[b] == '-' && MdTailAfter(name, b)
    ensures IsRawIndex(name[..b])
  {
    var g := name[..b];
    RunProps(UpperDigits, name);
    RunProps(Alnums, name[a + 1..]);
    RunIs(UpperDigits, g, a);
    var u, w := g[a + 1..], name[a + 1..];
    assert forall k :: 0 <= k < |u| ==> u[k] == w[k];
  }

  /** A recognised name continues after group 1 with a hyphen and a `.md` tail. */
  lemma MatchIndexShape(name: string)
    requires MatchIndex(name).Some?
    ensures IsRawIndex(MatchIndex(name).value)
    ensures var n := |MatchIndex(name).value|; n < |name| && name[n] == '-' && MdTail(name[n + 1..])
  {
    var a := Run(UpperDigits, name);
    var b := AlnumEnd(name, a);
    assert MatchIndex(name) == Some(name[..b]);
    RawIndexOfMatch(name, a, b);
    assert |MatchIndex(name).value| == b;
  }

  /**
    Every name of the shape the pattern describes is recognised, and group 1 is
    exactly its first two hyphen-separated parts.
  */
  lemma MatchIndexComplete(x: string, y: string, t: string)
    requires x != [] && AllIn(UpperDigits, x)
    requires y != [] && AllIn(Alnums, y)
    requires MdTail(t)
    ensures MatchIndex(x + "-" + y + "-" + t) == Some(x + "-" + y)
  {
    var name := x + "-" + y + "-" + t;
    var a, b := |x|, |x| + 1 + |y|;
    assert Run(UpperDigits, name) == a by { RunIs(UpperDigits, name, a); }
    assert name[a + 1..] == y + "-" + t;
    assert Run(Alnums, name[a + 1..]) == |y| by { RunIs(Alnums, y + "-" + t, |y|); }
    assert name[b] == '-' && name[b + 1..] == t;
    assert name[..b] == x + "-" + y;
    MatchIndexAt(name, a, b);
  }

  /** The two runs and the tail decide the match. */
  lemma MatchIndexAt(name: string, a: nat, b: nat)
    requires a == Run(UpperDigits, name) && 0 < a < |name| && name[a] == '-'
    requires b == AlnumEnd(name, a) && a + 1 < b < |name| && name[b] == '-'
    requires MdTailAfter(name, b)
    ensures MatchIndex(name) == Some(name[..b])
  {
  }

  /** Only names of that shape are recognised: the converse of `MatchIndexComplete`. */
  lemma MatchIndexSound(name: string)
    requires MatchIndex(name).Some?
    ensures exists x, y, t ::
              && x != [] && AllIn(UpperDigits, x) && y != [] && AllIn(Alnums, y)
              && MdTail(t) && name == x + "-" + y + "-" + t && MatchIndex(name) == Some(x + "-" + y)
  {
    var g := MatchIndex(name).value;
    MatchIndexShape(name);
    SplitMatched(name, g);
    var a := Run(UpperDigits, g);
    var x, y, t := g[..a], g[a + 1..], name[|g| + 1..];
  }

  /** Cutting a recognised name into its two index parts and its tail. */
  lemma SplitMatched(name: string, g: string)
    requires IsRawIndex(g) && |g| < |name| && name[..|g|] == g && name[|g|] == '-'
    ensures var a := Run(UpperDigits, g);
      var x, y, t := g[..a], g[a + 1..], name[|g| + 1..];
      x != [] && AllIn(UpperDigits, x) && y != [] && g == x + "-" + y && name == x + "-" + y + "-" + t
  {
    var a := Run(UpperDigits, g);
    var x, y, t := g[..a], g[a + 1..], name[|g| + 1..];
    assert AllIn(UpperDigits, x) by { RunProps(UpperDigits, g); }
    CutAt(g, a);
    CutAt(name, |g|);
  }

  /** A string is what comes before its hyphen at `i`, the hyphen, and what follows. */
  lemma CutAt(s: string, i: nat)
    requires i < |s| && s[i] == '-'
    ensures s == s[..i] + "-" + s[i + 1..]
  {
    assert s == s[..i] + [s[i]] + s[i + 1..];
  }

  /** `str.replace("-", ".")`: every hyphen becomes a dot. */
  function Dotted(g: string): (r: string)
    ensures |r| == |g|
    ensures forall k :: 0 <= k < |g| ==> r[k] == (if g[k] == '-' then '.' else g[k])
  {
    if g == [] then [] else [if g[0] == '-' then '.' else g[0]] + Dotted(g[1..])
  }

  /** The normalised index of a file name, if the name is recognised. */
  function NormalizedIndex(name: string): (r: Option<string>)
    ensures r.Some? <==> MatchIndex(name).Some?
  {
    match MatchIndex(name)
    case None => None
    case Some(g) => Some(Dotted(g))
  }

  /**
    The normalised index keeps the two parts and joins them with one dot; it is
    made of index characters, and the substitutions' index shape
    `[0-9]+\.[0-9a-zA-Z]+` accepts it exactly when the first part is all digits.
  */
  lemma DottedRawIndex(g: string)
    requires IsRawIndex(g)
    ensures var a := Run(UpperDigits, g);
      Dotted(g) == g[..a] + "." + g[a + 1..]
      && IndexChars(Dotted(g))
      && (IsVersion(Dotted(g)) <==> AllIn(Digits, g[..a]))
  {
    var a := Run(UpperDigits, g);
    DottedSplit(g);
    DottedChars(g);
    if AllIn(Digits, g[..a]) {
      DottedVersion(g);
    }
    if IsVersion(Dotted(g)) {
      VersionDigits(g);
    }
  }

  lemma DottedSplit(g: string)
    requires IsRawIndex(g)
    ensures var a := Run(UpperDigits, g); Dotted(g) == g[..a] + "." + g[a + 1..]
  {
    var a := Run(UpperDigits, g);
    var y := g[a + 1..];
    assert forall k :: 0 <= k < a ==> g[k] != '-' by { RunProps(UpperDigits, g); }
    assert forall k :: a < k < |g| ==> g[k] != '-' by {
      forall k | a < k < |g| ensures g[k] != '-' { assert y[k - a - 1] == g[k]; }
    }
    DotAt(g, a);
  }

  /** A string with a single hyphen, at `a`, gets a single dot there. */
  lemma DotAt(g: string, a: nat)
    requires a < |g| && g[a] == '-'
    requires forall k :: 0 <= k < |g| && k != a ==> g[k] != '-'
    ensures Dotted(g) == g[..a] + "." + g[a + 1..]
  {
    var v, u := Dotted(g), g[..a] + "." + g[a + 1..];
    forall k | 0 <= k < |v| ensures v[k] == u[k] {
      if k > a { assert u[k] == g[a + 1..][k - a - 1]; }
    }
  }

  lemma DottedChars(g: string)
    requires IsRawIndex(g)
    ensures IndexChars(Dotted(g))
  {
    var a := Run(UpperDigits, g);
    var v, y := Dotted(g), g[a + 1..];
    RunProps(UpperDigits, g);
    forall k | 0 <= k < |v| ensures IsAlnum(v[k]) || v[k] == '.' {
      if k > a { assert y[k - a - 1] == g[k]; }
    }
  }

  lemma DottedVersion(g: string)
    requires IsRawIndex(g) && AllIn(Digits, g[..Run(UpperDigits, g)])
    ensures IsVersion(Dotted(g))
  {
    var a := Run(UpperDigits, g);
    var v, x, y := Dotted(g), g[..a], g[a + 1..];
    assert forall k :: 0 <= k < a ==> v[k] == x[k];
    RunIs(Digits, v, a);
    forall k | a < k < |v| ensures IsAlnum(v[k]) {
      assert y[k - a - 1] == g[k];
    }
  }

  lemma VersionDigits(g: string)
    requires IsRawIndex(g) && IsVersion(Dotted(g))
    ensures AllIn(Digits, g[..Run(UpperDigits, g)])
  {
    var a := Run(UpperDigits, g);
    var v, x := Dotted(g), g[..a];
    RunProps(UpperDigits, g);
    RunProps(Digits, v);
    var d := Run(Digits, v);
    assert v[a] == '.';
    RunBound(Digits, v, a);
    assert forall k :: 0 <= k < a ==> v[k] == g[k] && v[k] != '.';
    assert forall k :: 0 <= k < a ==> x[k] == v[k];
  }
}
