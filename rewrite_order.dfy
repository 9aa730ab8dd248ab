/**
  The two substitutions of `script.py` are applied one after the other: first the
  title pattern, then the alias pattern.  This module proves that the order does
  not matter, and that the whole rewrite is idempotent for an index whose first
  part is numeric, so a second run of the script leaves every file unchanged.

  The commutation proof walks both texts together.  A title match and an alias
  match never overlap inside one line (each key is followed by an index and
  ` - `, and the line is consumed to its end), except that a match of one field
  may start on a line holding nothing but the other key, with the whitespace of
  the group being the newline itself.  `Mix` and its helpers follow the alias
  scan along the rest of a line that the title scan has already passed.
*/
module RewriteOrder {
  import opened Wrappers
  import opened IndexRewrite

  // ---------------------------------------------------------------------------
  // Small facts
  // ---------------------------------------------------------------------------

  lemma LineRest(x: string)
    ensures x == Line(x) + Rest(x)
  {
  }

  lemma IndexCharsNoNewline(v: string)
    requires IndexChars(v)
    ensures NoNewline(v)
  {
  }

  /** A newline-free prefix is passed over by the scan, up to a blank that cannot continue a key. */
  lemma SkipPrefix(g: Field, j: string, p: string, v: string, rest: string)
    requires !KeyAt(g, p + v + rest, 0)
    requires forall k :: 5 < k < |p| ==> p[k] != ':'
    requires IndexChars(v)
    requires rest != [] && (rest[0] == ' ' || rest[0] == '\n')
    ensures Sub(g, j, p + v + rest) == p + v + Sub(g, j, rest)
  {
    var u := p + v + rest;
    var n := |p| + |v|;
    assert forall k :: 5 < k < n ==> u[k] != ':' by {
      forall k | 5 < k < n ensures u[k] != ':' {
        if k >= |p| { assert u[k] == v[k - |p|]; }
      }
    }
    NoKeyBefore(g, u, n);
    SubCopy(g, j, u, n);
    assert u[..n] == p + v && u[n..] == rest;
  }

  /** Before the first key of either field, both orders copy the text. */
  lemma PrefixCopy(f: Field, g: Field, i: string, j: string, s: string, p: nat)
    requires p < |s| && (KeyAt(f, s, p) || KeyAt(g, s, p))
    requires forall h :: 0 <= h < p ==> !KeyAt(f, s, h) && !KeyAt(g, s, h)
    ensures Sub(g, j, Sub(f, i, s)) == s[..p] + Sub(g, j, Sub(f, i, s[p..]))
  {
    var x := Sub(f, i, s[p..]);
    var u := s[..p] + x;
    assert Sub(f, i, s) == u by { SubCopy(f, i, s, p); }
    assert forall h :: 0 <= h < p ==> !KeyAt(g, u, h) by {
      SubKeepsPrefix(f, i, s[p..], 6);
      AgreeGlue(s, p, x, 6);
      KeysAgree(g, s, u, p);
    }
    assert Sub(g, j, u) == s[..p] + Sub(g, j, x) by {
      SubCopy(g, j, u, p);
      assert u[..p] == s[..p] && u[p..] == x;
    }
  }

  /** Replacing what follows `p` by text that starts the same way keeps the first `p + m` characters. */
  lemma AgreeGlue(s: string, p: nat, x: string, m: nat)
    requires p <= |s| && Agree(s[p..], x, m)
    ensures Agree(s, s[..p] + x, p + m)
  {
    var u := s[..p] + x;
    forall k | 0 <= k < p + m ensures s[k] == u[k] {
      if k >= p {
        assert s[p..][k - p] == x[k - p];
      }
    }
  }

  /** Texts that agree far enough have the same key positions before `p`. */
  lemma KeysAgree(g: Field, s: string, u: string, p: nat)
    requires Agree(s, u, p + 5)
    requires forall h :: 0 <= h < p ==> !KeyAt(g, s, h)
    ensures forall h :: 0 <= h < p ==> !KeyAt(g, u, h)
  {
    forall h | 0 <= h < p ensures !KeyAt(g, u, h) {
      assert !KeyAt(g, s, h);
    }
  }

  // ---------------------------------------------------------------------------
  // Commutation
  // ---------------------------------------------------------------------------

  /**
    Substituting the index `i` into the `f` field and `j` into the `g` field gives
    the same text in either order.
  */
  lemma {:induction false} Commute(f: Field, g: Field, i: string, j: string, s: string)
    requires f != g && IndexChars(i) && IndexChars(j)
    ensures Sub(g, j, Sub(f, i, s)) == Sub(f, i, Sub(g, j, s))
    decreases |s|, 0, if KeyAt(f, s, 0) then 1 else 2
  {
    var pf, pg := FirstKey(f, s), FirstKey(g, s);
    var p := if pf < pg then pf else pg;
    if p == |s| {
      SubWithoutKey(f, i, s);
      SubWithoutKey(g, j, s);
    } else if p > 0 {
      PrefixCopy(f, g, i, j, s, p);
      PrefixCopy(g, f, j, i, s, p);
      Commute(f, g, i, j, s[p..]);
    } else if !KeyAt(f, s, 0) {
      Commute(g, f, j, i, s);
    } else if Head(f, s).None? {
      CommuteNoMatch(f, g, i, j, s);
    } else {
      CommuteMatch(f, g, i, j, s);
    }
  }

  /** The text starts with the key of `f`, but no `f` match starts there. */
  lemma {:induction false} CommuteNoMatch(f: Field, g: Field, i: string, j: string, s: string)
    requires f != g && IndexChars(i) && IndexChars(j)
    requires KeyAt(f, s, 0) && Head(f, s) == None
    ensures Sub(g, j, Sub(f, i, s)) == Sub(f, i, Sub(g, j, s))
    decreases |s|, 0, 0
  {
    KeyChars(f);
    var x := s[1..];
    SubNoHead(f, i, s);
    assert !KeyAt(g, s, 0);
    SubNoHead(g, j, s);
    var u1 := [s[0]] + Sub(f, i, x);
    assert !KeyAt(g, u1, 0);
    SubNoHead(g, j, u1);
    assert u1[1..] == Sub(f, i, x);
    var u2 := [s[0]] + Sub(g, j, x);
    NoHeadAfterSub(f, g, j, s);
    SubNoHead(f, i, u2);
    assert u2[1..] == Sub(g, j, x);
    Commute(f, g, i, j, x);
  }

  /** An `f` match starts at 0: its line is handed to `Mix`. */
  lemma {:induction false} CommuteMatch(f: Field, g: Field, i: string, j: string, s: string)
    requires f != g && IndexChars(i) && IndexChars(j)
    requires Head(f, s).Some?
    ensures Sub(g, j, Sub(f, i, s)) == Sub(f, i, Sub(g, j, s))
    decreases |s|, 0, 0
  {
    var a := Head(f, s).value;
    MatchLine(f, s, a);
    var r, w := Line(s[a..]), Rest(s[a..]);
    var z := Sub(g, j, s[a..]);
    LineRest(s[a..]);
    calc {
      Sub(g, j, Sub(f, i, s));
      { SubAtHead(f, i, s, a); }
      Sub(g, j, s[..7] + i + r + Sub(f, i, w));
      { Assoc(s[..7] + i, r, Sub(f, i, w)); }
      Sub(g, j, s[..7] + i + (r + Sub(f, i, w)));
      { PassMatchedIndex(f, g, i, j, s, a, r + Sub(f, i, w)); }
      s[..7] + i + Sub(g, j, r + Sub(f, i, w));
      { Mix(f, g, i, j, r, w); }
      s[..7] + i + (Line(z) + Sub(f, i, Rest(z)));
      { Assoc(s[..7] + i, Line(z), Sub(f, i, Rest(z))); }
      s[..7] + i + Line(z) + Sub(f, i, Rest(z));
      { CommuteMatchRight(f, g, i, j, s, a); }
      Sub(f, i, Sub(g, j, s));
    }
  }

  lemma Assoc(x: string, y: string, z: string)
    ensures x + y + z == x + (y + z)
  {
  }

  /** After an `f` match is rewritten, the `g` scan passes group 1 and the new index. */
  lemma PassMatchedIndex(f: Field, g: Field, i: string, j: string, s: string, a: nat, rest: string)
    requires f != g && IndexChars(i) && Head(f, s) == Some(a)
    requires rest != [] && rest[0] == ' '
    ensures Sub(g, j, s[..7] + i + rest) == s[..7] + i + Sub(g, j, rest)
  {
    HeadShape(f, s);
    KeyChars(f);
    assert (s[..7] + i + rest)[0] == s[0];
    SkipPrefix(g, j, s[..7], i, rest);
  }

  /** Scanning for `g` first leaves the `f` match in place, with the text after ` - ` rescanned for `g`. */
  lemma CommuteMatchRight(f: Field, g: Field, i: string, j: string, s: string, a: nat)
    requires f != g && Head(f, s) == Some(a)
    ensures var z := Sub(g, j, s[a..]);
      Sub(f, i, Sub(g, j, s)) == s[..7] + i + Line(z) + Sub(f, i, Rest(z))
  {
    var z := Sub(g, j, s[a..]);
    GScanPassesOldIndex(f, g, j, s, a);
    GScanKeepsHead(f, g, j, s, a);
    SubAtRebuiltHead(f, i, s, a, z);
  }

  /** After the `g` scan the `f` match still starts the text, at the same place. */
  lemma GScanKeepsHead(f: Field, g: Field, j: string, s: string, a: nat)
    requires f != g && Head(f, s) == Some(a)
    ensures Head(f, s[..7] + s[7..a] + Sub(g, j, s[a..])) == Some(a)
  {
    var z := Sub(g, j, s[a..]);
    SubKeepsPrefix(g, j, s[a..], 3);
    assert s[..7] + s[7..a] == s[..a];
    AgreeGlue(s, a, z, 3);
    HeadStableSome(f, s, s[..a] + z, a);
  }

  /** Unfolding the `f` match at the head of the rebuilt text. */
  lemma SubAtRebuiltHead(f: Field, i: string, s: string, a: nat, z: string)
    requires 7 <= a <= |s| && Head(f, s[..7] + s[7..a] + z) == Some(a)
    ensures Sub(f, i, s[..7] + s[7..a] + z) == s[..7] + i + Line(z) + Sub(f, i, Rest(z))
  {
    var t := s[..7] + s[7..a] + z;
    SubAtHead(f, i, t, a);
    assert t[..7] == s[..7] && t[a..] == z;
  }

  /** The `g` scan passes group 1 and the old index of an `f` match. */
  lemma GScanPassesOldIndex(f: Field, g: Field, j: string, s: string, a: nat)
    requires f != g && Head(f, s) == Some(a)
    ensures Sub(g, j, s) == s[..7] + s[7..a] + Sub(g, j, s[a..])
  {
    HeadPieces(f, g, s, a);
    assert s == s[..7] + s[7..a] + s[a..];
    SkipPrefix(g, j, s[..7], s[7..a], s[a..]);
  }

  /** The pieces of an `f` match: no `g` key at its start, group 1 without a ':' after the key, an index, then ` - `. */
  lemma HeadPieces(f: Field, g: Field, s: string, a: nat)
    requires f != g && Head(f, s) == Some(a)
    ensures !KeyAt(g, s, 0) && (forall k :: 5 < k < 7 ==> s[..7][k] != ':')
    ensures IndexChars(s[7..a]) && s[a..] != [] && s[a..][0] == ' '
  {
    HeadShape(f, s);
    KeyChars(f);
    assert forall k :: 0 <= k < a - 7 ==> s[7..a][k] == s[7 + k];
  }

  /**
    The rest `r` of a line the `f` scan has already rewritten, followed by the
    text `w` after the line: scanning for `g` over `r` and the `f`-rewritten `w`
    is scanning for `g` over `r + w` and then for `f` after the line.
  */
  lemma {:induction false} Mix(f: Field, g: Field, i: string, j: string, r: string, w: string)
    requires f != g && IndexChars(i) && IndexChars(j)
    requires NoNewline(r) && NewlineLed(w)
    ensures var z := Sub(g, j, r + w);
      Sub(g, j, r + Sub(f, i, w)) == Line(z) + Sub(f, i, Rest(z))
    decreases |w|, |r| + 1, 2
  {
    var q := FirstKey(g, r);
    var wf := Sub(f, i, w);
    var z := Sub(g, j, r + w);
    SubNewlineLed(f, i, w);
    if q == |r| {
      calc {
        Sub(g, j, r + wf);
        { CopyLine(g, j, r, wf); }
        r + Sub(g, j, wf);
        { Commute(f, g, i, j, w); }
        r + Sub(f, i, Sub(g, j, w));
        { CopyLine(g, j, r, w); SubNewlineLed(g, j, w); LineSplit(r, Sub(g, j, w)); }
        Line(z) + Sub(f, i, Rest(z));
      }
    } else {
      var r' := r[q..];
      var z' := Sub(g, j, r' + w);
      calc {
        Sub(g, j, r + wf);
        { CopyLinePrefix(g, j, r, wf, q); }
        r[..q] + Sub(g, j, r' + wf);
        { MixKey(f, g, i, j, r', w); }
        r[..q] + (Line(z') + Sub(f, i, Rest(z')));
        { Assoc(r[..q], Line(z'), Sub(f, i, Rest(z'))); }
        r[..q] + Line(z') + Sub(f, i, Rest(z'));
        { CopyLinePrefix(g, j, r, w, q); LineOfConcat(r[..q], z'); }
        Line(z) + Sub(f, i, Rest(z));
      }
    }
  }

  /** Up to the first key in a line, the scan copies the line. */
  lemma CopyLinePrefix(g: Field, j: string, r: string, y: string, q: nat)
    requires NoNewline(r) && NewlineLed(y) && q <= |r|
    requires forall h :: 0 <= h < q ==> !KeyAt(g, r, h)
    ensures Sub(g, j, r + y) == r[..q] + Sub(g, j, r[q..] + y)
  {
    NoKeyAcrossNewline(g, r, y, q);
    SubCopy(g, j, r + y, q);
    assert (r + y)[..q] == r[..q] && (r + y)[q..] == r[q..] + y;
  }

  /** A line without a key is copied whole. */
  lemma CopyLine(g: Field, j: string, r: string, y: string)
    requires NoNewline(r) && NewlineLed(y)
    requires forall h :: 0 <= h < |r| ==> !KeyAt(g, r, h)
    ensures Sub(g, j, r + y) == r + Sub(g, j, y)
  {
    CopyLinePrefix(g, j, r, y, |r|);
    assert r[..|r|] == r && r[|r|..] + y == y;
  }

  /** A newline-free text followed by a newline-led one is split at the join. */
  lemma LineSplit(x: string, y: string)
    requires NoNewline(x) && NewlineLed(y)
    ensures Line(x + y) == x && Rest(x + y) == y
  {
    LineOfConcat(x, y);
    LineOfNewlineLed(y);
  }

  /** `Mix` when the rest of the line starts with the key of `g`. */
  lemma {:induction false} MixKey(f: Field, g: Field, i: string, j: string, r: string, w: string)
    requires f != g && IndexChars(i) && IndexChars(j)
    requires NoNewline(r) && NewlineLed(w) && KeyAt(g, r, 0)
    ensures var z := Sub(g, j, r + w);
      Sub(g, j, r + Sub(f, i, w)) == Line(z) + Sub(f, i, Rest(z))
    decreases |w|, |r| + 1, 1
  {
    if Head(g, r + w).None? {
      MixKeyNoMatch(f, g, i, j, r, w);
    } else if |r| >= 7 {
      MixKeyInLine(f, g, i, j, r, w);
    } else {
      MixKeyStraddle(f, g, i, j, r, w);
    }
  }

  /** The key of `g` starts the rest of the line but no `g` match does. */
  lemma {:induction false} MixKeyNoMatch(f: Field, g: Field, i: string, j: string, r: string, w: string)
    requires f != g && IndexChars(i) && IndexChars(j)
    requires NoNewline(r) && NewlineLed(w) && KeyAt(g, r, 0)
    requires Head(g, r + w) == None
    ensures var z := Sub(g, j, r + w);
      Sub(g, j, r + Sub(f, i, w)) == Line(z) + Sub(f, i, Rest(z))
    decreases |w|, |r| + 1, 0
  {
    var wf := Sub(f, i, w);
    var z := Sub(g, j, r + w);
    var z1 := Sub(g, j, r[1..] + w);
    calc {
      Sub(g, j, r + wf);
      { NoMatchAfterSub(f, g, i, r, w); SkipFirst(g, j, r, wf); }
      [r[0]] + Sub(g, j, r[1..] + wf);
      { Mix(f, g, i, j, r[1..], w); }
      [r[0]] + (Line(z1) + Sub(f, i, Rest(z1)));
      { Assoc([r[0]], Line(z1), Sub(f, i, Rest(z1))); }
      [r[0]] + Line(z1) + Sub(f, i, Rest(z1));
      { SkipFirst(g, j, r, w); LineOfConcat([r[0]], z1); }
      Line(z) + Sub(f, i, Rest(z));
    }
  }

  /** When no match starts the line, its first character is copied. */
  lemma SkipFirst(g: Field, j: string, r: string, y: string)
    requires r != [] && Head(g, r + y) == None
    ensures Sub(g, j, r + y) == [r[0]] + Sub(g, j, r[1..] + y)
  {
    SubNoHead(g, j, r + y);
    assert (r + y)[1..] == r[1..] + y;
  }

  /** Rewriting the next line for `f` cannot complete a `g` match that fails on the current one. */
  lemma NoMatchAfterSub(f: Field, g: Field, i: string, r: string, w: string)
    requires NoNewline(r) && NewlineLed(w) && KeyAt(g, r, 0)
    requires Head(g, r + w) == None
    ensures Head(g, r + Sub(f, i, w)) == None
  {
    var s := r + w;
    var wf := Sub(f, i, w);
    var q := FirstKey(f, w);
    if q == |w| {
      SubWithoutKey(f, i, w);
    } else {
      KeyChars(f);
      var m := if q + 7 < |w| then q + 7 else |w|;
      SubKeepsPrefix(f, i, w, m);
      var t := r + wf;
      assert Agree(s, t, |r| + m);
      assert q > 0;
      if |r| >= 7 {
        assert s[|r|] == '\n';
        HeadStableStop(g, s, t, |r| + m, |r|);
      } else {
        assert s[|r| + q + 5] == w[q + 5] == ':';
        HeadStableStop(g, s, t, |r| + m, |r| + q + 5);
      }
    }
  }

  /** A `g` match lying wholly inside the rest of the line. */
  lemma {:induction false} MixKeyInLine(f: Field, g: Field, i: string, j: string, r: string, w: string)
    requires f != g && IndexChars(i) && IndexChars(j)
    requires NoNewline(r) && NewlineLed(w) && KeyAt(g, r, 0)
    requires Head(g, r + w).Some? && |r| >= 7
    ensures var z := Sub(g, j, r + w);
      Sub(g, j, r + Sub(f, i, w)) == Line(z) + Sub(f, i, Rest(z))
    decreases |w|, |r| + 1, 0
  {
    InLineLeft(f, g, i, j, r, w);
    Commute(f, g, i, j, w);
    InLineRight(f, g, i, j, r, w);
  }

  /** Scanning for `g` over a line holding a whole `g` match, followed by `f`-rewritten text. */
  lemma InLineLeft(f: Field, g: Field, i: string, j: string, r: string, w: string)
    requires NoNewline(r) && NewlineLed(w) && Head(g, r + w).Some? && |r| >= 7
    ensures var a := Head(g, r + w).value;
      a + 3 <= |r| && Sub(g, j, r + Sub(f, i, w)) == r[..7] + j + r[a..] + Sub(g, j, Sub(f, i, w))
  {
    var a := Head(g, r + w).value;
    var wf := Sub(f, i, w);
    SubNewlineLed(f, i, w);
    MatchInLine(g, r, w);
    MatchInLineAnyTail(g, r, w, wf);
    InLineMatch(g, j, r, wf, a);
  }

  /** The same line followed by the `g`-then-`f` rewrite of the text after it. */
  lemma InLineRight(f: Field, g: Field, i: string, j: string, r: string, w: string)
    requires IndexChars(j) && NoNewline(r) && NewlineLed(w) && Head(g, r + w).Some? && |r| >= 7
    ensures var a := Head(g, r + w).value; var z := Sub(g, j, r + w);
      a + 3 <= |r| && r[..7] + j + r[a..] + Sub(f, i, Sub(g, j, w)) == Line(z) + Sub(f, i, Rest(z))
  {
    var a := Head(g, r + w).value;
    MatchInLine(g, r, w);
    var line := r[..7] + j + r[a..];
    InLineMatch(g, j, r, w, a);
    LineOfMatch(r, j, a);
    SubNewlineLed(g, j, w);
    LineSplit(line, Sub(g, j, w));
  }

  /** A line rewritten by a match still has no newline. */
  lemma LineOfMatch(r: string, j: string, a: nat)
    requires NoNewline(r) && IndexChars(j) && 7 <= a <= |r|
    ensures NoNewline(r[..7] + j + r[a..])
  {
    IndexCharsNoNewline(j);
    var x := r[..7] + j + r[a..];
    forall k | 0 <= k < |x| ensures x[k] != '\n' {
      if k < 7 {
        assert x[k] == r[k];
      } else if k >= 7 + |j| {
        assert x[k] == r[a + k - 7 - |j|];
      } else {
        assert x[k] == j[k - 7];
      }
    }
  }

  /** A `g` match starting a line of at least seven characters ends its ` - ` within that line. */
  lemma MatchInLine(g: Field, r: string, w: string)
    requires NoNewline(r) && NewlineLed(w) && Head(g, r + w).Some? && |r| >= 7
    ensures Head(g, r + w).value + 3 <= |r|
  {
    var s := r + w;
    var a := Head(g, s).value;
    HeadShape(g, s);
    if w != [] {
      assert s[|r|] == '\n';
    }
  }

  /** Such a match does not depend on what follows the line. */
  lemma MatchInLineAnyTail(g: Field, r: string, w: string, y: string)
    requires Head(g, r + w).Some? && Head(g, r + w).value + 3 <= |r|
    ensures Head(g, r + y) == Head(g, r + w)
  {
    var a := Head(g, r + w).value;
    assert Agree(r + w, r + y, a + 3);
    HeadStableSome(g, r + w, r + y, a);
  }

  /** A match inside a newline-free `r` rewrites the index and keeps the rest of `r`. */
  lemma InLineMatch(g: Field, j: string, r: string, y: string, a: nat)
    requires NoNewline(r) && NewlineLed(y)
    requires Head(g, r + y) == Some(a) && a + 3 <= |r|
    ensures Sub(g, j, r + y) == r[..7] + j + r[a..] + Sub(g, j, y)
  {
    SubAtHead(g, j, r + y, a);
    assert (r + y)[a..] == r[a..] + y;
    LineSplit(r[a..], y);
    assert (r + y)[..7] == r[..7];
  }

  /**
    The rest of the line is exactly the key of `g`, and the `g` match takes the
    newline as its whitespace: it runs into the next line, which the `f` scan
    would otherwise have matched.
  */
  lemma {:induction false} MixKeyStraddle(f: Field, g: Field, i: string, j: string, r: string, w: string)
    requires f != g && IndexChars(i) && IndexChars(j)
    requires NoNewline(r) && NewlineLed(w) && KeyAt(g, r, 0)
    requires Head(g, r + w).Some? && |r| < 7
    ensures var z := Sub(g, j, r + w);
      Sub(g, j, r + Sub(f, i, w)) == Line(z) + Sub(f, i, Rest(z))
    decreases |w|, |r| + 1, 0
  {
    var s := r + w;
    var a := Head(g, s).value;
    var z := Sub(g, j, s);
    MatchLine(g, s, a);
    LineRest(s[a..]);
    var r2, w2 := Line(s[a..]), Rest(s[a..]);
    StraddleShape(g, r, w);
    assert |w2| < |w|;
    StraddleLeft(f, g, i, r, w);
    StraddleUnfold(f, g, i, j, s, a);
    Mix(g, f, j, i, r2, w2);
    StraddleRight(f, g, i, j, r, w);
  }

  /** The `g` match found again after the `f` scan, unfolded. */
  lemma StraddleUnfold(f: Field, g: Field, i: string, j: string, s: string, a: nat)
    requires Head(g, s) == Some(a)
    ensures var y := Sub(f, i, s[a..]);
      Sub(g, j, s[..a] + y) == s[..7] + j + (Line(y) + Sub(g, j, Rest(y)))
  {
    var y := Sub(f, i, s[a..]);
    var t := s[..a] + y;
    StraddleRematch(f, g, i, s, a);
    SubAtHead(g, j, t, a);
    assert t[..7] == s[..7] && t[a..] == y;
    Assoc(s[..7] + j, Line(y), Sub(g, j, Rest(y)));
  }

  /** A `g` match starting on a line that is just the key: the whitespace is the newline. */
  lemma StraddleShape(g: Field, r: string, w: string)
    requires NoNewline(r) && NewlineLed(w) && KeyAt(g, r, 0) && Head(g, r + w).Some? && |r| < 7
    ensures |r| == 6 && w != [] && w[0] == '\n'
    ensures (r + w)[..7] == r + ['\n']
    ensures w == ['\n'] + (r + w)[7..Head(g, r + w).value] + (r + w)[Head(g, r + w).value..]
  {
    var s := r + w;
    var a := Head(g, s).value;
    assert |r| == 6 && |s| >= 10;
    assert s[6] == w[0];
    StraddleSplit(s, w, a);
  }

  lemma StraddleSplit(s: string, w: string, a: nat)
    requires |w| + 6 == |s| && 7 <= a <= |s| && w == s[6..] && w[0] == '\n'
    ensures w == ['\n'] + s[7..a] + s[a..]
  {
    assert w == [w[0]] + w[1..];
    assert w[1..] == s[7..];
    assert s[7..] == s[7..a] + s[a..];
  }

  /** Left of the straddle: the `f` scan passes the newline and the old index, then rescans after ` - `. */
  lemma StraddleLeft(f: Field, g: Field, i: string, r: string, w: string)
    requires NoNewline(r) && NewlineLed(w) && KeyAt(g, r, 0) && Head(g, r + w).Some? && |r| < 7
    ensures var s := r + w; var a := Head(g, s).value;
      r + Sub(f, i, w) == s[..a] + Sub(f, i, s[a..])
  {
    var s := r + w;
    var a := Head(g, s).value;
    var v := s[7..a];
    StraddleShape(g, r, w);
    StraddleOldIndex(g, s, a);
    KeyChars(f);
    calc {
      r + Sub(f, i, w);
      r + Sub(f, i, ['\n'] + v + s[a..]);
      { SkipPrefix(f, i, ['\n'], v, s[a..]); }
      r + (['\n'] + v + Sub(f, i, s[a..]));
      { Assoc4(r, ['\n'], v, Sub(f, i, s[a..])); }
      (r + ['\n']) + v + Sub(f, i, s[a..]);
      { assert s[..7] + v == s[..a]; }
      s[..a] + Sub(f, i, s[a..]);
    }
  }

  /** The old index of a match and the separator after it. */
  lemma StraddleOldIndex(g: Field, s: string, a: nat)
    requires Head(g, s) == Some(a)
    ensures IndexChars(s[7..a]) && s[a..] != [] && s[a..][0] == ' '
  {
    HeadShape(g, s);
    var v := s[7..a];
    assert forall k :: 0 <= k < |v| ==> v[k] == s[7 + k];
  }

  /** After the `f` scan rewrites what follows ` - `, the `g` match is still there. */
  lemma StraddleRematch(f: Field, g: Field, i: string, s: string, a: nat)
    requires Head(g, s) == Some(a)
    ensures Head(g, s[..a] + Sub(f, i, s[a..])) == Some(a)
  {
    var y := Sub(f, i, s[a..]);
    SubKeepsPrefix(f, i, s[a..], 3);
    assert Agree(s, s[..a] + y, a + 3);
    HeadStableSome(g, s, s[..a] + y, a);
  }

  /** Right of the straddle: the key line, then the new `g` index line, rescanned for `f` after ` - `. */
  lemma StraddleRight(f: Field, g: Field, i: string, j: string, r: string, w: string)
    requires IndexChars(j) && NoNewline(r) && NewlineLed(w) && KeyAt(g, r, 0) && Head(g, r + w).Some? && |r| < 7
    ensures var s := r + w; var a := Head(g, s).value; var z := Sub(g, j, s);
      var r2, w2 := Line(s[a..]), Rest(s[a..]);
      s[..7] + j + Sub(f, i, r2 + Sub(g, j, w2)) == Line(z) + Sub(f, i, Rest(z))
  {
    var s := r + w;
    var a := Head(g, s).value;
    var z := Sub(g, j, s);
    var r2, w2 := Line(s[a..]), Rest(s[a..]);
    var x := r2 + Sub(g, j, w2);
    var after := ['\n'] + j + x;
    MatchLine(g, s, a);
    StraddleShape(g, r, w);
    KeyChars(f);
    calc {
      s[..7] + j + Sub(f, i, x);
      (r + ['\n']) + j + Sub(f, i, x);
      { Assoc4(r, ['\n'], j, Sub(f, i, x)); }
      r + (['\n'] + j + Sub(f, i, x));
      { SkipPrefix(f, i, ['\n'], j, x); }
      r + Sub(f, i, after);
      { StraddleSub(g, j, r, w); LineSplit(r, after); }
      Line(z) + Sub(f, i, Rest(z));
    }
  }

  /** The `g` scan over the straddling match: the key line, then the new index line. */
  lemma StraddleSub(g: Field, j: string, r: string, w: string)
    requires NoNewline(r) && NewlineLed(w) && KeyAt(g, r, 0) && Head(g, r + w).Some? && |r| < 7
    ensures var s := r + w; var a := Head(g, s).value;
      var r2, w2 := Line(s[a..]), Rest(s[a..]);
      Sub(g, j, s) == r + (['\n'] + j + (r2 + Sub(g, j, w2)))
  {
    var s := r + w;
    var a := Head(g, s).value;
    var r2, w2 := Line(s[a..]), Rest(s[a..]);
    StraddleShape(g, r, w);
    calc {
      Sub(g, j, s);
      { SubAtHead(g, j, s, a); }
      s[..7] + j + r2 + Sub(g, j, w2);
      (r + ['\n']) + j + r2 + Sub(g, j, w2);
      { Assoc(r + ['\n'] + j, r2, Sub(g, j, w2)); }
      (r + ['\n']) + j + (r2 + Sub(g, j, w2));
      { Assoc4(r, ['\n'], j, r2 + Sub(g, j, w2)); }
      r + (['\n'] + j + (r2 + Sub(g, j, w2)));
    }
  }

  lemma Assoc4(x: string, y: string, u: string, v: string)
    ensures (x + y) + u + v == x + (y + u + v)
  {
  }

  // ---------------------------------------------------------------------------
  // The whole rewrite
  // ---------------------------------------------------------------------------

  /** Substituting the title before the alias, as the script does, gives what the other order gives. */
  lemma RewriteOrderIrrelevant(idx: string, text: string)
    requires IndexChars(idx)
    ensures Rewrite(idx, text) == Sub(Title, idx, Sub(Alias, idx, text))
  {
    Commute(Title, Alias, idx, idx, text);
  }

  /**
    Running the script a second time over its own output changes nothing, when
    the index of the file starts with digits (the only indices group 1 of the
    substitution patterns can match again).
  */
  lemma RewriteIdempotent(idx: string, text: string)
    requires IsVersion(idx)
    ensures Rewrite(idx, Rewrite(idx, text)) == Rewrite(idx, text)
  {
    VersionChars(idx);
    var t := Sub(Title, idx, text);
    var u := Sub(Alias, idx, t);
    calc {
      Rewrite(idx, u);
      Sub(Alias, idx, Sub(Title, idx, Sub(Alias, idx, t)));
      { Commute(Title, Alias, idx, idx, t); }
      Sub(Alias, idx, Sub(Alias, idx, Sub(Title, idx, t)));
      { SubIdempotent(Title, idx, text); }
      Sub(Alias, idx, Sub(Alias, idx, t));
      { SubIdempotent(Alias, idx, t); }
      u;
    }
  }

  /**
    An index that starts with a letter (the file name pattern allows capitals in
    group 1) is written where the substitution expects digits: the rewritten line
    is not matched again from its start, and a second `title:` further along the
    line, which the first run swallowed into group 2, is matched by the second run.
  */
  lemma LetterIndexNotIdempotent()
    ensures var idx := "A1.B";
      var text := "title: " + "1.2" + " - " + "title: " + "3.4" + " - x";
      Rewrite(idx, Rewrite(idx, text)) != Rewrite(idx, text)
  {
    var idx := "A1.B";
    var p, sep, v2, tail := "title: ", " - ", "3.4", " - x";
    var text := p + "1.2" + sep + p + v2 + tail;
    var r := sep + p + v2 + tail;
    var t1 := p + idx + r;
    // first run: the whole line is one match
    LetterIndexPieces();
    NoNewlineConcat(sep, p);
    NoNewlineConcat(sep + p, v2);
    NoNewlineConcat(sep + p + v2, tail);
    assert text == p + "1.2" + r + [];
    SubOfLine(Title, idx, p, "1.2", r, []);
    assert Sub(Title, idx, text) == t1;
    NoAConcat(p, idx);
    NoAConcat(sep, p);
    NoAConcat(sep + p, v2);
    NoAConcat(sep + p + v2, tail);
    NoAConcat(p + idx, r);
    NoAliasKey(t1);
    SubWithoutKey(Alias, idx, t1);
    // second run: copies up to the second key and matches there
    var t2 := Sub(Title, idx, t1);
    LetterIndexSecondRun(idx, p, sep, v2, tail);
    assert |t2| == |p| + |idx| + |sep| + |p| + |idx| + |tail|;
    NoAliasAfterSecondRun(idx, p, sep, tail, t2);
    NoAliasKey(t2);
    SubWithoutKey(Alias, idx, t2);
  }

  /** Facts about the literal pieces of the counterexample. */
  lemma LetterIndexPieces()
    ensures NoNewline(" - ") && NoNewline("title: ") && NoNewline("3.4") && NoNewline(" - x")
    ensures KeyBlank(Title, "title: ") && IsVersion("1.2") && IsVersion("3.4")
    ensures IndexChars("A1.B") && !IsDigit("A1.B"[0])
    ensures NoA("title: ") && NoA("A1.B") && NoA(" - ") && NoA("3.4") && NoA(" - x")
  {
    assert Run(Digits, "1.2") == 1 by {
      assert "1.2"[1..] == ".2";
    }
    assert Run(Digits, "3.4") == 1 by {
      assert "3.4"[1..] == ".4";
    }
  }

  predicate NoA(s: string) {
    forall k :: 0 <= k < |s| ==> s[k] != 'a'
  }

  lemma NoAConcat(x: string, y: string)
    requires NoA(x) && NoA(y)
    ensures NoA(x + y)
  {
    forall k | 0 <= k < |x + y| ensures (x + y)[k] != 'a' {
      if k >= |x| { assert (x + y)[k] == y[k - |x|]; }
    }
  }

  lemma NoNewlineConcat(x: string, y: string)
    requires NoNewline(x) && NoNewline(y)
    ensures NoNewline(x + y)
  {
    forall k | 0 <= k < |x + y| ensures In(NotNewline, (x + y)[k]) {
      if k >= |x| { assert (x + y)[k] == y[k - |x|]; }
    }
  }

  /** Without an 'a' there is no `alias:` key. */
  lemma NoAliasKey(s: string)
    requires NoA(s)
    ensures forall j :: 0 <= j < |s| ==> !KeyAt(Alias, s, j)
  {
  }

  /**
    The second run over `title: <idx> - title: 3.4<tail>`: the first key fails on
    the letter, the text is copied up to the second key, which is matched.
  */
  lemma LetterIndexSecondRun(idx: string, p: string, sep: string, v2: string, tail: string)
    requires idx == "A1.B" && p == "title: " && sep == " - " && v2 == "3.4" && tail == " - x"
    ensures Sub(Title, idx, p + idx + (sep + p + v2 + tail)) == p + idx + sep + (p + idx + tail)
  {
    LetterIndexPieces();
    var rest := sep + p + v2 + tail;
    var t1 := p + idx + rest;
    assert Head(Title, t1) == None by {
      assert t1[7] == idx[0];
      assert DigitEnd(t1) == 7;
    }
    calc {
      Sub(Title, idx, t1);
      { SubNoHead(Title, idx, t1); }
      [t1[0]] + Sub(Title, idx, t1[1..]);
      { assert t1[1..] == p[1..] + idx + rest; KeyChars(Title); SkipPrefix(Title, idx, p[1..], idx, rest); }
      [t1[0]] + (p[1..] + idx + Sub(Title, idx, rest));
      { SecondKeyMatched(idx, p, sep, v2, tail); }
      [t1[0]] + (p[1..] + idx + (sep + (p + idx + tail)));
      { Regroup([t1[0]], p[1..], idx, sep, p + idx + tail); }
      ([t1[0]] + p[1..]) + idx + sep + (p + idx + tail);
      { assert [t1[0]] + p[1..] == p; }
      p + idx + sep + (p + idx + tail);
    }
  }

  /** The separator is copied and the second key starts a match. */
  lemma SecondKeyMatched(idx: string, p: string, sep: string, v2: string, tail: string)
    requires idx == "A1.B" && p == "title: " && sep == " - " && v2 == "3.4" && tail == " - x"
    ensures Sub(Title, idx, sep + p + v2 + tail) == sep + (p + idx + tail)
  {
    LetterIndexPieces();
    var rest := sep + p + v2 + tail;
    SubCopy(Title, idx, rest, 3);
    assert rest[..3] == sep;
    assert rest[3..] == p + v2 + tail + [];
    SubOfLine(Title, idx, p, v2, tail, []);
  }

  lemma Regroup(c: string, q: string, i: string, x: string, y: string)
    ensures c + (q + i + (x + y)) == (c + q) + i + x + y
  {
  }

  lemma NoAliasAfterSecondRun(idx: string, p: string, sep: string, tail: string, t2: string)
    requires NoA(idx) && NoA(p) && NoA(sep) && NoA(tail)
    requires t2 == p + idx + sep + (p + idx + tail)
    ensures NoA(t2)
  {
    NoAConcat(p, idx);
    NoAConcat(p + idx, sep);
    NoAConcat(p + idx, tail);
    NoAConcat(p + idx + sep, p + idx + tail);
  }
}
