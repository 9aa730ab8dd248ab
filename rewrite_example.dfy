/**
  The worked example of the script: `content/01-A-intro.md` holding a `title:`
  and an `alias:` line with the stale index `3.9`, and a value that is not an
  index, which is left alone.
*/
module RewriteExample {
  import opened Wrappers
  import opened IndexRewrite
  import opened IndexName
  import opened RewriteOrder

  /** `01-A-intro.md` is a candidate and its normalised index is `01.A`. */
  lemma IntroName()
    ensures NormalizedIndex("01-A-intro.md") == Some("01.A")
  {
    NameExample("01-A-intro.md", "01", "A", "intro.md", "01.A");
  }

  lemma NameExample(name: string, x: string, y: string, t: string, v: string)
    requires |x| == 2 && IsDigit(x[0]) && IsDigit(x[1])
    requires |y| == 1 && 'A' <= y[0] <= 'Z'
    requires |t| >= 3 && t[|t| - 3..] == ".md" && NoNewline(t[..|t| - 3])
    requires name == x + "-" + y + "-" + t && v == x + "." + y
    ensures MatchIndex(name) == Some(x + "-" + y)
    ensures NormalizedIndex(name) == Some(v)
  {
    MatchIndexComplete(x, y, t);
    var g := x + "-" + y;
    RunIs(UpperDigits, g, 2);
    DottedRawIndex(g);
    assert g[..2] == x && g[3..] == y;
  }

  /** Names without the `<index>-<index>-<rest>.md` shape are not candidates. */
  lemma NotCandidates()
    ensures MatchIndex("intro.md") == None
    ensures MatchIndex("01-A.md") == None
    ensures MatchIndex("01-A-intro.txt") == None
  {
    NoUpperStart("intro.md");
    NoSecondHyphen("01-A.md");
    NoMdTail("01-A-intro.txt");
  }

  lemma NoUpperStart(name: string)
    requires name == "intro.md"
    ensures MatchIndex(name) == None
  {
    assert name[0] == 'i';
  }

  lemma NoSecondHyphen(name: string)
    requires name == "01-A.md"
    ensures MatchIndex(name) == None
  {
    RunIs(UpperDigits, name, 2);
    var u := name[3..];
    assert u[0] == 'A' && u[1] == '.';
    RunIs(Alnums, u, 1);
  }

  lemma NoMdTail(name: string)
    requires name == "01-A-intro.txt"
    ensures MatchIndex(name) == None
  {
    RunIs(UpperDigits, name, 2);
    var u := name[3..];
    assert u[0] == 'A' && u[1] == '-';
    RunIs(Alnums, u, 1);
    var t := name[5..];
    assert |t| == 9 && t[8] == 't';
  }

  predicate NoColon(s: string) {
    forall k :: 0 <= k < |s| ==> s[k] != ':'
  }

  lemma NoColonConcat(x: string, y: string)
    requires NoColon(x) && NoColon(y)
    ensures NoColon(x + y)
  {
    forall k | 0 <= k < |x + y| ensures (x + y)[k] != ':' {
      if k >= |x| { assert (x + y)[k] == y[k - |x|]; }
    }
  }

  lemma IndexNoColon(v: string)
    requires IndexChars(v)
    ensures NoColon(v)
  {
  }

  /** Every key ends in ':', so a text without one holds no key. */
  lemma NoColonNoKey(f: Field, s: string)
    requires NoColon(s)
    ensures forall j :: 0 <= j < |s| ==> !KeyAt(f, s, j)
  {
  }

  /**
    A `title:` whose value does not start with a digit is not matched at its
    own key: the line's key is kept and the value is substituted on its own
    (which leaves it alone unless it holds a `title:` of its own).
  */
  lemma NotAVersionKept(idx: string, x: string)
    requires x != [] && !IsDigit(x[0])
    ensures Sub(Title, idx, "title: " + x) == "title: " + Sub(Title, idx, x)
  {
    var s := "title: " + x;
    var y := " " + x;
    assert Head(Title, s) == None by {
      assert s[7] == x[0];
      assert DigitEnd(s) == 7;
    }
    assert s[1..] == "itle:" + "" + y;
    KeyChars(Title);
    SkipPrefix(Title, idx, "itle:", "", y);
    assert Head(Title, y) == None by {
      assert !KeyAt(Title, y, 0);
    }
    SubNoHead(Title, idx, y);
    assert y[1..] == x;
    SubNoHead(Title, idx, s);
    assert [s[0]] + "itle:" + [' '] == "title: ";
  }

  /** A colon-free value that does not start with a digit is kept exactly, e.g. `title: not-a-version - Text`. */
  lemma NotAVersionUnchanged(idx: string, x: string)
    requires x != [] && !IsDigit(x[0]) && NoColon(x)
    ensures Sub(Title, idx, "title: " + x) == "title: " + x
  {
    NotAVersionKept(idx, x);
    NoColonNoKey(Title, x);
    SubWithoutKey(Title, idx, x);
  }

  lemma NotAVersionExample()
    ensures Sub(Title, "01.A", "title: " + "not-a-version - Text") == "title: " + "not-a-version - Text"
  {
    NotAVersionUnchanged("01.A", "not-a-version - Text");
  }

  /**
    The example file body: both stale indices are replaced by `01.A`, and
    everything else is kept.
  */
  lemma IntroBody()
    ensures Rewrite("01.A", "title: " + "3.9" + " - Introduction" + "\n" + "alias: " + "3.9" + " - Introduction" + "\n")
         == "title: " + "01.A" + " - Introduction" + "\n" + "alias: " + "01.A" + " - Introduction" + "\n"
  {
    var v, r := "3.9", " - Introduction";
    assert IsVersion(v) by {
      RunIs(Digits, v, 1);
    }
    assert IndexChars("01.A");
    assert NoNewline(r) && NoColon(r);
    TwoLines("01.A", v, r);
  }

  /**
    A front matter holding a `title:` line and an `alias:` line whose values
    have the index shape: both indices are replaced and nothing else changes.
  */
  lemma TwoLines(idx: string, v: string, r: string)
    requires IndexChars(idx) && IsVersion(v)
    requires SepAt(r, 0) && NoNewline(r) && NoColon(r)
    ensures Rewrite(idx, "title: " + v + r + "\n" + "alias: " + v + r + "\n")
         == "title: " + idx + r + "\n" + "alias: " + idx + r + "\n"
  {
    var w := "\n" + "alias: " + v + r + "\n";
    var w' := "\n" + "alias: " + idx + r + "\n";
    calc {
      Rewrite(idx, "title: " + v + r + "\n" + "alias: " + v + r + "\n");
      { assert "title: " + v + r + "\n" + "alias: " + v + r + "\n" == "title: " + v + r + w; }
      Sub(Alias, idx, Sub(Title, idx, "title: " + v + r + w));
      { TitleLine(idx, v, r, w); }
      Sub(Alias, idx, "title: " + idx + r + w);
      { AliasSkipsTitle(idx, r, w); }
      "title: " + idx + r + Sub(Alias, idx, w);
      { AliasLine(idx, v, r); }
      "title: " + idx + r + w';
      "title: " + idx + r + "\n" + "alias: " + idx + r + "\n";
    }
  }

  /** The title substitution rewrites the first line and passes the alias line. */
  lemma TitleLine(idx: string, v: string, r: string, w: string)
    requires IsVersion(v) && SepAt(r, 0) && NoNewline(r) && NoColon(r)
    requires w == "\n" + "alias: " + v + r + "\n"
    ensures Sub(Title, idx, "title: " + v + r + w) == "title: " + idx + r + w
  {
    assert KeyBlank(Title, "title: ");
    SubOfLine(Title, idx, "title: ", v, r, w);
    TitlePassesAlias(idx, v, r, w);
  }

  lemma TitlePassesAlias(idx: string, v: string, r: string, w: string)
    requires IsVersion(v) && SepAt(r, 0) && NoColon(r)
    requires w == "\n" + "alias: " + v + r + "\n"
    ensures Sub(Title, idx, w) == w
  {
    var x := " " + v + r + "\n";
    assert w[1..] == "alias:" + x;
    assert Head(Title, w) == None;
    VersionChars(v);
    IndexNoColon(v);
    NoColonConcat(" ", v);
    NoColonConcat(" " + v, r);
    NoColonConcat(" " + v + r, "\n");
    NoColonNoKey(Title, x);
    SubWithoutKey(Title, idx, x);
    KeyChars(Title);
    assert "alias:" + x == "alias:" + "" + x;
    SkipPrefix(Title, idx, "alias:", "", x);
    SubNoHead(Title, idx, w);
  }

  /** The alias substitution copies the rewritten title line. */
  lemma AliasSkipsTitle(idx: string, r: string, w: string)
    requires IndexChars(idx) && NoNewline(r) && NoColon(r) && NewlineLed(w) && SepAt(r, 0)
    ensures Sub(Alias, idx, "title: " + idx + r + w) == "title: " + idx + r + Sub(Alias, idx, w)
  {
    var line := " " + idx + r;
    TitleLineFacts(idx, r);
    KeyChars(Alias);
    calc {
      Sub(Alias, idx, "title: " + idx + r + w);
      { assert "title:" + " " == "title: "; Regroup("title:", " ", idx, r, w); }
      Sub(Alias, idx, "title:" + "" + (line + w));
      { SkipPrefix(Alias, idx, "title:", "", line + w); }
      "title:" + "" + Sub(Alias, idx, line + w);
      { NoColonNoKey(Alias, line); CopyLine(Alias, idx, line, w); }
      "title:" + "" + (line + Sub(Alias, idx, w));
      { assert "title:" + " " == "title: "; Regroup("title:", " ", idx, r, Sub(Alias, idx, w)); }
      "title: " + idx + r + Sub(Alias, idx, w);
    }
  }

  lemma Regroup(p: string, c: string, i: string, r: string, w: string)
    ensures p + c + i + r + w == p + "" + (c + i + r + w)
  {
  }

  lemma TitleLineFacts(idx: string, r: string)
    requires IndexChars(idx) && NoNewline(r) && NoColon(r)
    ensures NoColon(" " + idx + r) && NoNewline(" " + idx + r)
  {
    var line := " " + idx + r;
    IndexNoColon(idx);
    NoColonConcat(" ", idx);
    NoColonConcat(" " + idx, r);
    forall k | 0 <= k < |line| ensures line[k] != '\n' {
      if k > |idx| { assert line[k] == r[k - 1 - |idx|]; }
    }
  }

  /** The alias substitution rewrites the alias line. */
  lemma AliasLine(idx: string, v: string, r: string)
    requires IsVersion(v) && SepAt(r, 0) && NoNewline(r)
    ensures Sub(Alias, idx, "\n" + "alias: " + v + r + "\n") == "\n" + "alias: " + idx + r + "\n"
  {
    var w := "\n" + "alias: " + v + r + "\n";
    assert Head(Alias, w) == None;
    SubNoHead(Alias, idx, w);
    assert w[1..] == "alias: " + v + r + "\n";
    assert KeyBlank(Alias, "alias: ");
    SubOfLine(Alias, idx, "alias: ", v, r, "\n");
    assert Head(Alias, "\n") == None;
    SubNoHead(Alias, idx, "\n");
  }
}
