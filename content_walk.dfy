/**
  `rename_title_and_alias` in script.py: the walk over the content tree and the
  in-place rewrite of every candidate file.

  The file system is a map from paths to file text. The walk is given as the
  sequence of levels `Path.walk` yields, in its order; a level with any
  subdirectory is skipped whole. Opening, reading or writing a file may raise
  an `IOError`: the paths for which it does are a parameter, and a path the
  walk lists but the map does not hold raises it too. Such a file keeps its
  text, its path is reported, and the walk goes on.
*/
module ContentWalk {
  import opened Wrappers
  import opened IndexRewrite
  import opened IndexName
  import opened RewriteOrder

  /** `pathlib.Path(root, file)`, kept as its two parts. */
  datatype Path = Path(root: string, name: string)

  /** One triple `(root, dirnames, filenames)` of the walk. */
  datatype Level = Level(root: string, dirs: seq<string>, files: seq<string>)

  /** A candidate file and the normalised index its name gives. */
  datatype Target = Target(path: Path, index: string)

  // ---------------------------------------------------------------------------
  // Reading a file in text mode
  // ---------------------------------------------------------------------------

  /**
    Universal-newline decoding, which `open(..., "r+")` applies on read: "\r\n"
    and a lone "\r" both become "\n".
  */
  function Newlines(raw: string): (t: string)
    ensures '\r' !in t
    ensures |t| <= |raw|
  {
    if raw == [] then []
    else if raw[0] == '\r' then
      if |raw| >= 2 && raw[1] == '\n' then "\n" + Newlines(raw[2..]) else "\n" + Newlines(raw[1..])
    else [raw[0]] + Newlines(raw[1..])
  }

  /** Text without carriage returns is read back exactly as stored. */
  lemma {:induction false} NewlinesKeep(raw: string)
    requires '\r' !in raw
    ensures Newlines(raw) == raw
  {
    if raw != [] {
      assert '\r' !in raw[1..] by {
        assert forall k :: 0 <= k < |raw[1..]| ==> raw[1..][k] == raw[k + 1];
      }
      NewlinesKeep(raw[1..]);
    }
  }

  /** A stored "\r\n" is read as "\n": a rewritten file loses its carriage returns. */
  lemma NewlinesCrlf()
    ensures Newlines("a\r\n") == "a\n"
  {
    assert "a\r\n"[1..] == "\r\n";
    assert "\r\n"[2..] == [];
  }

  // ---------------------------------------------------------------------------
  // What the walk visits
  // ---------------------------------------------------------------------------

  /** The candidates of one level's file names, in order: the names `INDEX_REG` accepts. */
  function LevelTargets(root: string, files: seq<string>): (ts: seq<Target>)
    ensures |ts| <= |files|
  {
    if files == [] then []
    else
      var rest := LevelTargets(root, files[..|files| - 1]);
      var name := files[|files| - 1];
      match NormalizedIndex(name)
      case None => rest
      case Some(v) => rest + [Target(Path(root, name), v)]
  }

  /** The candidates of the whole walk, level by level; levels with subdirectories give none. */
  function Targets(walk: seq<Level>): seq<Target> {
    if walk == [] then []
    else
      var lv := walk[|walk| - 1];
      Targets(walk[..|walk| - 1]) + (if |lv.dirs| != 0 then [] else LevelTargets(lv.root, lv.files))
  }

  /** A candidate of a level is exactly a recognised file name of that level. */
  lemma {:induction false} LevelTargetsIff(root: string, files: seq<string>, t: Target)
    ensures t in LevelTargets(root, files) <==>
      t.path.root == root && t.path.name in files && NormalizedIndex(t.path.name) == Some(t.index)
  {
    if files != [] {
      var init := files[..|files| - 1];
      LevelTargetsIff(root, init, t);
      assert files == init + [files[|files| - 1]];
    }
  }

  /**
    Gating: a candidate of the walk is exactly a recognised file name listed by
    a level that has no subdirectory, with the index its name gives.
  */
  lemma {:induction false} TargetsIff(walk: seq<Level>, t: Target)
    ensures t in Targets(walk) <==>
      exists i :: 0 <= i < |walk| && |walk[i].dirs| == 0 && t.path.root == walk[i].root
        && t.path.name in walk[i].files && NormalizedIndex(t.path.name) == Some(t.index)
  {
    if t in Targets(walk) {
      TargetsSound(walk, t);
    }
    if (exists i :: 0 <= i < |walk| && |walk[i].dirs| == 0 && t.path.root == walk[i].root
          && t.path.name in walk[i].files && NormalizedIndex(t.path.name) == Some(t.index)) {
      var i :| 0 <= i < |walk| && |walk[i].dirs| == 0 && t.path.root == walk[i].root
        && t.path.name in walk[i].files && NormalizedIndex(t.path.name) == Some(t.index);
      TargetsComplete(walk, t, i);
    }
  }

  lemma {:induction false} TargetsSound(walk: seq<Level>, t: Target)
    requires t in Targets(walk)
    ensures exists i ::
      0 <= i < |walk| && |walk[i].dirs| == 0 && t.path.root == walk[i].root
      && t.path.name in walk[i].files && NormalizedIndex(t.path.name) == Some(t.index)
  {
    var n := |walk| - 1;
    var init := walk[..n];
    if t in Targets(init) {
      TargetsSound(init, t);
      var i :| 0 <= i < |init| && |init[i].dirs| == 0 && t.path.root == init[i].root
        && t.path.name in init[i].files && NormalizedIndex(t.path.name) == Some(t.index);
      assert walk[i] == init[i];
    } else {
      assert |walk[n].dirs| == 0 && t in LevelTargets(walk[n].root, walk[n].files);
      LevelTargetsIff(walk[n].root, walk[n].files, t);
    }
  }

  lemma {:induction false} TargetsComplete(walk: seq<Level>, t: Target, i: nat)
    requires i < |walk| && |walk[i].dirs| == 0 && t.path.root == walk[i].root
    requires t.path.name in walk[i].files && NormalizedIndex(t.path.name) == Some(t.index)
    ensures t in Targets(walk)
  {
    var n := |walk| - 1;
    var init := walk[..n];
    var last := if |walk[n].dirs| != 0 then [] else LevelTargets(walk[n].root, walk[n].files);
    assert Targets(walk) == Targets(init) + last;
    if i < n {
      assert init[i] == walk[i];
      TargetsComplete(init, t, i);
    } else {
      LevelTargetsIff(walk[n].root, walk[n].files, t);
      assert t in last;
    }
  }

  // ---------------------------------------------------------------------------
  // What the walk does
  // ---------------------------------------------------------------------------

  /** Whether processing `t` raises `IOError`. */
  predicate Fails(t: Target, fs: map<Path, string>, failing: set<Path>) {
    t.path !in fs || t.path in failing
  }

  /** The effect of one candidate on the file system. */
  function Step(fs: map<Path, string>, t: Target, failing: set<Path>): (r: map<Path, string>)
    ensures r.Keys == fs.Keys
    ensures forall p :: p in fs && p != t.path ==> r[p] == fs[p]
    ensures Fails(t, fs, failing) ==> r == fs
    ensures !Fails(t, fs, failing) ==> r[t.path] == Rewrite(t.index, Newlines(fs[t.path]))
  {
    if Fails(t, fs, failing) then fs
    else fs[t.path := Rewrite(t.index, Newlines(fs[t.path]))]
  }

  /** The file system after processing the candidates `ts` in order. */
  function ApplyAll(ts: seq<Target>, fs: map<Path, string>, failing: set<Path>): map<Path, string> {
    if ts == [] then fs
    else Step(ApplyAll(ts[..|ts| - 1], fs, failing), ts[|ts| - 1], failing)
  }

  /** The paths reported as failing, in order. */
  function Errors(ts: seq<Target>, fs: map<Path, string>, failing: set<Path>): seq<Path> {
    if ts == [] then []
    else
      var t := ts[|ts| - 1];
      Errors(ts[..|ts| - 1], fs, failing) + (if Fails(t, fs, failing) then [t.path] else [])
  }

  /** No file is created or deleted. */
  lemma {:induction false} ApplyAllKeys(ts: seq<Target>, fs: map<Path, string>, failing: set<Path>)
    ensures ApplyAll(ts, fs, failing).Keys == fs.Keys
  {
    if ts != [] {
      ApplyAllKeys(ts[..|ts| - 1], fs, failing);
    }
  }

  /** A path that is not a candidate, or whose processing fails, keeps its text. */
  lemma {:induction false} ApplyAllUntouched(ts: seq<Target>, fs: map<Path, string>, failing: set<Path>, p: Path)
    requires p in fs
    requires p in failing || forall k :: 0 <= k < |ts| ==> ts[k].path != p
    ensures p in ApplyAll(ts, fs, failing) && ApplyAll(ts, fs, failing)[p] == fs[p]
  {
    if ts != [] {
      ApplyAllUntouched(ts[..|ts| - 1], fs, failing, p);
    }
  }

  /** Paths never repeat in a real walk: every file is listed once. */
  predicate DistinctPaths(ts: seq<Target>) {
    forall i, j :: 0 <= i < j < |ts| ==> ts[i].path != ts[j].path
  }

  /** A candidate whose processing succeeds ends up holding its rewritten text. */
  lemma {:induction false} ApplyAllRewrites(ts: seq<Target>, fs: map<Path, string>, failing: set<Path>, k: nat)
    requires DistinctPaths(ts) && k < |ts|
    requires ts[k].path in fs && ts[k].path !in failing
    ensures var r := ApplyAll(ts, fs, failing);
      ts[k].path in r && r[ts[k].path] == Rewrite(ts[k].index, Newlines(fs[ts[k].path]))
  {
    ApplyAllKeys(ts, fs, failing);
    var n := |ts| - 1;
    var init := ts[..n];
    ApplyAllKeys(init, fs, failing);
    if k == n {
      ApplyAllUntouched(init, fs, failing, ts[k].path);
    } else {
      ApplyAllRewrites(init, fs, failing, k);
    }
  }

  /** The reported paths are the candidates that fail, with no others. */
  lemma {:induction false} ErrorsIff(ts: seq<Target>, fs: map<Path, string>, failing: set<Path>, p: Path)
    ensures p in Errors(ts, fs, failing) <==>
      exists k :: 0 <= k < |ts| && ts[k].path == p && (p !in fs || p in failing)
  {
    if ts != [] {
      var n := |ts| - 1;
      ErrorsIff(ts[..n], fs, failing, p);
      if p in Errors(ts[..n], fs, failing) {
        var k :| 0 <= k < n && ts[..n][k].path == p && (p !in fs || p in failing);
        assert ts[k].path == p;
      }
      if exists k :: 0 <= k < |ts| && ts[k].path == p && (p !in fs || p in failing) {
        var k :| 0 <= k < |ts| && ts[k].path == p && (p !in fs || p in failing);
        if k < n {
          assert ts[..n][k].path == p;
        }
      }
    }
  }

  /**
    Running the script a second time over the tree it produced changes nothing,
    provided every candidate's index starts with digits (which the file name
    decides: see `DottedRawIndex`).
  */
  lemma RunTwice(ts: seq<Target>, fs: map<Path, string>, failing: set<Path>)
    requires DistinctPaths(ts)
    requires forall k :: 0 <= k < |ts| ==> IsVersion(ts[k].index)
    ensures ApplyAll(ts, ApplyAll(ts, fs, failing), failing) == ApplyAll(ts, fs, failing)
  {
    RunAgain(ts, fs, failing, failing);
  }

  /**
    A second run whose I/O failures may differ from the first: every file the
    first run rewrote, and every file that fails in both runs, keeps the text
    the first run left; no file appears or disappears.
  */
  lemma RunAgain(ts: seq<Target>, fs: map<Path, string>, failing: set<Path>, failing': set<Path>)
    requires DistinctPaths(ts)
    requires forall k :: 0 <= k < |ts| ==> IsVersion(ts[k].index)
    ensures var once := ApplyAll(ts, fs, failing);
      ApplyAll(ts, once, failing').Keys == once.Keys
      && forall p :: p in once && (p !in failing || p in failing') ==> ApplyAll(ts, once, failing')[p] == once[p]
  {
    var once := ApplyAll(ts, fs, failing);
    var twice := ApplyAll(ts, once, failing');
    ApplyAllKeys(ts, fs, failing);
    ApplyAllKeys(ts, once, failing');
    forall p | p in once && (p !in failing || p in failing') ensures twice[p] == once[p] {
      if p !in failing' && exists k :: 0 <= k < |ts| && ts[k].path == p {
        var k :| 0 <= k < |ts| && ts[k].path == p;
        ApplyAllRewrites(ts, fs, failing, k);
        ApplyAllRewrites(ts, once, failing', k);
        RewriteNoCarriageReturn(ts[k].index, Newlines(fs[p]));
        NewlinesKeep(once[p]);
        RewriteIdempotent(ts[k].index, Newlines(fs[p]));
      } else {
        ApplyAllUntouched(ts, once, failing', p);
      }
    }
  }

  /** A rewrite of text without carriage returns adds none (an index has none). */
  lemma RewriteNoCarriageReturn(idx: string, text: string)
    requires IsVersion(idx) && '\r' !in text
    ensures '\r' !in Rewrite(idx, text)
  {
    VersionChars(idx);
    SubNoCarriageReturn(Title, idx, text);
    SubNoCarriageReturn(Alias, idx, Sub(Title, idx, text));
  }

  lemma {:induction false} SubNoCarriageReturn(f: Field, idx: string, s: string)
    requires IndexChars(idx) && '\r' !in s
    ensures '\r' !in Sub(f, idx, s)
    decreases |s|
  {
    if s != [] {
      match Head(f, s)
      case Some(a) =>
        var e := MatchEnd(s, a);
        assert '\r' !in s[e..] && '\r' !in s[..7] && '\r' !in s[a..e];
        SubNoCarriageReturn(f, idx, s[e..]);
        assert '\r' !in idx;
      case None =>
        assert '\r' !in s[1..];
        SubNoCarriageReturn(f, idx, s[1..]);
    }
  }

  // ---------------------------------------------------------------------------
  // The script
  // ---------------------------------------------------------------------------

  /** The content tree the script works on. */
  class ContentTree {
    var contents: map<Path, string>

    constructor(fs: map<Path, string>)
      ensures contents == fs
    {
      contents := fs;
    }

    /**
      The `try` block for one candidate: open, read, substitute, then `seek(0)`,
      `write` and `truncate`. On `IOError` nothing has been written.
    */
    method RewriteFile(path: Path, newIndex: string, failing: set<Path>) returns (ok: bool)
      modifies this
      ensures ok <==> !Fails(Target(path, newIndex), old(contents), failing)
      ensures contents == Step(old(contents), Target(path, newIndex), failing)
    {
      if path !in contents || path in failing {
        return false;
      }
      var fullContent := Newlines(contents[path]);
      var modifiedContent := Rewrite(newIndex, fullContent);
      // write from offset 0 over the old text, then cut it at the end of what was written
      var old_ := contents[path];
      var written := modifiedContent + (if |old_| > |modifiedContent| then old_[|modifiedContent|..] else []);
      contents := contents[path := written];
      contents := contents[path := written[..|modifiedContent|]];
      ok := true;
    }

    /** The inner `for file in files` loop, for a level without subdirectories. */
    method ProcessLevel(root: string, files: seq<string>, failing: set<Path>) returns (errors: seq<Path>)
      modifies this
      ensures contents == ApplyAll(LevelTargets(root, files), old(contents), failing)
      ensures errors == Errors(LevelTargets(root, files), old(contents), failing)
    {
      errors := [];
      ghost var fs := contents;
      var j := 0;
      while j < |files|
        invariant LevelDone(root, files, j, fs, failing, contents, errors)
      {
        var file := files[j];
        var regResult := MatchIndex(file);
        if regResult.None? {
          LevelSkip(root, files, j, fs, failing, contents, errors);
        } else {
          var newIndex := Dotted(regResult.value);
          var path := Path(root, file);
          LevelVisit(root, files, j, fs, failing, contents, errors, Target(path, newIndex));
          var ok := RewriteFile(path, newIndex, failing);
          if !ok {
            errors := errors + [path];
          }
        }
        j := j + 1;
      }
      assert files[..|files|] == files;
    }

    /**
      The walk loop of `rename_title_and_alias`. Returns the paths whose
      `IOError` was printed, in order.
    */
    method RenameTitleAndAlias(walk: seq<Level>, failing: set<Path>) returns (errors: seq<Path>)
      modifies this
      ensures contents == ApplyAll(Targets(walk), old(contents), failing)
      ensures errors == Errors(Targets(walk), old(contents), failing)
    {
      errors := [];
      ghost var fs := contents;
      var i := 0;
      while i < |walk|
        invariant 0 <= i <= |walk|
        invariant contents == ApplyAll(Targets(walk[..i]), fs, failing)
        invariant errors == Errors(Targets(walk[..i]), fs, failing)
      {
        var level := walk[i];
        assert walk[..i + 1][..i] == walk[..i];
        ghost var done := Targets(walk[..i]);
        if |level.dirs| != 0 {
          assert Targets(walk[..i + 1]) == done + [];
          assert done + [] == done;
          i := i + 1;
          continue;
        }
        ghost var here := LevelTargets(level.root, level.files);
        assert Targets(walk[..i + 1]) == done + here;
        ApplyAllConcat(done, here, fs, failing);
        ErrorsConcat(done, here, fs, failing);
        var levelErrors := ProcessLevel(level.root, level.files, failing);
        errors := errors + levelErrors;
        i := i + 1;
      }
      assert walk[..|walk|] == walk;
    }
  }

  /** The state of the inner loop after the first `j` file names of a level. */
  ghost predicate LevelDone(root: string, files: seq<string>, j: nat, fs: map<Path, string>, failing: set<Path>,
                            contents: map<Path, string>, errors: seq<Path>) {
    j <= |files|
    && contents == ApplyAll(LevelTargets(root, files[..j]), fs, failing)
    && errors == Errors(LevelTargets(root, files[..j]), fs, failing)
  }

  /** A file name `INDEX_REG` rejects is skipped. */
  lemma LevelSkip(root: string, files: seq<string>, j: nat, fs: map<Path, string>, failing: set<Path>,
                  contents: map<Path, string>, errors: seq<Path>)
    requires j < |files| && NormalizedIndex(files[j]) == None
    requires LevelDone(root, files, j, fs, failing, contents, errors)
    ensures LevelDone(root, files, j + 1, fs, failing, contents, errors)
  {
    LevelTargetsSnoc(root, files, j);
    assert LevelTargets(root, files[..j]) + [] == LevelTargets(root, files[..j]);
  }

  /** A file name `INDEX_REG` accepts is processed: its step, and its report when it fails. */
  lemma LevelVisit(root: string, files: seq<string>, j: nat, fs: map<Path, string>, failing: set<Path>,
                   contents: map<Path, string>, errors: seq<Path>, t: Target)
    requires j < |files| && t.path == Path(root, files[j]) && NormalizedIndex(files[j]) == Some(t.index)
    requires LevelDone(root, files, j, fs, failing, contents, errors)
    ensures Fails(t, contents, failing) ==> LevelDone(root, files, j + 1, fs, failing, contents, errors + [t.path])
    ensures !Fails(t, contents, failing) ==> LevelDone(root, files, j + 1, fs, failing, Step(contents, t, failing), errors)
  {
    LevelTargetsSnoc(root, files, j);
    Snoc(LevelTargets(root, files[..j]), t, fs, failing);
  }

  lemma LevelTargetsSnoc(root: string, files: seq<string>, j: nat)
    requires j < |files|
    ensures LevelTargets(root, files[..j + 1]) == LevelTargets(root, files[..j]) +
      match NormalizedIndex(files[j])
      case None => []
      case Some(v) => [Target(Path(root, files[j]), v)]
  {
    assert files[..j + 1][..j] == files[..j];
  }

  /** One more candidate: its step, and its report when it fails. */
  lemma Snoc(ts: seq<Target>, t: Target, fs: map<Path, string>, failing: set<Path>)
    ensures ApplyAll(ts + [t], fs, failing) == Step(ApplyAll(ts, fs, failing), t, failing)
    ensures Errors(ts + [t], fs, failing)
         == Errors(ts, fs, failing) + (if Fails(t, ApplyAll(ts, fs, failing), failing) then [t.path] else [])
  {
    assert (ts + [t])[..|ts|] == ts;
    ApplyAllKeys(ts, fs, failing);
  }

  /** Processing two runs of candidates one after the other. */
  lemma {:induction false} ApplyAllConcat(xs: seq<Target>, ys: seq<Target>, fs: map<Path, string>, failing: set<Path>)
    ensures ApplyAll(xs + ys, fs, failing) == ApplyAll(ys, ApplyAll(xs, fs, failing), failing)
    decreases |ys|
  {
    if ys == [] {
      assert xs + ys == xs;
    } else {
      var n := |ys| - 1;
      assert (xs + ys)[..|xs + ys| - 1] == xs + ys[..n];
      ApplyAllConcat(xs, ys[..n], fs, failing);
    }
  }

  /** Which candidates fail depends only on which paths exist. */
  lemma {:induction false} ErrorsConcat(xs: seq<Target>, ys: seq<Target>, fs: map<Path, string>, failing: set<Path>)
    ensures Errors(xs + ys, fs, failing) == Errors(xs, fs, failing) + Errors(ys, ApplyAll(xs, fs, failing), failing)
    decreases |ys|
  {
    ApplyAllKeys(xs, fs, failing);
    if ys == [] {
      assert xs + ys == xs;
    } else {
      var n := |ys| - 1;
      assert (xs + ys)[..|xs + ys| - 1] == xs + ys[..n];
      ErrorsConcat(xs, ys[..n], fs, failing);
    }
  }
}
