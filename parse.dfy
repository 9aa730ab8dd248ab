/**
  The parts of the Markdown parsing stage (quartz/processors/parse.ts) that
  are plain computation: cutting the file list into chunks for the worker
  threads, choosing the number of threads, preparing a file's text, and the
  loop that parses file after file and leaves out those that fail.

  Reading files, the Markdown processors and the worker pool are parameters:
  a file's processing is a function that either gives a result or fails.
*/
module Parse {
  import opened Wrappers
  import opened Strings

  function Flatten<T>(cs: seq<seq<T>>): seq<T> {
    if cs == [] then [] else Flatten(cs[..|cs| - 1]) + cs[|cs| - 1]
  }

  lemma {:induction false} FlattenConcat<T>(a: seq<seq<T>>, b: seq<seq<T>>)
    ensures Flatten(a + b) == Flatten(a) + Flatten(b)
    decreases |b|
  {
    if b == [] {
      assert a + b == a;
    } else {
      var n := |b| - 1;
      assert (a + b)[..|a + b| - 1] == a + b[..n];
      FlattenConcat(a, b[..n]);
    }
  }

  // ---------------------------------------------------------------------------
  // chunks
  // ---------------------------------------------------------------------------

  /** Every chunk holds one to `n` elements, and all hold `n` except a last one when `lastShort`. */
  ghost predicate ChunkSizes<T>(cs: seq<seq<T>>, n: nat, lastShort: bool) {
    && (forall k :: 0 <= k < |cs| ==> 0 < |cs[k]| <= n)
    && (forall k :: 0 <= k < |cs| ==> |cs[k]| == n || (k == |cs| - 1 && lastShort))
  }

  /**
    What the loop of `chunks` has produced once its index is `i`: `i` is a
    multiple of `n`, the chunks so far hold the elements before `i`, and only
    a last chunk that reaches the end can be short.
  */
  ghost predicate ChunkedUpTo<T>(arr: seq<T>, n: nat, cs: seq<seq<T>>, i: int) {
    && n > 0
    && i == n * |cs|
    && (|cs| > 0 ==> n * (|cs| - 1) < |arr|)
    && Flatten(cs) == arr[..if i <= |arr| then i else |arr|]
    && ChunkSizes(cs, n, i > |arr|)
  }

  /** One more chunk of `n` moves the index on by `n`. */
  lemma MulStep(n: nat, c: nat, i: int, len: int)
    requires i == n * c && i < len
    ensures i + n == n * (c + 1) && n * ((c + 1) - 1) < len
  {
  }

  /** The slice from `i` to `end` appended to the chunks before `i`. */
  lemma FlattenStep<T>(arr: seq<T>, cs: seq<seq<T>>, i: int, end: int)
    requires 0 <= i <= end <= |arr| && Flatten(cs) == arr[..i]
    ensures Flatten(cs + [arr[i..end]]) == arr[..end]
  {
    var chunk := arr[i..end];
    FlattenConcat(cs, [chunk]);
    assert Flatten([chunk]) == chunk by { assert [chunk][..0] == []; }
    assert arr[..i] + arr[i..end] == arr[..end];
  }

  /** A full chunk keeps all chunks full; a short one may only come last. */
  lemma SizesStep<T>(cs: seq<seq<T>>, n: nat, chunk: seq<T>, short: bool)
    requires ChunkSizes(cs, n, false)
    requires 0 < |chunk| <= n && (short || |chunk| == n)
    ensures ChunkSizes(cs + [chunk], n, short)
  {
    var next := cs + [chunk];
    assert forall k :: 0 <= k < |cs| ==> next[k] == cs[k];
  }

  /** One turn of the loop: the slice from `i` keeps the invariant. */
  lemma ChunkStep<T>(arr: seq<T>, n: nat, cs: seq<seq<T>>, i: int)
    requires ChunkedUpTo(arr, n, cs, i) && i < |arr|
    ensures ChunkedUpTo(arr, n, cs + [arr[i..if i + n < |arr| then i + n else |arr|]], i + n)
  {
    var end := if i + n < |arr| then i + n else |arr|;
    var stop := if i + n <= |arr| then i + n else |arr|;
    MulStep(n, |cs|, i, |arr|);
    FlattenStep(arr, cs, i, end);
    assert stop == end;
    SizesStep(cs, n, arr[i..end], i + n > |arr|);
  }

  /**
    `chunks(arr, n)`: slices of `n` elements from the front, the last one
    shorter when `n` does not divide the length; `slice` stops at the end.
    There are as many chunks as `|arr| / n` rounded up.
  */
  method Chunks<T>(arr: seq<T>, n: nat) returns (cs: seq<seq<T>>)
    requires n > 0
    ensures Flatten(cs) == arr
    ensures n * (|cs| - 1) < |arr| <= n * |cs|
    ensures forall k :: 0 <= k < |cs| ==> 0 < |cs[k]| <= n
    ensures forall k :: 0 <= k < |cs| - 1 ==> |cs[k]| == n
  {
    cs := [];
    var i := 0;
    while i < |arr|
      invariant ChunkedUpTo(arr, n, cs, i)
      decreases |arr| - i
    {
      ChunkStep(arr, n, cs, i);
      cs := cs + [arr[i..if i + n < |arr| then i + n else |arr|]];
      i := i + n;
    }
    assert arr[..|arr|] == arr;
  }

  // ---------------------------------------------------------------------------
  // clamp and the default number of threads
  // ---------------------------------------------------------------------------

  /** `Math.round`: the nearest integer, halves rounded up. */
  function Round(x: real): int {
    (x + 0.5).Floor
  }

  /** `clamp(num, min, max)`: `num` rounded, then raised to `min`, then lowered to `max`. */
  function Clamp(num: real, min: int, max: int): (r: int)
    ensures min <= max ==> min <= r <= max
    ensures min <= Round(num) <= max ==> r == Round(num)
  {
    var raised := if Round(num) > min then Round(num) else min;
    if raised < max then raised else max
  }

  /** A larger number never gets a smaller clamp. */
  lemma ClampMonotonic(a: real, b: real, min: int, max: int)
    requires a <= b
    ensures Clamp(a, min, max) <= Clamp(b, min, max)
  {
    assert Round(a) <= Round(b);
  }

  const ChunkSize: nat := 128

  /** `argv.concurrency ?? clamp(fps.length / CHUNK_SIZE, 1, 4)`. */
  function Concurrency(argvConcurrency: Option<int>, files: nat): (n: int)
    ensures argvConcurrency.Some? ==> n == argvConcurrency.value
    ensures argvConcurrency.None? ==> 1 <= n <= 4
  {
    if argvConcurrency.Some? then argvConcurrency.value
    else Clamp(files as real / ChunkSize as real, 1, 4)
  }

  /** `files / 128` rounded is `(files + 64) / 128` in integers. */
  lemma RoundFiles(files: nat)
    ensures Round(files as real / 128.0) == (files + 64) / 128
  {
    var q := (files + 64) / 128;
    assert 128 * q <= files + 64 < 128 * (q + 1);
    assert files as real / 128.0 + 0.5 == (files + 64) as real / 128.0;
    assert q as real <= (files + 64) as real / 128.0 < (q + 1) as real;
  }

  /** Without `--concurrency`: one thread below 192 files, four from 448 on, else `files / 128` rounded. */
  lemma DefaultConcurrency(files: nat)
    ensures 1 <= Concurrency(None, files) <= 4
    ensures files < 192 ==> Concurrency(None, files) == 1
    ensures files >= 448 ==> Concurrency(None, files) == 4
    ensures 192 <= files < 448 ==> Concurrency(None, files) == (files + 64) / 128
  {
    RoundFiles(files);
  }

  /** A given `--concurrency` is used as it is, even 0. */
  lemma GivenConcurrency(c: int, files: nat)
    ensures Concurrency(Some(c), files) == c
  {
  }

  // ---------------------------------------------------------------------------
  // createFileParser
  // ---------------------------------------------------------------------------

  /** The text after trimming and the text transforms in order; a plugin without one is passed over. */
  function Transformed(text: string, plugins: seq<Option<string -> string>>): string {
    if plugins == [] then text
    else
      var t := Transformed(text, plugins[..|plugins| - 1]);
      var last := plugins[|plugins| - 1];
      if last.Some? then last.value(t) else t
  }

  /** `file.value = file.value.toString().trim()`, then each plugin's `textTransform` in turn. */
  method PrepareText(raw: string, plugins: seq<Option<string -> string>>) returns (text: string)
    ensures text == Transformed(Trim(raw), plugins)
  {
    text := Trim(raw);
    for k := 0 to |plugins|
      invariant text == Transformed(Trim(raw), plugins[..k])
    {
      assert plugins[..k + 1][..k] == plugins[..k];
      if plugins[k].Some? {
        text := plugins[k].value(text);
      }
    }
    assert plugins[..|plugins|] == plugins;
  }

  /** Plugins without a text transform leave the trimmed text as it is. */
  lemma {:induction false} NoTransforms(text: string, plugins: seq<Option<string -> string>>)
    requires forall k :: 0 <= k < |plugins| ==> plugins[k].None?
    ensures Transformed(text, plugins) == text
  {
    if plugins != [] {
      NoTransforms(text, plugins[..|plugins| - 1]);
    }
  }

  /** The results of the files whose processing succeeds, in the order of the files. */
  function Survivors<R>(fps: seq<string>, process: string -> Option<R>): (res: seq<R>)
    ensures |res| <= |fps|
  {
    if fps == [] then []
    else
      var last := process(fps[|fps| - 1]);
      Survivors(fps[..|fps| - 1], process) + (if last.Some? then [last.value] else [])
  }

  /**
    The loop of `createFileParser`: each file is processed inside `try`; a
    result is pushed, a failure is traced and the loop goes on.
  */
  method ParseFiles<R>(fps: seq<string>, process: string -> Option<R>) returns (res: seq<R>)
    ensures res == Survivors(fps, process)
  {
    res := [];
    for k := 0 to |fps|
      invariant res == Survivors(fps[..k], process)
    {
      assert fps[..k + 1][..k] == fps[..k];
      var result := process(fps[k]);
      if result.Some? {
        res := res + [result.value];
      }
    }
    assert fps[..|fps|] == fps;
  }

  /** A failing file takes nothing away from the files after it: the list splits at any point. */
  lemma {:induction false} SurvivorsConcat<R>(a: seq<string>, b: seq<string>, process: string -> Option<R>)
    ensures Survivors(a + b, process) == Survivors(a, process) + Survivors(b, process)
    decreases |b|
  {
    if b == [] {
      assert a + b == a;
    } else {
      var n := |b| - 1;
      assert (a + b)[..|a + b| - 1] == a + b[..n];
      SurvivorsConcat(a, b[..n], process);
    }
  }

  /** When every file succeeds, there is one result per file, in order. */
  lemma {:induction false} AllSurvive<R>(fps: seq<string>, process: string -> Option<R>)
    requires forall k :: 0 <= k < |fps| ==> process(fps[k]).Some?
    ensures |Survivors(fps, process)| == |fps|
    ensures forall k :: 0 <= k < |fps| ==> Survivors(fps, process)[k] == process(fps[k]).value
  {
    if fps != [] {
      var n := |fps| - 1;
      AllSurvive(fps[..n], process);
    }
  }

  /** A file that fails contributes nothing: dropping it does not change the results. */
  lemma FailureDropped<R>(a: seq<string>, fp: string, b: seq<string>, process: string -> Option<R>)
    requires process(fp).None?
    ensures Survivors(a + [fp] + b, process) == Survivors(a + b, process)
  {
    SurvivorsConcat(a + [fp], b, process);
    SurvivorsConcat(a, [fp], process);
    SurvivorsConcat(a, b, process);
    assert [fp][..0] == [];
  }

  /** Parsing chunk by chunk and joining the results gives the results of parsing all files in one go. */
  lemma {:induction false} ChunkedSurvivors<R>(cs: seq<seq<string>>, process: string -> Option<R>)
    ensures Survivors(Flatten(cs), process) == Flatten(seq(|cs|, i requires 0 <= i < |cs| => Survivors(cs[i], process)))
  {
    if cs != [] {
      var n := |cs| - 1;
      ChunkedSurvivors(cs[..n], process);
      SurvivorsConcat(Flatten(cs[..n]), cs[n], process);
      var whole := seq(|cs|, i requires 0 <= i < |cs| => Survivors(cs[i], process));
      var front := seq(n, i requires 0 <= i < n => Survivors(cs[..n][i], process));
      assert whole[..n] == front;
    }
  }
}
