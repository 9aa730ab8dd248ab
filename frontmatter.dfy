/**
  Front-matter normalisation (quartz/plugins/transformers/frontmatter.ts): after
  the YAML or TOML block of a note has been parsed into a record, the title is
  defaulted, tags, aliases and CSS classes are coerced to string lists, and
  date-like fields are taken from the first of several synonymous keys.

  Parsed values are JSON values with integer numbers; the parser, `slugTag`,
  the alias slug computation and `joinSegments` are parameters.
*/
module FrontMatter {
  import opened Wrappers
  import opened Strings

  /** A value of the parsed record; a missing key reads as `Undefined`. */
  datatype Value =
    | Undefined
    | Null
    | Bool(b: bool)
    | Num(n: int)
    | Str(s: string)
    | Arr(items: seq<Value>)
    | Obj

  predicate Nullish(v: Value) { v.Undefined? || v.Null? }

  /** JavaScript truthiness, as `if (created)` tests it. */
  predicate Truthy(v: Value) {
    !(v.Undefined? || v.Null? || v == Bool(false) || v == Num(0) || v == Str(""))
  }

  type Record = map<string, Value>

  /** `data[key]`. */
  function Get(data: Record, key: string): (v: Value)
    ensures key !in data ==> v == Undefined
  {
    if key in data then data[key] else Undefined
  }

  /** `value.toString()` / `String(value)`; arrays write their items joined by `,`, with nullish items empty. */
  function ToStr(v: Value): string
    decreases v
  {
    match v
    case Undefined => "undefined"
    case Null => "null"
    case Bool(b) => if b then "true" else "false"
    case Num(n) => IntStr(n)
    case Str(s) => s
    case Obj => "[object Object]"
    case Arr(items) =>
      Join(seq(|items|, i requires 0 <= i < |items| => if Nullish(items[i]) then "" else ToStr(items[i])), ",")
  }

  // ---------------------------------------------------------------------------
  // coalesceAliases
  // ---------------------------------------------------------------------------

  /** The value of the first key whose value is neither undefined nor null, or undefined. */
  function FirstPresent(data: Record, keys: seq<string>): (v: Value)
    ensures Nullish(v) <==> v == Undefined
  {
    if keys == [] then Undefined
    else if !Nullish(Get(data, keys[0])) then Get(data, keys[0])
    else FirstPresent(data, keys[1..])
  }

  /** The result is undefined exactly when every key is nullish, and otherwise the value of one of the keys. */
  lemma {:induction false} FirstPresentSpec(data: Record, keys: seq<string>)
    ensures FirstPresent(data, keys) == Undefined <==> forall i :: 0 <= i < |keys| ==> Nullish(Get(data, keys[i]))
    ensures FirstPresent(data, keys) != Undefined ==>
      exists i :: 0 <= i < |keys| && Get(data, keys[i]) == FirstPresent(data, keys)
  {
    if keys != [] {
      FirstPresentSpec(data, keys[1..]);
      if Nullish(Get(data, keys[0])) {
        if FirstPresent(data, keys) != Undefined {
          var i :| 0 <= i < |keys[1..]| && Get(data, keys[1..][i]) == FirstPresent(data, keys);
          assert keys[i + 1] == keys[1..][i];
        }
        assert forall i :: 1 <= i < |keys| ==> keys[i] == keys[1..][i - 1];
      }
    }
  }

  /** The key `FirstPresent` picks comes first among the keys that are not nullish. */
  lemma {:induction false} FirstPresentIsFirst(data: Record, keys: seq<string>, i: nat)
    requires i < |keys| && !Nullish(Get(data, keys[i]))
    ensures FirstPresent(data, keys) != Undefined
    ensures (forall j :: 0 <= j < i ==> Nullish(Get(data, keys[j]))) ==> FirstPresent(data, keys) == Get(data, keys[i])
  {
    if i > 0 && Nullish(Get(data, keys[0])) {
      FirstPresentIsFirst(data, keys[1..], i - 1);
    }
  }

  /** Updating a key that is not looked at does not change the result. */
  lemma {:induction false} FirstPresentFrame(data: Record, keys: seq<string>, k: string, v: Value)
    requires k !in keys
    ensures FirstPresent(data[k := v], keys) == FirstPresent(data, keys)
  {
    if keys != [] {
      FirstPresentFrame(data, keys[1..], k, v);
    }
  }

  /** `coalesceAliases`: the loop over the keys with an early return. */
  method CoalesceAliases(data: Record, keys: seq<string>) returns (v: Value)
    ensures v == FirstPresent(data, keys)
  {
    for i := 0 to |keys|
      invariant FirstPresent(data, keys) == FirstPresent(data, keys[i..])
    {
      assert keys[i..][1..] == keys[i + 1..];
      var alias := keys[i];
      if !Nullish(Get(data, alias)) {
        return Get(data, alias);
      }
    }
    v := Undefined;
  }

  // ---------------------------------------------------------------------------
  // coerceToArray
  // ---------------------------------------------------------------------------

  /** What the filter and map of `coerceToArray` keep from an array: strings and numbers, as strings. */
  function Kept(items: seq<Value>): (r: seq<string>)
    ensures |r| <= |items|
  {
    if items == [] then []
    else (if items[0].Str? || items[0].Num? then [ToStr(items[0])] else []) + Kept(items[1..])
  }

  /** Keeping distributes over concatenation, so the order of the items is kept. */
  lemma {:induction false} KeptConcat(a: seq<Value>, b: seq<Value>)
    ensures Kept(a + b) == Kept(a) + Kept(b)
  {
    if a == [] {
      assert a + b == b;
    } else {
      assert (a + b)[0] == a[0] && (a + b)[1..] == a[1..] + b;
      KeptConcat(a[1..], b);
      var h := if a[0].Str? || a[0].Num? then [ToStr(a[0])] else [];
      calc {
        Kept(a + b);
        h + Kept(a[1..] + b);
        h + (Kept(a[1..]) + Kept(b));
        (h + Kept(a[1..])) + Kept(b);
        Kept(a) + Kept(b);
      }
    }
  }

  lemma KeptOne(v: Value)
    ensures v.Str? ==> Kept([v]) == [v.s]
    ensures v.Num? ==> Kept([v]) == [IntStr(v.n)]
    ensures !v.Str? && !v.Num? ==> Kept([v]) == []
  {
    assert [v][1..] == [];
  }

  function TrimAll(parts: seq<string>): (r: seq<string>)
    ensures |r| == |parts| && forall k :: 0 <= k < |parts| ==> r[k] == Trim(parts[k])
  {
    if parts == [] then [] else [Trim(parts[0])] + TrimAll(parts[1..])
  }

  /** `coerceToArray`. */
  function CoerceToArray(input: Value): (r: Option<seq<string>>)
    ensures r.None? <==> Nullish(input)
    ensures input.Arr? ==> r == Some(Kept(input.items))
  {
    if Nullish(input) then None
    else if !input.Arr? then Some(TrimAll(Split(ToStr(input), ',')))
    else Some(Kept(input.items))
  }

  /** A scalar gives one trimmed piece per comma-separated part of its string form. */
  lemma CoerceScalar(input: Value)
    requires !Nullish(input) && !input.Arr?
    ensures var r := CoerceToArray(input).value;
      |r| == Count(ToStr(input), ',') + 1
      && forall k :: 0 <= k < |r| ==> r[k] == Trim(Split(ToStr(input), ',')[k]) && ',' !in r[k]
  {
    var parts := Split(ToStr(input), ',');
    SplitParts(ToStr(input), ',');
    forall k | 0 <= k < |parts| ensures ',' !in Trim(parts[k]) {
      TrimInside(parts[k], ',');
    }
  }

  /** Trimming keeps only characters that were there. */
  lemma TrimInside(s: string, c: char)
    requires c !in s
    ensures c !in Trim(s)
  {
    var a := TrimStart(s);
    NotInDrop(s, |s| - |a|, c);
    NotInTake(a, |TrimEnd(a)|, c);
  }

  lemma NotInDrop(s: string, i: nat, c: char)
    requires c !in s && i <= |s|
    ensures c !in s[i..]
  {
  }

  lemma NotInTake(s: string, i: nat, c: char)
    requires c !in s && i <= |s|
    ensures c !in s[..i]
  {
  }

  // ---------------------------------------------------------------------------
  // Tags: a set built from the list keeps the first occurrence of each tag
  // ---------------------------------------------------------------------------

  /** `[...new Set(xs)]`. */
  function Dedup(xs: seq<string>): (r: seq<string>)
    ensures Distinct(r) && |r| <= |xs|
    ensures forall x :: x in r <==> x in xs
  {
    if xs == [] then []
    else
      var d := Dedup(xs[..|xs| - 1]);
      var x := xs[|xs| - 1];
      assert xs == xs[..|xs| - 1] + [x];
      if x in d then d else d + [x]
  }

  /** Position of the first occurrence of `x`. */
  function FirstIndex(xs: seq<string>, x: string): (i: nat)
    requires x in xs
    ensures i < |xs| && xs[i] == x && forall j :: 0 <= j < i ==> xs[j] != x
  {
    if xs[0] == x then 0 else 1 + FirstIndex(xs[1..], x)
  }

  lemma {:induction false} FirstIndexPrefix(xs: seq<string>, m: nat, x: string)
    requires m <= |xs| && x in xs[..m]
    ensures FirstIndex(xs, x) == FirstIndex(xs[..m], x)
  {
    assert forall t :: 0 <= t < m ==> xs[..m][t] == xs[t];
  }

  /** The tags come out in the order of their first occurrences. */
  lemma {:induction false} DedupOrder(xs: seq<string>)
    ensures forall i, j :: 0 <= i < j < |Dedup(xs)| ==> FirstIndex(xs, Dedup(xs)[i]) < FirstIndex(xs, Dedup(xs)[j])
  {
    if xs != [] {
      var n := |xs| - 1;
      var p := xs[..n];
      var d := Dedup(p);
      DedupOrder(p);
      forall y | y in p ensures FirstIndex(xs, y) == FirstIndex(p, y) < n {
        FirstIndexPrefix(xs, n, y);
      }
      if xs[n] !in d {
        FirstIndexLast(xs);
        assert Dedup(xs) == d + [xs[n]];
      }
    }
  }

  /** An element that occurs only at the end first occurs there. */
  lemma FirstIndexLast(xs: seq<string>)
    requires xs != [] && xs[|xs| - 1] !in xs[..|xs| - 1]
    ensures FirstIndex(xs, xs[|xs| - 1]) == |xs| - 1
  {
    var n := |xs| - 1;
    assert forall t :: 0 <= t < n ==> xs[t] == xs[..n][t];
  }

  function MapStr(f: string -> string, xs: seq<string>): (r: seq<string>)
    ensures |r| == |xs| && forall k :: 0 <= k < |xs| ==> r[k] == f(xs[k])
  {
    if xs == [] then [] else [f(xs[0])] + MapStr(f, xs[1..])
  }

  function Strs(xs: seq<string>): (r: seq<Value>)
    ensures |r| == |xs| && forall k :: 0 <= k < |xs| ==> r[k] == Str(xs[k])
  {
    if xs == [] then [] else [Str(xs[0])] + Strs(xs[1..])
  }

  // ---------------------------------------------------------------------------
  // getAliasSlugs
  // ---------------------------------------------------------------------------

  /** The trailing-slash fix: a slug ending in `/` gets `index` joined onto it. */
  function FixSlug(slug: string, joinIndex: string -> string): string {
    if |slug| > 0 && slug[|slug| - 1] == '/' then joinIndex(slug) else slug
  }

  /**
    `getAliasSlugs`: one slug per alias, then the permalink when it is a
    string, each with the trailing-slash fix applied. `aliasSlug` stands for
    joining the note's directory with `slugifyFilePath(alias)`.
  */
  function AliasSlugs(aliases: seq<string>, aliasSlug: string -> string, joinIndex: string -> string,
                      permalink: Value): (r: seq<string>)
    ensures |r| == |aliases| + (if permalink.Str? then 1 else 0)
    ensures forall k :: 0 <= k < |aliases| ==> r[k] == FixSlug(aliasSlug(aliases[k]), joinIndex)
    ensures permalink.Str? ==> r[|aliases|] == FixSlug(permalink.s, joinIndex)
  {
    var slugs := MapStr(aliasSlug, aliases) + (if permalink.Str? then [permalink.s] else []);
    MapStr(s => FixSlug(s, joinIndex), slugs)
  }

  // ---------------------------------------------------------------------------
  // The plugin body
  // ---------------------------------------------------------------------------

  /** The title: the given one when its string form is not empty, else the file stem, else the default. */
  function TitleOf(data: Record, stem: Option<string>, defaultTitle: string): (t: string)
    ensures !Nullish(Get(data, "title")) && ToStr(Get(data, "title")) != "" ==> t == ToStr(Get(data, "title"))
    ensures Nullish(Get(data, "title")) || ToStr(Get(data, "title")) == "" ==> t == stem.GetOr(defaultTitle)
    ensures t == "" <==> stem.GetOr(defaultTitle) == "" && (Nullish(Get(data, "title")) || ToStr(Get(data, "title")) == "")
  {
    var title := Get(data, "title");
    if !Nullish(title) && ToStr(title) != "" then ToStr(title) else stem.GetOr(defaultTitle)
  }

  /** `data.x = v` when `v` is truthy. */
  function SetIfTruthy(data: Record, key: string, v: Value): Record {
    if Truthy(v) then data[key := v] else data
  }

  const TagKeys: seq<string> := ["tags", "tag"]
  const AliasKeys: seq<string> := ["aliases", "alias"]
  const CssKeys: seq<string> := ["cssclasses", "cssclass"]
  const ImageKeys: seq<string> := ["socialImage", "image", "cover"]
  const CreatedKeys: seq<string> := ["created", "date"]
  const ModifiedKeys: seq<string> := ["modified", "lastmod", "updated", "last-modified"]
  const PublishedKeys: seq<string> := ["published", "publishDate", "date"]

  /** The tag list stored for a record: `slugTag` applied to each tag, duplicates dropped. */
  function TagList(tags: seq<string>, slugTag: string -> string): seq<string> {
    Dedup(MapStr(slugTag, tags))
  }

  /** The record after each step of the transformer. */
  function WithTitle(d: Record, stem: Option<string>, defaultTitle: string): Record {
    d["title" := Str(TitleOf(d, stem, defaultTitle))]
  }

  function WithTags(d: Record, slugTag: string -> string): Record {
    var t := CoerceToArray(FirstPresent(d, TagKeys));
    if t.Some? then d["tags" := Arr(Strs(TagList(t.value, slugTag)))] else d
  }

  function WithList(d: Record, keys: seq<string>, target: string): Record {
    var t := CoerceToArray(FirstPresent(d, keys));
    if t.Some? then d[target := Arr(Strs(t.value))] else d
  }

  function WithFirst(d: Record, keys: seq<string>, target: string): Record {
    SetIfTruthy(d, target, FirstPresent(d, keys))
  }

  /** The record the transformer leaves, step by step as the source writes it. */
  function Normalised(data0: Record, stem: Option<string>, defaultTitle: string, slugTag: string -> string): Record {
    var d1 := WithTitle(data0, stem, defaultTitle);
    var d2 := WithTags(d1, slugTag);
    var d3 := WithList(d2, AliasKeys, "aliases");
    var d4 := WithList(d3, CssKeys, "cssclasses");
    var image := FirstPresent(d4, ImageKeys);
    var d5 := WithFirst(d4, CreatedKeys, "created");
    var d6 := WithFirst(d5, ModifiedKeys, "modified");
    var d7 := WithFirst(d6, PublishedKeys, "published");
    SetIfTruthy(d7, "socialImage", image)
  }

  /** The tags, aliases and CSS classes as the transformer reads them. */
  function TagsOf(data0: Record): Option<seq<string>> {
    CoerceToArray(FirstPresent(data0, TagKeys))
  }

  function CssOf(data0: Record): Option<seq<string>> {
    CoerceToArray(FirstPresent(data0, CssKeys))
  }

  function AliasesOf(data0: Record): Option<seq<string>> {
    CoerceToArray(FirstPresent(data0, AliasKeys))
  }

  /** `file.data.aliases`: the alias slugs when there are aliases. */
  function AliasOutput(aliases: Option<seq<string>>, aliasSlug: string -> string, joinIndex: string -> string,
                       permalink: Value): Option<seq<string>> {
    if aliases.Some? then Some(AliasSlugs(aliases.value, aliasSlug, joinIndex, permalink)) else None
  }

  /**
    The transformer body: `data` is updated field by field; the alias slugs
    go to the file and are appended to `allSlugs`. `permalink` is the
    `permalink` of the front matter the file held before this transformer ran.
  */
  method Normalise(data0: Record, stem: Option<string>, defaultTitle: string,
                   slugTag: string -> string, aliasSlug: string -> string, joinIndex: string -> string,
                   permalink: Value, allSlugs0: seq<string>)
    returns (data: Record, fileAliases: Option<seq<string>>, allSlugs: seq<string>)
    ensures data == Normalised(data0, stem, defaultTitle, slugTag)
    ensures fileAliases == AliasOutput(AliasesOf(data0), aliasSlug, joinIndex, permalink)
    ensures allSlugs == allSlugs0 + fileAliases.GetOr([])
  {
    data := SetTitle(data0, stem, defaultTitle);
    data := SetTags(data, slugTag);

    AliasesRead(data0, stem, defaultTitle, slugTag);
    data, fileAliases, allSlugs := SetAliases(data, aliasSlug, joinIndex, permalink, allSlugs0);

    var cssclasses;
    data, cssclasses := SetList(data, CssKeys, "cssclasses");

    var socialImage := CoalesceAliases(data, ImageKeys);
    data := SetFirst(data, CreatedKeys, "created");
    data := SetFirst(data, ModifiedKeys, "modified");
    data := SetFirst(data, PublishedKeys, "published");
    data := SetIfTruthy(data, "socialImage", socialImage);
  }

  /** `data.title = …`: the given title as a string when it is not empty, else the stem, else the default. */
  method SetTitle(d: Record, stem: Option<string>, defaultTitle: string) returns (data: Record)
    ensures data == WithTitle(d, stem, defaultTitle)
  {
    data := d;
    var title := Get(data, "title");
    if !Nullish(title) && ToStr(title) != "" {
      data := data["title" := Str(ToStr(title))];
    } else {
      data := data["title" := Str(stem.GetOr(defaultTitle))];
    }
  }

  /** `data.tags = [...new Set(tags.map(slugTag))]` when there are tags. */
  method SetTags(d: Record, slugTag: string -> string) returns (data: Record)
    ensures data == WithTags(d, slugTag)
  {
    data := d;
    var rawTags := CoalesceAliases(data, TagKeys);
    var tags := CoerceToArray(rawTags);
    if tags.Some? {
      data := data["tags" := Arr(Strs(TagList(tags.value, slugTag)))];
    }
  }

  /** `data.aliases = aliases`, the alias slugs stored on the file and appended to `allSlugs`. */
  method SetAliases(d: Record, aliasSlug: string -> string, joinIndex: string -> string, permalink: Value,
                    allSlugs0: seq<string>)
    returns (data: Record, fileAliases: Option<seq<string>>, allSlugs: seq<string>)
    ensures data == WithList(d, AliasKeys, "aliases")
    ensures fileAliases == AliasOutput(CoerceToArray(FirstPresent(d, AliasKeys)), aliasSlug, joinIndex, permalink)
    ensures allSlugs == allSlugs0 + fileAliases.GetOr([])
  {
    var aliases;
    data, aliases := SetList(d, AliasKeys, "aliases");
    fileAliases := None;
    allSlugs := allSlugs0;
    if aliases.Some? {
      var slugs := AliasSlugs(aliases.value, aliasSlug, joinIndex, permalink);
      fileAliases := Some(slugs);
      allSlugs := allSlugs + slugs;
    }
  }

  /** `data.aliases = aliases` / `data.cssclasses = cssclasses` when the list is there. */
  method SetList(d: Record, keys: seq<string>, target: string) returns (data: Record, list: Option<seq<string>>)
    ensures data == WithList(d, keys, target) && list == CoerceToArray(FirstPresent(d, keys))
  {
    data := d;
    var raw := CoalesceAliases(data, keys);
    list := CoerceToArray(raw);
    if list.Some? {
      data := data[target := Arr(Strs(list.value))];
    }
  }

  /** `if (v) data.x = v` for the first present of `keys`. */
  method SetFirst(d: Record, keys: seq<string>, target: string) returns (data: Record)
    ensures data == WithFirst(d, keys, target)
  {
    data := d;
    var v := CoalesceAliases(data, keys);
    if Truthy(v) {
      data := data[target := v];
    }
  }

  /** The aliases are read past the title and tag steps unchanged. */
  lemma AliasesRead(data0: Record, stem: Option<string>, defaultTitle: string, slugTag: string -> string)
    ensures FirstPresent(WithTags(WithTitle(data0, stem, defaultTitle), slugTag), AliasKeys) == FirstPresent(data0, AliasKeys)
  {
    var d1 := WithTitle(data0, stem, defaultTitle);
    FirstPresentFrame(data0, AliasKeys, "title", d1["title"]);
    FrameList(d1, "tags", TagKeys, AliasKeys);
  }

  /** A list step writing `target` leaves a lookup over keys without `target` unchanged. */
  lemma FrameList(d: Record, target: string, keys: seq<string>, others: seq<string>)
    requires target !in others
    ensures FirstPresent(WithList(d, keys, target), others) == FirstPresent(d, others)
    ensures target == "tags" ==> forall f :: FirstPresent(WithTags(d, f), others) == FirstPresent(d, others)
  {
    var t := CoerceToArray(FirstPresent(d, keys));
    if t.Some? {
      FirstPresentFrame(d, others, target, Arr(Strs(t.value)));
    }
    if target == "tags" {
      forall f: string -> string ensures FirstPresent(WithTags(d, f), others) == FirstPresent(d, others) {
        var u := CoerceToArray(FirstPresent(d, TagKeys));
        if u.Some? {
          FirstPresentFrame(d, others, "tags", Arr(Strs(TagList(u.value, f))));
        }
      }
    }
  }

  /** A conditional step writing `target` leaves a lookup over keys without `target` unchanged. */
  lemma FrameIf(d: Record, target: string, v: Value, others: seq<string>)
    requires target !in others
    ensures FirstPresent(SetIfTruthy(d, target, v), others) == FirstPresent(d, others)
  {
    if Truthy(v) {
      FirstPresentFrame(d, others, target, v);
    }
  }

  // ---------------------------------------------------------------------------
  // What the transformer leaves in each field
  // ---------------------------------------------------------------------------

  /** The fields a step may write. */
  predicate Written(k: string) {
    k == "title" || k == "tags" || k == "aliases" || k == "cssclasses"
    || k == "created" || k == "modified" || k == "published" || k == "socialImage"
  }

  /** Each step writes at most its own field. */
  lemma TitleFrame(d: Record, stem: Option<string>, defaultTitle: string, k: string)
    requires k != "title"
    ensures Get(WithTitle(d, stem, defaultTitle), k) == Get(d, k)
  {
  }

  lemma TagsFrame(d: Record, slugTag: string -> string, k: string)
    requires k != "tags"
    ensures Get(WithTags(d, slugTag), k) == Get(d, k)
  {
  }

  lemma ListFrame(d: Record, keys: seq<string>, target: string, k: string)
    requires k != target
    ensures Get(WithList(d, keys, target), k) == Get(d, k)
  {
  }

  lemma IfFrame(d: Record, target: string, v: Value, k: string)
    requires k != target
    ensures Get(SetIfTruthy(d, target, v), k) == Get(d, k)
  {
  }

  /** Fields the transformer does not write keep their parsed values. */
  lemma OthersKept(data0: Record, stem: Option<string>, defaultTitle: string, slugTag: string -> string, k: string)
    requires !Written(k)
    ensures Get(Normalised(data0, stem, defaultTitle, slugTag), k) == Get(data0, k)
  {
    var d1 := WithTitle(data0, stem, defaultTitle);
    var d2 := WithTags(d1, slugTag);
    var d3 := WithList(d2, AliasKeys, "aliases");
    var d4 := WithList(d3, CssKeys, "cssclasses");
    var d5 := WithFirst(d4, CreatedKeys, "created");
    var d6 := WithFirst(d5, ModifiedKeys, "modified");
    var d7 := WithFirst(d6, PublishedKeys, "published");
    TitleFrame(data0, stem, defaultTitle, k);
    TagsFrame(d1, slugTag, k);
    ListFrame(d2, AliasKeys, "aliases", k);
    ListFrame(d3, CssKeys, "cssclasses", k);
    IfFrame(d4, "created", FirstPresent(d4, CreatedKeys), k);
    IfFrame(d5, "modified", FirstPresent(d5, ModifiedKeys), k);
    IfFrame(d6, "published", FirstPresent(d6, PublishedKeys), k);
    IfFrame(d7, "socialImage", FirstPresent(d4, ImageKeys), k);
  }

  /** The record after the title and the three list steps. */
  function Listed(data0: Record, stem: Option<string>, defaultTitle: string, slugTag: string -> string): Record {
    WithList(WithList(WithTags(WithTitle(data0, stem, defaultTitle), slugTag), AliasKeys, "aliases"), CssKeys, "cssclasses")
  }

  /** The list steps do not disturb a lookup over keys none of them writes. */
  lemma ListedRead(data0: Record, stem: Option<string>, defaultTitle: string, slugTag: string -> string, keys: seq<string>)
    requires "title" !in keys && "tags" !in keys && "aliases" !in keys && "cssclasses" !in keys
    ensures FirstPresent(Listed(data0, stem, defaultTitle, slugTag), keys) == FirstPresent(data0, keys)
  {
    var d1 := WithTitle(data0, stem, defaultTitle);
    var d2 := WithTags(d1, slugTag);
    var d3 := WithList(d2, AliasKeys, "aliases");
    FirstPresentFrame(data0, keys, "title", d1["title"]);
    FrameList(d1, "tags", TagKeys, keys);
    FrameList(d2, "aliases", AliasKeys, keys);
    FrameList(d3, "cssclasses", CssKeys, keys);
  }

  /** The title is the given one as a string when that is not empty, else the stem, else the default. */
  lemma NormalisedTitle(data0: Record, stem: Option<string>, defaultTitle: string, slugTag: string -> string)
    ensures Get(Normalised(data0, stem, defaultTitle, slugTag), "title") == Str(TitleOf(data0, stem, defaultTitle))
  {
    var d1 := WithTitle(data0, stem, defaultTitle);
    var d2 := WithTags(d1, slugTag);
    var d3 := WithList(d2, AliasKeys, "aliases");
    var d4 := WithList(d3, CssKeys, "cssclasses");
    var d5 := WithFirst(d4, CreatedKeys, "created");
    var d6 := WithFirst(d5, ModifiedKeys, "modified");
    var d7 := WithFirst(d6, PublishedKeys, "published");
    TagsFrame(d1, slugTag, "title");
    ListFrame(d2, AliasKeys, "aliases", "title");
    ListFrame(d3, CssKeys, "cssclasses", "title");
    IfFrame(d4, "created", FirstPresent(d4, CreatedKeys), "title");
    IfFrame(d5, "modified", FirstPresent(d5, ModifiedKeys), "title");
    IfFrame(d6, "published", FirstPresent(d6, PublishedKeys), "title");
    IfFrame(d7, "socialImage", FirstPresent(d4, ImageKeys), "title");
  }

  /** The date steps and the social image leave the list fields as the list steps wrote them. */
  lemma DatesFrame(data0: Record, stem: Option<string>, defaultTitle: string, slugTag: string -> string, k: string)
    requires k == "tags" || k == "aliases" || k == "cssclasses"
    ensures Get(Normalised(data0, stem, defaultTitle, slugTag), k) == Get(Listed(data0, stem, defaultTitle, slugTag), k)
  {
    var d4 := Listed(data0, stem, defaultTitle, slugTag);
    var d5 := WithFirst(d4, CreatedKeys, "created");
    var d6 := WithFirst(d5, ModifiedKeys, "modified");
    var d7 := WithFirst(d6, PublishedKeys, "published");
    IfFrame(d4, "created", FirstPresent(d4, CreatedKeys), k);
    IfFrame(d5, "modified", FirstPresent(d5, ModifiedKeys), k);
    IfFrame(d6, "published", FirstPresent(d6, PublishedKeys), k);
    IfFrame(d7, "socialImage", FirstPresent(d4, ImageKeys), k);
  }

  /** Tags from `tags`, else `tag`, coerced to a list, slugged and without duplicates; no tags leave the field alone. */
  lemma NormalisedTags(data0: Record, stem: Option<string>, defaultTitle: string, slugTag: string -> string)
    ensures TagsOf(data0).Some? ==>
      Get(Normalised(data0, stem, defaultTitle, slugTag), "tags") == Arr(Strs(TagList(TagsOf(data0).value, slugTag)))
    ensures TagsOf(data0).None? ==>
      Get(Normalised(data0, stem, defaultTitle, slugTag), "tags") == Get(data0, "tags")
  {
    var d1 := WithTitle(data0, stem, defaultTitle);
    var d2 := WithTags(d1, slugTag);
    var d3 := WithList(d2, AliasKeys, "aliases");
    FirstPresentFrame(data0, TagKeys, "title", d1["title"]);
    ListFrame(d2, AliasKeys, "aliases", "tags");
    ListFrame(d3, CssKeys, "cssclasses", "tags");
    DatesFrame(data0, stem, defaultTitle, slugTag, "tags");
  }

  /** Aliases from `aliases`, else `alias`, coerced to a list; no aliases leave the field alone. */
  lemma NormalisedAliases(data0: Record, stem: Option<string>, defaultTitle: string, slugTag: string -> string)
    ensures AliasesOf(data0).Some? ==>
      Get(Normalised(data0, stem, defaultTitle, slugTag), "aliases") == Arr(Strs(AliasesOf(data0).value))
    ensures AliasesOf(data0).None? ==>
      Get(Normalised(data0, stem, defaultTitle, slugTag), "aliases") == Get(data0, "aliases")
  {
    var d1 := WithTitle(data0, stem, defaultTitle);
    var d2 := WithTags(d1, slugTag);
    var d3 := WithList(d2, AliasKeys, "aliases");
    AliasesRead(data0, stem, defaultTitle, slugTag);
    TitleFrame(data0, stem, defaultTitle, "aliases");
    TagsFrame(d1, slugTag, "aliases");
    ListFrame(d3, CssKeys, "cssclasses", "aliases");
    DatesFrame(data0, stem, defaultTitle, slugTag, "aliases");
  }

  /** CSS classes from `cssclasses`, else `cssclass`, coerced to a list; none leave the field alone. */
  lemma NormalisedCss(data0: Record, stem: Option<string>, defaultTitle: string, slugTag: string -> string)
    ensures CssOf(data0).Some? ==>
      Get(Normalised(data0, stem, defaultTitle, slugTag), "cssclasses") == Arr(Strs(CssOf(data0).value))
    ensures CssOf(data0).None? ==>
      Get(Normalised(data0, stem, defaultTitle, slugTag), "cssclasses") == Get(data0, "cssclasses")
  {
    var d1 := WithTitle(data0, stem, defaultTitle);
    var d2 := WithTags(d1, slugTag);
    var d3 := WithList(d2, AliasKeys, "aliases");
    FirstPresentFrame(data0, CssKeys, "title", d1["title"]);
    FrameList(d1, "tags", TagKeys, CssKeys);
    FrameList(d2, "aliases", AliasKeys, CssKeys);
    TitleFrame(data0, stem, defaultTitle, "cssclasses");
    TagsFrame(d1, slugTag, "cssclasses");
    ListFrame(d2, AliasKeys, "aliases", "cssclasses");
    DatesFrame(data0, stem, defaultTitle, slugTag, "cssclasses");
  }

  /** `created` is the first present of `created`, `date` when that is truthy; otherwise the field is left alone. */
  lemma NormalisedCreated(data0: Record, stem: Option<string>, defaultTitle: string, slugTag: string -> string)
    ensures Truthy(FirstPresent(data0, CreatedKeys)) ==>
      Get(Normalised(data0, stem, defaultTitle, slugTag), "created") == FirstPresent(data0, CreatedKeys)
    ensures !Truthy(FirstPresent(data0, CreatedKeys)) ==>
      Get(Normalised(data0, stem, defaultTitle, slugTag), "created") == Get(data0, "created")
  {
    var d4 := Listed(data0, stem, defaultTitle, slugTag);
    var d5 := WithFirst(d4, CreatedKeys, "created");
    var d6 := WithFirst(d5, ModifiedKeys, "modified");
    var d7 := WithFirst(d6, PublishedKeys, "published");
    assert FirstPresent(d4, CreatedKeys) == FirstPresent(data0, CreatedKeys) by {
      DateKeysApart();
      ListedRead(data0, stem, defaultTitle, slugTag, CreatedKeys);
    }
    assert Get(d4, "created") == Get(data0, "created") by {
      OthersListed(data0, stem, defaultTitle, slugTag, "created");
    }
    FirstStep(d4, CreatedKeys, "created", data0);
    assert Get(Normalised(data0, stem, defaultTitle, slugTag), "created") == Get(d5, "created") by {
      IfFrame(d5, "modified", FirstPresent(d5, ModifiedKeys), "created");
      IfFrame(d6, "published", FirstPresent(d6, PublishedKeys), "created");
      IfFrame(d7, "socialImage", FirstPresent(d4, ImageKeys), "created");
    }
  }


  /** `modified` is the first present of `modified`, `lastmod`, `updated`, `last-modified` when truthy; otherwise left alone. */
  lemma NormalisedModified(data0: Record, stem: Option<string>, defaultTitle: string, slugTag: string -> string)
    ensures Truthy(FirstPresent(data0, ModifiedKeys)) ==>
      Get(Normalised(data0, stem, defaultTitle, slugTag), "modified") == FirstPresent(data0, ModifiedKeys)
    ensures !Truthy(FirstPresent(data0, ModifiedKeys)) ==>
      Get(Normalised(data0, stem, defaultTitle, slugTag), "modified") == Get(data0, "modified")
  {
    var d4 := Listed(data0, stem, defaultTitle, slugTag);
    var d5 := WithFirst(d4, CreatedKeys, "created");
    var d6 := WithFirst(d5, ModifiedKeys, "modified");
    var d7 := WithFirst(d6, PublishedKeys, "published");
    assert FirstPresent(d5, ModifiedKeys) == FirstPresent(data0, ModifiedKeys) by {
      DateKeysApart();
      ListedRead(data0, stem, defaultTitle, slugTag, ModifiedKeys);
      FrameIf(d4, "created", FirstPresent(d4, CreatedKeys), ModifiedKeys);
    }
    assert Get(d5, "modified") == Get(data0, "modified") by {
      OthersListed(data0, stem, defaultTitle, slugTag, "modified");
      IfFrame(d4, "created", FirstPresent(d4, CreatedKeys), "modified");
    }
    FirstStep(d5, ModifiedKeys, "modified", data0);
    assert Get(Normalised(data0, stem, defaultTitle, slugTag), "modified") == Get(d6, "modified") by {
      IfFrame(d6, "published", FirstPresent(d6, PublishedKeys), "modified");
      IfFrame(d7, "socialImage", FirstPresent(d4, ImageKeys), "modified");
    }
  }


  /** `published` is the first present of `published`, `publishDate`, `date` when truthy; otherwise left alone. */
  lemma NormalisedPublished(data0: Record, stem: Option<string>, defaultTitle: string, slugTag: string -> string)
    ensures Truthy(FirstPresent(data0, PublishedKeys)) ==>
      Get(Normalised(data0, stem, defaultTitle, slugTag), "published") == FirstPresent(data0, PublishedKeys)
    ensures !Truthy(FirstPresent(data0, PublishedKeys)) ==>
      Get(Normalised(data0, stem, defaultTitle, slugTag), "published") == Get(data0, "published")
  {
    var d4 := Listed(data0, stem, defaultTitle, slugTag);
    var d5 := WithFirst(d4, CreatedKeys, "created");
    var d6 := WithFirst(d5, ModifiedKeys, "modified");
    var d7 := WithFirst(d6, PublishedKeys, "published");
    assert FirstPresent(d6, PublishedKeys) == FirstPresent(data0, PublishedKeys) by {
      DateKeysApart();
      ListedRead(data0, stem, defaultTitle, slugTag, PublishedKeys);
      FrameIf(d4, "created", FirstPresent(d4, CreatedKeys), PublishedKeys);
      FrameIf(d5, "modified", FirstPresent(d5, ModifiedKeys), PublishedKeys);
    }
    assert Get(d6, "published") == Get(data0, "published") by {
      OthersListed(data0, stem, defaultTitle, slugTag, "published");
      IfFrame(d4, "created", FirstPresent(d4, CreatedKeys), "published");
      IfFrame(d5, "modified", FirstPresent(d5, ModifiedKeys), "published");
    }
    FirstStep(d6, PublishedKeys, "published", data0);
    assert Get(Normalised(data0, stem, defaultTitle, slugTag), "published") == Get(d7, "published") by {
      IfFrame(d7, "socialImage", FirstPresent(d4, ImageKeys), "published");
    }
  }

  /** One date step: it stores the first present value of its keys when that is truthy. */
  lemma FirstStep(d: Record, keys: seq<string>, target: string, base: Record)
    requires FirstPresent(d, keys) == FirstPresent(base, keys) && Get(d, target) == Get(base, target)
    ensures Truthy(FirstPresent(base, keys)) ==> Get(WithFirst(d, keys, target), target) == FirstPresent(base, keys)
    ensures !Truthy(FirstPresent(base, keys)) ==> Get(WithFirst(d, keys, target), target) == Get(base, target)
  {
  }

  /** No date key is one of the fields the title and list steps write, nor an earlier date field. */
  lemma DateKeysApart()
    ensures "title" !in CreatedKeys && "tags" !in CreatedKeys && "aliases" !in CreatedKeys && "cssclasses" !in CreatedKeys
    ensures "title" !in ModifiedKeys && "tags" !in ModifiedKeys && "aliases" !in ModifiedKeys && "cssclasses" !in ModifiedKeys
    ensures "title" !in PublishedKeys && "tags" !in PublishedKeys && "aliases" !in PublishedKeys && "cssclasses" !in PublishedKeys
    ensures "created" !in ModifiedKeys && "created" !in PublishedKeys && "modified" !in PublishedKeys
  {
  }


  /** `socialImage` is the first present of `socialImage`, `image`, `cover` when truthy; otherwise left alone. */
  lemma NormalisedSocialImage(data0: Record, stem: Option<string>, defaultTitle: string, slugTag: string -> string)
    ensures Truthy(FirstPresent(data0, ImageKeys)) ==>
      Get(Normalised(data0, stem, defaultTitle, slugTag), "socialImage") == FirstPresent(data0, ImageKeys)
    ensures !Truthy(FirstPresent(data0, ImageKeys)) ==>
      Get(Normalised(data0, stem, defaultTitle, slugTag), "socialImage") == Get(data0, "socialImage")
  {
    var d4 := Listed(data0, stem, defaultTitle, slugTag);
    var d5 := WithFirst(d4, CreatedKeys, "created");
    var d6 := WithFirst(d5, ModifiedKeys, "modified");
    ListedRead(data0, stem, defaultTitle, slugTag, ImageKeys);
    OthersListed(data0, stem, defaultTitle, slugTag, "socialImage");
    IfFrame(d4, "created", FirstPresent(d4, CreatedKeys), "socialImage");
    IfFrame(d5, "modified", FirstPresent(d5, ModifiedKeys), "socialImage");
    IfFrame(d6, "published", FirstPresent(d6, PublishedKeys), "socialImage");
  }

  /** The title and list steps leave the other fields alone. */
  lemma OthersListed(data0: Record, stem: Option<string>, defaultTitle: string, slugTag: string -> string, k: string)
    requires k != "title" && k != "tags" && k != "aliases" && k != "cssclasses"
    ensures Get(Listed(data0, stem, defaultTitle, slugTag), k) == Get(data0, k)
  {
    var d1 := WithTitle(data0, stem, defaultTitle);
    var d2 := WithTags(d1, slugTag);
    var d3 := WithList(d2, AliasKeys, "aliases");
    TitleFrame(data0, stem, defaultTitle, k);
    TagsFrame(d1, slugTag, k);
    ListFrame(d2, AliasKeys, "aliases", k);
    ListFrame(d3, CssKeys, "cssclasses", k);
  }
}
