/**
  Google Fonts family specifications (quartz/util/theme.ts): a font is named
  either by a bare string or by a record with optional weights and an optional
  italic flag; the family parameter is the name, optionally followed by `:` and
  the features `ital` and `wght@…` joined by `,`.
*/
module Theme {
  import opened Wrappers
  import opened Strings

  /** `FontSpecification`: a bare name, or a name with optional settings. */
  datatype FontSpec =
    | Named(name: string)
    | Spec(name: string, weights: Option<seq<int>>, includeItalic: Option<bool>)

  /** The three typography slots of a theme. */
  datatype FontRole = Header | Body | Code

  /** The typography part of `Theme`, the only part the font link reads. */
  datatype Typography = Typography(header: FontSpec, body: FontSpec, code: FontSpec)

  /** `getFontSpecificationName`. */
  function FontName(spec: FontSpec): string
  {
    match spec
    case Named(n) => n
    case Spec(n, _, _) => n
  }

  function DefaultWeights(role: FontRole): seq<int> {
    if role == Header then [400, 700] else [400, 600]
  }

  /** The weights asked for: the record's own, or the slot's default. */
  function Weights(role: FontRole, spec: FontSpec): seq<int> {
    if spec.Spec? && spec.weights.Some? then spec.weights.value else DefaultWeights(role)
  }

  /** Whether italics are asked for: the record's own flag, or true for body text only. */
  function Italic(role: FontRole, spec: FontSpec): bool {
    if spec.Spec? && spec.includeItalic.Some? then spec.includeItalic.value else role == Body
  }

  /** `weights.flatMap(w => [`0,${w}`, `1,${w}`])`. */
  function ItalPairs(ws: seq<int>): (r: seq<string>)
    ensures |r| == 2 * |ws|
  {
    if ws == [] then []
    else ["0," + IntStr(ws[0]), "1," + IntStr(ws[0])] + ItalPairs(ws[1..])
  }

  /** `weights.map(w => `${w}`)`, what `weights.join(";")` writes between the separators. */
  function IntStrs(ws: seq<int>): (r: seq<string>)
    ensures |r| == |ws| && forall k :: 0 <= k < |ws| ==> r[k] == IntStr(ws[k])
  {
    if ws == [] then [] else [IntStr(ws[0])] + IntStrs(ws[1..])
  }

  /** The `wght@` value: italic pairs sorted as strings, or the plain weights in order. */
  function WeightSpec(italic: bool, ws: seq<int>): string {
    if italic then Join(Sort(ItalPairs(ws)), ";") else Join(IntStrs(ws), ";")
  }

  /**
    The family parameter by cases: `ital` exactly when italics are asked
    for, `wght@…` exactly when there are two or more weights, `ital` first,
    and the bare name when there is neither.
  */
  function FamilyOf(name: string, italic: bool, ws: seq<int>): string {
    if italic && |ws| > 1 then name + ":ital,wght@" + WeightSpec(true, ws)
    else if italic then name + ":ital"
    else if |ws| > 1 then name + ":wght@" + WeightSpec(false, ws)
    else name
  }

  /** The family parameter for a slot. */
  function Family(role: FontRole, spec: FontSpec): string {
    FamilyOf(FontName(spec), Italic(role, spec), Weights(role, spec))
  }

  /** `formatFontSpecification`: the features are pushed one by one and joined. */
  method FormatFontSpecification(role: FontRole, spec: FontSpec) returns (family: string)
    ensures family == Family(role, spec)
  {
    var name := FontName(spec);
    var weights := Weights(role, spec);
    var italic := Italic(role, spec);

    var features: seq<string> := [];
    if italic {
      features := features + ["ital"];
    }
    if |weights| > 1 {
      features := features + ["wght@" + WeightSpec(italic, weights)];
    }

    FamilyOfFeatures(name, italic, weights, features);
    if |features| > 0 {
      family := name + ":" + Join(features, ",");
    } else {
      family := name;
    }
  }

  /** The features as the method pushes them, joined, give the family by cases. */
  lemma FamilyOfFeatures(name: string, italic: bool, ws: seq<int>, features: seq<string>)
    requires features == (if italic then ["ital"] else []) + (if |ws| > 1 then ["wght@" + WeightSpec(italic, ws)] else [])
    ensures |features| > 0 ==> name + ":" + Join(features, ",") == FamilyOf(name, italic, ws)
    ensures |features| == 0 ==> name == FamilyOf(name, italic, ws)
  {
    var w := WeightSpec(italic, ws);
    if |features| > 0 {
      FeaturesJoined(features, italic, |ws| > 1, w);
      NameThenFeatures(name, Join(features, ","), italic, |ws| > 1, w);
    }
  }

  lemma FeaturesJoined(features: seq<string>, italic: bool, heavy: bool, w: string)
    requires features == (if italic then ["ital"] else []) + (if heavy then ["wght@" + w] else [])
    requires |features| > 0
    ensures italic && heavy ==> Join(features, ",") == "ital,wght@" + w
    ensures italic && !heavy ==> Join(features, ",") == "ital"
    ensures !italic && heavy ==> Join(features, ",") == "wght@" + w
  {
    if italic && heavy {
      assert features == ["ital", "wght@" + w];
      JoinTwo("ital", "wght@" + w, ",");
    } else if italic {
      assert features == ["ital"];
    } else {
      assert features == ["wght@" + w];
    }
  }

  lemma JoinTwo(a: string, b: string, sep: string)
    ensures Join([a, b], sep) == a + sep + b
  {
    assert [a, b][1..] == [b];
  }

  lemma NameThenFeatures(name: string, f: string, italic: bool, heavy: bool, w: string)
    requires italic && heavy ==> f == "ital,wght@" + w
    requires italic && !heavy ==> f == "ital"
    requires !italic && heavy ==> f == "wght@" + w
    ensures italic && heavy ==> name + ":" + f == name + ":ital,wght@" + w
    ensures italic && !heavy ==> name + ":" + f == name + ":ital"
    ensures !italic && heavy ==> name + ":" + f == name + ":wght@" + w
  {
  }

  /** `googleFontHref`: body, header and code families, in that order. */
  method GoogleFontHref(theme: Typography) returns (href: string)
    ensures href == "https://fonts.googleapis.com/css2?family=" + Family(Body, theme.body)
                    + "&family=" + Family(Header, theme.header)
                    + "&family=" + Family(Code, theme.code) + "&display=swap"
  {
    var headerFont := FormatFontSpecification(Header, theme.header);
    var bodyFont := FormatFontSpecification(Body, theme.body);
    var codeFont := FormatFontSpecification(Code, theme.code);
    href := "https://fonts.googleapis.com/css2?family=" + bodyFont + "&family=" + headerFont
            + "&family=" + codeFont + "&display=swap";
  }

  // ---------------------------------------------------------------------------
  // Properties
  // ---------------------------------------------------------------------------

  /** Missing weights default to 400 and 700 for headers, 400 and 600 otherwise; given ones win. */
  lemma WeightDefaults(role: FontRole, spec: FontSpec)
    ensures spec.Spec? && spec.weights.Some? ==> Weights(role, spec) == spec.weights.value
    ensures (spec.Named? || spec.weights.None?) && role == Header ==> Weights(role, spec) == [400, 700]
    ensures (spec.Named? || spec.weights.None?) && role != Header ==> Weights(role, spec) == [400, 600]
  {
  }

  /** Italics default to on for body text only; a given flag wins. */
  lemma ItalicDefaults(role: FontRole, spec: FontSpec)
    ensures spec.Spec? && spec.includeItalic.Some? ==> Italic(role, spec) == spec.includeItalic.value
    ensures spec.Named? || spec.includeItalic.None? ==> (Italic(role, spec) <==> role == Body)
  {
  }

  /** The family is the bare name exactly when there is no feature to add. */
  lemma BareName(role: FontRole, spec: FontSpec)
    ensures Family(role, spec) == FontName(spec) <==> !Italic(role, spec) && |Weights(role, spec)| <= 1
  {
    var name := FontName(spec);
    var f := Family(role, spec);
    if Italic(role, spec) || |Weights(role, spec)| > 1 {
      assert |f| > |name|;
    }
  }

  /** `f` holds `t` from position `i` on. */
  predicate HasAt(f: string, i: nat, t: string) {
    |f| >= i + |t| && f[i..i + |t|] == t
  }

  lemma BothFeatures(name: string, w: string)
    ensures var f := name + ":ital,wght@" + w;
      HasAt(f, |name|, ":ital") && HasAt(f, |name|, ":ital,wght@")
  {
    var f := name + ":ital,wght@" + w;
    assert f[|name|..|name| + 11] == ":ital,wght@";
    assert f[|name|..|name| + 5] == ":ital";
  }

  lemma ItalicOnly(name: string)
    ensures var f := name + ":ital";
      HasAt(f, |name|, ":ital") && !HasAt(f, |name|, ":wght@") && !HasAt(f, |name|, ":ital,wght@")
  {
    var f := name + ":ital";
    assert f[|name|..|name| + 5] == ":ital";
  }

  lemma WeightsOnly(name: string, w: string)
    ensures var f := name + ":wght@" + w;
      !HasAt(f, |name|, ":ital") && HasAt(f, |name|, ":wght@")
  {
    var f := name + ":wght@" + w;
    assert f[|name|..|name| + 6] == ":wght@";
    assert f[|name|..|name| + 5][1] == 'w';
  }

  /**
    `ital` follows the name exactly when italics are asked for, and `wght@`
    follows only when two or more weights are, after `ital` when both are.
  */
  lemma FeatureOrder(role: FontRole, spec: FontSpec)
    ensures var name, f := FontName(spec), Family(role, spec);
      && (Italic(role, spec) <==> HasAt(f, |name|, ":ital"))
      && (|Weights(role, spec)| > 1 <==> HasAt(f, |name|, ":wght@") || HasAt(f, |name|, ":ital,wght@"))
  {
    var name := FontName(spec);
    var ws, italic := Weights(role, spec), Italic(role, spec);
    if italic && |ws| > 1 {
      BothFeatures(name, WeightSpec(true, ws));
    } else if italic {
      ItalicOnly(name);
    } else if |ws| > 1 {
      WeightsOnly(name, WeightSpec(false, ws));
    }
  }

  /** With italics the list is sorted as strings and is a permutation of the pairs. */
  lemma ItalicWeightsSorted(ws: seq<int>)
    ensures var xs := Sort(ItalPairs(ws));
      Sorted(xs) && multiset(xs) == multiset(ItalPairs(ws)) && |xs| == 2 * |ws|
  {
    var xs := Sort(ItalPairs(ws));
    assert |multiset(xs)| == |multiset(ItalPairs(ws))|;
  }

  /** With italics every weight `w` appears both as `0,w` and as `1,w`. */
  lemma ItalicWeightsBoth(ws: seq<int>, k: nat)
    requires k < |ws|
    ensures "0," + IntStr(ws[k]) in Sort(ItalPairs(ws)) && "1," + IntStr(ws[k]) in Sort(ItalPairs(ws))
  {
    var xs := Sort(ItalPairs(ws));
    PairsOf(ws, k);
    assert "0," + IntStr(ws[k]) in multiset(xs);
    assert "1," + IntStr(ws[k]) in multiset(xs);
  }

  /** With italics every `0,` entry comes before every `1,` entry. */
  lemma ItalicZerosFirst(ws: seq<int>, i: nat, j: nat)
    requires var xs := Sort(ItalPairs(ws));
      i < |xs| && j < |xs| && xs[i] != [] && xs[i][0] == '0' && xs[j] != [] && xs[j][0] == '1'
    ensures i < j
  {
    var xs := Sort(ItalPairs(ws));
    assert Sorted(xs);
  }

  lemma {:induction false} PairsOf(ws: seq<int>, k: nat)
    requires k < |ws|
    ensures "0," + IntStr(ws[k]) in ItalPairs(ws) && "1," + IntStr(ws[k]) in ItalPairs(ws)
  {
    var r := ItalPairs(ws);
    assert r[..2] == ["0," + IntStr(ws[0]), "1," + IntStr(ws[0])];
    if k > 0 {
      PairsOf(ws[1..], k - 1);
      assert r[2..] == ItalPairs(ws[1..]);
    } else {
      assert r[0] == "0," + IntStr(ws[0]) && r[1] == "1," + IntStr(ws[0]);
    }
  }

  /** Without italics the weights can be read back, in order, from the `;`-separated list. */
  lemma PlainWeightsReadBack(ws: seq<int>)
    requires ws != []
    ensures var parts := Split(WeightSpec(false, ws), ';');
      |parts| == |ws| && forall k :: 0 <= k < |ws| ==> parts[k] == IntStr(ws[k])
  {
    var ps := IntStrs(ws);
    forall k | 0 <= k < |ps| ensures ';' !in ps[k] {
      var s := IntStr(ws[k]);
      assert forall j :: 0 <= j < |s| ==> s[j] == '-' || '0' <= s[j] <= '9' by {
        if ws[k] < 0 {
          assert forall j :: 1 <= j < |s| ==> s[j] == Dec(-ws[k])[j - 1];
        }
      }
    }
    SplitJoin(ps, ';');
  }
}
