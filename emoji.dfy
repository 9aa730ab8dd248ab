/**
  Emoji file names (quartz/util/emoji.ts): a string is read as UTF-16 code
  units, surrogate pairs are combined into code points, and the code points are
  written in lower-case hexadecimal joined by `-` (`1f468-200d-1f4bb`).

  The decoder is the one of section 2.2 of RFC 2781, except that the unit after
  a high surrogate is combined with it whatever it is, and a high surrogate at
  the very end is dropped.
*/
module Emoji {
  import opened Strings

  /** A UTF-16 code unit, as `charCodeAt` returns it. */
  type Unit = n: int | 0 <= n < 0x1_0000

  const ZeroWidthJoiner: Unit := 0x200D
  const VariationSelector16: Unit := 0xFE0F

  predicate IsHigh(c: int) { 0xD800 <= c <= 0xDBFF }

  predicate IsLow(c: int) { 0xDC00 <= c <= 0xDFFF }

  /** The value the loop emits for a pending high surrogate `p` followed by `c`. */
  function Pair(p: int, c: Unit): (v: nat)
    requires IsHigh(p)
    ensures 0x2400 <= v <= 0x11_2000
  {
    0x1_0000 + (p - 0xD800) * 1024 + (c - 0xDC00)
  }

  /**
    The code points the loop emits for the units `u` when it starts with
    pending surrogate `p` (0 for none).
  */
  function DecodeFrom(u: seq<Unit>, p: int): (cps: seq<nat>)
    requires p == 0 || IsHigh(p)
    ensures |cps| <= |u|
  {
    if u == [] then []
    else if p != 0 then [Pair(p, u[0])] + DecodeFrom(u[1..], 0)
    else if IsHigh(u[0]) then DecodeFrom(u[1..], u[0])
    else [u[0] as nat] + DecodeFrom(u[1..], 0)
  }

  /** The pending high surrogate left once `u` has been read from state `p`. */
  function PendingAfter(u: seq<Unit>, p: int): (q: int)
    requires p == 0 || IsHigh(p)
    ensures q == 0 || IsHigh(q)
  {
    if u == [] then p
    else if p != 0 then PendingAfter(u[1..], 0)
    else if IsHigh(u[0]) then PendingAfter(u[1..], u[0])
    else PendingAfter(u[1..], 0)
  }

  function CodePoints(u: seq<Unit>): seq<nat> {
    DecodeFrom(u, 0)
  }

  function HexPieces(cps: seq<nat>): (r: seq<string>)
    ensures |r| == |cps|
  {
    if cps == [] then [] else [Hex(cps[0])] + HexPieces(cps[1..])
  }

  lemma {:induction false} HexPiecesAt(cps: seq<nat>, k: nat)
    requires k < |cps|
    ensures HexPieces(cps)[k] == Hex(cps[k])
  {
    if k > 0 {
      assert HexPieces(cps)[k] == HexPieces(cps[1..])[k - 1];
      HexPiecesAt(cps[1..], k - 1);
    }
  }

  lemma {:induction false} HexPiecesConcat(a: seq<nat>, b: seq<nat>)
    ensures HexPieces(a + b) == HexPieces(a) + HexPieces(b)
  {
    if a != [] {
      assert (a + b)[0] == a[0] && (a + b)[1..] == a[1..] + b;
      HexPiecesConcat(a[1..], b);
      calc {
        HexPieces(a + b);
        [Hex(a[0])] + HexPieces(a[1..] + b);
        [Hex(a[0])] + (HexPieces(a[1..]) + HexPieces(b));
        ([Hex(a[0])] + HexPieces(a[1..])) + HexPieces(b);
        HexPieces(a) + HexPieces(b);
      }
    } else {
      assert a + b == b;
    }
  }

  /** What `toCodePoint` returns for the units `u`. */
  function Encoded(u: seq<Unit>): string {
    Join(HexPieces(CodePoints(u)), "-")
  }

  /** `toCodePoint`: the loop over the code units with a pending high surrogate. */
  method ToCodePoint(s: seq<Unit>) returns (code: string)
    ensures code == Encoded(s)
  {
    var r: seq<string> := [];
    ghost var done: seq<nat> := [];
    var c: Unit, p: int, i := 0, 0, 0;
    while i < |s|
      invariant 0 <= i <= |s|
      invariant p == 0 || IsHigh(p)
      invariant done + DecodeFrom(s[i..], p) == CodePoints(s)
      invariant r == HexPieces(done)
    {
      c := s[i];
      LoopStep(s, i, p, done);
      i := i + 1;
      if p != 0 {
        HexPiecesConcat(done, [Pair(p, c)]);
        r, done := r + [Hex(Pair(p, c))], done + [Pair(p, c)];
        p := 0;
      } else if 0xD800 <= c <= 0xDBFF {
        p := c;
      } else {
        HexPiecesConcat(done, [c as nat]);
        r, done := r + [Hex(c)], done + [c as nat];
      }
    }
    assert s[i..] == [] && done + [] == done;
    code := Join(r, "-");
  }

  /** One step of the decoder, as the loop body takes it. */
  lemma DecodeCons(u: seq<Unit>, p: int)
    requires u != [] && (p == 0 || IsHigh(p))
    ensures p != 0 ==> DecodeFrom(u, p) == [Pair(p, u[0])] + DecodeFrom(u[1..], 0)
    ensures p == 0 && IsHigh(u[0]) ==> DecodeFrom(u, p) == DecodeFrom(u[1..], u[0])
    ensures p == 0 && !IsHigh(u[0]) ==> DecodeFrom(u, p) == [u[0] as nat] + DecodeFrom(u[1..], 0)
  {
  }

  /** What one turn of the loop in `ToCodePoint` keeps. */
  lemma LoopStep(s: seq<Unit>, i: nat, p: int, done: seq<nat>)
    requires i < |s| && (p == 0 || IsHigh(p))
    requires done + DecodeFrom(s[i..], p) == CodePoints(s)
    ensures p != 0 ==> (done + [Pair(p, s[i])]) + DecodeFrom(s[i + 1..], 0) == CodePoints(s)
    ensures p == 0 && IsHigh(s[i]) ==> done + DecodeFrom(s[i + 1..], s[i]) == CodePoints(s)
    ensures p == 0 && !IsHigh(s[i]) ==> (done + [s[i] as nat]) + DecodeFrom(s[i + 1..], 0) == CodePoints(s)
  {
    DecodeCons(s[i..], p);
    assert s[i..][1..] == s[i + 1..];
  }

  /** `getIconCode`'s input to `toCodePoint`: U+FE0F removed unless U+200D occurs. */
  function IconUnits(s: seq<Unit>): (u: seq<Unit>)
    ensures ZeroWidthJoiner in u <==> ZeroWidthJoiner in s
    ensures VariationSelector16 in u ==> ZeroWidthJoiner in s
    ensures forall k :: 0 <= k < |u| ==> u[k] in s
    ensures ZeroWidthJoiner in s ==> u == s
    ensures ZeroWidthJoiner !in s ==> u == Without(s, VariationSelector16)
    ensures ZeroWidthJoiner !in s ==> multiset(u) == multiset(s)[VariationSelector16 := 0]
  {
    if ZeroWidthJoiner in s then s else Without(s, VariationSelector16)
  }

  /** `s.replace(/x/g, "")`: every `x` removed, everything else kept in order. */
  function Without(s: seq<Unit>, x: Unit): (r: seq<Unit>)
    ensures x !in r && |r| <= |s|
    ensures x !in s ==> r == s
    ensures forall k :: 0 <= k < |r| ==> r[k] in s
    ensures multiset(r) == multiset(s)[x := 0]
  {
    if s == [] then []
    else
      assert s == [s[0]] + s[1..];
      if s[0] == x then Without(s[1..], x)
      else [s[0]] + Without(s[1..], x)
  }

  /** The removal works unit by unit: a single unit is dropped exactly when it is `x`. */
  lemma WithoutSingle(c: Unit, x: Unit)
    ensures Without([c], x) == if c == x then [] else [c]
  {
    assert [c][1..] == [];
  }

  /** The removal keeps the order of what it keeps: it distributes over concatenation. */
  lemma {:induction false} WithoutConcat(a: seq<Unit>, b: seq<Unit>, x: Unit)
    ensures Without(a + b, x) == Without(a, x) + Without(b, x)
  {
    if a != [] {
      assert (a + b)[0] == a[0] && (a + b)[1..] == a[1..] + b;
      WithoutConcat(a[1..], b, x);
    } else {
      assert a + b == b;
    }
  }

  /** `getIconCode`. */
  method GetIconCode(s: seq<Unit>) returns (code: string)
    ensures code == Encoded(IconUnits(s))
  {
    if ZeroWidthJoiner !in s {
      code := ToCodePoint(Without(s, VariationSelector16));
    } else {
      code := ToCodePoint(s);
    }
  }

  // ---------------------------------------------------------------------------
  // Properties of the decoder
  // ---------------------------------------------------------------------------

  /** A unit that is not a high surrogate, read with nothing pending, is its own code point. */
  lemma NonSurrogate(u: seq<Unit>)
    requires u != [] && !IsHigh(u[0])
    ensures CodePoints(u) == [u[0] as nat] + CodePoints(u[1..])
  {
  }

  /**
    A high surrogate emits nothing by itself; the next unit is combined with it
    whatever that unit is.
  */
  lemma PairConsumesNext(u: seq<Unit>)
    requires |u| >= 2 && IsHigh(u[0])
    ensures CodePoints(u) == [Pair(u[0], u[1])] + CodePoints(u[2..])
  {
    DecodeCons(u, 0);
    DecodeCons(u[1..], u[0]);
    assert u[1..][1..] == u[2..];
  }

  /** A high surrogate followed by a low one gives a supplementary code point. */
  lemma PairRange(p: Unit, c: Unit)
    requires IsHigh(p) && IsLow(c)
    ensures 0x1_0000 <= Pair(p, c) <= 0x10_FFFF
  {
  }

  /** A high surrogate at the very end is dropped, when nothing was pending before it. */
  lemma {:induction false} TrailingHighDropped(w: seq<Unit>, h: Unit, p: int)
    requires p == 0 || IsHigh(p)
    requires IsHigh(h) && PendingAfter(w, p) == 0
    ensures DecodeFrom(w + [h], p) == DecodeFrom(w, p)
  {
    if w == [] {
      assert w + [h] == [h];
    } else {
      assert (w + [h])[1..] == w[1..] + [h];
      if p != 0 {
        TrailingHighDropped(w[1..], h, 0);
      } else if IsHigh(w[0]) {
        TrailingHighDropped(w[1..], h, w[0]);
      } else {
        TrailingHighDropped(w[1..], h, 0);
      }
    }
  }

  /** The empty string gives the empty string. */
  lemma EmptyEncoded()
    ensures Encoded([]) == ""
  {
  }

  /** Units free of surrogates give one piece each, in order. */
  lemma {:induction false} NoSurrogates(u: seq<Unit>)
    requires forall k :: 0 <= k < |u| ==> !IsHigh(u[k])
    ensures CodePoints(u) == seq(|u|, k requires 0 <= k < |u| => u[k] as nat)
  {
    if u != [] {
      NoSurrogates(u[1..]);
    }
  }

  /** Well-formed UTF-16: every high surrogate is immediately followed by a low one. */
  predicate WellFormed(u: seq<Unit>) {
    forall k :: 0 <= k < |u| && IsHigh(u[k]) ==> k + 1 < |u| && IsLow(u[k + 1])
  }

  function CountHigh(u: seq<Unit>): nat {
    if u == [] then 0 else (if IsHigh(u[0]) then 1 else 0) + CountHigh(u[1..])
  }

  /** On well-formed input there is one piece per unit, less one per pair. */
  lemma {:induction false} PieceCount(u: seq<Unit>)
    requires WellFormed(u)
    ensures |CodePoints(u)| == |u| - CountHigh(u)
    decreases |u|
  {
    if u != [] {
      if IsHigh(u[0]) {
        assert WellFormed(u[2..]) by {
          forall k | 0 <= k < |u[2..]| && IsHigh(u[2..][k]) ensures k + 1 < |u[2..]| && IsLow(u[2..][k + 1]) {
            assert u[2..][k] == u[k + 2];
          }
        }
        PairConsumesNext(u);
        PieceCount(u[2..]);
        assert u[1..][1..] == u[2..];
      } else {
        assert WellFormed(u[1..]) by {
          forall k | 0 <= k < |u[1..]| && IsHigh(u[1..][k]) ensures k + 1 < |u[1..]| && IsLow(u[1..][k + 1]) {
            assert u[1..][k] == u[k + 1];
          }
        }
        PieceCount(u[1..]);
      }
    }
  }

  /** Encoding code points as UTF-16, per section 2.1 of RFC 2781. */
  function EncodeUtf16(cps: seq<nat>): seq<Unit>
    requires forall k :: 0 <= k < |cps| ==> cps[k] <= 0x10_FFFF
  {
    if cps == [] then []
    else
      var c := cps[0];
      var head: seq<Unit> :=
        if c < 0x1_0000 then [c]
        else [0xD800 + (c - 0x1_0000) / 1024, 0xDC00 + (c - 0x1_0000) % 1024];
      head + EncodeUtf16(cps[1..])
  }

  /** Re-encoding what the loop decodes from well-formed UTF-16 gives the units back. */
  lemma {:induction false} DecodeEncode(u: seq<Unit>)
    requires WellFormed(u)
    ensures forall k :: 0 <= k < |CodePoints(u)| ==> CodePoints(u)[k] <= 0x10_FFFF
    ensures EncodeUtf16(CodePoints(u)) == u
    decreases |u|
  {
    if u != [] {
      if IsHigh(u[0]) {
        assert WellFormed(u[2..]) by {
          forall k | 0 <= k < |u[2..]| && IsHigh(u[2..][k]) ensures k + 1 < |u[2..]| && IsLow(u[2..][k + 1]) {
            assert u[2..][k] == u[k + 2];
          }
        }
        PairConsumesNext(u);
        DecodeEncode(u[2..]);
        var v := Pair(u[0], u[1]);
        PairRange(u[0], u[1]);
        assert (v - 0x1_0000) / 1024 == u[0] - 0xD800 && (v - 0x1_0000) % 1024 == u[1] - 0xDC00;
        assert u == [u[0], u[1]] + u[2..];
      } else {
        assert WellFormed(u[1..]) by {
          forall k | 0 <= k < |u[1..]| && IsHigh(u[1..][k]) ensures k + 1 < |u[1..]| && IsLow(u[1..][k + 1]) {
            assert u[1..][k] == u[k + 1];
          }
        }
        DecodeEncode(u[1..]);
        assert u == [u[0]] + u[1..];
      }
    }
  }

  /** Decoding the UTF-16 encoding of scalar values gives the values back. */
  lemma {:induction false} EncodeDecode(cps: seq<nat>)
    requires forall k :: 0 <= k < |cps| ==> cps[k] <= 0x10_FFFF && !(0xD800 <= cps[k] <= 0xDFFF)
    ensures WellFormed(EncodeUtf16(cps)) && CodePoints(EncodeUtf16(cps)) == cps
  {
    if cps != [] {
      var c := cps[0];
      var rest := EncodeUtf16(cps[1..]);
      EncodeDecode(cps[1..]);
      assert cps == [c] + cps[1..];
      if c < 0x1_0000 {
        var u: seq<Unit> := [c] + rest;
        assert u[1..] == rest;
        forall k | 0 <= k < |u| && IsHigh(u[k]) ensures k + 1 < |u| && IsLow(u[k + 1]) {
          assert u[k] == rest[k - 1];
        }
      } else {
        var h: Unit, l: Unit := 0xD800 + (c - 0x1_0000) / 1024, 0xDC00 + (c - 0x1_0000) % 1024;
        var u: seq<Unit> := [h, l] + rest;
        assert Pair(h, l) == c;
        assert u[2..] == rest;
        forall k | 0 <= k < |u| && IsHigh(u[k]) ensures k + 1 < |u| && IsLow(u[k + 1]) {
          if k >= 2 { assert u[k] == rest[k - 2]; }
        }
        PairConsumesNext(u);
      }
    }
  }

  /**
    The output can be read back: splitting it on `-` and reading each piece as
    hexadecimal gives the code points.
  */
  lemma ReadBack(u: seq<Unit>)
    requires CodePoints(u) != []
    ensures var parts := Split(Encoded(u), '-');
      |parts| == |CodePoints(u)|
      && forall k :: 0 <= k < |parts| ==> (forall j :: 0 <= j < |parts[k]| ==> IsHexChar(parts[k][j])) && ParseHex(parts[k]) == CodePoints(u)[k]
  {
    var pieces := HexPieces(CodePoints(u));
    forall k | 0 <= k < |pieces| ensures pieces[k] == Hex(CodePoints(u)[k]) {
      HexPiecesAt(CodePoints(u), k);
    }
    forall k | 0 <= k < |pieces| ensures '-' !in pieces[k] {
      assert forall j :: 0 <= j < |pieces[k]| ==> IsHexChar(pieces[k][j]);
    }
    SplitJoin(pieces, '-');
    forall k | 0 <= k < |pieces| ensures ParseHex(pieces[k]) == CodePoints(u)[k] {
      HexRoundTrip(CodePoints(u)[k]);
    }
  }
}
