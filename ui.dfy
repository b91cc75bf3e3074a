/**
 * The background-upload arithmetic of js/modules/ui.js: `autoProcessImage`
 * fits an image larger than the screen inside it, and
 * `tryCompressWithQuality` walks down a ladder of encodings until the
 * estimated size is at most 2 MiB. Canvas encoding is an input: `length(e)`
 * is the length of the data URL the canvas produces for encoding `e`.
 * Qualities are in tenths (10 is 1.0).
 */
module Ui {
  import opened Common
  import Arith

  /** `Math.round(a / b)` for a non-negative `a` and a positive `b`: the floor of `a / b + 1/2`. */
  function RoundDiv(a: nat, b: nat): nat
    requires b > 0
  {
    (2 * a + b) / (2 * b)
  }

  lemma RoundDivExact(k: nat, b: nat)
    requires b > 0
    ensures RoundDiv(k * b, b) == k
  {
    assert 2 * (k * b) + b == k * (2 * b) + b;
    Arith.DivUnique(2 * (k * b) + b, 2 * b, k, b);
  }

  lemma RoundDivLe(a: nat, b: nat, c: nat)
    requires b > 0 && a <= c * b
    ensures RoundDiv(a, b) <= c
  {
    Arith.DivBounds(2 * a + b, 2 * b);
    var q := (2 * a + b) / (2 * b);
    assert (c + 1) * (2 * b) == 2 * (c * b) + 2 * b;
    if q > c {
      Arith.MulLe(c + 1, q, 2 * b);
    }
  }

  /** `needsResize`: wider or taller than the screen. */
  predicate NeedsResize(ow: nat, oh: nat, sw: nat, sh: nat)
  {
    ow > sw || oh > sh
  }

  /**
   * The canvas size of `autoProcessImage`. The ratio is the smaller of
   * `sw / ow` and `sh / oh` (compared here by cross-multiplying), both sides
   * are scaled by it and rounded, and the image keeps its size when that
   * ratio is not below 1. The screen has a positive size.
   */
  function FitToScreen(ow: nat, oh: nat, sw: nat, sh: nat): (nat, nat)
    requires sw > 0 && sh > 0
  {
    if !NeedsResize(ow, oh, sw, sh) then (ow, oh)
    else if sw * oh <= sh * ow then
      if sw < ow then (RoundDiv(ow * sw, ow), RoundDiv(oh * sw, ow)) else (ow, oh)
    else
      if sh < oh then (RoundDiv(ow * sh, oh), RoundDiv(oh * sh, oh)) else (ow, oh)
  }

  /** An image that fits the screen keeps its size. */
  lemma FitKeepsSmallImages(ow: nat, oh: nat, sw: nat, sh: nat)
    requires sw > 0 && sh > 0 && ow <= sw && oh <= sh
    ensures FitToScreen(ow, oh, sw, sh) == (ow, oh)
  {
  }

  /** When the width ratio is the smaller one, the width is the side that overflows and the height follows it. */
  lemma FitByWidth(ow: nat, oh: nat, sw: nat, sh: nat)
    requires sw > 0 && sh > 0 && NeedsResize(ow, oh, sw, sh) && sw * oh <= sh * ow
    ensures sw < ow
    ensures FitToScreen(ow, oh, sw, sh) == (sw, RoundDiv(oh * sw, ow))
    ensures RoundDiv(oh * sw, ow) <= sh && RoundDiv(oh * sw, ow) <= oh
  {
    if sw >= ow {
      Arith.MulLe(sh + 1, oh, sw);
      Arith.MulLe(ow, sw, sh);
      assert false;
    }
    RoundDivExact(sw, ow);
    assert ow * sw == sw * ow;
    RoundDivLe(oh * sw, ow, sh);
    if oh > 0 {
      Arith.MulLe(sw, ow, oh);
    }
    RoundDivLe(oh * sw, ow, oh);
  }

  /** When the height ratio is the smaller one, the height overflows and the width follows it. */
  lemma FitByHeight(ow: nat, oh: nat, sw: nat, sh: nat)
    requires sw > 0 && sh > 0 && NeedsResize(ow, oh, sw, sh) && sw * oh > sh * ow
    ensures sh < oh
    ensures FitToScreen(ow, oh, sw, sh) == (RoundDiv(ow * sh, oh), sh)
    ensures RoundDiv(ow * sh, oh) <= sw && RoundDiv(ow * sh, oh) <= ow
  {
    if sh >= oh {
      Arith.MulLe(sw + 1, ow, sh);
      Arith.MulLe(oh, sh, sw);
      assert false;
    }
    RoundDivExact(sh, oh);
    assert oh * sh == sh * oh;
    RoundDivLe(ow * sh, oh, sw);
    if ow > 0 {
      Arith.MulLe(sh, oh, ow);
    }
    RoundDivLe(ow * sh, oh, ow);
  }

  /**
   * An image larger than the screen always shrinks (the "ratio is not below
   * 1" fallback never applies), ends inside the screen and no larger than
   * it was, and touches the screen's width or its height.
   */
  lemma FitShrinksLargeImages(ow: nat, oh: nat, sw: nat, sh: nat)
    requires sw > 0 && sh > 0 && NeedsResize(ow, oh, sw, sh)
    ensures var (w, h) := FitToScreen(ow, oh, sw, sh);
      w <= sw && h <= sh && w <= ow && h <= oh
      && (w == sw || h == sh)
      && (w < ow || h < oh)
  {
    if sw * oh <= sh * ow {
      FitByWidth(ow, oh, sw, sh);
    } else {
      FitByHeight(ow, oh, sw, sh);
    }
  }

  /** `targetSize`: 2 MiB. */
  const TargetSize: nat := 2 * 1024 * 1024

  datatype Format = Png | Jpeg

  /** An encoding the canvas is asked for: format and quality in tenths. */
  datatype Encoding = Encoding(format: Format, quality: nat)

  /** What `saveImageAndFinish` receives: the uploaded data URL as it was, or one of the encodings. */
  datatype Saved = Original | Encoded(encoding: Encoding)

  /** The saved image, the `wasCompressed` flag, and the encodings tried in order. */
  datatype Outcome = Outcome(saved: Saved, wasCompressed: bool, tried: seq<Encoding>)

  /** `imageUrl.length * 0.75 <= targetSize`. */
  predicate Fits(length: nat)
  {
    length * 3 <= TargetSize * 4
  }

  /** PNG only for the PNG format at full quality, JPEG at the given quality otherwise. */
  function EncodingFor(format: Format, quality: nat): Encoding
  {
    if format == Png && quality == 10 then Encoding(Png, 10) else Encoding(Jpeg, quality)
  }

  /**
   * `tryCompressWithQuality(canvas, quality, format, ..., attempt)`. It stops
   * when the estimate fits, at attempt 5 or at quality 0.5: an oversize PNG
   * is retried as JPEG 0.9, an oversize result at the attempt cap gives way
   * to the original, anything else is saved. Otherwise it retries as JPEG
   * one tenth lower, never below 0.5.
   */
  function TryCompress(format: Format, quality: nat, attempt: nat, length: Encoding -> nat): (r: Outcome)
    decreases if format == Png then 1 else 0, if attempt < 5 then 5 - attempt else 0
  {
    var enc := EncodingFor(format, quality);
    var fits := Fits(length(enc));
    if fits || attempt >= 5 || quality <= 5 then
      if format == Png && !fits then
        var r := TryCompress(Jpeg, 9, attempt + 1, length);
        r.(tried := [enc] + r.tried)
      else if !fits && attempt >= 5 then Outcome(Original, true, [enc])
      else Outcome(Encoded(enc), format != Png || quality < 10, [enc])
    else
      var r := TryCompress(Jpeg, Max(quality - 1, 5), attempt + 1, length);
      r.(tried := [enc] + r.tried)
  }

  /** The first call of `autoProcessImage`: PNG at 1.0, attempt 0. */
  function CompressionLadder(length: Encoding -> nat): Outcome
  {
    TryCompress(Png, 10, 0, length)
  }

  /** Rung `i` of the ladder: PNG 1.0 first, then JPEG 0.9, 0.8, … */
  function Rung(i: nat): Encoding
    requires i <= 10
  {
    if i == 0 then Encoding(Png, 10) else Encoding(Jpeg, 10 - i)
  }

  /** The call made at rung `a`: attempt `a`, quality `10 - a`, PNG only at the first rung. */
  function LadderAt(a: nat, length: Encoding -> nat): Outcome
    requires a <= 5
  {
    TryCompress(if a == 0 then Png else Jpeg, 10 - a, a, length)
  }

  /** An oversize rung below the cap moves to the next rung. */
  lemma LadderStep(a: nat, length: Encoding -> nat)
    requires a < 5 && !Fits(length(Rung(a)))
    ensures LadderAt(a, length) == LadderAt(a + 1, length).(tried := [Rung(a)] + LadderAt(a + 1, length).tried)
  {
    assert Max(10 - a - 1, 5) == 10 - (a + 1);
  }

  /** A fitting rung, or the last one, ends the walk. */
  lemma LadderStop(a: nat, length: Encoding -> nat)
    requires a <= 5 && (Fits(length(Rung(a))) || a == 5)
    ensures Fits(length(Rung(a))) ==> LadderAt(a, length) == Outcome(Encoded(Rung(a)), a > 0, [Rung(a)])
    ensures !Fits(length(Rung(a))) ==> LadderAt(a, length) == Outcome(Original, true, [Rung(a)])
  {
  }

  /** Putting an oversize rung `a` in front of the walk from rung `a + 1` gives the walk from rung `a`. */
  lemma ConsRung(a: nat, t: seq<Encoding>, rest: seq<Encoding>, length: Encoding -> nat)
    requires a < 5 && t == [Rung(a)] + rest && 1 <= |rest| <= 5 - a && !Fits(length(Rung(a)))
    requires forall i :: 0 <= i < |rest| ==> rest[i] == Rung(a + 1 + i)
    requires forall i :: 0 <= i < |rest| - 1 ==> !Fits(length(rest[i]))
    ensures forall i :: 0 <= i < |t| ==> t[i] == Rung(a + i)
    ensures forall i :: 0 <= i < |t| - 1 ==> !Fits(length(t[i]))
    ensures t[|t| - 1] == rest[|rest| - 1]
  {
    forall i | 0 <= i < |t|
      ensures t[i] == Rung(a + i)
    {
      if i > 0 {
        assert t[i] == rest[i - 1];
        assert a + 1 + (i - 1) == a + i;
      }
    }
    forall i | 0 <= i < |t| - 1
      ensures !Fits(length(t[i]))
    {
      if i > 0 {
        assert t[i] == rest[i - 1];
      }
    }
  }

  /** The ladder from rung `a` on: the shape of the whole walk, and what it saves. */
  lemma {:induction false} LadderFrom(a: nat, length: Encoding -> nat)
    requires a <= 5
    ensures var r := LadderAt(a, length);
      1 <= |r.tried| <= 6 - a
      && (forall i :: 0 <= i < |r.tried| ==> r.tried[i] == Rung(a + i))
      && (forall i :: 0 <= i < |r.tried| - 1 ==> !Fits(length(r.tried[i])))
      && (Fits(length(r.tried[|r.tried| - 1])) ==>
            r.saved == Encoded(r.tried[|r.tried| - 1]) && r.wasCompressed == (a + |r.tried| > 1))
      && (!Fits(length(r.tried[|r.tried| - 1])) ==>
            a + |r.tried| == 6 && r.saved == Original && r.wasCompressed)
    decreases 5 - a
  {
    if !Fits(length(Rung(a))) && a < 5 {
      LadderFrom(a + 1, length);
      LadderStep(a, length);
      ConsRung(a, LadderAt(a, length).tried, LadderAt(a + 1, length).tried, length);
    } else {
      LadderStop(a, length);
    }
  }

  /**
   * At most six encodings are tried: PNG at 1.0, then JPEG from 0.9 down to
   * 0.5. All but the last are too large. A fitting last encoding is saved,
   * compressed unless it is the PNG; when even JPEG 0.5 is too large the
   * original upload is saved, flagged as compressed.
   */
  lemma LadderOutcome(length: Encoding -> nat)
    ensures var r := CompressionLadder(length);
      1 <= |r.tried| <= 6
      && r.tried[0] == Encoding(Png, 10)
      && (forall i :: 1 <= i < |r.tried| ==> r.tried[i] == Encoding(Jpeg, 10 - i))
      && (forall i :: 0 <= i < |r.tried| - 1 ==> !Fits(length(r.tried[i])))
      && (Fits(length(r.tried[|r.tried| - 1])) ==>
            r.saved == Encoded(r.tried[|r.tried| - 1]) && r.wasCompressed == (|r.tried| > 1))
      && (!Fits(length(r.tried[|r.tried| - 1])) ==> |r.tried| == 6 && r.saved == Original && r.wasCompressed)
  {
    LadderFrom(0, length);
    assert CompressionLadder(length) == LadderAt(0, length);
  }

  /** A PNG that already fits is saved as is and is not reported as compressed. */
  lemma SmallPngIsKept(length: Encoding -> nat)
    requires Fits(length(Encoding(Png, 10)))
    ensures CompressionLadder(length) == Outcome(Encoded(Encoding(Png, 10)), false, [Encoding(Png, 10)])
  {
  }
}
