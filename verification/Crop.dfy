/** The crop of a custom thumbnail, over exact reals and positive ratios. */
module Crop {
  import opened Wrappers

  datatype Request = Request(width: int, maxWidth: int, height: int, maxHeight: int)

  function Min(a: int, b: int): int {
    if a <= b then a else b
  }

  // original is the decoded size of the image, or None when it cannot be decoded.
  function ComputeWidth(t: Request, original: Option<(int, int)>): int {
    if original.None? then 0
    else if t.maxWidth > 0 then Min(original.value.0, t.maxWidth)
    else t.width
  }

  function ComputeHeight(t: Request, original: Option<(int, int)>): int {
    if original.None? then 0
    else if t.maxHeight > 0 then Min(original.value.1, t.maxHeight)
    else t.height
  }

  function Ceil(x: real): int {
    -((-x).Floor)
  }

  // The crop for a ratio wRatio:hRatio, as (width, height).
  function ComputeCrop(t: Request, original: Option<(int, int)>, wRatio: real, hRatio: real): (int, int)
    requires wRatio > 0.0 && hRatio > 0.0
  {
    var width, height := ComputeWidth(t, original), ComputeHeight(t, original);
    if wRatio >= hRatio then (Stretch(height, wRatio / hRatio), Stretch(height, 1.0))
    else (Stretch(width, 1.0), Stretch(width, hRatio / wRatio))
  }

  function Stretch(side: int, ratio: real): int {
    Ceil(side as real * ratio)
  }

  lemma CeilIsLeast(x: real, c: int)
    ensures c as real >= x <==> c >= Ceil(x)
  {
    var f := (-x).Floor;
    assert f as real <= -x < f as real + 1.0;
    if c >= Ceil(x) {
      assert c as real >= (-f) as real;
    } else {
      assert c as real <= (-f - 1) as real;
    }
  }

  lemma Cross(c: real, n: real, a: real, b: real)
    requires b > 0.0
    ensures c >= n * (a / b) <==> c * b >= n * a
  {
    var q := a / b;
    assert q * b == a;
    assert (n * q) * b == n * a;
    if c >= n * q {
      assert (c - n * q) * b >= 0.0;
    } else {
      assert (n * q - c) * b > 0.0;
    }
  }

  lemma StretchIsLeast(side: int, a: real, b: real, c: int)
    requires b > 0.0
    ensures c >= Stretch(side, a / b) <==> c as real * b >= side as real * a
  {
    CeilIsLeast(side as real * (a / b), c);
    Cross(c as real, side as real, a, b);
  }

  lemma StretchGrows(side: int, a: real, b: real)
    requires a >= b > 0.0
    ensures Stretch(side, a / b) >= side <==> side as real * (a - b) > -b
    ensures side >= 0 ==> side as real * (a - b) > -b
  {
    StretchIsLeast(side, a, b, side - 1);
    assert (side - 1) as real * b == side as real * b - b;
    assert side as real * (a - b) == side as real * a - side as real * b;
    if side >= 0 {
      assert side as real * (a - b) >= 0.0;
    }
  }

  // The shorter side of the crop is the clamped dimension itself, and the other side is the
  // least integer that meets the ratio: wider shapes are fixed by the height, taller ones by
  // the width.
  lemma CropMeetsRatioTightly(t: Request, original: Option<(int, int)>, wRatio: real, hRatio: real, c: int)
    requires wRatio > 0.0 && hRatio > 0.0
    ensures var (cropWidth, cropHeight) := ComputeCrop(t, original, wRatio, hRatio);
            var height := if original.None? then 0
                          else if t.maxHeight <= 0 then t.height
                          else if original.value.1 <= t.maxHeight then original.value.1 else t.maxHeight;
            var width := if original.None? then 0
                         else if t.maxWidth <= 0 then t.width
                         else if original.value.0 <= t.maxWidth then original.value.0 else t.maxWidth;
            if wRatio >= hRatio then
              && cropHeight == height
              && (c >= cropWidth <==> c as real * hRatio >= height as real * wRatio)
            else
              && cropWidth == width
              && (c >= cropHeight <==> c as real * wRatio >= width as real * hRatio)
  {
    hide Stretch;
    var width, height := ComputeWidth(t, original), ComputeHeight(t, original);
    CropSides(t, original, wRatio, hRatio);
    if wRatio >= hRatio {
      StretchIsLeast(height, wRatio, hRatio, c);
    } else {
      StretchIsLeast(width, hRatio, wRatio, c);
    }
    hide ComputeCrop;
  }

  lemma CropSides(t: Request, original: Option<(int, int)>, wRatio: real, hRatio: real)
    requires wRatio > 0.0 && hRatio > 0.0
    ensures var width, height := ComputeWidth(t, original), ComputeHeight(t, original);
            ComputeCrop(t, original, wRatio, hRatio) ==
            if wRatio >= hRatio then (Stretch(height, wRatio / hRatio), height)
            else (width, Stretch(width, hRatio / wRatio))
  {
    CeilOfInt(ComputeWidth(t, original));
    CeilOfInt(ComputeHeight(t, original));
    hide Stretch;
  }

  lemma CeilOfInt(n: int)
    ensures Stretch(n, 1.0) == n
  {
    assert (n as real * 1.0) == n as real;
    CeilIsLeast(n as real, n);
    CeilIsLeast(n as real, n - 1);
  }

  // A ratio at least as wide as high gives a crop at least as wide as high, and the other way
  // round, exactly when the side that fixes the crop is not too far below zero; it never is
  // when it is not negative.
  lemma CropKeepsOrientation(t: Request, original: Option<(int, int)>, wRatio: real, hRatio: real)
    requires wRatio > 0.0 && hRatio > 0.0
    ensures var (cropWidth, cropHeight) := ComputeCrop(t, original, wRatio, hRatio);
            var height, width := ComputeHeight(t, original), ComputeWidth(t, original);
            if wRatio >= hRatio then
              && (cropWidth >= cropHeight <==> height as real * (wRatio - hRatio) > -hRatio)
              && (height >= 0 ==> cropWidth >= cropHeight)
            else
              && (cropHeight >= cropWidth <==> width as real * (hRatio - wRatio) > -wRatio)
              && (width >= 0 ==> cropHeight >= cropWidth)
  {
    var width, height := ComputeWidth(t, original), ComputeHeight(t, original);
    CeilOfInt(width);
    CeilOfInt(height);
    if wRatio >= hRatio {
      StretchGrows(height, wRatio, hRatio);
    } else {
      StretchGrows(width, hRatio, wRatio);
    }
  }

  // Only the ratio matters: 2:1, 4:2 and 1:0.5 crop alike.
  lemma CropDependsOnRatioOnly(t: Request, original: Option<(int, int)>, wRatio: real, hRatio: real, k: real)
    requires wRatio > 0.0 && hRatio > 0.0 && k > 0.0
    ensures k * wRatio > 0.0 && k * hRatio > 0.0
    ensures ComputeCrop(t, original, k * wRatio, k * hRatio) == ComputeCrop(t, original, wRatio, hRatio)
  {
    Scale(k, wRatio, hRatio);
    Scale(k, hRatio, wRatio);
    SameOrder(k, wRatio, hRatio);
  }

  lemma SameOrder(k: real, a: real, b: real)
    requires k > 0.0
    ensures k * a >= k * b <==> a >= b
  {
    assert k * a - k * b == k * (a - b);
    if a >= b {
      assert k * (a - b) >= 0.0;
    } else {
      assert k * (b - a) > 0.0;
    }
  }

  lemma Scale(k: real, a: real, b: real)
    requires k > 0.0 && b > 0.0
    ensures k * b > 0.0 && (k * a) / (k * b) == a / b
  {
    var q := a / b;
    assert q * b == a;
    assert q * (k * b) == k * a;
  }
}
