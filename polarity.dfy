/** Background polarity detection: count the light pixels of the top scanline and decide,
    by strict majority, whether the background is light and the mask must be inverted. */
module Polarity {
  import opened RasterAccess

  /** A raster whose row 0 can be scanned: well laid out, and holding a row whenever a row
      would have pixels in it. */
  predicate Scannable(r: Raster)
  {
    WellFormed(r) && (r.width > 0 ==> r.height > 0)
  }

  /** The pixels of row 0, left to right, as `getPixelColor(image, x, 0)` reads them. */
  function FirstRow(r: Raster): (row: seq<ARGB>)
    requires Scannable(r)
    ensures |row| == r.width
    ensures forall x :: 0 <= x < r.width ==> row[x] == GetPixelColor(r, x, 0)
  {
    seq(r.width, x requires 0 <= x < r.width && Scannable(r) => GetPixelColor(r, x, 0))
  }

  /** How many pixels of `row` the lightness test accepts. */
  function CountLight(row: seq<ARGB>, isLight: ARGB -> bool): (n: nat)
    ensures n <= |row|
    decreases |row|
  {
    if row == [] then 0
    else CountLight(row[..|row| - 1], isLight) + (if isLight(row[|row| - 1]) then 1 else 0)
  }

  /** The positions of the light pixels of `row`. */
  ghost function LightPositions(row: seq<ARGB>, isLight: ARGB -> bool): set<int>
  {
    set i | 0 <= i < |row| && isLight(row[i])
  }

  /** The count is the number of positions whose pixel is light. */
  lemma {:induction false} CountLightIsCardinality(row: seq<ARGB>, isLight: ARGB -> bool)
    ensures CountLight(row, isLight) == |LightPositions(row, isLight)|
    decreases |row|
  {
    if row != [] {
      var n := |row| - 1;
      var init := row[..n];
      CountLightIsCardinality(init, isLight);
      assert LightPositions(init, isLight) == set i | 0 <= i < n && isLight(row[i]);
      if isLight(row[n]) {
        assert LightPositions(row, isLight) == LightPositions(init, isLight) + {n};
      } else {
        assert LightPositions(row, isLight) == LightPositions(init, isLight);
      }
    }
  }

  /** Every pixel is light exactly when the count reaches the row's length. */
  lemma {:induction false} CountLightFull(row: seq<ARGB>, isLight: ARGB -> bool)
    ensures CountLight(row, isLight) == |row| <==> forall i :: 0 <= i < |row| ==> isLight(row[i])
    decreases |row|
  {
    if row != [] {
      var n := |row| - 1;
      CountLightFull(row[..n], isLight);
      assert forall i :: 0 <= i < n ==> row[..n][i] == row[i];
    }
  }

  /** No pixel is light exactly when the count is zero. */
  lemma {:induction false} CountLightEmpty(row: seq<ARGB>, isLight: ARGB -> bool)
    ensures CountLight(row, isLight) == 0 <==> forall i :: 0 <= i < |row| ==> !isLight(row[i])
    decreases |row|
  {
    if row != [] {
      var n := |row| - 1;
      CountLightEmpty(row[..n], isLight);
      assert forall i :: 0 <= i < n ==> row[..n][i] == row[i];
    }
  }

  /** The decision rule: invert when the light count exceeds half the width, rounded down. */
  function ShouldInvert(lightCount: int, width: nat): (invert: bool)
    ensures invert <==> 2 * lightCount > width
  {
    lightCount > width / 2
  }

  /** The rule is a strict majority: the light pixels outnumber all the others. */
  lemma ShouldInvertIsStrictMajority(lightCount: int, width: nat)
    ensures ShouldInvert(lightCount, width) <==> lightCount > width - lightCount
  {
  }

  /** A tie on an even width is not a majority, and one pixel past half the width is. */
  lemma ShouldInvertBoundary(width: nat)
    ensures !ShouldInvert(width / 2, width)
    ensures ShouldInvert(width / 2 + 1, width)
    ensures ShouldInvert((width + 1) / 2 + 1, width)
  {
  }

  /** The polarity flag: true when row 0 of `r` is mostly light. */
  function IsLightBackground(r: Raster, isLight: ARGB -> bool): (light: bool)
    requires Scannable(r)
    ensures light <==> 2 * |LightPositions(FirstRow(r), isLight)| > r.width
  {
    CountLightIsCardinality(FirstRow(r), isLight);
    ShouldInvert(CountLight(FirstRow(r), isLight), r.width)
  }

  /** The scan of lines 99-113: count the light pixels of row 0, then set `shouldInvert`
      exactly when that count exceeds `width / 2`. */
  method DetectPolarity(r: Raster, isLight: ARGB -> bool) returns (lightBackgroundCount: nat, shouldInvert: bool)
    requires Scannable(r)
    ensures lightBackgroundCount <= r.width
    ensures lightBackgroundCount == |LightPositions(FirstRow(r), isLight)|
    ensures shouldInvert <==> lightBackgroundCount > r.width / 2
    ensures shouldInvert == IsLightBackground(r, isLight)
  {
    ghost var row := FirstRow(r);
    lightBackgroundCount := 0;
    for x := 0 to r.width
      invariant lightBackgroundCount <= x
      invariant lightBackgroundCount == CountLight(row[..x], isLight)
    {
      var color := GetPixelColor(r, x, 0);
      assert row[..x + 1][..x] == row[..x] && row[..x + 1][x] == color;
      if isLight(color) {
        lightBackgroundCount := lightBackgroundCount + 1;
      }
    }
    assert row[..r.width] == row;
    CountLightIsCardinality(row, isLight);
    shouldInvert := false;
    if lightBackgroundCount > r.width / 2 {
      shouldInvert := true;
    }
  }

  /** A raster with no columns reads nothing and reports a dark background. */
  lemma ZeroWidthIsDark(r: Raster, isLight: ARGB -> bool)
    requires Scannable(r) && r.width == 0
    ensures !IsLightBackground(r, isLight)
  {
  }

  /** A uniformly light top row gives a light background, a uniformly dark one a dark one. */
  lemma UniformFirstRow(r: Raster, isLight: ARGB -> bool)
    requires Scannable(r)
    ensures r.width > 0 && (forall x :: 0 <= x < r.width ==> isLight(GetPixelColor(r, x, 0)))
            ==> IsLightBackground(r, isLight)
    ensures (forall x :: 0 <= x < r.width ==> !isLight(GetPixelColor(r, x, 0)))
            ==> !IsLightBackground(r, isLight)
  {
    CountLightFull(FirstRow(r), isLight);
    CountLightEmpty(FirstRow(r), isLight);
  }

  /** Only row 0 is consulted: rasters of equal width whose top rows hold the same pixels
      get the same flag. */
  lemma PolarityDependsOnlyOnFirstRow(r1: Raster, r2: Raster, isLight: ARGB -> bool)
    requires Scannable(r1) && Scannable(r2) && r1.width == r2.width
    requires forall x :: 0 <= x < r1.width ==> GetPixelColor(r1, x, 0) == GetPixelColor(r2, x, 0)
    ensures IsLightBackground(r1, isLight) == IsLightBackground(r2, isLight)
  {
    assert FirstRow(r1) == FirstRow(r2);
  }

  /** Byte-level form: with the same layout, bytes outside the first `bytesPerRow` bytes of
      the buffer do not affect the flag. */
  lemma PolarityIgnoresBytesAfterFirstRow(r1: Raster, r2: Raster, isLight: ARGB -> bool)
    requires Scannable(r1) && Scannable(r2)
    requires r1.width == r2.width
    requires r1.bytesPerRow == r2.bytesPerRow && r1.bitsPerPixel == r2.bitsPerPixel
    requires forall i :: 0 <= i < r1.bytesPerRow && i < |r1.data| && i < |r2.data| ==> r1.data[i] == r2.data[i]
    ensures IsLightBackground(r1, isLight) == IsLightBackground(r2, isLight)
  {
    forall x | 0 <= x < r1.width
      ensures GetPixelColor(r1, x, 0) == GetPixelColor(r2, x, 0)
    {
      PixelWindowInBounds(r1, x, 0);
      GetPixelColorReadsOnlyItsWindow(r1, r2, x, 0);
    }
    PolarityDependsOnlyOnFirstRow(r1, r2, isLight);
  }
}
