/**
 * Pixel, line, box and flood-fill writes on a two-dimensional image
 * (pastel/gfx/drawing.hpp). The image is an `array2`: image[x, y] is the
 * pixel at column x of row y, the width is Length0 and the height Length1.
 * A colour mixer combines the old pixel with the drawn colour.
 */
module Drawing {

  type Point = (int, int)

  /** Whether (x, y) lies inside a width-by-height image. */
  predicate Inside(width: int, height: int, x: int, y: int)
  {
    0 <= x < width && 0 <= y < height
  }

  /** drawPixel: writes mix(old, color) at (x, y) when (x, y) is inside
      the image and leaves the image unchanged otherwise. */
  method DrawPixel<C>(x: int, y: int, color: C, image: array2<C>, mix: (C, C) -> C)
    modifies image
    ensures forall i, j :: 0 <= i < image.Length0 && 0 <= j < image.Length1 ==>
      image[i, j] == if i == x && j == y then mix(old(image[i, j]), color) else old(image[i, j])
  {
    if x < 0 || y < 0 || x >= image.Length0 || y >= image.Length1 {
      return;
    }
    image[x, y] := mix(image[x, y], color);
  }

  /** The inner loop shared by the line and box writers: mixes the colour
      into pixels xMin <= x < xMax of row y, which lie inside the image. */
  method MixSpan<C>(xMin: int, xMax: int, y: int, color: C, image: array2<C>, mix: (C, C) -> C)
    requires 0 <= xMin <= xMax <= image.Length0 && 0 <= y < image.Length1
    modifies image
    ensures forall i, j :: 0 <= i < image.Length0 && 0 <= j < image.Length1 ==>
      image[i, j] == if j == y && xMin <= i < xMax then mix(old(image[i, j]), color) else old(image[i, j])
  {
    var x := xMin;
    while x < xMax
      invariant xMin <= x <= xMax
      invariant forall i, j :: 0 <= i < image.Length0 && 0 <= j < image.Length1 ==>
        image[i, j] == if j == y && xMin <= i < x then mix(old(image[i, j]), color) else old(image[i, j])
    {
      image[x, y] := mix(image[x, y], color);
      x := x + 1;
    }
  }

  /** drawHorizontalLine on the span xMin <= x < xMax of row y, the span
      being already converted to pixel coordinates: the row is culled when
      outside the image, the span clipped to it. */
  method DrawHorizontalLine<C>(xMin: int, y: int, xMax: int, color: C, image: array2<C>, mix: (C, C) -> C)
    modifies image
    ensures forall i, j :: 0 <= i < image.Length0 && 0 <= j < image.Length1 ==>
      image[i, j] == if j == y && xMin <= i < xMax then mix(old(image[i, j]), color) else old(image[i, j])
  {
    if y < 0 || y >= image.Length1 {
      return;
    }
    var xBegin, xEnd := xMin, xMax;
    if xBegin >= image.Length0 || xEnd <= 0 {
      return;
    }
    if xBegin < 0 {
      xBegin := 0;
    }
    if xEnd > image.Length0 {
      xEnd := image.Length0;
    }
    if xBegin < xEnd {
      MixSpan(xBegin, xEnd, y, color, image, mix);
    }
  }

  /** drawVerticalLine on the span yMin <= y < yMax of column x: the
      column is culled when x lies outside [0, width), and the pixel column
      is x with its fraction dropped; the span is clipped to the image. */
  method DrawVerticalLine<C>(x: real, yMin: int, yMax: int, color: C, image: array2<C>, mix: (C, C) -> C)
    modifies image
    ensures forall i, j :: 0 <= i < image.Length0 && 0 <= j < image.Length1 ==>
      image[i, j] == if i == x.Floor && yMin <= j < yMax then mix(old(image[i, j]), color)
                     else old(image[i, j])
  {
    if x < 0.0 || x >= image.Length0 as real {
      assert x.Floor < 0 || x.Floor >= image.Length0;
      return;
    }
    var column := x.Floor;
    var yBegin, yEnd := yMin, yMax;
    if yBegin >= image.Length1 || yEnd <= 0 {
      return;
    }
    if yBegin < 0 {
      yBegin := 0;
    }
    if yEnd > image.Length1 {
      yEnd := image.Length1;
    }
    var y := yBegin;
    while y < yEnd
      invariant yBegin <= y <= if yBegin <= yEnd then yEnd else yBegin
      invariant forall i, j :: 0 <= i < image.Length0 && 0 <= j < image.Length1 ==>
        image[i, j] == if i == column && yBegin <= j < y then mix(old(image[i, j]), color) else old(image[i, j])
    {
      image[column, y] := mix(image[column, y], color);
      y := y + 1;
    }
  }

  /** drawBox on the box [xMin, xMax) x [yMin, yMax), already converted to
      pixel coordinates: the box is intersected with the image rectangle
      and every pixel of the intersection is written once. */
  method DrawBox<C>(xMin: int, yMin: int, xMax: int, yMax: int, color: C, image: array2<C>, mix: (C, C) -> C)
    modifies image
    ensures forall i, j :: 0 <= i < image.Length0 && 0 <= j < image.Length1 ==>
      image[i, j] == if xMin <= i < xMax && yMin <= j < yMax then mix(old(image[i, j]), color)
                     else old(image[i, j])
  {
    var x0 := if xMin < 0 then 0 else xMin;
    var y0 := if yMin < 0 then 0 else yMin;
    var x1 := if xMax > image.Length0 then image.Length0 else xMax;
    var y1 := if yMax > image.Length1 then image.Length1 else yMax;
    if x1 <= x0 || y1 <= y0 {
      return;
    }
    var width := x1 - x0;
    var height := y1 - y0;
    for y := 0 to height
      invariant forall i, j :: 0 <= i < image.Length0 && 0 <= j < image.Length1 ==>
        image[i, j] == if x0 <= i < x1 && y0 <= j < y0 + y then mix(old(image[i, j]), color) else old(image[i, j])
    {
      MixSpan(x0, x0 + width, y0 + y, color, image, mix);
    }
  }
}
