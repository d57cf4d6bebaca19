/** The `Pixel` record handed to the caller's transform, and the 8-bit
    non-premultiplied colour it carries. */
module Pixels {
  import opened Geometry

  /** Go's `uint8`. */
  type uint8 = x: int | 0 <= x < 256

  /** `color.NRGBA`: red, green, blue and a straight (non-premultiplied) alpha. */
  datatype NRGBA = NRGBA(R: uint8, G: uint8, B: uint8, A: uint8)

  /** The zero `color.NRGBA`, which a freshly allocated image holds everywhere. */
  const Transparent := NRGBA(0, 0, 0, 0)

  /** The contents of a `Pixel` at one instant. */
  datatype PixelValue = PixelValue(ImageW: int, ImageH: int, X: int, Y: int,
                                   R: uint8, G: uint8, B: uint8, A: uint8)
  {
    function Color(): NRGBA { NRGBA(R, G, B, A) }
    function Position(): Point { Point(X, Y) }
  }

  /** The caller's `change func(p *Pixel)`, given by its net effect: the value the
      record holds after the call, as a function of the value it held before. */
  type Transform = PixelValue -> PixelValue

  /** A `Pixel` reached through a pointer, as the methods and the callback see it. */
  class Pixel {
    var ImageW: int
    var ImageH: int
    var X: int
    var Y: int
    var R: uint8
    var G: uint8
    var B: uint8
    var A: uint8

    function Value(): PixelValue
      reads this
    {
      PixelValue(ImageW, ImageH, X, Y, R, G, B, A)
    }

    /** A composite literal `Pixel{...}`. */
    constructor (v: PixelValue)
      ensures Value() == v
    {
      ImageW, ImageH := v.ImageW, v.ImageH;
      X, Y := v.X, v.Y;
      R, G, B, A := v.R, v.G, v.B, v.A;
    }

    /** Sets the colour to opaque (r, g, b); everything else stays. */
    method SetRGB(r: uint8, g: uint8, b: uint8)
      modifies this
      ensures R == r && G == g && B == b && A == 255
      ensures ImageW == old(ImageW) && ImageH == old(ImageH)
      ensures X == old(X) && Y == old(Y)
    {
      SetRGBA(r, g, b, 255);
    }

    /** Sets exactly the four colour channels; size and position stay. */
    method SetRGBA(r: uint8, g: uint8, b: uint8, a: uint8)
      modifies this
      ensures R == r && G == g && B == b && A == a
      ensures ImageW == old(ImageW) && ImageH == old(ImageH)
      ensures X == old(X) && Y == old(Y)
    {
      R, G, B, A := r, g, b, a;
    }

    /** `change(&p)`: the callback may rewrite every field of the record. */
    method Apply(change: Transform)
      modifies this
      ensures Value() == change(old(Value()))
    {
      var v := change(Value());
      ImageW, ImageH := v.ImageW, v.ImageH;
      X, Y := v.X, v.Y;
      R, G, B, A := v.R, v.G, v.B, v.A;
    }
  }
}
