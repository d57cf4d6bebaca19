/** The output buffer: Go's `image.NRGBA`, as far as the traversal engine uses it.
    Its storage is a 2-D array of colours, cell (i, j) holding the point
    (Min.X + i, Min.Y + j) of the rectangle it was allocated for; `Rect` is a
    field the engine overwrites after the traversal, the storage never changes
    size. */
module Buffer {
  import opened Geometry
  import opened Pixels

  class NRGBAImage {
    var Rect: Rectangle
    const Pix: array2<NRGBA>

    /** `Rect` lies within the allocated storage, so every point it contains has a cell. */
    predicate Addressable()
      reads this
    {
      Rect.WellFormed() && Rect.Dx() <= Pix.Length0 && Rect.Dy() <= Pix.Length1
    }

    /** The point that cell (i, j) of the storage holds. */
    function PointOf(i: int, j: int): Point
      reads this
    {
      Point(Rect.Min.X + i, Rect.Min.Y + j)
    }

    /** `image.NewNRGBA(r)`: storage for exactly `r`, every pixel the zero colour. */
    constructor (r: Bounds)
      ensures Rect == r && Addressable()
      ensures fresh(Pix) && Pix.Length0 == r.Dx() && Pix.Length1 == r.Dy()
      ensures forall i, j :: 0 <= i < Pix.Length0 && 0 <= j < Pix.Length1 ==> Pix[i, j] == Transparent
    {
      Rect := r;
      Pix := new NRGBA[r.Dx(), r.Dy()]((i, j) => Transparent);
    }

    /** `SetNRGBA(x, y, c)`. That a point outside `Rect` is ignored is the
        behaviour of Go's `image` package, not of the program that calls it. */
    method SetNRGBA(x: int, y: int, c: NRGBA)
      requires Addressable()
      modifies Pix
      ensures forall i, j :: 0 <= i < Pix.Length0 && 0 <= j < Pix.Length1 ==>
        Pix[i, j] == if Rect.Contains(Point(x, y)) && PointOf(i, j) == Point(x, y) then c else old(Pix[i, j])
    {
      if Rect.Contains(Point(x, y)) {
        Pix[x - Rect.Min.X, y - Rect.Min.Y] := c;
      }
    }
  }
}
