/** Points and rectangles of Go's `image` package, and the column-major order in
    which the traversal engine visits the points of a rectangle. */
module Geometry {

  datatype Point = Point(X: int, Y: int)

  /** `image.Rectangle`: the half-open region [Min.X, Max.X) x [Min.Y, Max.Y). */
  datatype Rectangle = Rectangle(Min: Point, Max: Point) {
    function Dx(): int { Max.X - Min.X }
    function Dy(): int { Max.Y - Min.Y }

    /** `p.In(r)` */
    predicate Contains(p: Point) {
      Min.X <= p.X < Max.X && Min.Y <= p.Y < Max.Y
    }

    predicate WellFormed() { Min.X <= Max.X && Min.Y <= Max.Y }
  }

  /** The bounds of a decoded image: decoders always report Min <= Max. */
  type Bounds = r: Rectangle | r.WellFormed() witness Rectangle(Point(0, 0), Point(0, 0))

  /** The points of column `x`, rows `y0` up to (excluding) `y1`: the inner loop. */
  function Column(x: int, y0: int, y1: int): seq<Point>
    decreases y1 - y0
  {
    if y0 >= y1 then [] else [Point(x, y0)] + Column(x, y0 + 1, y1)
  }

  /** Columns `x0` up to (excluding) `x1`, one after the other: the outer loop. */
  function Columns(x0: int, x1: int, y0: int, y1: int): seq<Point>
    decreases x1 - x0
  {
    if x0 >= x1 then [] else Column(x0, y0, y1) + Columns(x0 + 1, x1, y0, y1)
  }

  /** The order in which the nested loops `for x ... { for y ... } }` visit `b`. */
  function Order(b: Bounds): seq<Point> {
    Columns(b.Min.X, b.Max.X, b.Min.Y, b.Max.Y)
  }

  /** The position of `p` in a column-major enumeration of `b`:
      (p.X - Min.X) * Dy + (p.Y - Min.Y), see `MulIsProduct`. */
  function Index(b: Bounds, p: Point): int
    requires b.Contains(p)
  {
    Mul(p.X - b.Min.X, b.Dy()) + (p.Y - b.Min.Y)
  }

  predicate Distinct(s: seq<Point>) {
    forall i, j :: 0 <= i < j < |s| ==> s[i] != s[j]
  }

  lemma {:induction false} ColumnAt(x: int, y0: int, y1: int)
    requires y0 <= y1
    ensures |Column(x, y0, y1)| == y1 - y0
    ensures forall k :: 0 <= k < y1 - y0 ==> Column(x, y0, y1)[k] == Point(x, y0 + k)
    decreases y1 - y0
  {
    if y0 < y1 {
      ColumnAt(x, y0 + 1, y1);
    }
  }

  /** `n * h` by repeated addition, so that the induction below stays linear. */
  function Mul(n: nat, h: int): (r: int)
    ensures h >= 0 ==> r >= 0
  {
    if n == 0 then 0 else h + Mul(n - 1, h)
  }

  lemma {:induction false} MulIsProduct(n: nat, h: int)
    ensures Mul(n, h) == n * h
  {
    if n > 0 {
      MulIsProduct(n - 1, h);
      assert n * h == h + (n - 1) * h;
    }
  }

  lemma {:induction false} ColumnsLength(x0: int, x1: int, y0: int, y1: int)
    requires x0 <= x1 && y0 <= y1
    ensures |Columns(x0, x1, y0, y1)| == Mul(x1 - x0, y1 - y0)
    decreases x1 - x0
  {
    if x0 < x1 {
      ColumnAt(x0, y0, y1);
      ColumnsLength(x0 + 1, x1, y0, y1);
    }
  }

  /** The columns before `x`, then those from `x` on. */
  lemma {:induction false} ColumnsSplit(x0: int, x: int, x1: int, y0: int, y1: int)
    requires x0 <= x <= x1
    ensures Columns(x0, x1, y0, y1) == Columns(x0, x, y0, y1) + Columns(x, x1, y0, y1)
    decreases x - x0
  {
    if x0 < x {
      ColumnsSplit(x0 + 1, x, x1, y0, y1);
      assert Columns(x0, x1, y0, y1)
          == Column(x0, y0, y1) + (Columns(x0 + 1, x, y0, y1) + Columns(x, x1, y0, y1));
    }
  }

  /** The point (x, y) sits at position (x - x0) * height + (y - y0). */
  lemma ColumnsAt(x0: int, x1: int, y0: int, y1: int, x: int, y: int)
    requires x0 <= x < x1 && y0 <= y < y1
    ensures Mul(x - x0, y1 - y0) + (y - y0) < |Columns(x0, x1, y0, y1)|
    ensures Columns(x0, x1, y0, y1)[Mul(x - x0, y1 - y0) + (y - y0)] == Point(x, y)
  {
    var before, column, after := Columns(x0, x, y0, y1), Column(x, y0, y1), Columns(x + 1, x1, y0, y1);
    ColumnsSplit(x0, x, x1, y0, y1);
    ColumnsLength(x0, x, y0, y1);
    ColumnAt(x, y0, y1);
    assert Columns(x, x1, y0, y1) == column + after;
    assert (before + (column + after))[|before| + (y - y0)] == column[y - y0];
  }

  /** One more step of the inner loop appends one point to the column. */
  lemma {:induction false} ColumnSnoc(x: int, y0: int, y: int)
    requires y0 <= y
    ensures Column(x, y0, y + 1) == Column(x, y0, y) + [Point(x, y)]
    decreases y - y0
  {
    if y0 < y {
      ColumnSnoc(x, y0 + 1, y);
    }
  }

  /** One more step of the outer loop appends one column. */
  lemma {:induction false} ColumnsSnoc(x0: int, x: int, y0: int, y1: int)
    requires x0 <= x
    ensures Columns(x0, x + 1, y0, y1) == Columns(x0, x, y0, y1) + Column(x, y0, y1)
    decreases x - x0
  {
    if x0 < x {
      ColumnsSnoc(x0 + 1, x, y0, y1);
    }
  }

  /** Exactly the points of the rectangle occur in the enumeration, each once. */
  lemma {:induction false} ColumnsMembers(x0: int, x1: int, y0: int, y1: int)
    requires y0 <= y1
    ensures forall p :: p in Columns(x0, x1, y0, y1) <==> x0 <= p.X < x1 && y0 <= p.Y < y1
    ensures Distinct(Columns(x0, x1, y0, y1))
    decreases x1 - x0
  {
    if x0 < x1 {
      var c, rest := Column(x0, y0, y1), Columns(x0 + 1, x1, y0, y1);
      ColumnAt(x0, y0, y1);
      ColumnsMembers(x0 + 1, x1, y0, y1);
      assert Columns(x0, x1, y0, y1) == c + rest;
      forall p ensures p in c <==> p.X == x0 && y0 <= p.Y < y1 {
        if p.X == x0 && y0 <= p.Y < y1 {
          assert c[p.Y - y0] == p;
        }
      }
      forall i, j | 0 <= i < j < |c + rest| ensures (c + rest)[i] != (c + rest)[j] {
        if j < |c| {
          assert c[i].Y < c[j].Y;
        } else if i < |c| {
          assert c[i].X == x0 && rest[j - |c|] in rest;
        }
      }
    }
  }

  lemma OrderLength(b: Bounds)
    ensures |Order(b)| == b.Dx() * b.Dy()
  {
    ColumnsLength(b.Min.X, b.Max.X, b.Min.Y, b.Max.Y);
    MulIsProduct(b.Dx(), b.Dy());
  }

  /** Column-major: `p` is visited at position `Index(b, p)`. */
  lemma OrderAt(b: Bounds, p: Point)
    requires b.Contains(p)
    ensures 0 <= Index(b, p) < |Order(b)|
    ensures Order(b)[Index(b, p)] == p
  {
    ColumnsAt(b.Min.X, b.Max.X, b.Min.Y, b.Max.Y, p.X, p.Y);
  }

  /** Every point of `b`, and nothing else, is visited, and none twice. */
  lemma OrderCovers(b: Bounds)
    ensures forall p :: p in Order(b) <==> b.Contains(p)
    ensures Distinct(Order(b))
  {
    ColumnsMembers(b.Min.X, b.Max.X, b.Min.Y, b.Max.Y);
  }

  /** The last point visited is the bottom-right corner (Max.X - 1, Max.Y - 1). */
  lemma OrderLast(b: Bounds)
    requires b.Dx() > 0 && b.Dy() > 0
    ensures |Order(b)| > 0
    ensures Order(b)[|Order(b)| - 1] == Point(b.Max.X - 1, b.Max.Y - 1)
  {
    var corner := Point(b.Max.X - 1, b.Max.Y - 1);
    OrderAt(b, corner);
    OrderLength(b);
    MulIsProduct(b.Dx(), b.Dy());
    assert Mul(b.Dx(), b.Dy()) == b.Dy() + Mul(b.Dx() - 1, b.Dy());
  }
}
