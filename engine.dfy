/** The traversal and write-back engine of `Run`: every point of the source
    bounds, column by column, is handed to the caller's transform as a fresh
    `Pixel`, the transformed colour is written back at the transformed position,
    and the size reported by the last pixel visited crops the output. */
module Engine {
  import opened Geometry
  import opened Pixels
  import opened Buffer

  /** The decoded image's `At`, followed by `color.NRGBAModel.Convert`. */
  type Source = Point -> NRGBA

  /** The `Pixel` built for point `p`: the source size, the point and its colour. */
  function FreshPixel(b: Bounds, src: Source, p: Point): (v: PixelValue)
    ensures v.ImageW == b.Dx() && v.ImageH == b.Dy()
    ensures v.Position() == p && v.Color() == src(p)
  {
    PixelValue(b.Dx(), b.Dy(), p.X, p.Y, src(p).R, src(p).G, src(p).B, src(p).A)
  }

  /** The fresh pixels for the points `pts`, in order. */
  function FreshPixels(b: Bounds, src: Source, pts: seq<Point>): seq<PixelValue> {
    seq(|pts|, k requires 0 <= k < |pts| => FreshPixel(b, src, pts[k]))
  }

  /** Handing over one more point appends exactly its fresh pixel. */
  lemma FreshPixelsSnoc(b: Bounds, src: Source, pts: seq<Point>, p: Point)
    ensures FreshPixels(b, src, pts + [p]) == FreshPixels(b, src, pts) + [FreshPixel(b, src, p)]
  {
  }

  /** What the transform is handed, call by call. */
  function Handed(b: Bounds, src: Source): seq<PixelValue> {
    FreshPixels(b, src, Order(b))
  }

  /** What the transform leaves in the record, call by call. */
  function Results(change: Transform, handed: seq<PixelValue>): seq<PixelValue> {
    seq(|handed|, k requires 0 <= k < |handed| => change(handed[k]))
  }

  /** One more call of the transform appends exactly its result. */
  lemma ResultsSnoc(change: Transform, handed: seq<PixelValue>, v: PixelValue)
    ensures Results(change, handed + [v]) == Results(change, handed) + [change(v)]
  {
  }

  /** The colour of in-bounds point `p` after the write-backs `writes`, in order:
      the last one aimed at `p` wins, and none leaves the zero colour. */
  function CellAfter(writes: seq<PixelValue>, p: Point): NRGBA {
    if writes == [] then Transparent
    else if writes[|writes| - 1].Position() == p then writes[|writes| - 1].Color()
    else CellAfter(writes[..|writes| - 1], p)
  }

  /** Last write wins: with no write aimed at `p` its cell keeps the zero colour;
      otherwise it holds the colour of a write aimed at `p` after which no other
      write is aimed at `p`. */
  lemma {:induction false} CellAfterIsLastWrite(writes: seq<PixelValue>, p: Point)
    ensures (forall k :: 0 <= k < |writes| ==> writes[k].Position() != p) ==> CellAfter(writes, p) == Transparent
    ensures (exists k :: 0 <= k < |writes| && writes[k].Position() == p) ==>
      exists k :: 0 <= k < |writes| && writes[k].Position() == p && writes[k].Color() == CellAfter(writes, p) &&
        forall j :: k < j < |writes| ==> writes[j].Position() != p
  {
    if writes != [] {
      var n := |writes| - 1;
      var init := writes[..n];
      CellAfterIsLastWrite(init, p);
      if writes[n].Position() == p {
        assert writes[n].Color() == CellAfter(writes, p);
      } else {
        assert CellAfter(writes, p) == CellAfter(init, p);
        if exists k :: 0 <= k < |writes| && writes[k].Position() == p {
          var k :| 0 <= k < |writes| && writes[k].Position() == p;
          assert init[k].Position() == p;
          var k' :| 0 <= k' < |init| && init[k'].Position() == p && init[k'].Color() == CellAfter(init, p) &&
            forall j :: k' < j < |init| ==> init[j].Position() != p;
          assert writes[k'] == init[k'];
          assert forall j :: k' < j < |writes| ==> writes[j].Position() != p by {
            forall j | k' < j < |writes| ensures writes[j].Position() != p {
              if j < n { assert writes[j] == init[j]; }
            }
          }
        } else {
          forall k | 0 <= k < |init| ensures init[k].Position() != p {
            assert init[k] == writes[k];
          }
        }
      }
    }
  }

  /** One more write-back changes the cell it is aimed at and no other. */
  lemma CellAfterSnoc(writes: seq<PixelValue>, q: PixelValue)
    ensures forall p :: CellAfter(writes + [q], p) == if q.Position() == p then q.Color() else CellAfter(writes, p)
  {
  }

  /** The tracked `newW, newH`: the source size until a pixel has been visited,
      then whatever the last visited pixel reported. */
  function FinalSize(b: Bounds, results: seq<PixelValue>): (int, int) {
    if results == [] then (b.Dx(), b.Dy())
    else (results[|results| - 1].ImageW, results[|results| - 1].ImageH)
  }

  /** `b` with `Max` moved to `Min + size`. */
  function Cropped(b: Bounds, size: (int, int)): (r: Rectangle)
    ensures r.Min == b.Min && r.Dx() == size.0 && r.Dy() == size.1
  {
    Rectangle(b.Min, Point(b.Min.X + size.0, b.Min.Y + size.1))
  }

  ghost predicate KeepsPosition(change: Transform) {
    forall v :: change(v).Position() == v.Position()
  }

  /** The output storage covers `b` and holds, at every point of `b`, the colour
      that the write-backs `writes` leave there. */
  ghost predicate Holds(out: NRGBAImage, b: Bounds, writes: seq<PixelValue>)
    reads out, out.Pix
  {
    out.Pix.Length0 == b.Dx() && out.Pix.Length1 == b.Dy() &&
    forall i, j :: 0 <= i < b.Dx() && 0 <= j < b.Dy() ==>
      out.Pix[i, j] == CellAfter(writes, Point(b.Min.X + i, b.Min.Y + j))
  }

  /** The body of the inner loop of `Run`: build a fresh `Pixel` for (x, y), hand
      it to the transform, write its colour back where it now points, and report
      the size it now holds. */
  method Visit(out: NRGBAImage, b: Bounds, src: Source, change: Transform, x: int, y: int,
               ghost writes: seq<PixelValue>)
    returns (newW: int, newH: int, ghost handed: PixelValue, ghost result: PixelValue)
    requires out.Rect == b && Holds(out, b, writes)
    modifies out.Pix
    ensures handed == FreshPixel(b, src, Point(x, y)) && result == change(handed)
    ensures (newW, newH) == (result.ImageW, result.ImageH)
    ensures Holds(out, b, writes + [result])
  {
    var c := src(Point(x, y));
    var p := new Pixel(PixelValue(b.Dx(), b.Dy(), x, y, c.R, c.G, c.B, c.A));
    handed := p.Value();
    p.Apply(change);
    result := p.Value();
    c := NRGBA(p.R, p.G, p.B, p.A);
    out.SetNRGBA(p.X, p.Y, c);
    CellAfterSnoc(writes, result);
    forall i, j | 0 <= i < b.Dx() && 0 <= j < b.Dy()
      ensures out.Pix[i, j] == CellAfter(writes + [result], Point(b.Min.X + i, b.Min.Y + j))
    {
      assert out.PointOf(i, j) == Point(b.Min.X + i, b.Min.Y + j);
    }
    newW, newH := p.ImageW, p.ImageH;
  }

  /** The loop of `Run` from the allocation of the output to the crop. */
  method Traverse(b: Bounds, src: Source, change: Transform) returns (out: NRGBAImage, ghost handed: seq<PixelValue>)
    ensures fresh(out) && fresh(out.Pix)
    ensures handed == Handed(b, src)
    ensures Holds(out, b, Results(change, handed))
    ensures out.Rect == Cropped(b, FinalSize(b, Results(change, handed)))
  {
    out := new NRGBAImage(b);
    var newW, newH := b.Dx(), b.Dy();
    ghost var visited: seq<Point> := [];
    ghost var results: seq<PixelValue> := [];
    handed := [];
    var x := b.Min.X;
    while x < b.Max.X
      invariant b.Min.X <= x <= b.Max.X
      invariant visited == Columns(b.Min.X, x, b.Min.Y, b.Max.Y)
      invariant handed == FreshPixels(b, src, visited)
      invariant results == Results(change, handed)
      invariant (newW, newH) == FinalSize(b, results)
      invariant out.Rect == b && Holds(out, b, results)
    {
      var y := b.Min.Y;
      while y < b.Max.Y
        invariant b.Min.Y <= y <= b.Max.Y
        invariant visited == Columns(b.Min.X, x, b.Min.Y, b.Max.Y) + Column(x, b.Min.Y, y)
        invariant handed == FreshPixels(b, src, visited)
        invariant results == Results(change, handed)
        invariant (newW, newH) == FinalSize(b, results)
        invariant out.Rect == b && Holds(out, b, results)
      {
        ghost var v, r;
        newW, newH, v, r := Visit(out, b, src, change, x, y, results);
        ColumnSnoc(x, b.Min.Y, y);
        FreshPixelsSnoc(b, src, visited, Point(x, y));
        ResultsSnoc(change, handed, v);
        visited := visited + [Point(x, y)];
        handed := handed + [v];
        results := results + [r];
        y := y + 1;
      }
      ColumnsSnoc(b.Min.X, x, b.Min.Y, b.Max.Y);
      x := x + 1;
    }
    out.Rect := out.Rect.(Max := Point(out.Rect.Min.X + newW, out.Rect.Min.Y + newH));
  }

  /** The transform is called `b.Dx() * b.Dy()` times; call `k` receives a fresh
      record with the source size, a point of `b` and that point's source colour;
      no point is handed over twice, and point `p` is handed over at call
      `Index(b, p)` (column-major: `x` outer, `y` inner). */
  lemma HandedCoversBounds(b: Bounds, src: Source)
    ensures |Handed(b, src)| == b.Dx() * b.Dy()
    ensures forall k :: 0 <= k < |Handed(b, src)| ==>
      Handed(b, src)[k].ImageW == b.Dx() && Handed(b, src)[k].ImageH == b.Dy() &&
      b.Contains(Handed(b, src)[k].Position()) &&
      Handed(b, src)[k].Color() == src(Handed(b, src)[k].Position())
    ensures forall i, j :: 0 <= i < j < |Handed(b, src)| ==> Handed(b, src)[i].Position() != Handed(b, src)[j].Position()
    ensures forall p :: b.Contains(p) ==>
      0 <= Index(b, p) < |Handed(b, src)| && Handed(b, src)[Index(b, p)].Position() == p
  {
    var h, o := Handed(b, src), Order(b);
    OrderLength(b);
    OrderCovers(b);
    forall k | 0 <= k < |h| ensures b.Contains(h[k].Position()) {
      assert h[k].Position() == o[k] && o[k] in o;
    }
    forall p | b.Contains(p) ensures 0 <= Index(b, p) < |h| && h[Index(b, p)].Position() == p {
      OrderAt(b, p);
    }
  }

  /** While the transform leaves every pixel where it was, after the first `n`
      calls a point holds its transformed colour once it has been visited and the
      zero colour before. */
  lemma {:induction false} StationaryPrefix(b: Bounds, src: Source, change: Transform, n: nat, p: Point)
    requires KeepsPosition(change)
    requires n <= |Order(b)| && b.Contains(p)
    ensures CellAfter(Results(change, Handed(b, src))[..n], p)
         == if Index(b, p) < n then change(FreshPixel(b, src, p)).Color() else Transparent
  {
    OrderAt(b, p);
    if n > 0 {
      var writes := Results(change, Handed(b, src))[..n];
      var o := Order(b);
      assert writes[n - 1] == change(FreshPixel(b, src, o[n - 1]));
      assert writes[n - 1].Position() == o[n - 1];
      assert writes[..n - 1] == Results(change, Handed(b, src))[..n - 1];
      StationaryPrefix(b, src, change, n - 1, p);
      if o[n - 1] == p {
        OrderCovers(b);
        assert Index(b, p) == n - 1;
      }
    }
  }

  /** A transform that keeps positions writes every point of `b` exactly once:
      the output holds the transformed colour of each point. */
  lemma StationaryWriteBack(b: Bounds, src: Source, change: Transform)
    requires KeepsPosition(change)
    ensures forall p :: b.Contains(p) ==>
      CellAfter(Results(change, Handed(b, src)), p) == change(FreshPixel(b, src, p)).Color()
  {
    var writes := Results(change, Handed(b, src));
    forall p | b.Contains(p) ensures CellAfter(writes, p) == change(FreshPixel(b, src, p)).Color() {
      OrderAt(b, p);
      StationaryPrefix(b, src, change, |Order(b)|, p);
      assert writes[..|Order(b)|] == writes;
    }
  }

  /** The identity transform reproduces the converted source exactly, and the
      crop leaves the bounds as they were. */
  lemma IdentityRoundTrip(b: Bounds, src: Source, change: Transform)
    requires forall v :: change(v) == v
    ensures forall p :: b.Contains(p) ==> CellAfter(Results(change, Handed(b, src)), p) == src(p)
    ensures Cropped(b, FinalSize(b, Results(change, Handed(b, src)))) == b
  {
    StationaryWriteBack(b, src, change);
    var r := Results(change, Handed(b, src));
    if r != [] {
      assert r[|r| - 1] == Handed(b, src)[|r| - 1];
    }
  }

  /** Last write wins: the output size is what the transform reported for the last
      point visited, the bottom-right corner of `b`. */
  lemma SizeFromLastPixel(b: Bounds, src: Source, change: Transform)
    requires b.Dx() > 0 && b.Dy() > 0
    ensures FinalSize(b, Results(change, Handed(b, src)))
         == (change(FreshPixel(b, src, Point(b.Max.X - 1, b.Max.Y - 1))).ImageW,
             change(FreshPixel(b, src, Point(b.Max.X - 1, b.Max.Y - 1))).ImageH)
  {
    OrderLast(b);
  }

  /** With no point to visit the transform is never called, and the output keeps
      the source bounds. */
  lemma EmptyBoundsKeepSize(b: Bounds, src: Source, change: Transform)
    requires b.Dx() == 0 || b.Dy() == 0
    ensures Handed(b, src) == []
    ensures Cropped(b, FinalSize(b, Results(change, Handed(b, src)))) == b
  {
    OrderLength(b);
  }

  /** A transform that reports one column and one row less than it was handed
      crops the output to (W-1) x (H-1), anchored at `Min`. */
  lemma ShrinkByOne(b: Bounds, src: Source, change: Transform)
    requires b.Dx() > 0 && b.Dy() > 0
    requires forall v :: change(v).ImageW == v.ImageW - 1 && change(v).ImageH == v.ImageH - 1
    ensures Cropped(b, FinalSize(b, Results(change, Handed(b, src))))
         == Rectangle(b.Min, Point(b.Max.X - 1, b.Max.Y - 1))
  {
    SizeFromLastPixel(b, src, change);
  }
}
