/**
 * The rectangles that round a frameless window's corners (src/main/linuxWindowShape.ts, `roundedWindowShape`), against the
 * circle they stand for.
 */
module WindowShape {
  datatype Rectangle = Rectangle(x: int, y: int, width: int, height: int)

  function Min(a: int, b: int): int { if a < b then a else b }

  function Square(x: int): int { x * x }

  /** The radius used: no more than half of either side. */
  function RadiusOf(width: nat, height: nat, radius: int): int { Min(radius, Min(width / 2, height / 2)) }

  /**
   * The corner circle has its centre `r` in from both sides. At the centre of row `y`, the point `i` in from the side is not
   * outside it. Everything is counted in half pixels so that the row's centre is a whole number.
   */
  predicate NotOutside(r: int, y: int, i: int)
  {
    Square(2 * (r - i)) + Square(2 * (r - y) - 1) <= Square(2 * r)
  }

  lemma SquareMonotone(a: int, b: int)
    requires 0 <= a <= b
    ensures Square(a) <= Square(b)
  {
    assert a * a <= a * b <= b * b;
  }

  /** The least whole inset from `i` on that is not outside the circle. */
  function InsetFrom(r: int, y: int, i: int): (inset: int)
    requires 0 <= y < r && 0 <= i <= r
    ensures i <= inset <= r && NotOutside(r, y, inset)
    ensures forall k :: i <= k < inset ==> !NotOutside(r, y, k)
    decreases r - i
  {
    SquareMonotone(2 * (r - y) - 1, 2 * r);
    if NotOutside(r, y, i) then i else InsetFrom(r, y, i + 1)
  }

  /** `Math.ceil(r - Math.sqrt(r * r - (r - y - 0.5) ** 2))`. */
  function Inset(r: int, y: int): (inset: int)
    requires 0 <= y < r
    ensures 0 <= inset <= r
  {
    InsetFrom(r, y, 0)
  }

  /** For the exact root, the inset is the ceiling the source takes. */
  lemma InsetIsCeiling(r: int, y: int, root: real)
    requires 0 <= y < r && root >= 0.0
    requires root * root == (r * r) as real - (r as real - y as real - 0.5) * (r as real - y as real - 0.5)
    ensures Inset(r, y) as real >= r as real - root
    ensures Inset(r, y) as real - 1.0 < r as real - root
  {
    var i := Inset(r, y);
    RootBound(r, y, root, i);
    if i > 0 {
      RootBound(r, y, root, i - 1);
    } else {
      SmallerSquare(root, r as real, y as real + 0.5 - r as real);
    }
  }

  lemma CompareSquares(d: real, root: real)
    requires d >= 0.0 && root >= 0.0
    ensures d * d <= root * root <==> d <= root
  {
    if d <= root {
      assert d * d <= d * root && d * root <= root * root;
    } else {
      var gap, sum := d - root, d + root;
      assert gap > 0.0 && sum > 0.0;
      assert gap * sum > 0.0;
      assert gap * sum == d * d - root * root;
    }
  }

  lemma SquareAsReal(k: int)
    ensures Square(k) as real == (k as real) * (k as real)
  {
  }

  lemma DoubledSquare(x: real)
    ensures (2.0 * x) * (2.0 * x) == 4.0 * (x * x)
  {
  }

  /** A point is inside the circle at that row exactly when it is no further from the centre than the root. */
  lemma RootBound(r: int, y: int, root: real, i: int)
    requires 0 <= y < r && root >= 0.0 && i <= r
    requires root * root == (r * r) as real - (r as real - y as real - 0.5) * (r as real - y as real - 0.5)
    ensures NotOutside(r, y, i) <==> (r - i) as real <= root
  {
    var d, c := (r - i) as real, r as real - y as real - 0.5;
    SquareAsReal(2 * (r - i));
    SquareAsReal(2 * (r - y) - 1);
    SquareAsReal(2 * r);
    SquareAsReal(r);
    assert (2 * (r - i)) as real == 2.0 * d && (2 * (r - y) - 1) as real == 2.0 * c && (2 * r) as real == 2.0 * (r as real);
    DoubledSquare(d);
    DoubledSquare(c);
    DoubledSquare(r as real);
    assert (r * r) as real == (r as real) * (r as real);
    hide Square;
    CompareSquares(d, root);
  }

  lemma SmallerSquare(root: real, r: real, c: real)
    requires root >= 0.0 && r > 0.0 && root * root == r * r - c * c
    ensures root < r + 1.0
  {
    assert c * c >= 0.0;
    CompareSquares(root, r);
  }

  // ---------------------------------------------------------------------------------------------
  // The rectangles
  // ---------------------------------------------------------------------------------------------

  function TopRow(width: int, r: int, y: int): Rectangle
    requires 0 <= y < r
  {
    Rectangle(Inset(r, y), y, width - 2 * Inset(r, y), 1)
  }

  function BottomRow(width: int, height: int, r: int, y: int): Rectangle
    requires 0 <= y < r
  {
    Rectangle(Inset(r, y), height - y - 1, width - 2 * Inset(r, y), 1)
  }

  /** The middle block and the first `n` pairs of corner rows. */
  function Rows(width: int, height: int, r: int, n: nat): seq<Rectangle>
    requires n <= r
  {
    if n == 0 then [Rectangle(0, r, width, height - 2 * r)]
    else Rows(width, height, r, n - 1) + [TopRow(width, r, n - 1), BottomRow(width, height, r, n - 1)]
  }

  function NonEmpty(rows: seq<Rectangle>): seq<Rectangle>
  {
    if rows == [] then []
    else
      var last := rows[|rows| - 1];
      NonEmpty(rows[..|rows| - 1]) + (if last.width > 0 && last.height > 0 then [last] else [])
  }

  function Shape(width: nat, height: nat, radius: int): seq<Rectangle>
  {
    var r := RadiusOf(width, height, radius);
    if r <= 0 then [Rectangle(0, 0, width, height)] else NonEmpty(Rows(width, height, r, r))
  }

  method RoundedWindowShape(width: nat, height: nat, radius: int) returns (rects: seq<Rectangle>)
    ensures rects == Shape(width, height, radius)
  {
    hide InsetFrom;
    var r := Min(radius, Min(width / 2, height / 2));
    if r <= 0 {
      return [Rectangle(0, 0, width, height)];
    }
    var rows := [Rectangle(0, r, width, height - 2 * r)];
    for y := 0 to r
      invariant rows == Rows(width, height, r, y)
    {
      var inset := Inset(r, y);
      rows := rows + [Rectangle(inset, y, width - 2 * inset, 1)];
      rows := rows + [Rectangle(inset, height - y - 1, width - 2 * inset, 1)];
    }
    rects := NonEmpty(rows);
  }

  // ---------------------------------------------------------------------------------------------
  // What they cover
  // ---------------------------------------------------------------------------------------------

  predicate Holds(rect: Rectangle, px: int, py: int)
  {
    rect.x <= px < rect.x + rect.width && rect.y <= py < rect.y + rect.height
  }

  ghost predicate Covered(rects: seq<Rectangle>, px: int, py: int)
  {
    exists k :: 0 <= k < |rects| && Holds(rects[k], px, py)
  }

  /** How far a pixel's outer edge is from the nearer of the two sides `0` and `size`. */
  function Edge(p: int, size: int): int { Min(p, size - 1 - p) }

  /** In the window and, in the corner squares, with its outer edge at the row's centre not outside the corner circle. */
  predicate InRounded(width: int, height: int, r: int, px: int, py: int)
  {
    && 0 <= px < width && 0 <= py < height
    && (Edge(px, width) >= r || Edge(py, height) >= r || NotOutside(r, Edge(py, height), Edge(px, width)))
  }

  /** Further in is never further outside. */
  lemma FurtherInside(r: int, y: int, i: int, k: int)
    requires i <= k <= r && NotOutside(r, y, i)
    ensures NotOutside(r, y, k)
  {
    SquareMonotone(2 * (r - k), 2 * (r - i));
  }

  lemma InsetDecides(r: int, y: int, d: int)
    requires 0 <= y < r && 0 <= d < r
    ensures NotOutside(r, y, d) <==> d >= Inset(r, y)
  {
    if d >= Inset(r, y) {
      FurtherInside(r, y, Inset(r, y), d);
    }
  }

  /** Insets never grow toward the middle of the window. */
  lemma InsetsShrink(r: int, y: int, z: int)
    requires 0 <= y <= z < r
    ensures Inset(r, z) <= Inset(r, y)
  {
    var i := Inset(r, y);
    SquareMonotone(2 * (r - z) - 1, 2 * (r - y) - 1);
    assert NotOutside(r, z, i);
  }

  lemma {:induction false} NonEmptyCovers(rows: seq<Rectangle>, px: int, py: int)
    ensures Covered(NonEmpty(rows), px, py) <==> Covered(rows, px, py)
  {
    if rows != [] {
      var init, last := rows[..|rows| - 1], rows[|rows| - 1];
      NonEmptyCovers(init, px, py);
      CoveredSnoc(init, last, px, py);
      CoveredSnoc(NonEmpty(init), last, px, py);
      assert rows == init + [last];
      assert NonEmpty(init) + [] == NonEmpty(init);
    }
  }

  lemma CoveredSnoc(rects: seq<Rectangle>, last: Rectangle, px: int, py: int)
    ensures Covered(rects + [last], px, py) <==> Covered(rects, px, py) || Holds(last, px, py)
  {
    var all := rects + [last];
    if Covered(rects, px, py) {
      var k :| 0 <= k < |rects| && Holds(rects[k], px, py);
      assert Holds(all[k], px, py);
    }
    if Holds(last, px, py) {
      assert Holds(all[|rects|], px, py);
    }
  }

  /** The rows cover the middle block and, among the first `n` rows from either side, what their insets leave. */
  lemma {:induction false} RowsCover(width: nat, height: nat, r: int, n: nat, px: int, py: int)
    requires n <= r && 0 < r && 2 * r <= height
    ensures Covered(Rows(width, height, r, n), px, py)
            <==> (0 <= px < width && r <= py < height - r)
                 || (0 <= Edge(py, height) < n && Inset(r, Edge(py, height)) <= px < width - Inset(r, Edge(py, height)))
  {
    hide InsetFrom, Inset;
    if n == 0 {
      CoveredSnoc([], Rectangle(0, r, width, height - 2 * r), px, py);
      assert [] + [Rectangle(0, r, width, height - 2 * r)] == [Rectangle(0, r, width, height - 2 * r)];
    } else {
      var rows, top, bottom := Rows(width, height, r, n - 1), TopRow(width, r, n - 1), BottomRow(width, height, r, n - 1);
      RowsCover(width, height, r, n - 1, px, py);
      CoveredSnoc(rows, top, px, py);
      CoveredSnoc(rows + [top], bottom, px, py);
      assert rows + [top, bottom] == rows + [top] + [bottom];
    }
  }

  /** A pixel is covered exactly when it lies in the rounded window. */
  lemma CoversExactlyTheRoundedWindow(width: nat, height: nat, radius: int, px: int, py: int)
    ensures Covered(Shape(width, height, radius), px, py) <==> InRounded(width, height, RadiusOf(width, height, radius), px, py)
  {
    var r := RadiusOf(width, height, radius);
    if r <= 0 {
      CoveredSnoc([], Rectangle(0, 0, width, height), px, py);
      assert [] + [Rectangle(0, 0, width, height)] == [Rectangle(0, 0, width, height)];
    } else {
      NonEmptyCovers(Rows(width, height, r, r), px, py);
      RowsCover(width, height, r, r, px, py);
      var b, d := Edge(py, height), Edge(px, width);
      if 0 <= b < r && 0 <= d < r {
        InsetDecides(r, b, d);
      }
    }
  }

  /** The shape is the same seen from any side. */
  lemma Symmetric(width: nat, height: nat, radius: int, px: int, py: int)
    ensures Covered(Shape(width, height, radius), px, py) <==> Covered(Shape(width, height, radius), width - 1 - px, py)
    ensures Covered(Shape(width, height, radius), px, py) <==> Covered(Shape(width, height, radius), px, height - 1 - py)
  {
    hide Covered, Shape, NotOutside;
    CoversExactlyTheRoundedWindow(width, height, radius, px, py);
    CoversExactlyTheRoundedWindow(width, height, radius, width - 1 - px, py);
    CoversExactlyTheRoundedWindow(width, height, radius, px, height - 1 - py);
  }

  // ---------------------------------------------------------------------------------------------
  // How they lie
  // ---------------------------------------------------------------------------------------------

  predicate Apart(a: Rectangle, b: Rectangle) { a.y + a.height <= b.y || b.y + b.height <= a.y }

  predicate PairwiseApart(rects: seq<Rectangle>) { forall i, j :: 0 <= i < j < |rects| ==> Apart(rects[i], rects[j]) }

  predicate InWindow(rect: Rectangle, width: int, height: int)
  {
    0 <= rect.x && 0 <= rect.y && rect.x + rect.width <= width && rect.y + rect.height <= height
  }

  lemma {:induction false} RowsApart(width: nat, height: nat, r: int, n: nat)
    requires n <= r && 0 < r && 2 * r <= height && 2 * r <= width
    ensures PairwiseApart(Rows(width, height, r, n))
    ensures forall k :: 0 <= k < |Rows(width, height, r, n)| ==>
              InWindow(Rows(width, height, r, n)[k], width, height)
              && (Rows(width, height, r, n)[k].y + Rows(width, height, r, n)[k].height <= n
                  || Rows(width, height, r, n)[k].y >= height - n
                  || (Rows(width, height, r, n)[k].y >= r && Rows(width, height, r, n)[k].y + Rows(width, height, r, n)[k].height <= height - r))
  {
    hide InsetFrom, Inset;
    if n > 0 {
      RowsApart(width, height, r, n - 1);
    }
  }

  lemma {:induction false} NonEmptyKeeps(rows: seq<Rectangle>)
    requires PairwiseApart(rows)
    ensures PairwiseApart(NonEmpty(rows))
    ensures forall k :: 0 <= k < |NonEmpty(rows)| ==>
              NonEmpty(rows)[k] in rows && NonEmpty(rows)[k].width > 0 && NonEmpty(rows)[k].height > 0
  {
    if rows != [] {
      var init, last := rows[..|rows| - 1], rows[|rows| - 1];
      NonEmptyKeeps(init);
      var kept := NonEmpty(init);
      forall k | 0 <= k < |kept|
        ensures Apart(kept[k], last) && kept[k] in rows
      {
        var m :| 0 <= m < |init| && init[m] == kept[k];
        assert rows[m] == kept[k];
      }
    }
  }

  /** The rectangles of a rounded shape are not empty, lie in the window and share no row of pixels with each other. */
  lemma ShapeIsTiling(width: nat, height: nat, radius: int)
    requires RadiusOf(width, height, radius) > 0
    ensures var rects := Shape(width, height, radius);
            && PairwiseApart(rects)
            && forall k :: 0 <= k < |rects| ==> InWindow(rects[k], width, height) && rects[k].width > 0 && rects[k].height > 0
  {
    var r := RadiusOf(width, height, radius);
    RowsApart(width, height, r, r);
    hide Rows, NonEmpty;
    NonEmptyKeeps(Rows(width, height, r, r));
  }
}
