/** The rectangle operations of src/BaseMath.c, over coordinates that do not overflow. */
module BaseMath {
  import opened CTypes

  datatype Point = Point(x: int, y: int)

  /** A Base2DRect's value: its upper left corner and its size. */
  datatype Rect = Rect(x: int, y: int, width: int, height: int) {
    predicate Valid() {
      width > 0 && height > 0
    }

    /** Base2DRect_isPointInside. */
    predicate Inside(p: Point) {
      var np := Point(p.x - x, p.y - y);
      np.x >= 0 && np.y >= 0 && np.x < width && np.y < height
    }

    /** Base2DRect_isRectInside. */
    predicate Contains(r: Rect) {
      && r.x >= x && r.y >= y
      && r.x + r.width <= x + width && r.y + r.height <= y + height
    }
  }

  /** The bounding box, and the overlap, of two valid rectangles. */
  function Bounds(a: Rect, b: Rect): Rect {
    var x, y := Min(a.x, b.x), Min(a.y, b.y);
    Rect(x, y, Max(a.x + a.width, b.x + b.width) - x, Max(a.y + a.height, b.y + b.height) - y)
  }

  function Overlap(a: Rect, b: Rect): Rect {
    var x, y := Max(a.x, b.x), Max(a.y, b.y);
    Rect(x, y, Min(a.x + a.width, b.x + b.width) - x, Min(a.y + a.height, b.y + b.height) - y)
  }

  /** Base2DRect_or's result. */
  function Or(a: Rect, b: Rect): Rect {
    if a.Valid() then if b.Valid() then Bounds(a, b) else a else b
  }

  /** Base2DRect_and's result, written over `before`, whose corner stays when an operand is invalid. */
  function And(before: Rect, a: Rect, b: Rect): Rect {
    if a.Valid() && b.Valid() then Overlap(a, b) else before.(width := 0, height := 0)
  }

  /** Whether min(x + w, x2 + w2) is still right when max(x, x2) is taken for x. */
  predicate EdgeKept(x: int, w: int, x2: int, w2: int) {
    x2 <= x || x2 + w2 <= x + w
  }

  /** Whether the overlap written over a comes out right as a set of points: in both directions, or in one in
      which there is no overlap. */
  predicate PointsKept(a: Rect, b: Rect) {
    var okX, okY := EdgeKept(a.x, a.width, b.x, b.width), EdgeKept(a.y, a.height, b.y, b.height);
    (okX && okY) || (okX && Overlap(a, b).width <= 0) || (okY && Overlap(a, b).height <= 0)
  }

  /** The same rectangle, or both of them no rectangle at all. */
  predicate Same(a: Rect, b: Rect) {
    a == b || (!a.Valid() && !b.Valid())
  }

  // ---------------------------------------------------------------------------
  // The operations, in place
  // ---------------------------------------------------------------------------

  class Base2DRect {
    var x: int
    var y: int
    var width: int
    var height: int

    function Value(): Rect
      reads this
    {
      Rect(x, y, width, height)
    }

    predicate IsValid()
      reads this
    {
      width > 0 && height > 0
    }

    method Assign(src: Base2DRect)
      modifies this
      ensures Value() == old(src.Value())
    {
      x, y, width, height := src.x, src.y, src.width, src.height;
    }

    /** Base2DRect_or. With self as one of its operands, what is read for the far edges is the corner
        already written, which is right for just some operands. */
    method SetOr(src: Base2DRect, src2: Base2DRect)
      modifies this
      ensures this != src && this != src2 ==> Value() == Or(old(src.Value()), old(src2.Value()))
      ensures this == src && this != src2 ==>
                (Value() == Or(old(src.Value()), old(src2.Value()))
                 <==> var a, b := old(src.Value()), old(src2.Value());
                      a.Valid() && b.Valid() ==> && (a.x <= b.x || a.x + a.width <= b.x + b.width)
                                                 && (a.y <= b.y || a.y + a.height <= b.y + b.height))
      ensures this != src && this == src2 ==>
                (Value() == Or(old(src.Value()), old(src2.Value()))
                 <==> var a, b := old(src.Value()), old(src2.Value());
                      a.Valid() && b.Valid() ==> && (b.x <= a.x || b.x + b.width <= a.x + a.width)
                                                 && (b.y <= a.y || b.y + b.height <= a.y + a.height))
      ensures this == src == src2 ==> Value() == Or(old(Value()), old(Value()))
    {
      if src.IsValid() {
        if src2.IsValid() {
          x := Min(src.x, src2.x);
          y := Min(src.y, src2.y);
          width := Max(src.x + src.width, src2.x + src2.width) - x;
          height := Max(src.y + src.height, src2.y + src2.height) - y;
        } else {
          Assign(src);
        }
      } else {
        Assign(src2);
      }
    }

    /** Base2DRect_or_I, which keeps the corner it overwrites. */
    method OrWith(src: Base2DRect)
      modifies this
      ensures Same(Value(), Or(old(Value()), old(src.Value())))
      ensures old(src.IsValid()) ==> Value() == Or(old(Value()), old(src.Value()))
      ensures !old(src.IsValid()) ==> Value() == old(Value())
    {
      if src.IsValid() {
        if IsValid() {
          var origX, origY := x, y;
          x := Min(x, src.x);
          y := Min(y, src.y);
          width := Max(origX + width, src.x + src.width) - x;
          height := Max(origY + height, src.y + src.height) - y;
        } else {
          Assign(src);
        }
      }
    }

    /** Base2DRect_and; the same goes for self as an operand, as a record and as a set of points. */
    method SetAnd(src: Base2DRect, src2: Base2DRect)
      modifies this
      ensures this != src && this != src2 ==> Value() == And(old(Value()), old(src.Value()), old(src2.Value()))
      ensures this == src && this != src2 ==>
                var a, b := old(src.Value()), old(src2.Value());
                && (Value() == And(a, a, b)
                    <==> (a.Valid() && b.Valid() ==> && EdgeKept(a.x, a.width, b.x, b.width)
                                                     && EdgeKept(a.y, a.height, b.y, b.height)))
                && (Same(Value(), And(a, a, b)) <==> (a.Valid() && b.Valid() ==> PointsKept(a, b)))
      ensures this != src && this == src2 ==>
                var a, b := old(src.Value()), old(src2.Value());
                && (Value() == And(b, a, b)
                    <==> (a.Valid() && b.Valid() ==> && EdgeKept(b.x, b.width, a.x, a.width)
                                                     && EdgeKept(b.y, b.height, a.y, a.height)))
                && (Same(Value(), And(b, a, b)) <==> (a.Valid() && b.Valid() ==> PointsKept(b, a)))
      ensures this == src == src2 ==> Value() == And(old(Value()), old(Value()), old(Value()))
    {
      if src.IsValid() && src2.IsValid() {
        x := Max(src.x, src2.x);
        y := Max(src.y, src2.y);
        width := Min(src.x + src.width, src2.x + src2.width) - x;
        height := Min(src.y + src.height, src2.y + src2.height) - y;
      } else {
        width, height := 0, 0;
      }
    }

    /** Base2DRect_and_I. */
    method AndWith(src: Base2DRect)
      modifies this
      ensures Same(Value(), And(old(Value()), old(Value()), old(src.Value())))
      ensures old(IsValid()) && old(src.IsValid()) ==> Value() == And(old(Value()), old(Value()), old(src.Value()))
      ensures !old(IsValid()) ==> Value() == old(Value())
      ensures old(IsValid()) && !old(src.IsValid()) ==> Value() == old(src.Value())
    {
      if IsValid() {
        if src.IsValid() {
          var origX, origY := x, y;
          x := Max(x, src.x);
          y := Max(y, src.y);
          width := Min(origX + width, src.x + src.width) - x;
          height := Min(origY + height, src.y + src.height) - y;
        } else {
          Assign(src);
        }
      }
    }
  }

  /** How far apart two coordinates are. */
  function Distance(a: int, b: int): nat {
    if a >= b then a - b else b - a
  }

  class Base2DPoint {
    var x: int
    var y: int

    function Value(): Point
      reads this
    {
      Point(x, y)
    }

    /** Base2DPoint_clipToRect, also for self and src being the same: the result is the point of the
        rectangle that is nearest in both coordinates, and so the source itself when that is inside. */
    method ClipToRect(src: Base2DPoint, rect: Rect)
      requires rect.Valid()
      modifies this
      ensures rect.Inside(Value())
      ensures forall q: Point :: rect.Inside(q) ==>
                && Distance(old(src.x), x) <= Distance(old(src.x), q.x)
                && Distance(old(src.y), y) <= Distance(old(src.y), q.y)
      ensures rect.Inside(old(src.Value())) ==> Value() == old(src.Value())
    {
      x := Max(src.x, rect.x);
      x := Min(x, rect.x + rect.width - 1);
      y := Max(src.y, rect.y);
      y := Min(y, rect.y + rect.height - 1);
    }

    /** Base2DRect_getCenterPoint: the middle, or the pixel up and left of it. */
    method SetCenter(rect: Rect)
      requires rect.Valid()
      modifies this
      ensures rect.Inside(Value())
      ensures 0 <= (2 * rect.x + rect.width) - 2 * x <= 1 && 0 <= (2 * rect.y + rect.height) - 2 * y <= 1
    {
      x := rect.x + rect.width / 2;
      y := rect.y + rect.height / 2;
    }
  }

  // ---------------------------------------------------------------------------
  // Rectangles as sets of points
  // ---------------------------------------------------------------------------

  /** The corners of a valid rectangle. */
  lemma Corners(r: Rect)
    requires r.Valid()
    ensures r.Inside(Point(r.x, r.y)) && r.Inside(Point(r.x + r.width - 1, r.y + r.height - 1))
  {
  }

  /** isRectInside is inclusion of points, for valid rectangles. */
  lemma ContainsIsInclusion(a: Rect, b: Rect)
    requires a.Valid() && b.Valid()
    ensures a.Contains(b) <==> forall p: Point :: b.Inside(p) ==> a.Inside(p)
  {
    Corners(b);
  }

  /** Two rectangles have the same points just when they are the same, or both invalid. */
  lemma SamePoints(a: Rect, b: Rect)
    ensures Same(a, b) <==> forall p: Point :: a.Inside(p) <==> b.Inside(p)
  {
    if forall p: Point :: a.Inside(p) <==> b.Inside(p) {
      if a.Valid() {
        Corners(a);
      }
      if b.Valid() {
        Corners(b);
      }
      if a.Valid() && b.Valid() {
        ContainsIsInclusion(a, b);
        ContainsIsInclusion(b, a);
      }
    }
  }

  /** `and` is intersection of points, for all operands. */
  lemma AndIsIntersection(before: Rect, a: Rect, b: Rect, p: Point)
    ensures And(before, a, b).Inside(p) <==> a.Inside(p) && b.Inside(p)
  {
  }

  /** `or` of valid rectangles is the least rectangle that contains both. */
  lemma OrIsLeast(a: Rect, b: Rect, c: Rect)
    requires a.Valid() && b.Valid()
    ensures Or(a, b).Valid() && Or(a, b).Contains(a) && Or(a, b).Contains(b)
    ensures c.Contains(Or(a, b)) <==> c.Contains(a) && c.Contains(b)
  {
  }

  /** `or` is commutative and associative, and any invalid rectangle is its identity. */
  lemma OrIsMonoid(a: Rect, b: Rect, c: Rect)
    ensures Same(Or(a, b), Or(b, a))
    ensures Same(Or(Or(a, b), c), Or(a, Or(b, c)))
    ensures !b.Valid() ==> Same(Or(a, b), a) && Same(Or(b, a), a)
  {
  }

  /** Absorption, both ways. */
  lemma Absorption(before: Rect, a: Rect, b: Rect)
    ensures Same(And(before, a, Or(a, b)), a)
    ensures Same(Or(a, And(before, a, b)), a)
  {
  }
}
