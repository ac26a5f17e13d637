/**
  Integer screen geometry: Qt's QPoint and QRect as used by the toggle engine.

  A rectangle is (left, top, width, height). Qt calls a rectangle null when
  both its width and its height are zero, and its union operator `a | b`
  returns the other operand when one of them is null and the bounding box
  otherwise (a null left operand wins, so the union of two null rectangles
  is the right one).
 */
module Geometry {

  datatype Point = Point(x: int, y: int)

  function Sub(a: Point, b: Point): (r: Point)
    ensures Add(r, b) == a
  {
    Point(a.x - b.x, a.y - b.y)
  }

  function Add(a: Point, b: Point): Point
  {
    Point(a.x + b.x, a.y + b.y)
  }

  datatype Rect = Rect(left: int, top: int, width: nat, height: nat) {

    /** Qt's QRect::isNull */
    predicate IsNull() {
      width == 0 && height == 0
    }

    function TopLeft(): Point {
      Point(left, top)
    }

    /** One past the right-most column. */
    function Right(): int {
      left + width
    }

    /** One past the bottom-most row. */
    function Bottom(): int {
      top + height
    }
  }

  /** QRect(): the default-constructed rectangle. */
  const NullRect := Rect(0, 0, 0, 0)

  function Min(a: int, b: int): int { if a <= b then a else b }
  function Max(a: int, b: int): int { if a <= b then b else a }

  /** Qt's QRect::operator| restricted to non-negative sizes. */
  function Union(a: Rect, b: Rect): (r: Rect)
    ensures r.IsNull() <==> a.IsNull() && b.IsNull()
    ensures a.IsNull() ==> r == b
    ensures !a.IsNull() && b.IsNull() ==> r == a
    ensures Within(a, r) && Within(b, r)
  {
    if a.IsNull() then b
    else if b.IsNull() then a
    else
      var l := Min(a.left, b.left);
      var t := Min(a.top, b.top);
      Rect(l, t, Max(a.Right(), b.Right()) - l, Max(a.Bottom(), b.Bottom()) - t)
  }

  /**
    `inner` covers no point outside `outer`. A null rectangle covers no
    point at all, so it lies within every rectangle.
   */
  predicate Within(inner: Rect, outer: Rect) {
    inner.IsNull() ||
    (outer.left <= inner.left && inner.Right() <= outer.Right() &&
     outer.top <= inner.top && inner.Bottom() <= outer.Bottom())
  }

  /** The union is the least rectangle containing both operands. */
  lemma UnionLeast(a: Rect, b: Rect, c: Rect)
    requires Within(a, c) && Within(b, c)
    ensures Within(Union(a, b), c)
  {
  }

  lemma WithinTransitive(a: Rect, b: Rect, c: Rect)
    requires Within(a, b) && Within(b, c)
    ensures Within(a, c)
  {
  }

  /** Moving a rectangle by `d`. */
  function Translate(r: Rect, d: Point): (t: Rect)
    ensures t.TopLeft() == Add(r.TopLeft(), d)
    ensures t.width == r.width && t.height == r.height
  {
    Rect(r.left + d.x, r.top + d.y, r.width, r.height)
  }

  /** Translation commutes with union. */
  lemma TranslateUnion(a: Rect, b: Rect, d: Point)
    ensures Translate(Union(a, b), d) == Union(Translate(a, d), Translate(b, d))
  {
  }

  /**
    The union of a list of rectangles as Qt computes it with `screen |= r`
    from a default-constructed QRect, first element first.
   */
  function UnionAll(rs: seq<Rect>): Rect
  {
    if |rs| == 0 then NullRect else Union(UnionAll(rs[..|rs| - 1]), rs[|rs| - 1])
  }

  /** The union of a two-element list is the union of its elements. */
  lemma UnionAllPair(a: Rect, b: Rect)
    ensures UnionAll([a]) == a
    ensures UnionAll([a, b]) == Union(a, b)
  {
    assert [a, b][..1] == [a];
    assert [a][..0] == [];
  }

  /** Every listed rectangle lies within the union of the list. */
  lemma {:induction false} WithinUnionAll(rs: seq<Rect>, i: nat)
    requires i < |rs|
    ensures Within(rs[i], UnionAll(rs))
  {
    var n := |rs| - 1;
    if i < n {
      WithinUnionAll(rs[..n], i);
      WithinTransitive(rs[i], UnionAll(rs[..n]), UnionAll(rs));
    }
  }

  /** A rectangle containing every listed rectangle contains their union. */
  lemma {:induction false} UnionAllLeast(rs: seq<Rect>, c: Rect)
    requires forall i :: 0 <= i < |rs| ==> Within(rs[i], c)
    ensures Within(UnionAll(rs), c)
  {
    if |rs| > 0 {
      var n := |rs| - 1;
      assert forall i :: 0 <= i < n ==> rs[..n][i] == rs[i];
      UnionAllLeast(rs[..n], c);
      UnionLeast(UnionAll(rs[..n]), rs[n], c);
    }
  }

  /** The union of a list is null exactly when every listed rectangle is null. */
  lemma {:induction false} UnionAllNull(rs: seq<Rect>)
    ensures UnionAll(rs).IsNull() <==> forall i :: 0 <= i < |rs| ==> rs[i].IsNull()
  {
    if |rs| > 0 {
      var n := |rs| - 1;
      assert forall i :: 0 <= i < n ==> rs[..n][i] == rs[i];
      UnionAllNull(rs[..n]);
    }
  }

  /**
    If every rectangle of `small` also occurs in `large`, the union of
    `small` lies within the union of `large`.
   */
  lemma UnionAllMonotone(small: seq<Rect>, large: seq<Rect>)
    requires forall r :: r in small ==> r in large
    ensures Within(UnionAll(small), UnionAll(large))
  {
    forall i | 0 <= i < |small|
      ensures Within(small[i], UnionAll(large))
    {
      assert small[i] in large;
      var j :| 0 <= j < |large| && large[j] == small[i];
      WithinUnionAll(large, j);
    }
    UnionAllLeast(small, UnionAll(large));
  }

  /**
    Translating every rectangle translates the union, as long as one of them
    is not null (the null start value is not translated).
   */
  lemma {:induction false} UnionAllTranslate(rs: seq<Rect>, d: Point)
    requires exists i :: 0 <= i < |rs| && !rs[i].IsNull()
    ensures UnionAll(TranslateAll(rs, d)) == Translate(UnionAll(rs), d)
  {
    var n := |rs| - 1;
    var ts := TranslateAll(rs, d);
    assert ts[..n] == TranslateAll(rs[..n], d);
    if exists i :: 0 <= i < n && !rs[..n][i].IsNull() {
      UnionAllTranslate(rs[..n], d);
      TranslateUnion(UnionAll(rs[..n]), rs[n], d);
    } else {
      assert !rs[n].IsNull();
      UnionAllNull(rs[..n]);
      UnionAllNull(ts[..n]);
    }
  }

  function TranslateAll(rs: seq<Rect>, d: Point): (ts: seq<Rect>)
    ensures |ts| == |rs|
    ensures forall i :: 0 <= i < |rs| ==> ts[i] == Translate(rs[i], d)
  {
    seq(|rs|, i requires 0 <= i < |rs| => Translate(rs[i], d))
  }

  /** Two monitors side by side, 800 and 600 wide, span 1400 x 600. */
  lemma SideBySideUnion()
    ensures UnionAll([Rect(0, 0, 800, 600), Rect(800, 0, 600, 600)]) == Rect(0, 0, 1400, 600)
    ensures UnionAll([Rect(800, 0, 600, 600)]) == Rect(800, 0, 600, 600)
  {
    var a, b := Rect(0, 0, 800, 600), Rect(800, 0, 600, 600);
    UnionAllPair(a, b);
    UnionAllPair(b, a);
    assert Union(a, b) == Rect(0, 0, 1400, 600);
  }
}
