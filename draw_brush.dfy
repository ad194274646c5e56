/**
 * The brush core of the segmentation tools: applying one stroke of pointer
 * positions to one slice of a labelmap volume, in paint or erase mode.
 *
 * A slice (`Labelmap2D`) holds a flat buffer of segment labels, one per pixel,
 * row-major with `columns` pixels per row; 0 means "no segment". A volume
 * (`Labelmap3D`) keeps its slices in a table keyed by image index and drops a
 * slice from the table when an erase leaves it empty.
 *
 * `DrawBrushPixels` is the imperative operation. `Stroke` is the same pass
 * written as a function on sequences, point by point in input order;
 * `Painted` and `Erased` say pixel by pixel what a whole stroke leaves
 * behind, independently of order and repetition. The lemmas connect the two
 * and prove what a caller relies on: idempotence, order independence, the
 * paint/erase round trip and when a slice is reclaimed.
 */
module DrawBrush {

  /** A pointer position in pixel space: the source's `[x, y]` pair. */
  datatype Point = Point(x: int, y: int)

  /** One slice of a labelmap: its label buffer and the "must re-render" flag. */
  class Labelmap2D {
    var pixelData: array<int>
    var invalidated: bool

    constructor (pixelData: array<int>)
      ensures this.pixelData == pixelData && !invalidated
    {
      this.pixelData := pixelData;
      invalidated := false;
    }
  }

  /** A labelmap volume: its slices, keyed by image index. */
  class Labelmap3D {
    var labelmaps2D: map<int, Labelmap2D>

    constructor (labelmaps2D: map<int, Labelmap2D>)
      ensures this.labelmaps2D == labelmaps2D
    {
      this.labelmaps2D := labelmaps2D;
    }
  }

  // ---------------------------------------------------------------------------
  // Index mapping

  /** Row-major position of a point in a slice `columns` pixels wide. */
  function PixelIndex(p: Point, columns: int): int
  {
    p.y * columns + p.x
  }

  /** The point lies on the slice: inside its row and inside the buffer. */
  predicate InBounds(p: Point, columns: int, length: int)
  {
    0 <= p.x < columns && 0 <= p.y && PixelIndex(p, columns) < length
  }

  predicate AllInBounds(points: seq<Point>, columns: int, length: int)
  {
    forall i :: 0 <= i < |points| ==> InBounds(points[i], columns, length)
  }

  /** The row and column of a pixel can be read back from its index. */
  lemma PixelIndexRoundTrip(p: Point, columns: int)
    requires 0 <= p.x < columns && 0 <= p.y
    ensures 0 <= PixelIndex(p, columns)
    ensures PixelIndex(p, columns) / columns == p.y
    ensures PixelIndex(p, columns) % columns == p.x
  {
    var k := PixelIndex(p, columns);
    var q, r := k / columns, k % columns;
    assert 0 <= p.y * columns by { MulNonNegative(p.y, columns); }
    assert (p.y - q) * columns == r - p.x;
    if p.y - q > 0 {
      MulAtLeast(p.y - q, columns);
    } else if p.y - q < 0 {
      MulAtLeast(q - p.y, columns);
    }
  }

  /** Two points inside their rows hit the same pixel only if they are equal. */
  lemma PixelIndexInjective(p: Point, q: Point, columns: int)
    requires 0 <= p.x < columns && 0 <= p.y
    requires 0 <= q.x < columns && 0 <= q.y
    ensures PixelIndex(p, columns) == PixelIndex(q, columns) <==> p == q
  {
    PixelIndexRoundTrip(p, columns);
    PixelIndexRoundTrip(q, columns);
  }

  lemma MulNonNegative(a: int, b: int)
    requires 0 <= a && 0 <= b
    ensures 0 <= a * b
  {
  }

  lemma MulAtLeast(a: int, b: int)
    requires 1 <= a && 0 <= b
    ensures b <= a * b
  {
  }

  // ---------------------------------------------------------------------------
  // A stroke as a function on sequences

  /** Some point of the stroke lands on pixel `k`. */
  ghost predicate Hit(points: seq<Point>, columns: int, k: int)
  {
    exists p :: p in points && PixelIndex(p, columns) == k
  }

  predicate AllZero(s: seq<int>)
  {
    forall k :: 0 <= k < |s| ==> s[k] == 0
  }

  /** The effect of one point on the buffer (the body of the per-point loop). */
  function Step(data: seq<int>, k: int, segmentIndex: int, shouldErase: bool): seq<int>
    requires 0 <= k < |data|
  {
    if shouldErase then
      if data[k] == segmentIndex then data[k := 0] else data
    else
      data[k := segmentIndex]
  }

  /** The buffer after applying the points one by one, in input order. */
  function Stroke(data: seq<int>, points: seq<Point>, columns: int, segmentIndex: int,
                  shouldErase: bool): (r: seq<int>)
    requires AllInBounds(points, columns, |data|)
    ensures |r| == |data|
    decreases |points|
  {
    if points == [] then data
    else
      var n := |points|;
      var before := Stroke(data, points[..n - 1], columns, segmentIndex, shouldErase);
      Step(before, PixelIndex(points[n - 1], columns), segmentIndex, shouldErase)
  }

  /** Reference result of a paint stroke: every pointed pixel holds the segment. */
  ghost function Painted(data: seq<int>, points: seq<Point>, columns: int, segmentIndex: int): seq<int>
  {
    seq(|data|, k requires 0 <= k < |data| =>
      if Hit(points, columns, k) then segmentIndex else data[k])
  }

  /** Reference result of an erase stroke: pointed pixels of the segment become 0. */
  ghost function Erased(data: seq<int>, points: seq<Point>, columns: int, segmentIndex: int): seq<int>
  {
    seq(|data|, k requires 0 <= k < |data| =>
      if Hit(points, columns, k) && data[k] == segmentIndex then 0 else data[k])
  }

  lemma {:induction false} HitLast(points: seq<Point>, columns: int, k: int)
    requires points != []
    ensures Hit(points, columns, k) <==>
              Hit(points[..|points| - 1], columns, k) || PixelIndex(points[|points| - 1], columns) == k
  {
    var n := |points|;
    assert points == points[..n - 1] + [points[n - 1]];
  }

  /** Paint: a pixel holds the segment if some point hit it, else its old label. */
  lemma {:induction false} PaintAt(data: seq<int>, points: seq<Point>, columns: int,
                                   segmentIndex: int, k: int)
    requires AllInBounds(points, columns, |data|)
    requires 0 <= k < |data|
    ensures Stroke(data, points, columns, segmentIndex, false)[k] ==
              if Hit(points, columns, k) then segmentIndex else data[k]
    decreases |points|
  {
    if points != [] {
      PaintAt(data, points[..|points| - 1], columns, segmentIndex, k);
      HitLast(points, columns, k);
    }
  }

  /**
   * Erase: a pixel becomes 0 if some point hit it and it held the segment;
   * every other pixel, in particular every pixel of another segment, keeps
   * its label.
   */
  lemma {:induction false} EraseAt(data: seq<int>, points: seq<Point>, columns: int,
                                   segmentIndex: int, k: int)
    requires AllInBounds(points, columns, |data|)
    requires 0 <= k < |data|
    ensures Stroke(data, points, columns, segmentIndex, true)[k] ==
              if Hit(points, columns, k) && data[k] == segmentIndex then 0 else data[k]
    decreases |points|
  {
    if points != [] {
      EraseAt(data, points[..|points| - 1], columns, segmentIndex, k);
      HitLast(points, columns, k);
    }
  }

  /** The in-order pass agrees with the pixel-wise reference results. */
  lemma {:induction false} StrokeMatchesReference(data: seq<int>, points: seq<Point>, columns: int,
                                                  segmentIndex: int, shouldErase: bool)
    requires AllInBounds(points, columns, |data|)
    ensures Stroke(data, points, columns, segmentIndex, shouldErase) ==
              if shouldErase then Erased(data, points, columns, segmentIndex)
              else Painted(data, points, columns, segmentIndex)
  {
    var r := Stroke(data, points, columns, segmentIndex, shouldErase);
    var e := if shouldErase then Erased(data, points, columns, segmentIndex)
             else Painted(data, points, columns, segmentIndex);
    forall k | 0 <= k < |data|
      ensures r[k] == e[k]
    {
      if shouldErase {
        EraseAt(data, points, columns, segmentIndex, k);
      } else {
        PaintAt(data, points, columns, segmentIndex, k);
      }
    }
  }

  /** Reordering or repeating the points of a stroke does not change its result. */
  lemma StrokeOrderIndependent(data: seq<int>, points: seq<Point>, others: seq<Point>,
                               columns: int, segmentIndex: int, shouldErase: bool)
    requires AllInBounds(points, columns, |data|)
    requires multiset(points) == multiset(others)
    ensures AllInBounds(others, columns, |data|)
    ensures Stroke(data, points, columns, segmentIndex, shouldErase) ==
              Stroke(data, others, columns, segmentIndex, shouldErase)
  {
    forall p
      ensures p in points <==> p in others
    {
      assert p in points <==> p in multiset(points);
      assert p in others <==> p in multiset(others);
    }
    forall i | 0 <= i < |others|
      ensures InBounds(others[i], columns, |data|)
    {
      assert others[i] in points;
    }
    StrokeMatchesReference(data, points, columns, segmentIndex, shouldErase);
    StrokeMatchesReference(data, others, columns, segmentIndex, shouldErase);
    forall k | 0 <= k < |data|
      ensures Hit(points, columns, k) == Hit(others, columns, k)
    {
    }
  }

  /** Applying the same stroke twice leaves the same buffer as applying it once. */
  lemma StrokeIdempotent(data: seq<int>, points: seq<Point>, columns: int,
                         segmentIndex: int, shouldErase: bool)
    requires AllInBounds(points, columns, |data|)
    ensures Stroke(Stroke(data, points, columns, segmentIndex, shouldErase),
                   points, columns, segmentIndex, shouldErase) ==
              Stroke(data, points, columns, segmentIndex, shouldErase)
  {
    var once := Stroke(data, points, columns, segmentIndex, shouldErase);
    StrokeMatchesReference(data, points, columns, segmentIndex, shouldErase);
    StrokeMatchesReference(once, points, columns, segmentIndex, shouldErase);
  }

  /**
   * Painting a stroke and then erasing it with the same segment clears exactly
   * the pointed pixels and restores nothing else: every other pixel keeps the
   * label it had before the paint.
   */
  lemma PaintThenErase(data: seq<int>, points: seq<Point>, columns: int, segmentIndex: int)
    requires AllInBounds(points, columns, |data|)
    ensures var r := Stroke(Stroke(data, points, columns, segmentIndex, false),
                            points, columns, segmentIndex, true);
            forall k :: 0 <= k < |data| ==> r[k] == if Hit(points, columns, k) then 0 else data[k]
  {
    var painted := Stroke(data, points, columns, segmentIndex, false);
    StrokeMatchesReference(data, points, columns, segmentIndex, false);
    StrokeMatchesReference(painted, points, columns, segmentIndex, true);
  }

  /**
   * An erase leaves the buffer all 0 exactly when every pixel was already 0
   * or held the erased segment and was pointed at.
   */
  lemma EraseEmptiesIff(data: seq<int>, points: seq<Point>, columns: int, segmentIndex: int)
    requires AllInBounds(points, columns, |data|)
    ensures AllZero(Stroke(data, points, columns, segmentIndex, true)) <==>
              forall k :: 0 <= k < |data| ==>
                data[k] == 0 || (data[k] == segmentIndex && Hit(points, columns, k))
  {
    var r := Stroke(data, points, columns, segmentIndex, true);
    forall k | 0 <= k < |data|
      ensures r[k] == 0 <==> data[k] == 0 || (data[k] == segmentIndex && Hit(points, columns, k))
    {
      EraseAt(data, points, columns, segmentIndex, k);
    }
  }

  /** A non-empty paint stroke with a real segment never leaves the buffer all 0. */
  lemma PaintLeavesLabel(data: seq<int>, points: seq<Point>, columns: int, segmentIndex: int)
    requires AllInBounds(points, columns, |data|)
    requires points != [] && segmentIndex != 0
    ensures !AllZero(Stroke(data, points, columns, segmentIndex, false))
  {
    var k := PixelIndex(points[0], columns);
    PixelIndexRoundTrip(points[0], columns);
    assert Hit(points, columns, k) by { assert points[0] in points; }
    PaintAt(data, points, columns, segmentIndex, k);
  }

  // ---------------------------------------------------------------------------
  // The in-place operation

  /** Does some element of the buffer hold a label (the source's `some(e => e !== 0)`)? */
  method AnyNonZero(a: array<int>) returns (found: bool)
    ensures found <==> !AllZero(a[..])
  {
    found := false;
    var i := 0;
    while i < a.Length && !found
      invariant 0 <= i <= a.Length
      invariant found <==> (exists k :: 0 <= k < i && a[k] != 0)
    {
      found := a[i] != 0;
      i := i + 1;
    }
    assert AllZero(a[..]) <==> forall k :: 0 <= k < a.Length ==> a[k] == 0;
  }

  /**
   * Applies a brush stroke to slice `imageIdIndex` of `labelmap3D`: paints
   * `segmentIndex` on every pointed pixel, or in erase mode clears the pointed
   * pixels that hold `segmentIndex`; then marks the slice invalidated and,
   * after an erase that leaves it all 0, removes it from the volume.
   */
  method DrawBrushPixels(pointerArray: seq<Point>, labelmap3D: Labelmap3D, imageIdIndex: int,
                         segmentIndex: int, columns: int, shouldErase: bool)
    requires imageIdIndex in labelmap3D.labelmaps2D
    requires AllInBounds(pointerArray, columns, labelmap3D.labelmaps2D[imageIdIndex].pixelData.Length)
    modifies labelmap3D`labelmaps2D
    modifies (labelmap3D.labelmaps2D[imageIdIndex] as Labelmap2D)`invalidated
    modifies labelmap3D.labelmaps2D[imageIdIndex].pixelData
    ensures var slice := old(labelmap3D.labelmaps2D[imageIdIndex]);
            slice.pixelData[..] ==
              Stroke(old(slice.pixelData[..]), pointerArray, columns, segmentIndex, shouldErase)
    ensures var slice := old(labelmap3D.labelmaps2D[imageIdIndex]);
            slice.pixelData[..] ==
              if shouldErase then Erased(old(slice.pixelData[..]), pointerArray, columns, segmentIndex)
              else Painted(old(slice.pixelData[..]), pointerArray, columns, segmentIndex)
    ensures old(labelmap3D.labelmaps2D[imageIdIndex]).invalidated
    ensures var slice := old(labelmap3D.labelmaps2D[imageIdIndex]);
            labelmap3D.labelmaps2D ==
              if shouldErase && AllZero(slice.pixelData[..])
              then old(labelmap3D.labelmaps2D) - {imageIdIndex}
              else old(labelmap3D.labelmaps2D)
  {
    var slice := labelmap3D.labelmaps2D[imageIdIndex];
    var pixelData := slice.pixelData;
    ghost var before := pixelData[..];

    var i := 0;
    while i < |pointerArray|
      modifies pixelData
      invariant 0 <= i <= |pointerArray|
      invariant pixelData[..] == Stroke(before, pointerArray[..i], columns, segmentIndex, shouldErase)
    {
      var spIndex := PixelIndex(pointerArray[i], columns);
      assert pointerArray[..i + 1][..i] == pointerArray[..i];
      if shouldErase {
        if pixelData[spIndex] == segmentIndex {
          pixelData[spIndex] := 0;
        }
      } else {
        pixelData[spIndex] := segmentIndex;
      }
      i := i + 1;
    }
    assert pointerArray[..i] == pointerArray;
    StrokeMatchesReference(before, pointerArray, columns, segmentIndex, shouldErase);

    slice.invalidated := true;

    if shouldErase {
      var labelled := AnyNonZero(pixelData);
      if !labelled {
        labelmap3D.labelmaps2D := labelmap3D.labelmaps2D - {imageIdIndex};
      }
    }
  }

  /**
   * The worked example of a 4-column slice: paint two neighbouring pixels with
   * segment 5, then erase one of them; the slice keeps the other and stays.
   */
  method FourColumnScenario()
  {
    var data := new int[16](_ => 0);
    var slice := new Labelmap2D(data);
    var volume := new Labelmap3D(map[0 := slice]);
    var stroke := [Point(1, 1), Point(2, 1)];
    DrawBrushPixels(stroke, volume, 0, 5, 4, false);
    assert Hit(stroke, 4, 5) && Hit(stroke, 4, 6);
    assert data[5] == 5 && data[6] == 5 && data[0] == 0 && slice.invalidated;
    assert volume.labelmaps2D == map[0 := slice];

    DrawBrushPixels([Point(1, 1)], volume, 0, 5, 4, true);
    assert Hit([Point(1, 1)], 4, 5);
    assert data[5] == 0 && data[6] == 5;
    assert !AllZero(data[..]) by { assert data[..][6] != 0; }
    assert 0 in volume.labelmaps2D;
  }
}
