/** Grid geometry of the picker's 1000 x 1000 canvas: where each of the
    twenty balls is drawn and which ball, if any, a pointer position is over.
    Drawing and hit-testing use the same constants, so what is seen is what
    can be clicked. */
module Geometry {
  import opened Optional
  import Selection

  const BallRadius: int := 80
  const HorizontalSpacing: int := 180
  const VerticalSpacing: int := 180
  const StartX: int := 140
  const StartY: int := 100
  const Columns: nat := 5
  const CanvasSize: int := 1000
  /** Clicks are hit-tested only when 20 <= y <= 820. */
  const ClickBandTop: int := 20
  const ClickBandBottom: int := 820

  /** Column `index % 5`, 180 apart from x = 140. */
  function CentreX(index: nat): (x: int)
    ensures StartX <= x <= StartX + (Columns - 1) * HorizontalSpacing
    ensures (x - StartX) % HorizontalSpacing == 0
  {
    StartX + (index % Columns) * HorizontalSpacing
  }

  /** Row `index / 5`, 180 apart from y = 100; the twenty balls fill four rows. */
  function CentreY(index: nat): (y: int)
    ensures StartY <= y && (y - StartY) % VerticalSpacing == 0
    ensures index < Selection.CellCount ==> y <= StartY + 3 * VerticalSpacing
  {
    StartY + (index / Columns) * VerticalSpacing
  }

  /** The point is at most BallRadius from the centre of ball `index`:
      the source's `sqrt(dx*dx + dy*dy) <= 80`, squared. */
  predicate InDisc(x: real, y: real, index: nat) {
    var dx := x - CentreX(index) as real;
    var dy := y - CentreY(index) as real;
    dx * dx + dy * dy <= (BallRadius * BallRadius) as real
  }

  predicate InClickBand(y: real) {
    ClickBandTop as real <= y <= ClickBandBottom as real
  }

  /** The first ball at or after `from` whose disc holds the point. */
  function HitFrom(x: real, y: real, from: nat): (r: Option<nat>)
    ensures r.Some? ==> from <= r.value < Selection.CellCount && InDisc(x, y, r.value)
    ensures r.None? ==> forall i :: from <= i < Selection.CellCount ==> !InDisc(x, y, i)
    decreases Selection.CellCount - from
  {
    if from >= Selection.CellCount then None
    else if InDisc(x, y, from) then Some(from)
    else HitFrom(x, y, from + 1)
  }

  /** The ball under the point, if any. */
  function HitIndex(x: real, y: real): (r: Option<nat>)
    ensures r.Some? ==> r.value < Selection.CellCount && InDisc(x, y, r.value)
    ensures r.None? ==> forall i :: 0 <= i < Selection.CellCount ==> !InDisc(x, y, i)
  {
    HitFrom(x, y, 0)
  }

  lemma SquareBound(d: real)
    requires d * d <= (BallRadius * BallRadius) as real
    ensures -(BallRadius as real) <= d <= BallRadius as real
  {
  }

  /** A point in a disc is within BallRadius of its centre on each axis. */
  lemma DiscInBox(x: real, y: real, i: nat)
    requires InDisc(x, y, i)
    ensures CentreX(i) as real - BallRadius as real <= x <= CentreX(i) as real + BallRadius as real
    ensures CentreY(i) as real - BallRadius as real <= y <= CentreY(i) as real + BallRadius as real
  {
    var dx := x - CentreX(i) as real;
    var dy := y - CentreY(i) as real;
    assert dy * dy >= 0.0 && dx * dx >= 0.0;
    SquareBound(dx);
    SquareBound(dy);
  }

  /** No point lies in two discs: centres are 180 apart, two radii 160. */
  lemma DiscsDisjoint(x: real, y: real, i: nat, j: nat)
    requires i < Selection.CellCount && j < Selection.CellCount
    requires InDisc(x, y, i) && InDisc(x, y, j)
    ensures i == j
  {
    DiscInBox(x, y, i);
    DiscInBox(x, y, j);
  }

  /** The centre of ball i lies in the disc of ball j. */
  predicate CentreInDisc(i: nat, j: nat) {
    InDisc(CentreX(i) as real, CentreY(i) as real, j)
  }

  /** Round trip: the centre of ball i hits ball i and no other. */
  lemma CentreHitsOwnBall(i: nat)
    requires i < Selection.CellCount
    ensures forall j :: 0 <= j < Selection.CellCount ==> (CentreInDisc(i, j) <==> j == i)
    ensures HitIndex(CentreX(i) as real, CentreY(i) as real) == Some(i)
  {
    var x, y := CentreX(i) as real, CentreY(i) as real;
    assert InDisc(x, y, i);
    forall j | 0 <= j < Selection.CellCount ensures CentreInDisc(i, j) <==> j == i {
      if InDisc(x, y, j) {
        DiscsDisjoint(x, y, i, j);
      }
    }
    var h := HitIndex(x, y);
    assert h.Some?;
    DiscsDisjoint(x, y, i, h.value);
  }

  /** Every ball's bounding box, and so (by DiscInBox) its disc, lies
      inside the click band and inside the canvas: the band test never
      turns a hit away. */
  lemma BallInsideClickBand(i: nat)
    requires i < Selection.CellCount
    ensures ClickBandTop <= CentreY(i) - BallRadius && CentreY(i) + BallRadius <= ClickBandBottom
    ensures 0 <= CentreX(i) - BallRadius && CentreX(i) + BallRadius <= CanvasSize
  {
  }

}
