/** The translation controller of Animation/Controllers/TwoDimTranslationController.ts:
    the accumulating controller split into three hooks that a driver calls as the cursor
    moves to the next point, moves back from a point, or evaluates inside a segment.

    Its base class (a controller built from a timeline and an initial value) is not part of
    this model; the fields the hooks use are fields of the class here, and the constructor
    only states that the base starts at the initial value. */
module Controllers {
  import opened Vectors
  import Transform2

  class TwoDimTranslationController {
    const timeline: Transform2.TwoDimTransformTimeline
    var interpolant: Vector2?
    /** The accumulated base: the initial value with the values passed so far folded in. */
    var transformed: Vector2
    var transformedInterpolated: Vector2?

    constructor (timeline: Transform2.TwoDimTransformTimeline, value: Vec)
      ensures this.timeline == timeline && fresh(transformed) && transformed.Value() == value
      ensures interpolant == null && transformedInterpolated == null
    {
      this.timeline := timeline;
      interpolant := null;
      transformedInterpolated := null;
      transformed := new Vector2(value.x, value.y);
    }

    /** Folds the value of the point just reached into the base, in place. */
    method NextPoint(p2: Transform2.TwoDimTransformPoint)
      modifies transformed
      ensures transformed.Value() == Add(old(transformed.Value()), p2.value)
    {
      var _ := Vector2.AddAssign(transformed, p2.value);
    }

    /** Interpolates inside the segment that starts at `p1`: the interpolant is the
        fraction t of the segment's displacement, and the result is the base moved by it,
        so it is the base at t = 0 and the base plus the displacement at t = 1. The base
        is not changed and both results are new vectors. */
    method ThisPoint(p1: Transform2.TwoDimTransformPoint, t: real)
      requires p1.next != null
      modifies this
      ensures interpolant != null && fresh(interpolant) && fresh(transformedInterpolated)
      ensures interpolant.Value() == MultiplyScalar(p1.next.value, t)
      ensures transformedInterpolated != null
      ensures transformedInterpolated.Value() == Add(transformed.Value(), interpolant.Value())
      ensures t == 0.0 ==> transformedInterpolated.Value() == transformed.Value()
      ensures t == 1.0 ==> transformedInterpolated.Value() == Add(transformed.Value(), p1.next.value)
      ensures transformed == old(transformed) && transformed.Value() == old(transformed.Value())
    {
      var i := Lerp(Zero, p1.next.value, t);
      LerpEndpoints(Zero, p1.next.value);
      interpolant := new Vector2(i.x, i.y);
      var s := Add(transformed.Value(), i);
      transformedInterpolated := new Vector2(s.x, s.y);
    }

    /** Takes the value of the point just left behind out of the base, in place. */
    method PrevPoint(p1: Transform2.TwoDimTransformPoint)
      modifies transformed
      ensures transformed.Value() == Subtract(old(transformed.Value()), p1.value)
    {
      var _ := Vector2.SubtractAssign(transformed, p1.value);
    }
  }
}
