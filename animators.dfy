/** The displacement animator of Animation/Animators/Vector2DispAnimator.ts.

    Its base class Vector2Animator is not part of this model: the fields it holds and the
    hooks below use (the points, the animated vector and the two segment end vectors) are
    fields of the class here, and the driver that calls the hooks is left out. The end
    vectors and the animated vector are three different objects. */
module Animators {
  import opened Vectors
  import opened Timelines

  class Vector2DispAnimator {
    const points: seq<Vector2Timepoint>
    const animatable: Vector2
    /** The positions at the two ends of the current segment. */
    const v1: Vector2
    const v2: Vector2

    ghost predicate Valid()
    {
      animatable != v1 && animatable != v2 && v1 != v2
    }

    /** The segment's end vectors span the displacement `d`. */
    ghost predicate Spans(d: Vec)
      reads v1, v2
    {
      Subtract(v2.Value(), v1.Value()) == d
    }

    constructor (points: seq<Vector2Timepoint>, animatable: Vector2)
      ensures Valid() && this.points == points && this.animatable == animatable
      ensures fresh(v1) && fresh(v2)
    {
      this.points := points;
      this.animatable := animatable;
      v1 := new Vector2(0.0, 0.0);
      v2 := new Vector2(0.0, 0.0);
    }

    /** Starts the first segment at the animated vector's current position. */
    method FirstSegment(p1: int, p2: int)
      requires Valid() && 0 <= p2 < |points|
      modifies v1, v2
      ensures v1.Value() == old(animatable.Value())
      ensures v2.Value() == Add(v1.Value(), points[p2].value)
      ensures Spans(points[p2].value)
      ensures animatable.Value() == old(animatable.Value())
    {
      var _ := Vector2.Assign(v1, animatable.Value());
      Vector2.AddInto(v2, v1.Value(), points[p2].value);
    }

    /** Moves on one segment: the old end becomes the start. */
    method NextSegment(p1: int, p2: int)
      requires Valid() && 0 <= p2 < |points|
      modifies v1, v2
      ensures v1.Value() == old(v2.Value())
      ensures v2.Value() == Add(old(v2.Value()), points[p2].value)
      ensures Spans(points[p2].value)
    {
      var _ := Vector2.Assign(v1, v2.Value());
      Vector2.AddInto(v2, v1.Value(), points[p2].value);
    }

    /** Moves back one segment: the old start becomes the end. */
    method PrevSegment(p1: int, p2: int)
      requires Valid() && 0 <= p2 < |points|
      modifies v1, v2
      ensures v2.Value() == old(v1.Value())
      ensures v1.Value() == Subtract(old(v1.Value()), points[p2].value)
      ensures Spans(points[p2].value)
    {
      var _ := Vector2.Assign(v2, v1.Value());
      Vector2.SubtractInto(v1, v2.Value(), points[p2].value);
    }

    /** Places the animated vector a fraction t of the way along the segment; it is at the
        start for t = 0 and at the end for t = 1. */
    method Interpolate(p1: int, p2: int, t: real)
      requires Valid()
      modifies animatable
      ensures animatable.Value() == Lerp(v1.Value(), v2.Value(), t)
      ensures t == 0.0 ==> animatable.Value() == v1.Value()
      ensures t == 1.0 ==> animatable.Value() == v2.Value()
      ensures v1.Value() == old(v1.Value()) && v2.Value() == old(v2.Value())
    {
      LerpEndpoints(v1.Value(), v2.Value());
      Vector2.LerpInto(animatable, v1.Value(), v2.Value(), t);
    }
  }
}
