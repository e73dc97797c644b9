/** The array-backed timeline of Animation/Timelines/Vector2Timeline.ts.

    Its base classes Timeline and Timepoint are not part of this model; a point's time is
    a field of the point, the timeline's points are the sequence `points`, the number of
    points is its length and the last point is its last element. */
module Timelines {
  import opened Vectors

  /** A keyframe of the array-backed timeline. */
  class Vector2Timepoint {
    const time: real
    const value: Vec

    constructor (time: real, value: Vec)
      ensures this.time == time && this.value == value
    {
      this.time := time;
      this.value := value;
    }
  }

  /** The times of `points` strictly increase. */
  ghost predicate Increasing(points: seq<Vector2Timepoint>)
  {
    forall i, j :: 0 <= i < j < |points| ==> points[i].time < points[j].time
  }

  /** A point can go at the end of `points` exactly when it is later than the last one. */
  predicate Appendable(points: seq<Vector2Timepoint>, time: real)
  {
    |points| == 0 || points[|points| - 1].time < time
  }

  /** Appending a point that is later than the last one keeps the times increasing. */
  lemma AppendKeepsIncreasing(points: seq<Vector2Timepoint>, p: Vector2Timepoint)
    requires Increasing(points) && Appendable(points, p.time)
    ensures Increasing(points + [p])
  {
    var r := points + [p];
    forall i, j | 0 <= i < j < |r|
      ensures r[i].time < r[j].time
    {
      assert r[i] == points[i];
      if j < |points| {
        assert r[j] == points[j];
      } else {
        assert r[j] == p;
        if i < |points| - 1 {
          assert points[i].time < points[|points| - 1].time;
        }
      }
    }
  }

  class Vector2Timeline {
    var points: seq<Vector2Timepoint>

    /** The timeline's points are in time order. */
    ghost predicate Valid()
      reads this
    {
      Increasing(points)
    }

    constructor ()
      ensures Valid() && points == []
    {
      points := [];
    }

    /** Appends a keyframe when the timeline is empty or the time is after the last
        point's; any other time leaves the timeline as it was. Always returns null. */
    method CreatePoint(time: real, value: Vec) returns (r: Vector2Timepoint?)
      requires Valid()
      modifies this
      ensures Valid() && r == null
      ensures Appendable(old(points), time) ==>
                |points| == |old(points)| + 1 && points[..|old(points)|] == old(points) &&
                fresh(points[|points| - 1]) &&
                points[|points| - 1].time == time && points[|points| - 1].value == value
      ensures !Appendable(old(points), time) ==> points == old(points)
    {
      var newPoint := new Vector2Timepoint(time, value);
      if |points| != 0 {
        if time > points[|points| - 1].time {
          AppendKeepsIncreasing(points, newPoint);
          points := points + [newPoint];
        }
      } else {
        AppendKeepsIncreasing(points, newPoint);
        points := points + [newPoint];
      }
      r := null;
    }
  }
}
