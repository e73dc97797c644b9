/** Three operations of Animation/Transform2Controller.ts as they are written, modelled
    on the keyframes of a timeline (its points' times and values in list order), next to
    inputs on which they go wrong. The rest of the model uses the corrected versions in
    module Transform2.

    A run of an operation either finishes, dereferences null, or never finishes. */
module Transform2AsWritten {
  import opened Vectors
  import opened Transform2

  datatype Run<T> = Done(result: T) | NullDereference | NoTermination

  // ----- findPointAtGreaterTime -----

  /** findPointAtGreaterTime as written, from the point at position s: it looks at the
      point after `start` again and again without moving on, so it either returns that
      point (as its position) at once, returns null when there is no such point, or never
      returns. */
  function ScanAsWritten(keys: seq<Keyframe>, s: nat, time: real): (r: Run<Option<nat>>)
    requires s < |keys|
    ensures r.Done? && r.result.Some? ==> r.result.value == s + 1 && s + 1 < |keys| && time < keys[s + 1].time
  {
    if s + 1 == |keys| then Done(None)
    else if keys[s + 1].time > time then Done(Some(s + 1))
    else NoTermination
  }

  /** The scan as written never returns once the point after `start` is not later than
      `time`, even when a later point exists. */
  lemma ScanAsWrittenHangs(keys: seq<Keyframe>, s: nat, time: real)
    requires s + 1 < |keys| && keys[s + 1].time <= time
    ensures ScanAsWritten(keys, s, time) == NoTermination
  {
  }

  /** On the times 0, 2 and 4, searching for the first point after time 3 never returns,
      although the point at time 4 is after it. */
  lemma ScanAsWrittenExample()
    ensures var keys := [Keyframe(0.0, Zero), Keyframe(2.0, Zero), Keyframe(4.0, Zero)];
            ScanAsWritten(keys, 0, 3.0) == NoTermination && 3.0 < keys[2].time
  {
  }

  // ----- createPoint -----

  /** createPoint as written, on the keyframes of the timeline: a time after the last
      point's is appended; any other time is linked in front of the point that the scan
      returns, dereferencing null when the scan returns null. When it finishes it has
      added exactly the new keyframe (possibly out of order), and it dereferences null only
      for a time that is not after the last point's. */
  function CreateAsWritten(keys: seq<Keyframe>, key: Keyframe): (r: Run<seq<Keyframe>>)
    ensures r.Done? ==> multiset(r.result) == multiset(keys) + multiset{key}
    ensures r.NullDereference? ==> keys != [] && key.time <= keys[|keys| - 1].time
  {
    if keys == [] then Done([key])
    else if key.time > keys[|keys| - 1].time then Done(keys + [key])
    else
      match ScanAsWritten(keys, 0, key.time)
      case Done(None) => NullDereference
      case Done(Some(g)) =>
        assert keys[..g] + keys[g..] == keys;
        Done(keys[..g] + [key] + keys[g..])
      case NullDereference => NullDereference
      case NoTermination => NoTermination
  }

  /** A time before the first point's is linked in after the first point when there are
      two points or more, which breaks the time order; with a single point the splice
      dereferences null. */
  lemma CreateAsWrittenBeforeFirst(keys: seq<Keyframe>, key: Keyframe)
    requires StrictlyIncreasing(keys) && keys != [] && key.time < keys[0].time
    ensures |keys| == 1 ==> CreateAsWritten(keys, key) == NullDereference
    ensures |keys| >= 2 ==>
              CreateAsWritten(keys, key) == Done([keys[0], key] + keys[1..]) &&
              !StrictlyIncreasing([keys[0], key] + keys[1..])
  {
    if |keys| >= 2 {
      assert keys[0].time < keys[|keys| - 1].time;
      assert keys[0].time < keys[1].time;
      var r := [keys[0], key] + keys[1..];
      assert r[0] == keys[0] && r[1] == key;
      assert keys[..1] + [key] + keys[1..] == r;
    }
  }

  /** On a timeline with points at times 2 and 4, inserting time 1 as written gives the
      times 2, 1, 4, where sorted insertion gives 1, 2, 4; on a timeline with only the
      point at time 2 it dereferences null. */
  lemma CreateAsWrittenExample()
    ensures var k1, k2, k4 := Keyframe(1.0, Zero), Keyframe(2.0, Zero), Keyframe(4.0, Zero);
            CreateAsWritten([k2, k4], k1) == Done([k2, k1, k4]) &&
            InsertKey([k2, k4], k1) == [k1, k2, k4] &&
            CreateAsWritten([k2], k1) == NullDereference
  {
    var k1, k2, k4 := Keyframe(1.0, Zero), Keyframe(2.0, Zero), Keyframe(4.0, Zero);
    assert [k2, k4][..1] + [k1] + [k2, k4][1..] == [k2, k1, k4];
  }

  // ----- transform -----

  /** The loop of transform's backward walk as written, standing at position j with the
      base `base`: it takes the value of the point before p1 (instead of the one after it)
      out of the base, so at the first point it dereferences null. The result is the new
      cursor position and base. */
  function BackWalkAsWritten(kind: InterpolationType, keys: seq<Keyframe>, j: nat,
                             base: Vec, time: real): (r: Run<(nat, Vec)>)
    requires j < |keys|
    ensures !r.NoTermination?
    ensures r.Done? ==> 1 <= r.result.0 <= j && keys[r.result.0].time <= time
    ensures r.Done? && j + 1 < |keys| && time < keys[j + 1].time ==> time < keys[r.result.0 + 1].time
    decreases j
  {
    if j == 0 then NullDereference
    else
      var b := Uncombine(kind, base, keys[j - 1].value);
      if keys[j].time <= time then Done((j, b))
      else BackWalkAsWritten(kind, keys, j - 1, b, time)
  }

  /** The loop of transform's forward walk as written, with p2 at position j: it folds the
      value of the point before p2 into the base and stops once p2 is at or after `time`,
      leaving the cursor at the point before p2. Running off the end dereferences null. */
  function ForwardWalkAsWritten(kind: InterpolationType, keys: seq<Keyframe>, j: nat,
                                base: Vec, time: real): (r: Run<(nat, Vec)>)
    requires 1 <= j <= |keys|
    ensures !r.NoTermination?
    ensures r.Done? ==> j - 1 <= r.result.0 && r.result.0 + 1 < |keys| && time <= keys[r.result.0 + 1].time
    ensures r.Done? && keys[j - 1].time < time ==> keys[r.result.0].time < time
    ensures j < |keys| && time <= keys[|keys| - 1].time ==> r.Done?
    decreases |keys| - j
  {
    if j == |keys| then NullDereference
    else
      var b := Combine(kind, base, keys[j - 1].value);
      if keys[j].time >= time then Done((j - 1, b))
      else ForwardWalkAsWritten(kind, keys, j + 1, b, time)
  }

  /** transform's search for the segment of `time` as written, from the cursor at
      position c with the base `base`: the new cursor position and base. When it finishes,
      the cursor's segment contains the time (only the base can be wrong), and at or after
      the cursor's own point it always finishes. */
  function CursorWalkAsWritten(kind: InterpolationType, keys: seq<Keyframe>, c: nat,
                               base: Vec, time: real): (r: Run<(nat, Vec)>)
    requires c + 1 < |keys|
    ensures !r.NoTermination?
    ensures r.Done? ==> r.result.0 + 1 < |keys| && keys[r.result.0].time <= time <= keys[r.result.0 + 1].time
    ensures keys[c].time <= time <= keys[|keys| - 1].time ==> r.Done?
  {
    if time < keys[c].time then
      (if c == 0 then NullDereference else BackWalkAsWritten(kind, keys, c - 1, base, time))
    else if time > keys[c + 1].time then ForwardWalkAsWritten(kind, keys, c + 2, base, time)
    else Done((c, base))
  }

  /** The linear result at `time` in the segment that starts at point c, for the base
      `base`: the base moved by the segment's displacement scaled by the fraction. */
  function LinearOutputAsWritten(keys: seq<Keyframe>, c: nat, base: Vec, time: real): Vec
    requires StrictlyIncreasing(keys) && c + 1 < |keys|
  {
    var t := (time - keys[c].time) / (keys[c + 1].time - keys[c].time);
    Add(base, Lerp(Zero, keys[c + 1].value, t))
  }

  /** transform with linear interpolation as written, from the cursor at position c with
      the base `base`: the new cursor, the new base and the result, or None for the result
      when the time is outside [0, last point's time] and nothing changes. It always
      stops; a result comes from a segment containing the time; it finishes for any time in
      range at or after the cursor's point; and from any cursor after the first point, a
      time before the second point's dereferences null. */
  function LinearTransformAsWritten(keys: seq<Keyframe>, c: nat, base: Vec, time: real)
    : (r: Run<(nat, Vec, Option<Vec>)>)
    requires StrictlyIncreasing(keys) && c + 1 < |keys|
    ensures !r.NoTermination?
    ensures r.Done? ==> r.result.0 + 1 < |keys|
    ensures r.Done? && r.result.2.Some? ==> keys[r.result.0].time <= time <= keys[r.result.0 + 1].time
    ensures r.Done? && r.result.2.None? <==> !(0.0 <= time <= keys[|keys| - 1].time)
    ensures keys[c].time <= time <= keys[|keys| - 1].time && 0.0 <= time ==> r.Done?
    ensures 1 <= c && 0.0 <= time < keys[1].time ==> r == NullDereference
  {
    if !(0.0 <= time <= keys[|keys| - 1].time) then Done((c, base, None))
    else
      match CursorWalkAsWritten(Linear, keys, c, base, time)
      case Done(w) => Done((w.0, w.1, Some(LinearOutputAsWritten(keys, w.0, w.1, time))))
      case NullDereference => NullDereference
      case NoTermination => NoTermination
  }

  /** Walking back one segment as written takes out the value of point c - 2, while the
      base for cursor c - 1 is the base for cursor c with the value of point c taken out. */
  lemma BackWalkAsWrittenOneSegment(kind: InterpolationType, keys: seq<Keyframe>, c: nat,
                                    base: Vec, time: real)
    requires 2 <= c < |keys| && keys[c - 1].time <= time
    ensures BackWalkAsWritten(kind, keys, c - 1, base, time)
            == Done((c - 1, Uncombine(kind, base, keys[c - 2].value)))
  {
  }

  /** The keyframes of the source's linear demo timeline: times 0, 2, 4, 5, 7 and 9 with
      the values (0, 0), (250, 0), (-250, 0), (50, 0), (-200, 50) and (50, 100). */
  function DemoKeys(): (keys: seq<Keyframe>)
    ensures |keys| == 6
  {
    [Keyframe(0.0, Vec(0.0, 0.0)), Keyframe(2.0, Vec(250.0, 0.0)),
     Keyframe(4.0, Vec(-250.0, 0.0)), Keyframe(5.0, Vec(50.0, 0.0)),
     Keyframe(7.0, Vec(-200.0, 50.0)), Keyframe(9.0, Vec(50.0, 100.0))]
  }

  /** The demo's times strictly increase. */
  lemma DemoKeysIncreasing()
    ensures StrictlyIncreasing(DemoKeys())
  {
    var keys := DemoKeys();
    assert forall i :: 0 <= i < 5 ==> keys[i].time < keys[i + 1].time;
  }

  /** The forward segment searches of the demo: from cursor 0 with the initial base
      (0, 0), time 4.5 walks forward to cursor 2 with the base (0, 0) and time 3 to
      cursor 1 with the base (250, 0). */
  lemma DemoForwardWalks()
    ensures CursorWalkAsWritten(Linear, DemoKeys(), 0, Zero, 4.5) == Done((2, Zero))
    ensures CursorWalkAsWritten(Linear, DemoKeys(), 0, Zero, 3.0) == Done((1, Vec(250.0, 0.0)))
  {
    var keys := DemoKeys();
    assert ForwardWalkAsWritten(Linear, keys, 3, Vec(250.0, 0.0), 4.5) == Done((2, Zero));
  }

  /** On any timeline whose first points are at times 0, 2 and 4 with (0, 0) as the
      first value, from cursor 2 with the base (0, 0), time 3 walks back to cursor 1 but
      keeps the base (0, 0). */
  lemma BackWalkToCursorOne(keys: seq<Keyframe>)
    requires 4 <= |keys| && keys[0].value == Zero && keys[1].time == 2.0 && keys[2].time == 4.0
    ensures CursorWalkAsWritten(Linear, keys, 2, Zero, 3.0) == Done((1, Zero))
  {
    assert Uncombine(Linear, Zero, keys[0].value) == Zero;
  }

  /** On any timeline whose second and third points are at times 2 and 4, from cursor 2
      time 1 walks back past the second point and dereferences null. */
  lemma BackWalkPastSecondPoint(keys: seq<Keyframe>, base: Vec)
    requires 4 <= |keys| && keys[1].time == 2.0 && keys[2].time == 4.0
    ensures CursorWalkAsWritten(Linear, keys, 2, base, 1.0) == NullDereference
  {
  }

  /** The backward segment searches of the demo: from cursor 2 with the base (0, 0),
      time 3 walks back to cursor 1 but keeps the base (0, 0), and time 1 dereferences
      null. */
  lemma DemoBackWalks()
    ensures CursorWalkAsWritten(Linear, DemoKeys(), 2, Zero, 3.0) == Done((1, Zero))
    ensures CursorWalkAsWritten(Linear, DemoKeys(), 2, Zero, 1.0) == NullDereference
  {
    BackWalkToCursorOne(DemoKeys());
    BackWalkPastSecondPoint(DemoKeys(), Zero);
  }

  /** Halfway through a segment the linear result is the base moved by half the
      segment's end value. */
  lemma LinearOutputHalfway(keys: seq<Keyframe>, c: nat, base: Vec, time: real)
    requires StrictlyIncreasing(keys) && c + 1 < |keys|
    requires 2.0 * time == keys[c].time + keys[c + 1].time
    ensures LinearOutputAsWritten(keys, c, base, time) == Add(base, MultiplyScalar(keys[c + 1].value, 0.5))
  {
    var d := keys[c + 1].time - keys[c].time;
    assert d > 0.0;
    assert time - keys[c].time == 0.5 * d;
    assert (time - keys[c].time) / d == 0.5;
  }

  /** Halfway through the demo's segment from time 4 to 5, with the base (0, 0), the
      linear result is (25, 0); halfway through the segment from time 2 to 4 it is
      (-125, 0) with the base (0, 0) and (125, 0) with the base (250, 0). */
  lemma DemoOutputs()
    ensures StrictlyIncreasing(DemoKeys())
    ensures LinearOutputAsWritten(DemoKeys(), 2, Zero, 4.5) == Vec(25.0, 0.0)
    ensures LinearOutputAsWritten(DemoKeys(), 1, Zero, 3.0) == Vec(-125.0, 0.0)
    ensures LinearOutputAsWritten(DemoKeys(), 1, Vec(250.0, 0.0), 3.0) == Vec(125.0, 0.0)
  {
    var keys := DemoKeys();
    DemoKeysIncreasing();
    LinearOutputHalfway(keys, 2, Zero, 4.5);
    LinearOutputHalfway(keys, 1, Zero, 3.0);
    LinearOutputHalfway(keys, 1, Vec(250.0, 0.0), 3.0);
  }

  /** A new controller on the demo timeline with the initial value (0, 0), evaluated at
      time 4.5, is left at cursor 2 with the base (0, 0). Evaluated next at time 3, it walks
      back to cursor 1 keeping that base and gives (-125, 0), where a new controller
      evaluated at time 3 gives (125, 0); evaluated at time 1 instead, it dereferences null. */
  lemma TransformAsWrittenExample()
    ensures StrictlyIncreasing(DemoKeys())
    ensures LinearTransformAsWritten(DemoKeys(), 0, Zero, 4.5) == Done((2, Zero, Some(Vec(25.0, 0.0))))
    ensures LinearTransformAsWritten(DemoKeys(), 2, Zero, 3.0) == Done((1, Zero, Some(Vec(-125.0, 0.0))))
    ensures LinearTransformAsWritten(DemoKeys(), 0, Zero, 3.0) == Done((1, Vec(250.0, 0.0), Some(Vec(125.0, 0.0))))
    ensures LinearTransformAsWritten(DemoKeys(), 2, Zero, 1.0) == NullDereference
  {
    DemoForwardWalks();
    DemoBackWalks();
    DemoOutputs();
  }
}
