# Keyframe timelines and accumulating 2D transform controllers, in Dafny

This project models the animation core of a small TypeScript library that animates a 2D
transform by interpolating between keyframes, and proves properties of the model.

- **Vectors** (`vectors.dfy`, Math/Vector2.ts). A vector's value is the datatype `Vec`
  over the reals. Add, subtract, the scalar multiply and divide, rotate about a pivot and
  lerp return a new vector in the source, and dot returns a number; these are functions
  on `Vec`. The `Vec` functions `ComplexMultiply` and `ComplexDivide` are the arithmetic of
  complexMultiply and complexDivide, which in the source return nothing and write their
  result into the argument `r`: the static methods `Vector2.ComplexMultiplyInto` and
  `Vector2.ComplexDivideInto` do that, and the controller's Slerp steps use the
  functions. The operations that overwrite their first argument are static methods of
  the class `Vector2`, whose `x` and `y` fields they update in place: assign, addAssign,
  subtractAssign and the scalar assigns.
- **Linked timeline and segment controller** (`transform2.dfy`, Animation/Transform2Controller.ts).
  - `TwoDimTransformTimeline` is a doubly linked, time-ordered list of
    `TwoDimTransformPoint` nodes. It caches the first point, the last point and a count.
    The ghost sequence `Nodes` is the list in order. `Valid()` states that the links,
    the cached ends and the count agree with `Nodes`, and that the times strictly increase.
    `createPoint` is specified against the sorted insertion `InsertKey`.
  - `TwoDimTransformController` keeps a cursor `p1` at the left end of the active
    segment, and the accumulated base `transformed`. The base is the initial value with
    the values of the points after the first, up to the cursor, folded in (`Base`): by
    vector addition for Lerp, and by complex multiplication for Slerp.
  - `transform` walks the cursor back or forward one segment at a time. The walk keeps
    the base equal to `Base` at the new cursor. Then it interpolates inside the segment.
  - For Lerp the result equals `PathValue`. That is the straight line between the
    positions of the segment's two points, and it does not depend on where the cursor
    stood before.
- **Array-backed timeline** (`timelines.dfy`, Animation/Timelines/Vector2Timeline.ts).
  `createPoint` appends only when the timeline is empty or the time is later than the
  last point's.
- **Displacement animator** (`animators.dfy`, Animation/Animators/Vector2DispAnimator.ts).
  The segment hooks keep the two end vectors `v1` and `v2` one displacement apart:
  `v2 - v1` is the value of the segment's point.
- **Translation controller** (`controllers.dfy`, Animation/Controllers/TwoDimTranslationController.ts).
  The accumulating controller is split into hooks. They move the base forward or back
  by one point, or interpolate inside a segment.
- **As written** (`transform2_as_written.dfy`). Three operations of the linked timeline
  and the controller are also modelled exactly as written, on the keyframes of the
  timeline, each with inputs on which it goes wrong. The model of `transform` as written
  covers the whole call for Lerp: the range guard, both walks and the output. The demo
  timeline's discrepancy follows from the keyframes alone. See "## Findings".

The floating-point `slerp` of Vector2.ts is a parameter `slerp` of `Transform`, and
nothing is assumed about it. The model uses exact real arithmetic throughout.

The base classes of the last three files (Timeline, Timepoint, Vector2Animator, and the
two-argument TwoDimTransformController) are not part of this model. Their fields are
fields of the model's classes. The array timeline takes its count and its last point to
be the length and the last element of `points`.

Vector2DispAnimator.ts calls `Vector2.add`, `Vector2.subtract` and `Vector2.lerp` with an
output vector as the first argument, and calls `assign` as an instance method
(`v.assign(w)`). Vector2.ts offers none of these forms. They are modelled as "write
`a op b` into the output": `AddInto`, `SubtractInto`, `LerpInto` and `Assign`.
TwoDimTranslationController.ts uses only forms that Vector2.ts has: the in-place
`addAssign` and `subtractAssign`, and the returning `lerp` and `add`.

## Model

| member | source | states |
|---|---|---|
| Vectors.Add | Math/Vector2.ts:52-54 | adding the zero vector, on either side, changes nothing |
| Vectors.Subtract | Math/Vector2.ts:70-72 | the difference added back to the second operand gives the first; it is zero exactly when the operands are equal |
| Vectors.MultiplyScalar | Math/Vector2.ts:88-90 | scaling by 1 changes nothing and scaling by 0 gives the zero vector |
| Vectors.DivideScalar | Math/Vector2.ts:92-94 | dividing by a non-zero scalar is undone by multiplying by it |
| Vectors.ComplexDivide | Math/Vector2.ts:27-35 | complexDivide is the complex product with the divisor's conjugate |
| Vectors.AddSubtractInverse | Math/Vector2.ts:52-79 | subtracting a vector undoes adding it and adding undoes subtracting, so addAssign then subtractAssign of the same vector restores the target (as the translation controller's nextPoint then prevPoint of one point restore its base) |
| Vectors.DotSymmetric | Math/Vector2.ts:41-43 | dot is symmetric in its arguments |
| Vectors.DotSelf | Math/Vector2.ts:41-43 | the dot product of a vector with itself, its squared length, is never negative |
| Vectors.ComplexMultiplyLength | Math/Vector2.ts:19-25 | the squared length of a complex product is the product of the operands' squared lengths |
| Vectors.ComplexMultiplyIdentity | Math/Vector2.ts:19-25 | (1, 0) is a two-sided identity of the complex product |
| Vectors.ComplexDivideUndoesMultiply | Math/Vector2.ts:19-35 | dividing by a unit vector undoes multiplying by it |
| Vectors.ComplexMultiplyUndoesDivide | Math/Vector2.ts:19-35 | multiplying by a unit vector undoes dividing by it |
| Vectors.ComplexMultiplyKeepsUnit | Math/Vector2.ts:19-25 | the complex product of two unit vectors is a unit vector |
| Vectors.LerpEndpoints | Math/Vector2.ts:108-110 | lerp gives its first argument at t = 0 and its second at t = 1 |
| Vectors.Lerp | Math/Vector2.ts:108-110 | lerp from the zero vector is scaling by t |
| Vectors.RotateAsComplexMultiply | Math/Vector2.ts:10-17 | rotating about a pivot is the complex product of the offset from the pivot with the angle, moved back to the pivot |
| Vectors.RotateByIdentity | Math/Vector2.ts:10-17 | rotating by the angle (1, 0) returns the vector unchanged |
| Vectors.RotateFixesPivot | Math/Vector2.ts:10-17 | rotation maps the pivot to itself |
| Vectors.RotateKeepsDistance | Math/Vector2.ts:10-17 | rotating by a unit angle keeps the squared distance from the pivot |
| Vectors.Vector2.constructor | Math/Vector2.ts:5-8 | a new vector holds the given components |
| Vectors.Vector2.Assign | Math/Vector2.ts:45-50 | the first vector takes the second's components; the first is returned |
| Vectors.Vector2.AddAssign | Math/Vector2.ts:56-61 | the first vector becomes the sum; the first is returned |
| Vectors.Vector2.AddAssignScalar | Math/Vector2.ts:63-68 | the scalar is added to both components in place; the vector is returned |
| Vectors.Vector2.SubtractAssign | Math/Vector2.ts:74-79 | the first vector becomes the difference; the first is returned |
| Vectors.Vector2.SubtractAssignScalar | Math/Vector2.ts:81-86 | the scalar is subtracted from both components in place; the vector is returned |
| Vectors.Vector2.MultiplyAssignScalar | Math/Vector2.ts:96-101 | both components are scaled in place; the vector is returned |
| Vectors.Vector2.ComplexMultiplyInto | Math/Vector2.ts:19-25 | r receives the complex product of the operands' old values, even when r is one of them |
| Vectors.Vector2.ComplexDivideInto | Math/Vector2.ts:27-35 | r receives the quotient of the operands' old values, even when r is one of them |
| Vectors.Vector2.AddInto | Animation/Animators/Vector2DispAnimator.ts:8 | the output vector receives the sum |
| Vectors.Vector2.SubtractInto | Animation/Animators/Vector2DispAnimator.ts:18 | the output vector receives the difference |
| Vectors.Vector2.LerpInto | Animation/Animators/Vector2DispAnimator.ts:22 | the output vector receives the lerp |
| Transform2.TwoDimTransformPoint.constructor | Animation/Transform2Controller.ts:21-25 | a new point holds the given time and value and has no neighbours |
| Transform2.TwoDimTransformPoint.FindPointAtGreaterTime | Animation/Transform2Controller.ts:39-49 | the scan returns the first point after `start` whose time is greater than the query, and null exactly when there is none |
| Transform2.InsertKey | Animation/Transform2Controller.ts:94-121 | sorted insertion adds exactly the new keyframe: one more element, the same multiset plus the new one |
| Transform2.InsertKeyKeepsOrder | Animation/Transform2Controller.ts:94-121 | inserting a keyframe at a new time keeps the times strictly increasing |
| Transform2.InsertKeyAt | Animation/Transform2Controller.ts:100-109 | when the new time lies between positions p - 1 and p, sorted insertion splices it in at p |
| Transform2.SpliceLinked | Animation/Transform2Controller.ts:83-92 | a point linked in between its neighbours where its time belongs gives a linked, time-ordered list again |
| Transform2.TwoDimTransformTimeline.constructor | Animation/Transform2Controller.ts:57-61 | a new timeline is empty: count 0, first and last null |
| Transform2.TwoDimTransformTimeline.GetNumberOfPoints | Animation/Transform2Controller.ts:63-65 | the count is the number of points in the list |
| Transform2.TwoDimTransformTimeline.GetFirstPoint | Animation/Transform2Controller.ts:67-69 | the first point of the list, null when empty |
| Transform2.TwoDimTransformTimeline.GetLastPoint | Animation/Transform2Controller.ts:71-73 | the last point of the list, null when empty |
| Transform2.TwoDimTransformTimeline.LinkTwoPoints | Animation/Transform2Controller.ts:75-81 | left's next is right and right's prev is left; no other link changes |
| Transform2.TwoDimTransformTimeline.LinkThreePoints | Animation/Transform2Controller.ts:83-92 | left, middle and right are doubly linked in that order; no other link changes |
| Transform2.TwoDimTransformTimeline.LinkInto | Animation/Transform2Controller.ts:108-109 | linkThreePoints applied to two neighbours of a linked list links the new point in between them and leaves every other link of the list as it was |
| Transform2.TwoDimTransformTimeline.CountInsertedPoint | Animation/Transform2Controller.ts:118 | once a point is linked in, raising the count by one restores the timeline's invariant with the point spliced into the list and its keyframe into the keys |
| Transform2.TwoDimTransformTimeline.AppendPoint | Animation/Transform2Controller.ts:100-103 | a time after the last point's is linked after it and becomes the last point; the old points keep their order with the new one added at the end; the keys are the sorted insertion |
| Transform2.TwoDimTransformTimeline.PrependPoint | Animation/Transform2Controller.ts:104-109 | a time before the first point's is linked in front of it and becomes the first point; the old points keep their order after it; the keys are the sorted insertion |
| Transform2.TwoDimTransformTimeline.SplicePoint | Animation/Transform2Controller.ts:104-109 | a time between the first and last points' is linked in front of the first later point; the old points keep their order with the new one spliced in; the keys are the sorted insertion |
| Transform2.TwoDimTransformTimeline.CreatePoint | Animation/Transform2Controller.ts:94-121 | the old points keep their order and exactly one new point, holding the given time and value, is spliced in at some position k; the keys become the sorted insertion and stay strictly increasing; the count rises by 1; into an empty timeline the new point is both first and last; after the last point it is linked after the old last point and becomes last; null is returned |
| Transform2.UncombineCombine | Animation/Transform2Controller.ts:147-186 | taking a value out of the base undoes folding it in, for Slerp when the value is a unit vector |
| Transform2.SegmentIndex | Animation/Transform2Controller.ts:145-186 | the segment found starts at or before the time, and the time lies before its end unless it is the final segment |
| Transform2.SegmentLerp | Animation/Transform2Controller.ts:188-191 | the base plus the lerp from zero to the end value is the lerp between the positions of the segment's two points |
| Transform2.BracketingSegmentsAgree | Animation/Transform2Controller.ts:145-191 | every segment that contains the time gives the same lerp, so the result does not depend on where the cursor stood before |
| Transform2.LinearResultIsPathValue | Animation/Transform2Controller.ts:188-191 | the controller's Lerp result in any segment containing the time is the reference path value |
| Transform2.PathValueAtSegmentStart | Animation/Transform2Controller.ts:188-191 | at the time of a point that starts a segment, the path is at that point's position |
| Transform2.PathValueAtLastPoint | Animation/Transform2Controller.ts:188-191 | at the last point's time the path is at the last point's position |
| Transform2.PathValueAtKeyframe | Animation/Transform2Controller.ts:188-191 | the path passes through every point's position at its time |
| Transform2.TwoDimTransformController.constructor | Animation/Transform2Controller.ts:134-143 | accepts any timeline, empty or not; the cursor is the first point (none on an empty timeline), the base equals the initial value, and the two output vectors are new; on a ready timeline the controller invariant holds |
| Transform2.TwoDimTransformController.WalkBackFrom | Animation/Transform2Controller.ts:147-166 | the corrected backward walk stops at the last point at or before the time, with the base for that cursor; it takes out one value per segment crossed (`steps == c - c1`) |
| Transform2.TwoDimTransformController.WalkBack | Animation/Transform2Controller.ts:147-166 | after the backward walk the cursor's segment starts at or before the time and ends after it, and the base matches the cursor; the number of values taken out is the number of segments the cursor moved back |
| Transform2.TwoDimTransformController.WalkForwardFrom | Animation/Transform2Controller.ts:167-186 | the forward walk stops at the first segment whose end is at or after the time, with the base for that cursor; it folds in one value per segment crossed (`steps == c1 - c`) |
| Transform2.TwoDimTransformController.WalkForward | Animation/Transform2Controller.ts:167-186 | after the forward walk the cursor moved forward, p1.next.time >= time, and the base matches the cursor; the number of values folded in is the number of segments the cursor moved forward |
| Transform2.TwoDimTransformController.MoveCursor | Animation/Transform2Controller.ts:147-186 | after the walks the cursor's segment contains the time; the cursor stays put when its segment already did; for a time before the cursor's point the segment reached ends after the time, and for a time after the segment's end it starts before the time, so the cursor reached is the one segment of that kind; the number of values combined into or out of the base is the distance the cursor moved |
| Transform2.TwoDimTransformController.SegmentOutputs | Animation/Transform2Controller.ts:188-198 | t is the fraction of the segment reached; the interpolant is that of the end value at t, and the result is the base combined with it; both are new vectors |
| Transform2.TwoDimTransformController.Interpolate | Animation/Transform2Controller.ts:188-198 | the outputs are those of the cursor's segment; for Lerp the result is transformed + t * p1.next.value, which is the reference path value |
| Transform2.TwoDimTransformController.Transform | Animation/Transform2Controller.ts:145-200 | a time outside [0, last point's time] changes nothing; any other time leaves the cursor on a segment containing it (ending after the time when the walk went back, starting before it when it went forward, unmoved when the old segment contained it), the base for that cursor, and the interpolated outputs (for Lerp, the reference path value); the walk does one combine per segment crossed (`steps` is the distance between the old and the new cursor, 0 outside the range); `transformed` is afterwards the old object or a new one |
| Timelines.Vector2Timepoint.constructor | Animation/Timelines/Vector2Timeline.ts:4-7 | a point stores exactly the time and value it was given |
| Timelines.AppendKeepsIncreasing | Animation/Timelines/Vector2Timeline.ts:20-21 | appending a point later than the last keeps the times strictly increasing |
| Timelines.Vector2Timeline.constructor | Animation/Timelines/Vector2Timeline.ts:11-13 | a new timeline has no points |
| Timelines.Vector2Timeline.CreatePoint | Animation/Timelines/Vector2Timeline.ts:15-35 | on an empty timeline or after the last point's time the new point is pushed at the end; any other time leaves the points unchanged; the times stay increasing; null is returned |
| Animators.Vector2DispAnimator.constructor | Animation/Animators/Vector2DispAnimator.ts:2-4 | the animator holds the given points and animated vector |
| Animators.Vector2DispAnimator.FirstSegment | Animation/Animators/Vector2DispAnimator.ts:6-9 | v1 is the animated vector's value and v2 = v1 + points[p2].value |
| Animators.Vector2DispAnimator.NextSegment | Animation/Animators/Vector2DispAnimator.ts:11-14 | v1 is the old v2, and v2 is the old v2 + points[p2].value |
| Animators.Vector2DispAnimator.PrevSegment | Animation/Animators/Vector2DispAnimator.ts:16-19 | v2 is the old v1, and v1 is the old v1 - points[p2].value, so v2 - v1 == points[p2].value |
| Animators.Vector2DispAnimator.Interpolate | Animation/Animators/Vector2DispAnimator.ts:21-23 | the animated vector is lerp(v1, v2, t): v1 at t = 0 and v2 at t = 1; v1 and v2 are unchanged |
| Controllers.TwoDimTranslationController.constructor | Animation/Controllers/TwoDimTranslationController.ts:2-4 | the base starts at the initial value |
| Controllers.TwoDimTranslationController.NextPoint | Animation/Controllers/TwoDimTranslationController.ts:6-10 | the point's value is added to the base in place |
| Controllers.TwoDimTranslationController.ThisPoint | Animation/Controllers/TwoDimTranslationController.ts:12-15 | the interpolant is t * p1.next.value and the result is the base plus it, so the result is the base at t = 0 and the base plus the end value at t = 1; both are new vectors and the base is unchanged |
| Controllers.TwoDimTranslationController.PrevPoint | Animation/Controllers/TwoDimTranslationController.ts:17-21 | the point's value is subtracted from the base in place |
| Transform2AsWritten.ScanAsWritten | Animation/Transform2Controller.ts:39-49 | as written, the scan can only return the point right after `start` |
| Transform2AsWritten.ScanAsWrittenHangs | Animation/Transform2Controller.ts:39-49 | as written, the scan never returns once the point after `start` is not later than the time |
| Transform2AsWritten.ScanAsWrittenExample | Animation/Transform2Controller.ts:39-49 | on times 0, 2, 4 the search for time 3 never returns |
| Transform2AsWritten.CreateAsWritten | Animation/Transform2Controller.ts:94-121 | as written, an insertion that finishes has added exactly the new keyframe, possibly out of order, and a null dereference happens only for a time not after the last point's |
| Transform2AsWritten.CreateAsWrittenBeforeFirst | Animation/Transform2Controller.ts:104-109 | as written, a time before the first point's is linked in after the first point, which breaks the order; with one point it dereferences null |
| Transform2AsWritten.CreateAsWrittenExample | Animation/Transform2Controller.ts:104-109 | inserting time 1 into times 2, 4 gives 2, 1, 4 instead of 1, 2, 4; into the single time 2 it dereferences null |
| Transform2AsWritten.BackWalkAsWrittenOneSegment | Animation/Transform2Controller.ts:147-166 | as written, walking back one segment takes the value of point c - 2 out of the base instead of that of point c |
| Transform2AsWritten.BackWalkAsWritten | Animation/Transform2Controller.ts:147-166 | as written, the backward walk always stops; it never finishes at the first point (there it dereferences null), and when it finishes the cursor is at or before the time and, starting below a later point, its segment ends after the time |
| Transform2AsWritten.ForwardWalkAsWritten | Animation/Transform2Controller.ts:167-186 | as written, the forward walk always stops; when it finishes, its segment ends at or after the time and, once past a point before the time, starts before it; it finishes whenever the time is not after the last point's |
| Transform2AsWritten.CursorWalkAsWritten | Animation/Transform2Controller.ts:145-186 | as written, the cursor search always stops, and when it finishes the cursor's segment contains the time (only the base can be wrong); at or after the cursor's own point it always finishes |
| Transform2AsWritten.LinearTransformAsWritten | Animation/Transform2Controller.ts:145-191 | as written, transform always stops; it gives no result exactly when the time is outside [0, last point's time]; a result comes from a segment containing the time; from any cursor after the first point, a time before the second point's dereferences null |
| Transform2AsWritten.LinearOutputHalfway | Animation/Transform2Controller.ts:188-191 | halfway through a segment the linear result is the base plus half the segment's end value |
| Transform2AsWritten.DemoKeys | Animation/Transform2Controller.ts:220-227 | the demo's linear timeline is six keyframes, created at times 0, 2, 4, 5, 7 and 9 |
| Transform2AsWritten.DemoKeysIncreasing | Animation/Transform2Controller.ts:220-227 | the demo's keyframe times strictly increase, so the timeline is one the corrected model accepts |
| Transform2AsWritten.DemoForwardWalks | Animation/Transform2Controller.ts:167-186 | on the demo timeline, from cursor 0 with base (0, 0), time 4.5 reaches cursor 2 with base (0, 0) and time 3 cursor 1 with base (250, 0) |
| Transform2AsWritten.DemoBackWalks | Animation/Transform2Controller.ts:147-166 | on the demo timeline, from cursor 2 with base (0, 0), time 3 reaches cursor 1 keeping base (0, 0), and time 1 dereferences null |
| Transform2AsWritten.DemoOutputs | Animation/Transform2Controller.ts:188-191 | on the demo timeline, the linear results for those cursors and bases are (25, 0), (-125, 0) and (125, 0) |
| Transform2AsWritten.TransformAsWrittenExample | Animation/Transform2Controller.ts:145-191 | a new controller on the demo timeline evaluated at 4.5 gives (25, 0) and is left at cursor 2 with base (0, 0); evaluated next at 3 it gives (-125, 0), where a new controller evaluated at 3 gives (125, 0); evaluated at 1 instead it dereferences null |

## Left out

- TwoDimTransformAnimator (Animation/Transform2Controller.ts:203-279) is left out. It is the wall-clock driver (`performance.now`), console output and demo wiring.
- Transformable3 is left out. It is only declared, and nothing implements it.
- `magnitude`, `angleBetween` and `slerp` of Vector2.ts are left out. They are floating-point square root and trigonometry. `slerp` is a parameter of `Transform` and `Interpolate`, and nothing is assumed about it.
- findPointAtLesserTime is left out. Nothing calls it, and it has the same non-advancing loop as findPointAtGreaterTime.
- The base classes Timeline, Timepoint, Vector2Animator and the two-argument TwoDimTransformController are not part of this model. Their fields are fields of the model's classes, and their constructors are reduced to storing their arguments. The one exception is the displacement animator's constructor: it allocates the end vectors `v1` and `v2` as two new objects. The hooks need them to differ from each other and from the animated vector (`Valid`), and this model assumes that Vector2Animator sets them up that way.
- Timelines.Vector2Timeline and Animators.Vector2DispAnimator: `points` is a sequence value in both. In the source it is an array that createPoint updates in place with `push`, and an animator may hold the very array of a timeline. So a point appended after an animator was built is visible to that animator, and this sharing is not modelled.
- Keyframe values are held as values (`Vec`), not as shared `Vector2` objects. The core never writes to a keyframe's vector, so aliasing between a keyframe value and another vector is not modelled.
- Transform2.TwoDimTransformController.constructor: accepts every timeline, but promises the invariant `Valid()` only on a ready one (`TimelineReady`: at least two points, the first at or before 0, unit values after the first for Slerp), which is what Transform requires. The model does not follow a controller built on an unready timeline that becomes ready through later `createPoint` calls, since the ghost cursor is a position in the points as they were.
- Transform2.TwoDimTransformController.Transform: requires a timeline of at least two points whose first point is at or before time 0. For Slerp it also requires every value after the first to be a unit vector. With no point, the source's guard reads the time of the missing last point. With one point, every time the guard lets through dereferences null: before the point's time `p1` becomes its missing `prev`, and at that time the source reads the missing `p1.next`. With two or more points and a first point after 0, only a time in [0, first point's time) dereferences null: the backward walk ends with `p1` as the first point's missing `prev`, and the interpolation reads `this.p1.time`; later times work. Without unit values, the complex division of the corrected backward walk does not undo the multiplication of the forward walk.
- Transform2.TwoDimTransformTimeline.CreatePoint: requires the new time to differ from every existing point's time. At the last point's time, with one point the source's search returns null and the splice dereferences it; with two or more the search never advances `p` and does not return (the findings model both in Transform2AsWritten.ScanAsWritten). At any other existing time the points would no longer strictly increase.
- Transform2.TwoDimTransformTimeline.CreatePoint: links the new point even in the branch for an empty timeline. There the source allocates a second, identical point; that is indistinguishable from using the first.
- Transform2.TwoDimTransformPoint.FindPointAtGreaterTime: models the intended scan, which advances one point per step. See "## Findings" for the loop as written.
- Transform2.TwoDimTransformController.WalkBackFrom: models the backward walk as corrected (it takes out the value of the point after p1). See "## Findings".
- The Slerp walks as written build a new vector object for the base at each step. The model does the same, so `transformed` may be a different object after `Transform`; the contract says it is either the old object or a new one.
- Animators.Vector2DispAnimator.FirstSegment, NextSegment and PrevSegment: require `p2` to index a point, and Controllers.TwoDimTranslationController.ThisPoint requires `p1.next` to be a point. The source reads `this.points[p2].value` (Vector2DispAnimator.ts:8, 13, 18) and `p1.next.value` (TwoDimTranslationController.ts:13) without a check and raises a TypeError otherwise (in the animator hooks, after `v1` or `v2` has already been overwritten); that error path is not modelled.
- Vectors.DivideScalar: requires a non-zero divisor. The source also divides by 0 and gets Infinity or NaN, which the reals do not have. Its only caller in the source is `slerp`, which is left out.
- `dot` and `rotate` have no contracts of their own; their properties are the lemmas DotSymmetric, DotSelf, RotateAsComplexMultiply, RotateByIdentity, RotateFixesPivot and RotateKeepsDistance. The same goes for `complexMultiply`, with ComplexMultiplyIdentity, ComplexMultiplyLength and ComplexMultiplyKeepsUnit. Facts with products of unknowns would otherwise be instantiated at every use of these functions.
- Floating-point rounding is not modelled: all arithmetic is on the reals.

## Findings

| source | as written | input that shows it | evidently intended | confidence | as-written member | corrected member |
|---|---|---|---|---|---|---|
| Animation/Transform2Controller.ts:42-46 | the loop of findPointAtGreaterTime never advances `p`, so it spins for ever when the point after `start` is not later than the time | times 0, 2, 4; search for the first point after time 3 | the loop moves `p` to `p.next` each step and returns the first later point, or null | high (not executed) | Transform2AsWritten.ScanAsWrittenExample | Transform2.TwoDimTransformPoint.FindPointAtGreaterTime |
| Animation/Transform2Controller.ts:104-109 | a time before the first point's goes through the splice branch: it is linked in after the first point, and with a single point `pointAtGreaterTime` is null and `.prev` dereferences it | points at times 2 and 4, insert time 1 (gives 2, 1, 4); a single point at time 2, insert time 1 (null dereference) | the new point is linked in front of the first point and becomes the first point | high (not executed) | Transform2AsWritten.CreateAsWrittenExample | Transform2.TwoDimTransformTimeline.PrependPoint |
| Animation/Transform2Controller.ts:150-156 | the backward walk takes `p1.prev.value` out of the base (the value of the point before the one it stands on), and at the first point `p1.prev` is null | the demo's linear timeline (times 0, 2, 4, 5, 7, 9; values (0,0), (250,0), (-250,0), (50,0), (-200,50), (50,100)), initial value (0,0): transform(4.5) then transform(3) yields (-125, 0), where transform(3) on a new controller yields (125, 0); transform(4.5) then transform(1) dereferences null | each step takes out `p1.next.value`, the value folded in when the cursor moved onto `p1.next` | high (not executed) | Transform2AsWritten.TransformAsWrittenExample | Transform2.TwoDimTransformController.WalkBackFrom |
