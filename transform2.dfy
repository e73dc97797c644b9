/** The linked keyframe timeline and the segment controller
    (Animation/Transform2Controller.ts).

    A timeline is a doubly linked, time-ordered list of keyframe points with cached
    first and last points and a count. A controller keeps a cursor at the left end of
    the active segment and an accumulated base: the initial value combined, in order,
    with the values of every point after the first up to the cursor (vector addition
    for linear interpolation, complex multiplication for spherical interpolation).
    Evaluating at a time walks the cursor one segment at a time, folding a value into
    or out of the base at each step, and then interpolates inside the segment.
 */
module Transform2 {
  import opened Vectors

  datatype Option<T> = None | Some(value: T)

  /** A keyframe as a value: its time and its value. */
  datatype Keyframe = Keyframe(time: real, value: Vec)

  ghost predicate StrictlyIncreasing(keys: seq<Keyframe>)
  {
    forall i, j :: 0 <= i < j < |keys| ==> keys[i].time < keys[j].time
  }

  /** No keyframe of `keys` is at `time`. */
  ghost predicate TimeIsNew(keys: seq<Keyframe>, time: real)
  {
    forall i :: 0 <= i < |keys| ==> keys[i].time != time
  }

  // ----- Keyframe points and the linked list they form -----

  class TwoDimTransformPoint {
    const time: real
    const value: Vec
    var next: TwoDimTransformPoint?
    var prev: TwoDimTransformPoint?

    constructor (time: real, value: Vec)
      ensures this.time == time && this.value == value
      ensures next == null && prev == null
    {
      this.time := time;
      this.value := value;
      next := null;
      prev := null;
    }

    /** Scans the points after `start` (the `start`-th of `nodes`) for the first one whose
        time is greater than `time`; null when there is none. */
    static method FindPointAtGreaterTime(time: real, start: TwoDimTransformPoint,
                                         ghost nodes: seq<TwoDimTransformPoint>, ghost s: nat)
      returns (p: TwoDimTransformPoint?, ghost k: nat)
      requires Linked(nodes) && s < |nodes| && nodes[s] == start
      ensures p == null <==> forall i :: s < i < |nodes| ==> nodes[i].time <= time
      ensures p != null ==> s < k < |nodes| && p == nodes[k] && time < p.time
      ensures p != null ==> forall i :: s < i < k ==> nodes[i].time <= time
    {
      p := start.next;
      k := s + 1;
      while p != null
        invariant s < k <= |nodes|
        invariant p == if k < |nodes| then nodes[k] else null
        invariant forall i :: s < i < k ==> nodes[i].time <= time
        decreases |nodes| - k
      {
        if p.time > time {
          return;
        }
        p := p.next;
        k := k + 1;
      }
    }
  }

  /** The keyframes of a list of points, in list order. */
  ghost function KeysOf(nodes: seq<TwoDimTransformPoint>): seq<Keyframe>
  {
    seq(|nodes|, i requires 0 <= i < |nodes| => Keyframe(nodes[i].time, nodes[i].value))
  }

  /** `nodes` form a properly terminated doubly linked list whose times strictly increase. */
  ghost predicate Linked(nodes: seq<TwoDimTransformPoint>)
    reads nodes
  {
    (forall i {:trigger nodes[i].prev} :: 0 <= i < |nodes| ==>
       nodes[i].prev == if i == 0 then null else nodes[i - 1]) &&
    (forall i {:trigger nodes[i].next} :: 0 <= i < |nodes| ==>
       nodes[i].next == if i == |nodes| - 1 then null else nodes[i + 1]) &&
    (forall i, j {:trigger nodes[i].time, nodes[j].time} :: 0 <= i < j < |nodes| ==> nodes[i].time < nodes[j].time)
  }

  lemma LinkedKeysIncrease(nodes: seq<TwoDimTransformPoint>)
    requires Linked(nodes)
    ensures StrictlyIncreasing(KeysOf(nodes))
  {
  }

  lemma KeysOfSplice(nodes: seq<TwoDimTransformPoint>, k: nat, n: TwoDimTransformPoint)
    requires k <= |nodes|
    ensures KeysOf(nodes[..k] + [n] + nodes[k..])
         == KeysOf(nodes)[..k] + [Keyframe(n.time, n.value)] + KeysOf(nodes)[k..]
  {
    var s := nodes[..k] + [n] + nodes[k..];
    var r := KeysOf(nodes)[..k] + [Keyframe(n.time, n.value)] + KeysOf(nodes)[k..];
    assert |KeysOf(s)| == |r|;
    forall i | 0 <= i < |r|
      ensures KeysOf(s)[i] == r[i]
    {
      if i < k {
        assert s[i] == nodes[i];
      } else if i == k {
        assert s[i] == n;
      } else {
        assert s[i] == nodes[i - 1];
      }
    }
  }

  /** In the current heap, `n` is linked in at position k of `nodes`: the neighbours on
      either side point to it, it points to them, and every other link is as in a
      linked list of `nodes` alone. */
  ghost predicate LinkedAround(nodes: seq<TwoDimTransformPoint>, k: nat, n: TwoDimTransformPoint)
    reads nodes, n
  {
    k <= |nodes| &&
    (forall i {:trigger nodes[i].prev} :: 0 <= i < |nodes| && i != k ==>
       nodes[i].prev == if i == 0 then null else nodes[i - 1]) &&
    (forall i {:trigger nodes[i].next} :: 0 <= i < |nodes| && i + 1 != k ==>
       nodes[i].next == if i == |nodes| - 1 then null else nodes[i + 1]) &&
    (k < |nodes| ==> nodes[k].prev == n) &&
    (0 < k ==> nodes[k - 1].next == n) &&
    n.prev == (if k == 0 then null else nodes[k - 1]) &&
    n.next == (if k == |nodes| then null else nodes[k])
  }

  lemma SpliceEnds<T>(s: seq<T>, k: nat, x: T)
    requires k <= |s|
    ensures var r := s[..k] + [x] + s[k..];
            |r| == |s| + 1 &&
            r[0] == (if k == 0 then x else s[0]) &&
            r[|s|] == (if k == |s| then x else s[|s| - 1]) &&
            forall i :: 0 <= i < |r| ==> r[i] == x || r[i] in s
  {
  }

  /** Splicing a point in at the position its links say gives a list whose links all
      point to the neighbours in the spliced sequence. */
  lemma SpliceLinks(nodes: seq<TwoDimTransformPoint>, k: nat, n: TwoDimTransformPoint)
    requires LinkedAround(nodes, k, n)
    ensures var s := nodes[..k] + [n] + nodes[k..];
            forall i {:trigger s[i]} :: 0 <= i < |s| ==>
              s[i].prev == (if i == 0 then null else s[i - 1]) &&
              s[i].next == (if i == |s| - 1 then null else s[i + 1])
  {
    var s := nodes[..k] + [n] + nodes[k..];
    forall i | 0 <= i < |s|
      ensures s[i].prev == if i == 0 then null else s[i - 1]
      ensures s[i].next == if i == |s| - 1 then null else s[i + 1]
    {
      if i < k {
        assert s[i] == nodes[i];
        if i + 1 < k { assert s[i + 1] == nodes[i + 1]; }
        if i > 0 { assert s[i - 1] == nodes[i - 1]; }
      } else if i == k {
        assert s[i] == n;
      } else {
        assert s[i] == nodes[i - 1];
        if i - 1 > k { assert s[i - 1] == nodes[i - 2]; }
        if i + 1 < |s| { assert s[i + 1] == nodes[i]; }
      }
    }
  }

  /** Splicing a point in where its time belongs keeps the times strictly increasing. */
  lemma SpliceTimes(nodes: seq<TwoDimTransformPoint>, k: nat, n: TwoDimTransformPoint)
    requires k <= |nodes|
    requires forall i, j :: 0 <= i < j < |nodes| ==> nodes[i].time < nodes[j].time
    requires forall i :: 0 <= i < k ==> nodes[i].time < n.time
    requires forall i :: k <= i < |nodes| ==> n.time < nodes[i].time
    ensures var s := nodes[..k] + [n] + nodes[k..];
            forall i, j :: 0 <= i < j < |s| ==> s[i].time < s[j].time
  {
    var s := nodes[..k] + [n] + nodes[k..];
    forall i, j | 0 <= i < j < |s|
      ensures s[i].time < s[j].time
    {
      var a := if i < k then i else if i == k then -1 else i - 1;
      var b := if j < k then j else if j == k then -1 else j - 1;
      assert a != -1 ==> s[i] == nodes[a];
      assert b != -1 ==> s[j] == nodes[b];
    }
  }

  /** Splicing a point in where its time belongs yields a linked list. */
  lemma SpliceLinked(nodes: seq<TwoDimTransformPoint>, k: nat, n: TwoDimTransformPoint)
    requires LinkedAround(nodes, k, n)
    requires forall i, j :: 0 <= i < j < |nodes| ==> nodes[i].time < nodes[j].time
    requires forall i :: 0 <= i < k ==> nodes[i].time < n.time
    requires forall i :: k <= i < |nodes| ==> n.time < nodes[i].time
    ensures Linked(nodes[..k] + [n] + nodes[k..])
  {
    SpliceLinks(nodes, k, n);
    SpliceTimes(nodes, k, n);
  }

  // ----- Sorted insertion, the reference for createPoint -----

  /** `keys` with `key` inserted before the first keyframe that is later than it. */
  function InsertKey(keys: seq<Keyframe>, key: Keyframe): (r: seq<Keyframe>)
    ensures |r| == |keys| + 1
    ensures multiset(r) == multiset(keys) + multiset{key}
  {
    if keys == [] || key.time < keys[0].time then
      [key] + keys
    else
      assert keys == [keys[0]] + keys[1..];
      [keys[0]] + InsertKey(keys[1..], key)
  }

  /** Inserting a keyframe at a new time keeps the times strictly increasing. */
  lemma {:induction false} InsertKeyKeepsOrder(keys: seq<Keyframe>, key: Keyframe)
    requires StrictlyIncreasing(keys) && TimeIsNew(keys, key.time)
    ensures StrictlyIncreasing(InsertKey(keys, key))
  {
    if keys == [] || key.time < keys[0].time {
    } else {
      var rest := InsertKey(keys[1..], key);
      InsertKeyKeepsOrder(keys[1..], key);
      InsertKeyAllLater(keys[1..], key, keys[0].time);
      assert InsertKey(keys, key) == [keys[0]] + rest;
      ConsKeepsOrder(keys[0], rest);
    }
  }

  /** When `key` and every keyframe of `keys` come after time t, so does every keyframe
      of the insertion. */
  lemma InsertKeyAllLater(keys: seq<Keyframe>, key: Keyframe, t: real)
    requires forall i :: 0 <= i < |keys| ==> t < keys[i].time
    requires t < key.time
    ensures forall i :: 0 <= i < |InsertKey(keys, key)| ==> t < InsertKey(keys, key)[i].time
  {
    var r := InsertKey(keys, key);
    forall i | 0 <= i < |r|
      ensures t < r[i].time
    {
      assert r[i] in multiset(r);
      if r[i] != key {
        assert r[i] in multiset(keys);
        var j :| 0 <= j < |keys| && keys[j] == r[i];
      }
    }
  }

  /** A keyframe earlier than all of an increasing sequence can go in front of it. */
  lemma ConsKeepsOrder(k: Keyframe, rest: seq<Keyframe>)
    requires StrictlyIncreasing(rest)
    requires forall i :: 0 <= i < |rest| ==> k.time < rest[i].time
    ensures StrictlyIncreasing([k] + rest)
  {
    var r := [k] + rest;
    forall i, j | 0 <= i < j < |r|
      ensures r[i].time < r[j].time
    {
      assert r[j] == rest[j - 1];
      if i > 0 {
        assert r[i] == rest[i - 1];
      }
    }
  }

  /** When every keyframe before position p is earlier than `key` and every one from p on
      is later, inserting `key` puts it at position p. */
  lemma {:induction false} InsertKeyAt(keys: seq<Keyframe>, key: Keyframe, p: nat)
    requires p <= |keys|
    requires forall i :: 0 <= i < p ==> keys[i].time < key.time
    requires p < |keys| ==> key.time < keys[p].time
    ensures InsertKey(keys, key) == keys[..p] + [key] + keys[p..]
  {
    if p == 0 {
      assert keys[p..] == keys;
    } else {
      var rest := keys[1..];
      assert key.time > keys[0].time;
      InsertKeyAt(rest, key, p - 1);
      assert InsertKey(keys, key) == [keys[0]] + InsertKey(rest, key);
      ConsSplice(keys, key, p);
    }
  }

  /** Putting the head back in front of a splice into the tail is the same splice one
      position further on. */
  lemma ConsSplice<T>(s: seq<T>, x: T, p: nat)
    requires 0 < p <= |s|
    ensures [s[0]] + (s[1..][..p - 1] + [x] + s[1..][p - 1..]) == s[..p] + [x] + s[p..]
  {
    assert s[1..][..p - 1] == s[1..p] && s[1..][p - 1..] == s[p..];
    assert s[..p] == [s[0]] + s[1..p];
  }

  // ----- The timeline -----

  class TwoDimTransformTimeline {
    var numberOfPoints: int
    var firstPoint: TwoDimTransformPoint?
    var lastPoint: TwoDimTransformPoint?
    /** The points in list order, from the first to the last. */
    ghost var Nodes: seq<TwoDimTransformPoint>

    ghost predicate Valid()
      reads this, Nodes
    {
      numberOfPoints == |Nodes| &&
      (|Nodes| == 0 ==> firstPoint == null && lastPoint == null) &&
      (|Nodes| > 0 ==> firstPoint == Nodes[0] && lastPoint == Nodes[|Nodes| - 1]) &&
      Linked(Nodes)
    }

    /** The keyframes of the timeline, in time order. */
    ghost function Keys(): seq<Keyframe>
      reads this
    {
      KeysOf(Nodes)
    }

    constructor ()
      ensures Valid() && Nodes == []
      ensures numberOfPoints == 0 && firstPoint == null && lastPoint == null
    {
      numberOfPoints := 0;
      firstPoint := null;
      lastPoint := null;
      Nodes := [];
    }

    function GetNumberOfPoints(): (n: int)
      reads this, Nodes
      requires Valid()
      ensures n == |Nodes|
    {
      numberOfPoints
    }

    function GetFirstPoint(): (p: TwoDimTransformPoint?)
      reads this, Nodes
      requires Valid()
      ensures p == if Nodes == [] then null else Nodes[0]
    {
      firstPoint
    }

    function GetLastPoint(): (p: TwoDimTransformPoint?)
      reads this, Nodes
      requires Valid()
      ensures p == if Nodes == [] then null else Nodes[|Nodes| - 1]
    {
      lastPoint
    }

    static method LinkTwoPoints(left: TwoDimTransformPoint, right: TwoDimTransformPoint)
      modifies left`next, right`prev
      ensures left.next == right && right.prev == left
    {
      left.next := right;
      right.prev := left;
    }

    static method LinkThreePoints(left: TwoDimTransformPoint, middle: TwoDimTransformPoint,
                                  right: TwoDimTransformPoint)
      requires middle != left && middle != right
      modifies left`next, middle`prev, middle`next, right`prev
      ensures left.next == middle && middle.prev == left
      ensures middle.next == right && right.prev == middle
    {
      left.next := middle;
      middle.prev := left;
      middle.next := right;
      right.prev := middle;
    }

    /** linkThreePoints applied to two neighbours of a linked list, at positions k - 1
        and k: afterwards `middle` is linked in between them and every other link is as
        before. */
    static method LinkInto(left: TwoDimTransformPoint, middle: TwoDimTransformPoint,
                           right: TwoDimTransformPoint, ghost nodes: seq<TwoDimTransformPoint>, ghost k: nat)
      requires Linked(nodes) && 0 < k < |nodes| && left == nodes[k - 1] && right == nodes[k]
      requires middle !in nodes
      modifies left`next, middle`prev, middle`next, right`prev
      ensures LinkedAround(nodes, k, middle)
    {
      // the times strictly increase, so no other point of the list is `left` or `right`
      assert forall i :: 0 <= i < |nodes| && i != k ==> nodes[i].time != right.time;
      assert forall i :: 0 <= i < |nodes| && i != k - 1 ==> nodes[i].time != left.time;
      LinkThreePoints(left, middle, right);
    }

    /** Bookkeeping shared by every branch of createPoint: once `newPoint` is linked in at
        position k and the cached ends are set, the count and the abstract list follow. */
    method CountInsertedPoint(newPoint: TwoDimTransformPoint, ghost k: nat)
      requires k <= |Nodes| && Linked(Nodes[..k] + [newPoint] + Nodes[k..])
      requires numberOfPoints == |Nodes|
      requires firstPoint == (if k == 0 then newPoint else Nodes[0])
      requires lastPoint == (if k == |Nodes| then newPoint else Nodes[|Nodes| - 1])
      modifies this
      ensures Valid()
      ensures Nodes == old(Nodes)[..k] + [newPoint] + old(Nodes)[k..]
      ensures Keys() == old(Keys())[..k] + [Keyframe(newPoint.time, newPoint.value)] + old(Keys())[k..]
      ensures firstPoint == old(firstPoint) && lastPoint == old(lastPoint)
      ensures numberOfPoints == old(numberOfPoints) + 1
      ensures forall i :: 0 <= i < |Nodes| ==> Nodes[i] in old(Nodes) || Nodes[i] == newPoint
    {
      ghost var oldNodes, r := Nodes, Nodes[..k] + [newPoint] + Nodes[k..];
      SpliceEnds(Nodes, k, newPoint);
      assert forall i :: 0 <= i < |r| ==> r[i] in oldNodes || r[i] == newPoint;
      KeysOfSplice(Nodes, k, newPoint);
      numberOfPoints := numberOfPoints + 1;
      Nodes := r;
    }

    /** The outcome of inserting `newPoint` at position k into a timeline whose keys and
        points were `oldKeys` and `oldNodes`: the old points keep their order around it. */
    ghost predicate InsertedInto(oldKeys: seq<Keyframe>, oldNodes: seq<TwoDimTransformPoint>,
                                 newPoint: TwoDimTransformPoint, k: nat)
      reads this, Nodes
    {
      Valid() &&
      Keys() == InsertKey(oldKeys, Keyframe(newPoint.time, newPoint.value)) &&
      k <= |oldNodes| && Nodes == oldNodes[..k] + [newPoint] + oldNodes[k..]
    }

    /** createPoint's branch for a time after the last point's. */
    method AppendPoint(newPoint: TwoDimTransformPoint) returns (ghost k: nat)
      requires Valid() && numberOfPoints != 0 && lastPoint.time < newPoint.time
      requires newPoint !in Nodes && newPoint.next == null && newPoint.prev == null
      modifies this, lastPoint`next, newPoint`prev
      ensures InsertedInto(old(Keys()), old(Nodes), newPoint, k)
      ensures lastPoint == newPoint && firstPoint == old(firstPoint)
      ensures old(lastPoint).next == newPoint && newPoint.prev == old(lastPoint)
    {
      ghost var oldKeys := Keys();
      ghost var n := |Nodes|;
      assert forall i :: 0 <= i < n - 1 ==> Nodes[i].time != lastPoint.time;
      LinkTwoPoints(lastPoint, newPoint);
      lastPoint := newPoint;
      assert oldKeys[n - 1].time == Nodes[n - 1].time;
      SpliceLinked(Nodes, n, newPoint);
      CountInsertedPoint(newPoint, n);
      InsertKeyAt(oldKeys, Keyframe(newPoint.time, newPoint.value), n);
      k := n;
    }

    /** createPoint's branch for a time before the first point's. */
    method PrependPoint(newPoint: TwoDimTransformPoint) returns (ghost k: nat)
      requires Valid() && numberOfPoints != 0 && newPoint.time < firstPoint.time
      requires newPoint !in Nodes && newPoint.next == null && newPoint.prev == null
      modifies this, firstPoint`prev, newPoint`next
      ensures InsertedInto(old(Keys()), old(Nodes), newPoint, k)
      ensures firstPoint == newPoint && lastPoint == old(lastPoint)
    {
      ghost var oldKeys := Keys();
      assert forall i :: 0 < i < |Nodes| ==> Nodes[i].time != firstPoint.time;
      LinkTwoPoints(newPoint, firstPoint);
      firstPoint := newPoint;
      assert oldKeys[0].time == Nodes[0].time;
      SpliceLinked(Nodes, 0, newPoint);
      CountInsertedPoint(newPoint, 0);
      InsertKeyAt(oldKeys, Keyframe(newPoint.time, newPoint.value), 0);
      k := 0;
    }

    /** createPoint's branch for a time between the first and the last point's. */
    method SplicePoint(newPoint: TwoDimTransformPoint) returns (ghost k: nat)
      requires Valid() && numberOfPoints != 0
      requires firstPoint.time <= newPoint.time <= lastPoint.time
      requires TimeIsNew(Keys(), newPoint.time)
      requires newPoint !in Nodes && newPoint.next == null && newPoint.prev == null
      modifies this, Nodes, newPoint
      ensures InsertedInto(old(Keys()), old(Nodes), newPoint, k)
      ensures firstPoint == old(firstPoint) && lastPoint == old(lastPoint)
    {
      ghost var oldKeys := Keys();
      ghost var n := |Nodes|;
      assert oldKeys[n - 1].time == Nodes[n - 1].time;
      var pointAtGreaterTime;
      pointAtGreaterTime, k := TwoDimTransformPoint.FindPointAtGreaterTime(newPoint.time, firstPoint, Nodes, 0);
      assert oldKeys[k - 1].time == Nodes[k - 1].time;
      assert oldKeys[k].time == Nodes[k].time;
      assert forall i :: 0 <= i < k ==> oldKeys[i].time < newPoint.time;
      assert pointAtGreaterTime.prev == Nodes[k - 1];
      LinkInto(pointAtGreaterTime.prev, newPoint, pointAtGreaterTime, Nodes, k);
      SpliceLinked(Nodes, k, newPoint);
      CountInsertedPoint(newPoint, k);
      InsertKeyAt(oldKeys, Keyframe(newPoint.time, newPoint.value), k);
    }

    /** Inserts a keyframe in time order. A time before the first point's is linked in
        front of it; a time equal to an existing point's is not supported. */
    method CreatePoint(time: real, value: Vec) returns (r: TwoDimTransformPoint?, ghost k: nat)
      requires Valid() && TimeIsNew(Keys(), time)
      modifies this, Nodes
      ensures Valid() && r == null
      ensures Keys() == InsertKey(old(Keys()), Keyframe(time, value))
      ensures StrictlyIncreasing(Keys())
      ensures numberOfPoints == old(numberOfPoints) + 1
      ensures k <= |old(Nodes)| && Nodes == old(Nodes)[..k] + [Nodes[k]] + old(Nodes)[k..]
      ensures fresh(Nodes[k]) && Nodes[k].time == time && Nodes[k].value == value
      ensures old(numberOfPoints) == 0 ==> firstPoint == lastPoint && fresh(firstPoint)
      ensures old(numberOfPoints) > 0 && time > old(lastPoint.time) ==>
                fresh(lastPoint) && old(lastPoint).next == lastPoint &&
                lastPoint.prev == old(lastPoint) && firstPoint == old(firstPoint)
    {
      var newPoint := new TwoDimTransformPoint(time, value);
      if numberOfPoints != 0 {
        if time > lastPoint.time {
          k := AppendPoint(newPoint);
        } else if time < firstPoint.time {
          k := PrependPoint(newPoint);
        } else {
          k := SplicePoint(newPoint);
        }
      } else {
        firstPoint := newPoint;
        lastPoint := firstPoint;
        SpliceLinked(Nodes, 0, newPoint);
        CountInsertedPoint(newPoint, 0);
        k := 0;
      }
      r := null;
      LinkedKeysIncrease(Nodes);
    }
  }

  // ----- Accumulated bases and the linear path they describe -----
  // A point's time and value never change, so the specification of the controller is
  // stated directly over the sequence of points of its timeline.

  /** The source's InterpolationType: Lerp (Linear) folds keyframe values in by vector
      addition, Slerp (Spherical) by complex multiplication. */
  datatype InterpolationType = Linear | Spherical

  /** Folds a keyframe value into an accumulated base. */
  function Combine(kind: InterpolationType, base: Vec, v: Vec): Vec
  {
    if kind == Linear then Add(base, v) else ComplexMultiply(base, v)
  }

  /** Takes a keyframe value back out of an accumulated base. */
  function Uncombine(kind: InterpolationType, base: Vec, v: Vec): Vec
  {
    if kind == Linear then Subtract(base, v) else ComplexDivide(base, v)
  }

  /** Taking a value out undoes folding it in; for complex multiplication the value must
      be a unit (a rotation). */
  lemma UncombineCombine(kind: InterpolationType, base: Vec, v: Vec)
    requires kind == Spherical ==> IsUnit(v)
    ensures Uncombine(kind, Combine(kind, base, v), v) == base
  {
    if kind == Linear {
      AddSubtractInverse(base, v);
    } else {
      ComplexDivideUndoesMultiply(base, v);
    }
  }

  /** The times of `nodes` strictly increase. */
  ghost predicate Ordered(nodes: seq<TwoDimTransformPoint>)
  {
    forall i, j {:trigger nodes[i].time, nodes[j].time} :: 0 <= i < j < |nodes| ==> nodes[i].time < nodes[j].time
  }

  /** Every point after the first holds a unit vector. */
  ghost predicate UnitValues(nodes: seq<TwoDimTransformPoint>)
  {
    forall i :: 1 <= i < |nodes| ==> IsUnit(nodes[i].value)
  }

  /** The base for cursor c: `init` with the values of points 1 to c folded in. */
  function Base(kind: InterpolationType, init: Vec, nodes: seq<TwoDimTransformPoint>, c: nat): Vec
    requires c < |nodes|
  {
    if c == 0 then init else Combine(kind, Base(kind, init, nodes, c - 1), nodes[c].value)
  }

  /** The segment from point c to point c + 1 contains `time`. */
  ghost predicate Brackets(nodes: seq<TwoDimTransformPoint>, c: int, time: real)
  {
    0 <= c && c + 1 < |nodes| && nodes[c].time <= time <= nodes[c + 1].time
  }

  /** How far `time` lies into the segment that starts at point c. */
  function Fraction(nodes: seq<TwoDimTransformPoint>, c: nat, time: real): real
    requires c + 1 < |nodes| && nodes[c].time < nodes[c + 1].time
  {
    (time - nodes[c].time) / (nodes[c + 1].time - nodes[c].time)
  }

  /** The interpolant for a fraction t of a segment whose end value is v. */
  function Interpolant(kind: InterpolationType, slerp: (Vec, Vec, real) -> Vec, v: Vec, t: real): Vec
  {
    if kind == Linear then Lerp(Zero, v, t) else slerp(UnitX, v, t)
  }

  /** The last segment that starts at or before `time`, searching from segment c; `time`
      lies before its end unless it is the final segment. */
  ghost function SegmentIndex(nodes: seq<TwoDimTransformPoint>, time: real, c: nat): (r: nat)
    requires c + 1 < |nodes| && nodes[c].time <= time
    ensures c <= r && r + 1 < |nodes| && nodes[r].time <= time
    ensures time < nodes[r + 1].time || r + 2 == |nodes|
    decreases |nodes| - c
  {
    if c + 2 == |nodes| || time < nodes[c + 1].time then c else SegmentIndex(nodes, time, c + 1)
  }

  /** Reference for linear interpolation: point m sits at position
      Base(Linear, init, nodes, m), and the value at a time moves in a straight line from
      the position of its segment's start to the position of its end. */
  ghost function PathValue(init: Vec, nodes: seq<TwoDimTransformPoint>, time: real): Vec
    requires 2 <= |nodes| && Ordered(nodes) && nodes[0].time <= time
  {
    var c := SegmentIndex(nodes, time, 0);
    Lerp(Base(Linear, init, nodes, c), Base(Linear, init, nodes, c + 1), Fraction(nodes, c, time))
  }

  /** What the controller computes in a segment (the base plus the interpolant) is the
      straight line between the positions of the segment's two points. */
  lemma SegmentLerp(init: Vec, nodes: seq<TwoDimTransformPoint>, c: nat, time: real)
    requires c + 1 < |nodes| && nodes[c].time < nodes[c + 1].time
    ensures var t := Fraction(nodes, c, time);
            Add(Base(Linear, init, nodes, c), Lerp(Zero, nodes[c + 1].value, t))
            == Lerp(Base(Linear, init, nodes, c), Base(Linear, init, nodes, c + 1), t)
  {
    var t := Fraction(nodes, c, time);
    var a := Base(Linear, init, nodes, c);
    var v := nodes[c + 1].value;
    assert Base(Linear, init, nodes, c + 1) == Add(a, v);
    AddSubtractInverse(v, a);
    assert Subtract(Add(a, v), a) == v;
  }

  lemma DivideSelf(d: real)
    requires d != 0.0
    ensures d / d == 1.0
  {
  }

  /** Any segment that contains `time` gives the reference value, so a value does not
      depend on where the cursor stood before: at a point's own time the segment that
      ends there and the segment that starts there agree. */
  lemma BracketingSegmentsAgree(init: Vec, nodes: seq<TwoDimTransformPoint>, c: nat, time: real)
    requires Ordered(nodes) && Brackets(nodes, c, time)
    ensures Lerp(Base(Linear, init, nodes, c), Base(Linear, init, nodes, c + 1), Fraction(nodes, c, time))
            == PathValue(init, nodes, time)
  {
    assert nodes[0].time <= time by {
      if c > 0 { assert nodes[0].time < nodes[c].time; }
    }
    var c0 := SegmentIndex(nodes, time, 0);
    if c < c0 {
      assert c + 1 == c0 && time == nodes[c0].time;
      DivideSelf(nodes[c + 1].time - nodes[c].time);
      assert Fraction(nodes, c0, time) == 0.0;
      LerpEndpoints(Base(Linear, init, nodes, c), Base(Linear, init, nodes, c0));
      LerpEndpoints(Base(Linear, init, nodes, c0), Base(Linear, init, nodes, c0 + 1));
    } else {
      assert c == c0;
    }
  }

  /** The controller's linear result in any segment that contains `time` is the
      reference value. */
  lemma LinearResultIsPathValue(init: Vec, nodes: seq<TwoDimTransformPoint>, c: nat, time: real)
    requires Ordered(nodes) && Brackets(nodes, c, time)
    ensures Add(Base(Linear, init, nodes, c), Lerp(Zero, nodes[c + 1].value, Fraction(nodes, c, time)))
            == PathValue(init, nodes, time)
  {
    SegmentLerp(init, nodes, c, time);
    BracketingSegmentsAgree(init, nodes, c, time);
  }

  /** The reference path is at the position of a point that starts a segment at its time. */
  lemma PathValueAtSegmentStart(init: Vec, nodes: seq<TwoDimTransformPoint>, m: nat)
    requires Ordered(nodes) && m + 1 < |nodes|
    ensures PathValue(init, nodes, nodes[m].time) == Base(Linear, init, nodes, m)
  {
    var time := nodes[m].time;
    var a := Base(Linear, init, nodes, m);
    var b := Base(Linear, init, nodes, m + 1);
    var d := nodes[m + 1].time - nodes[m].time;
    assert Fraction(nodes, m, time) == 0.0 / d;
    LerpEndpoints(a, b);
    BracketingSegmentsAgree(init, nodes, m, time);
  }

  /** The reference path is at the position of the last point at its time. */
  lemma PathValueAtLastPoint(init: Vec, nodes: seq<TwoDimTransformPoint>)
    requires 2 <= |nodes| && Ordered(nodes)
    ensures PathValue(init, nodes, nodes[|nodes| - 1].time) == Base(Linear, init, nodes, |nodes| - 1)
  {
    var m := |nodes| - 1;
    var time := nodes[m].time;
    var a := Base(Linear, init, nodes, m - 1);
    var b := Base(Linear, init, nodes, m);
    DivideSelf(nodes[m].time - nodes[m - 1].time);
    assert Fraction(nodes, m - 1, time) == 1.0;
    LerpEndpoints(a, b);
    BracketingSegmentsAgree(init, nodes, m - 1, time);
  }

  /** The reference path passes through the position of every point at its time. */
  lemma PathValueAtKeyframe(init: Vec, nodes: seq<TwoDimTransformPoint>, m: nat)
    requires 2 <= |nodes| && Ordered(nodes) && m < |nodes|
    ensures PathValue(init, nodes, nodes[m].time) == Base(Linear, init, nodes, m)
  {
    if m + 1 < |nodes| {
      PathValueAtSegmentStart(init, nodes, m);
    } else {
      PathValueAtLastPoint(init, nodes);
    }
  }

  /** The outputs of an evaluation at `time` with the cursor at c and the base `base`:
      segment c contains `time`, `ip` is the interpolant of the segment's end value at the
      fraction of the segment that `time` has reached, and `result` is the base combined
      with it. For linear interpolation `result` is the reference path's value. */
  ghost predicate Outcome(kind: InterpolationType, init: Vec, slerp: (Vec, Vec, real) -> Vec,
                          nodes: seq<TwoDimTransformPoint>, c: nat, time: real,
                          base: Vec, ip: Vec, result: Vec)
  {
    Ordered(nodes) && Brackets(nodes, c, time) && nodes[c].time < nodes[c + 1].time &&
    ip == Interpolant(kind, slerp, nodes[c + 1].value, Fraction(nodes, c, time)) &&
    result == Combine(kind, base, ip) &&
    (kind == Linear ==> nodes[0].time <= time && result == PathValue(init, nodes, time))
  }

  // ----- The controller -----

  class TwoDimTransformController {
    const timeline: TwoDimTransformTimeline
    const interpolationType: InterpolationType
    const value: Vec
    var p1: TwoDimTransformPoint?
    var interpolant: Vector2?
    var transformed: Vector2
    var transformedInterpolated: Vector2
    /** The position of p1 in the timeline. */
    ghost var cursor: nat

    /** The timeline has at least two points and starts at or before time 0; for
        spherical interpolation every value after the first is a unit vector. */
    ghost predicate TimelineReady()
      reads timeline, timeline.Nodes
    {
      var nodes := timeline.Nodes;
      timeline.Valid() && 2 <= |nodes| && nodes[0].time <= 0.0 &&
      (interpolationType == Spherical ==> UnitValues(nodes))
    }

    /** The cursor stands at the start of a segment of a ready timeline, and the base holds
        the initial value with the values of the points up to the cursor folded in. */
    ghost predicate Valid()
      reads this`p1, this`cursor, this`transformed, transformed, timeline, timeline.Nodes
    {
      var nodes := timeline.Nodes;
      TimelineReady() && cursor + 1 < |nodes| && p1 == nodes[cursor] &&
      transformed.Value() == Base(interpolationType, value, nodes, cursor)
    }

    /** Starts at the first point (none on an empty timeline) with the initial value as
        its base. Any timeline is accepted; the invariant holds once it is ready. */
    constructor (timeline: TwoDimTransformTimeline, interpolationType: InterpolationType, value: Vec)
      requires timeline.Valid()
      ensures cursor == 0 && p1 == timeline.GetFirstPoint()
      ensures TimelineReady() ==> Valid()
      ensures this.timeline == timeline && this.interpolationType == interpolationType
      ensures this.value == value && transformed.Value() == value
      ensures fresh(transformed) && fresh(transformedInterpolated)
      ensures transformedInterpolated.Value() == Zero && interpolant == null
    {
      this.timeline := timeline;
      this.interpolationType := interpolationType;
      this.value := value;
      p1 := timeline.GetFirstPoint();
      cursor := 0;
      interpolant := null;
      transformed := new Vector2(0.0, 0.0);
      transformedInterpolated := new Vector2(0.0, 0.0);
      new;
      var _ := Vector2.Assign(transformed, value);
    }

    /** The loop of transform's backward walk, over the points `nodes`: from the point at
        cursor c it moves back until it reaches a point at or before `time`, taking each
        left-behind value out of the base `transformed`. `steps` counts the values taken
        out: one per segment the cursor crosses. */
    static method WalkBackFrom(kind: InterpolationType, init: Vec, ghost nodes: seq<TwoDimTransformPoint>,
                               ghost c: nat, start: TwoDimTransformPoint, transformed: Vector2, time: real)
      returns (p1: TwoDimTransformPoint?, base: Vector2, ghost c1: nat, ghost steps: nat)
      requires Linked(nodes) && c < |nodes| && start == nodes[c]
      requires kind == Spherical ==> UnitValues(nodes)
      requires transformed.Value() == Base(kind, init, nodes, c)
      requires nodes[0].time <= time < nodes[c].time
      modifies transformed
      ensures c1 < c && p1 == nodes[c1] && nodes[c1].time <= time < nodes[c1 + 1].time
      ensures base.Value() == Base(kind, init, nodes, c1)
      ensures base == transformed || fresh(base)
      ensures steps == c - c1
    {
      base := transformed;
      p1 := start.prev;
      ghost var j: int := c - 1;
      steps := 0;
      while p1 != null
        invariant 0 <= j < c && p1 == nodes[j]
        invariant steps == c - 1 - j
        invariant time < nodes[j + 1].time
        invariant base.Value() == Base(kind, init, nodes, j + 1)
        invariant base == transformed || fresh(base)
        decreases j
      {
        if kind == Linear {
          var _ := Vector2.SubtractAssign(base, p1.next.value);
        } else {
          var r := ComplexDivide(base.Value(), p1.next.value);
          base := new Vector2(r.x, r.y);
        }
        steps := steps + 1;
        UncombineCombine(kind, Base(kind, init, nodes, j), nodes[j + 1].value);
        if p1.time <= time {
          break;
        }
        p1 := p1.prev;
        j := j - 1;
      }
      c1 := j;
    }

    /** The backward walk of transform, for a time before the cursor's point. */
    method WalkBack(time: real) returns (ghost steps: nat)
      requires Valid() && 0.0 <= time && time < p1.time
      modifies this, transformed
      ensures Valid() && cursor < old(cursor) && steps == old(cursor) - cursor
      ensures timeline.Nodes[cursor].time <= time < timeline.Nodes[cursor + 1].time
      ensures transformed == old(transformed) || fresh(transformed)
      ensures interpolant == old(interpolant) && transformedInterpolated == old(transformedInterpolated)
    {
      var base;
      p1, base, cursor, steps := WalkBackFrom(interpolationType, value, timeline.Nodes, cursor, p1, transformed, time);
      transformed := base;
    }

    /** The loop of transform's forward walk, over the points `nodes`: from the point at
        cursor c it moves on until the next point is at or after `time`, folding each
        newly passed value into the base `transformed`. `steps` counts the values folded
        in: one per segment the cursor crosses. */
    static method WalkForwardFrom(kind: InterpolationType, init: Vec, ghost nodes: seq<TwoDimTransformPoint>,
                                  ghost c: nat, start: TwoDimTransformPoint, transformed: Vector2, time: real)
      returns (p1: TwoDimTransformPoint?, base: Vector2, ghost c1: nat, ghost steps: nat)
      requires Linked(nodes) && c + 1 < |nodes| && start == nodes[c]
      requires transformed.Value() == Base(kind, init, nodes, c)
      requires nodes[c + 1].time < time <= nodes[|nodes| - 1].time
      modifies transformed
      ensures c < c1 && c1 + 1 < |nodes| && p1 == nodes[c1]
      ensures nodes[c1].time < time <= nodes[c1 + 1].time
      ensures base.Value() == Base(kind, init, nodes, c1)
      ensures base == transformed || fresh(base)
      ensures steps == c1 - c
    {
      ghost var n := |nodes|;
      base := transformed;
      var p2 := start.next.next;
      ghost var j := c + 2;
      steps := 0;
      while p2 != null
        invariant c + 2 <= j < n && p2 == nodes[j]
        invariant steps == j - c - 2
        invariant nodes[j - 1].time < time
        invariant base.Value() == Base(kind, init, nodes, j - 2)
        invariant base == transformed || fresh(base)
        decreases n - j
      {
        if kind == Linear {
          var _ := Vector2.AddAssign(base, p2.prev.value);
        } else {
          var r := ComplexMultiply(base.Value(), p2.prev.value);
          base := new Vector2(r.x, r.y);
        }
        steps := steps + 1;
        if p2.time >= time {
          break;
        }
        p2 := p2.next;
        j := j + 1;
      }
      p1 := p2.prev;
      c1 := j - 1;
    }

    /** The forward walk of transform, for a time after the end of the cursor's segment. */
    method WalkForward(time: real) returns (ghost steps: nat)
      requires Valid() && time <= timeline.Nodes[|timeline.Nodes| - 1].time
      requires time > timeline.Nodes[cursor + 1].time
      modifies this, transformed
      ensures Valid() && cursor > old(cursor) && steps == cursor - old(cursor)
      ensures timeline.Nodes[cursor].time < time <= timeline.Nodes[cursor + 1].time
      ensures transformed == old(transformed) || fresh(transformed)
      ensures interpolant == old(interpolant) && transformedInterpolated == old(transformedInterpolated)
    {
      var base;
      p1, base, cursor, steps := WalkForwardFrom(interpolationType, value, timeline.Nodes, cursor, p1, transformed, time);
      transformed := base;
    }

    /** The controller holds the outputs of an evaluation at `time`. */
    ghost predicate Evaluated(time: real, slerp: (Vec, Vec, real) -> Vec)
      reads this, transformed, timeline, timeline.Nodes, interpolant, transformedInterpolated
    {
      Valid() && interpolant != null &&
      Outcome(interpolationType, value, slerp, timeline.Nodes, cursor, time,
              transformed.Value(), interpolant.Value(), transformedInterpolated.Value())
    }

    /** transform's interpolation inside the segment that starts at `p1`, from the base
        `base`: the interpolant of the segment's end value at the fraction `t` of the
        segment that `time` has reached, and the base combined with it. */
    static method SegmentOutputs(kind: InterpolationType, slerp: (Vec, Vec, real) -> Vec,
                                 base: Vec, p1: TwoDimTransformPoint, time: real)
      returns (t: real, interpolant: Vector2, transformedInterpolated: Vector2)
      requires p1.next != null && p1.time < p1.next.time
      ensures t == (time - p1.time) / (p1.next.time - p1.time)
      ensures interpolant.Value() == Interpolant(kind, slerp, p1.next.value, t)
      ensures transformedInterpolated.Value() == Combine(kind, base, interpolant.Value())
      ensures fresh(interpolant) && fresh(transformedInterpolated)
    {
      t := (time - p1.time) / (p1.next.time - p1.time);
      if kind == Linear {
        var i := Lerp(Zero, p1.next.value, t);
        var s := Add(base, i);
        interpolant := new Vector2(i.x, i.y);
        transformedInterpolated := new Vector2(s.x, s.y);
      } else {
        var i := slerp(UnitX, p1.next.value, t);
        var r := ComplexMultiply(base, i);
        interpolant := new Vector2(i.x, i.y);
        transformedInterpolated := new Vector2(r.x, r.y);
      }
    }

    /** transform's cursor walk: afterwards the cursor's segment contains `time`. The
        cursor only moves when its old segment does not contain `time`; a backward walk
        ends on a segment whose end is after `time`, a forward walk on one whose start is
        before it, so the cursor is the one segment of that kind. `steps`, the number of
        values combined into or out of the base, is the number of segments crossed. */
    method MoveCursor(time: real) returns (ghost steps: nat)
      requires Valid() && 0.0 <= time <= timeline.Nodes[|timeline.Nodes| - 1].time
      modifies this, transformed
      ensures Valid() && Brackets(timeline.Nodes, cursor, time)
      ensures Brackets(timeline.Nodes, old(cursor), time) ==> cursor == old(cursor)
      ensures time < timeline.Nodes[old(cursor)].time ==> time < timeline.Nodes[cursor + 1].time
      ensures timeline.Nodes[old(cursor) + 1].time < time ==> timeline.Nodes[cursor].time < time
      ensures steps == if cursor <= old(cursor) then old(cursor) - cursor else cursor - old(cursor)
      ensures transformed == old(transformed) || fresh(transformed)
      ensures interpolant == old(interpolant) && transformedInterpolated == old(transformedInterpolated)
    {
      steps := 0;
      if time < p1.time {
        steps := WalkBack(time);
      } else if time > p1.next.time {
        steps := WalkForward(time);
      }
    }

    /** transform's interpolation step, for either kind of interpolation. */
    method Interpolate(time: real, slerp: (Vec, Vec, real) -> Vec)
      requires Valid() && Brackets(timeline.Nodes, cursor, time)
      modifies this
      ensures Evaluated(time, slerp)
      ensures cursor == old(cursor) && p1 == old(p1) && transformed == old(transformed)
      ensures fresh(interpolant) && fresh(transformedInterpolated)
    {
      ghost var nodes := timeline.Nodes;
      ghost var c := cursor;
      var t, i, r := SegmentOutputs(interpolationType, slerp, transformed.Value(), p1, time);
      assert t == Fraction(nodes, c, time);
      if interpolationType == Linear {
        LinearResultIsPathValue(value, nodes, c, time);
      }
      assert Outcome(interpolationType, value, slerp, nodes, c, time, transformed.Value(), i.Value(), r.Value());
      interpolant := i;
      transformedInterpolated := r;
    }

    /** Evaluates the animation at `time`, which is ignored outside [0, last point's time].
        The cursor walks back or forward one segment at a time, keeping the base in step,
        and then the value inside the segment is interpolated. `slerp` is the spherical
        interpolation of two unit vectors. `steps` counts the combines of the walk: one
        per segment crossed, none outside the range. */
    method Transform(time: real, slerp: (Vec, Vec, real) -> Vec) returns (ghost steps: nat)
      requires Valid()
      modifies this, transformed
      ensures Valid()
      ensures transformed == old(transformed) || fresh(transformed)
      ensures steps == if cursor <= old(cursor) then old(cursor) - cursor else cursor - old(cursor)
      ensures var nodes := timeline.Nodes;
              !(0.0 <= time <= nodes[|nodes| - 1].time) ==>
                cursor == old(cursor) && p1 == old(p1) && transformed == old(transformed) &&
                transformed.Value() == old(transformed.Value()) &&
                transformedInterpolated == old(transformedInterpolated) &&
                interpolant == old(interpolant)
      ensures var nodes := timeline.Nodes;
              0.0 <= time <= nodes[|nodes| - 1].time ==>
                Evaluated(time, slerp) &&
                (Brackets(nodes, old(cursor), time) ==> cursor == old(cursor)) &&
                (time < nodes[old(cursor)].time ==> time < nodes[cursor + 1].time) &&
                (nodes[old(cursor) + 1].time < time ==> nodes[cursor].time < time) &&
                fresh(interpolant) && fresh(transformedInterpolated)
    {
      steps := 0;
      if time >= 0.0 && time <= timeline.GetLastPoint().time {
        steps := MoveCursor(time);
        Interpolate(time, slerp);
      }
    }
  }
}
