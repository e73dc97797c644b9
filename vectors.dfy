/** Two-component vectors over the reals (Math/Vector2.ts).

    The source has one class, Vector2, whose static functions either return a fresh
    vector computed from their arguments or overwrite their first (output) argument.
    The model splits the two kinds: the value of a vector is the datatype `Vec` and
    the returning operations are functions on it; the overwriting operations are
    static methods of the class `Vector2`, whose `x` and `y` fields they update in
    place. An operand that an overwriting operation only reads is passed as a `Vec`:
    assign, addAssign and subtractAssign compute each component of the result from the
    same component of the operand, so the outcome is the same when the operand is the
    target object itself. complexMultiply and complexDivide mix the components, so
    they take objects, and their contracts state the result for aliased arguments too.
 */
module Vectors {

  /** The value of a vector, read as the complex number x + iy where needed. */
  datatype Vec = Vec(x: real, y: real)

  /** `new Vector2()`: both components default to zero. */
  const Zero: Vec := Vec(0.0, 0.0)

  /** `new Vector2(1.0, 0.0)`: the identity rotation. */
  const UnitX: Vec := Vec(1.0, 0.0)

  /** Adding the zero vector, on either side, changes nothing. */
  function Add(a: Vec, b: Vec): (r: Vec)
    ensures a == Zero ==> r == b
    ensures b == Zero ==> r == a
  {
    Vec(a.x + b.x, a.y + b.y)
  }

  /** The difference is what must be added to `b` to reach `a`. */
  function Subtract(a: Vec, b: Vec): (r: Vec)
    ensures Add(r, b) == a
    ensures a == b <==> r == Zero
  {
    Vec(a.x - b.x, a.y - b.y)
  }

  /** Scaling by 1 changes nothing and scaling by 0 gives the zero vector. */
  function MultiplyScalar(v: Vec, s: real): (r: Vec)
    ensures s == 1.0 ==> r == v
    ensures s == 0.0 ==> r == Zero
  {
    Vec(v.x * s, v.y * s)
  }

  /** Division by a scalar; a zero divisor is the caller's to exclude. */
  function DivideScalar(v: Vec, s: real): (r: Vec)
    requires s != 0.0
    ensures MultiplyScalar(r, s) == v
  {
    Vec(v.x / s, v.y / s)
  }

  function Dot(a: Vec, b: Vec): real
  {
    (a.x * b.x) + (a.y * b.y)
  }

  /** A rotation is encoded as a vector of length one. */
  predicate IsUnit(v: Vec)
  {
    Dot(v, v) == 1.0
  }

  function Conjugate(v: Vec): Vec
  {
    Vec(v.x, -v.y)
  }

  /** The complex product (x1 x2 - y1 y2, x1 y2 + x2 y1). */
  function ComplexMultiply(a: Vec, b: Vec): Vec
  {
    Vec(a.x * b.x - a.y * b.y, a.x * b.y + b.x * a.y)
  }

  /** complexDivide negates the divisor's y component and multiplies. */
  function ComplexDivide(c1: Vec, c2: Vec): (r: Vec)
    ensures r == ComplexMultiply(c1, Conjugate(c2))
  {
    var y2 := -c2.y;
    Vec(c1.x * c2.x - c1.y * y2, c1.x * y2 + c2.x * c1.y)
  }

  /** Rotation of `v` about `pivot` by the rotation encoded in `angle`. */
  function Rotate(angle: Vec, pivot: Vec, v: Vec): Vec
  {
    var d := Subtract(v, pivot);
    Add(Vec(d.x * angle.x - d.y * angle.y, d.y * angle.x + d.x * angle.y), pivot)
  }

  /** Linear interpolation; `t` is not clamped, so callers may extrapolate. From the zero
      vector it is scaling by t. */
  function Lerp(a: Vec, b: Vec, t: real): (r: Vec)
    ensures a == Zero ==> r == MultiplyScalar(b, t)
  {
    Add(a, MultiplyScalar(Subtract(b, a), t))
  }

  // ----- Properties of the value operations -----

  lemma AddSubtractInverse(a: Vec, b: Vec)
    ensures Subtract(Add(a, b), b) == a
    ensures Add(Subtract(a, b), b) == a
  {
  }

  lemma DotSymmetric(a: Vec, b: Vec)
    ensures Dot(a, b) == Dot(b, a)
  {
  }

  /** The dot product of a vector with itself, its squared length, is never negative. */
  lemma DotSelf(a: Vec)
    ensures Dot(a, a) >= 0.0
  {
    assert a.x * a.x >= 0.0 && a.y * a.y >= 0.0;
  }

  /** The squared length of a complex product is the product of the squared lengths. */
  lemma ComplexMultiplyLength(a: Vec, b: Vec)
    ensures var p := ComplexMultiply(a, b); Dot(p, p) == Dot(a, a) * Dot(b, b)
  {
    var p := ComplexMultiply(a, b);
    calc {
      Dot(p, p);
    ==
      (a.x * b.x - a.y * b.y) * (a.x * b.x - a.y * b.y) + (a.x * b.y + b.x * a.y) * (a.x * b.y + b.x * a.y);
    ==
      (a.x * a.x + a.y * a.y) * (b.x * b.x + b.y * b.y);
    }
  }

  lemma ComplexMultiplyIdentity(a: Vec)
    ensures ComplexMultiply(a, UnitX) == a
    ensures ComplexMultiply(UnitX, a) == a
  {
  }

  /** Dividing by a rotation undoes multiplying by it. */
  lemma ComplexDivideUndoesMultiply(a: Vec, b: Vec)
    requires IsUnit(b)
    ensures ComplexDivide(ComplexMultiply(a, b), b) == a
  {
    var p := ComplexMultiply(a, b);
    var q := ComplexDivide(p, b);
    calc {
      q.x;
    ==
      (a.x * b.x - a.y * b.y) * b.x + (a.x * b.y + b.x * a.y) * b.y;
    ==
      a.x * (b.x * b.x + b.y * b.y);
    ==
      a.x;
    }
    calc {
      q.y;
    ==
      b.x * (a.x * b.y + b.x * a.y) - (a.x * b.x - a.y * b.y) * b.y;
    ==
      a.y * (b.x * b.x + b.y * b.y);
    ==
      a.y;
    }
  }

  /** Multiplying by a rotation undoes dividing by it. */
  lemma ComplexMultiplyUndoesDivide(a: Vec, b: Vec)
    requires IsUnit(b)
    ensures ComplexMultiply(ComplexDivide(a, b), b) == a
  {
    var q := ComplexDivide(a, b);
    var p := ComplexMultiply(q, b);
    calc {
      p.x;
    ==
      (a.x * b.x + a.y * b.y) * b.x - (b.x * a.y - a.x * b.y) * b.y;
    ==
      a.x * (b.x * b.x + b.y * b.y);
    ==
      a.x;
    }
    calc {
      p.y;
    ==
      (a.x * b.x + a.y * b.y) * b.y + b.x * (b.x * a.y - a.x * b.y);
    ==
      a.y * (b.x * b.x + b.y * b.y);
    ==
      a.y;
    }
  }

  lemma LerpEndpoints(a: Vec, b: Vec)
    ensures Lerp(a, b, 0.0) == a
    ensures Lerp(a, b, 1.0) == b
  {
  }

  /** The product of two rotations is a rotation. */
  lemma ComplexMultiplyKeepsUnit(a: Vec, b: Vec)
    requires IsUnit(a) && IsUnit(b)
    ensures IsUnit(ComplexMultiply(a, b))
  {
    ComplexMultiplyLength(a, b);
  }

  /** Rotation about a pivot is the complex product of the offset from the pivot. */
  lemma RotateAsComplexMultiply(angle: Vec, pivot: Vec, v: Vec)
    ensures Rotate(angle, pivot, v) == Add(ComplexMultiply(Subtract(v, pivot), angle), pivot)
  {
  }

  lemma RotateByIdentity(pivot: Vec, v: Vec)
    ensures Rotate(UnitX, pivot, v) == v
  {
  }

  lemma RotateFixesPivot(angle: Vec, pivot: Vec)
    ensures Rotate(angle, pivot, pivot) == pivot
  {
  }

  /** A rotation by a unit vector keeps the squared distance to the pivot. */
  lemma RotateKeepsDistance(angle: Vec, pivot: Vec, v: Vec)
    requires IsUnit(angle)
    ensures var d := Subtract(Rotate(angle, pivot, v), pivot);
            var e := Subtract(v, pivot);
            Dot(d, d) == Dot(e, e)
  {
    var e := Subtract(v, pivot);
    var d := Subtract(Rotate(angle, pivot, v), pivot);
    assert d == Vec(e.x * angle.x - e.y * angle.y, e.y * angle.x + e.x * angle.y);
    calc {
      Dot(d, d);
    ==
      (e.x * angle.x - e.y * angle.y) * (e.x * angle.x - e.y * angle.y)
        + (e.y * angle.x + e.x * angle.y) * (e.y * angle.x + e.x * angle.y);
    ==
      (e.x * e.x + e.y * e.y) * (angle.x * angle.x + angle.y * angle.y);
    ==
      Dot(e, e);
    }
  }

  // ----- The mutable vector and the operations that overwrite it -----

  class Vector2 {
    var x: real
    var y: real

    constructor (x: real, y: real)
      ensures Value() == Vec(x, y)
    {
      this.x := x;
      this.y := y;
    }

    /** The vector's current components. */
    function Value(): Vec
      reads this
    {
      Vec(x, y)
    }

    static method Assign(vector1: Vector2, vector2: Vec) returns (r: Vector2)
      modifies vector1
      ensures r == vector1 && vector1.Value() == vector2
    {
      vector1.x := vector2.x;
      vector1.y := vector2.y;
      r := vector1;
    }

    static method AddAssign(vector1: Vector2, vector2: Vec) returns (r: Vector2)
      modifies vector1
      ensures r == vector1 && vector1.Value() == Add(old(vector1.Value()), vector2)
    {
      vector1.x := vector1.x + vector2.x;
      vector1.y := vector1.y + vector2.y;
      r := vector1;
    }

    static method SubtractAssign(vector1: Vector2, vector2: Vec) returns (r: Vector2)
      modifies vector1
      ensures r == vector1 && vector1.Value() == Subtract(old(vector1.Value()), vector2)
    {
      vector1.x := vector1.x - vector2.x;
      vector1.y := vector1.y - vector2.y;
      r := vector1;
    }

    /** Adds the scalar to both components. */
    static method AddAssignScalar(vector: Vector2, scalar: real) returns (r: Vector2)
      modifies vector
      ensures r == vector && vector.Value() == Add(old(vector.Value()), Vec(scalar, scalar))
    {
      vector.x := vector.x + scalar;
      vector.y := vector.y + scalar;
      r := vector;
    }

    /** Subtracts the scalar from both components. */
    static method SubtractAssignScalar(vector: Vector2, scalar: real) returns (r: Vector2)
      modifies vector
      ensures r == vector && vector.Value() == Subtract(old(vector.Value()), Vec(scalar, scalar))
    {
      vector.x := vector.x - scalar;
      vector.y := vector.y - scalar;
      r := vector;
    }

    static method MultiplyAssignScalar(vector: Vector2, scalar: real) returns (r: Vector2)
      modifies vector
      ensures r == vector && vector.Value() == MultiplyScalar(old(vector.Value()), scalar)
    {
      vector.x := vector.x * scalar;
      vector.y := vector.y * scalar;
      r := vector;
    }

    /** Writes the complex product of v1 and v2 into r; r may be v1 or v2. */
    static method ComplexMultiplyInto(r: Vector2, v1: Vector2, v2: Vector2)
      modifies r
      ensures r.Value() == ComplexMultiply(old(v1.Value()), old(v2.Value()))
    {
      var x := v1.x * v2.x - v1.y * v2.y;
      var y := v1.x * v2.y + v2.x * v1.y;
      r.x := x;
      r.y := y;
    }

    /** Writes c1 times the conjugate of c2 into r; r may be c1 or c2. */
    static method ComplexDivideInto(r: Vector2, c1: Vector2, c2: Vector2)
      modifies r
      ensures r.Value() == ComplexDivide(old(c1.Value()), old(c2.Value()))
    {
      var y2 := -c2.y;
      var x := c1.x * c2.x - c1.y * y2;
      var y := c1.x * y2 + c2.x * c1.y;
      r.x := x;
      r.y := y;
    }

    /** The output-argument form `add(r, a, b)`: r := a + b. */
    static method AddInto(r: Vector2, a: Vec, b: Vec)
      modifies r
      ensures r.Value() == Add(a, b)
    {
      r.x := a.x + b.x;
      r.y := a.y + b.y;
    }

    /** The output-argument form `subtract(r, a, b)`: r := a - b. */
    static method SubtractInto(r: Vector2, a: Vec, b: Vec)
      modifies r
      ensures r.Value() == Subtract(a, b)
    {
      r.x := a.x - b.x;
      r.y := a.y - b.y;
    }

    /** The output-argument form `lerp(r, a, b, t)`: r := lerp(a, b, t). */
    static method LerpInto(r: Vector2, a: Vec, b: Vec, t: real)
      modifies r
      ensures r.Value() == Lerp(a, b, t)
    {
      var v := Lerp(a, b, t);
      r.x := v.x;
      r.y := v.y;
    }
  }
}
