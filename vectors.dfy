/** `Vector3D` (double components, value semantics) and `Vector3`
    (32-bit integer components, used for grid coordinates). */
module Vectors {
  import opened Wrappers
  import Text

  datatype Vector3D = Vector3D(x: real, y: real, z: real)

  function Add(a: Vector3D, b: Vector3D): Vector3D
  {
    Vector3D(a.x + b.x, a.y + b.y, a.z + b.z)
  }

  function Sub(a: Vector3D, b: Vector3D): Vector3D
  {
    Vector3D(a.x - b.x, a.y - b.y, a.z - b.z)
  }

  /** The `*` of two vectors: component-wise (Hadamard), not a cross product. */
  function Mul(a: Vector3D, b: Vector3D): Vector3D
  {
    Vector3D(a.x * b.x, a.y * b.y, a.z * b.z)
  }

  predicate NoZeroComponent(v: Vector3D) { v.x != 0.0 && v.y != 0.0 && v.z != 0.0 }

  function Div(a: Vector3D, b: Vector3D): Vector3D
    requires NoZeroComponent(b)
  {
    Vector3D(a.x / b.x, a.y / b.y, a.z / b.z)
  }

  function Scale(v: Vector3D, d: real): Vector3D
  {
    Vector3D(v.x * d, v.y * d, v.z * d)
  }

  function DivScalar(v: Vector3D, d: real): Vector3D
    requires d != 0.0
  {
    Vector3D(v.x / d, v.y / d, v.z / d)
  }

  /** `-` undoes `+`, whatever the vectors. */
  lemma {:induction false} AddSubInverse(a: Vector3D, b: Vector3D)
    ensures Sub(Add(a, b), b) == a && Add(Sub(a, b), b) == a
  {
  }

  /** Component-wise `/` undoes component-wise `*`, and `/ d` undoes `* d`. */
  lemma {:induction false} MulDivInverse(a: Vector3D, b: Vector3D, d: real)
    requires NoZeroComponent(b) && d != 0.0
    ensures Div(Mul(a, b), b) == a
    ensures DivScalar(Scale(a, d), d) == a
  {
    assert a.x * b.x / b.x == a.x;
    assert a.y * b.y / b.y == a.y;
    assert a.z * b.z / b.z == a.z;
    assert a.x * d / d == a.x;
    assert a.y * d / d == a.y;
    assert a.z * d / d == a.z;
  }

  /** The vector `*` is not the cross product: it multiplies the unit axes to zero
      where the cross product of x and y is z, and it is commutative. */
  lemma {:induction false} MulIsHadamard(a: Vector3D, b: Vector3D)
    ensures Mul(a, b) == Mul(b, a)
    ensures Mul(Vector3D(1.0, 0.0, 0.0), Vector3D(0.0, 1.0, 0.0)) == Vector3D(0.0, 0.0, 0.0)
    ensures Mul(a, Vector3D(1.0, 1.0, 1.0)) == a
  {
  }

  /** `Vector3`: integer components; C# `int` arithmetic wraps modulo 2^32. */
  datatype Vector3 = Vector3(x: int, y: int, z: int)

  /** `new Vector3()`. */
  function ZeroVector3(): Vector3 { Vector3(0, 0, 0) }

  /** Unchecked 32-bit two's-complement wrap-around of an integer result. */
  function Wrap32(v: int): (r: int)
    ensures Text.Int32Min <= r <= Text.Int32Max
    ensures Text.Int32Min <= v <= Text.Int32Max ==> r == v
    ensures (r - v) % 0x1_0000_0000 == 0
  {
    (v - Text.Int32Min) % 0x1_0000_0000 + Text.Int32Min
  }

  predicate IsInt32(v: Vector3)
  {
    Text.Int32Min <= v.x <= Text.Int32Max && Text.Int32Min <= v.y <= Text.Int32Max
    && Text.Int32Min <= v.z <= Text.Int32Max
  }

  function Add3(a: Vector3, b: Vector3): Vector3
  {
    Vector3(Wrap32(a.x + b.x), Wrap32(a.y + b.y), Wrap32(a.z + b.z))
  }

  function Sub3(a: Vector3, b: Vector3): Vector3
  {
    Vector3(Wrap32(a.x - b.x), Wrap32(a.y - b.y), Wrap32(a.z - b.z))
  }

  function Mul3(a: Vector3, b: Vector3): Vector3
  {
    Vector3(Wrap32(a.x * b.x), Wrap32(a.y * b.y), Wrap32(a.z * b.z))
  }

  /** Wrap-around depends only on the value modulo 2^32. */
  lemma {:induction false} Wrap32Shift(v: int, k: int)
    ensures Wrap32(v + k * 0x1_0000_0000) == Wrap32(v)
  {
    var m := 0x1_0000_0000;
    var q := (v - Text.Int32Min) / m;
    var rem := (v - Text.Int32Min) % m;
    assert v - Text.Int32Min + k * m == (q + k) * m + rem;
    assert (v - Text.Int32Min + k * m) % m == rem;
  }

  /** One component: `(x + y) - y` with both operations wrapping is `x`. */
  lemma {:induction false} WrapAddSub(x: int, y: int)
    requires Text.Int32Min <= x <= Text.Int32Max
    ensures Wrap32(Wrap32(x + y) - y) == x
  {
    var m := 0x1_0000_0000;
    var w := Wrap32(x + y);
    var k := (w - (x + y)) / m;
    assert w - (x + y) == k * m;
    Wrap32Shift(x, k);
    assert w - y == x + k * m;
  }

  /** `(a + b) - b` gives `a` back even when the sum overflows, because both
      operations wrap around. */
  lemma {:induction false} AddSubInverse3(a: Vector3, b: Vector3)
    requires IsInt32(a)
    ensures Sub3(Add3(a, b), b) == a
  {
    WrapAddSub(a.x, b.x);
    WrapAddSub(a.y, b.y);
    WrapAddSub(a.z, b.z);
  }

  /** C# integer division: the quotient is truncated toward zero. */
  function TruncDiv(a: int, b: int): int
    requires b != 0
  {
    var q := Abs(a) / Abs(b);
    if (a < 0) != (b < 0) then -q else q
  }

  function Abs(a: int): nat { if a < 0 then -a else a }

  /** C# gives -7 / 2 == -3 where Dafny's Euclidean division gives -4. */
  lemma {:induction false} TruncDivDiffersFromEuclidean()
    ensures TruncDiv(-7, 2) == -3 && -7 / 2 == -4
  {
    assert Abs(-7) / Abs(2) == 3;
    assert -7 == 2 * (-4) + 1;
  }

  /** What makes `TruncDiv` C#'s quotient for every operand pair: the
      remainder is smaller than the divisor and takes the dividend's sign. */
  lemma {:induction false} TruncDivRemainder(a: int, b: int)
    requires b != 0
    ensures var r := a - b * TruncDiv(a, b);
      Abs(r) < Abs(b) && (a >= 0 ==> r >= 0) && (a < 0 ==> r <= 0)
  {
    var q0 := Abs(a) / Abs(b);
    var r0 := Abs(a) % Abs(b);
    var d: int := Abs(b);
    assert 0 <= r0 < d;
    var r := a - b * TruncDiv(a, b);
    assert r == (if a < 0 then -r0 else r0) by {
      assert Abs(a) == d * q0 + r0;
      var q := TruncDiv(a, b);
      if (a < 0) != (b < 0) {
        if b < 0 {
          assert b * q == (-d) * (-q0) == d * q0;
        } else {
          assert b * q == d * (-q0) == -(d * q0);
        }
      } else {
        if b < 0 {
          assert b * q == (-d) * q0 == -(d * q0);
        }
      }
    }
  }

  /** Negating either operand negates the C# quotient, and on a
      non-negative dividend and a positive divisor it is Euclidean division. */
  lemma {:induction false} TruncDivSigns(a: int, b: int)
    requires b != 0
    ensures TruncDiv(-a, b) == -TruncDiv(a, b) && TruncDiv(a, -b) == -TruncDiv(a, b)
    ensures a >= 0 && b > 0 ==> TruncDiv(a, b) == a / b
  {
    assert Abs(-a) == Abs(a) && Abs(-b) == Abs(b);
    if a == 0 {
      assert Abs(a) / Abs(b) == 0;
    }
  }

  lemma {:induction false} QuotientBound(n: nat, d: nat)
    requires d >= 1
    ensures n / d <= n
    ensures d >= 2 ==> 2 * (n / d) <= n
  {
    var q := n / d;
    assert n == d * q + n % d;
    assert d * q >= q by {
      assert (d - 1) * q >= 0;
    }
    if d >= 2 {
      assert (d - 2) * q >= 0;
      assert d * q >= 2 * q;
    }
  }

  /** The C# quotient of two 32-bit integers fits in 32 bits, except for
      `int.MinValue / -1`. */
  lemma {:induction false} TruncDivInRange(a: int, b: int)
    requires Text.Int32Min <= a <= Text.Int32Max && Text.Int32Min <= b <= Text.Int32Max
    requires b != 0 && !(a == Text.Int32Min && b == -1)
    ensures Text.Int32Min <= TruncDiv(a, b) <= Text.Int32Max
  {
    QuotientBound(Abs(a), Abs(b));
  }

  /** `Vector3 / Vector3`: component-wise C# division; a zero component throws
      `DivideByZeroException`, and `int.MinValue / -1` throws `OverflowException`. */
  function Div3(a: Vector3, b: Vector3): (r: Result<Vector3>)
    requires IsInt32(a) && IsInt32(b)
    ensures r.Failure? <==> (b.x == 0 || b.y == 0 || b.z == 0
      || (a.x == Text.Int32Min && b.x == -1) || (a.y == Text.Int32Min && b.y == -1)
      || (a.z == Text.Int32Min && b.z == -1))
    ensures r.Success? ==> IsInt32(r.value)
  {
    if b.x == 0 || b.y == 0 || b.z == 0 then Failure("DivideByZeroException")
    else if (a.x == Text.Int32Min && b.x == -1) || (a.y == Text.Int32Min && b.y == -1)
      || (a.z == Text.Int32Min && b.z == -1) then Failure("OverflowException")
    else
      TruncDivInRange(a.x, b.x);
      TruncDivInRange(a.y, b.y);
      TruncDivInRange(a.z, b.z);
      Success(Vector3(TruncDiv(a.x, b.x), TruncDiv(a.y, b.y), TruncDiv(a.z, b.z)))
  }
}
