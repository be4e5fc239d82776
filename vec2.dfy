/** The integer instance `Vec2i` of 2048/Vec2.h. Components are unbounded
    integers; the in-place operators (`clamp`, `+=`, `-=`) return the value
    the receiver holds afterwards. */
module Vec2Math {
  import Utility

  /** C++ integer division: the quotient is truncated toward zero, so it
      agrees with Dafny's division when both operands are non-negative. */
  function TruncDiv(a: int, b: int): (q: int)
    requires b != 0
    ensures a >= 0 && b > 0 ==> q == a / b
  {
    var q := Abs(a) / Abs(b);
    if (a < 0) == (b < 0) then q else -q
  }

  function Abs(a: int): nat
  {
    if a < 0 then -a else a
  }

  /** The truncated quotient leaves a remainder that is smaller than the
      divisor in magnitude and has the sign of the dividend. */
  lemma TruncDivIsCppDivision(a: int, b: int)
    requires b != 0
    ensures var r := a - TruncDiv(a, b) * b;
      Abs(r) < Abs(b) && (a >= 0 ==> r >= 0) && (a <= 0 ==> r <= 0)
  {
    var bb: int := Abs(b);
    var m: int := Abs(a) / bb;
    EuclidOnNat(Abs(a), Abs(b));
    var q := TruncDiv(a, b);
    MulSigns(m, bb);
    if a >= 0 && b > 0 {
      assert q * b == m * bb;
    } else if a >= 0 {
      assert q * b == (-m) * (-bb);
    } else if b > 0 {
      assert q * b == -(m * bb);
    } else {
      assert q * b == m * (-bb);
    }
  }

  lemma EuclidOnNat(a: nat, b: nat)
    requires b > 0
    ensures a == (a / b) * b + a % b && 0 <= a % b < b
  {
  }

  lemma MulSigns(x: int, y: int)
    ensures (-x) * y == -(x * y) && x * (-y) == -(x * y) && (-x) * (-y) == x * y
  {
  }

  datatype Vec2 = Vec2(x: int, y: int) {

    /** `clamp(min, max)`: each component clamped on its own axis. A
        component below the box becomes its lower bound, one above it the
        upper bound, and on an axis where `lo` exceeds `hi` the upper bound
        wins. */
    function Clamp(lo: Vec2, hi: Vec2): (r: Vec2)
      ensures lo.x <= hi.x ==> lo.x <= r.x <= hi.x
      ensures lo.y <= hi.y ==> lo.y <= r.y <= hi.y
      ensures lo.x <= x <= hi.x ==> r.x == x
      ensures lo.y <= y <= hi.y ==> r.y == y
      ensures r.x == Utility.Clamped(x, lo.x, hi.x) && r.y == Utility.Clamped(y, lo.y, hi.y)
    {
      Vec2(Utility.Clamped(x, lo.x, hi.x), Utility.Clamped(y, lo.y, hi.y))
    }

    /** `clamped(min, max)`: clamps a copy, so the receiver is unchanged. */
    function Clamped(lo: Vec2, hi: Vec2): (r: Vec2)
      ensures r == Clamp(lo, hi)
    {
      var copy := this;
      copy.Clamp(lo, hi)
    }

    /** `operator+`. */
    function Add(right: Vec2): (r: Vec2)
      ensures r.x - right.x == x && r.y - right.y == y
    {
      Vec2(x + right.x, y + right.y)
    }

    /** Unary `operator-`. */
    function Neg(): (r: Vec2)
      ensures r.x == -x && r.y == -y
    {
      Vec2(-x, -y)
    }

    /** Binary `operator-`, written in the source as `left + (-right)`. */
    function Sub(right: Vec2): (r: Vec2)
      ensures r.x == x - right.x && r.y == y - right.y
    {
      Add(right.Neg())
    }

    /** `operator*(Vec2, T)`: defined as `right * left`. */
    function Times(k: int): (r: Vec2)
      ensures r == Scale(k, this)
      ensures r.x == k * x && r.y == k * y
    {
      Scale(k, this)
    }

    /** `operator/(Vec2, T)`: the zero vector for a zero divisor, otherwise
        both components divided with C++ truncation. */
    function Div(k: int): (r: Vec2)
      ensures k == 0 ==> r == Zero()
      ensures k != 0 ==> r == Vec2(TruncDiv(x, k), TruncDiv(y, k))
    {
      if k != 0 then Vec2(TruncDiv(x, k), TruncDiv(y, k)) else Zero()
    }

    /** `operator+=`: the receiver becomes the sum. */
    function AddAssign(right: Vec2): (r: Vec2)
      ensures r == Add(right)
    {
      Add(right)
    }

    /** `operator-=`: the receiver becomes the difference. */
    function SubAssign(right: Vec2): (r: Vec2)
      ensures r == Sub(right)
    {
      Sub(right)
    }

    /** `operator==`: both components agree. */
    predicate Eq(right: Vec2)
      ensures Eq(right) <==> this == right
    {
      x == right.x && y == right.y
    }

    /** `operator!=`: the negation of `==`. */
    predicate Neq(right: Vec2)
      ensures Neq(right) <==> this != right
    {
      !Eq(right)
    }
  }

  /** `Vec2()`: both components zero. */
  function Zero(): Vec2
  {
    Vec2(0, 0)
  }

  /** The default vector is neutral: adding or subtracting it changes
      nothing. */
  lemma ZeroIsNeutral(v: Vec2)
    ensures v.Add(Zero()) == v && v.Sub(Zero()) == v && Zero().Add(v) == v
  {
  }

  /** `operator*(T, Vec2)`: scales both components. */
  function Scale(k: int, v: Vec2): (r: Vec2)
    ensures r.x == k * v.x && r.y == k * v.y
  {
    Vec2(k * v.x, k * v.y)
  }

  /** The engine's bounds test: for a non-empty box, clamping leaves a point
      where it is exactly when the point already lies in the box. */
  lemma ClampedIsIdentityIffInside(p: Vec2, lo: Vec2, hi: Vec2)
    requires lo.x <= hi.x && lo.y <= hi.y
    ensures p.Clamped(lo, hi) == p <==> lo.x <= p.x <= hi.x && lo.y <= p.y <= hi.y
  {
    if p.Clamped(lo, hi) == p {
      assert p.Clamp(lo, hi).x == p.x && p.Clamp(lo, hi).y == p.y;
    }
  }

  /** Negation is the additive inverse, and subtracting undoes adding.
      (Kept out of the operators' contracts so that they do not feed each
      other's instantiation.) */
  lemma AddSubInverse(a: Vec2, b: Vec2)
    ensures a.Neg().Add(a) == Zero()
    ensures a.Add(b).Sub(b) == a && a.Sub(b).Add(b) == a
  {
  }
}
