/** Scrypto's `Decimal`: a signed fixed-point number with 18 decimal places,
    represented here by the integer count of its 10^-18 units.  Products and
    quotients are formed exactly and then truncated toward zero, as the
    platform does with its big-integer intermediate. */
module FixedPoint {

  type Decimal = int

  /** The Decimal 1, i.e. 10^18 units. */
  const ONE: int := 1_000_000_000_000_000_000

  function Abs(x: int): nat {
    if x < 0 then -x else x
  }

  /** The Decimal holding the whole number n. */
  function FromInt(n: int): Decimal {
    n * ONE
  }

  /** Integer division that rounds toward zero (not Dafny's Euclidean `/`). */
  function Quot(a: int, b: int): (q: int)
    requires b != 0
    ensures Abs(q) * Abs(b) <= Abs(a) < (Abs(q) + 1) * Abs(b)
    ensures (a < 0) == (b < 0) ==> q >= 0
    ensures (a < 0) != (b < 0) ==> q <= 0
  {
    var m := Abs(a) / Abs(b);
    FloorBracket(Abs(a), Abs(b));
    var q := if (a < 0) == (b < 0) then m else -m;
    assert Abs(q) == m;
    q
  }

  /** Decimal multiplication: the exact product, truncated to 18 places. */
  function Mul(a: Decimal, b: Decimal): (r: Decimal)
    ensures 0 <= a && 0 <= b ==> 0 <= r && r * ONE <= a * b < (r + 1) * ONE
  {
    QuotOfNonNegative(a * b, ONE);
    Quot(a * b, ONE)
  }

  /** 1 is the identity of Decimal multiplication on both sides. */
  lemma MulByOne(a: Decimal)
    ensures Mul(a, ONE) == a && Mul(ONE, a) == a
  {
    QuotCancel(a, ONE);
    assert ONE * a == a * ONE;
  }

  /** Decimal division: the exact quotient, truncated to 18 places.
      Dividing by zero aborts the transaction, so callers must exclude it. */
  function Div(a: Decimal, b: Decimal): (r: Decimal)
    requires b != 0
    ensures a == b ==> r == ONE
    ensures a == 0 ==> r == 0
    ensures 0 <= a && 0 < b ==> 0 <= r && r * b <= a * ONE < (r + 1) * b
  {
    QuotCancel(ONE, b);
    QuotOfNonNegative(a * ONE, b);
    Quot(a * ONE, b)
  }

  // ---------------------------------------------------------------------
  // Arithmetic helpers

  lemma FloorBracket(x: nat, y: nat)
    requires y > 0
    ensures (x / y) * y <= x < (x / y + 1) * y
  {
    var m, r := x / y, x % y;
    assert x == y * m + r && 0 <= r < y;
    assert (m + 1) * y == m * y + y;
  }

  lemma MulSign(x: int, y: int)
    requires 0 <= x && 0 <= y
    ensures 0 <= x * y
  {
  }

  lemma MulLeft(a: int, b: int, c: int)
    requires a <= b && 0 <= c
    ensures a * c <= b * c
  {
    MulSign(b - a, c);
    assert b * c - a * c == (b - a) * c;
  }

  lemma MulStrict(a: int, b: int, c: int)
    requires a < b && 0 < c
    ensures a * c < b * c
  {
    MulLeft(a + 1, b, c);
    assert (a + 1) * c == a * c + c;
  }

  lemma MulCancel(a: int, b: int, c: int)
    requires a * c <= b * c && 0 < c
    ensures a <= b
  {
    if b < a {
      MulStrict(b, a, c);
    }
  }

  /** On non-negative operands with a positive divisor, Quot is the floor. */
  lemma QuotOfNonNegative(a: int, b: int)
    requires b != 0
    ensures 0 <= a && 0 < b ==> 0 <= Quot(a, b) && Quot(a, b) * b <= a < (Quot(a, b) + 1) * b
  {
  }

  lemma QuotCancel(k: int, b: int)
    requires b != 0
    ensures Quot(k * b, b) == k
  {
    var q := Quot(k * b, b);
    AbsMul(k, b);
    var ak, ab := Abs(k), Abs(b);
    assert Abs(q) * ab <= ak * ab < (Abs(q) + 1) * ab;
    if Abs(q) < ak {
      MulLeft(Abs(q) + 1, ak, ab);
    } else if Abs(q) > ak {
      MulLeft(ak + 1, Abs(q), ab);
    }
    assert Abs(q) == ak;
    if k > 0 {
      MulStrict(0, ak, ab);
      assert (k * b < 0) == (b < 0);
    } else if k < 0 {
      MulStrict(0, ak, ab);
      assert (k * b < 0) != (b < 0);
    }
  }

  lemma AbsMul(x: int, y: int)
    ensures Abs(x * y) == Abs(x) * Abs(y)
  {
    if x < 0 && y < 0 {
      assert x * y == (-x) * (-y);
      MulSign(-x, -y);
    } else if x < 0 {
      assert x * y == -((-x) * y);
      MulSign(-x, y);
    } else if y < 0 {
      assert x * y == -(x * (-y));
      MulSign(x, -y);
    } else {
      MulSign(x, y);
    }
  }
}
