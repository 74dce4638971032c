/** Shared vocabulary: optional values, results carrying the Java exceptions of
    the engine by kind, and the 32-bit integer arithmetic that Java uses. */
module Common {

  datatype Option<T> = None | Some(value: T)

  /** The exceptions the engine raises, by kind. */
  datatype Error =
    | DbException(reason: string)
    | NoSuchElement
    | IllegalArgument
    | Unsupported
    | IndexOutOfBounds
    | NullPointer
    | Arithmetic                 // integer division by zero
    | StorageFault(reason: string) // RuntimeException around a short read or write
    | Blocked                    // a lock that cannot be granted yet (the source spins here)
    | ProcessExit(reason: string)  // System.exit on a malformed catalog line

  datatype Result<T> = Ok(value: T) | Err(error: Error) {
    predicate IsFailure() { Err? }
    function PropagateFailure<U>(): Result<U>
      requires Err?
    {
      Err(error)
    }
    function Extract(): T
      requires Ok?
    {
      value
    }
  }

  type Byte = bv8

  const INT_MIN: int := -0x8000_0000
  const INT_MAX: int := 0x7fff_ffff
  const TWO_32: int := 0x1_0000_0000

  predicate IsInt32(x: int) { INT_MIN <= x <= INT_MAX }

  /** Java's wrap-around of an exact integer result into a 32-bit `int`. */
  function Wrap32(x: int): (r: int)
    ensures IsInt32(r)
    ensures IsInt32(x) ==> r == x
  {
    (x - INT_MIN) % TWO_32 + INT_MIN
  }

  /** The wrapped value differs from the exact one by a multiple of 2^32. */
  lemma Wrap32Congruent(x: int)
    ensures (Wrap32(x) - x) % TWO_32 == 0
  {
    var q := (x - INT_MIN) / TWO_32;
    assert Wrap32(x) - x == -TWO_32 * q;
  }

  /** Wrapping part-way through a sum does not change the wrapped total. */
  lemma Wrap32Add(x: int, y: int)
    ensures Wrap32(Wrap32(x) + y) == Wrap32(x + y)
  {
    var q := (x - INT_MIN) / TWO_32;
    assert Wrap32(x) + y - INT_MIN == (x + y - INT_MIN) - TWO_32 * q;
  }

  /** Integer division truncated toward zero, as C and Java define it. */
  function TruncDiv(a: int, b: int): int
    requires b != 0
  {
    var m := (if a < 0 then -a else a) / (if b < 0 then -b else b);
    if (a < 0) != (b < 0) then -m else m
  }

  /** The remainder that goes with TruncDiv has the sign of the dividend and is
      smaller in magnitude than the divisor: the quotient is truncated, not
      floored as Dafny's own division is for negative operands. */
  lemma {:induction false} TruncDivRemainder(a: int, b: int)
    requires b != 0
    ensures var rem := a - TruncDiv(a, b) * b;
            (if rem < 0 then -rem else rem) < (if b < 0 then -b else b) &&
            (rem == 0 || (rem < 0) == (a < 0))
  {
    var ab := if a < 0 then -a else a;
    var bb := if b < 0 then -b else b;
    var m := ab / bb;
    var r := ab % bb;
    assert ab == m * bb + r && 0 <= r < bb;
    var q := TruncDiv(a, b);
    if a < 0 && b < 0 {
      assert q == m && a == -ab && b == -bb;
      assert a - q * b == -r;
    } else if a < 0 {
      assert q == -m && a == -ab && b == bb;
      assert a - q * b == -r;
    } else if b < 0 {
      assert q == -m && a == ab && b == -bb;
      assert a - q * b == r;
    } else {
      assert q == m && a == ab && b == bb;
      assert a - q * b == r;
    }
  }

  /** Java's `a / b` on `int`: the truncated quotient, wrapped (only
      `INT_MIN / -1` actually wraps). */
  function JavaDiv(a: int, b: int): (q: int)
    requires b != 0
    ensures IsInt32(q)
  {
    Wrap32(TruncDiv(a, b))
  }

  /** Outside the single overflowing case, Java's division of ints does not
      wrap. */
  lemma JavaDivExact(a: int, b: int)
    requires b != 0 && IsInt32(a) && IsInt32(b) && !(a == INT_MIN && b == -1)
    ensures JavaDiv(a, b) == TruncDiv(a, b)
  {
    TruncDivInRange(a, b);
  }

  lemma TruncDivInRange(a: int, b: int)
    requires b != 0 && IsInt32(a) && IsInt32(b) && !(a == INT_MIN && b == -1)
    ensures IsInt32(TruncDiv(a, b))
  {
    var ab := if a < 0 then -a else a;
    var bb := if b < 0 then -b else b;
    var m := ab / bb;
    assert 0 <= ab <= 0x8000_0000;
    if bb == 1 {
      assert m == ab;
    } else {
      QuotientHalves(ab, bb);
    }
  }

  lemma QuotientHalves(x: nat, y: nat)
    requires y >= 2
    ensures x / y * 2 <= x
  {
    var m := x / y;
    assert m * y <= x;
    assert m * 2 <= m * y;
  }

  /** Congruence modulo 2^32 is closed under sums and integer multiples. */
  lemma CongruentSum(a: int, b: int, c: int)
    requires (a - b) % TWO_32 == 0 && (b - c) % TWO_32 == 0
    ensures (a - c) % TWO_32 == 0
  {
    var k1 := (a - b) / TWO_32;
    var k2 := (b - c) / TWO_32;
    assert a - b == TWO_32 * k1;
    assert b - c == TWO_32 * k2;
    assert a - c == TWO_32 * (k1 + k2);
  }

  lemma CongruentScale(a: int, b: int, k: int)
    requires (a - b) % TWO_32 == 0
    ensures (k * a - k * b) % TWO_32 == 0
  {
    var j := (a - b) / TWO_32;
    assert a - b == TWO_32 * j;
    assert k * a - k * b == TWO_32 * (k * j) by {
      assert k * a - k * b == k * (a - b);
    }
  }

  function Zeros(n: nat): (z: seq<Byte>)
    ensures |z| == n && forall i :: 0 <= i < n ==> z[i] == 0
  {
    seq(n, _ => 0)
  }
}
