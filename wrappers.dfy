/**
 * Option and Result types shared by every module, and the failures the Java
 * code raises: its checked exceptions (IOException, HTTPParseException,
 * SocketPoolException) and the runtime exceptions its code paths can throw.
 */
module Wrappers {

  datatype Option<+T> = None | Some(value: T)

  /** The runtime exceptions reachable in the modelled code. */
  datatype RuntimeKind =
    | NullPointer              // NullPointerException
    | IndexOutOfBounds         // ArrayIndexOutOfBoundsException
    | NumberFormat             // NumberFormatException from Integer.parseInt
    | Arithmetic               // ArithmeticException (integer division by zero)
    | ConcurrentModification   // ConcurrentModificationException from a HashMap iterator
    | Security                 // SecurityException, the unchecked exception an executor's shutdown declares
    | IllegalArgument          // IllegalArgumentException from InetSocketAddress on a port outside 0..65535

  datatype Failure =
    | IOFailure(msg: string)          // java.io.IOException
    | HttpParseFailure(msg: string)   // HTTPParseException
    | SocketPoolFailure(msg: string)  // SocketPoolException
    | RuntimeFailure(kind: RuntimeKind)

  datatype Result<+T> = Ok(value: T) | Err(error: Failure)

  /** Java's `int` range. */
  predicate IsInt32(n: int) {
    -0x8000_0000 <= n < 0x8000_0000
  }

  /** Two's-complement wrap-around of an unbounded integer into Java's `int`. */
  function Wrap32(n: int): (r: int)
    ensures IsInt32(r)
    ensures IsInt32(n) ==> r == n
    ensures (r - n) % 0x1_0000_0000 == 0
  {
    (n + 0x8000_0000) % 0x1_0000_0000 - 0x8000_0000
  }

  /** Two numbers that differ by a multiple of 2^32 wrap to the same `int`. */
  lemma WrapCongruent(a: int, b: int, q: int)
    requires a - b == 0x1_0000_0000 * q
    ensures Wrap32(a) == Wrap32(b)
  {
    var m := 0x1_0000_0000;
    var x := b + 0x8000_0000;
    assert a + 0x8000_0000 == x + m * q;
    assert (x + m * q) % m == x % m;
  }

  /** Wrapping commutes with an affine step: wrap, then step and wrap, is step and wrap once. */
  lemma WrapAffine(t: int, s: int, a: int, b: int)
    requires t == Wrap32(s)
    ensures Wrap32(a * t + b) == Wrap32(a * s + b)
  {
    var m := 0x1_0000_0000;
    var q := (t - s) / m;
    assert t - s == m * q;
    assert (a * t + b) - (a * s + b) == m * (a * q) by {
      assert a * t - a * s == a * (t - s);
    }
    WrapCongruent(a * t + b, a * s + b, a * q);
  }

  /** Java's `/` on integers: truncates toward zero. */
  function JavaDiv(a: int, b: int): (q: int)
    requires b != 0
    ensures a >= 0 && b > 0 ==> q == a / b
  {
    if (a >= 0) == (b > 0) then Abs(a) / Abs(b) else -(Abs(a) / Abs(b))
  }

  /** Java's `%` on integers: the remainder has the sign of the dividend. */
  function JavaRem(a: int, b: int): (r: int)
    requires b != 0
    ensures a >= 0 ==> 0 <= r < Abs(b)
    ensures a < 0 ==> -(Abs(b) as int) < r <= 0
  {
    if a >= 0 then a % Abs(b) else -((-a) % Abs(b))
  }

  function Abs(n: int): nat {
    if n < 0 then -n else n
  }

  /** A non-empty set has a member; this returns one. */
  lemma PickMember<T>(s: set<T>) returns (y: T)
    requires s != {}
    ensures y in s
  {
    if forall z :: z !in s {
      assert false;
    }
    y :| y in s;
  }
}
