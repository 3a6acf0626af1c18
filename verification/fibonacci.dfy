/**
 Model of the recursive Fibonacci example (Review02/Example03.cpp).

 The C function takes and returns an `unsigned int`. Dafny integers are
 unbounded, so the 32-bit domain is the subset type `UInt32` and the one
 place where the C code can leave that domain, the addition of the two
 recursive results, is reduced modulo 2^32 explicitly, as unsigned
 arithmetic in C does.
 */
module Fibonacci {

  /** 2^32: the number of values of a 32-bit `unsigned int`. */
  const Modulus: nat := 0x1_0000_0000

  type UInt32 = x: int | 0 <= x < Modulus

  /** Unsigned 32-bit addition: the mathematical sum reduced modulo 2^32. */
  function Add(a: UInt32, b: UInt32): (r: UInt32)
    ensures r == (a + b) % Modulus
    // The next two clauses spell out the wrap rule itself: at most one subtraction.
    ensures a + b < Modulus ==> r == a + b
    ensures a + b >= Modulus ==> r == a + b - Modulus
  {
    if a + b < Modulus then a + b else a + b - Modulus
  }

  /** The Fibonacci numbers over the unbounded naturals: the reference the
      32-bit computation is measured against. */
  ghost function SpecFib(n: nat): nat
  {
    if n <= 1 then n else SpecFib(n - 1) + SpecFib(n - 2)
  }

  /** Reducing before or after an addition gives the same residue. */
  lemma AddResidues(x: nat, y: nat)
    ensures (x % Modulus + y % Modulus) % Modulus == (x + y) % Modulus
  {
    var qx, rx := x / Modulus, x % Modulus;
    var qy, ry := y / Modulus, y % Modulus;
    assert x + y == (qx + qy) * Modulus + (rx + ry);
    if rx + ry < Modulus {
      assert (x + y) / Modulus == qx + qy;
    } else {
      assert x + y == (qx + qy + 1) * Modulus + (rx + ry - Modulus);
      assert (x + y) / Modulus == qx + qy + 1;
    }
  }

  /** `Fibbonaci(i)`: for `i <= 1` the argument itself, otherwise the wrapping
      sum of the two previous values. `i - 1` and `i - 2` cannot wrap because
      that branch only runs for `i >= 2`. The result is the true Fibonacci
      number reduced modulo 2^32. */
  function Fibonacci(i: UInt32): (r: UInt32)
    decreases i
    ensures r == SpecFib(i) % Modulus
  {
    if i <= 1 then i
    else
      var sum := Add(Fibonacci(i - 1), Fibonacci(i - 2));
      AddResidues(SpecFib(i - 1), SpecFib(i - 2));
      sum
  }

  /** The base cases and the wrapping recurrence the C code obeys, stated
      of the exact Fibonacci numbers. */
  lemma FibonacciRecurrence(i: UInt32)
    ensures i <= 1 ==> Fibonacci(i) == i
    ensures i >= 2 ==> Fibonacci(i) == (Fibonacci(i - 1) + Fibonacci(i - 2)) % Modulus
    ensures i >= 2 ==> Fibonacci(i) == (SpecFib(i - 1) + SpecFib(i - 2)) % Modulus
  {
    if i >= 2 {
      assert Fibonacci(i) == Add(Fibonacci(i - 1), Fibonacci(i - 2));
      assert SpecFib(i) == SpecFib(i - 1) + SpecFib(i - 2);
    }
  }

  /** The exact Fibonacci numbers never decrease. */
  lemma {:induction false} SpecFibMonotone(i: nat, j: nat)
    requires i <= j
    ensures SpecFib(i) <= SpecFib(j)
    decreases j
  {
    if i < j {
      SpecFibMonotone(i, j - 1);
      if j >= 2 {
        assert SpecFib(j) == SpecFib(j - 1) + SpecFib(j - 2);
      }
    }
  }

  /** The first ten Fibonacci numbers, and the two around the 32-bit limit,
      evaluated one recurrence step at a time. */
  lemma SpecFibValues()
    ensures forall k :: 0 <= k < 10 ==> SpecFib(k) == FirstTen[k]
    ensures SpecFib(47) == 2971215073 < Modulus
    ensures SpecFib(48) == 4807526976 >= Modulus
  {
    assert SpecFib(0) == 0;
    assert SpecFib(1) == 1;
    assert SpecFib(2) == 1;
    assert SpecFib(3) == 2;
    assert SpecFib(4) == 3;
    assert SpecFib(5) == 5;
    assert SpecFib(6) == 8;
    assert SpecFib(7) == 13;
    assert SpecFib(8) == 21;
    assert SpecFib(9) == 34;
    assert SpecFib(10) == 55;
    assert SpecFib(11) == 89;
    assert SpecFib(12) == 144;
    assert SpecFib(13) == 233;
    assert SpecFib(14) == 377;
    assert SpecFib(15) == 610;
    assert SpecFib(16) == 987;
    assert SpecFib(17) == 1597;
    assert SpecFib(18) == 2584;
    assert SpecFib(19) == 4181;
    assert SpecFib(20) == 6765;
    assert SpecFib(21) == 10946;
    assert SpecFib(22) == 17711;
    assert SpecFib(23) == 28657;
    assert SpecFib(24) == 46368;
    assert SpecFib(25) == 75025;
    assert SpecFib(26) == 121393;
    assert SpecFib(27) == 196418;
    assert SpecFib(28) == 317811;
    assert SpecFib(29) == 514229;
    assert SpecFib(30) == 832040;
    assert SpecFib(31) == 1346269;
    assert SpecFib(32) == 2178309;
    assert SpecFib(33) == 3524578;
    assert SpecFib(34) == 5702887;
    assert SpecFib(35) == 9227465;
    assert SpecFib(36) == 14930352;
    assert SpecFib(37) == 24157817;
    assert SpecFib(38) == 39088169;
    assert SpecFib(39) == 63245986;
    assert SpecFib(40) == 102334155;
    assert SpecFib(41) == 165580141;
    assert SpecFib(42) == 267914296;
    assert SpecFib(43) == 433494437;
    assert SpecFib(44) == 701408733;
    assert SpecFib(45) == 1134903170;
    assert SpecFib(46) == 1836311903;
    assert SpecFib(47) == 2971215073;
    assert SpecFib(48) == 4807526976;
  }

  /** 0, 1, 1, 2, 3, 5, 8, 13, 21, 34: the values the driver in `main` prints. */
  const FirstTen: seq<nat> := [0, 1, 1, 2, 3, 5, 8, 13, 21, 34]

  /** Largest index whose Fibonacci number still fits in 32 bits. */
  const LastExactIndex: UInt32 := 47

  /** Up to index 47 the `unsigned int` result is the exact Fibonacci number. */
  lemma ExactUpToLastIndex(i: UInt32)
    requires i <= LastExactIndex
    ensures Fibonacci(i) == SpecFib(i)
  {
    SpecFibValues();
    SpecFibMonotone(i, LastExactIndex);
  }

  /** Above index 47 the exact Fibonacci number is at least 2^32, so every
      result there has wrapped. */
  lemma WrappedPastLastIndex(i: UInt32)
    requires i > LastExactIndex
    ensures Fibonacci(i) != SpecFib(i)
  {
    SpecFibValues();
    SpecFibMonotone(LastExactIndex + 1, i);
  }

  /** Index 48 is the first whose result has wrapped: 4807526976 - 2^32. */
  lemma FirstWrap()
    ensures Fibonacci(LastExactIndex + 1) != SpecFib(LastExactIndex + 1)
    ensures Fibonacci(LastExactIndex + 1) == 512559680
  {
    SpecFibValues();
  }

  /** Linear-time computation with two accumulators, each step using the same
      wrapping addition; it returns the value of the recursive definition. */
  method FibonacciIterative(i: UInt32) returns (r: UInt32)
    ensures r == Fibonacci(i)
    ensures r == SpecFib(i) % Modulus
  {
    var current: UInt32, next: UInt32 := 0, 1;
    var k := 0;
    while k < i
      invariant 0 <= k <= i
      invariant current == SpecFib(k) % Modulus
      invariant next == SpecFib(k + 1) % Modulus
      decreases i - k
    {
      AddResidues(SpecFib(k), SpecFib(k + 1));
      current, next := next, Add(current, next);
      k := k + 1;
    }
    r := current;
  }

  /** Number of indices the driver in `main` evaluates. */
  const DriverCount: UInt32 := 10

  /** The driver loop of `main`: for `index` from 0 while `index < 10`, the
      pair (index, Fibbonaci(index)) that `printf` formats, in loop order.
      The printed values are 0, 1, 1, 2, 3, 5, 8, 13, 21, 34. */
  method Driver() returns (lines: seq<(UInt32, UInt32)>)
    ensures |lines| == DriverCount as int
    ensures forall k :: 0 <= k < |lines| ==> lines[k] == (k, Fibonacci(k))
    ensures forall k :: 0 <= k < |lines| ==> lines[k].1 == FirstTen[k]
  {
    lines := [];
    var index: UInt32 := 0;
    while index < DriverCount
      invariant 0 <= index <= DriverCount
      invariant |lines| == index as int
      invariant forall k :: 0 <= k < |lines| ==> lines[k] == (k, Fibonacci(k))
    {
      lines := lines + [(index, Fibonacci(index))];
      index := index + 1;
    }
    forall k | 0 <= k < |lines|
      ensures lines[k].1 == FirstTen[k]
    {
      DriverValue(k);
    }
  }

  /** Each of the first ten 32-bit results is the exact Fibonacci number. */
  lemma DriverValue(k: UInt32)
    requires k < DriverCount
    ensures Fibonacci(k) == SpecFib(k) == FirstTen[k]
  {
    SpecFibValues();
  }
}
