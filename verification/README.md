# Verified model of the Fibonacci and Min/Max teaching examples

The repository is a collection of small, unconnected C++ teaching demos. Two of
them are pure, sequential computations whose behaviour can be stated exactly,
and this project models those two in Dafny:

- `Review02/Example03.cpp`: the recursive `Fibbonaci(unsigned int)` function
  and the `main` loop that evaluates it for indices 0 to 9
  (`fibonacci.dfy`, module `Fibonacci`).
- `Templates01/main.cpp`: the `Min<T>` and `Max<T>` function templates built on
  the conditional operator, and their `int` and `char` calls in `main`
  (`templates.dfy`, module `Templates`).

`unsigned int` is the subset type `Fibonacci.UInt32` (0 to 2^32 - 1). The
addition of the two recursive results is written out as unsigned 32-bit
addition, that is, modulo 2^32. A ghost reference `SpecFib` gives the exact
Fibonacci numbers over the naturals. The model proves that the C function
returns the exact number reduced modulo 2^32, that this value is the exact
number up to index 47, and that index 48 is the first one that wraps.

The templates take the comparison as a parameter `less`, a strict "less
than". `valueA > valueB` in `Max` is `less(valueB, valueA)`. A property that
needs a strict total order, as `<` on `int` and `char` is, says so in its
`requires`. The tie-breaking rule is proved for any comparison and any pair of
equivalent but unequal arguments; a comparison by key, where two values can be
equivalent without being equal, gives a concrete instance.

## Model

| member | source | states |
|---|---|---|
| `Fibonacci.Add` | Review02/Example03.cpp:23 | unsigned 32-bit addition: the sum reduced modulo 2^32, equal to the plain sum below 2^32 and to the sum minus 2^32 otherwise |
| `Fibonacci.Fibonacci` | Review02/Example03.cpp:18-24 | for every 32-bit index the result is the exact Fibonacci number reduced modulo 2^32; termination by the `decreases i` clause, since both recursive arguments are smaller and `i <= 1` stops the recursion |
| `Fibonacci.FibonacciRecurrence` | Review02/Example03.cpp:20-23 | `Fibbonaci(0) == 0` and `Fibbonaci(1) == 1`; for `i >= 2` the result is the wrapping sum of the two previous results, and also of the two previous exact Fibonacci numbers |
| `Fibonacci.ExactUpToLastIndex` | Review02/Example03.cpp:18-24 | for every index up to 47 the `unsigned int` result is the exact Fibonacci number |
| `Fibonacci.WrappedPastLastIndex` | Review02/Example03.cpp:18-24 | for every index above 47 the `unsigned int` result differs from the exact Fibonacci number, so the result is exact exactly when the index is at most 47 |
| `Fibonacci.FirstWrap` | Review02/Example03.cpp:23 | at index 48 the wrapping addition makes the result differ from the exact Fibonacci number; it equals 512559680 |
| `Fibonacci.FibonacciIterative` | Review02/Example03.cpp:18-24 | a linear-time loop with two accumulators and the same wrapping addition returns the recursive function's value, for every index |
| `Fibonacci.Driver` | Review02/Example03.cpp:8-11 | the loop evaluates exactly the indices 0 to 9, in increasing order, pairing each with its `Fibbonaci` value; the values are 0, 1, 1, 2, 3, 5, 8, 13, 21, 34 |
| `Fibonacci.DriverValue` | Review02/Example03.cpp:8-10 | for each index the driver evaluates, the 32-bit result is the exact Fibonacci number and the corresponding entry of 0, 1, 1, 2, 3, 5, 8, 13, 21, 34 |
| `Templates.Min` | Templates01/main.cpp:5-9 | the result is one of the two arguments: the first when `valueA < valueB`, otherwise the second, equal arguments included |
| `Templates.Max` | Templates01/main.cpp:11-15 | the result is one of the two arguments: the first when `valueA > valueB`, otherwise the second, equal arguments included |
| `Templates.MinIsLeast` | Templates01/main.cpp:8 | under a strict total order `Min` returns an argument that is at most both arguments, and it is the only argument with that property |
| `Templates.MaxIsGreatest` | Templates01/main.cpp:14 | under a strict total order `Max` returns an argument that is at least both arguments, and it is the only argument with that property |
| `Templates.Bounds` | Templates01/main.cpp:5-15 | for any irreflexive, transitive `<`, neither argument is below `Min` and neither is above `Max` |
| `Templates.Commutative` | Templates01/main.cpp:5-15 | under a strict total order, swapping the arguments gives the same `Min` and the same `Max` |
| `Templates.MinMaxPermutation` | Templates01/main.cpp:5-15 | under a strict total order, `Min` and `Max` of two values together give back both values, as a multiset |
| `Templates.TiesReturnSecond` | Templates01/main.cpp:5-15 | for any comparison and any arguments that are equivalent (neither less than the other) but not equal, both templates return the second argument, so the first argument appears in neither result |
| `Templates.KeyTieExample` | Templates01/main.cpp:5-15 | an instance of the tie rule: under a comparison by key, `Min` and `Max` of (1, 'x') and (1, 'y') are both (1, 'y') |
| `Templates.MainInstantiations` | Templates01/main.cpp:19-22 | at `int` and `char`, for all arguments, `Min` is the unique least argument, `Max` the unique greatest, and `Min` does not depend on the argument order |
| `Templates.IntLessIsStrictTotalOrder` | Templates01/main.cpp:19 | `<` on `int` is a strict total order, so the total-order properties apply to the `int` instantiation |
| `Templates.CharLessIsStrictTotalOrder` | Templates01/main.cpp:22 | `<` on `char` (by code point) is a strict total order, so the total-order properties apply to the `char` instantiation |
| `Templates.IntMinMax` | Templates01/main.cpp:5-15 | at `int`, `Min` and `Max` equal the mathematical minimum and maximum |
| `Templates.ExampleCalls` | Templates01/main.cpp:19-22 | `Min(10, 8)` is 8 and `Min('A', 'a')` is 'A', since 'A' is code point 65 and 'a' is 97 |

## Left out

- `printf`, `scanf`, `std::cout` and the text they produce are output only. `Fibonacci.Driver` returns the (index, value) pairs that `printf` would format.
- The `double` and `float` calls `Min(10.0, 8.0)` and `Min(10.0f, 8.0f)` (Templates01/main.cpp:20-21) are left out because the model has no floating point. IEEE `<` is irreflexive and transitive even with NaN, so `Min`, `Max`, `Bounds` and `TiesReturnSecond` apply to it. NaN is unordered, so it is not a strict total order, and `MinIsLeast`, `MaxIsGreatest`, `Commutative` and `MinMaxPermutation` do not apply.
- C `char` is 8 bits wide and, on many targets, signed, so bytes 0x80 to 0xFF compare below 'A' there; Dafny `char` is a Unicode scalar value compared by code point. The two agree on 'A' and 'a', which are the only characters `main` uses.
- `unsigned int` is taken to be exactly 32 bits wide, as on common platforms; C only guarantees at least 16 bits. The values at indices 47 and 48, and the wrap boundary, depend on that width.
- The recursion depth and running time of the exponential recursive `Fibbonaci` are not modelled; only its result is.
- The other demos in the repository are not part of this model: the Allegro graphics and event loops, the Shape/Circle/Rectangle draw methods over `float` geometry, the `sizeof`, packing and vtable-size printouts, and the pointer-lifetime demos, which deliberately have undefined behaviour.
