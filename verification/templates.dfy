/**
 Model of the `Min` and `Max` function templates (Templates01/main.cpp).

 A template is instantiated at any type that has `operator<` (for `Min`) and
 `operator>` (for `Max`). Here the type is a parameter `T` and the comparison
 is a strict "less than" relation passed in; `a > b` is `less(b, a)`. The
 properties that need the comparison to be a strict total order say so in
 their `requires`.
 */
module Templates {

  /** `less` never relates a value to itself. */
  ghost predicate Irreflexive<T(!new)>(less: (T, T) -> bool) {
    forall x :: !less(x, x)
  }

  /** `less` is transitive. */
  ghost predicate Transitive<T(!new)>(less: (T, T) -> bool) {
    forall x, y, z :: less(x, y) && less(y, z) ==> less(x, z)
  }

  /** Any two distinct values are ordered one way or the other. */
  ghost predicate Connected<T(!new)>(less: (T, T) -> bool) {
    forall x, y :: x != y ==> less(x, y) || less(y, x)
  }

  /** The `<` of a strict total order, such as `<` on `int` or on `char`. */
  ghost predicate StrictTotalOrder<T(!new)>(less: (T, T) -> bool) {
    Irreflexive(less) && Transitive(less) && Connected(less)
  }

  /** The `<=` belonging to a strict order `less`. */
  ghost predicate AtMost<T>(less: (T, T) -> bool, x: T, y: T) {
    less(x, y) || x == y
  }

  /** `Min(valueA, valueB)`: `valueA < valueB ? valueA : valueB`. The result is
      one of the arguments; it is the second one whenever `valueA < valueB`
      is false, which includes equal and equivalent arguments. */
  function Min<T>(less: (T, T) -> bool, a: T, b: T): (r: T)
    ensures r == a || r == b
    // Ties (neither argument less than the other) go to the second argument.
    ensures less(a, b) ==> r == a
    ensures !less(a, b) ==> r == b
  {
    if less(a, b) then a else b
  }

  /** `Max(valueA, valueB)`: `valueA > valueB ? valueA : valueB`, where
      `valueA > valueB` is `less(valueB, valueA)`. The result is one of the
      arguments; it is the second one whenever `valueA > valueB` is false. */
  function Max<T>(less: (T, T) -> bool, a: T, b: T): (r: T)
    ensures r == a || r == b
    // Ties (neither argument greater than the other) go to the second argument.
    ensures less(b, a) ==> r == a
    ensures !less(b, a) ==> r == b
  {
    if less(b, a) then a else b
  }

  /** The smallest of `a` and `b`: one of them, and at most both. */
  ghost predicate IsLeastOf<T>(less: (T, T) -> bool, m: T, a: T, b: T) {
    (m == a || m == b) && AtMost(less, m, a) && AtMost(less, m, b)
  }

  /** The largest of `a` and `b`: one of them, and at least both. */
  ghost predicate IsGreatestOf<T>(less: (T, T) -> bool, m: T, a: T, b: T) {
    (m == a || m == b) && AtMost(less, a, m) && AtMost(less, b, m)
  }

  /** Under a strict total order, `Min` returns the least of its arguments,
      and that least element is unique. */
  lemma MinIsLeast<T(!new)>(less: (T, T) -> bool, a: T, b: T)
    requires StrictTotalOrder(less)
    ensures IsLeastOf(less, Min(less, a, b), a, b)
    ensures forall m :: IsLeastOf(less, m, a, b) ==> m == Min(less, a, b)
  {
    forall m | IsLeastOf(less, m, a, b)
      ensures m == Min(less, a, b)
    {
    }
  }

  /** Under a strict total order, `Max` returns the greatest of its
      arguments, and that greatest element is unique. */
  lemma MaxIsGreatest<T(!new)>(less: (T, T) -> bool, a: T, b: T)
    requires StrictTotalOrder(less)
    ensures IsGreatestOf(less, Max(less, a, b), a, b)
    ensures forall m :: IsGreatestOf(less, m, a, b) ==> m == Max(less, a, b)
  {
    forall m | IsGreatestOf(less, m, a, b)
      ensures m == Max(less, a, b)
    {
    }
  }

  /** The order bounds need only that `less` is irreflexive and transitive:
      `Min` is not above either argument and `Max` is not below either. */
  lemma Bounds<T(!new)>(less: (T, T) -> bool, a: T, b: T)
    requires Irreflexive(less) && Transitive(less)
    ensures !less(a, Min(less, a, b)) && !less(b, Min(less, a, b))
    ensures !less(Max(less, a, b), a) && !less(Max(less, a, b), b)
  {
  }

  /** Under a strict total order the argument order does not matter. */
  lemma Commutative<T(!new)>(less: (T, T) -> bool, a: T, b: T)
    requires StrictTotalOrder(less)
    ensures Min(less, a, b) == Min(less, b, a)
    ensures Max(less, a, b) == Max(less, b, a)
  {
    MinIsLeast(less, a, b);
    MinIsLeast(less, b, a);
    MaxIsGreatest(less, a, b);
    MaxIsGreatest(less, b, a);
  }

  /** Under a strict total order, `Min` and `Max` together return both
      arguments: the pair (Min, Max) is a permutation of (a, b). */
  lemma MinMaxPermutation<T(!new)>(less: (T, T) -> bool, a: T, b: T)
    requires StrictTotalOrder(less)
    ensures multiset{Min(less, a, b), Max(less, a, b)} == multiset{a, b}
  {
  }

  /** `<` on `int`, the comparison of the `Min(10, 8)` instantiation. */
  predicate IntLess(x: int, y: int) {
    x < y
  }

  /** `<` on `char`, which compares code points, as in `Min('A', 'a')`. */
  predicate CharLess(x: char, y: char) {
    x < y
  }

  lemma IntLessIsStrictTotalOrder()
    ensures StrictTotalOrder(IntLess)
  {
  }

  lemma CharLessIsStrictTotalOrder()
    ensures StrictTotalOrder(CharLess)
  {
  }

  /** At `int`, `Min` and `Max` agree with the mathematical minimum and
      maximum. */
  lemma IntMinMax(a: int, b: int)
    ensures Min(IntLess, a, b) == (if a <= b then a else b)
    ensures Max(IntLess, a, b) == (if a >= b then a else b)
  {
  }

  /** A comparison by key only: pairs with the same first component are
      equivalent without being equal. */
  predicate KeyLess(x: (int, char), y: (int, char)) {
    x.0 < y.0
  }

  /** Tie-breaking: whenever the arguments are equivalent (neither is less
      than the other) but distinct, both templates return the second
      argument, so (Min, Max) is then not a permutation of (a, b): the first
      argument is lost. */
  lemma TiesReturnSecond<T>(less: (T, T) -> bool, a: T, b: T)
    requires !less(a, b) && !less(b, a) && a != b
    ensures Min(less, a, b) == b && Max(less, a, b) == b
    ensures multiset{Min(less, a, b), Max(less, a, b)} != multiset{a, b}
  {
    assert a !in multiset{Min(less, a, b), Max(less, a, b)};
  }

  /** An instance of the tie rule: (1, 'x') and (1, 'y') have the same key. */
  lemma KeyTieExample()
    ensures Min(KeyLess, (1, 'x'), (1, 'y')) == (1, 'y')
    ensures Max(KeyLess, (1, 'x'), (1, 'y')) == (1, 'y')
    ensures multiset{Min(KeyLess, (1, 'x'), (1, 'y')), Max(KeyLess, (1, 'x'), (1, 'y'))}
         != multiset{(1, 'x'), (1, 'y')}
  {
    TiesReturnSecond(KeyLess, (1, 'x'), (1, 'y'));
  }

  /** The total-order properties at the two instantiations `main` uses with
      exact comparisons, `int` and `char`: `Min` is the least argument and
      `Max` the greatest, whichever order the arguments come in. */
  lemma MainInstantiations(a: int, b: int, c: char, d: char)
    ensures IsLeastOf(IntLess, Min(IntLess, a, b), a, b)
    ensures IsGreatestOf(IntLess, Max(IntLess, a, b), a, b)
    ensures Min(IntLess, a, b) == Min(IntLess, b, a)
    ensures IsLeastOf(CharLess, Min(CharLess, c, d), c, d)
    ensures IsGreatestOf(CharLess, Max(CharLess, c, d), c, d)
    ensures Min(CharLess, c, d) == Min(CharLess, d, c)
  {
    IntLessIsStrictTotalOrder();
    MinIsLeast(IntLess, a, b);
    MaxIsGreatest(IntLess, a, b);
    Commutative(IntLess, a, b);
    CharLessIsStrictTotalOrder();
    MinIsLeast(CharLess, c, d);
    MaxIsGreatest(CharLess, c, d);
    Commutative(CharLess, c, d);
  }

  /** The integer and character calls in `main`: `Min(10, 8)` and
      `Min('A', 'a')`, 'A' being code point 65 and 'a' code point 97. */
  method ExampleCalls() returns (minInt: int, minChar: char)
    ensures minInt == 8
    ensures minChar == 'A'
  {
    minInt := Min(IntLess, 10, 8);
    minChar := Min(CharLess, 'A', 'a');
  }
}
