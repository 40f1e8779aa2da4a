/**
 * The built-in aggregate functions. Each is a step `fn(acc, x)` folded over the values of
 * the aggregated term, starting from an `undefined` accumulator.
 */
module Aggregates {
  import opened Literals
  import opened Terms

  // ---------------------------------------------------------------------------
  // Orders
  // ---------------------------------------------------------------------------

  /** Lexicographic order on strings, as JavaScript's `<` compares two strings. */
  predicate LexLess(a: string, b: string)
    decreases |a|
  {
    if |a| == 0 then |b| > 0
    else if |b| == 0 then false
    else if a[0] != b[0] then a[0] < b[0]
    else LexLess(a[1..], b[1..])
  }

  lemma {:induction false} LexLessIrreflexive(a: string)
    ensures !LexLess(a, a)
    decreases |a|
  {
    if |a| > 0 {
      LexLessIrreflexive(a[1..]);
    }
  }

  lemma {:induction false} LexLessTransitive(a: string, b: string, c: string)
    requires LexLess(a, b) && LexLess(b, c)
    ensures LexLess(a, c)
    decreases |a|
  {
    if |a| > 0 && a[0] == b[0] && b[0] == c[0] {
      LexLessTransitive(a[1..], b[1..], c[1..]);
    }
  }

  /** Two strings neither of which is before the other are equal. */
  lemma {:induction false} LexLessTotal(a: string, b: string)
    ensures LexLess(a, b) || LexLess(b, a) || a == b
    decreases |a|
  {
    if |a| > 0 && |b| > 0 && a[0] == b[0] {
      LexLessTotal(a[1..], b[1..]);
      if a[1..] == b[1..] {
        assert a == [a[0]] + a[1..] && b == [b[0]] + b[1..];
      }
    }
  }

  /**
   * JavaScript's `a <= b` on the values the folds see: numbers by value, strings
   * lexicographically. Any other pair is treated as incomparable (`false`).
   */
  predicate Lte(a: Literal, b: Literal) {
    if a.Num? && b.Num? then a.n <= b.n
    else if a.Str? && b.Str? then !LexLess(b.s, a.s)
    else false
  }

  /**
   * The order of `Array.prototype.sort` with no comparator: elements compare by their
   * string form, and `undefined` goes after everything else.
   */
  predicate SortsBefore(a: Literal, b: Literal) {
    if a.Undefined? then false
    else if b.Undefined? then true
    else LexLess(ElemString(a), ElemString(b))
  }

  lemma SortsBeforeIrreflexive(a: Literal)
    ensures !SortsBefore(a, a)
  {
    LexLessIrreflexive(ElemString(a));
  }

  lemma SortsBeforeTransitive(a: Literal, b: Literal, c: Literal)
    requires SortsBefore(a, b) && SortsBefore(b, c)
    ensures SortsBefore(a, c)
  {
    if !c.Undefined? {
      LexLessTransitive(ElemString(a), ElemString(b), ElemString(c));
    }
  }

  // ---------------------------------------------------------------------------
  // `list`: sorted insertion without duplicates
  // ---------------------------------------------------------------------------

  /** No element sorts before an earlier one. */
  predicate Sorted(xs: seq<Literal>) {
    forall i, j | 0 <= i < j < |xs| :: !SortsBefore(xs[j], xs[i])
  }

  predicate NoDuplicates(xs: seq<Literal>) {
    forall i, j | 0 <= i < j < |xs| :: xs[i] != xs[j]
  }

  /**
   * Appending `x` to a sorted list and sorting again: the stable sort leaves `x` after every
   * element it does not sort before.
   */
  function Insert(xs: seq<Literal>, x: Literal): (r: seq<Literal>)
    ensures multiset(r) == multiset(xs) + multiset{x}
    decreases |xs|
  {
    if |xs| == 0 then [x]
    else if SortsBefore(x, xs[0]) then [x] + xs
    else
      assert xs == [xs[0]] + xs[1..];
      [xs[0]] + Insert(xs[1..], x)
  }

  lemma {:induction false} InsertSorted(xs: seq<Literal>, x: Literal)
    requires Sorted(xs)
    ensures Sorted(Insert(xs, x))
    decreases |xs|
  {
    if |xs| == 0 {
    } else if SortsBefore(x, xs[0]) {
      forall y | y in xs ensures !SortsBefore(y, x) {
        var k :| 0 <= k < |xs| && xs[k] == y;
        if SortsBefore(y, x) {
          if k == 0 {
            SortsBeforeTransitive(x, xs[0], x);
            SortsBeforeIrreflexive(x);
          } else {
            SortsBeforeTransitive(y, x, xs[0]);
          }
        }
      }
      PrependSorted(x, xs);
    } else {
      InsertSorted(xs[1..], x);
      var rest := Insert(xs[1..], x);
      forall y | y in rest ensures !SortsBefore(y, xs[0]) {
        assert y in multiset(rest);
        assert y == x || y in multiset(xs[1..]);
        if y != x {
          var k :| 0 <= k < |xs[1..]| && xs[1..][k] == y;
          assert xs[k + 1] == y;
        }
      }
      PrependSorted(xs[0], rest);
    }
  }

  /** A sorted list stays sorted behind a head that nothing in it sorts before. */
  lemma PrependSorted(h: Literal, rest: seq<Literal>)
    requires Sorted(rest) && forall y | y in rest :: !SortsBefore(y, h)
    ensures Sorted([h] + rest)
  {
    var r := [h] + rest;
    forall i, j | 0 <= i < j < |r| ensures !SortsBefore(r[j], r[i]) {
      assert r[j] == rest[j - 1];
      if i > 0 {
        assert r[i] == rest[i - 1];
      }
    }
  }

  /** Whether `x` is absent from the list, under strict equality (taken structurally here). */
  function StepList(list: Literal, x: Literal): (r: Literal)
    ensures r.List?
  {
    var items := if list.List? then list.items else [];
    if x in items then List(items) else List(Insert(items, x))
  }

  // ---------------------------------------------------------------------------
  // The steps
  // ---------------------------------------------------------------------------

  /** One step of aggregate `k`: `fn(acc, x)`, with `undefined` standing for "no value yet". */
  function Step(k: AggKind, acc: Literal, x: Literal): Literal {
    match k
    case Count =>
      Num((if acc.Num? then acc.n else 0) + 1)
    case ListOf =>
      StepList(acc, x)
    case Sum =>
      var a := if acc.Undefined? then Num(0) else acc;
      if a.Num? && x.Num? then Num(a.n + x.n) else Undefined
    case Prod =>
      var a := if acc.Undefined? then Num(1) else acc;
      if a.Num? && x.Num? then Num(a.n * x.n) else Undefined
    case Min =>
      var a := if acc.Undefined? then x else acc;
      if Lte(a, x) then a else x
    case Max =>
      var a := if acc.Undefined? then x else acc;
      if Lte(x, a) then a else x
  }

  /** Folding aggregate `k` over values `xs` from accumulator `acc`, left to right. */
  function Fold(k: AggKind, acc: Literal, xs: seq<Literal>): Literal
    decreases |xs|
  {
    if |xs| == 0 then acc else Fold(k, Step(k, acc, xs[0]), xs[1..])
  }

  /** The aggregate of all `xs`, starting from `undefined` as the engine does. */
  function Aggregate(k: AggKind, xs: seq<Literal>): Literal {
    Fold(k, Undefined, xs)
  }

  // ---------------------------------------------------------------------------
  // count
  // ---------------------------------------------------------------------------

  lemma {:induction false} FoldCount(c: nat, xs: seq<Literal>)
    ensures Fold(Count, Num(c), xs) == Num(c + |xs|)
    decreases |xs|
  {
    if |xs| > 0 {
      FoldCount(c + 1, xs[1..]);
    }
  }

  /** `count` is the number of values folded (and stays `undefined` when there are none). */
  lemma CountCounts(xs: seq<Literal>)
    ensures Aggregate(Count, xs) == if |xs| == 0 then Undefined else Num(|xs|)
  {
    if |xs| > 0 {
      FoldCount(1, xs[1..]);
    }
  }

  // ---------------------------------------------------------------------------
  // sum and prod
  // ---------------------------------------------------------------------------

  predicate AllNumbers(xs: seq<Literal>) {
    forall i | 0 <= i < |xs| :: xs[i].Num?
  }

  /** The sum of the numbers in `xs`, added from the right. */
  function Total(xs: seq<Literal>): int
    requires AllNumbers(xs)
    decreases |xs|
  {
    if |xs| == 0 then 0 else xs[0].n + Total(xs[1..])
  }

  /** The product of the numbers in `xs`, multiplied from the right. */
  function Product(xs: seq<Literal>): int
    requires AllNumbers(xs)
    decreases |xs|
  {
    if |xs| == 0 then 1 else xs[0].n * Product(xs[1..])
  }

  lemma {:induction false} FoldSum(a: int, xs: seq<Literal>)
    requires AllNumbers(xs)
    ensures Fold(Sum, Num(a), xs) == Num(a + Total(xs))
    decreases |xs|
  {
    if |xs| > 0 {
      FoldSum(a + xs[0].n, xs[1..]);
    }
  }

  lemma {:induction false} FoldProd(a: int, xs: seq<Literal>)
    requires AllNumbers(xs)
    ensures Fold(Prod, Num(a), xs) == Num(a * Product(xs))
    decreases |xs|
  {
    if |xs| > 0 {
      FoldProd(a * xs[0].n, xs[1..]);
      assert a * xs[0].n * Product(xs[1..]) == a * (xs[0].n * Product(xs[1..]));
    }
  }

  /** `sum` of numbers starts from 0 and adds every value. */
  lemma SumAdds(xs: seq<Literal>)
    requires AllNumbers(xs) && |xs| > 0
    ensures Aggregate(Sum, xs) == Num(Total(xs))
  {
    FoldSum(xs[0].n, xs[1..]);
  }

  /** `prod` of numbers starts from 1 and multiplies every value. */
  lemma ProdMultiplies(xs: seq<Literal>)
    requires AllNumbers(xs) && |xs| > 0
    ensures Aggregate(Prod, xs) == Num(Product(xs))
  {
    FoldProd(xs[0].n, xs[1..]);
  }

  // ---------------------------------------------------------------------------
  // min and max
  // ---------------------------------------------------------------------------

  lemma {:induction false} FoldMin(m: int, xs: seq<Literal>)
    requires AllNumbers(xs)
    ensures var r := Fold(Min, Num(m), xs);
      r.Num? && r.n <= m && (r.n == m || exists i | 0 <= i < |xs| :: xs[i].n == r.n) &&
      forall i | 0 <= i < |xs| :: r.n <= xs[i].n
    decreases |xs|
  {
    if |xs| > 0 {
      var m' := if m <= xs[0].n then m else xs[0].n;
      FoldMin(m', xs[1..]);
      var r := Fold(Min, Num(m'), xs[1..]);
      if r.n != m' {
        var i :| 0 <= i < |xs[1..]| && xs[1..][i].n == r.n;
        assert xs[i + 1].n == r.n;
      } else if m' != m {
        assert xs[0].n == r.n;
      }
      forall i | 1 <= i < |xs| ensures r.n <= xs[i].n {
        assert xs[i] == xs[1..][i - 1];
      }
    }
  }

  lemma {:induction false} FoldMax(m: int, xs: seq<Literal>)
    requires AllNumbers(xs)
    ensures var r := Fold(Max, Num(m), xs);
      r.Num? && r.n >= m && (r.n == m || exists i | 0 <= i < |xs| :: xs[i].n == r.n) &&
      forall i | 0 <= i < |xs| :: r.n >= xs[i].n
    decreases |xs|
  {
    if |xs| > 0 {
      var m' := if xs[0].n <= m then m else xs[0].n;
      FoldMax(m', xs[1..]);
      var r := Fold(Max, Num(m'), xs[1..]);
      if r.n != m' {
        var i :| 0 <= i < |xs[1..]| && xs[1..][i].n == r.n;
        assert xs[i + 1].n == r.n;
      } else if m' != m {
        assert xs[0].n == r.n;
      }
      forall i | 1 <= i < |xs| ensures r.n >= xs[i].n {
        assert xs[i] == xs[1..][i - 1];
      }
    }
  }

  /** `min` of numbers is one of them, and no larger than any of them. */
  lemma MinIsLeast(xs: seq<Literal>)
    requires AllNumbers(xs) && |xs| > 0
    ensures Aggregate(Min, xs).Num?
    ensures exists i | 0 <= i < |xs| :: xs[i] == Aggregate(Min, xs)
    ensures forall i | 0 <= i < |xs| :: Aggregate(Min, xs).n <= xs[i].n
  {
    FoldMin(xs[0].n, xs[1..]);
    var r := Aggregate(Min, xs);
    if r.n == xs[0].n {
      assert xs[0] == r;
    } else {
      var i :| 0 <= i < |xs[1..]| && xs[1..][i].n == r.n;
      assert xs[i + 1] == r;
    }
  }

  /** `max` of numbers is one of them, and no smaller than any of them. */
  lemma MaxIsGreatest(xs: seq<Literal>)
    requires AllNumbers(xs) && |xs| > 0
    ensures Aggregate(Max, xs).Num?
    ensures exists i | 0 <= i < |xs| :: xs[i] == Aggregate(Max, xs)
    ensures forall i | 0 <= i < |xs| :: Aggregate(Max, xs).n >= xs[i].n
  {
    FoldMax(xs[0].n, xs[1..]);
    var r := Aggregate(Max, xs);
    if r.n == xs[0].n {
      assert xs[0] == r;
    } else {
      var i :| 0 <= i < |xs[1..]| && xs[1..][i].n == r.n;
      assert xs[i + 1] == r;
    }
  }

  // ---------------------------------------------------------------------------
  // list
  // ---------------------------------------------------------------------------

  /** What `list` keeps: a sorted list without duplicates. */
  predicate ListShape(l: Literal) {
    l.List? && Sorted(l.items) && NoDuplicates(l.items)
  }

  /** Without duplicates, every element occurs once. */
  lemma {:induction false} NoDuplicatesCount(xs: seq<Literal>)
    requires NoDuplicates(xs)
    ensures forall y :: multiset(xs)[y] <= 1
    decreases |xs|
  {
    if |xs| > 0 {
      var init := xs[..|xs| - 1];
      assert xs == init + [xs[|xs| - 1]];
      NoDuplicatesCount(init);
      assert xs[|xs| - 1] !in init;
    }
  }

  /** Equal elements at two indices make that element occur twice. */
  lemma TwoIndices(xs: seq<Literal>, i: nat, j: nat)
    requires i < j < |xs|
    ensures xs[i] == xs[j] ==> multiset(xs)[xs[i]] >= 2
  {
    assert xs == xs[..j] + xs[j..];
    assert xs[i] in multiset(xs[..j]) && xs[j] in multiset(xs[j..]);
  }

  lemma CountNoDuplicates(xs: seq<Literal>)
    requires forall y :: multiset(xs)[y] <= 1
    ensures NoDuplicates(xs)
  {
    forall i, j | 0 <= i < j < |xs| ensures xs[i] != xs[j] {
      TwoIndices(xs, i, j);
    }
  }

  lemma InsertNoDuplicates(xs: seq<Literal>, x: Literal)
    requires NoDuplicates(xs) && x !in xs
    ensures NoDuplicates(Insert(xs, x))
  {
    NoDuplicatesCount(xs);
    CountNoDuplicates(Insert(xs, x));
  }

  lemma StepListShape(acc: Literal, x: Literal)
    requires acc.Undefined? || ListShape(acc)
    ensures ListShape(StepList(acc, x))
    ensures acc.List? && x in acc.items ==> StepList(acc, x) == acc
    ensures acc.List? && x !in acc.items ==>
              multiset(StepList(acc, x).items) == multiset(acc.items) + multiset{x}
  {
    var items := if acc.List? then acc.items else [];
    if x !in items {
      InsertSorted(items, x);
      InsertNoDuplicates(items, x);
    }
  }

  lemma {:induction false} FoldList(acc: Literal, xs: seq<Literal>)
    requires acc.Undefined? || ListShape(acc)
    ensures acc.List? || |xs| > 0 ==> ListShape(Fold(ListOf, acc, xs))
    ensures acc.List? || |xs| > 0 ==> forall y :: y in Fold(ListOf, acc, xs).items <==>
      (acc.List? && y in acc.items) || y in xs
    decreases |xs|
  {
    if |xs| > 0 {
      StepListShape(acc, xs[0]);
      var next := StepList(acc, xs[0]);
      assert forall y :: y in next.items <==> (acc.List? && y in acc.items) || y == xs[0] by {
        forall y ensures y in next.items <==> (acc.List? && y in acc.items) || y == xs[0] {
          assert y in next.items <==> y in multiset(next.items);
        }
      }
      FoldList(next, xs[1..]);
      assert xs == [xs[0]] + xs[1..];
    }
  }

  /** `list` of one or more values is sorted, has no duplicates and holds exactly the values seen. */
  lemma ListCollects(xs: seq<Literal>)
    requires |xs| > 0
    ensures ListShape(Aggregate(ListOf, xs))
    ensures forall y :: y in Aggregate(ListOf, xs).items <==> y in xs
  {
    FoldList(Undefined, xs);
  }
}
