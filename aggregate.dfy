/**
 * Sum, Min and Max over a first decimal and a variadic rest (decimal.go:804-856).
 * Each is a loop over the rest; a recursive fold over the same sequence
 * specifies it, and the lemmas say what the fold computes.
 */
module DecimalAggregates {
  import opened Bits
  import opened Decimals
  import opened DecimalOps

  /** One step of Min: an item no greater than the running minimum replaces it. */
  function MinStep(min: int64, item: int64): int64 {
    if GreaterThanOrEqual(min, item) then item else min
  }

  /** One step of Max: an item at least the running maximum replaces it. */
  function MaxStep(max: int64, item: int64): int64 {
    if GreaterThanOrEqual(item, max) then item else max
  }

  function MinFold(min: int64, rest: seq<int64>): int64
    decreases rest
  {
    if |rest| == 0 then min else MinFold(MinStep(min, rest[0]), rest[1..])
  }

  function MaxFold(max: int64, rest: seq<int64>): int64
    decreases rest
  {
    if |rest| == 0 then max else MaxFold(MaxStep(max, rest[0]), rest[1..])
  }

  /** Min(first, rest...) (decimal.go:835-845). */
  method Min(first: int64, rest: seq<int64>) returns (min: int64)
    ensures min == MinFold(first, rest)
  {
    min := first;
    for i := 0 to |rest|
      invariant MinFold(min, rest[i..]) == MinFold(first, rest)
    {
      FoldsUnfold(min, rest, i);
      if GreaterThanOrEqual(min, rest[i]) {
        min := rest[i];
      }
    }
  }

  /** Max(first, rest...) (decimal.go:848-856). */
  method Max(first: int64, rest: seq<int64>) returns (max: int64)
    ensures max == MaxFold(first, rest)
  {
    max := first;
    for i := 0 to |rest|
      invariant MaxFold(max, rest[i..]) == MaxFold(first, rest)
    {
      FoldsUnfold(max, rest, i);
      if GreaterThanOrEqual(rest[i], max) {
        max := rest[i];
      }
    }
  }

  lemma FoldsUnfold(d: int64, rest: seq<int64>, i: nat)
    requires i < |rest|
    ensures MinFold(d, rest[i..]) == MinFold(MinStep(d, rest[i]), rest[i + 1..])
    ensures MaxFold(d, rest[i..]) == MaxFold(MaxStep(d, rest[i]), rest[i + 1..])
  {
    assert rest[i..][1..] == rest[i + 1..];
  }

  /** Min and Max always return one of their arguments, whatever the words. */
  lemma {:induction false} FoldsPickAnArgument(first: int64, rest: seq<int64>)
    decreases rest
    ensures MinFold(first, rest) == first || MinFold(first, rest) in rest
    ensures MaxFold(first, rest) == first || MaxFold(first, rest) in rest
  {
    if |rest| > 0 {
      var lo, hi := MinStep(first, rest[0]), MaxStep(first, rest[0]);
      assert lo == first || lo == rest[0];
      assert hi == first || hi == rest[0];
      FoldsPickAnArgument(lo, rest[1..]);
      FoldsPickAnArgument(hi, rest[1..]);
      assert forall x :: x in rest[1..] ==> x in rest;
    }
  }

  /** The integers whose differences are small integers too. */
  predicate HalfInt(n: int) {
    -(MaxInt as int) / 2 <= n <= MaxInt as int / 2
  }

  /** The words NewFromInt gives for a sequence of integers. */
  function Words(xs: seq<int64>): (ws: seq<int64>)
    ensures |ws| == |xs| && forall i :: 0 <= i < |xs| ==> ws[i] == NewFromInt(xs[i])
  {
    if |xs| == 0 then [] else [NewFromInt(xs[0])] + Words(xs[1..])
  }

  /** On two integer words the steps pick the word of the smaller and of the larger integer. */
  lemma StepsOnIntegers(a: int64, x: int64)
    requires HalfInt(a) && HalfInt(x)
    ensures MinStep(NewFromInt(a), NewFromInt(x)) == NewFromInt(if a >= x then x else a)
    ensures MaxStep(NewFromInt(a), NewFromInt(x)) == NewFromInt(if x >= a then x else a)
  {
    ComparisonsOnIntegers(a, x);
    ComparisonsOnIntegers(x, a);
  }

  lemma FoldsOnWords(a: int64, xs: seq<int64>)
    requires |xs| > 0
    ensures MinFold(NewFromInt(a), Words(xs)) == MinFold(MinStep(NewFromInt(a), NewFromInt(xs[0])), Words(xs[1..]))
    ensures MaxFold(NewFromInt(a), Words(xs)) == MaxFold(MaxStep(NewFromInt(a), NewFromInt(xs[0])), Words(xs[1..]))
  {
    assert Words(xs)[1..] == Words(xs[1..]);
  }

  /** Every HalfInt of the sequence. */
  predicate AllHalfInt(xs: seq<int64>) {
    forall i :: 0 <= i < |xs| ==> HalfInt(xs[i])
  }

  /**
   * On integer words Min returns the word of an integer m that is one of
   * the arguments and at most each of them: the least.
   */
  lemma {:induction false} MinOfIntegers(a: int64, xs: seq<int64>) returns (m: int64)
    requires HalfInt(a) && AllHalfInt(xs)
    decreases xs
    ensures MinFold(NewFromInt(a), Words(xs)) == NewFromInt(m)
    ensures m <= a && (forall i :: 0 <= i < |xs| ==> m <= xs[i]) && (m == a || m in xs)
  {
    if |xs| == 0 {
      m := a;
      assert Words(xs) == [];
    } else {
      var lo: int64 := if a >= xs[0] then xs[0] else a;
      StepsOnIntegers(a, xs[0]);
      FoldsOnWords(a, xs);
      assert AllHalfInt(xs[1..]) by {
        forall i | 0 <= i < |xs[1..]| ensures HalfInt(xs[1..][i]) {
          assert xs[1..][i] == xs[i + 1];
        }
      }
      m := MinOfIntegers(lo, xs[1..]);
      forall i | 0 < i < |xs| ensures m <= xs[i] {
        assert xs[i] == xs[1..][i - 1];
      }
      assert m in xs[1..] ==> m in xs;
    }
  }

  /** On integer words Max returns the word of the greatest of the integers. */
  lemma {:induction false} MaxOfIntegers(a: int64, xs: seq<int64>) returns (m: int64)
    requires HalfInt(a) && AllHalfInt(xs)
    decreases xs
    ensures MaxFold(NewFromInt(a), Words(xs)) == NewFromInt(m)
    ensures m >= a && (forall i :: 0 <= i < |xs| ==> m >= xs[i]) && (m == a || m in xs)
  {
    if |xs| == 0 {
      m := a;
      assert Words(xs) == [];
    } else {
      var hi: int64 := if xs[0] >= a then xs[0] else a;
      StepsOnIntegers(a, xs[0]);
      FoldsOnWords(a, xs);
      assert AllHalfInt(xs[1..]) by {
        forall i | 0 <= i < |xs[1..]| ensures HalfInt(xs[1..][i]) {
          assert xs[1..][i] == xs[i + 1];
        }
      }
      m := MaxOfIntegers(hi, xs[1..]);
      forall i | 0 < i < |xs| ensures m >= xs[i] {
        assert xs[i] == xs[1..][i - 1];
      }
      assert m in xs[1..] ==> m in xs;
    }
  }

  /** The running sum and its compensation after some items. */
  datatype Running = Running(sum: int64, c: int64)

  /**
   * One step of the Kahan-Babuska-Neumaier summation: the new sum t, and
   * the low-order digits lost in t, taken from the smaller of sum and item,
   * added to the compensation.
   */
  function SumStep(s: Running, item: int64): Running {
    var t := Add(s.sum, item);
    if GreaterThanOrEqual(Abs(s.sum), Abs(item)) then Running(t, Add(s.c, Add(Sub(s.sum, t), item)))
    else Running(t, Add(s.c, Add(Sub(item, t), s.sum)))
  }

  function SumFold(s: Running, rest: seq<int64>): Running
    decreases rest
  {
    if |rest| == 0 then s else SumFold(SumStep(s, rest[0]), rest[1..])
  }

  /** Sum(first, rest...) (decimal.go:810-827): the running sum plus the compensation. */
  method Sum(first: int64, rest: seq<int64>) returns (total: int64)
    ensures var s := SumFold(Running(first, Zero), rest); total == Add(s.sum, s.c)
  {
    var sum := first;
    var c := Zero;
    for i := 0 to |rest|
      invariant SumFold(Running(sum, c), rest[i..]) == SumFold(Running(first, Zero), rest)
    {
      SumFoldUnfolds(Running(sum, c), rest, i);
      var item := rest[i];
      var t := Add(sum, item);
      ghost var step := SumStep(Running(sum, c), item);
      if GreaterThanOrEqual(Abs(sum), Abs(item)) {
        c := Add(c, Add(Sub(sum, t), item));
      } else {
        c := Add(c, Add(Sub(item, t), sum));
      }
      sum := t;
      assert step == Running(sum, c);
    }
    total := Add(sum, c);
  }

  lemma SumFoldUnfolds(s: Running, rest: seq<int64>, i: nat)
    requires i < |rest|
    ensures SumFold(s, rest[i..]) == SumFold(SumStep(s, rest[i]), rest[i + 1..])
  {
    assert rest[i..][1..] == rest[i + 1..];
  }

  /** The sum of a sequence of integers, and the sum of their magnitudes. */
  function Total(xs: seq<int64>): int {
    if |xs| == 0 then 0 else xs[0] + Total(xs[1..])
  }

  function AbsTotal(xs: seq<int64>): (n: nat)
    ensures AbsInt(Total(xs)) <= n
  {
    if |xs| == 0 then 0 else AbsInt(xs[0]) + AbsTotal(xs[1..])
  }

  /**
   * On integers whose magnitudes add up to at most MaxInt every partial sum
   * is exact, so no digit is lost and the compensation stays Zero.
   */
  lemma {:induction false} SumFoldIntegers(s: int64, xs: seq<int64>)
    requires AbsInt(s) + AbsTotal(xs) <= MaxInt as int
    decreases xs
    ensures SumFold(Running(NewFromInt(s), Zero), Words(xs)) == Running(NewFromInt(s as int + Total(xs)), Zero)
  {
    if |xs| > 0 {
      SumFoldHead(s, xs);
      SumFoldIntegers(s as int + xs[0], xs[1..]);
      assert s as int + xs[0] + Total(xs[1..]) == s as int + Total(xs);
    } else {
      assert Words(xs) == [];
    }
  }

  /** The first item on integers: the running sum takes it in exactly. */
  lemma SumFoldHead(s: int64, xs: seq<int64>)
    requires |xs| > 0 && AbsInt(s) + AbsTotal(xs) <= MaxInt as int
    ensures AbsInt(s as int + xs[0]) + AbsTotal(xs[1..]) <= MaxInt as int
    ensures SumFold(Running(NewFromInt(s), Zero), Words(xs)) ==
            SumFold(Running(NewFromInt(s as int + xs[0]), Zero), Words(xs[1..]))
  {
    assert SmallInt(s) && SmallInt(xs[0]) && SmallInt(s as int + xs[0]);
    SumStepIntegers(s, xs[0]);
    SumFoldWords(Running(NewFromInt(s), Zero), xs);
  }

  lemma SumFoldWords(r: Running, xs: seq<int64>)
    requires |xs| > 0
    ensures SumFold(r, Words(xs)) == SumFold(SumStep(r, NewFromInt(xs[0])), Words(xs[1..]))
  {
    assert Words(xs)[1..] == Words(xs[1..]);
  }

  /** One step on integers: the sum is exact and nothing is lost. */
  lemma SumStepIntegers(s: int64, x: int64)
    requires SmallInt(s) && SmallInt(x) && SmallInt(s as int + x)
    ensures SumStep(Running(NewFromInt(s), Zero), NewFromInt(x)) == Running(NewFromInt(s as int + x), Zero)
  {
    var t: int64 := s as int + x;
    AddIntegers(s, x);
    LostIntegers(s, t, x);
    LostIntegers(x, t, s);
    SmallIntWord(0);
    AddIntegers(0, 0);
  }

  /** What Sum adds to the compensation when a + b == t is exact: Zero. */
  lemma LostIntegers(a: int64, t: int64, b: int64)
    requires SmallInt(a) && SmallInt(b) && t as int == a as int + b && SmallInt(t)
    ensures Add(Sub(NewFromInt(a), NewFromInt(t)), NewFromInt(b)) == NewFromInt(0)
  {
    SubIntegers(a, t);
    AddIntegers(-(b as int), b);
  }

  /** Sum on integer words is the word of the integer sum. */
  lemma SumOfIntegers(a: int64, xs: seq<int64>)
    requires AbsInt(a) + AbsTotal(xs) <= MaxInt as int
    ensures var s := SumFold(Running(NewFromInt(a), Zero), Words(xs));
            Add(s.sum, s.c) == NewFromInt(a as int + Total(xs))
  {
    SumFoldIntegers(a, xs);
    TotalBound(xs);
    AddIntegers(a as int + Total(xs), 0);
    SmallIntWord(0);
  }

  lemma {:induction false} TotalBound(xs: seq<int64>)
    ensures AbsInt(Total(xs)) <= AbsTotal(xs)
  {
    if |xs| > 0 {
      TotalBound(xs[1..]);
    }
  }
}
