/** How a random red packet is split (src/services/redPacketService.js):
    the "double average" draw with a floor of 1 point per share, then a
    Fisher-Yates shuffle of the shares. Every `Math.random()` value is
    given as an integer draw `u` standing for `u / RANDOM_SCALE`. */
module RedPacketAmounts {

  /** `Math.random()` yields multiples of 2^-53 in [0, 1). */
  const RANDOM_SCALE: nat := 0x20_0000_0000_0000

  predicate IsDraw(u: int) {
    0 <= u < RANDOM_SCALE
  }

  predicate AllDraws(draws: seq<int>) {
    forall k :: 0 <= k < |draws| ==> IsDraw(draws[k])
  }

  /** `Math.floor(Math.random() * m)` for the draw `u`: a value in [0, m). */
  function ScaledDraw(u: int, m: nat): (r: nat)
    requires IsDraw(u)
    ensures m == 0 ==> r == 0
    ensures m > 0 ==> r < m
  {
    ScaledDrawBound(u, m);
    Product(u, m) / RANDOM_SCALE
  }

  /** `a * b`, written out so that the solver unfolds it only on demand. */
  function Product(a: nat, b: nat): nat
    decreases b
  {
    if b == 0 then 0 else Product(a, b - 1) + a
  }

  lemma {:induction false} ProductIsMultiplication(a: nat, b: nat)
    ensures Product(a, b) == a * b
    decreases b
  {
    if b > 0 {
      ProductIsMultiplication(a, b - 1);
    }
  }

  lemma ScaledDrawBound(u: int, m: nat)
    requires IsDraw(u)
    ensures m == 0 ==> Product(u, m) / RANDOM_SCALE == 0
    ensures m > 0 ==> Product(u, m) / RANDOM_SCALE < m
  {
    ProductIsMultiplication(u, m);
    var q := (u * m) / RANDOM_SCALE;
    assert q * RANDOM_SCALE <= u * m;
  }

  function Sum(s: seq<int>): int {
    if s == [] then 0 else s[0] + Sum(s[1..])
  }

  lemma {:induction false} SumAppend(s: seq<int>, t: seq<int>)
    ensures Sum(s + t) == Sum(s) + Sum(t)
  {
    if s == [] {
      assert s + t == t;
    } else {
      assert (s + t)[1..] == s[1..] + t;
      SumAppend(s[1..], t);
    }
  }

  /** Taking out the element at `k` takes its value out of the sum and
      one copy of it out of the multiset. */
  lemma RemoveAt(t: seq<int>, k: nat)
    requires k < |t|
    ensures var rest := t[..k] + t[k + 1..];
            && multiset(rest) == multiset(t) - multiset{t[k]}
            && Sum(t) == t[k] + Sum(rest)
  {
    var rest := t[..k] + t[k + 1..];
    assert t == t[..k] + [t[k]] + t[k + 1..];
    assert multiset(t) == multiset(t[..k]) + multiset{t[k]} + multiset(t[k + 1..]);
    SumAppend(t[..k] + [t[k]], t[k + 1..]);
    SumAppend(t[..k], [t[k]]);
    SumAppend(t[..k], t[k + 1..]);
    assert Sum([t[k]]) == t[k];
  }

  /** The sum depends only on which values occur, not on their order. */
  lemma {:induction false} SumOfPermutation(s: seq<int>, t: seq<int>)
    requires multiset(s) == multiset(t)
    ensures Sum(s) == Sum(t)
    decreases |s|
  {
    if s != [] {
      assert s[0] in multiset(t);
      var k :| 0 <= k < |t| && t[k] == s[0];
      RemoveAt(t, k);
      assert s == [s[0]] + s[1..];
      assert multiset(s[1..]) == multiset(s) - multiset{s[0]};
      SumOfPermutation(s[1..], t[..k] + t[k + 1..]);
    }
  }

  /** `Math.floor(a / b)` for a >= 0, b > 0, written out as repeated
      subtraction so that the solver unfolds it only on demand. */
  function Quotient(a: nat, b: nat): nat
    requires b > 0
    decreases a
  {
    if a < b then 0 else 1 + Quotient(a - b, b)
  }

  /** The quotient times the divisor does not exceed the dividend. */
  lemma {:induction false} QuotientBelow(a: nat, b: nat)
    requires b > 0
    ensures Quotient(a, b) * b <= a
    decreases a
  {
    if a >= b {
      QuotientBelow(a - b, b);
      assert Quotient(a, b) * b == b + Quotient(a - b, b) * b;
    }
  }

  /** The cap of the next share: `floor(remaining / count * 2)`. */
  function Cap(remaining: nat, count: nat): nat
    requires count > 0
  {
    Quotient(2 * remaining, count)
  }

  /** With at least two shares left and at least one point per share left,
      the cap `floor(remaining / count * 2)` is at least 2, and taking up to
      cap - 1 still leaves one point for each later share. */
  lemma {:induction false} DoubleAverageCap(remaining: int, count: int)
    requires count >= 2 && remaining >= count
    ensures Cap(remaining, count) >= 2
    ensures Cap(remaining, count) - 1 <= remaining - (count - 1)
  {
    assert Quotient(2 * remaining - 2 * count, count) >= 0;
    assert Quotient(2 * remaining - count, count) >= 1;
    var q := Cap(remaining, count);
    QuotientBelow(2 * remaining, count);
    var e := remaining - count;
    if q >= e + 3 {
      MulAtMost(e + 3, q, count);
      MulAtMost(2, count, e);
      assert false;
    }
  }

  lemma MulAtMost(a: int, b: int, c: int)
    requires a <= b && c >= 0
    ensures a * c <= b * c
  {
  }

  /** The shares the double-average loop produces, in draw order. */
  function DoubleAverage(remaining: int, count: int, draws: seq<int>): (r: seq<int>)
    requires remaining >= count && AllDraws(draws) && |draws| >= count - 1
    ensures |r| == if count >= 1 then count else 1
    decreases count
  {
    if count <= 1 then [remaining]
    else
      DoubleAverageCap(remaining, count);
      var share := ScaledDraw(draws[0], Cap(remaining, count) - 1) + 1;
      [share] + DoubleAverage(remaining - share, count - 1, draws[1..])
  }

  /** The shares add up to the amount split, and each is at least 1 point. */
  lemma {:induction false} DoubleAverageSplits(remaining: int, count: int, draws: seq<int>)
    requires remaining >= count && AllDraws(draws) && |draws| >= count - 1
    ensures Sum(DoubleAverage(remaining, count, draws)) == remaining
    ensures count >= 1 ==> forall k :: 0 <= k < count ==> DoubleAverage(remaining, count, draws)[k] >= 1
    decreases count
  {
    if count > 1 {
      DoubleAverageStep(remaining, count, draws);
      var share := ScaledDraw(draws[0], Cap(remaining, count) - 1) + 1;
      var rest := DoubleAverage(remaining - share, count - 1, draws[1..]);
      DoubleAverageSplits(remaining - share, count - 1, draws[1..]);
      assert ([share] + rest)[1..] == rest;
      forall k | 0 <= k < count ensures ([share] + rest)[k] >= 1 {
        if k > 0 {
          assert ([share] + rest)[k] == rest[k - 1];
        }
      }
    }
  }

  lemma DoubleAverageStep(remaining: int, count: int, draws: seq<int>)
    requires count >= 2 && remaining >= count && AllDraws(draws) && |draws| >= count - 1
    ensures Cap(remaining, count) >= 2
    ensures var share := ScaledDraw(draws[0], Cap(remaining, count) - 1) + 1;
            && remaining - share >= count - 1
            && DoubleAverage(remaining, count, draws) == [share] + DoubleAverage(remaining - share, count - 1, draws[1..])
  {
    DoubleAverageCap(remaining, count);
  }

  lemma DoubleAverageLast(remaining: int, count: int, draws: seq<int>)
    requires count <= 1 && remaining >= count && AllDraws(draws)
    ensures DoubleAverage(remaining, count, draws) == [remaining]
  {
  }

  function Swap(s: seq<int>, i: nat, j: nat): (r: seq<int>)
    requires i < |s| && j < |s|
    ensures |r| == |s|
  {
    s[i := s[j]][j := s[i]]
  }

  lemma SwapPermutes(s: seq<int>, i: nat, j: nat)
    requires i < |s| && j < |s|
    ensures multiset(Swap(s, i, j)) == multiset(s)
  {
  }

  /** The Fisher-Yates pass from position `i` down to 1; position `i` takes
      the draw numbered `|s| - 1 - i`. */
  function FisherYates(s: seq<int>, draws: seq<int>, i: int): (r: seq<int>)
    requires i < |s| && AllDraws(draws) && |draws| >= |s| - 1
    ensures |r| == |s|
    decreases i
  {
    if i <= 0 then s
    else FisherYates(Swap(s, i, ScaledDraw(draws[|s| - 1 - i], i + 1)), draws, i - 1)
  }

  /** The shuffle only reorders. */
  lemma {:induction false} FisherYatesPermutes(s: seq<int>, draws: seq<int>, i: int)
    requires i < |s| && AllDraws(draws) && |draws| >= |s| - 1
    ensures multiset(FisherYates(s, draws, i)) == multiset(s)
    decreases i
  {
    if i > 0 {
      var j := ScaledDraw(draws[|s| - 1 - i], i + 1);
      SwapPermutes(s, i, j);
      FisherYatesPermutes(Swap(s, i, j), draws, i - 1);
    }
  }

  /** One step of the pass: swapping position `i` with its drawn partner
      leaves the rest of the pass to do. */
  lemma FisherYatesStep(s: seq<int>, after: seq<int>, draws: seq<int>, i: int, j: nat)
    requires 0 < i < |s| && AllDraws(draws) && |draws| >= |s| - 1
    requires j == ScaledDraw(draws[|s| - 1 - i], i + 1) && after == Swap(s, i, j)
    ensures FisherYates(after, draws, i - 1) == FisherYates(s, draws, i)
  {
  }

  lemma FisherYatesDone(s: seq<int>, draws: seq<int>, i: int)
    requires i <= 0 && i < |s| && AllDraws(draws) && |draws| >= |s| - 1
    ensures FisherYates(s, draws, i) == s
  {
  }

  /** One pass of the `for` loop of `shuffleArray`: draw `j` in [0, i] and
      swap `a[i]` with `a[j]`. */
  method ShuffleStep(a: array<int>, draws: seq<int>, i: int, ghost target: seq<int>)
    requires 0 < i < a.Length && AllDraws(draws) && |draws| >= a.Length - 1
    requires FisherYates(a[..], draws, i) == target
    modifies a
    ensures FisherYates(a[..], draws, i - 1) == target
  {
    var j := ScaledDraw(draws[a.Length - 1 - i], i + 1);
    ghost var before := a[..];
    a[i], a[j] := a[j], a[i];
    FisherYatesStep(before, a[..], draws, i, j);
  }

  /** The `for` loop of `shuffleArray`, in place on `a`. */
  method ShuffleInPlace(a: array<int>, draws: seq<int>)
    requires AllDraws(draws) && |draws| >= a.Length - 1
    modifies a
    ensures a[..] == FisherYates(old(a[..]), draws, a.Length - 1)
  {
    ghost var target := FisherYates(a[..], draws, a.Length - 1);
    var i := a.Length - 1;
    while i > 0
      invariant -1 <= i < a.Length
      invariant FisherYates(a[..], draws, i) == target
    {
      ShuffleStep(a, draws, i, target);
      i := i - 1;
    }
    FisherYatesDone(a[..], draws, i);
  }

  /** `shuffleArray(array)`: shuffles a copy; the input is left as it is. */
  method ShuffleArray(input: seq<int>, draws: seq<int>) returns (shuffled: seq<int>)
    requires AllDraws(draws) && |draws| >= |input| - 1
    ensures shuffled == FisherYates(input, draws, |input| - 1)
    ensures |shuffled| == |input| && multiset(shuffled) == multiset(input)
  {
    var a := new int[|input|](k requires 0 <= k < |input| => input[k]);
    assert a[..] == input;
    ShuffleInPlace(a, draws);
    shuffled := a[..];
    FisherYatesPermutes(input, draws, |input| - 1);
  }

  /** The `for` loop of `generateRandomAmounts`: each share is drawn from
      [1, cap - 1], and the last share takes what is left. */
  method SplitDoubleAverage(total: int, count: int, draws: seq<int>) returns (shares: seq<int>)
    requires total >= count && AllDraws(draws) && |draws| >= count - 1
    ensures shares == DoubleAverage(total, count, draws)
  {
    shares := [];
    var remainingAmount := total;
    var remainingCount := count;
    ghost var goal := DoubleAverage(total, count, draws);
    var i := 0;
    while i < count - 1
      invariant 0 <= i <= |draws| && (count >= 1 ==> i <= count - 1)
      invariant AllDraws(draws[i..])
      invariant remainingCount == count - i && remainingAmount >= remainingCount
      invariant |draws[i..]| >= remainingCount - 1
      invariant shares + DoubleAverage(remainingAmount, remainingCount, draws[i..]) == goal
    {
      DoubleAverageCap(remainingAmount, remainingCount);
      var share := ScaledDraw(draws[i], Cap(remainingAmount, remainingCount) - 1) + 1;
      ghost var rest := draws[i + 1..];
      assert draws[i..][0] == draws[i] && draws[i..][1..] == rest;
      DoubleAverageStep(remainingAmount, remainingCount, draws[i..]);
      ghost var later := DoubleAverage(remainingAmount - share, remainingCount - 1, rest);
      assert DoubleAverage(remainingAmount, remainingCount, draws[i..]) == [share] + later;
      assert (shares + [share]) + later == shares + ([share] + later);
      shares := shares + [share];
      remainingAmount := remainingAmount - share;
      remainingCount := remainingCount - 1;
      i := i + 1;
    }
    DoubleAverageLast(remainingAmount, remainingCount, draws[i..]);
    shares := shares + [remainingAmount];
    assert shares == goal;
  }

  /** `generateRandomAmounts(totalAmount, totalCount)`: `splitDraws` feed the
      double-average loop, `shuffleDraws` the shuffle. */
  method GenerateRandomAmounts(totalAmount: int, totalCount: int, splitDraws: seq<int>, shuffleDraws: seq<int>)
    returns (amounts: seq<int>)
    requires totalAmount >= totalCount
    requires AllDraws(splitDraws) && |splitDraws| >= totalCount - 1
    requires AllDraws(shuffleDraws) && |shuffleDraws| >= totalCount - 1
    ensures var shares := DoubleAverage(totalAmount, totalCount, splitDraws);
            amounts == FisherYates(shares, shuffleDraws, |shares| - 1)
    ensures totalCount >= 1 ==> |amounts| == totalCount
    ensures totalCount < 1 ==> amounts == [totalAmount]
    ensures Sum(amounts) == totalAmount
    ensures totalCount >= 1 ==> forall k :: 0 <= k < |amounts| ==> amounts[k] >= 1
  {
    var shares := SplitDoubleAverage(totalAmount, totalCount, splitDraws);
    DoubleAverageSplits(totalAmount, totalCount, splitDraws);
    amounts := ShuffleArray(shares, shuffleDraws);
    SumOfPermutation(amounts, shares);
    if totalCount >= 1 {
      forall k | 0 <= k < |amounts| ensures amounts[k] >= 1 {
        assert amounts[k] in multiset(shares);
      }
    }
  }
}
