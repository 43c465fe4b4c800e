/** The latency histogram (src/metrics/latency.cpp, include/lob/latency.hpp). A value falls in a bin given by
    its exponent and its ten binary digits after the first; a percentile is answered with the lower bound
    of the bin that holds the nearest-rank value. */
module Histograms {
  import opened Bits

  const SIGNIFICANT_BITS: nat := 10
  const SUB_BUCKET_COUNT: nat := 2048
  const SUB_BUCKET_HALF_COUNT: nat := 1024
  const BUCKET_COUNT: nat := 64
  const BIN_COUNT: nat := SUB_BUCKET_COUNT + (BUCKET_COUNT - (SIGNIFICANT_BITS + 1)) * SUB_BUCKET_HALF_COUNT

  function IndexFor(value: Word): nat {
    BitWidthBounds(value);
    var exponent := if value == 0 then 0 else BitWidth(value) - 1;
    var shift := if exponent > SIGNIFICANT_BITS then exponent - SIGNIFICANT_BITS else 0;
    var subBucket := value / Pow2(shift);
    if exponent <= SIGNIFICANT_BITS then subBucket
    else
      var compactBucket := exponent - (SIGNIFICANT_BITS + 1);
      SubBucketBounds(value);
      SUB_BUCKET_COUNT + compactBucket * SUB_BUCKET_HALF_COUNT + (subBucket - SUB_BUCKET_HALF_COUNT)
  }

  /** The lower bound of bin `index`; the shift is done in 64 bits. */
  function ValueForIndex(index: nat): Word {
    if index < SUB_BUCKET_COUNT then index
    else
      var compactIndex := index - SUB_BUCKET_COUNT;
      var exponent := SIGNIFICANT_BITS + 1 + compactIndex / SUB_BUCKET_HALF_COUNT;
      var subBucket := SUB_BUCKET_HALF_COUNT + compactIndex % SUB_BUCKET_HALF_COUNT;
      (subBucket * Pow2(exponent - SIGNIFICANT_BITS)) % TWO_64
  }

  /** The shift of the values of bin `index`, and what is left of them after it. */
  ghost function Shift(index: nat): nat {
    if index < 2048 then 0 else (index - 2048) / 1024 + 1
  }

  ghost function Sub(index: nat): int {
    index - 1024 * Shift(index)
  }

  // ---- the bins partition the 64-bit values ----

  lemma Scale(a: nat, b: nat, c: nat)
    requires a <= b
    ensures a * c <= b * c
  {
    MulMonotone(c, a, b);
  }

  lemma Power(a: nat, s: nat)
    ensures Pow2(a + s) == Pow2(a) * Pow2(s) && Pow2(0) == 1 && Pow2(10) == 1024 && Pow2(11) == 2048
  {
    Pow2Add(a, s);
    Pow2Values();
  }

  lemma DivBounds(v: nat, p: nat)
    requires p > 0
    ensures (v / p) * p <= v < (v / p + 1) * p
  {
    OneMore(v / p, p);
  }

  lemma OneMore(a: nat, p: nat)
    ensures (a + 1) * p == a * p + p
  {
  }

  lemma QuotientBounds(v: nat, p: nat, q: nat)
    requires q * p <= v < (q + 1) * p && 1024 * p <= v < 2048 * p
    ensures 1024 <= q < 2048
  {
    if q < 1024 {
      Scale(q + 1, 1024, p);
    } else if q >= 2048 {
      Scale(2048, q, p);
    }
  }

  /** A value with more than eleven digits has 1024 to 2047 left after its shift. */
  lemma SubBucketBounds(v: Word)
    requires v != 0 && BitWidth(v) > 11
    ensures var p := Pow2(BitWidth(v) - 11); 1024 <= v / p < 2048 && (v / p) * p <= v < (v / p + 1) * p
  {
    hide Pow2, BitWidth;
    var p := Pow2(BitWidth(v) - 11);
    BitWidthBounds(v);
    Power(10, BitWidth(v) - 11);
    Power(11, BitWidth(v) - 11);
    DivBounds(v, p);
    QuotientBounds(v, p, v / p);
  }

  lemma SmallWidth(v: Word)
    ensures v < 2048 <==> BitWidth(v) <= 11
  {
    BitWidthBounds(v);
    Pow2Values();
    Pow2Monotone(BitWidth(v), 11);
    Pow2Monotone(11, BitWidth(v) - 1);
  }

  /** Every bin from 2048 on is one shift and one remainder of 1024 to 2047. */
  lemma Parts(i: nat)
    requires i >= 2048
    ensures Shift(i) >= 1 && 1024 <= Sub(i) < 2048
    ensures (i - 2048) / 1024 == Shift(i) - 1 && (i - 2048) % 1024 == Sub(i) - 1024
    ensures i < BIN_COUNT <==> Shift(i) <= 53
  {
  }

  lemma PartsUnique(s: nat, sub: nat)
    requires s >= 1 && 1024 <= sub < 2048
    ensures Shift(1024 * s + sub) == s && Sub(1024 * s + sub) == sub
  {
  }

  lemma LargeIndex(v: Word)
    requires v >= 2048
    ensures BitWidth(v) > 11 && IndexFor(v) == 1024 * (BitWidth(v) - 11) + v / Pow2(BitWidth(v) - 11)
  {
    hide Pow2, BitWidth;
    SmallWidth(v);
    BitWidthBounds(v);
    SubBucketBounds(v);
  }

  lemma SmallIndex(v: Word)
    requires v < 2048
    ensures IndexFor(v) == v
  {
    hide BitWidth;
    SmallWidth(v);
    BitWidthBounds(v);
    assert v / Pow2(0) == v;
  }

  /** The bin of a value has the value's shift and what is left of the value after it. */
  lemma IndexShape(v: Word)
    ensures var i := IndexFor(v); var p := Pow2(Shift(i));
      && i < BIN_COUNT && Sub(i) >= 0 && Sub(i) * p <= v < (Sub(i) + 1) * p
      && (v < 2048 ==> i == v) && (v >= 2048 ==> Sub(i) >= 1024)
  {
    hide IndexFor, BitWidth, Pow2;
    if v < 2048 {
      SmallIndex(v);
      assert Pow2(0) == 1 by { Power(0, 0); }
    } else {
      LargeIndex(v);
      SubBucketBounds(v);
      BitWidthOfWord(v);
      PartsUnique(BitWidth(v) - 11, v / Pow2(BitWidth(v) - 11));
      Parts(IndexFor(v));
    }
  }

  /** The lower bound of a bin fits in 64 bits. */
  lemma ValueShape(i: nat)
    requires i < BIN_COUNT
    ensures Sub(i) >= 0 && ValueForIndex(i) == Sub(i) * Pow2(Shift(i))
    ensures i >= 2048 ==> Shift(i) > 0 && 1024 <= Sub(i) < 2048 && Pow2(Shift(i) + 10) <= ValueForIndex(i) < Pow2(Shift(i) + 11)
  {
    hide Shift, Sub, Pow2;
    if i < 2048 {
      assert Sub(i) == i && Pow2(Shift(i)) == 1 by { Smallest(i); }
    } else {
      Parts(i);
      assert ValueForIndex(i) == (Sub(i) * Pow2(Shift(i))) % TWO_64;
      Fits(Shift(i), Sub(i));
    }
  }

  lemma Smallest(i: nat)
    requires i < 2048
    ensures Sub(i) == i && Shift(i) == 0 && Pow2(Shift(i)) == 1
  {
  }

  lemma Fits(s: nat, sub: nat)
    requires s <= 53 && 1024 <= sub < 2048
    ensures Pow2(s + 10) <= sub * Pow2(s) < Pow2(s + 11) <= TWO_64
    ensures (sub * Pow2(s)) % TWO_64 == sub * Pow2(s)
  {
    Power(10, s);
    Power(11, s);
    Pow2Monotone(s + 11, 64);
    Pow2Values();
    Scale(1024, sub, Pow2(s));
    LessScaled(sub, 2048, Pow2(s));
  }

  lemma LessScaled(a: nat, b: nat, c: nat)
    requires a < b && c > 0
    ensures a * c < b * c
  {
    Scale(a + 1, b, c);
  }

  /** Going from the value of a bin back to the bin. */
  lemma IndexOfValue(i: nat)
    requires i < BIN_COUNT
    ensures IndexFor(ValueForIndex(i)) == i
  {
    hide IndexFor, ValueForIndex, BitWidth, Pow2;
    ValueShape(i);
    var v := ValueForIndex(i);
    if i < 2048 {
      Smallest(i);
      SmallIndex(v);
    } else {
      BitWidthUnique(v, Shift(i) + 11);
      SmallWidth(v);
      LargeIndex(v);
      DivModUnique(v, Pow2(Shift(i)), Sub(i), 0);
    }
  }

  /** The next bin starts where this one ends. */
  lemma NextValue(i: nat)
    requires i + 1 < BIN_COUNT
    ensures Sub(i) >= 0 && ValueForIndex(i + 1) == (Sub(i) + 1) * Pow2(Shift(i))
    ensures ValueForIndex(i) < ValueForIndex(i + 1)
  {
    ValueShape(i);
    ValueShape(i + 1);
    LessScaled(Sub(i), Sub(i) + 1, Pow2(Shift(i)));
    if Shift(i + 1) != Shift(i) {
      NextShift(i);
    }
  }

  lemma NextShift(i: nat)
    requires Shift(i + 1) != Shift(i)
    ensures Sub(i + 1) * Pow2(Shift(i + 1)) == (Sub(i) + 1) * Pow2(Shift(i))
  {
    assert Shift(i + 1) == Shift(i) + 1;
    assert Sub(i) == 2047 && Sub(i + 1) == 1024;
    assert Pow2(Shift(i) + 1) == 2 * Pow2(Shift(i));
  }

  lemma {:induction false} ValuesIncrease(i: nat, j: nat)
    requires i < j < BIN_COUNT
    ensures ValueForIndex(i) < ValueForIndex(j)
  {
    NextValue(j - 1);
    if i < j - 1 {
      ValuesIncrease(i, j - 1);
    }
  }

  /** Each value lies at or above the lower bound of its bin, by at most a 1024th of itself, and below the
      lower bound of the next bin; values below 2048 are represented exactly. */
  lemma BinHolds(v: Word)
    ensures IndexFor(v) < BIN_COUNT
    ensures ValueForIndex(IndexFor(v)) <= v && v - ValueForIndex(IndexFor(v)) <= v / 1024
    ensures IndexFor(v) + 1 < BIN_COUNT ==> v < ValueForIndex(IndexFor(v) + 1)
    ensures v < 2048 ==> ValueForIndex(IndexFor(v)) == v
  {
    var i := IndexFor(v);
    IndexShape(v);
    ValueShape(i);
    if i + 1 < BIN_COUNT {
      NextValue(i);
    }
    hide IndexFor, ValueForIndex, Sub;
    if v >= 2048 {
      var p := Pow2(Shift(i));
      Scale(1024, Sub(i), p);
      OneMore(Sub(i), p);
      assert v - ValueForIndex(i) < p && 1024 * p <= v;
    }
  }

  lemma IndexMonotone(v: Word, w: Word)
    requires v <= w
    ensures IndexFor(v) <= IndexFor(w)
  {
    hide IndexFor, ValueForIndex;
    BinHolds(v);
    BinHolds(w);
    if IndexFor(w) < IndexFor(v) && IndexFor(w) + 1 < IndexFor(v) {
      ValuesIncrease(IndexFor(w) + 1, IndexFor(v));
    }
  }

  /** The bins tile the 64-bit values: bin `i` holds exactly the values from its lower bound to the next one's. */
  lemma BinsTile(v: Word, i: nat)
    requires i < BIN_COUNT
    ensures IndexFor(v) == i <==> ValueForIndex(i) <= v && (i + 1 < BIN_COUNT ==> v < ValueForIndex(i + 1))
  {
    hide IndexFor, ValueForIndex;
    BinHolds(v);
    var j := IndexFor(v);
    if i + 1 < j {
      ValuesIncrease(i + 1, j);
    } else if j + 1 < i {
      ValuesIncrease(j + 1, i);
    }
  }

  // ---- counting ----

  /** How many of the values fall in bin `i`, and in the bins below `i`. */
  ghost function CountIn(values: seq<Word>, i: nat): nat {
    if values == [] then 0
    else CountIn(values[..|values| - 1], i) + if IndexFor(values[|values| - 1]) == i then 1 else 0
  }

  ghost function CountBelow(values: seq<Word>, i: nat): (n: nat)
    ensures n <= |values|
  {
    if values == [] then 0
    else CountBelow(values[..|values| - 1], i) + if IndexFor(values[|values| - 1]) < i then 1 else 0
  }

  lemma {:induction false} CountsAddUp(values: seq<Word>, i: nat)
    ensures CountBelow(values, i + 1) == CountBelow(values, i) + CountIn(values, i)
    ensures CountBelow(values, 0) == 0 && CountBelow(values, BIN_COUNT) == |values|
    ensures CountIn(values, i) <= |values|
  {
    if values != [] {
      CountsAddUp(values[..|values| - 1], i);
      BinHolds(values[|values| - 1]);
    }
  }

  /** One more occurrence of `x`, wherever it stands, is counted once. */
  lemma {:induction false} CountInsert(a: seq<Word>, x: Word, b: seq<Word>, i: nat)
    ensures CountBelow(a + [x] + b, i) == CountBelow(a + b, i) + if IndexFor(x) < i then 1 else 0
    decreases |b|
  {
    hide IndexFor;
    if b == [] {
      assert a + [x] + b == a + [x] && a + b == a && (a + [x])[..|a|] == a;
    } else {
      var c := b[..|b| - 1];
      CountInsert(a, x, c, i);
      assert (a + [x] + b)[..|a| + |b|] == a + [x] + c;
      assert (a + b)[..|a| + |b| - 1] == a + c;
    }
  }

  lemma WithoutOne(a: seq<Word>, x: Word, b: seq<Word>)
    ensures multiset(a + b) == multiset(a + [x] + b) - multiset{x}
  {
  }

  /** The count does not depend on the order of the values. */
  lemma {:induction false} CountPermuted(s: seq<Word>, t: seq<Word>, i: nat)
    requires multiset(s) == multiset(t)
    ensures CountBelow(s, i) == CountBelow(t, i)
    decreases |s|
  {
    hide IndexFor, CountBelow;
    SameLength(s, t);
    if s != [] {
      var x, r := s[|s| - 1], s[..|s| - 1];
      assert s == r + [x] + [] && r + [] == r;
      assert x in multiset(t);
      var k :| 0 <= k < |t| && t[k] == x;
      var a, b := t[..k], t[k + 1..];
      assert t == a + [x] + b;
      WithoutOne(r, x, []);
      WithoutOne(a, x, b);
      assert multiset(r) == multiset(a + b);
      CountPermuted(r, a + b, i);
      CountInsert(a, x, b, i);
      CountInsert(r, x, [], i);
    }
  }

  ghost predicate Sorted(values: seq<Word>) {
    forall j, k :: 0 <= j < k < |values| ==> values[j] <= values[k]
  }

  /** In a sorted list the values of the bins below `i` come first. */
  lemma {:induction false} CountSorted(values: seq<Word>, i: nat, k: nat)
    requires Sorted(values) && k < |values|
    ensures IndexFor(values[k]) < i ==> CountBelow(values, i) > k
    ensures IndexFor(values[k]) >= i ==> CountBelow(values, i) <= k
    decreases |values|
  {
    hide IndexFor;
    var last := |values| - 1;
    var front := values[..last];
    IndexMonotone(values[k], values[last]);
    if k < last {
      CountSorted(front, i, k);
    } else if last > 0 {
      IndexMonotone(values[last - 1], values[last]);
      CountSorted(front, i, last - 1);
    }
  }

  // ---- percentiles ----

  function Clamp(percentile: real): real {
    if percentile < 0.0 then 0.0 else if percentile > 100.0 then 100.0 else percentile
  }

  function Scaled(percentile: real, count: nat): real {
    Clamp(percentile) * (count as real) / 100.0
  }

  /** The rank the code computes: the product rounded up, and at least 1. */
  function Rank(percentile: real, count: nat): nat
    requires count > 0
  {
    ScaledBounds(percentile, count);
    AtLeastOne(Scaled(percentile, count))
  }

  function AtLeastOne(scaled: real): nat
    requires scaled >= 0.0
  {
    var floor := scaled.Floor;
    var rank := if floor as real < scaled then floor + 1 else floor;
    if rank < 1 then 1 else rank
  }

  lemma ScaledBounds(percentile: real, count: nat)
    ensures 0.0 <= Scaled(percentile, count) <= count as real
  {
    var p, c := Clamp(percentile), count as real;
    assert p * c >= 0.0;
    assert (100.0 - p) * c >= 0.0;
    assert (100.0 - p) * c == 100.0 * c - p * c;
  }

  /** The nearest rank of a percentile of `n` values: the least position, from 1, such that the values up to it
      are that many hundredths of all of them. Percentiles below 0 and above 100 stand for the ends. */
  ghost predicate IsNearestRank(percentile: real, n: nat, rank: nat) {
    if percentile < 0.0 then rank == 1
    else if percentile > 100.0 then rank == n
    else
      && rank >= 1 && 100.0 * (rank as real) >= percentile * (n as real)
      && (rank > 1 ==> 100.0 * ((rank - 1) as real) < percentile * (n as real))
  }

  /** The computed rank is the nearest rank, and there is no other. */
  lemma RankIsNearest(percentile: real, count: nat, rank: nat)
    requires count > 0
    ensures 1 <= Rank(percentile, count) <= count
    ensures rank == Rank(percentile, count) <==> IsNearestRank(percentile, count, rank)
  {
    ScaledBounds(percentile, count);
    ScaledOf(percentile, count);
    hide Scaled;
    LeastAbove(Scaled(percentile, count), rank);
    LeastAbove(Scaled(percentile, count), Rank(percentile, count));
  }

  lemma ScaledOf(percentile: real, count: nat)
    ensures percentile < 0.0 ==> Scaled(percentile, count) == 0.0
    ensures percentile > 100.0 ==> Scaled(percentile, count) == count as real
    ensures 0.0 <= percentile <= 100.0 ==> 100.0 * Scaled(percentile, count) == percentile * (count as real)
  {
  }

  lemma LeastAbove(scaled: real, rank: nat)
    requires scaled >= 0.0
    ensures rank == AtLeastOne(scaled) <==> rank >= 1 && scaled <= rank as real && (rank > 1 ==> (rank - 1) as real < scaled)
  {
  }

  /** The bin where the running count first reaches the rank is the bin of the nearest-rank value. */
  lemma FirstReached(recorded: seq<Word>, sorted: seq<Word>, rank: nat, i: nat)
    requires Sorted(sorted) && multiset(sorted) == multiset(recorded)
    requires 1 <= rank <= |sorted|
    requires CountBelow(recorded, i) < rank <= CountBelow(recorded, i + 1)
    ensures IndexFor(sorted[rank - 1]) == i
  {
    CountPermuted(recorded, sorted, i);
    CountPermuted(recorded, sorted, i + 1);
    CountSorted(sorted, i, rank - 1);
    CountSorted(sorted, i + 1, rank - 1);
  }

  lemma SameLength(s: seq<Word>, t: seq<Word>)
    requires multiset(s) == multiset(t)
    ensures |s| == |t|
  {
    assert |multiset(s)| == |s| && |multiset(t)| == |t|;
  }

  /** `answer` is right for a percentile: for every sorted list of the recorded values it is the lower bound
      of the bin of the value at the nearest rank. */
  ghost predicate Answers(recorded: seq<Word>, percentile: real, answer: Word) {
    |recorded| > 0 && forall sorted: seq<Word>, rank: nat ::
      Sorted(sorted) && multiset(sorted) == multiset(recorded) && IsNearestRank(percentile, |recorded|, rank) ==>
        AnswersFor(sorted, rank, answer)
  }

  ghost predicate AnswersFor(sorted: seq<Word>, rank: nat, answer: Word) {
    1 <= rank <= |sorted| && answer == ValueForIndex(IndexFor(sorted[rank - 1]))
  }

  /** There is such a sorted list. */
  lemma {:induction false} SortedCopy(values: seq<Word>) returns (sorted: seq<Word>)
    ensures Sorted(sorted) && multiset(sorted) == multiset(values)
  {
    if values == [] {
      sorted := [];
    } else {
      var x := values[|values| - 1];
      var rest := SortedCopy(values[..|values| - 1]);
      var k := Place(rest, x);
      sorted := rest[..k] + [x] + rest[k..];
      InsertedSorted(rest, x, k);
      SameValues(values, rest, x, k);
    }
  }

  lemma InsertedSorted(sorted: seq<Word>, x: Word, k: nat)
    requires Sorted(sorted) && k <= |sorted|
    requires forall i :: 0 <= i < k ==> sorted[i] <= x
    requires forall i :: k <= i < |sorted| ==> x <= sorted[i]
    ensures Sorted(sorted[..k] + [x] + sorted[k..])
  {
    var r := sorted[..k] + [x] + sorted[k..];
    assert forall i :: 0 <= i < |r| ==> r[i] == if i < k then sorted[i] else if i == k then x else sorted[i - 1];
  }

  lemma SameValues(values: seq<Word>, rest: seq<Word>, x: Word, k: nat)
    requires values != [] && x == values[|values| - 1] && k <= |rest|
    requires multiset(rest) == multiset(values[..|values| - 1])
    ensures multiset(rest[..k] + [x] + rest[k..]) == multiset(values)
  {
    assert rest == rest[..k] + rest[k..];
    assert values == values[..|values| - 1] + [x];
  }

  lemma {:induction false} Place(sorted: seq<Word>, x: Word) returns (k: nat)
    requires Sorted(sorted)
    ensures k <= |sorted|
    ensures forall i :: 0 <= i < k ==> sorted[i] <= x
    ensures forall i :: k <= i < |sorted| ==> x <= sorted[i]
  {
    k := 0;
    while k < |sorted| && sorted[k] <= x
      invariant k <= |sorted| && forall i :: 0 <= i < k ==> sorted[i] <= x
    {
      k := k + 1;
    }
  }

  lemma FirstReachedAnswers(recorded: seq<Word>, percentile: real, i: nat)
    requires |recorded| > 0
    requires CountBelow(recorded, i) < Rank(percentile, |recorded|) <= CountBelow(recorded, i + 1)
    ensures Answers(recorded, percentile, ValueForIndex(i))
  {
    hide IndexFor, ValueForIndex, CountBelow, Rank, Sorted, IsNearestRank;
    forall sorted: seq<Word>, rank: nat
      | Sorted(sorted) && multiset(sorted) == multiset(recorded) && IsNearestRank(percentile, |recorded|, rank)
      ensures AnswersFor(sorted, rank, ValueForIndex(i))
    {
      RankIsNearest(percentile, |recorded|, rank);
      SameLength(sorted, recorded);
      FirstReached(recorded, sorted, rank, i);
    }
  }

  /** The error of a reported percentile: with `t` the value at the nearest rank, never above `t`, below it by at
      most `t / 1024`, and exact below 2048. */
  lemma PercentileError(recorded: seq<Word>, sorted: seq<Word>, percentile: real, rank: nat, answer: Word)
    requires Answers(recorded, percentile, answer) && Sorted(sorted) && multiset(sorted) == multiset(recorded)
    requires IsNearestRank(percentile, |recorded|, rank)
    ensures 1 <= rank <= |sorted|
    ensures var t := sorted[rank - 1]; answer <= t && t - answer <= t / 1024 && (t < 2048 ==> answer == t)
  {
    hide IndexFor, ValueForIndex, IsNearestRank;
    assert AnswersFor(sorted, rank, answer);
    BinHolds(sorted[rank - 1]);
  }

  /** Every percentile of recorded values has a nearest rank and a sorted list to look it up in. */
  lemma NearestExists(recorded: seq<Word>, percentile: real) returns (sorted: seq<Word>, rank: nat)
    requires |recorded| > 0
    ensures Sorted(sorted) && multiset(sorted) == multiset(recorded)
    ensures IsNearestRank(percentile, |recorded|, rank) && 1 <= rank <= |sorted|
  {
    sorted := SortedCopy(recorded);
    rank := Rank(percentile, |recorded|);
    RankIsNearest(percentile, |recorded|, rank);
    SameLength(sorted, recorded);
  }

  /** `answer` is the value at `rank`, or below it by no more than a 1024th. */
  ghost predicate Within(sorted: seq<Word>, rank: nat, answer: Word) {
    && 1 <= rank <= |sorted|
    && answer <= sorted[rank - 1] <= answer + sorted[rank - 1] / 1024
    && (sorted[rank - 1] < 2048 ==> answer == sorted[rank - 1])
  }

  lemma AnswersAreWithin(recorded: seq<Word>, percentile: real, answer: Word)
    requires Answers(recorded, percentile, answer)
    ensures forall sorted: seq<Word>, rank: nat ::
      Sorted(sorted) && multiset(sorted) == multiset(recorded) && IsNearestRank(percentile, |recorded|, rank) ==>
        Within(sorted, rank, answer)
  {
    hide Answers, Sorted, IsNearestRank;
    forall sorted: seq<Word>, rank: nat
      | Sorted(sorted) && multiset(sorted) == multiset(recorded) && IsNearestRank(percentile, |recorded|, rank)
      ensures Within(sorted, rank, answer)
    {
      PercentileError(recorded, sorted, percentile, rank, answer);
    }
  }

  // ---- the histogram ----

  ghost predicate IsMinimum(m: Word, values: seq<Word>) {
    if values == [] then m == 0 else m in values && forall v :: v in values ==> m <= v
  }

  ghost predicate IsMaximum(m: Word, values: seq<Word>) {
    if values == [] then m == 0 else m in values && forall v :: v in values ==> v <= m
  }

  lemma WrapAdd(n: nat, k: nat)
    ensures (n % TWO_64 + k) % TWO_64 == (n + k) % TWO_64
    ensures n < TWO_64 ==> n % TWO_64 == n
  {
  }

  /** Adding the counter of bin `i` to the counts below it, in 64 bits. */
  lemma AddCounts(values: seq<Word>, i: nat, counter: Word)
    requires |values| < TWO_64 && counter == CountIn(values, i) % TWO_64
    ensures (CountBelow(values, i) + counter) % TWO_64 == CountBelow(values, i + 1)
  {
    hide CountBelow, CountIn;
    CountsAddUp(values, i);
    var below, here := CountBelow(values, i), CountIn(values, i);
    assert below + here < TWO_64 && counter == here;
  }

  lemma CountOneMore(values: seq<Word>, v: Word, i: nat)
    ensures CountIn(values + [v], i) == CountIn(values, i) + if IndexFor(v) == i then 1 else 0
  {
    assert (values + [v])[..|values|] == values;
  }

  /** The values that came since the 64-bit count last left 0. */
  ghost function Recent(values: seq<Word>): seq<Word> {
    if values == [] then []
    else
      var front, last := values[..|values| - 1], values[|values| - 1];
      if AtZero(front) then [last] else Recent(front) + [last]
  }

  /** The 64-bit count of the values is 0. */
  ghost predicate AtZero(values: seq<Word>) {
    |values| % TWO_64 == 0
  }

  lemma RecentOneMore(values: seq<Word>, v: Word)
    ensures Recent(values + [v]) == if AtZero(values) then [v] else Recent(values) + [v]
  {
    hide AtZero;
    assert (values + [v])[..|values|] == values;
  }

  lemma {:induction false} RecentSmall(values: seq<Word>)
    ensures |values| < TWO_64 ==> Recent(values) == values
    ensures values != [] ==> Recent(values) != []
  {
    hide AtZero;
    if values != [] {
      RecentSmall(values[..|values| - 1]);
      ZeroMeans(values[..|values| - 1]);
      assert values[..|values| - 1] + [values[|values| - 1]] == values;
    }
  }

  lemma ZeroMeans(values: seq<Word>)
    ensures |values| < TWO_64 ==> (AtZero(values) <==> values == [])
    ensures (|values| + 1) % TWO_64 == 1 <==> AtZero(values)
    ensures AtZero(values) <==> |values| % TWO_64 == 0
  {
  }

  lemma LeastOneMore(values: seq<Word>, v: Word, least: Word)
    requires IsMinimum(least, values)
    ensures IsMinimum(if values == [] || v < least then v else least, values + [v])
    ensures IsMinimum(v, [v])
  {
    assert v in values + [v] && v in [v];
  }

  lemma GreatestOneMore(values: seq<Word>, v: Word, greatest: Word)
    requires IsMaximum(greatest, values)
    ensures IsMaximum(if v > greatest then v else greatest, values + [v])
  {
    assert v in values + [v];
  }

  class HdrHistogram {
    const counts: array<Word>
    var count: Word
    var minimum: Word
    var maximum: Word
    /** The values recorded since the last reset. */
    ghost var recorded: seq<Word>

    ghost predicate Valid()
      reads this, counts
    {
      && counts.Length == BIN_COUNT
      && count == |recorded| % TWO_64
      && (forall i :: 0 <= i < BIN_COUNT ==> CountOk(recorded, i))
      && IsMinimum(minimum, Recent(recorded))
      && IsMaximum(maximum, recorded)
    }

    ghost predicate CountOk(values: seq<Word>, i: nat)
      requires counts.Length == BIN_COUNT && i < BIN_COUNT
      reads counts
    {
      counts[i] == CountIn(values, i) % TWO_64
    }

    constructor ()
      ensures Valid() && fresh(counts) && recorded == []
    {
      counts := new Word[BIN_COUNT](_ => 0);
      count, minimum, maximum := 0, 0, 0;
      recorded := [];
    }

    method Reset()
      requires Valid()
      modifies this, counts
      ensures Valid() && recorded == []
    {
      for i := 0 to BIN_COUNT
        invariant forall k :: 0 <= k < i ==> counts[k] == 0
      {
        counts[i] := 0;
      }
      count, minimum, maximum := 0, 0, 0;
      recorded := [];
    }

    method Record(value: Word)
      requires Valid()
      modifies this, counts
      ensures Valid() && recorded == old(recorded) + [value]
    {
      hide IndexFor, CountIn, IsMinimum, IsMaximum, Recent, AtZero;
      LeastOneMore(Recent(recorded), value, minimum);
      GreatestOneMore(recorded, value, maximum);
      RecentOneMore(recorded, value);
      RecentSmall(recorded);
      ZeroMeans(recorded);
      WrapAdd(|recorded|, 1);
      CountValue(value);
      count := (count + 1) % TWO_64;
      if count == 1 || value < minimum {
        minimum := value;
      }
      if value > maximum {
        maximum := value;
      }
      recorded := recorded + [value];
    }

    /** One more value in its bin. */
    method CountValue(value: Word)
      requires counts.Length == BIN_COUNT && forall i :: 0 <= i < BIN_COUNT ==> CountOk(recorded, i)
      modifies counts
      ensures forall i :: 0 <= i < BIN_COUNT ==> CountOk(recorded + [value], i)
    {
      hide IndexFor, CountIn;
      BinHolds(value);
      var index := IndexFor(value);
      counts[index] := (counts[index] + 1) % TWO_64;
      ghost var now := recorded + [value];
      forall i | 0 <= i < BIN_COUNT
        ensures CountOk(now, i)
      {
        assert old(CountOk(recorded, i));
        CountOneMore(recorded, value, i);
        WrapAdd(CountIn(recorded, i), 1);
      }
    }

    method Count() returns (n: Word)
      requires Valid()
      ensures n == |recorded| % TWO_64
    {
      n := count;
    }

    /** The least value recorded since the 64-bit count last left 0, and 0 while it is 0; so the least of all
        recorded values while there are fewer than 2^64. */
    method Min() returns (m: Word)
      requires Valid()
      ensures if AtZero(recorded) then m == 0 else IsMinimum(m, Recent(recorded))
      ensures |recorded| < TWO_64 ==> IsMinimum(m, recorded)
    {
      hide IsMinimum, Recent;
      RecentSmall(recorded);
      ZeroMeans(recorded);
      NoneRecorded();
      WrapAdd(|recorded|, 0);
      m := if count == 0 then 0 else minimum;
    }

    lemma NoneRecorded()
      ensures IsMinimum(0, []) && IsMaximum(0, [])
    {
    }

    /** The greatest recorded value, and 0 while the 64-bit count is 0. */
    method Max() returns (m: Word)
      requires Valid()
      ensures if AtZero(recorded) then m == 0 else IsMaximum(m, recorded)
      ensures |recorded| < TWO_64 ==> IsMaximum(m, recorded)
    {
      hide IsMaximum;
      NoneRecorded();
      ZeroMeans(recorded);
      WrapAdd(|recorded|, 0);
      m := if count == 0 then 0 else maximum;
    }

    /** With `t` the value at the nearest rank, the lower bound of the bin of `t`: at most `t`, by no more than
        `t / 1024`, and `t` itself below 2048. */
    method ValueAtPercentile(percentile: real) returns (answer: Word)
      requires Valid()
      ensures 0 < |recorded| < TWO_64 ==> Answers(recorded, percentile, answer)
      ensures 0 < |recorded| < TWO_64 ==> forall sorted: seq<Word>, rank: nat ::
        Sorted(sorted) && multiset(sorted) == multiset(recorded) && IsNearestRank(percentile, |recorded|, rank) ==>
          Within(sorted, rank, answer)
      ensures AtZero(recorded) ==> answer == 0
    {
      hide IndexFor, ValueForIndex, Rank, Answers, Within, Sorted, IsNearestRank, CountIn, CountBelow, IsMinimum, IsMaximum;
      WrapAdd(|recorded|, 0);
      if count == 0 {
        return 0;
      }
      var rank := Rank(percentile, count);
      RankIsNearest(percentile, count, rank);
      var observed: Word := 0;
      CountsAddUp(recorded, BIN_COUNT);
      for index := 0 to BIN_COUNT
        invariant |recorded| < TWO_64 ==> observed == CountBelow(recorded, index) < rank
      {
        assert CountOk(recorded, index);
        if |recorded| < TWO_64 {
          AddCounts(recorded, index, counts[index]);
        }
        observed := (observed + counts[index]) % TWO_64;
        if observed >= rank {
          if |recorded| < TWO_64 {
            FirstReachedAnswers(recorded, percentile, index);
            AnswersAreWithin(recorded, percentile, ValueForIndex(index));
          }
          return ValueForIndex(index);
        }
      }
      answer := maximum;
    }
  }
}
