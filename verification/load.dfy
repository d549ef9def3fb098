/** Load arithmetic of the balancing planner: per-node shard counts as a
    sequence (one entry per node of the universe, in universe order), their
    total, and how far they stray above a ceiling or below a floor. */
module Load {

  function Sum(cs: seq<int>): int {
    if cs == [] then 0 else cs[0] + Sum(cs[1..])
  }

  /** How far each count lies above `ceil`. */
  function Above(cs: seq<int>, ceil: int): (r: seq<int>)
    ensures |r| == |cs| && forall k :: 0 <= k < |cs| ==> r[k] == (if cs[k] > ceil then cs[k] - ceil else 0)
  {
    seq(|cs|, k requires 0 <= k < |cs| => if cs[k] > ceil then cs[k] - ceil else 0)
  }

  /** How far each count lies below `floor`. */
  function Below(cs: seq<int>, floor: int): (r: seq<int>)
    ensures |r| == |cs| && forall k :: 0 <= k < |cs| ==> r[k] == (if cs[k] < floor then floor - cs[k] else 0)
  {
    seq(|cs|, k requires 0 <= k < |cs| => if cs[k] < floor then floor - cs[k] else 0)
  }

  /** Shards held above the ceiling, and shards missing below the floor. */
  function Excess(cs: seq<int>, ceil: int): int { Sum(Above(cs, ceil)) }

  function Deficit(cs: seq<int>, floor: int): int { Sum(Below(cs, floor)) }

  function Max(a: int, b: int): int { if a >= b then a else b }

  /** The first position of a largest count (the most-loaded node). */
  function MaxIndex(cs: seq<int>): (i: nat)
    requires |cs| > 0
    ensures i < |cs| && forall k :: 0 <= k < |cs| ==> cs[k] <= cs[i]
  {
    if |cs| == 1 then 0
    else
      var j := MaxIndex(cs[1..]);
      if cs[0] >= cs[1..][j] then 0 else j + 1
  }

  /** The first position of a smallest count (the least-loaded node). */
  function MinIndex(cs: seq<int>): (i: nat)
    requires |cs| > 0
    ensures i < |cs| && forall k :: 0 <= k < |cs| ==> cs[i] <= cs[k]
  {
    if |cs| == 1 then 0
    else
      var j := MinIndex(cs[1..]);
      if cs[0] <= cs[1..][j] then 0 else j + 1
  }

  /** Every count lies within `[floor, ceil]`. */
  predicate Even(cs: seq<int>, floor: int, ceil: int) {
    forall k :: 0 <= k < |cs| ==> floor <= cs[k] <= ceil
  }

  /** No count exceeds another by more than one. */
  predicate Level(cs: seq<int>) {
    forall a, b :: 0 <= a < |cs| && 0 <= b < |cs| ==> cs[a] <= cs[b] + 1
  }

  // ---------------------------------------------------------------------------
  // Sums

  lemma {:induction false} SumUpdate(cs: seq<int>, i: nat, v: int)
    requires i < |cs|
    ensures Sum(cs[i := v]) == Sum(cs) - cs[i] + v
  {
    if i > 0 {
      assert cs[i := v][1..] == cs[1..][i - 1 := v];
      SumUpdate(cs[1..], i - 1, v);
    }
  }

  lemma {:induction false} SumBounds(cs: seq<int>, lo: int, hi: int)
    requires forall k :: 0 <= k < |cs| ==> lo <= cs[k] <= hi
    ensures |cs| * lo <= Sum(cs) <= |cs| * hi
  {
    if cs != [] {
      SumBounds(cs[1..], lo, hi);
    }
  }

  /** A sum of non-negative terms is at least each of its terms. */
  lemma {:induction false} SumCoversTerm(xs: seq<int>, k: nat)
    requires forall m :: 0 <= m < |xs| ==> xs[m] >= 0
    requires k < |xs|
    ensures Sum(xs) >= xs[k]
  {
    if k == 0 {
      SumNonNegative(xs[1..]);
    } else {
      SumCoversTerm(xs[1..], k - 1);
    }
  }

  lemma {:induction false} SumNonNegative(xs: seq<int>)
    requires forall m :: 0 <= m < |xs| ==> xs[m] >= 0
    ensures Sum(xs) >= 0
  {
    if xs != [] {
      SumNonNegative(xs[1..]);
    }
  }

  lemma {:induction false} SumOfZeros(xs: seq<int>)
    requires forall m :: 0 <= m < |xs| ==> xs[m] == 0
    ensures Sum(xs) == 0
  {
    if xs != [] {
      SumOfZeros(xs[1..]);
    }
  }

  /** There is excess exactly when the largest count is above the ceiling,
      and a deficit exactly when the smallest is below the floor. */
  lemma ExcessAndDeficit(cs: seq<int>, floor: int, ceil: int)
    requires |cs| > 0
    ensures Excess(cs, ceil) >= 0 && Deficit(cs, floor) >= 0
    ensures Excess(cs, ceil) > 0 <==> cs[MaxIndex(cs)] > ceil
    ensures Deficit(cs, floor) > 0 <==> cs[MinIndex(cs)] < floor
  {
    ExcessAtMax(cs, ceil);
    DeficitAtMin(cs, floor);
  }

  lemma ExcessAtMax(cs: seq<int>, ceil: int)
    requires |cs| > 0
    ensures Excess(cs, ceil) >= 0
    ensures Excess(cs, ceil) > 0 <==> cs[MaxIndex(cs)] > ceil
  {
    var i := MaxIndex(cs);
    if cs[i] > ceil {
      SumCoversTerm(Above(cs, ceil), i);
    } else {
      SumOfZeros(Above(cs, ceil));
    }
  }

  lemma DeficitAtMin(cs: seq<int>, floor: int)
    requires |cs| > 0
    ensures Deficit(cs, floor) >= 0
    ensures Deficit(cs, floor) > 0 <==> cs[MinIndex(cs)] < floor
  {
    var j := MinIndex(cs);
    if cs[j] < floor {
      SumCoversTerm(Below(cs, floor), j);
    } else {
      SumOfZeros(Below(cs, floor));
    }
  }

  /** With a total that fits between `n * floor` and `n * ceil`, an uneven
      load has a gap of at least two between its largest and smallest count:
      a count above the ceiling forces another below it, and a count below
      the floor forces another above it. */
  lemma UnevenGap(cs: seq<int>, floor: int, ceil: int)
    requires |cs| > 0 && floor <= ceil
    requires |cs| * floor <= Sum(cs) <= |cs| * ceil
    ensures cs[MaxIndex(cs)] > ceil ==> cs[MinIndex(cs)] < ceil
    ensures cs[MinIndex(cs)] < floor ==> cs[MaxIndex(cs)] > floor
  {
    var i, j := MaxIndex(cs), MinIndex(cs);
    if cs[i] > ceil && cs[j] >= ceil {
      SumUpdate(cs, i, ceil);
      SumBounds(cs[i := ceil], ceil, cs[i]);
    }
    if cs[j] < floor && cs[i] <= floor {
      SumUpdate(cs, j, floor);
      SumBounds(cs[j := floor], cs[j], floor);
    }
  }

  /** One balancing move, from the most-loaded node `i` to the least-loaded
      node `j`, keeps the total and brings the larger of excess and deficit
      down by exactly one. */
  lemma BalanceStep(cs: seq<int>, floor: int, ceil: int, i: nat, j: nat, next: seq<int>)
    requires |cs| > 0 && floor <= ceil
    requires |cs| * floor <= Sum(cs) <= |cs| * ceil
    requires i == MaxIndex(cs) && j == MinIndex(cs)
    requires cs[i] > ceil || cs[j] < floor
    requires next == cs[i := cs[i] - 1][j := cs[j] + 1]
    ensures i != j && cs[j] < cs[i]
    ensures Sum(next) == Sum(cs)
    ensures Max(Excess(next, ceil), Deficit(next, floor)) == Max(Excess(cs, ceil), Deficit(cs, floor)) - 1
  {
    UnevenGap(cs, floor, ceil);
    ExcessAndDeficit(cs, floor, ceil);
    StepSum(cs, i, j);
    StepTerms(cs, i, j, floor, ceil);
  }

  lemma StepSum(cs: seq<int>, i: nat, j: nat)
    requires i < |cs| && j < |cs| && i != j
    ensures Sum(cs[i := cs[i] - 1][j := cs[j] + 1]) == Sum(cs)
  {
    SumUpdate(cs, i, cs[i] - 1);
    SumUpdate(cs[i := cs[i] - 1], j, cs[j] + 1);
  }

  lemma StepTerms(cs: seq<int>, i: nat, j: nat, floor: int, ceil: int)
    requires i < |cs| && j < |cs| && i != j && floor <= ceil
    requires cs[i] > ceil ==> cs[j] < ceil
    requires cs[j] < floor ==> cs[i] > floor
    requires cs[i] > ceil || cs[j] < floor
    ensures var next := cs[i := cs[i] - 1][j := cs[j] + 1];
            && Excess(next, ceil) == Excess(cs, ceil) - (if cs[i] > ceil then 1 else 0)
            && Deficit(next, floor) == Deficit(cs, floor) - (if cs[j] < floor then 1 else 0)
  {
    var mid := cs[i := cs[i] - 1];
    var next := mid[j := cs[j] + 1];
    assert Above(mid, ceil) == Above(cs, ceil)[i := Above(mid, ceil)[i]];
    assert Above(next, ceil) == Above(mid, ceil)[j := Above(next, ceil)[j]];
    SumUpdate(Above(cs, ceil), i, Above(mid, ceil)[i]);
    SumUpdate(Above(mid, ceil), j, Above(next, ceil)[j]);
    assert Below(mid, floor) == Below(cs, floor)[i := Below(mid, floor)[i]];
    assert Below(next, floor) == Below(mid, floor)[j := Below(next, floor)[j]];
    SumUpdate(Below(cs, floor), i, Below(mid, floor)[i]);
    SumUpdate(Below(mid, floor), j, Below(next, floor)[j]);
  }

  /** A load is even exactly when it has neither excess nor deficit. */
  lemma EvenHasNoExcess(cs: seq<int>, floor: int, ceil: int)
    requires |cs| > 0
    ensures Even(cs, floor, ceil) <==> Excess(cs, ceil) == 0 && Deficit(cs, floor) == 0
  {
    ExcessAndDeficit(cs, floor, ceil);
  }

  /** Adding one to a smallest count keeps a level load level. */
  lemma PlaceKeepsLevel(cs: seq<int>, j: nat)
    requires |cs| > 0 && Level(cs) && j == MinIndex(cs)
    ensures Level(cs[j := cs[j] + 1])
  {
  }

  /** A level load whose total can be spread between `floor` and `ceil` is
      even: a count above the ceiling or below the floor would force another
      count two away from it. */
  lemma LevelIsEven(cs: seq<int>, floor: int, ceil: int)
    requires |cs| > 0 && Level(cs) && floor <= ceil
    requires |cs| * floor <= Sum(cs) <= |cs| * ceil
    ensures Even(cs, floor, ceil)
  {
    var i, j := MaxIndex(cs), MinIndex(cs);
    UnevenGap(cs, floor, ceil);
    assert cs[i] <= cs[j] + 1;
  }
}
