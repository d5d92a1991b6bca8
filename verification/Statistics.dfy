/**
 The statement and connection statistics: timings are summed up per key in the shared-memory map.
 Times are real numbers here; the rounding of doubles is not modelled.
 */
module Statistics {
  const TIME_BUCKET_SIZE := 9

  /** (2^53 - 1) * 2^971, the largest double. */
  const DBL_MAX: real :=
    9007199254740991.0
    * 34175792574734561318320347298712833833643272357706444319152665725155515612490248800367393390985216.0
    * 34175792574734561318320347298712833833643272357706444319152665725155515612490248800367393390985216.0
    * 17087896287367280659160173649356416916821636178853222159576332862577757806245124400183696695492608.0

  const RECORD_LEN := 72

  /** The upper end of bucket i - 1 and the lower end of bucket i. */
  function Threshold(i: nat): (t: real)
    requires i <= TIME_BUCKET_SIZE
  {
    match i
    case 0 => 0.02
    case 1 => 0.04
    case 2 => 0.06
    case 3 => 0.08
    case 4 => 0.1
    case 5 => 0.5
    case 6 => 1.0
    case 7 => 2.0
    case 8 => 10.0
    case _ => DBL_MAX
  }

  predicate InBucket(v: real, i: nat)
    requires i < TIME_BUCKET_SIZE
  {
    Threshold(i) < v < Threshold(i + 1)
  }

  lemma {:induction false} ThresholdsGrow(i: nat, j: nat)
    requires i < j <= TIME_BUCKET_SIZE
    ensures Threshold(i) < Threshold(j)
    decreases j
  {
    if i + 1 < j {
      ThresholdsGrow(i, j - 1);
    }
  }

  /** A time is in one bucket at most. */
  lemma OneBucket(v: real, i: nat, j: nat)
    requires i < TIME_BUCKET_SIZE && j < TIME_BUCKET_SIZE && InBucket(v, i) && InBucket(v, j)
    ensures i == j
  {
    hide Threshold;
    if i + 1 < j {
      ThresholdsGrow(i + 1, j);
    } else if j + 1 < i {
      ThresholdsGrow(j + 1, i);
    }
  }

  datatype StatFields = Stat(total: int, sum: real, min: real, max: real, buckets: seq<int>)

  type Stat = s: StatFields | |s.buckets| == TIME_BUCKET_SIZE
    witness Stat(0, 0.0, 0.0, 0.0, [0, 0, 0, 0, 0, 0, 0, 0, 0])

  const EMPTY_STAT: Stat := Stat(0, 0.0, DBL_MAX, 0.0, [0, 0, 0, 0, 0, 0, 0, 0, 0])

  /** The statistics of a list of times. */
  ghost function Summary(ds: seq<real>): Stat {
    Stat(|ds|, Sum(ds), Least(ds), Greatest(ds),
      seq(TIME_BUCKET_SIZE, i requires 0 <= i < TIME_BUCKET_SIZE => CountIn(ds, i)))
  }

  ghost function Sum(ds: seq<real>): real {
    if ds == [] then 0.0 else Sum(ds[..|ds| - 1]) + ds[|ds| - 1]
  }

  ghost function Least(ds: seq<real>): (r: real)
    ensures r <= DBL_MAX && (r == DBL_MAX || r in ds) && forall d :: d in ds ==> r <= d
  {
    if ds == [] then DBL_MAX
    else
      assert ds == ds[..|ds| - 1] + [ds[|ds| - 1]];
      var r := Least(ds[..|ds| - 1]); if ds[|ds| - 1] < r then ds[|ds| - 1] else r
  }

  ghost function Greatest(ds: seq<real>): (r: real)
    ensures r >= 0.0 && (r == 0.0 || r in ds) && forall d :: d in ds ==> d <= r
  {
    if ds == [] then 0.0
    else
      assert ds == ds[..|ds| - 1] + [ds[|ds| - 1]];
      var r := Greatest(ds[..|ds| - 1]); if ds[|ds| - 1] > r then ds[|ds| - 1] else r
  }

  /** How many times of the list are in bucket i. */
  ghost function CountIn(ds: seq<real>, i: nat): nat
    requires i < TIME_BUCKET_SIZE
  {
    if ds == [] then 0 else CountIn(ds[..|ds| - 1], i) + (if InBucket(ds[|ds| - 1], i) then 1 else 0)
  }

  /** One more time in the statistics. */
  function Added(s: Stat, v: real): Stat {
    Stat(s.total + 1, s.sum + v, if v < s.min then v else s.min, if v > s.max then v else s.max,
         seq(TIME_BUCKET_SIZE, i requires 0 <= i < TIME_BUCKET_SIZE =>
           s.buckets[i] + (if InBucket(v, i) then 1 else 0)))
  }

  lemma AddedIsSummary(ds: seq<real>, v: real)
    ensures Added(Summary(ds), v) == Summary(ds + [v])
    ensures Summary([]) == EMPTY_STAT
  {
    hide InBucket;
    var es := ds + [v];
    assert es[..|es| - 1] == ds && es[|es| - 1] == v;
    assert Added(Summary(ds), v).buckets == Summary(es).buckets;
    assert forall i :: 0 <= i < TIME_BUCKET_SIZE ==> EMPTY_STAT.buckets[i] == 0;
    assert Summary([]).buckets == EMPTY_STAT.buckets;
  }

  /** How many times of the list lie strictly between two bounds. */
  ghost function Between(ds: seq<real>, low: real, high: real): nat {
    if ds == [] then 0
    else Between(ds[..|ds| - 1], low, high) + (if low < ds[|ds| - 1] < high then 1 else 0)
  }

  lemma {:induction false} CountInBetween(ds: seq<real>, i: nat)
    requires i < TIME_BUCKET_SIZE
    ensures CountIn(ds, i) == Between(ds, Threshold(i), Threshold(i + 1))
  {
    hide Threshold;
    if ds != [] {
      CountInBetween(ds[..|ds| - 1], i);
    }
  }

  /** The buckets of a list of times, by their bounds. */
  lemma BucketCounts(ds: seq<real>)
    ensures Summary(ds).buckets ==
      [Between(ds, 0.02, 0.04), Between(ds, 0.04, 0.06), Between(ds, 0.06, 0.08), Between(ds, 0.08, 0.1),
       Between(ds, 0.1, 0.5), Between(ds, 0.5, 1.0), Between(ds, 1.0, 2.0), Between(ds, 2.0, 10.0),
       Between(ds, 10.0, DBL_MAX)]
  {
    hide CountIn, Between;
    CountInBetween(ds, 0);
    CountInBetween(ds, 1);
    CountInBetween(ds, 2);
    CountInBetween(ds, 3);
    CountInBetween(ds, 4);
    CountInBetween(ds, 5);
    CountInBetween(ds, 6);
    CountInBetween(ds, 7);
    CountInBetween(ds, 8);
  }

  function PowerOfTwo(n: nat): real {
    if n == 0 then 1.0 else 2.0 * PowerOfTwo(n - 1)
  }

  lemma {:induction false} PowersMultiply(m: nat, n: nat)
    ensures PowerOfTwo(m + n) == PowerOfTwo(m) * PowerOfTwo(n)
  {
    if m > 0 {
      PowersMultiply(m - 1, n);
    }
  }

  /** DBL_MAX has 53 significant bits, all set, and the largest exponent. */
  lemma LargestDouble()
    ensures DBL_MAX == (PowerOfTwo(53) - 1.0) * PowerOfTwo(971)
  {
    hide PowerOfTwo;
    FirstPowers();
    PowersMultiply(32, 21);
    PowersMultiply(16, 5);
    PowersMultiply(64, 64);
    PowersMultiply(128, 128);
    PowersMultiply(256, 64);
    PowersMultiply(320, 3);
    PowersMultiply(320, 4);
    PowersMultiply(323, 324);
    PowersMultiply(324, 647);
  }

  lemma FirstPowers()
    ensures PowerOfTwo(3) == 8.0 && PowerOfTwo(4) == 16.0 && PowerOfTwo(5) == 32.0
    ensures PowerOfTwo(16) == 65536.0 && PowerOfTwo(32) == 4294967296.0 && PowerOfTwo(64) == 18446744073709551616.0
  {
    hide PowerOfTwo;
    assert PowerOfTwo(1) == 2.0 by { PowerOne(); }
    PowersMultiply(1, 1);
    PowersMultiply(2, 1);
    PowersMultiply(2, 2);
    PowersMultiply(4, 1);
    PowersMultiply(4, 4);
    PowersMultiply(8, 8);
    PowersMultiply(16, 16);
    PowersMultiply(32, 32);
  }

  lemma PowerOne()
    ensures PowerOfTwo(1) == 2.0
  {
    assert PowerOfTwo(0) == 1.0;
  }

  ghost function SumTo(b: seq<int>, n: nat): int
    requires n <= |b|
  {
    if n == 0 then 0 else SumTo(b, n - 1) + b[n - 1]
  }

  /** Whether a time is missing from every bucket: it is at most 0.02, or on a threshold. */
  predicate Unbucketed(v: real) {
    v <= Threshold(0) || v >= DBL_MAX || exists i: nat :: i <= TIME_BUCKET_SIZE && v == Threshold(i)
  }

  lemma {:induction false} BucketOf(v: real, n: nat) returns (i: nat)
    requires 0 < n <= TIME_BUCKET_SIZE && Threshold(0) < v < Threshold(n)
    requires forall j: nat :: j <= TIME_BUCKET_SIZE ==> v != Threshold(j)
    ensures i < n && InBucket(v, i)
    decreases n
  {
    hide Threshold;
    i := n - 1;
    if v < Threshold(n - 1) {
      i := BucketOf(v, n - 1);
    }
  }

  ghost function CountUnbucketed(ds: seq<real>): nat {
    if ds == [] then 0 else CountUnbucketed(ds[..|ds| - 1]) + (if Unbucketed(ds[|ds| - 1]) then 1 else 0)
  }

  /** Adding to the one bucket of v, if it has one, adds one to the prefix sums behind it. */
  lemma {:induction false} SumToAdded(s: Stat, v: real, n: nat)
    requires n <= TIME_BUCKET_SIZE
    ensures SumTo(Added(s, v).buckets, n) ==
      SumTo(s.buckets, n) + (if exists i: nat :: i < n && InBucket(v, i) then 1 else 0)
    decreases n
  {
    hide InBucket, Threshold;
    if n > 0 {
      SumToAdded(s, v, n - 1);
      if InBucket(v, n - 1) {
        forall i: nat | i < n - 1 ensures !InBucket(v, i) {
          if InBucket(v, i) {
            OneBucket(v, i, n - 1);
          }
        }
      }
    }
  }

  lemma BucketedOrNot(v: real)
    ensures Unbucketed(v) <==> !exists i: nat :: i < TIME_BUCKET_SIZE && InBucket(v, i)
  {
    hide Threshold;
    assert Threshold(9) == DBL_MAX by { LastThreshold(); }
    if !Unbucketed(v) {
      var i := BucketOf(v, TIME_BUCKET_SIZE);
      assert InBucket(v, i);
    } else if i: nat :| i < TIME_BUCKET_SIZE && InBucket(v, i) {
      NotOnThreshold(v, i);
      assert false;
    }
  }

  lemma LastThreshold()
    ensures Threshold(TIME_BUCKET_SIZE) == DBL_MAX
  {
  }

  lemma NotOnThreshold(v: real, i: nat)
    requires i < TIME_BUCKET_SIZE && InBucket(v, i)
    ensures !Unbucketed(v)
  {
    hide Threshold;
    LastThreshold();
    if i > 0 {
      ThresholdsGrow(0, i);
    }
    if i + 1 < TIME_BUCKET_SIZE {
      ThresholdsGrow(i + 1, TIME_BUCKET_SIZE);
    }
    forall j: nat | j <= TIME_BUCKET_SIZE ensures v != Threshold(j) {
      if j < i {
        ThresholdsGrow(j, i);
      } else if i + 1 < j {
        ThresholdsGrow(i + 1, j);
      }
    }
  }

  /** The buckets add up to the total but for the times that no bucket takes. */
  lemma {:induction false} BucketsAddUp(ds: seq<real>)
    ensures SumTo(Summary(ds).buckets, TIME_BUCKET_SIZE) + CountUnbucketed(ds) == |ds|
  {
    hide InBucket, Unbucketed, Threshold, Summary;
    if ds == [] {
      AddedIsSummary([], 0.0);
      EmptySum(TIME_BUCKET_SIZE);
    } else {
      var front, v := ds[..|ds| - 1], ds[|ds| - 1];
      assert ds == front + [v];
      BucketsAddUp(front);
      AddedIsSummary(front, v);
      SumToAdded(Summary(front), v, TIME_BUCKET_SIZE);
      BucketedOrNot(v);
    }
  }

  lemma {:induction false} EmptySum(n: nat)
    requires n <= TIME_BUCKET_SIZE
    ensures SumTo(EMPTY_STAT.buckets, n) == 0
  {
    if n > 0 {
      EmptySum(n - 1);
    }
  }

  /** A statistics record in memory. */
  class CommStat {
    var total: int
    var timeSum: real
    var timeMin: real
    var timeMax: real
    const timeBucket: array<int>

    ghost function Value(): Stat
      requires timeBucket.Length == TIME_BUCKET_SIZE
      reads this, timeBucket
    {
      Stat(total, timeSum, timeMin, timeMax, timeBucket[..])
    }

    constructor ()
      ensures fresh(timeBucket) && timeBucket.Length == TIME_BUCKET_SIZE
    {
      total, timeSum, timeMin, timeMax := 0, 0.0, 0.0, 0.0;
      timeBucket := new int[TIME_BUCKET_SIZE];
    }

    /** A copy of a stored record. */
    method Load(s: Stat)
      requires timeBucket.Length == TIME_BUCKET_SIZE
      modifies this, timeBucket
      ensures Value() == s
    {
      total, timeSum, timeMin, timeMax := s.total, s.sum, s.min, s.max;
      forall i | 0 <= i < TIME_BUCKET_SIZE {
        timeBucket[i] := s.buckets[i];
      }
    }

    method Store() returns (s: Stat)
      requires timeBucket.Length == TIME_BUCKET_SIZE
      ensures s == Value()
    {
      s := Stat(total, timeSum, timeMin, timeMax, timeBucket[..]);
    }

    /** cdb_comm_stat_add, with the buckets tried one after the other until one takes the time. */
    method Add(v: real, init: bool)
      requires timeBucket.Length == TIME_BUCKET_SIZE
      modifies this, timeBucket
      ensures Value() == Added(if init then EMPTY_STAT else old(Value()), v)
    {
      hide InBucket;
      if init {
        total, timeSum, timeMin, timeMax := 0, 0.0, DBL_MAX, 0.0;
        forall i | 0 <= i < TIME_BUCKET_SIZE {
          timeBucket[i] := 0;
        }
      }
      ghost var was := timeBucket[..];
      assert init ==> was == EMPTY_STAT.buckets;
      total := total + 1;
      timeSum := timeSum + v;
      if v < timeMin {
        timeMin := v;
      }
      if v > timeMax {
        timeMax := v;
      }
      AddToBucket(v);
      assert Value().buckets == Added(if init then EMPTY_STAT else old(Value()), v).buckets;
    }

    method AddToBucket(v: real)
      requires timeBucket.Length == TIME_BUCKET_SIZE
      modifies timeBucket
      ensures forall i :: 0 <= i < TIME_BUCKET_SIZE ==>
                timeBucket[i] == old(timeBucket[i]) + (if InBucket(v, i) then 1 else 0)
    {
      hide Threshold;
      for i := 0 to TIME_BUCKET_SIZE
        invariant timeBucket[..] == old(timeBucket[..])
        invariant forall j :: 0 <= j < i ==> !InBucket(v, j)
      {
        if v > Threshold(i) && v < Threshold(i + 1) {
          forall j | 0 <= j < TIME_BUCKET_SIZE && InBucket(v, j) ensures j == i {
            OneBucket(v, i, j);
          }
          timeBucket[i] := timeBucket[i] + 1;
          break;
        }
      }
    }
  }
}
