/** The routing statistics record (`Stats` in src/pfaedle/router/Stats.h):
    five `size_t` counters, taken to be 64 bits wide and so added modulo
    2^64, and the solve time, a `double` kept here as a real number. */
module RouterStats {
  import opened Bytes

  datatype Stats = Stats(
    totNumTrips: U64,
    numTries: U64,
    numTrieLeafs: U64,
    solveTime: real,
    dijkstraIters: U64,
    numDroppedTrips: U64)

  /** `Stats()`: every field zero. */
  const Zero: Stats := Stats(0, 0, 0, 0.0, 0, 0)

  /** Addition of two `size_t` values. */
  function AddWord(a: U64, b: U64): U64
  {
    (a + b) % Two64
  }

  /** `operator+`: field by field. */
  function Add(a: Stats, b: Stats): Stats
  {
    Stats(AddWord(a.totNumTrips, b.totNumTrips),
          AddWord(a.numTries, b.numTries),
          AddWord(a.numTrieLeafs, b.numTrieLeafs),
          a.solveTime + b.solveTime,
          AddWord(a.dijkstraIters, b.dijkstraIters),
          AddWord(a.numDroppedTrips, b.numDroppedTrips))
  }

  /** The counters in declaration order. */
  function Counters(s: Stats): (r: seq<U64>)
    ensures |r| == 5
  {
    [s.totNumTrips, s.numTries, s.numTrieLeafs, s.dijkstraIters, s.numDroppedTrips]
  }

  /** A record is its counters and its solve time. */
  lemma CountersDetermine(a: Stats, b: Stats)
    requires Counters(a) == Counters(b) && a.solveTime == b.solveTime
    ensures a == b
  {
    assert Counters(a)[0] == Counters(b)[0] && Counters(a)[1] == Counters(b)[1];
    assert Counters(a)[2] == Counters(b)[2] && Counters(a)[3] == Counters(b)[3];
    assert Counters(a)[4] == Counters(b)[4];
  }

  /** Every counter of a sum is the sum of the counters, modulo 2^64, and
      the solve times add. */
  lemma AddComponentwise(a: Stats, b: Stats)
    ensures forall i :: 0 <= i < 5 ==> Counters(Add(a, b))[i] == (Counters(a)[i] + Counters(b)[i]) % Two64
    ensures Add(a, b).solveTime == a.solveTime + b.solveTime
  {
  }

  /** `Stats()` is the identity on both sides. */
  lemma ZeroIdentity(s: Stats)
    ensures Add(Zero, s) == s && Add(s, Zero) == s
  {
  }

  /** Addition commutes, counters and solve time alike: IEEE addition of
      two doubles is exactly commutative. */
  lemma AddCommutes(a: Stats, b: Stats)
    ensures Add(a, b) == Add(b, a)
  {
  }

  lemma AddWordAssociates(a: U64, b: U64, c: U64)
    ensures AddWord(AddWord(a, b), c) == AddWord(a, AddWord(b, c))
  {
    var q1 := (a + b) / Two64;
    var q2 := (b + c) / Two64;
    assert AddWord(a, b) == a + b - q1 * Two64;
    assert AddWord(b, c) == b + c - q2 * Two64;
    ShiftMod(a + b + c, q1);
    ShiftMod(a + b + c, q2);
  }

  lemma ShiftMod(x: int, q: int)
    ensures (x - q * Two64) % Two64 == x % Two64
  {
  }

  /** Addition of counters is associative. */
  lemma AddAssociates(a: Stats, b: Stats, c: Stats)
    ensures Counters(Add(Add(a, b), c)) == Counters(Add(a, Add(b, c)))
  {
    AddWordAssociates(a.totNumTrips, b.totNumTrips, c.totNumTrips);
    AddWordAssociates(a.numTries, b.numTries, c.numTries);
    AddWordAssociates(a.numTrieLeafs, b.numTrieLeafs, c.numTrieLeafs);
    AddWordAssociates(a.dijkstraIters, b.dijkstraIters, c.dijkstraIters);
    AddWordAssociates(a.numDroppedTrips, b.numDroppedTrips, c.numDroppedTrips);
  }

  /** The exact sum of counter `i` over a list of records. */
  function CounterSum(xs: seq<Stats>, i: nat): nat
    requires i < 5
  {
    if xs == [] then 0 else CounterSum(xs[..|xs| - 1], i) + Counters(xs[|xs| - 1])[i]
  }

  /** The exact sum of the solve times. */
  function TimeSum(xs: seq<Stats>): real
  {
    if xs == [] then 0.0 else TimeSum(xs[..|xs| - 1]) + xs[|xs| - 1].solveTime
  }

  /** Summing records with `+=` from `Stats()`: each counter of the result
      is the exact sum of that counter modulo 2^64, and the solve time is
      the sum of the solve times. */
  method Accumulate(xs: seq<Stats>) returns (acc: Stats)
    ensures forall i :: 0 <= i < 5 ==> Counters(acc)[i] == CounterSum(xs, i) % Two64
    ensures acc.solveTime == TimeSum(xs)
  {
    acc := Zero;
    var k := 0;
    while k < |xs|
      invariant 0 <= k <= |xs|
      invariant forall i :: 0 <= i < 5 ==> Counters(acc)[i] == CounterSum(xs[..k], i) % Two64
      invariant acc.solveTime == TimeSum(xs[..k])
    {
      var next := Add(acc, xs[k]);
      assert xs[..k + 1][..k] == xs[..k];
      forall i | 0 <= i < 5
        ensures Counters(next)[i] == CounterSum(xs[..k + 1], i) % Two64
      {
        AddComponentwise(acc, xs[k]);
        ModOfSum(CounterSum(xs[..k], i), Counters(xs[k])[i]);
      }
      acc := next;
      k := k + 1;
    }
    assert xs[..k] == xs;
  }

  /** Reducing the running sum before adding does not change the result. */
  lemma ModOfSum(s: nat, x: nat)
    ensures (s % Two64 + x) % Two64 == (s + x) % Two64
  {
    ShiftMod(s + x, s / Two64);
  }
}
