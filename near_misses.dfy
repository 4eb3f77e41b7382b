/** The near-miss search of Fermat's Last Theorem: for an exponent n and a bound k,
    scan every pair (x, y) with 10 <= x, y <= k, find the n-th power closest to
    x^n + y^n, and keep the pair whose relative miss is smallest. */
module NearMisses {
  import opened Powers

  datatype Option<T> = None | Some(value: T)

  // ---------------------------------------------------------------------------
  // Accepted inputs

  /** The range the prompt for the exponent accepts. */
  predicate ValidExponent(n: int)
  {
    3 <= n <= 11
  }

  /** The range the prompt for the upper limit accepts. */
  predicate ValidLimit(k: int)
  {
    k > 10
  }

  /** The exponent prompt accepts 3 and 11 and rejects 2 and 12. */
  lemma ExponentBoundaries()
    ensures ValidExponent(3) && ValidExponent(11)
    ensures !ValidExponent(2) && !ValidExponent(12)
  {
  }

  /** The limit prompt accepts 11 and rejects 10. */
  lemma LimitBoundaries()
    ensures ValidLimit(11) && !ValidLimit(10)
  {
  }

  // ---------------------------------------------------------------------------
  // Bracketing the n-th root

  /** z and z + 1 bracket s: z^n <= s < (z + 1)^n, with z at least 1. */
  predicate Brackets(z: int, n: nat, s: int)
  {
    1 <= z && Pow(z, n) <= s < Pow(z + 1, n)
  }

  /** At most one z brackets s: the bracketing z is the integer n-th root floor. */
  lemma BracketUnique(z1: int, z2: int, n: nat, s: int)
    requires Brackets(z1, n, s) && Brackets(z2, n, s)
    ensures z1 == z2
  {
    if z1 < z2 {
      PowMonotone(z1 + 1, z2, n);
    } else if z2 < z1 {
      PowMonotone(z2 + 1, z1, n);
    }
  }

  /** The bracketing z found by counting up from z. */
  function RootFrom(s: int, n: nat, z: int): (r: int)
    requires 1 <= n && 1 <= z && Pow(z, n) <= s
    ensures Brackets(r, n, s) && z <= r
    decreases s - z
  {
    if Pow(z + 1, n) <= s then
      PowAtLeastBase(z + 1, n);
      RootFrom(s, n, z + 1)
    else
      z
  }

  /** The integer n-th root floor of s: the one z >= 1 with z^n <= s < (z + 1)^n. */
  function Root(s: int, n: nat): (r: int)
    requires 1 <= n && 1 <= s
    ensures Brackets(r, n, s)
  {
    PowOfOne(n);
    RootFrom(s, n, 1)
  }

  /** The two correction loops: walk z up while (z + 1)^n <= s, then down while
      z > 1 and z^n > s. Whatever the (clamped) start, they end on the root floor. */
  method Bracket(s: int, n: nat, start: int) returns (z: int)
    requires 1 <= n && 1 <= s && 1 <= start
    ensures Brackets(z, n, s)
    ensures z == Root(s, n)
  {
    z := start;
    while Pow(z + 1, n) <= s
      invariant 1 <= z
      decreases s - z
    {
      PowAtLeastBase(z + 1, n);
      z := z + 1;
    }
    while 1 < z && Pow(z, n) > s
      invariant 1 <= z && s < Pow(z + 1, n)
    {
      z := z - 1;
    }
    PowOfOne(n);
    BracketUnique(z, Root(s, n), n, s);
  }

  // ---------------------------------------------------------------------------
  // One pair

  /** The record kept for one pair (x, y). */
  datatype Candidate = Candidate(
    x: int, y: int, z: int, n: int,
    sumPowers: int, closestPower: int, miss: int, relativeMiss: real)

  /** x^n + y^n; at least 2 when x, y >= 1. */
  function SumOfPowers(x: int, y: int, n: nat): (s: int)
    requires 1 <= x && 1 <= y
    ensures 2 <= s
  {
    PowPositive(x, n);
    PowPositive(y, n);
    Pow(x, n) + Pow(y, n)
  }

  function Dist(a: int, b: int): nat
  {
    if a <= b then b - a else a - b
  }

  /** The candidate for (x, y), in terms of the root floor: the closer of the
      two bracketing powers, the lower one on a tie (`NoTie`: a tie cannot occur). */
  function CandidateFor(x: int, y: int, n: nat): Candidate
    requires 1 <= n && 1 <= x && 1 <= y
  {
    var s := SumOfPowers(x, y, n);
    var z := Root(s, n);
    var lower, upper := Pow(z, n), Pow(z + 1, n);
    if s - lower <= upper - s then
      Candidate(x, y, z, n, s, lower, s - lower, (s - lower) as real / s as real)
    else
      Candidate(x, y, z + 1, n, s, upper, upper - s, (upper - s) as real / s as real)
  }

  /** The per-pair step of the scan: sum the powers, bracket the root from the
      caller's estimate (clamped to at least 1), pick the closer side. */
  method Evaluate(x: int, y: int, n: nat, estimate: (int, nat) -> int) returns (c: Candidate)
    requires 1 <= n && 1 <= x && 1 <= y
    ensures c == CandidateFor(x, y, n)
  {
    var sumPowers := Pow(x, n) + Pow(y, n);
    PowPositive(x, n);
    PowPositive(y, n);
    var approxRoot := estimate(sumPowers, n);
    if approxRoot < 1 {
      approxRoot := 1;
    }
    var z := Bracket(sumPowers, n, approxRoot);
    var lowerPower := Pow(z, n);
    var upperPower := Pow(z + 1, n);
    var missFromLower := sumPowers - lowerPower;
    var missFromUpper := upperPower - sumPowers;
    var miss, closestPower, closestZ;
    if missFromLower <= missFromUpper {
      miss, closestPower, closestZ := missFromLower, lowerPower, z;
    } else {
      miss, closestPower, closestZ := missFromUpper, upperPower, z + 1;
    }
    var relativeMiss := miss as real / sumPowers as real;
    c := Candidate(x, y, closestZ, n, sumPowers, closestPower, miss, relativeMiss);
  }

  /** The candidate's power is the nearer of the two powers bracketing x^n + y^n. */
  lemma ClosestOfBracket(x: int, y: int, n: nat)
    requires 1 <= n && 1 <= x && 1 <= y
    ensures var c := CandidateFor(x, y, n);
      var s := SumOfPowers(x, y, n);
      var r := Root(s, n);
      && c.x == x && c.y == y && c.n == n && c.sumPowers == s
      && (c.z == r || c.z == r + 1)
      && c.closestPower == Pow(c.z, n)
      && c.miss == Dist(s, c.closestPower)
      && c.miss == (if s - Pow(r, n) <= Pow(r + 1, n) - s then s - Pow(r, n) else Pow(r + 1, n) - s)
  {
  }

  /** The two sides are never equally far: r^n and (r+1)^n have opposite parity, so
      their sum is odd and cannot be 2S. Hence the lower side is chosen exactly when it
      is strictly nearer. */
  lemma NoTie(x: int, y: int, n: nat)
    requires 1 <= n && 1 <= x && 1 <= y
    ensures var s := SumOfPowers(x, y, n);
      var r := Root(s, n);
      s - Pow(r, n) != Pow(r + 1, n) - s
    ensures var s := SumOfPowers(x, y, n);
      var r := Root(s, n);
      CandidateFor(x, y, n).z == r <==> s - Pow(r, n) < Pow(r + 1, n) - s
  {
    var s := SumOfPowers(x, y, n);
    var r := Root(s, n);
    PowParity(r, n);
    PowParity(r + 1, n);
    OppositeParityNotEquidistant(s, Pow(r, n), Pow(r + 1, n));
  }

  /** Two integers of opposite parity are never equally far from a third. */
  lemma OppositeParityNotEquidistant(s: int, a: int, b: int)
    requires a % 2 != b % 2
    ensures s - a != b - s
  {
  }

  /** The chosen power is nearest among ALL n-th powers w^n, and the chosen z is the
      only w >= 0 that is that near. */
  lemma NearestPower(x: int, y: int, n: nat, w: int)
    requires 1 <= n && 1 <= x && 1 <= y && 0 <= w
    ensures var c := CandidateFor(x, y, n);
      c.miss <= Dist(c.sumPowers, Pow(w, n))
    ensures var c := CandidateFor(x, y, n);
      Dist(c.sumPowers, Pow(w, n)) == c.miss ==> w == c.z
  {
    var c := CandidateFor(x, y, n);
    var s := SumOfPowers(x, y, n);
    var r := Root(s, n);
    var lower, upper, pw := Pow(r, n), Pow(r + 1, n), Pow(w, n);
    assert c.sumPowers == s && c.miss <= s - lower && c.miss <= upper - s;
    NoTie(x, y, n);
    assert c.z == r ==> c.miss == s - lower < upper - s;
    assert c.z == r + 1 ==> c.miss == upper - s < s - lower;
    if w < r {
      PowStrictlyIncreasing(w, r, n);
      assert Dist(s, pw) == s - pw > s - lower;
    } else if w == r {
      assert Dist(s, pw) == s - lower;
    } else if w == r + 1 {
      assert Dist(s, pw) == upper - s;
    } else {
      PowStrictlyIncreasing(r + 1, w, n);
      assert Dist(s, pw) == pw - s > upper - s;
    }
  }

  /** A ratio m / t with 0 <= m < t lies in [0, 1). */
  lemma RatioBelowOne(m: int, t: int)
    requires 0 <= m < t
    ensures 0.0 <= m as real / t as real < 1.0
  {
    var q := m as real / t as real;
    assert q * t as real == m as real;
  }

  /** 0 <= miss < x^n + y^n, so the relative miss lies in [0, 1). */
  lemma MissBounds(x: int, y: int, n: nat)
    requires 1 <= n && 1 <= x && 1 <= y
    ensures var c := CandidateFor(x, y, n);
      && 0 <= c.miss < c.sumPowers
      && c.relativeMiss == c.miss as real / c.sumPowers as real
      && 0.0 <= c.relativeMiss < 1.0
  {
    var c := CandidateFor(x, y, n);
    var s := SumOfPowers(x, y, n);
    var r := Root(s, n);
    PowPositive(r, n);
    assert 0 <= c.miss <= s - Pow(r, n) < s;
    RatioBelowOne(c.miss, s);
  }

  /** The single pair of n = 3, k = 10: 10^3 + 10^3 = 2000 lies between
      12^3 = 1728 and 13^3 = 2197, and the upper side is nearer. */
  lemma TenAndTenCubed()
    ensures CandidateFor(10, 10, 3) == Candidate(10, 10, 13, 3, 2000, 2197, 197, 197.0 / 2000.0)
  {
    assert Pow(10, 3) == 1000 && Pow(12, 3) == 1728 && Pow(13, 3) == 2197;
    assert Brackets(12, 3, 2000);
    BracketUnique(12, Root(2000, 3), 3, 2000);
  }

  // ---------------------------------------------------------------------------
  // The scan

  /** The pairs scanned: 10 <= a, b <= k. */
  predicate InRange(a: int, b: int, k: int)
  {
    10 <= a <= k && 10 <= b <= k
  }

  /** (a, b) comes before (c, d) in the scan: x ascending, then y ascending. */
  predicate Before(a: int, b: int, c: int, d: int)
  {
    a < c || (a == c && b < d)
  }

  /** (a, b) is scanned before the cursor (x, y). */
  predicate Done(a: int, b: int, k: int, x: int, y: int)
  {
    InRange(a, b, k) && Before(a, b, x, y)
  }

  /** The candidate of (a, b) is strictly better than that of every pair scanned before it. */
  ghost predicate Record(a: int, b: int, n: nat, k: int)
    requires 1 <= n && InRange(a, b, k)
  {
    forall p, q :: InRange(p, q, k) && Before(p, q, a, b) ==>
      CandidateFor(a, b, n).relativeMiss < CandidateFor(p, q, n).relativeMiss
  }

  /** c is the best among the pairs before the cursor (x, y): a pair's candidate with
      the least relative miss, and the first such pair in scan order. */
  ghost predicate BestSoFar(c: Candidate, n: nat, k: int, x: int, y: int)
    requires 1 <= n
  {
    && Done(c.x, c.y, k, x, y)
    && c == CandidateFor(c.x, c.y, n)
    && Record(c.x, c.y, n, k)
    && forall p, q :: Done(p, q, k, x, y) ==> c.relativeMiss <= CandidateFor(p, q, n).relativeMiss
  }

  /** The cursor just past the last pair (k, k); (10, 10) when no pair exists. */
  function EndRow(k: int): int
  {
    if k < 10 then 10 else k + 1
  }

  lemma DoneAtEnd(a: int, b: int, k: int)
    ensures Done(a, b, k, EndRow(k), 10) <==> InRange(a, b, k)
  {
  }

  /** c is the result the whole scan should return. */
  ghost predicate IsBest(c: Candidate, n: nat, k: int)
    requires 1 <= n
  {
    BestSoFar(c, n, k, EndRow(k), 10)
  }

  /** The candidates of the record-setting pairs before the cursor (x, y), in scan order. */
  ghost function RecordsBefore(n: nat, k: int, x: int, y: int): seq<Candidate>
    requires 1 <= n && 10 <= x && 10 <= y
    decreases x, y
  {
    if 10 < y then
      RecordsBefore(n, k, x, y - 1)
        + (if InRange(x, y - 1, k) && Record(x, y - 1, n, k) then [CandidateFor(x, y - 1, n)] else [])
    else if 10 < x then
      RecordsBefore(n, k, x - 1, EndRow(k))
    else
      []
  }

  /** The candidates of all record-setting pairs of the scan, in scan order. */
  ghost function Records(n: nat, k: int): seq<Candidate>
    requires 1 <= n
  {
    RecordsBefore(n, k, EndRow(k), 10)
  }

  /** Every listed candidate is that of a record-setting pair before the cursor. */
  lemma {:induction false} RecordsBeforeAt(n: nat, k: int, x: int, y: int, i: int)
    requires 1 <= n && 10 <= x && 10 <= y && 0 <= i < |RecordsBefore(n, k, x, y)|
    ensures var c := RecordsBefore(n, k, x, y)[i];
      && Done(c.x, c.y, k, x, y)
      && c == CandidateFor(c.x, c.y, n)
      && Record(c.x, c.y, n, k)
    decreases x, y
  {
    var rs := RecordsBefore(n, k, x, y);
    if 10 < y {
      var prev := RecordsBefore(n, k, x, y - 1);
      if i < |prev| {
        RecordsBeforeAt(n, k, x, y - 1, i);
        assert rs[i] == prev[i];
      } else {
        ClosestOfBracket(x, y - 1, n);
        assert rs[i] == CandidateFor(x, y - 1, n);
      }
    } else if 10 < x {
      RecordsBeforeAt(n, k, x - 1, EndRow(k), i);
    }
  }

  /** The listed pairs come in scan order and their relative misses strictly decrease. */
  lemma {:induction false} RecordsBeforeOrdered(n: nat, k: int, x: int, y: int, i: int, j: int)
    requires 1 <= n && 10 <= x && 10 <= y && 0 <= i < j < |RecordsBefore(n, k, x, y)|
    ensures var rs := RecordsBefore(n, k, x, y);
      && Before(rs[i].x, rs[i].y, rs[j].x, rs[j].y)
      && rs[j].relativeMiss < rs[i].relativeMiss
    decreases x, y
  {
    var rs := RecordsBefore(n, k, x, y);
    if 10 < y {
      var prev := RecordsBefore(n, k, x, y - 1);
      assert rs[i] == prev[i];
      if j < |prev| {
        RecordsBeforeOrdered(n, k, x, y - 1, i, j);
        assert rs[j] == prev[j];
      } else {
        ClosestOfBracket(x, y - 1, n);
        RecordsBeforeAt(n, k, x, y - 1, i);
        assert rs[j] == CandidateFor(x, y - 1, n);
      }
    } else if 10 < x {
      RecordsBeforeOrdered(n, k, x - 1, EndRow(k), i, j);
    }
  }

  /** Every record-setting pair before the cursor is listed. */
  lemma {:induction false} RecordsBeforeComplete(n: nat, k: int, x: int, y: int, p: int, q: int)
    requires 1 <= n && 10 <= x && 10 <= y
    requires Done(p, q, k, x, y) && Record(p, q, n, k)
    ensures CandidateFor(p, q, n) in RecordsBefore(n, k, x, y)
    decreases x, y
  {
    var rs := RecordsBefore(n, k, x, y);
    if 10 < y {
      var prev := RecordsBefore(n, k, x, y - 1);
      if p == x && q == y - 1 {
        assert rs == prev + [CandidateFor(p, q, n)];
      } else {
        assert Done(p, q, k, x, y - 1);
        RecordsBeforeComplete(n, k, x, y - 1, p, q);
        assert rs == prev + rs[|prev|..];
      }
    } else {
      assert 10 < x && Done(p, q, k, x - 1, EndRow(k));
      assert rs == RecordsBefore(n, k, x - 1, EndRow(k));
      RecordsBeforeComplete(n, k, x - 1, EndRow(k), p, q);
    }
  }

  /** The reported candidates are exactly those of the record-setting pairs. */
  lemma ReportsAreRecords(n: nat, k: int, p: int, q: int)
    requires 1 <= n && InRange(p, q, k)
    ensures CandidateFor(p, q, n) in Records(n, k) <==> Record(p, q, n, k)
  {
    var rs := Records(n, k);
    ClosestOfBracket(p, q, n);
    if Record(p, q, n, k) {
      RecordsBeforeComplete(n, k, EndRow(k), 10, p, q);
    }
    if CandidateFor(p, q, n) in rs {
      var i :| 0 <= i < |rs| && rs[i] == CandidateFor(p, q, n);
      RecordsBeforeAt(n, k, EndRow(k), 10, i);
    }
  }

  /** The reported pairs come in scan order with strictly decreasing relative misses. */
  lemma ReportsDecrease(n: nat, k: int, i: int, j: int)
    requires 1 <= n && 0 <= i < j < |Records(n, k)|
    ensures Before(Records(n, k)[i].x, Records(n, k)[i].y, Records(n, k)[j].x, Records(n, k)[j].y)
    ensures Records(n, k)[j].relativeMiss < Records(n, k)[i].relativeMiss
  {
    RecordsBeforeOrdered(n, k, EndRow(k), 10, i, j);
  }

  /** The state of the scan with the cursor at (x, y). */
  ghost predicate Scanned(best: Option<Candidate>, trace: seq<Candidate>, n: nat, k: int, x: int, y: int)
    requires 1 <= n && 10 <= x && 10 <= y
  {
    && (best.Some? <==> Done(10, 10, k, x, y))
    && trace == RecordsBefore(n, k, x, y)
    && (best.None? ==> trace == [])
    && (best.Some? ==> trace != [] && trace[|trace| - 1] == best.value && BestSoFar(best.value, n, k, x, y))
  }

  /** c beats the best so far, hence every pair before the cursor: (x, y) sets a record. */
  lemma BetterIsRecord(best: Option<Candidate>, trace: seq<Candidate>, n: nat, k: int, x: int, y: int, c: Candidate)
    requires 1 <= n && InRange(x, y, k) && c == CandidateFor(x, y, n)
    requires Scanned(best, trace, n, k, x, y)
    requires best.None? || c.relativeMiss < best.value.relativeMiss
    ensures Record(x, y, n, k)
  {
    forall p, q | InRange(p, q, k) && Before(p, q, x, y)
      ensures c.relativeMiss < CandidateFor(p, q, n).relativeMiss
    {
      assert Done(p, q, k, x, y);
      assert Done(10, 10, k, x, y);
    }
  }

  /** The pair at the cursor replaces the best: the state moves on to (x, y + 1). */
  lemma ScanReplace(best: Option<Candidate>, trace: seq<Candidate>, n: nat, k: int, x: int, y: int, c: Candidate)
    requires 1 <= n && InRange(x, y, k) && c == CandidateFor(x, y, n)
    requires Scanned(best, trace, n, k, x, y)
    requires best.None? || c.relativeMiss < best.value.relativeMiss
    ensures Scanned(Some(c), trace + [c], n, k, x, y + 1)
  {
    BetterIsRecord(best, trace, n, k, x, y, c);
    assert RecordsBefore(n, k, x, y + 1) == trace + [c];
    forall p, q | Done(p, q, k, x, y + 1)
      ensures c.relativeMiss <= CandidateFor(p, q, n).relativeMiss
    {
      if Before(p, q, x, y) {
      }
    }
    assert BestSoFar(c, n, k, x, y + 1);
  }

  /** The pair at the cursor does not beat the best: the state moves on to (x, y + 1). */
  lemma ScanKeep(best: Option<Candidate>, trace: seq<Candidate>, n: nat, k: int, x: int, y: int, c: Candidate)
    requires 1 <= n && InRange(x, y, k) && c == CandidateFor(x, y, n)
    requires Scanned(best, trace, n, k, x, y)
    requires best.Some? && best.value.relativeMiss <= c.relativeMiss
    ensures Scanned(best, trace, n, k, x, y + 1)
  {
    var b := best.value;
    assert !Record(x, y, n, k) by {
      assert InRange(b.x, b.y, k) && Before(b.x, b.y, x, y);
      assert CandidateFor(b.x, b.y, n).relativeMiss <= c.relativeMiss;
    }
    assert RecordsBefore(n, k, x, y + 1) == trace;
    assert BestSoFar(b, n, k, x, y + 1);
  }

  /** Past the last y of row x, the cursor moves to the first y of row x + 1. */
  lemma NextRow(best: Option<Candidate>, trace: seq<Candidate>, n: nat, k: int, x: int, y: int)
    requires 1 <= n && 10 <= x <= k && y == k + 1
    requires Scanned(best, trace, n, k, x, y)
    ensures Scanned(best, trace, n, k, x + 1, 10)
  {
    assert RecordsBefore(n, k, x + 1, 10) == RecordsBefore(n, k, x, k + 1);
  }

  /** When the outer loop stops, the cursor is past the last pair. */
  lemma ScanComplete(best: Option<Candidate>, trace: seq<Candidate>, n: nat, k: int, x: int)
    requires 1 <= n && x == EndRow(k) && Scanned(best, trace, n, k, x, 10)
    ensures best.Some? <==> 10 <= k
    ensures ValidLimit(k) ==> best.Some?
    ensures best.Some? ==> IsBest(best.value, n, k) && best.value.n == n
    ensures trace == Records(n, k)
    ensures best.None? ==> trace == []
    ensures best.Some? ==> trace != [] && trace[|trace| - 1] == best.value
  {
    if best.Some? {
      ClosestOfBracket(best.value.x, best.value.y, n);
    }
  }

  /** The best of a scan is unique: being minimal and first in scan order fixes it. */
  lemma BestIsUnique(c1: Candidate, c2: Candidate, n: nat, k: int)
    requires 1 <= n && IsBest(c1, n, k) && IsBest(c2, n, k)
    ensures c1 == c2
  {
  }

  /** The search: every pair (x, y) with 10 <= x, y <= k, x ascending then y ascending;
      a candidate replaces the best only with a strictly smaller relative miss, and each
      replacement is reported (appended to trace). */
  method FindNearMisses(n: nat, k: int, estimate: (int, nat) -> int)
    returns (best: Option<Candidate>, ghost trace: seq<Candidate>)
    requires ValidExponent(n)
    ensures best.Some? <==> 10 <= k
    ensures ValidLimit(k) ==> best.Some?
    ensures best.Some? ==> IsBest(best.value, n, k) && best.value.n == n
    ensures trace == Records(n, k)
    ensures best.None? ==> trace == []
    ensures best.Some? ==> trace != [] && trace[|trace| - 1] == best.value
  {
    best := None;
    trace := [];
    var x := 10;
    while x <= k
      invariant 10 <= x <= EndRow(k)
      invariant Scanned(best, trace, n, k, x, 10)
    {
      var y := 10;
      while y <= k
        invariant 10 <= y <= k + 1
        invariant Scanned(best, trace, n, k, x, y)
      {
        var c := Evaluate(x, y, n, estimate);
        if best.None? || c.relativeMiss < best.value.relativeMiss {
          ScanReplace(best, trace, n, k, x, y, c);
          best := Some(c);
          trace := trace + [c];
        } else {
          ScanKeep(best, trace, n, k, x, y, c);
        }
        y := y + 1;
      }
      NextRow(best, trace, n, k, x, y);
      x := x + 1;
    }
    ScanComplete(best, trace, n, k, x);
  }
}
