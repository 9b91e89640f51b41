/** The latency histogram and its percentile, against the order statistic of the
    readings themselves. */
module Bench {
  import opened Machine

  const BUCKETS: nat := 256

  // ---- order statistics of a stream ----

  function CountLess(rs: seq<nat>, x: nat): (c: nat)
    ensures c <= |rs|
  {
    if rs == [] then 0
    else
      var k := |rs| - 1;
      CountLess(rs[..k], x) + if rs[k] < x then 1 else 0
  }

  /** x is the target-th smallest reading, counted from 0. */
  predicate IsNth(rs: seq<nat>, target: nat, x: nat) {
    CountLess(rs, x) <= target < CountLess(rs, x + 1)
  }

  lemma {:induction false} CountMonotone(rs: seq<nat>, x: nat, y: nat)
    requires x <= y
    ensures CountLess(rs, x) <= CountLess(rs, y)
  {
    if rs != [] {
      CountMonotone(rs[..|rs| - 1], x, y);
    }
  }

  lemma {:induction false} NthOccurs(rs: seq<nat>, x: nat)
    requires CountLess(rs, x) < CountLess(rs, x + 1)
    ensures x in rs
  {
    if rs != [] && rs[|rs| - 1] != x {
      NthOccurs(rs[..|rs| - 1], x);
    }
  }

  lemma {:induction false} CountAll(rs: seq<nat>, x: nat)
    requires forall i :: 0 <= i < |rs| ==> rs[i] < x
    ensures CountLess(rs, x) == |rs|
  {
    if rs != [] {
      CountAll(rs[..|rs| - 1], x);
    }
  }

  lemma {:induction false} CountConcat(a: seq<nat>, b: seq<nat>, x: nat)
    ensures CountLess(a + b, x) == CountLess(a, x) + CountLess(b, x)
    decreases |b|
  {
    if b == [] {
      assert a + b == a;
    } else {
      var k := |b| - 1;
      assert (a + b)[..|a + b| - 1] == a + b[..k];
      CountConcat(a, b[..k], x);
    }
  }

  lemma Drop(b: seq<nat>, i: nat)
    requires i < |b|
    ensures multiset(b[..i] + b[i + 1..]) == multiset(b) - multiset{b[i]}
  {
    assert b == b[..i] + [b[i]] + b[i + 1..];
  }

  lemma CountDrop(b: seq<nat>, i: nat, x: nat)
    requires i < |b|
    ensures CountLess(b, x) == CountLess(b[..i] + b[i + 1..], x) + if b[i] < x then 1 else 0
  {
    CountConcat(b[..i], b[i + 1..], x);
    CountConcat(b[..i + 1], b[i + 1..], x);
    assert b[..i + 1] + b[i + 1..] == b;
    assert b[..i + 1][..i] == b[..i];
  }

  /** Counting does not depend on the order of the readings. */
  lemma {:induction false} CountPermuted(a: seq<nat>, b: seq<nat>, x: nat)
    requires multiset(a) == multiset(b)
    ensures CountLess(a, x) == CountLess(b, x)
    decreases |a|
  {
    if a == [] {
      assert |multiset(b)| == 0;
    } else {
      var k := |a| - 1;
      assert a[k] in multiset(b);
      var i :| 0 <= i < |b| && b[i] == a[k];
      Drop(a, k);
      assert a[..k] + a[k + 1..] == a[..k];
      Drop(b, i);
      CountPermuted(a[..k], b[..i] + b[i + 1..], x);
      CountDrop(b, i, x);
    }
  }

  predicate NonDecreasing(s: seq<nat>) {
    forall i, j :: 0 <= i < j < |s| ==> s[i] <= s[j]
  }

  lemma {:induction false} CountSorted(s: seq<nat>, t: nat)
    requires NonDecreasing(s) && t < |s|
    ensures CountLess(s, s[t]) <= t < CountLess(s, s[t] + 1)
  {
    assert s == s[..t + 1] + s[t + 1..];
    CountConcat(s[..t + 1], s[t + 1..], s[t] + 1);
    CountAll(s[..t + 1], s[t] + 1);
    assert s == s[..t] + s[t..];
    CountConcat(s[..t], s[t..], s[t]);
    CountNone(s[t..], s[t]);
  }

  lemma {:induction false} CountNone(rs: seq<nat>, x: nat)
    requires forall i :: 0 <= i < |rs| ==> rs[i] >= x
    ensures CountLess(rs, x) == 0
  {
    if rs != [] {
      CountNone(rs[..|rs| - 1], x);
    }
  }

  /** The predicate picks out the element a sort would put at that position. */
  lemma NthIsSortedElement(rs: seq<nat>, s: seq<nat>, t: nat)
    requires multiset(rs) == multiset(s) && NonDecreasing(s) && t < |s|
    ensures IsNth(rs, t, s[t])
  {
    CountPermuted(rs, s, s[t]);
    CountPermuted(rs, s, s[t] + 1);
    CountSorted(s, t);
  }

  // ---- the histogram ----

  function Cum(hist: seq<nat>, b: nat): nat
    requires b <= |hist|
  {
    if b == 0 then 0 else Cum(hist, b - 1) + hist[b - 1]
  }

  /** The histogram counts the readings of each 8-cycle bucket. */
  ghost predicate Counts(hist: seq<nat>, rs: seq<nat>) {
    |hist| == BUCKETS && forall b :: 0 <= b < BUCKETS ==> hist[b] == CountLess(rs, 8 * b + 8) - CountLess(rs, 8 * b)
  }

  lemma {:induction false} CumCounts(hist: seq<nat>, rs: seq<nat>, b: nat)
    requires Counts(hist, rs) && b <= BUCKETS
    ensures Cum(hist, b) == CountLess(rs, 8 * b)
    decreases b
  {
    if b == 0 {
      CountNone(rs, 0);
    } else {
      CumCounts(hist, rs, b - 1);
      assert hist[b - 1] == CountLess(rs, 8 * (b - 1) + 8) - CountLess(rs, 8 * (b - 1));
    }
  }

  /** The bucket holding the target-th reading, from b on. */
  function Locate(hist: seq<nat>, target: nat, b: nat): (r: nat)
    requires b <= |hist|
    ensures b <= r <= |hist| && (r < |hist| ==> Cum(hist, r + 1) > target)
    ensures forall c :: b < c <= r ==> Cum(hist, c) <= target
    decreases |hist| - b
  {
    if b == |hist| then b else if Cum(hist, b) + hist[b] > target then b else Locate(hist, target, b + 1)
  }

  /** The value d readings into bucket b, which holds h of them. */
  function Within(b: nat, d: nat, h: nat): nat
    requires h > 0
  {
    8 * b + 8 * d / h
  }

  function Raw(hist: seq<nat>, target: nat): nat {
    var b := Locate(hist, target, 0);
    if b == |hist| || hist[b] == 0 || target < Cum(hist, b) then 0 else Within(b, target - Cum(hist, b), hist[b])
  }

  lemma RawFound(hist: seq<nat>, target: nat, b: nat)
    requires b < |hist| && Locate(hist, target, 0) == b && Cum(hist, b) <= target && hist[b] > 0
    ensures Raw(hist, target) == Within(b, target - Cum(hist, b), hist[b])
  {
  }

  function Clamp(v: nat, lo: nat, hi: nat): nat {
    var w := if v < lo then lo else v;
    if w > hi then hi else w
  }

  function Percentile(hist: seq<nat>, lo: nat, hi: nat, target: nat): nat {
    Clamp(Raw(hist, target), lo, hi)
  }

  lemma LocateCum(hist: seq<nat>, target: nat)
    requires target < Cum(hist, |hist|)
    ensures var b := Locate(hist, target, 0); b < |hist| && Cum(hist, b) <= target < Cum(hist, b) + hist[b]
  {
    var b := Locate(hist, target, 0);
    assert b > 0 ==> Cum(hist, b) <= target;
  }

  lemma RawInBucket(hist: seq<nat>, target: nat)
    requires target < Cum(hist, |hist|)
    ensures var b := Locate(hist, target, 0); b < |hist| && 8 * b <= Raw(hist, target) <= 8 * b + 7
  {
    LocateCum(hist, target);
    var b := Locate(hist, target, 0);
    var d, h := target - Cum(hist, b), hist[b];
    DivBound(d, h);
  }

  lemma TimesMonotone(a: int, b: int, h: nat)
    requires a <= b
    ensures a * h <= b * h
  {
  }

  lemma DivBound(d: nat, h: nat)
    requires d < h
    ensures 0 <= 8 * d / h <= 7
  {
    assert 8 * d < 8 * h;
    var q := 8 * d / h;
    assert q * h <= 8 * d;
    if q >= 8 {
      TimesMonotone(8, q, h);
      assert false;
    }
  }

  lemma DivMonotone(d: nat, e: nat, h: nat)
    requires d <= e && h > 0
    ensures 8 * d / h <= 8 * e / h
  {
    var p, q := 8 * d / h, 8 * e / h;
    assert p * h <= 8 * d < (p + 1) * h && q * h <= 8 * e < (q + 1) * h;
    if p > q {
      TimesMonotone(q + 1, p, h);
      assert false;
    }
  }

  lemma CumTotal(hist: seq<nat>, rs: seq<nat>)
    requires Counts(hist, rs) && forall i :: 0 <= i < |rs| ==> rs[i] < 8 * BUCKETS
    ensures Cum(hist, |hist|) == |rs|
  {
    CumCounts(hist, rs, BUCKETS);
    CountAll(rs, 8 * BUCKETS);
  }

  /** The bucket found holds the true order statistic. */
  lemma NthBucket(hist: seq<nat>, rs: seq<nat>, target: nat, x: nat)
    requires Counts(hist, rs) && target < Cum(hist, |hist|) && IsNth(rs, target, x)
    ensures var b := Locate(hist, target, 0); 8 * b <= x <= 8 * b + 7
  {
    LocateCum(hist, target);
    var b := Locate(hist, target, 0);
    CumCounts(hist, rs, b);
    CumCounts(hist, rs, b + 1);
    if x < 8 * b {
      CountMonotone(rs, x + 1, 8 * b);
    }
    if x > 8 * b + 7 {
      CountMonotone(rs, 8 * b + 8, x);
    }
  }

  /** calc_percentile is within 7 cycles of the true order statistic. */
  lemma PercentileClose(hist: seq<nat>, rs: seq<nat>, lo: nat, hi: nat, target: nat, x: nat)
    requires Counts(hist, rs) && target < |rs| && IsNth(rs, target, x)
    requires forall i :: 0 <= i < |rs| ==> lo <= rs[i] <= hi && rs[i] < 8 * BUCKETS
    ensures -7 <= Percentile(hist, lo, hi, target) - x <= 7
  {
    CumTotal(hist, rs);
    RawInBucket(hist, target);
    NthBucket(hist, rs, target, x);
    NthOccurs(rs, x);
  }

  lemma LocateMonotone(hist: seq<nat>, s: nat, t: nat)
    requires s <= t < Cum(hist, |hist|)
    ensures Locate(hist, s, 0) <= Locate(hist, t, 0)
  {
    var b, c := Locate(hist, s, 0), Locate(hist, t, 0);
    LocateCum(hist, t);
    assert forall x :: 0 < x <= b ==> Cum(hist, x) <= s;
    assert Cum(hist, c + 1) > s;
  }

  /** calc_percentile is monotone in its target. */
  lemma PercentileMonotone(hist: seq<nat>, lo: nat, hi: nat, s: nat, t: nat)
    requires s <= t < Cum(hist, |hist|)
    ensures Percentile(hist, lo, hi, s) <= Percentile(hist, lo, hi, t)
  {
    RawInBucket(hist, s);
    RawInBucket(hist, t);
    LocateCum(hist, s);
    LocateCum(hist, t);
    var b, c := Locate(hist, s, 0), Locate(hist, t, 0);
    LocateMonotone(hist, s, t);
    if b == c {
      DivMonotone(s - Cum(hist, b), t - Cum(hist, b), hist[b]);
    }
  }

  function Total(rs: seq<nat>): nat {
    if rs == [] then 0 else Total(rs[..|rs| - 1]) + rs[|rs| - 1]
  }

  lemma {:induction false} TotalBound(rs: seq<nat>)
    requires forall i :: 0 <= i < |rs| ==> rs[i] < 8 * BUCKETS
    ensures Total(rs) <= 2048 * |rs|
  {
    if rs != [] {
      TotalBound(rs[..|rs| - 1]);
    }
  }

  lemma TotalNext(rs: seq<nat>, r: nat)
    ensures Total(rs + [r]) == Total(rs) + r
  {
    assert (rs + [r])[..|rs|] == rs;
  }

  /** The least and the greatest reading, or the initial marks while there is none. */
  predicate Extremes(rs: seq<nat>, lo: nat, hi: nat) {
    if rs == [] then lo == 0xFFFF_FFFF && hi == 0
    else lo in rs && hi in rs && forall i :: 0 <= i < |rs| ==> lo <= rs[i] <= hi
  }

  // ---- the code ----

  class Result {
    var hist: seq<nat>
    var overflow: nat
    var n: nat
    var sum: nat
    var min: nat
    var max: nat
    /** the readings so far */
    ghost var readings: seq<nat>

    ghost predicate Valid()
      reads this
    {
      && |hist| == BUCKETS && |readings| <= 65535
      && (forall i :: 0 <= i < |readings| ==> min <= readings[i] <= max && readings[i] < 8 * BUCKETS)
      && Counts(hist, readings) && n == |readings|
      && sum == Total(readings) && Extremes(readings, min, max)
    }

    constructor ()
      ensures Valid() && readings == [] && overflow == 0
    {
      hist, overflow, n, sum, min, max := seq(BUCKETS, _ => 0), 0, 0, 0, 0xFFFF_FFFF, 0;
      readings := [];
    }

    /** update_result, on any 32-bit reading */
    method Update(reading: nat)
      requires reading < U32 && |hist| == BUCKETS
      modifies this
      ensures readings == old(readings) + [reading]
      ensures var b := Bucket(reading);
              hist == old(hist)[b := (old(hist)[b] + 1) % 65536] && n == (old(n) + 1) % U32
              && sum == (old(sum) + reading) % U32
      ensures max == (if reading > old(max) then reading else old(max))
      ensures min == (if reading < old(min) then reading else old(min))
      ensures overflow == if reading / 8 % 65536 >= BUCKETS then (old(overflow) + 1) % 65536 else old(overflow)
    {
      var bucket := reading / 8 % 65536;
      if bucket >= BUCKETS {
        overflow := (overflow + 1) % 65536;
        bucket := BUCKETS - 1;
      }
      hist := hist[bucket := (hist[bucket] + 1) % 65536];
      n := (n + 1) % U32;
      sum := (sum + reading) % U32;
      if reading > max {
        max := reading;
      }
      if reading < min {
        min := reading;
      }
      readings := readings + [reading];
    }

    /** A reading inside the histogram's range, while the counters have room. */
    method Record(reading: nat)
      requires Valid() && reading < 8 * BUCKETS && |readings| < 65535
      modifies this
      ensures Valid() && readings == old(readings) + [reading] && overflow == old(overflow)
    {
      ghost var h, rs := hist, readings;
      BucketBound(hist, readings, reading / 8);
      AddReading(hist, readings, reading);
      Update(reading);
      InRange(reading);
      SmallMod(h[reading / 8] + 1, 65536);
      SmallMod(|rs| + 1, U32);
      TotalBound(rs);
      TotalNext(rs, reading);
      SmallMod(Total(rs) + reading, U32);
    }

    /** The bucket loop of calc_percentile. */
    method Scan(target: nat) returns (val: nat)
      requires target < Cum(hist, |hist|)
      ensures val == Raw(hist, target)
    {
      var cum := 0;
      val := 0;
      var b := 0;
      while b < |hist|
        invariant 0 <= b <= |hist| && cum == Cum(hist, b) && val == 0
        invariant Locate(hist, target, 0) == Locate(hist, target, b)
        decreases |hist| - b
      {
        if cum + hist[b] > target {
          LocateCum(hist, target);
          RawFound(hist, target, b);
          val := Within(b, target - cum, hist[b]);
          return;
        }
        cum := cum + hist[b];
        b := b + 1;
      }
      LocateCum(hist, target);
    }

    /** calc_percentile */
    method CalcPercentile(target: nat) returns (val: nat)
      requires Valid() && target < n
      ensures val == Percentile(hist, min, max, target)
      ensures forall x: nat :: IsNth(readings, target, x) ==> -7 <= val - x <= 7
    {
      CumTotal(hist, readings);
      val := Scan(target);
      if val < min {
        val := min;
      }
      if val > max {
        val := max;
      }
      forall x: nat | IsNth(readings, target, x) ensures -7 <= val - x <= 7 {
        PercentileClose(hist, readings, min, max, target, x);
      }
    }
  }

  /** The bucket update_result counts a reading in. */
  function Bucket(reading: nat): (b: nat)
    ensures b < BUCKETS
  {
    var b := reading / 8 % 65536;
    if b >= BUCKETS then BUCKETS - 1 else b
  }

  lemma InRange(reading: nat)
    requires reading < 8 * BUCKETS
    ensures Bucket(reading) == reading / 8 && reading / 8 % 65536 < BUCKETS
  {
    SmallMod(reading / 8, 65536);
  }

  lemma SmallMod(x: nat, m: nat)
    requires x < m
    ensures x % m == x
  {
  }

  lemma BucketBound(hist: seq<nat>, rs: seq<nat>, b: nat)
    requires Counts(hist, rs) && b < BUCKETS
    ensures hist[b] <= |rs|
  {
  }

  lemma AddReading(hist: seq<nat>, rs: seq<nat>, r: nat)
    requires Counts(hist, rs) && r < 8 * BUCKETS
    ensures Counts(hist[r / 8 := hist[r / 8] + 1], rs + [r])
  {
    var h1, rs1 := hist[r / 8 := hist[r / 8] + 1], rs + [r];
    assert rs1[..|rs|] == rs;
    forall b | 0 <= b < BUCKETS ensures h1[b] == CountLess(rs1, 8 * b + 8) - CountLess(rs1, 8 * b) {
      assert hist[b] == CountLess(rs, 8 * b + 8) - CountLess(rs, 8 * b);
    }
  }
}
