/**
 * Summary statistics shared by the client and the server reports: the ascending
 * sort (LINQ `Order()` and `List.Sort()`), the threshold count, the average and
 * the messages-per-second estimate.
 */
module Stats {

  /** Latencies at or above this many milliseconds are counted as high. */
  const HighLatency: real := 0.1

  predicate Ascending(s: seq<real>) {
    forall i, j :: 0 <= i <= j < |s| ==> s[i] <= s[j]
  }

  /** Inserts `x` into an ascending sequence, before the first element not below it. */
  function Insert(x: real, s: seq<real>): (r: seq<real>)
    ensures multiset(r) == multiset(s) + multiset{x}
    ensures |r| == |s| + 1
    ensures r[0] == x || (|s| > 0 && r[0] == s[0])
    ensures Ascending(s) ==> Ascending(r)
  {
    if s == [] || x <= s[0] then [x] + s
    else
      assert s == [s[0]] + s[1..];
      [s[0]] + Insert(x, s[1..])
  }

  /** An ascending permutation of `s` (insertion sort). */
  function SortAscending(s: seq<real>): (r: seq<real>)
    ensures Ascending(r)
    ensures multiset(r) == multiset(s)
    ensures |r| == |s|
  {
    if s == [] then []
    else
      assert s == [s[0]] + s[1..];
      Insert(s[0], SortAscending(s[1..]))
  }

  /** The number of elements of `s` that are at least `threshold`. */
  function CountAtLeast(s: seq<real>, threshold: real): (n: nat)
    ensures n <= |s|
    ensures n == 0 <==> forall k :: 0 <= k < |s| ==> s[k] < threshold
    ensures n == |s| <==> forall k :: 0 <= k < |s| ==> s[k] >= threshold
  {
    if s == [] then 0
    else (if s[0] >= threshold then 1 else 0) + CountAtLeast(s[1..], threshold)
  }

  lemma {:induction false} CountInsert(x: real, s: seq<real>, threshold: real)
    ensures CountAtLeast(Insert(x, s), threshold) == CountAtLeast([x] + s, threshold)
  {
    if s != [] && x > s[0] {
      CountInsert(x, s[1..], threshold);
      assert ([s[0]] + Insert(x, s[1..]))[1..] == Insert(x, s[1..]);
      assert ([x] + s)[1..] == s;
      assert ([x] + s[1..])[1..] == s[1..];
    }
  }

  /** Sorting does not change how many elements reach a threshold. */
  lemma {:induction false} CountSorted(s: seq<real>, threshold: real)
    ensures CountAtLeast(SortAscending(s), threshold) == CountAtLeast(s, threshold)
  {
    if s != [] {
      CountSorted(s[1..], threshold);
      CountInsert(s[0], SortAscending(s[1..]), threshold);
      assert ([s[0]] + SortAscending(s[1..]))[1..] == SortAscending(s[1..]);
    }
  }

  /** Every element of `s` lies between the first and the last element of its sorted copy,
      and both of those are elements of `s`. */
  lemma SortedEnds(s: seq<real>)
    requires |s| > 0
    ensures SortAscending(s)[0] in s && SortAscending(s)[|s| - 1] in s
    ensures forall k :: 0 <= k < |s| ==> SortAscending(s)[0] <= s[k] <= SortAscending(s)[|s| - 1]
  {
    var r := SortAscending(s);
    assert r[0] in multiset(r) && r[|r| - 1] in multiset(r);
    forall k | 0 <= k < |s|
      ensures r[0] <= s[k] <= r[|r| - 1]
    {
      assert s[k] in multiset(s);
      var j :| 0 <= j < |r| && r[j] == s[k];
    }
  }

  function Sum(s: seq<real>): real {
    if s == [] then 0.0 else s[0] + Sum(s[1..])
  }

  /** LINQ `Average`, on a non-empty sequence. */
  function Mean(s: seq<real>): (m: real)
    requires |s| > 0
    ensures m * |s| as real == Sum(s)
  {
    Sum(s) / |s| as real
  }

  lemma {:induction false} SumWithin(s: seq<real>, lo: real, hi: real)
    requires forall k :: 0 <= k < |s| ==> lo <= s[k] <= hi
    ensures |s| as real * lo <= Sum(s) <= |s| as real * hi
  {
    if s != [] {
      SumWithin(s[1..], lo, hi);
    }
  }

  /** The average of values that all lie in [lo, hi] lies in [lo, hi]. */
  lemma MeanWithin(s: seq<real>, lo: real, hi: real)
    requires |s| > 0
    requires forall k :: 0 <= k < |s| ==> lo <= s[k] <= hi
    ensures lo <= Mean(s) <= hi
  {
    SumWithin(s, lo, hi);
    var n := |s| as real;
    assert Mean(s) * n == Sum(s);
  }

  /** A double quotient `count / seconds`: a finite rate, or what IEEE division by zero gives. */
  datatype Throughput = PerSecond(rate: real) | PositiveInfinity | NotANumber

  function EstimateRate(count: nat, seconds: real): (t: Throughput)
    ensures t.PerSecond? <==> seconds != 0.0
    ensures t.NotANumber? <==> seconds == 0.0 && count == 0
  {
    if seconds == 0.0 then (if count == 0 then NotANumber else PositiveInfinity)
    else PerSecond(count as real / seconds)
  }

  /** A finite rate is the one that yields `count` over `seconds`. */
  lemma EstimateRateSound(count: nat, seconds: real)
    ensures EstimateRate(count, seconds).PerSecond? ==>
      EstimateRate(count, seconds).rate * seconds == count as real
  {
  }
}
