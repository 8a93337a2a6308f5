/**
 * The per-station arrival statistics of StationWait.h: a record of
 * `unsigned int` fields that `train_arrive` (StationWait.h:18-28) updates
 * through a pointer. The running minimum and maximum are taken over the raw
 * `time` arguments.
 */
module StationWaitStats {
  import opened CTypes

  /** `a - b` in `unsigned int` arithmetic: the value that, added to `b` modulo 2^32, gives `a`. */
  function Sub32(a: uint32, b: uint32): (r: uint32)
    ensures (r as int + b as int) % UINT32_MODULUS == a as int
    ensures b <= a ==> r as int == a as int - b as int
  {
    ((a as int - b as int) % UINT32_MODULUS) as uint32
  }

  /** `n + 1` in `unsigned int` arithmetic (the `++` of StationWait.h:21). */
  function Inc32(n: uint32): (r: uint32)
    ensures r as int == (n as int + 1) % UINT32_MODULUS
    ensures n as int < UINT32_MAX ==> r as int == n as int + 1
    ensures n as int == UINT32_MAX ==> r == 0
  {
    if n as int == UINT32_MAX then 0 else n + 1
  }

  /** The running minimum after `times`, from the default 0xFFFFFFFF (StationWait.h:12, 27). */
  function MinOf(times: seq<uint32>): (r: uint32)
    ensures times != [] ==> r <= times[|times| - 1]
  {
    if times == [] then UINT32_MAX as uint32
    else
      var m := MinOf(times[..|times| - 1]);
      var t := times[|times| - 1];
      if t < m then t else m
  }

  /** The running maximum after `times`, from the default 0 (StationWait.h:13, 26). */
  function MaxOf(times: seq<uint32>): (r: uint32)
    ensures times != [] ==> times[|times| - 1] <= r
  {
    if times == [] then 0
    else
      var m := MaxOf(times[..|times| - 1]);
      var t := times[|times| - 1];
      if t > m then t else m
  }

  /** The running minimum is the least of the times, and one of them. */
  lemma {:induction false} MinOfIsMinimum(times: seq<uint32>)
    ensures forall k :: 0 <= k < |times| ==> MinOf(times) <= times[k]
    ensures times != [] ==> MinOf(times) in times
  {
    if times != [] {
      var init := times[..|times| - 1];
      MinOfIsMinimum(init);
      forall k | 0 <= k < |times| - 1 ensures times[k] == init[k] { }
      assert times[|times| - 1] in times;
    }
  }

  /** The running maximum is the greatest of the times, and one of them. */
  lemma {:induction false} MaxOfIsMaximum(times: seq<uint32>)
    ensures forall k :: 0 <= k < |times| ==> times[k] <= MaxOf(times)
    ensures times != [] ==> MaxOf(times) in times
  {
    if times != [] {
      var init := times[..|times| - 1];
      MaxOfIsMaximum(init);
      forall k | 0 <= k < |times| - 1 ensures times[k] == init[k] { }
      assert times[|times| - 1] in times;
    }
  }

  /** After one or more arrivals the minimum is at most the maximum. */
  lemma {:induction false} MinAtMostMax(times: seq<uint32>)
    requires times != []
    ensures MinOf(times) <= MaxOf(times)
  {
    MinOfIsMinimum(times);
    MaxOfIsMaximum(times);
  }

  /** Across further arrivals the maximum never decreases and the minimum never increases. */
  lemma {:induction false} ExtremesMonotone(times: seq<uint32>, later: seq<uint32>)
    ensures MaxOf(times) <= MaxOf(times + later)
    ensures MinOf(times + later) <= MinOf(times)
    decreases |later|
  {
    if later == [] {
      assert times + later == times;
    } else {
      var init := later[..|later| - 1];
      ExtremesMonotone(times, init);
      var all := times + later;
      assert all[..|all| - 1] == times + init;
      assert MaxOf(times + init) <= MaxOf(all) && MinOf(all) <= MinOf(times + init);
    }
  }

  /** Counting modulo 2^32 one step at a time agrees with reducing the full count. */
  lemma WrappedCountStep(count: uint32, n: nat)
    requires count as int == n % UINT32_MODULUS
    ensures Inc32(count) as int == (n + 1) % UINT32_MODULUS
  {
  }

  /** A StationWait record without its float average (see MeanUpdate). */
  class StationWait {
    var minWaitTime: uint32
    var maxWaitTime: uint32
    var numTrainsArrive: uint32
    var prevTimeStamp: uint32
    /** The `time` arguments of every `train_arrive` call so far. */
    ghost var arrivals: seq<uint32>

    /** The fields summarise the arrivals. */
    ghost predicate Valid()
      reads this
    {
      numTrainsArrive as int == |arrivals| % UINT32_MODULUS &&
      minWaitTime == MinOf(arrivals) &&
      maxWaitTime == MaxOf(arrivals) &&
      prevTimeStamp == (if arrivals == [] then 0 else arrivals[|arrivals| - 1])
    }

    /** The defaults written as comments in StationWait.h:11-15. */
    constructor ()
      ensures Valid() && arrivals == []
      ensures minWaitTime as int == UINT32_MAX && maxWaitTime == 0
      ensures numTrainsArrive == 0 && prevTimeStamp == 0
    {
      minWaitTime := UINT32_MAX as uint32;
      maxWaitTime := 0;
      numTrainsArrive := 0;
      prevTimeStamp := 0;
      arrivals := [];
    }

    /**
     * train_arrive (StationWait.h:18-28). The difference from the previous
     * time stamp is computed with wrap-around and then discarded: no field
     * depends on it.
     */
    method TrainArrive(time: uint32)
      requires Valid()
      modifies this
      ensures Valid() && arrivals == old(arrivals) + [time]
      ensures prevTimeStamp == time
      ensures numTrainsArrive == Inc32(old(numTrainsArrive))
      ensures maxWaitTime == if time > old(maxWaitTime) then time else old(maxWaitTime)
      ensures minWaitTime == if time < old(minWaitTime) then time else old(minWaitTime)
    {
      WrappedCountStep(numTrainsArrive, |arrivals|);
      var timeDiff := Sub32(time, prevTimeStamp);
      prevTimeStamp := time;
      numTrainsArrive := Inc32(numTrainsArrive);
      maxWaitTime := if time > maxWaitTime then time else maxWaitTime;
      minWaitTime := if time < minWaitTime then time else minWaitTime;
      ghost var prev := arrivals;
      arrivals := arrivals + [time];
      assert arrivals[..|arrivals| - 1] == prev;
      assert MinOf(arrivals) == (if time < MinOf(prev) then time else MinOf(prev));
      assert MaxOf(arrivals) == (if time > MaxOf(prev) then time else MaxOf(prev));
    }
  }

  /**
   * The average update of StationWait.h:24-25 over the reals, for the n-th
   * arrival: the old average weighted by (n - 1) / n plus time / n.
   */
  function MeanUpdate(average: real, n: nat, time: real): (r: real)
    requires n >= 1
    ensures r * (n as real) == average * ((n as real) - 1.0) + time
  {
    var m := n as real;
    assert (average * (m - 1.0) / m + time / m) * m == average * (m - 1.0) + time;
    average * (m - 1.0) / m + time / m
  }

  /** The average after `times`, from the default 0, with an unbounded count. */
  function AverageAfter(times: seq<uint32>): (r: real)
    ensures r * (|times| as real) == Sum(times)
  {
    if times == [] then 0.0
    else MeanUpdate(AverageAfter(times[..|times| - 1]), |times|, times[|times| - 1] as real)
  }

  function Sum(times: seq<uint32>): real
  {
    if times == [] then 0.0 else Sum(times[..|times| - 1]) + times[|times| - 1] as real
  }

  /** Dividing by a non-zero count undoes multiplying by it. */
  lemma {:induction false} CancelCount(a: real, total: real, n: real)
    requires n != 0.0 && a * n == total
    ensures a == total / n
  {
  }

  /** Over the reals the incremental average is exactly the arithmetic mean of the times. */
  lemma {:induction false} AverageIsMean(times: seq<uint32>)
    requires times != []
    ensures AverageAfter(times) == Sum(times) / (|times| as real)
  {
    var a := AverageAfter(times);
    assert a * (|times| as real) == Sum(times);
    CancelCount(a, Sum(times), |times| as real);
  }
}
