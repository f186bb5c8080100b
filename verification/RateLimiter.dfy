/**
  The byte-rate limiter of a proxy: each call is granted a send time in nanoseconds and pushes the
  next free time forward by the (rounded down) time its bytes take at the configured rate.
 */
module RateLimiting {

  const NANOS: int := 1_000_000_000

  class RateLimiter {
    const bytesPerSecond: int
    var nextSendTimeNs: int

    constructor (rate: int, now: int)
      ensures bytesPerSecond == rate && nextSendTimeNs == now
    {
      bytesPerSecond, nextSendTimeNs := rate, now;
    }

    /** The delay before the caller may send; a rate of zero or less means no limit. */
    method Schedule(bytes: nat, now: int) returns (delay: int)
      modifies this
      ensures bytesPerSecond <= 0 ==> delay == 0 && nextSendTimeNs == old(nextSendTimeNs)
      ensures bytesPerSecond > 0 ==>
                && delay >= 0
                && now + delay == SendTime(old(nextSendTimeNs), Call(bytes, now))
                && nextSendTimeNs == After(bytesPerSecond, old(nextSendTimeNs), Call(bytes, now))
    {
      if bytesPerSecond <= 0 { return 0; }
      var sendTime := now;
      if nextSendTimeNs > now { sendTime := nextSendTimeNs; }
      var duration := bytes * NANOS / bytesPerSecond;
      nextSendTimeNs := sendTime + duration;
      delay := sendTime - now;
      if delay < 0 { delay := 0; }
    }
  }

  // ---------------------------------------------------------------- runs

  datatype Call = Call(bytes: nat, now: int)

  function SendTime(free: int, c: Call): int {
    if free > c.now then free else c.now
  }

  /** Both operands are non-negative, so truncation is rounding down. */
  function After(rate: int, free: int, c: Call): int
    requires rate > 0
  {
    SendTime(free, c) + c.bytes * NANOS / rate
  }

  /** The next free time after a run of calls. */
  function FreeAfter(rate: int, start: int, calls: seq<Call>): int
    requires rate > 0
  {
    if calls == [] then start
    else After(rate, FreeAfter(rate, start, calls[..|calls| - 1]), calls[|calls| - 1])
  }

  /** The send time granted to call `i` of a run. */
  function Granted(rate: int, start: int, calls: seq<Call>, i: nat): int
    requires rate > 0 && i < |calls|
  {
    SendTime(FreeAfter(rate, start, calls[..i]), calls[i])
  }

  function Bytes(calls: seq<Call>, k: nat, n: nat): nat
    requires k <= n <= |calls|
    decreases n - k
  {
    if k == n then 0 else Bytes(calls, k, n - 1) + calls[n - 1].bytes
  }

  lemma CostBounds(rate: int, bytes: nat)
    requires rate > 0
    ensures 0 <= bytes * NANOS / rate
    ensures rate * (bytes * NANOS / rate) <= bytes * NANOS < rate * (bytes * NANOS / rate + 1)
  {
    var n := bytes * NANOS;
    assert n == rate * (n / rate) + n % rate;
  }

  lemma MulMonotone(rate: int, x: int, y: int)
    requires rate > 0 && x <= y
    ensures rate * x <= rate * y
  {
  }

  lemma MulDistributes(rate: int, x: int, y: int)
    ensures rate * (x + y) == rate * x + rate * y
  {
  }

  /** One step of the schedule: the next grant is at least the cost of this call later. */
  lemma NextGrant(rate: int, start: int, calls: seq<Call>, i: nat)
    requires rate > 0 && i + 1 < |calls|
    ensures Granted(rate, start, calls, i + 1) >= Granted(rate, start, calls, i) + calls[i].bytes * NANOS / rate
    ensures Granted(rate, start, calls, i + 1) == calls[i + 1].now ||
            Granted(rate, start, calls, i + 1) == Granted(rate, start, calls, i) + calls[i].bytes * NANOS / rate
  {
    assert calls[..i + 1][..i] == calls[..i];
  }

  /** Granted send times never decrease, whatever the clock does. */
  lemma {:induction false} GrantsNeverDecrease(rate: int, start: int, calls: seq<Call>, k: nat, n: nat)
    requires rate > 0 && k <= n < |calls|
    ensures Granted(rate, start, calls, k) <= Granted(rate, start, calls, n)
    decreases n - k
  {
    if k < n {
      GrantsNeverDecrease(rate, start, calls, k, n - 1);
      NextGrant(rate, start, calls, n - 1);
      CostBounds(rate, calls[n - 1].bytes);
    }
  }

  /** Between two grants no more bytes pass than the rate allows, up to one nanosecond per call. */
  lemma {:induction false} RateIsKept(rate: int, start: int, calls: seq<Call>, k: nat, n: nat)
    requires rate > 0 && k < n < |calls|
    ensures Bytes(calls, k, n) * 1_000_000_000 <
            rate * (Granted(rate, start, calls, n) - Granted(rate, start, calls, k) + n - k)
    decreases n - k
  {
    var s, t := Granted(rate, start, calls, n - 1), Granted(rate, start, calls, n);
    var cost := calls[n - 1].bytes * NANOS / rate;
    NextGrant(rate, start, calls, n - 1);
    CostBounds(rate, calls[n - 1].bytes);
    MulMonotone(rate, cost + 1, t - s + 1);
    if k < n - 1 {
      RateIsKept(rate, start, calls, k, n - 1);
      var r := s - Granted(rate, start, calls, k) + (n - 1) - k;
      MulDistributes(rate, r, t - s + 1);
      assert r + (t - s + 1) == t - Granted(rate, start, calls, k) + n - k;
    }
  }

  /** Nor is anything held back for longer than the rate demands: counted from the last call that
      was granted its own clock reading, or else from the start of the run, the grant is never later
      than the bytes in between take. */
  lemma {:induction false} NoNeedlessDelay(rate: int, start: int, calls: seq<Call>, n: nat) returns (j: nat)
    requires rate > 0 && n < |calls|
    ensures j <= n
    ensures Granted(rate, start, calls, j) == if j == 0 && start > calls[0].now then start else calls[j].now
    ensures rate * (Granted(rate, start, calls, n) - Granted(rate, start, calls, j)) <=
            Bytes(calls, j, n) * 1_000_000_000
    decreases n
  {
    if Granted(rate, start, calls, n) == calls[n].now {
      j := n;
    } else if n == 0 {
      j := 0;
    } else {
      j := NoNeedlessDelay(rate, start, calls, n - 1);
      NextGrant(rate, start, calls, n - 1);
      CostBounds(rate, calls[n - 1].bytes);
      var cost := calls[n - 1].bytes * NANOS / rate;
      var r := Granted(rate, start, calls, n - 1) - Granted(rate, start, calls, j);
      assert Granted(rate, start, calls, n) - Granted(rate, start, calls, j) == r + cost;
      MulDistributes(rate, r, cost);
      assert Bytes(calls, j, n) == Bytes(calls, j, n - 1) + calls[n - 1].bytes;
    }
  }
}
