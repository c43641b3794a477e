/** Waiting for the EC with an exponential back-off. */
module Backoff {
  import opened Bytes
  import opened LpcController

  const STATUS_BUSY_MASK := 0x06
  const FIRST_DELAY := 5
  const LONGEST_DELAY := 10000

  predicate Busy(status: byte) {
    And(status, STATUS_BUSY_MASK) != 0
  }

  /** Bits 1 and 2 of a status are both clear: the EC has read what the host wrote, and is not
      processing a command. */
  predicate Idle(status: byte) {
    status / 2 % 4 == 0
  }

  lemma BusyBits(status: byte)
    ensures Busy(status) <==> !Idle(status)
  {
    assert And(status, 6) == 2 * And(status / 2, 3);
    assert And(status / 2, 3) == 2 * And(status / 4, 1) + status / 2 % 2;
    assert And(status / 4, 1) == status / 4 % 2;
  }

  function NextDelay(i: int, delay: nat): nat {
    if i > 20 then Min(delay * 2, LONGEST_DELAY) else delay
  }

  datatype Wait = Wait(ready: bool, elapsed: nat)

  /** The rest of a wait whose loop counter is `i` and whose next delay is `delay`. */
  function WaitFrom(b: Behaviour, started: nat, now: nat, i: int, delay: nat, timeout: int): Wait
    requires delay > 0
    decreases timeout - i
  {
    if i >= timeout then Wait(false, now)
    else
      var later := now + Min(delay, timeout - i);
      if !Busy(b.status(started, later)) then Wait(true, later)
      else WaitFrom(b, started, later, i + NextDelay(i, delay), NextDelay(i, delay), timeout)
  }

  function WaitForReady(b: Behaviour, started: nat, now: nat, timeout: int): Wait {
    WaitFrom(b, started, now, 0, FIRST_DELAY, timeout)
  }

  /** The loop invariant: at its head, with `stalled` microseconds spent so far, the counter is
      ahead of the true stall by exactly the amount the delay has grown, and a delay above the
      first is covered by the time already spent. */
  ghost predicate LoopHead(i: int, delay: int, stalled: int) {
    && i - stalled == delay - FIRST_DELAY
    && FIRST_DELAY <= delay <= LONGEST_DELAY
    && (delay == FIRST_DELAY || delay <= stalled)
  }

  /** Every poll time is later than the one before, so a status that varies with time covers
      every sequence of status bytes. */
  method ECWaitForReady(ec: Controller, timeoutUsec: int) returns (rv: int)
    requires timeoutUsec <= 0x7fff_ffff - LONGEST_DELAY
    modifies ec`elapsed
    ensures rv == 0 || rv == -1
    ensures old(WaitForReady(ec.behaviour, ec.started, ec.elapsed, timeoutUsec)) == Wait(rv == 0, ec.elapsed)
    ensures rv == 0 ==> Idle(ec.Status())
    ensures old(ec.elapsed) <= ec.elapsed <= old(ec.elapsed) + Max(timeoutUsec, 0)
    ensures rv != 0 ==> ec.elapsed >= old(ec.elapsed) + timeoutUsec - 9995
  {
    ghost var begin := ec.elapsed;
    ghost var whole := WaitForReady(ec.behaviour, ec.started, begin, timeoutUsec);
    var i := 0;
    var delay := FIRST_DELAY;
    while i < timeoutUsec
      invariant begin <= ec.elapsed <= begin + Max(timeoutUsec, 0)
      invariant 0 < delay <= LONGEST_DELAY
      invariant i < timeoutUsec ==> LoopHead(i, delay, ec.elapsed - begin)
      invariant i >= timeoutUsec ==> ec.elapsed >= begin + timeoutUsec - 9995
      invariant i < timeoutUsec + LONGEST_DELAY || i == 0
      invariant whole == WaitFrom(ec.behaviour, ec.started, ec.elapsed, i, delay, timeoutUsec)
    {
      ec.Stall(Min(delay, timeoutUsec - i));
      BusyBits(ec.Status());
      if !Busy(ec.ReadPort(ADDR_HOST_CMD)) {
        return 0;
      }
      if i > 20 {
        delay := Min(delay * 2, LONGEST_DELAY);
      }
      assert i + delay <= 0x7fff_ffff; // the counter is a 32-bit int
      i := i + delay;
    }
    return -1;
  }

  /** From any loop head of any wait: the stall never exceeds the timeout, giving up takes at
      least the timeout less 9995 microseconds, and success means the EC was seen idle. */
  lemma {:induction false} StallBounds(b: Behaviour, started: nat, begin: nat, now: nat, i: int, delay: nat,
                                       timeout: int)
    requires begin <= now && i < timeout && LoopHead(i, delay, now - begin)
    ensures var w := WaitFrom(b, started, now, i, delay, timeout);
            && now < w.elapsed <= begin + timeout
            && (w.ready ==> Idle(b.status(started, w.elapsed)))
            && (!w.ready ==> w.elapsed >= begin + timeout - 9995)
    decreases timeout - i
  {
    var later := now + Min(delay, timeout - i);
    var next := NextDelay(i, delay);
    BusyBits(b.status(started, later));
    if Busy(b.status(started, later)) && i + next < timeout {
      StallBounds(b, started, begin, later, i + next, next, timeout);
    }
  }

  /** A wait of any length. */
  lemma WaitBounds(b: Behaviour, started: nat, now: nat, timeout: int)
    ensures var w := WaitForReady(b, started, now, timeout);
            && now <= w.elapsed <= now + Max(timeout, 0)
            && (w.ready ==> Idle(b.status(started, w.elapsed)))
            && (!w.ready ==> w.elapsed >= now + timeout - 9995)
  {
    if timeout > 0 {
      StallBounds(b, started, now, now, 0, FIRST_DELAY, timeout);
    }
  }

  ghost predicate IdleFrom(b: Behaviour, started: nat, time: nat) {
    forall u: nat :: time <= u ==> Idle(b.status(started, u))
  }

  lemma {:induction false} PromptFrom(b: Behaviour, started: nat, begin: nat, now: nat, i: int, delay: nat,
                                      timeout: int, t: nat)
    requires begin <= now && i < timeout && LoopHead(i, delay, now - begin)
    requires IdleFrom(b, started, begin + t) && t <= timeout - 9995
    requires now == begin || now < begin + t
    ensures var w := WaitFrom(b, started, now, i, delay, timeout);
            && w.ready
            && w.elapsed - begin <= Max(2 * t, t + 5)
            && w.elapsed - begin <= t + 10000
    decreases timeout - i
  {
    var later := now + Min(delay, timeout - i);
    var next := NextDelay(i, delay);
    BusyBits(b.status(started, later));
    if Busy(b.status(started, later)) {
      assert later < begin + t;
      PromptFrom(b, started, begin, later, i + next, next, timeout, t);
    }
  }

  /** Competitiveness: an EC that is idle from `t` microseconds on is noticed, after at most
      twice the time it needed (or 5 microseconds more), and never over 10 ms late. */
  lemma PromptlyReady(b: Behaviour, started: nat, now: nat, timeout: int, t: nat)
    requires IdleFrom(b, started, now + t) && t <= timeout - 9995
    ensures var w := WaitForReady(b, started, now, timeout);
            && w.ready
            && w.elapsed - now <= Max(2 * t, t + 5)
            && w.elapsed - now <= t + 10000
  {
    PromptFrom(b, started, now, now, 0, FIRST_DELAY, timeout, t);
  }

  // ---------------------------------------------------------------- when the status is looked at

  /** 2 to the power of `n`. */
  function Power(n: nat): (p: nat)
    ensures p > 0
  {
    if n == 0 then 1 else 2 * Power(n - 1)
  }

  /** The time of the k-th look at the status: every 5 microseconds at first, then at 40, 60, 100,
      180 and so on, and from the seventeenth on every 10 milliseconds. */
  function LookTime(k: nat): nat {
    if k <= 6 then 5 * k
    else if k <= 16 then 20 + 10 * Power(k - 6)
    else 10260 + 10000 * (k - 16)
  }

  /** The loop counter and the delay before the next look, after `k` of them. */
  function CounterAfter(k: nat): int {
    LookTime(k) + DelayAfter(k) - 5
  }

  function DelayAfter(k: nat): (delay: nat)
    ensures delay > 0
  {
    if k < 6 then 5 else if k < 16 then 10 * Power(k - 6) else 10000
  }

  lemma Powers()
    ensures Power(0) == 1 && Power(1) == 2 && Power(2) == 4 && Power(3) == 8 && Power(4) == 16 && Power(5) == 32
    ensures Power(6) == 64 && Power(7) == 128 && Power(8) == 256 && Power(9) == 512 && Power(10) == 1024
  {
    assert Power(5) == 32;
    assert Power(8) == 8 * Power(5);
  }

  lemma LookStep(k: nat)
    ensures LookTime(k + 1) == LookTime(k) + DelayAfter(k)
    ensures CounterAfter(k + 1) == CounterAfter(k) + DelayAfter(k + 1)
    ensures NextDelay(CounterAfter(k), DelayAfter(k)) == DelayAfter(k + 1)
  {
    Powers();
    if 6 < k < 16 {
      assert k == 7 || k == 8 || k == 9 || k == 10 || k == 11 || k == 12 || k == 13 || k == 14 || k == 15;
    }
  }

  lemma WaitStep(b: Behaviour, started: nat, now: nat, i: int, delay: nat, timeout: int)
    requires 0 < delay && i + delay <= timeout && !Idle(b.status(started, now + delay))
    ensures WaitFrom(b, started, now, i, delay, timeout)
         == WaitFrom(b, started, now + delay, i + NextDelay(i, delay), NextDelay(i, delay), timeout)
  {
    BusyBits(b.status(started, now + delay));
  }

  lemma WaitStart(b: Behaviour, started: nat, begin: nat, timeout: int)
    ensures LookTime(0) == 0 && CounterAfter(0) == 0 && DelayAfter(0) == 5
    ensures WaitForReady(b, started, begin, timeout)
         == WaitFrom(b, started, begin + LookTime(0), CounterAfter(0), DelayAfter(0), timeout)
  {
  }

  lemma {:induction false} WaitAfter(b: Behaviour, started: nat, begin: nat, timeout: int, k: nat)
    requires CounterAfter(k) + 10000 <= timeout
    requires forall j :: 1 <= j <= k ==> !Idle(b.status(started, begin + LookTime(j)))
    ensures WaitForReady(b, started, begin, timeout)
         == WaitFrom(b, started, begin + LookTime(k), CounterAfter(k), DelayAfter(k), timeout)
  {
    hide LookTime;
    hide CounterAfter;
    hide DelayAfter;
    hide NextDelay;
    hide Idle;
    hide WaitFrom;
    hide WaitForReady;
    if k == 0 {
      WaitStart(b, started, begin, timeout);
    } else {
      LookStep(k - 1);
      DelayBound(k - 1);
      WaitAfter(b, started, begin, timeout, k - 1);
      WaitStep(b, started, begin + LookTime(k - 1), CounterAfter(k - 1), DelayAfter(k - 1), timeout);
    }
  }

  /** Exactly when a wait ends: the status is looked at at these times and no others, and the first
      look that finds the EC idle ends the wait. */
  lemma ReadyAtFirstIdleLook(b: Behaviour, started: nat, begin: nat, timeout: int, k: nat)
    requires 1 <= k && LookTime(k) + 20000 <= timeout
    requires forall j :: 1 <= j < k ==> !Idle(b.status(started, begin + LookTime(j)))
    requires Idle(b.status(started, begin + LookTime(k)))
    ensures WaitForReady(b, started, begin, timeout) == Wait(true, begin + LookTime(k))
  {
    LookStep(k - 1);
    DelayBound(k - 1);
    WaitAfter(b, started, begin, timeout, k - 1);
    BusyBits(b.status(started, begin + LookTime(k)));
  }

  lemma DelayBound(k: nat)
    ensures DelayAfter(k) <= 10000
  {
    Powers();
  }
}
