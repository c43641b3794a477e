/** What reading, writing and erasing achieve: on an EC that obeys, on one that does not, and
    at every command in between. */
module FlashFacts {
  import opened Bytes
  import opened EcDevice
  import opened Packets
  import opened Flash

  // ---------------------------------------------------------------- staying inside a range

  /** From `m` to `m'` commands were only added, and at every one of them the flash outside
      [lo, hi) was as in `m`. */
  ghost predicate Confined(ec: Ec, m: Machine, m': Machine, lo: int, hi: int) {
    && Extends(m, m')
    && SameOutside(m'.s.flash, m.s.flash, lo, hi)
    && forall k :: |m.log| <= k < |m'.log| ==> EntryConfined(ec, m'.log[k], m.s.flash, lo, hi)
  }

  ghost predicate EntryConfined(ec: Ec, e: Entry, flash: seq<byte>, lo: int, hi: int) {
    && SameOutside(e.after.flash, flash, lo, hi)
    && (Modifying(e.request) ==> lo <= Range(e.request).0 && Range(e.request).1 <= hi)
    && !e.request.FlashNotified? && !e.request.GetVersion?
    && (NoFalseReads(ec) ==> (FullRead(e) <==> TrueRead(e)))
    && (NoFalseReads(ec) && NoShortReads(ec) ==> TrueRead(e))
  }

  lemma SendConfined(ec: Ec, m: Machine, q: Request, lo: int, hi: int)
    requires Answerable(m.s, q) && !q.FlashNotified?
    requires Modifying(q) ==> lo <= Range(q).0 && Range(q).1 <= hi
    ensures Confined(ec, m, Send(ec, m, q).1, lo, hi)
  {
    ReadReplies(ec, m, q);
    hide Obeyed;
    hide TrueRead;
    hide FullRead;
  }

  lemma ReadReplies(ec: Ec, m: Machine, q: Request)
    requires Answerable(m.s, q)
    ensures var e := Entry(q, Send(ec, m, q).0, Send(ec, m, q).1.s);
            && (NoFalseReads(ec) ==> (FullRead(e) <==> TrueRead(e)))
            && (NoFalseReads(ec) && NoShortReads(ec) ==> TrueRead(e))
  {
    var f := ec.faults(|m.log|);
    assert NoFalseReads(ec) ==> !f.FalseRead?;
    assert NoShortReads(ec) ==> !f.ShortRead?;
    hide NoFalseReads;
    hide NoShortReads;
    if q.FlashRead? {
      ReadAnswers(f, m.s, q, ec.profile);
    }
    hide Answered;
    hide TrueRead;
    hide FullRead;
    if !q.FlashRead? {
      OnlyReads(Entry(q, Send(ec, m, q).0, Send(ec, m, q).1.s));
    }
  }

  lemma OnlyReads(e: Entry)
    requires !e.request.FlashRead?
    ensures FullRead(e) && TrueRead(e)
  {
  }

  lemma ReadAnswers(f: Fault, s: Snapshot, q: Request, p: Profile)
    requires q.FlashRead? && Answerable(s, q)
    ensures var (reply, s') := Answered(f, s, q, p);
            var e := Entry(q, reply, s');
            && (!f.FalseRead? ==> (FullRead(e) <==> TrueRead(e)))
            && (!f.FalseRead? && !f.ShortRead? ==> TrueRead(e))
  {
    var (reply, s') := Answered(f, s, q, p);
    if !f.FalseRead? && reply.rv >= 0 {
      assert s' == s && reply.data == s.flash[q.offset..q.offset + reply.rv];
      if reply.rv != q.size {
        assert |reply.data| != q.size;
      }
    }
  }

  lemma ConfinedTransitive(ec: Ec, m: Machine, m1: Machine, m2: Machine, lo: int, hi: int)
    requires Confined(ec, m, m1, lo, hi) && Confined(ec, m1, m2, lo, hi)
    ensures Confined(ec, m, m2, lo, hi)
  {
    assert m2.log[..|m.log|] == m2.log[..|m1.log|][..|m.log|];
    forall k | |m.log| <= k < |m2.log|
      ensures EntryConfined(ec, m2.log[k], m.s.flash, lo, hi)
    {
      if k < |m1.log| {
        assert m2.log[k] == m2.log[..|m1.log|][k];
      }
    }
  }

  /** Reading changes nothing, and is told apart from other work at every command. */
  lemma {:induction false} ReadLoopConfined(ec: Ec, m: Machine, offset: nat, size: nat, buf: seq<byte>,
                                            got: seq<byte>, lo: int, hi: int)
    requires offset + size <= |m.s.flash| && |buf| == MAX_RESPONSE
    ensures var m' := ReadLoop(ec, m, offset, size, buf, got).2;
            m'.s == m.s && Confined(ec, m, m', lo, hi)
    decreases size
  {
    hide Send;
    hide ReadLoop;
    hide Splice;
    hide EntryConfined;
    if size == 0 {
      ReadDone(ec, m, offset, buf, got);
    } else {
      ReadStep(ec, m, offset, size, buf, got);
      var n := Min(size, MAX_RESPONSE);
      var (reply, m') := Send(ec, m, FlashRead(offset, n));
      ReadKeepsState(ec, m, offset, n);
      SendConfined(ec, m, FlashRead(offset, n), lo, hi);
      if reply.rv >= 0 {
        var buf' := Splice(buf, 0, reply.data);
        ReadLoopConfined(ec, m', offset + n, size - n, buf', got + buf'[..n], lo, hi);
        ConfinedTransitive(ec, m, m', ReadLoop(ec, m', offset + n, size - n, buf', got + buf'[..n]).2, lo, hi);
      }
    }
  }

  lemma ReadKeepsState(ec: Ec, m: Machine, offset: nat, n: nat)
    requires offset + n <= |m.s.flash|
    ensures Send(ec, m, FlashRead(offset, n)).1.s == m.s
  {
  }

  lemma {:induction false} WriteLoopConfined(ec: Ec, m: Machine, offset: nat, data: seq<byte>, step: nat, lo: int,
                                             hi: int)
    requires lo <= offset && offset + |data| <= hi <= |m.s.flash| && step > 0
    ensures Confined(ec, m, WriteLoop(ec, m, offset, data, step).1, lo, hi)
    decreases |data|
  {
    hide Send;
    hide WriteLoop;
    if data == [] {
      WriteDone(ec, m, offset, step);
    } else {
      WriteStep(ec, m, offset, data, step);
      var n := Min(|data|, step);
      var (reply, m') := Send(ec, m, FlashWrite(offset, data[..n]));
      SendConfined(ec, m, FlashWrite(offset, data[..n]), lo, hi);
      if reply.rv >= 0 {
        WriteLoopConfined(ec, m', offset + n, data[n..], step, lo, hi);
        ConfinedTransitive(ec, m, m', WriteLoop(ec, m', offset + n, data[n..], step).1, lo, hi);
      }
    }
  }

  lemma WriteRunConfined(ec: Ec, m: Machine, offset: nat, data: seq<byte>)
    requires offset + |data| <= |m.s.flash|
    ensures Confined(ec, m, WriteRun(ec, m, offset, data).1, offset, offset + |data|)
  {
    hide Send;
    SendConfined(ec, m, FlashInfo, offset, offset + |data|);
    var (reply, m') := Send(ec, m, FlashInfo);
    if reply.rv >= 0 {
      StepIsPositive(reply.number);
      WriteLoopConfined(ec, m', offset, data, Step(reply.number), offset, offset + |data|);
      ConfinedTransitive(ec, m, m', WriteLoop(ec, m', offset, data, Step(reply.number)).1, offset, offset + |data|);
    }
  }

  lemma {:induction false} PollLoopConfined(ec: Ec, m: Machine, q: Request, pause: nat, tries: nat, rv: int, lo: int,
                                            hi: int)
    requires Answerable(m.s, q) && !q.FlashNotified?
    requires Modifying(q) ==> lo <= Range(q).0 && Range(q).1 <= hi
    ensures Confined(ec, m, PollLoop(ec, m, q, pause, tries, rv).1, lo, hi)
    decreases tries
  {
    if rv < 0 && tries > 0 {
      hide Send;
      var s := Stalled(m, pause);
      var (reply, m') := Send(ec, s, q);
      SendConfined(ec, s, q, lo, hi);
      assert Confined(ec, m, m', lo, hi);
      PollLoopConfined(ec, m', q, pause, tries - 1, reply.rv, lo, hi);
      ConfinedTransitive(ec, m, m', PollLoop(ec, m', q, pause, tries - 1, reply.rv).1, lo, hi);
    }
  }

  lemma {:induction false} PollLoopClock(ec: Ec, m: Machine, q: Request, pause: nat, tries: nat, rv: int)
    requires Answerable(m.s, q)
    ensures PollLoop(ec, m, q, pause, tries, rv).1.stalled <= m.stalled + Times(pause, tries)
    decreases tries
  {
    if rv < 0 && tries > 0 {
      hide Send;
      var (reply, m') := Send(ec, Stalled(m, pause), q);
      SendKeepsClock(ec, Stalled(m, pause), q);
      PollLoopClock(ec, m', q, pause, tries - 1, reply.rv);
    }
  }

  function Times(a: nat, n: nat): nat {
    if n == 0 then 0 else a + Times(a, n - 1)
  }

  lemma {:induction false} TimesIsProduct(a: nat, n: nat)
    ensures Times(a, n) == a * n
  {
    if n > 0 {
      TimesIsProduct(a, n - 1);
      assert a * n == a + a * (n - 1);
    }
  }

  lemma SendKeepsClock(ec: Ec, m: Machine, q: Request)
    requires Answerable(m.s, q)
    ensures Send(ec, m, q).1.stalled == m.stalled && Send(ec, m, q).1.memoryReads == m.memoryReads
  {
    hide Answered;
  }

  /** An erase, with all its retries, stays inside its range and never waits for more than two
      seconds between commands, on either path. */
  lemma EraseRunConfined(ec: Ec, m: Machine, offset: nat, size: nat)
    requires offset + size <= |m.s.flash|
    ensures var m' := EraseRun(ec, m, offset, size).1;
            Confined(ec, m, m', offset, offset + size) && m'.stalled <= m.stalled + 2000000
  {
    hide Send;
    var lo, hi := offset, offset + size;
    var (versions, m1) := Send(ec, m, GetCmdVersions(EC_CMD_FLASH_ERASE));
    SendConfined(ec, m, GetCmdVersions(EC_CMD_FLASH_ERASE), lo, hi);
    SendKeepsClock(ec, m, GetCmdVersions(EC_CMD_FLASH_ERASE));
    if versions.rv >= 0 && BitSet(versions.number, 1) {
      var start := FlashEraseV1(FLASH_ERASE_SECTOR_ASYNC, offset, size);
      var poll := FlashEraseV1(FLASH_ERASE_GET_RESULT, offset, size);
      var m2 := Send(ec, m1, start).1;
      SendConfined(ec, m1, start, lo, hi);
      SendKeepsClock(ec, m1, start);
      ConfinedTransitive(ec, m, m1, m2, lo, hi);
      PollLoopConfined(ec, m2, poll, ASYNC_PAUSE, ASYNC_TRIES, -1, lo, hi);
      PollLoopClock(ec, m2, poll, ASYNC_PAUSE, ASYNC_TRIES, -1);
      TimesIsProduct(ASYNC_PAUSE, ASYNC_TRIES);
      ConfinedTransitive(ec, m, m2, PollLoop(ec, m2, poll, ASYNC_PAUSE, ASYNC_TRIES, -1).1, lo, hi);
    } else {
      var (reply, m2) := Send(ec, m1, FlashErase(offset, size));
      SendConfined(ec, m1, FlashErase(offset, size), lo, hi);
      SendKeepsClock(ec, m1, FlashErase(offset, size));
      ConfinedTransitive(ec, m, m1, m2, lo, hi);
      PollLoopConfined(ec, m2, Hello, HELLO_PAUSE, HELLO_TRIES, reply.rv, lo, hi);
      PollLoopClock(ec, m2, Hello, HELLO_PAUSE, HELLO_TRIES, reply.rv);
      TimesIsProduct(HELLO_PAUSE, HELLO_TRIES);
      ConfinedTransitive(ec, m, m2, PollLoop(ec, m2, Hello, HELLO_PAUSE, HELLO_TRIES, reply.rv).1, lo, hi);
    }
  }

  // ---------------------------------------------------------------- obedience

  lemma SendObeyed(ec: Ec, m: Machine, q: Request)
    requires Obedient(ec) && Answerable(m.s, q)
    ensures var o := Obeyed(m.s, q, ec.profile);
            Send(ec, m, q) == (o.0, m.(s := o.1, log := m.log + [Entry(q, o.0, o.1)]))
  {
    hide Obeyed;
    assert ec.faults(|m.log|).Obey?;
  }

  /** The flash contents and counters after obeying a write. */
  function Wrote(s: Snapshot, offset: nat, data: seq<byte>): Snapshot
    requires offset + |data| <= |s.flash|
  {
    s.(flash := Programmed(s.flash, offset, data), written := s.written + |data|)
  }

  function WasErased(s: Snapshot, offset: nat, size: nat): Snapshot
    requires offset + size <= |s.flash|
  {
    s.(flash := Erased(s.flash, offset, size), erased := s.erased + size)
  }

  /** From `m` to `m'` commands were only added, and at every one of them erased and written
      bytes, counted from `m`, were within these bounds. */
  ghost predicate Worked(m: Machine, m': Machine, e1: int, e2: int, w1: int, w2: int) {
    && Extends(m, m')
    && forall k :: |m.log| <= k < |m'.log| ==> EntryWorked(m'.log[k], m.s, e1, e2, w1, w2)
  }

  predicate EntryWorked(e: Entry, s: Snapshot, e1: int, e2: int, w1: int, w2: int) {
    e1 <= e.after.erased - s.erased <= e2 && w1 <= e.after.written - s.written <= w2
  }

  /** Work done first, then more from there on. */
  lemma WorkedThen(m: Machine, m1: Machine, m2: Machine, e1: int, e2: int, w1: int, w2: int)
    requires Worked(m, m1, e1, e2, w1, w2)
    requires var de, dw := m1.s.erased - m.s.erased, m1.s.written - m.s.written;
             Worked(m1, m2, e1 - de, e2 - de, w1 - dw, w2 - dw)
    ensures Worked(m, m2, e1, e2, w1, w2)
  {
    var de, dw := m1.s.erased - m.s.erased, m1.s.written - m.s.written;
    assert m2.log[..|m.log|] == m2.log[..|m1.log|][..|m.log|];
    forall k | |m.log| <= k < |m2.log|
      ensures EntryWorked(m2.log[k], m.s, e1, e2, w1, w2)
    {
      if k < |m1.log| {
        assert m2.log[k] == m2.log[..|m1.log|][k];
      } else {
        assert EntryWorked(m2.log[k], m1.s, e1 - de, e2 - de, w1 - dw, w2 - dw);
      }
    }
  }

  lemma {:induction false} WriteLoopObeyed(ec: Ec, m: Machine, offset: nat, data: seq<byte>, step: nat)
    requires Obedient(ec) && offset + |data| <= |m.s.flash| && step > 0
    ensures var (rv, m') := WriteLoop(ec, m, offset, data, step);
            rv == 0 && m'.s == Wrote(m.s, offset, data) && Worked(m, m', 0, 0, 0, |data|)
    decreases |data|
  {
    hide Send;
    hide Wrote;
    hide WriteLoop;
    if data == [] {
      WriteDone(ec, m, offset, step);
      NothingWrote(m.s, offset);
    } else {
      WriteStep(ec, m, offset, data, step);
      var n := Min(|data|, step);
      var m1 := Send(ec, m, FlashWrite(offset, data[..n])).1;
      WriteObeyed(ec, m, offset, data[..n]);
      assert data[..n] + data[n..] == data;
      WroteInPieces(m.s, offset, data[..n], data[n..]);
      WriteLoopObeyed(ec, m1, offset + n, data[n..], step);
      WorkedThen(m, m1, WriteLoop(ec, m1, offset + n, data[n..], step).1, 0, 0, 0, |data|);
    }
  }

  lemma WroteInPieces(s: Snapshot, offset: nat, d1: seq<byte>, d2: seq<byte>)
    requires offset + |d1| + |d2| <= |s.flash|
    ensures var s1 := Wrote(s, offset, d1);
            s1.written == s.written + |d1| && s1.erased == s.erased && |s1.flash| == |s.flash|
    ensures Wrote(Wrote(s, offset, d1), offset + |d1|, d2) == Wrote(s, offset, d1 + d2)
  {
    ProgrammedInPieces(s.flash, offset, d1, d2);
  }

  lemma NothingWrote(s: Snapshot, offset: nat)
    requires offset <= |s.flash|
    ensures Wrote(s, offset, []) == s
  {
    assert Programmed(s.flash, offset, []) == s.flash;
  }

  lemma WriteObeyed(ec: Ec, m: Machine, offset: nat, data: seq<byte>)
    requires Obedient(ec) && offset + |data| <= |m.s.flash|
    ensures var (reply, m') := Send(ec, m, FlashWrite(offset, data));
            reply.rv >= 0 && m'.s == Wrote(m.s, offset, data) && Worked(m, m', 0, 0, 0, |data|)
  {
    SendObeyed(ec, m, FlashWrite(offset, data));
  }

  /** What a write means: on an EC that obeys it succeeds, clears in its range exactly the bits
      the data clears and leaves every other byte, whatever write size the EC reports. */
  lemma WriteMeaning(ec: Ec, m: Machine, offset: nat, data: seq<byte>)
    requires Obedient(ec) && offset + |data| <= |m.s.flash|
    ensures var (rv, m') := WriteRun(ec, m, offset, data);
            rv == 0 && m'.s == Wrote(m.s, offset, data) && Worked(m, m', 0, 0, 0, |data|)
  {
    SendObeyed(ec, m, FlashInfo);
    var (reply, m1) := Send(ec, m, FlashInfo);
    StepIsPositive(reply.number);
    hide Send;
    WriteLoopObeyed(ec, m1, offset, data, Step(reply.number));
    WorkedThen(m, m1, WriteLoop(ec, m1, offset, data, Step(reply.number)).1, 0, 0, 0, |data|);
  }

  /** On an EC that obeys, an erase succeeds and sets exactly its range to ones, whether the EC
      has the asynchronous version or not. */
  lemma EraseMeaning(ec: Ec, m: Machine, offset: nat, size: nat)
    requires Obedient(ec) && offset + size <= |m.s.flash|
    ensures var (rv, m') := EraseRun(ec, m, offset, size);
            rv == 0 && m'.s == WasErased(m.s, offset, size) && Worked(m, m', 0, size, 0, 0)
  {
    hide Send;
    hide PollLoop;
    hide EraseAsyncRun;
    hide WasErased;
    hide Worked;
    hide Obedient;
    hide BitSet;
    var (versions, m1) := Send(ec, m, GetCmdVersions(EC_CMD_FLASH_ERASE));
    VersionsObeyed(ec, m, size);
    if versions.rv >= 0 && BitSet(versions.number, 1) {
      EraseAsyncMeaning(ec, m1, offset, size);
      WorkedThen(m, m1, EraseAsyncRun(ec, m1, offset, size).1, 0, size, 0, 0);
    } else {
      EraseObeyed(ec, m1, offset, size);
      var (reply, m2) := Send(ec, m1, FlashErase(offset, size));
      PollDone(ec, m2, Hello, HELLO_PAUSE, HELLO_TRIES, reply.rv);
      WorkedThen(m, m1, m2, 0, size, 0, 0);
    }
  }

  lemma PollDone(ec: Ec, m: Machine, q: Request, pause: nat, tries: nat, rv: int)
    requires Answerable(m.s, q) && rv >= 0
    ensures PollLoop(ec, m, q, pause, tries, rv) == (rv, m)
  {
  }

  lemma VersionsObeyed(ec: Ec, m: Machine, size: nat)
    requires Obedient(ec)
    ensures var m1 := Send(ec, m, GetCmdVersions(EC_CMD_FLASH_ERASE)).1;
            m1.s == m.s && Worked(m, m1, 0, size, 0, 0)
  {
    SendObeyed(ec, m, GetCmdVersions(EC_CMD_FLASH_ERASE));
  }

  lemma EraseObeyed(ec: Ec, m: Machine, offset: nat, size: nat)
    requires Obedient(ec) && offset + size <= |m.s.flash|
    ensures var (reply, m1) := Send(ec, m, FlashErase(offset, size));
            reply.rv == 0 && m1.s == WasErased(m.s, offset, size) && Worked(m, m1, 0, size, 0, 0)
  {
    SendObeyed(ec, m, FlashErase(offset, size));
  }

  lemma EraseAsyncMeaning(ec: Ec, m: Machine, offset: nat, size: nat)
    requires Obedient(ec) && offset + size <= |m.s.flash|
    ensures var (rv, m') := EraseAsyncRun(ec, m, offset, size);
            rv == 0 && m'.s == WasErased(m.s, offset, size) && Worked(m, m', 0, size, 0, 0)
  {
    var start := FlashEraseV1(FLASH_ERASE_SECTOR_ASYNC, offset, size);
    var poll := FlashEraseV1(FLASH_ERASE_GET_RESULT, offset, size);
    SendObeyed(ec, m, start);
    var m1 := Send(ec, m, start).1;
    assert m1.s == WasErased(m.s, offset, size) && Worked(m, m1, 0, size, 0, 0);
    SendObeyed(ec, Stalled(m1, ASYNC_PAUSE), poll);
    var m2 := Send(ec, Stalled(m1, ASYNC_PAUSE), poll).1;
    assert m2.s == m1.s && Worked(m1, m2, 0, 0, 0, 0);
    hide Send;
    WorkedThen(m, m1, m2, 0, size, 0, 0);
  }

  // ---------------------------------------------------------------- what a result does not say

  /** From `m` to `m'` the command `q` was sent `n` times, each after a pause; all but the last
      were answered with an error, and the last with `rv`. */
  ghost predicate Polled(m: Machine, m': Machine, q: Request, pause: nat, n: nat, rv: int) {
    && Extends(m, m') && |m'.log| == |m.log| + n
    && m'.stalled == m.stalled + Times(pause, n)
    && (forall k :: |m.log| <= k < |m'.log| ==> m'.log[k].request == q)
    && (forall k :: |m.log| <= k < |m'.log| - 1 ==> m'.log[k].reply.rv < 0)
    && (n > 0 ==> m'.log[|m'.log| - 1].reply.rv == rv)
  }

  /** How often a poll sends its command. */
  function PollCount(ec: Ec, m: Machine, q: Request, pause: nat, tries: nat, rv: int): (n: nat)
    requires Answerable(m.s, q)
    ensures n <= tries
    decreases tries
  {
    if rv >= 0 || tries == 0 then 0
    else
      var (reply, m') := Send(ec, Stalled(m, pause), q);
      1 + PollCount(ec, m', q, pause, tries - 1, reply.rv)
  }

  /** Polling stops at the first answer without an error, or when its tries are used up, and
      returns the last answer. */
  lemma {:induction false} PollLoopMeaning(ec: Ec, m: Machine, q: Request, pause: nat, tries: nat, rv: int)
    requires Answerable(m.s, q)
    ensures var (code, m') := PollLoop(ec, m, q, pause, tries, rv);
            var n := PollCount(ec, m, q, pause, tries, rv);
            && Polled(m, m', q, pause, n, code)
            && (code >= 0 || n == tries) && (n == 0 ==> code == rv)
    decreases tries
  {
    if rv < 0 && tries > 0 {
      var (reply, m1) := Send(ec, Stalled(m, pause), q);
      SendKeepsClock(ec, Stalled(m, pause), q);
      assert m1.log == m.log + [m1.log[|m.log|]] && m1.log[|m.log|].request == q && m1.log[|m.log|].reply == reply;
      hide Send;
      PollLoopMeaning(ec, m1, q, pause, tries - 1, reply.rv);
      PolledOnceMore(m, m1, PollLoop(ec, m1, q, pause, tries - 1, reply.rv).1, q, pause,
                     PollCount(ec, m1, q, pause, tries - 1, reply.rv),
                     PollLoop(ec, m1, q, pause, tries - 1, reply.rv).0);
    }
  }

  lemma PolledOnceMore(m: Machine, m1: Machine, m2: Machine, q: Request, pause: nat, n: nat, rv: int)
    requires |m1.log| == |m.log| + 1 && m1.log[..|m.log|] == m.log && m1.log[|m.log|].request == q
    requires m1.stalled == m.stalled + pause && Polled(m1, m2, q, pause, n, rv)
    requires if n == 0 then m1.log[|m.log|].reply.rv == rv else m1.log[|m.log|].reply.rv < 0
    ensures Polled(m, m2, q, pause, n + 1, rv)
  {
    assert m2.log[..|m.log|] == m2.log[..|m1.log|][..|m.log|];
    assert m2.log[|m.log|] == m2.log[..|m1.log|][|m.log|];
  }

  /** The n-th command, if it is a HELLO, is answered without an error. */
  predicate HelloHeard(ec: Ec, n: nat) {
    ec.faults(n).Rogue? && ec.faults(n).rv >= 0
  }

  lemma {:induction false} PollHello(ec: Ec, m: Machine, tries: nat, rv: int)
    requires rv < 0
    ensures var (code, m') := PollLoop(ec, m, Hello, HELLO_PAUSE, tries, rv);
            && m'.s == m.s
            && (code >= 0 <==> exists k :: |m.log| <= k < |m.log| + tries && HelloHeard(ec, k))
    decreases tries
  {
    if tries > 0 {
      var (reply, m') := Send(ec, Stalled(m, HELLO_PAUSE), Hello);
      assert m'.s == m.s && (reply.rv >= 0 <==> HelloHeard(ec, |m.log|));
      hide Send;
      if reply.rv < 0 {
        PollHello(ec, m', tries - 1, reply.rv);
      }
    }
  }

  /** What the result of a synchronous erase says. The flash is as the erase command left it. A
      command that succeeded is reported at once; one that failed is reported as a success
      exactly if one of the next twenty HELLOs is answered. */
  lemma EraseResult(ec: Ec, m: Machine, offset: nat, size: nat)
    requires offset + size <= |m.s.flash|
    requires var versions := Send(ec, m, GetCmdVersions(EC_CMD_FLASH_ERASE)).0;
             versions.rv < 0 || !BitSet(versions.number, 1)
    ensures var m1 := Send(ec, m, GetCmdVersions(EC_CMD_FLASH_ERASE)).1;
            var (reply, m2) := Send(ec, m1, FlashErase(offset, size));
            var (rv, m') := EraseRun(ec, m, offset, size);
            && m'.s == m2.s
            && (reply.rv >= 0 ==> rv == reply.rv && m' == m2)
            && (reply.rv < 0 ==>
                  (rv >= 0 <==> exists k :: |m.log| + 2 <= k < |m.log| + 22 && HelloHeard(ec, k)))
  {
    var m1 := Send(ec, m, GetCmdVersions(EC_CMD_FLASH_ERASE)).1;
    var (reply, m2) := Send(ec, m1, FlashErase(offset, size));
    assert |m2.log| == |m.log| + 2;
    hide Send;
    if reply.rv < 0 {
      PollHello(ec, m2, HELLO_TRIES, reply.rv);
    }
  }

  /** An EC that refuses its n-th command, leaving the flash as it is, and answers the next. */
  function RefusesOnce(n: nat, flash: seq<byte>): Ec {
    Ec((k: nat) => if k == n then Rogue(-RES_TIMEOUT, (j: nat) => if j < |flash| then flash[j] else 0, 240, 0)
                   else if k == n + 1 then Rogue(4, (j: nat) => 0, 240, 0)
                   else Obey,
       SIMULATED, (k: nat) => seq(0x100, _ => 0))
  }

  /** Whatever the flash holds and wherever it is to be erased, there is an EC with which an
      erase reports success and has changed nothing. */
  lemma EraseMayLie(m: Machine, offset: nat, size: nat)
    requires offset + size <= |m.s.flash|
    ensures var (rv, m') := EraseRun(RefusesOnce(|m.log| + 1, m.s.flash), m, offset, size);
            rv >= 0 && m'.s.flash == m.s.flash
  {
    var ec := RefusesOnce(|m.log| + 1, m.s.flash);
    assert HelloHeard(ec, |m.log| + 2);
    var (versions, m1) := Send(ec, m, GetCmdVersions(EC_CMD_FLASH_ERASE));
    assert versions.rv == -RES_INVALID_COMMAND && m1.s == m.s && |m1.log| == |m.log| + 1;
    EraseResult(ec, m, offset, size);
    var (reply, m2) := Send(ec, m1, FlashErase(offset, size));
    assert reply.rv == -RES_TIMEOUT;
    assert m2.s.flash == m.s.flash;
  }

  // ---------------------------------------------------------------- the asynchronous erase

  /** The n-th command, if it asks for the result of an erase, is answered without an error. */
  predicate ResultHeard(ec: Ec, n: nat) {
    !ec.faults(n).Rogue? || ec.faults(n).rv >= 0
  }

  lemma {:induction false} PollResult(ec: Ec, m: Machine, offset: nat, size: nat, tries: nat, rv: int)
    requires offset + size <= |m.s.flash| && rv < 0
    ensures var poll := FlashEraseV1(FLASH_ERASE_GET_RESULT, offset, size);
            var (code, m') := PollLoop(ec, m, poll, ASYNC_PAUSE, tries, rv);
            && (code >= 0 <==> exists k :: |m.log| <= k < |m.log| + tries && ResultHeard(ec, k))
            && ((forall k :: |m.log| <= k < |m.log| + tries ==> !ec.faults(k).Rogue?) ==> m'.s == m.s)
    decreases tries
  {
    if tries > 0 {
      var q := FlashEraseV1(FLASH_ERASE_GET_RESULT, offset, size);
      var (reply, m') := Send(ec, Stalled(m, ASYNC_PAUSE), q);
      assert |m'.log| == |m.log| + 1 && (reply.rv >= 0 <==> ResultHeard(ec, |m.log|));
      assert !ec.faults(|m.log|).Rogue? ==> m'.s == m.s;
      hide Send;
      if reply.rv < 0 {
        PollResult(ec, m', offset, size, tries - 1, reply.rv);
      }
    }
  }

  /** What the result of an asynchronous erase says. A start that is refused is reported at
      once; otherwise success is reported exactly if one of the four questions for the result is
      answered; and if neither the start nor any of them goes rogue, the range is erased. */
  lemma EraseAsyncResult(ec: Ec, m: Machine, offset: nat, size: nat)
    requires offset + size <= |m.s.flash|
    requires var versions := Send(ec, m, GetCmdVersions(EC_CMD_FLASH_ERASE)).0;
             versions.rv >= 0 && BitSet(versions.number, 1)
    ensures var m1 := Send(ec, m, GetCmdVersions(EC_CMD_FLASH_ERASE)).1;
            var (start, m2) := Send(ec, m1, FlashEraseV1(FLASH_ERASE_SECTOR_ASYNC, offset, size));
            var (rv, m') := EraseRun(ec, m, offset, size);
            && (start.rv < 0 ==> rv == start.rv && m' == m2)
            && (start.rv >= 0 ==>
                  (rv >= 0 <==> exists k :: |m.log| + 2 <= k < |m.log| + 6 && ResultHeard(ec, k)))
            && ((forall k :: |m.log| < k < |m.log| + 6 ==> !ec.faults(k).Rogue?) ==>
                  rv >= 0 && m'.s == WasErased(m.s, offset, size))
  {
    var m1 := Send(ec, m, GetCmdVersions(EC_CMD_FLASH_ERASE)).1;
    assert m1.s == m.s && |m1.log| == |m.log| + 1;
    var (start, m2) := Send(ec, m1, FlashEraseV1(FLASH_ERASE_SECTOR_ASYNC, offset, size));
    assert |m2.log| == |m.log| + 2;
    assert !ec.faults(|m1.log|).Rogue? ==> start.rv >= 0 && m2.s == WasErased(m.s, offset, size);
    hide Send;
    PollResult(ec, m2, offset, size, ASYNC_TRIES, -1);
    if forall k :: |m.log| < k < |m.log| + 2 + ASYNC_TRIES ==> !ec.faults(k).Rogue? {
      assert ResultHeard(ec, |m.log| + 2);
    }
  }

  // ---------------------------------------------------------------- what an erase sends

  /** After the version query for command 0x13, an erase sends `first`, and then `poll`, up to
      `tries` times and each after a pause. */
  ghost predicate ErasesWith(m: Machine, m': Machine, first: Request, poll: Request, pause: nat, tries: nat) {
    && Extends(m, m') && |m.log| + 2 <= |m'.log| <= |m.log| + 2 + tries
    && m'.log[|m.log|].request == GetCmdVersions(0x13)
    && m'.log[|m.log| + 1].request == first
    && (forall k :: |m.log| + 2 <= k < |m'.log| ==> m'.log[k].request == poll)
    && m'.stalled == m.stalled + Times(pause, |m'.log| - |m.log| - 2)
  }

  /** What an erase sends, on every EC: with version 1 of the command, sub-command 1 and then up to
      four times sub-command 2, half a second apart; without it, version 0 and, if that fails, up to
      twenty HELLOs, a tenth of a second apart. */
  lemma EraseRequests(ec: Ec, m: Machine, offset: nat, size: nat)
    requires offset + size <= |m.s.flash|
    ensures var versions := Send(ec, m, GetCmdVersions(0x13)).0;
            var m' := EraseRun(ec, m, offset, size).1;
            if versions.rv >= 0 && versions.number / 2 % 2 == 1
            then ErasesWith(m, m', FlashEraseV1(1, offset, size), FlashEraseV1(2, offset, size), 500000, 4)
            else ErasesWith(m, m', FlashErase(offset, size), Hello, 100000, 20)
  {
    hide Send;
    hide PollLoop;
    hide ErasesWith;
    hide BitSet;
    var (versions, m1) := Send(ec, m, GetCmdVersions(EC_CMD_FLASH_ERASE));
    SecondBit(versions.number);
    if versions.rv >= 0 && BitSet(versions.number, 1) {
      var first, poll := FlashEraseV1(1, offset, size), FlashEraseV1(2, offset, size);
      var (reply, m2) := Send(ec, m1, first);
      PollDone(ec, m2, poll, 500000, 4, 0);
      SentThenPolled(ec, m, first, poll, 500000, 4, if reply.rv < 0 then 0 else -1);
    } else {
      var reply := Send(ec, m1, FlashErase(offset, size)).0;
      SentThenPolled(ec, m, FlashErase(offset, size), Hello, 100000, 20, reply.rv);
    }
  }

  lemma SentThenPolled(ec: Ec, m: Machine, first: Request, poll: Request, pause: nat, tries: nat, rv: int)
    requires !first.GetVersion? && !poll.GetVersion? && Range(first).1 <= |m.s.flash| && Range(poll).1 <= |m.s.flash|
    ensures var m1 := Send(ec, m, GetCmdVersions(0x13)).1;
            var m2 := Send(ec, m1, first).1;
            ErasesWith(m, PollLoop(ec, m2, poll, pause, tries, rv).1, first, poll, pause, tries)
  {
    hide Send;
    hide PollLoop;
    hide PollCount;
    hide Polled;
    hide ErasesWith;
    var m1 := Send(ec, m, GetCmdVersions(0x13)).1;
    var m2 := Send(ec, m1, first).1;
    SentOnce(ec, m, GetCmdVersions(0x13));
    SentOnce(ec, m1, first);
    PollLoopMeaning(ec, m2, poll, pause, tries, rv);
    var (code, m') := PollLoop(ec, m2, poll, pause, tries, rv);
    Stitched(m, m1, m2, m', first, poll, pause, PollCount(ec, m2, poll, pause, tries, rv), tries, code);
  }

  lemma Stitched(m: Machine, m1: Machine, m2: Machine, m': Machine, first: Request, poll: Request, pause: nat,
                 n: nat, tries: nat, rv: int)
    requires Extends(m, m1) && |m1.log| == |m.log| + 1 && m1.log[|m.log|].request == GetCmdVersions(0x13)
    requires Extends(m1, m2) && |m2.log| == |m.log| + 2 && m2.log[|m.log| + 1].request == first
    requires m2.stalled == m1.stalled == m.stalled && Polled(m2, m', poll, pause, n, rv) && n <= tries
    ensures ErasesWith(m, m', first, poll, pause, tries)
  {
    hide Times;
    AsSent(m, m1, m2, m');
  }

  lemma SecondBit(n: nat)
    ensures BitSet(n, 1) <==> n / 2 % 2 == 1
  {
    assert BitSet(n, 1) == BitSet(n / 2, 0);
  }

  lemma SentOnce(ec: Ec, m: Machine, q: Request)
    requires Answerable(m.s, q)
    ensures var m' := Send(ec, m, q).1;
            && Extends(m, m') && |m'.log| == |m.log| + 1 && m'.log[|m.log|].request == q
            && m'.stalled == m.stalled
  {
    hide Answered;
  }

  lemma AsSent(m: Machine, m1: Machine, m2: Machine, m': Machine)
    requires Extends(m, m1) && Extends(m1, m2) && Extends(m2, m')
    requires |m1.log| == |m.log| + 1 && |m2.log| == |m.log| + 2
    ensures Extends(m, m') && m'.log[|m.log|] == m1.log[|m.log|] && m'.log[|m.log| + 1] == m2.log[|m.log| + 1]
  {
    ExtendsTransitive(m1, m2, m');
    ExtendsTransitive(m, m1, m');
  }

  // ---------------------------------------------------------------- errors

  /** From `m` to `m'` the first error ended the work and was returned; without one it was done. */
  ghost predicate EndedByError(m: Machine, m': Machine, rv: int) {
    && Extends(m, m')
    && (forall k :: |m.log| <= k < |m'.log| - 1 ==> m'.log[k].reply.rv >= 0)
    && (rv >= 0 ==> forall k :: |m.log| <= k < |m'.log| ==> m'.log[k].reply.rv >= 0)
    && (rv < 0 ==> |m.log| < |m'.log| && m'.log[|m'.log| - 1].reply.rv == rv)
  }

  lemma EndedOnceMore(m: Machine, m1: Machine, m2: Machine, rv: int)
    requires Extends(m, m1) && |m1.log| == |m.log| + 1 && m1.log[|m.log|].reply.rv >= 0
    requires EndedByError(m1, m2, rv)
    ensures EndedByError(m, m2, rv)
  {
    ExtendsTransitive(m, m1, m2);
  }

  lemma SentReply(ec: Ec, m: Machine, q: Request)
    requires Answerable(m.s, q)
    ensures var (reply, m') := Send(ec, m, q);
            Extends(m, m') && |m'.log| == |m.log| + 1 && m'.log[|m.log|].reply == reply
  {
    hide Answered;
  }

  lemma {:induction false} ReadLoopEnds(ec: Ec, m: Machine, offset: nat, size: nat, buf: seq<byte>, got: seq<byte>)
    requires offset + size <= |m.s.flash| && |buf| == MAX_RESPONSE
    ensures var (rv, _, m') := ReadLoop(ec, m, offset, size, buf, got); rv <= 0 && EndedByError(m, m', rv)
    decreases size
  {
    hide Send;
    hide ReadLoop;
    hide Splice;
    if size == 0 {
      ReadDone(ec, m, offset, buf, got);
    } else {
      ReadStep(ec, m, offset, size, buf, got);
      var n := Min(size, MAX_RESPONSE);
      SentReply(ec, m, FlashRead(offset, n));
      var (reply, m1) := Send(ec, m, FlashRead(offset, n));
      if reply.rv >= 0 {
        var buf' := Splice(buf, 0, reply.data);
        ReadLoopEnds(ec, m1, offset + n, size - n, buf', got + buf'[..n]);
        var (rv, _, m2) := ReadLoop(ec, m1, offset + n, size - n, buf', got + buf'[..n]);
        EndedOnceMore(m, m1, m2, rv);
      }
    }
  }

  lemma {:induction false} WriteLoopEnds(ec: Ec, m: Machine, offset: nat, data: seq<byte>, step: nat)
    requires offset + |data| <= |m.s.flash| && step > 0
    ensures var (rv, m') := WriteLoop(ec, m, offset, data, step); rv <= 0 && EndedByError(m, m', rv)
    decreases |data|
  {
    hide Send;
    hide WriteLoop;
    if data == [] {
      WriteDone(ec, m, offset, step);
    } else {
      WriteStep(ec, m, offset, data, step);
      var n := Min(|data|, step);
      SentReply(ec, m, FlashWrite(offset, data[..n]));
      var (reply, m1) := Send(ec, m, FlashWrite(offset, data[..n]));
      if reply.rv >= 0 {
        WriteLoopEnds(ec, m1, offset + n, data[n..], step);
        var (rv, m2) := WriteLoop(ec, m1, offset + n, data[n..], step);
        EndedOnceMore(m, m1, m2, rv);
      }
    }
  }

  /** On every EC reading and writing stop at the first error and return it, the size query of a
      write included; they return 0 exactly if every command succeeded. */
  lemma ErrorsEndReadAndWrite(ec: Ec, m: Machine, offset: nat, data: seq<byte>)
    requires offset + |data| <= |m.s.flash|
    ensures var (rv, m') := WriteRun(ec, m, offset, data); rv <= 0 && EndedByError(m, m', rv)
    ensures var (rv, _, m') := ReadRun(ec, m, offset, |data|); rv <= 0 && EndedByError(m, m', rv)
  {
    hide Send;
    hide WriteLoop;
    hide ReadLoop;
    ReadLoopEnds(ec, m, offset, |data|, Zeros(MAX_RESPONSE), []);
    SentReply(ec, m, FlashInfo);
    var (reply, m1) := Send(ec, m, FlashInfo);
    if reply.rv >= 0 {
      StepIsPositive(reply.number);
      WriteLoopEnds(ec, m1, offset, data, Step(reply.number));
      var (rv, m2) := WriteLoop(ec, m1, offset, data, Step(reply.number));
      EndedOnceMore(m, m1, m2, rv);
    }
  }
}
