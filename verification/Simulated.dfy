/** The simulated EC, number for number. */
module Simulated {
  import opened EcDevice
  import opened Flash
  import opened Reflash

  /** It starts with the RW version "fake_0.0.1" and without an RO version, both 32 bytes. */
  lemma FirstVersions()
    ensures NO_VERSION == Zeros(32)
    ensures FAKE_VERSION == Ascii("fake_0.0.1") + Zeros(22)
  {
  }

  /** What it answers: 24 bytes of information with 240 as the write size, the bytes it reads, the
      number of bytes it has written, 0 for an erase and a notification, and -1 for everything it
      does not know. */
  lemma Replies(s: Snapshot, q: Request)
    requires Answerable(s, q)
    ensures var (reply, after) := Obeyed(s, q, SIMULATED);
            && (q.FlashInfo? ==> reply == Reply(24, [], 240))
            && (q.FlashRead? ==> reply == Reply(q.size, s.flash[q.offset..q.offset + q.size], 0))
            && (q.FlashWrite? ==> reply == Reply(|q.data|, [], 0))
            && (q.FlashErase? || q.FlashNotified? ==> reply == Reply(0, [], 0))
            && (q.Hello? || q.GetCmdVersions? ==> reply == Reply(-1, [], 0))
            && (!Modifying(q) ==> after == s)
  {
  }

  /** An erase leaves 0xFF in its range and counts its bytes; a write counts its own. */
  lemma Effects(s: Snapshot, q: Request)
    requires Answerable(s, q)
    ensures var after := Obeyed(s, q, SIMULATED).1;
            && (q.FlashErase? ==>
                  && after.erased == s.erased + q.size && after.written == s.written
                  && |after.flash| == |s.flash|
                  && forall j :: 0 <= j < |s.flash| ==>
                       after.flash[j] == if q.offset <= j < q.offset + q.size then 0xFF else s.flash[j])
            && (q.FlashWrite? ==> after.written == s.written + |q.data| && after.erased == s.erased)
  {
  }

  /** The version report is 100 bytes long, of which 32 are the RO and 32 the RW version. */
  lemma VersionReply(ec: Ec, m: Machine)
    requires Reportable(m.s.flash) && !ec.faults(|m.log|).Rogue?
    ensures var (reply, m') := SendGetVersion(ec, m); reply == Reply(100, m'.s.ro + m'.s.rw, 0)
  {
  }
}
