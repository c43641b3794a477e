/** The EC behind `SendCommand`: the simulated EC of the repository, and every way it may
    misbehave inside the range a command addresses. */
module EcDevice {
  import opened Wrappers
  import opened Bytes
  import opened Fmap
  import opened Packets

  const EC_CMD_FLASH_ERASE := 0x13
  const FLASH_ERASE_SECTOR_ASYNC := 1
  const FLASH_ERASE_GET_RESULT := 2
  const VERSION_LENGTH := 32
  const NO_VERSION: seq<byte> := seq(VERSION_LENGTH, _ => 0)
  /** "fake_0.0.1" */
  const FAKE_VERSION: seq<byte> :=
    [0x66, 0x61, 0x6B, 0x65, 0x5F, 0x30, 0x2E, 0x30, 0x2E, 0x31] + seq(VERSION_LENGTH - 10, _ => 0)

  datatype Request =
    | GetVersion
    | GetCmdVersions(command: nat)
    | Hello
    | FlashInfo
    | FlashRead(offset: nat, size: nat)
    | FlashWrite(offset: nat, data: seq<byte>)
    | FlashErase(offset: nat, size: nat)
    | FlashEraseV1(subcommand: nat, offset: nat, size: nat)
    | FlashNotified(flags: byte)

  /** The returned code, the response bytes, and the one number of a numeric response: the ideal
      write size or the mask of command versions. */
  datatype Reply = Reply(rv: int, data: seq<byte>, number: nat)

  /** Ideal write sizes with which every chunk of a write fits a packet. */
  predicate Fitting(w: nat) {
    1 <= w <= MAX_PAYLOAD && MAX_PAYLOAD % w >= 8
  }

  type FittingSize = w: nat | Fitting(w) witness 240

  /** What happens to one command. It is obeyed. Or it goes rogue: it returns any code, leaves any
      bytes in the range it addresses and answers any numbers; only a read that succeeds still
      delivers the flash contents. Or, if it is a read, it succeeds and delivers only the first
      `count` bytes; or `count` bytes that may be anything (`bytes`, by flash address). */
  datatype Fault =
    | Obey
    | Rogue(rv: int, fill: nat -> byte, ideal: FittingSize, versions: nat)
    | ShortRead(count: nat)
    | FalseRead(count: nat, bytes: nat -> byte)

  /** What the simulated EC keeps: its flash, two counters, and the two version strings. */
  datatype Snapshot = Snapshot(flash: seq<byte>, erased: int, written: int, ro: seq<byte>, rw: seq<byte>)

  datatype Entry = Entry(request: Request, reply: Reply, after: Snapshot)

  /** What an EC reports about itself: its ideal write size; the versions of a command, if it
      answers that question at all; and whether it is reached over the bus, where a command that
      returns no data returns 0 and a refused one the EC's result code below -1000. */
  datatype Profile = Profile(ideal: FittingSize, versions: Option<nat>, overBus: bool)

  /** The simulated EC's profile. */
  const SIMULATED := Profile(240, None, false)

  function Refusal(p: Profile): (rv: int)
    ensures rv < 0
  {
    if p.overBus then -EECRESULT - RES_INVALID_COMMAND else -RES_INVALID_COMMAND
  }

  // ---------------------------------------------------------------- flash contents

  function Ones(n: nat): (s: seq<byte>)
    ensures |s| == n && forall k :: 0 <= k < n ==> s[k] == 0xFF
  {
    seq(n, _ => 0xFF)
  }

  function Filled(n: nat, fill: nat -> byte): (s: seq<byte>)
    ensures |s| == n
  {
    seq<byte>(n, k requires 0 <= k < n => fill(k))
  }

  function Erased(flash: seq<byte>, offset: nat, size: nat): (r: seq<byte>)
    requires offset + size <= |flash|
    ensures |r| == |flash|
  {
    Splice(flash, offset, Ones(size))
  }

  /** Writing can only clear bits. */
  function Programmed(flash: seq<byte>, offset: nat, data: seq<byte>): (r: seq<byte>)
    requires offset + |data| <= |flash|
    ensures |r| == |flash|
    ensures forall k :: 0 <= k < |flash| ==>
              r[k] == if offset <= k < offset + |data| then And(flash[k], data[k - offset]) else flash[k]
  {
    seq(|flash|, k requires 0 <= k < |flash| =>
      if offset <= k < offset + |data| then And(flash[k], data[k - offset]) as byte else flash[k])
  }

  function Scribbled(flash: seq<byte>, offset: nat, size: nat, fill: nat -> byte): (r: seq<byte>)
    requires offset + size <= |flash|
    ensures |r| == |flash|
    ensures forall k :: 0 <= k < |flash| ==> r[k] == if offset <= k < offset + size then fill(k) else flash[k]
  {
    seq(|flash|, k requires 0 <= k < |flash| => if offset <= k < offset + size then fill(k) else flash[k])
  }

  ghost predicate SameOutside(a: seq<byte>, b: seq<byte>, lo: int, hi: int) {
    |a| == |b| && forall k :: 0 <= k < |a| && !(lo <= k < hi) ==> a[k] == b[k]
  }

  /** A write in two pieces. */
  lemma ProgrammedInPieces(flash: seq<byte>, offset: nat, d1: seq<byte>, d2: seq<byte>)
    requires offset + |d1| + |d2| <= |flash|
    ensures Programmed(Programmed(flash, offset, d1), offset + |d1|, d2) == Programmed(flash, offset, d1 + d2)
  {
    var a, b := Programmed(Programmed(flash, offset, d1), offset + |d1|, d2), Programmed(flash, offset, d1 + d2);
    forall k | 0 <= k < |flash|
      ensures a[k] == b[k]
    {
      if offset + |d1| <= k < offset + |d1| + |d2| {
        assert (d1 + d2)[k - offset] == d2[k - (offset + |d1|)];
      }
    }
  }

  /** Erasing and then writing stores the data, whatever was there before. */
  lemma EraseThenProgram(flash: seq<byte>, offset: nat, data: seq<byte>)
    requires offset + |data| <= |flash|
    ensures Programmed(Erased(flash, offset, |data|), offset, data) == Splice(flash, offset, data)
  {
    var r := Programmed(Erased(flash, offset, |data|), offset, data);
    forall k | 0 <= k < |flash|
      ensures r[k] == Splice(flash, offset, data)[k]
    {
      if offset <= k < offset + |data| {
        AndOnes(data[k - offset]);
      }
    }
  }

  // ---------------------------------------------------------------- the version report

  /** The lookups of the version report stay inside the flash. */
  predicate Reportable(flash: seq<byte>) {
    GetImageFlashMap(flash).Some? ==>
      var header := GetImageFlashMap(flash).value;
      && header + HEADER_SIZE <= |flash|
      && VersionReadable(flash, header, RO_FRID) && VersionReadable(flash, header, RW_FWID)
  }

  predicate VersionReadable(s: seq<byte>, header: nat, name: seq<byte>)
    requires header + HEADER_SIZE <= |s|
  {
    && Searchable(s, header, name, 0)
    && var area := AreaFrom(s, header, name, 0);
       area.Some? ==> AreaOffset(s, area.value) + VERSION_LENGTH <= |s|
  }

  /** The 32 bytes the named area points to; `other` if there is no such area. */
  function VersionString(s: seq<byte>, header: nat, name: seq<byte>, other: seq<byte>): seq<byte>
    requires header + HEADER_SIZE <= |s| && VersionReadable(s, header, name)
  {
    var area := AreaFrom(s, header, name, 0);
    if area.None? then other
    else s[AreaOffset(s, area.value)..AreaOffset(s, area.value) + VERSION_LENGTH]
  }

  /** The report is static: strings that are not found keep their last value. */
  function Reported(s: Snapshot): Snapshot
    requires Reportable(s.flash)
  {
    var header := GetImageFlashMap(s.flash);
    if header.None? then s
    else s.(ro := VersionString(s.flash, header.value, RO_FRID, s.ro),
            rw := VersionString(s.flash, header.value, RW_FWID, s.rw))
  }

  // ---------------------------------------------------------------- commands

  /** The flash range a request addresses. */
  function Range(q: Request): (int, int) {
    match q
    case FlashRead(offset, size) => (offset, offset + size)
    case FlashWrite(offset, data) => (offset, offset + |data|)
    case FlashErase(offset, size) => (offset, offset + size)
    case FlashEraseV1(_, offset, size) => (offset, offset + size)
    case _ => (0, 0)
  }

  predicate Modifying(q: Request) {
    q.FlashWrite? || q.FlashErase? || q.FlashEraseV1?
  }

  /** Like the source, a handler checks no bounds. */
  predicate Answerable(s: Snapshot, q: Request) {
    !q.GetVersion? && Range(q).1 <= |s.flash|
  }

  /** An obeyed command. Version 1 of erase, which the simulated EC does not report, erases at
      once and answers every question for its result. */
  function Obeyed(s: Snapshot, q: Request, p: Profile): (Reply, Snapshot)
    requires Answerable(s, q)
  {
    match q
    case FlashInfo => (Reply(24, [], p.ideal), s)
    case FlashRead(offset, size) => (Reply(size, s.flash[offset..offset + size], 0), s)
    case FlashWrite(offset, data) =>
      (Reply(if p.overBus then 0 else |data|, [], 0),
       s.(flash := Programmed(s.flash, offset, data), written := s.written + |data|))
    case FlashErase(offset, size) =>
      (Reply(0, [], 0), s.(flash := Erased(s.flash, offset, size), erased := s.erased + size))
    case FlashEraseV1(subcommand, offset, size) =>
      (Reply(0, [], 0),
       if subcommand == FLASH_ERASE_SECTOR_ASYNC
       then s.(flash := Erased(s.flash, offset, size), erased := s.erased + size)
       else s)
    case FlashNotified(_) => (Reply(0, [], 0), s)
    case GetCmdVersions(_) =>
      (if p.versions.Some? then Reply(4, [], p.versions.value) else Reply(Refusal(p), [], 0), s)
    case Hello => (Reply(Refusal(p), [], 0), s)
  }

  /** What a false read delivers. */
  function Told(offset: nat, count: nat, bytes: nat -> byte): (r: seq<byte>)
    ensures |r| == count
  {
    seq<byte>(count, k requires 0 <= k < count => bytes(offset + k))
  }

  function Answered(f: Fault, s: Snapshot, q: Request, p: Profile): (r: (Reply, Snapshot))
    requires Answerable(s, q)
    ensures SameOutside(r.1.flash, s.flash, Range(q).0, Range(q).1)
    ensures q.FlashRead? ==> |r.0.data| <= q.size
    ensures !Modifying(q) ==> r.1.flash == s.flash && r.1.erased == s.erased && r.1.written == s.written
  {
    match f
    case Obey => Obeyed(s, q, p)
    case ShortRead(count) =>
      if q.FlashRead? && count < q.size
      then (Reply(count, s.flash[q.offset..q.offset + count], 0), s)
      else Obeyed(s, q, p)
    case FalseRead(count, bytes) =>
      if q.FlashRead?
      then (Reply(Min(count, q.size), Told(q.offset, Min(count, q.size), bytes), 0), s)
      else Obeyed(s, q, p)
    case Rogue(rv, fill, rogueIdeal, versions) =>
      if Modifying(q) then
        (Reply(rv, [], 0), s.(flash := Scribbled(s.flash, Range(q).0, Range(q).1 - Range(q).0, fill)))
      else if q.FlashRead? && rv >= 0 then Obeyed(s, q, p)
      else if q.FlashInfo? then (Reply(rv, [], rogueIdeal), s)
      else (Reply(rv, [], versions), s)
  }

  // ---------------------------------------------------------------- machines

  /** What is fixed about an EC: the fate of every command, by its number; what it reports about
      itself; its mapped memory at every read, by its number. */
  datatype Ec = Ec(faults: nat -> Fault, profile: Profile, memmap: nat -> MappedMemory)

  type MappedMemory = s: seq<byte> | |s| == 0x100 witness seq(0x100, _ => 0)

  /** An EC with everything the host has done to it: the commands sent so far with their
      replies and the state each left, the reads of mapped memory, and the time spent stalling. */
  datatype Machine = Machine(s: Snapshot, log: seq<Entry>, memoryReads: nat, stalled: nat)

  /** No command fails and none is answered short. */
  ghost predicate Obedient(ec: Ec) {
    forall n :: ec.faults(n).Obey?
  }

  /** No read is cut short. */
  ghost predicate NoShortReads(ec: Ec) {
    forall n :: !ec.faults(n).ShortRead?
  }

  /** No read delivers bytes that are not in the flash. */
  ghost predicate NoFalseReads(ec: Ec) {
    forall n :: !ec.faults(n).FalseRead?
  }

  /** From `m` to `m'` commands were only added. */
  ghost predicate Extends(m: Machine, m': Machine) {
    |m.log| <= |m'.log| && m'.log[..|m.log|] == m.log
  }

  lemma ExtendsTransitive(m: Machine, m1: Machine, m2: Machine)
    requires Extends(m, m1) && Extends(m1, m2)
    ensures Extends(m, m2)
    ensures forall k :: 0 <= k < |m1.log| ==> m2.log[k] == m1.log[k]
  {
    assert m2.log[..|m.log|] == m2.log[..|m1.log|][..|m.log|];
    forall k | 0 <= k < |m1.log|
      ensures m2.log[k] == m1.log[k]
    {
      assert m2.log[k] == m2.log[..|m1.log|][k];
    }
  }

  /** A read that succeeded returned the number of bytes it was asked for. */
  predicate FullRead(e: Entry) {
    e.request.FlashRead? && e.reply.rv >= 0 ==> e.reply.rv == e.request.size
  }

  /** All reads that succeeded from `m` to `m'` did. A caller can check this on the replies. */
  ghost predicate FullReads(m: Machine, m': Machine) {
    forall k :: |m.log| <= k < |m'.log| ==> FullRead(m'.log[k])
  }

  /** A read that succeeded delivered what the flash holds, all of it. */
  predicate TrueRead(e: Entry) {
    e.request.FlashRead? && e.reply.rv >= 0 ==>
      && Range(e.request).1 <= |e.after.flash|
      && e.reply.data == e.after.flash[e.request.offset..e.request.offset + e.request.size]
  }

  ghost predicate TrueReads(m: Machine, m': Machine) {
    forall k :: |m.log| <= k < |m'.log| ==> TrueRead(m'.log[k])
  }

  function Send(ec: Ec, m: Machine, q: Request): (r: (Reply, Machine))
    requires Answerable(m.s, q)
    ensures |r.1.s.flash| == |m.s.flash|
    ensures q.FlashRead? ==> |r.0.data| <= q.size
    ensures q.FlashInfo? ==> Fitting(r.0.number)
  {
    var (reply, s) := Answered(ec.faults(|m.log|), m.s, q, ec.profile);
    (reply, m.(s := s, log := m.log + [Entry(q, reply, s)]))
  }

  /** The version command; the two strings are the first 64 of its 100 response bytes. */
  function SendGetVersion(ec: Ec, m: Machine): (r: (Reply, Machine))
    requires Reportable(m.s.flash)
    ensures r.1.s.flash == m.s.flash
  {
    var f := ec.faults(|m.log|);
    var s := if f.Rogue? then m.s else Reported(m.s);
    var reply := if f.Rogue? then Reply(f.rv, Filled(2 * VERSION_LENGTH, f.fill), 0) else Reply(100, s.ro + s.rw, 0);
    (reply, m.(s := s, log := m.log + [Entry(GetVersion, reply, s)]))
  }

  function Stalled(m: Machine, microseconds: nat): Machine {
    m.(stalled := m.stalled + microseconds)
  }

  class Device {
    const ec: Ec
    const flash: array<byte>
    var flashBytesErased: int
    var flashBytesWritten: int
    var versionRo: seq<byte>
    var versionRw: seq<byte>
    var issued: nat
    var memoryReads: nat
    var stalled: nat
    ghost var log: seq<Entry>

    /** A simulated EC straight after its constructor: all flash erased. */
    constructor (size: nat, ec: Ec)
      ensures Valid() && fresh(flash) && this.ec == ec
      ensures M() == Machine(Snapshot(Ones(size), 0, 0, NO_VERSION, FAKE_VERSION), [], 0, 0)
    {
      this.ec := ec;
      flash := new byte[size](_ => 0xFF);
      flashBytesErased, flashBytesWritten := 0, 0;
      versionRo, versionRw := NO_VERSION, FAKE_VERSION;
      issued, memoryReads, stalled, log := 0, 0, 0, [];
    }

    ghost predicate Valid()
      reads this
    {
      issued == |log|
    }

    ghost function State(): Snapshot
      reads this, flash
    {
      Snapshot(flash[..], flashBytesErased, flashBytesWritten, versionRo, versionRw)
    }

    ghost function M(): Machine
      reads this, flash
    {
      Machine(State(), log, memoryReads, stalled)
    }

    method Stall(microseconds: nat)
      modifies this`stalled
      ensures M() == Stalled(old(M()), microseconds)
    {
      stalled := stalled + microseconds;
    }

    method EraseBytes(offset: nat, size: nat)
      requires offset + size <= flash.Length
      modifies flash
      ensures flash[..] == Erased(old(flash[..]), offset, size)
    {
      forall k | offset <= k < offset + size {
        flash[k] := 0xFF;
      }
    }

    method ProgramBytes(offset: nat, data: seq<byte>)
      requires offset + |data| <= flash.Length
      modifies flash
      ensures flash[..] == Programmed(old(flash[..]), offset, data)
    {
      for i := 0 to |data|
        invariant forall k :: 0 <= k < flash.Length ==>
          flash[k] == if offset <= k < offset + i then And(old(flash[k]), data[k - offset]) else old(flash[k])
      {
        flash[offset + i] := And(flash[offset + i], data[i]);
      }
    }

    method ScribbleBytes(offset: nat, size: nat, fill: nat -> byte)
      requires offset + size <= flash.Length
      modifies flash
      ensures flash[..] == Scribbled(old(flash[..]), offset, size, fill)
    {
      forall k | offset <= k < offset + size {
        flash[k] := fill(k);
      }
    }

    method ReportVersion()
      requires Reportable(flash[..])
      modifies this`versionRo, this`versionRw
      ensures State() == Reported(old(State()))
    {
      hide Searchable;
      hide AreaFrom;
      hide ScanFrom;
      var hdr := GetImageFlashMap(flash[..]);
      if hdr.Some? {
        versionRo := FindVersion(hdr.value, RO_FRID, versionRo);
        versionRw := FindVersion(hdr.value, RW_FWID, versionRw);
      }
    }

    method FindVersion(hdr: nat, name: seq<byte>, other: seq<byte>) returns (version: seq<byte>)
      requires hdr + HEADER_SIZE <= flash.Length && VersionReadable(flash[..], hdr, name)
      ensures version == VersionString(flash[..], hdr, name, other)
    {
      hide Searchable;
      hide AreaFrom;
      var area := GetImageFlashArea(flash[..], hdr, name);
      if area.Some? {
        var at := AreaOffset(flash[..], area.value);
        version := flash[..][at..at + VERSION_LENGTH];
      } else {
        version := other;
      }
    }

    /** The command dispatch of the simulated EC; GET_VERSION has its own method. */
    method Handle(q: Request) returns (reply: Reply)
      requires Answerable(State(), q)
      modifies this`flashBytesErased, this`flashBytesWritten, flash
      ensures (reply, State()) == Obeyed(old(State()), q, ec.profile)
    {
      match q
      case FlashInfo =>
        reply := Reply(24, [], ec.profile.ideal);
      case FlashRead(offset, size) =>
        reply := Reply(size, flash[offset..offset + size], 0);
      case FlashWrite(offset, data) =>
        ProgramBytes(offset, data);
        flashBytesWritten := flashBytesWritten + |data|;
        reply := Reply(if ec.profile.overBus then 0 else |data|, [], 0);
      case FlashErase(offset, size) =>
        EraseBytes(offset, size);
        flashBytesErased := flashBytesErased + size;
        reply := Reply(0, [], 0);
      case FlashEraseV1(subcommand, offset, size) =>
        if subcommand == FLASH_ERASE_SECTOR_ASYNC {
          EraseBytes(offset, size);
          flashBytesErased := flashBytesErased + size;
        }
        reply := Reply(0, [], 0);
      case FlashNotified(_) =>
        reply := Reply(0, [], 0);
      case GetCmdVersions(_) =>
        if ec.profile.versions.Some? {
          reply := Reply(4, [], ec.profile.versions.value);
        } else {
          reply := Reply(Refusal(ec.profile), [], 0);
        }
      case Hello =>
        reply := Reply(Refusal(ec.profile), [], 0);
    }

    /** A command that goes rogue. */
    method GoRogue(f: Fault, q: Request) returns (reply: Reply)
      requires f.Rogue? && Answerable(State(), q)
      modifies this`flashBytesErased, this`flashBytesWritten, flash
      ensures (reply, State()) == Answered(f, old(State()), q, ec.profile)
    {
      hide Obeyed;
      if Modifying(q) {
        ScribbleBytes(Range(q).0, Range(q).1 - Range(q).0, f.fill);
        reply := Reply(f.rv, [], 0);
      } else if q.FlashRead? && f.rv >= 0 {
        reply := Handle(q);
      } else if q.FlashInfo? {
        reply := Reply(f.rv, [], f.ideal);
      } else {
        reply := Reply(f.rv, [], f.versions);
      }
    }

    method Answer(f: Fault, q: Request) returns (reply: Reply)
      requires Answerable(State(), q)
      modifies this`flashBytesErased, this`flashBytesWritten, flash
      ensures (reply, State()) == Answered(f, old(State()), q, ec.profile)
    {
      hide Obeyed;
      if f.Rogue? {
        reply := GoRogue(f, q);
      } else if f.ShortRead? && q.FlashRead? && f.count < q.size {
        reply := Reply(f.count, flash[q.offset..q.offset + f.count], 0);
      } else if f.FalseRead? && q.FlashRead? {
        reply := Reply(Min(f.count, q.size), Told(q.offset, Min(f.count, q.size), f.bytes), 0);
      } else {
        reply := Handle(q);
      }
    }

    method SendCommand(q: Request) returns (reply: Reply)
      requires Valid() && Answerable(State(), q)
      modifies this, flash
      ensures Valid()
      ensures (reply, M()) == Send(ec, old(M()), q)
    {
      hide Answered;
      reply := Answer(ec.faults(issued), q);
      issued := issued + 1;
      log := log + [Entry(q, reply, State())];
    }

    method GetVersion() returns (reply: Reply)
      requires Valid() && Reportable(State().flash)
      modifies this
      ensures Valid()
      ensures (reply, M()) == SendGetVersion(ec, old(M()))
    {
      var f := ec.faults(issued);
      if f.Rogue? {
        reply := Reply(f.rv, Filled(2 * VERSION_LENGTH, f.fill), 0);
      } else {
        ReportVersion();
        reply := Reply(100, versionRo + versionRw, 0);
      }
      issued := issued + 1;
      log := log + [Entry(Request.GetVersion, reply, State())];
    }

    /** One read of the mapped memory. */
    method ReadMemory() returns (memory: MappedMemory)
      modifies this`memoryReads
      ensures memory == ec.memmap(old(memoryReads))
      ensures M() == old(M()).(memoryReads := old(memoryReads) + 1)
    {
      memory := ec.memmap(memoryReads);
      memoryReads := memoryReads + 1;
    }
  }
}
