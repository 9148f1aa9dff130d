/** Loading a hex file into target RAM, in one stage or two: what the requests of every run keep,
    and what a run that reports success leaves in memory. */
module RamLoader {
  import opened Memory
  import opened Merging
  import opened HexReader
  import opened Target
  import opened Poking

  // ---- The loader --------------------------------------------------------------------------

  /** The flush before a record too long for the buffers: the room test is made in 64 bits. */
  function BeyondFlush(m: Merger, offset: nat, len: nat): seq<Block> {
    if m.data != [] && (offset != m.addr + |m.data| || (|m.data| + len) % ULONG > MAX_SEGMENT) then Flushed(m) else []
  }

  /** At a length column of 2^64 - d the saved data is flushed if it is not contiguous with the record, or if
      it is shorter than d, when the room test wraps around below zero. */
  lemma BeyondFlushes(m: Merger, offset: nat, d: nat)
    requires 0 < |m.data| <= 1023 && 1 <= d <= 5
    ensures BeyondFlush(m, offset, 0x1_0000_0000_0000_0000 - d) ==
            if offset != m.addr + |m.data| || |m.data| < d then [Block(m.addr, m.data)] else []
  {
  }

  /** The flush after the last record: none after a failed read. */
  function LastFlush(m: Merger, s: Scan): seq<Block> {
    match s
    case Scan(_, rc) => if rc == 0 then Flushed(m) else []
    case Overrun(_, offset, len) => BeyondFlush(m, offset, len)
  }

  /** The segments the rest of a scan pokes, from saved data m on, when no poke fails. */
  function PokedFrom(m: Merger, rest: Scan): seq<Block> {
    Emitted(m, rest.records) + LastFlush(After(m, rest.records), rest)
  }

  function PokedSegments(s: Scan): seq<Block> {
    PokedFrom(EMPTY_MERGER, s)
  }

  /** `parse_ihex`: a failed poke ends the scan with -1, else the scan's own code is returned. A scan
      that would leave its buffers stops there. */
  function ParseIhex(ctx: Context, d: Device, faults: Faults, text: string, buf: string): (p: Poked)
    requires |buf| == BUFFER_SIZE
    ensures SameKind(ctx, p.ctx)
  {
    var s := ReadAll(text, buf);
    var p := PokeAll(ctx, d, faults, PokedSegments(s));
    Poked(p.ctx, p.dev, if p.rc < 0 then -1 else s.Code())
  }

  /** The address the loader takes for that of the CPUCS register. */
  function Cpucs(part: Part): nat {
    if part == FX2LP || part == FX2 then 0xe600 else 0x7f92
  }

  function SetCpu(d: Device, faults: Faults, run: bool): Device {
    Send(d, faults, RW_INTERNAL, Cpucs(d.part), [if run then 0 else 1])
  }

  function ResetCpu(p: Poked, faults: Faults): Poked {
    var d := SetCpu(p.dev, faults, true);
    Poked(p.ctx, d, if LastOutcome(d).Done? then 0 else -1)
  }

  function FirstContext(stage: bool): Context {
    RamContext(if stage then SkipInternal else InternalOnly, 0, 0)
  }

  /** `ezusb_load_ram` on an opened file; buf1 and buf2 are what the line buffers of the two scans
      happen to hold at first. */
  function LoadRam(d: Device, faults: Faults, text: string, stage: bool, buf1: string, buf2: string): Poked
    requires |buf1| == |buf2| == BUFFER_SIZE
  {
    if !stage then
      var stopped := SetCpu(d, faults, false);
      if LastOutcome(stopped).Failed? then Poked(FirstContext(stage), stopped, -1) else
        var p := ParseIhex(FirstContext(stage), stopped, faults, text, buf1);
        if p.rc != 0 then p else ResetCpu(p, faults)
    else
      var p := ParseIhex(FirstContext(stage), d, faults, text, buf1);
      if p.rc != 0 then p else
        var ctx := p.ctx.(mode := SkipExternal);
        var stopped := SetCpu(p.dev, faults, false);
        if LastOutcome(stopped).Failed? then Poked(ctx, stopped, -1) else
          var q := ParseIhex(ctx, stopped, faults, text, buf2);
          if q.rc != 0 then q else ResetCpu(q, faults)
  }

  // ---- Write discipline --------------------------------------------------------------------

  /** First-stage writes touch only on-chip addresses of a stopped CPU; second-stage writes come while
      the CPU is as it was at the start, running if its second-stage loader does. */
  ghost predicate Disciplined(part: Part, started: bool, r: Request) {
    SetsCpu(part, r) ||
    (r.op == 0xA0 && !r.cpuRunning && forall x :: r.addr <= x < r.addr + |r.data| ==> OnChip(part, x)) ||
    (r.op == 0xA3 && r.cpuRunning == started)
  }

  ghost predicate AllDisciplined(part: Part, started: bool, before: seq<Request>, after: seq<Request>) {
    before <= after && forall i :: |before| <= i < |after| ==> Disciplined(part, started, after[i])
  }

  ghost predicate Sized(segments: seq<Block>) {
    forall i :: 0 <= i < |segments| ==> 1 <= |segments[i].data| <= MAX_SEGMENT && segments[i].addr < ADDRESS_SPACE
  }

  /** The CPU state in each pass: stopped, except in the first of two, where it is as at the start. */
  predicate CpuAsNeeded(mode: Mode, started: bool, d: Device) {
    d.running == (mode == SkipInternal && started)
  }

  lemma OnChipSegment(part: Part, s: Block)
    requires s.data != [] && !IsExternal(part, s.addr, |s.data|)
    ensures forall x :: s.addr <= x < s.addr + |s.data| ==> OnChip(part, x)
    ensures s.addr != CpuRegister(part)
  {
    ExternalMeansOffChip(part, s.addr, |s.data|);
    assert OnChip(part, s.addr);
  }

  lemma {:induction false} PassDisciplined(ctx: Context, d: Device, started: bool, faults: Faults, segments: seq<Block>)
    requires ctx.RamContext? && Sized(segments) && CpuAsNeeded(ctx.mode, started, d)
    ensures var p := PokeAll(ctx, d, faults, segments);
            && p.dev.part == d.part && p.dev.running == d.running && p.dev.eeprom == d.eeprom
            && AllDisciplined(d.part, started, d.log, p.dev.log)
    decreases |segments|
  {
    if segments != [] {
      var s := segments[0];
      PokeDisciplined(ctx, d, started, faults, s);
      var p := Poke(ctx, d, faults, s);
      if p.rc >= 0 {
        PassDisciplined(p.ctx, p.dev, started, faults, segments[1..]);
      }
    }
  }

  lemma PokeDisciplined(ctx: Context, d: Device, started: bool, faults: Faults, s: Block)
    requires ctx.RamContext? && 1 <= |s.data| && s.addr < ADDRESS_SPACE && CpuAsNeeded(ctx.mode, started, d)
    ensures var p := Poke(ctx, d, faults, s);
            && p.dev.part == d.part && p.dev.running == d.running && p.dev.eeprom == d.eeprom
            && AllDisciplined(d.part, started, d.log, p.dev.log)
  {
    var external := IsExternal(d.part, s.addr, |s.data|);
    if (ctx.mode == InternalOnly && external) || Skips(ctx.mode, external) {
      assert Poke(ctx, d, faults, s).dev == d;
    } else {
      WriteDisciplined(d, started, faults, external, s);
      if !external {
        OnChipSegment(d.part, s);
      }
      WriteEffect(d, faults, if external then RW_MEMORY else RW_INTERNAL, s.addr, s.data);
    }
  }

  lemma WriteDisciplined(d: Device, started: bool, faults: Faults, external: bool, s: Block)
    requires 1 <= |s.data| && s.addr < ADDRESS_SPACE
    requires external == IsExternal(d.part, s.addr, |s.data|) && d.running == (external && started)
    ensures var d' := WriteWithRetry(d, faults, if external then RW_MEMORY else RW_INTERNAL, s.addr, s.data, 0);
            AllDisciplined(d.part, started, d.log, d'.log)
  {
    var op := if external then RW_MEMORY else RW_INTERNAL;
    var d' := WriteWithRetry(d, faults, op, s.addr, s.data, 0);
    RetryBound(d, faults, op, s.addr, s.data, 0);
    if !external {
      OnChipSegment(d.part, s);
    }
    assert forall o :: Disciplined(d.part, started, Request(op, s.addr, s.data, o, d.running));
  }

  /** What one attempted RAM write leaves: the memory with the segment stored, if it was applied. */
  lemma WriteEffect(d: Device, faults: Faults, op: byte, addr: nat, data: seq<byte>)
    requires addr < ADDRESS_SPACE && (op == RW_MEMORY || (op == RW_INTERNAL && addr != CpuRegister(d.part)))
    ensures var d' := WriteWithRetry(d, faults, op, addr, data, 0);
            && d'.part == d.part && d'.running == d.running && d'.eeprom == d.eeprom
            && d'.ram == if LastOutcome(d').Done? then Store(d.ram, addr, data) else d.ram
  {
    RetryEffect(d, faults, op, addr, data, 0);
    var d' := WriteWithRetry(d, faults, op, addr, data, 0);
    RamRequestEffect(d, d'.log[|d'.log| - 1]);
  }

  lemma RamRequestEffect(d: Device, r: Request)
    requires r.op == RW_MEMORY || (r.op == RW_INTERNAL && r.addr != CpuRegister(d.part))
    ensures Effect(d, r) == d.(ram := if r.outcome.Done? then Store(d.ram, r.addr, r.data) else d.ram)
  {
  }

  lemma ScanSegmentsSized(text: string, buf: string)
    requires |buf| == BUFFER_SIZE
    ensures Sized(PokedSegments(ReadAll(text, buf)))
  {
    var s := ReadAll(text, buf);
    ScanBounds(text, buf);
    SegmentSizes(EMPTY_MERGER, s.records);
    var all := SegmentsFrom(EMPTY_MERGER, s.records);
    assert forall i :: 0 <= i < |all| ==> all[i] in all;
    assert LastFlush(After(EMPTY_MERGER, s.records), s) <= Flushed(After(EMPTY_MERGER, s.records));
  }

  lemma SetCpuDisciplined(d: Device, started: bool, faults: Faults, run: bool)
    ensures var d' := SetCpu(d, faults, run);
            && d'.part == d.part && d'.eeprom == d.eeprom && d'.ram == d.ram
            && d'.running == (if LastOutcome(d').Done? then run else d.running)
            && AllDisciplined(d.part, started, d.log, d'.log)
  {
    assert Cpucs(d.part) % ADDRESS_SPACE == Cpucs(d.part);
  }

  lemma DisciplineChains(part: Part, started: bool, a: seq<Request>, b: seq<Request>, c: seq<Request>)
    requires AllDisciplined(part, started, a, b) && AllDisciplined(part, started, b, c)
    ensures AllDisciplined(part, started, a, c)
  {
  }

  lemma ParseDisciplined(ctx: Context, d: Device, started: bool, faults: Faults, text: string, buf: string)
    requires |buf| == BUFFER_SIZE && ctx.RamContext? && CpuAsNeeded(ctx.mode, started, d)
    ensures var p := ParseIhex(ctx, d, faults, text, buf);
            && p.dev.part == d.part && p.dev.running == d.running && p.dev.eeprom == d.eeprom
            && AllDisciplined(d.part, started, d.log, p.dev.log)
  {
    ScanSegmentsSized(text, buf);
    PassDisciplined(ctx, d, started, faults, PokedSegments(ReadAll(text, buf)));
  }

  /** For every file, every pattern of failures and every stage: each request of the run, up to an
      access outside the scan's buffers, keeps the write discipline, and the EEPROM is not touched. */
  lemma LoadKeepsDiscipline(d: Device, faults: Faults, text: string, stage: bool, buf1: string, buf2: string)
    requires |buf1| == |buf2| == BUFFER_SIZE
    ensures var p := LoadRam(d, faults, text, stage, buf1, buf2);
            && p.dev.part == d.part && p.dev.eeprom == d.eeprom
            && AllDisciplined(d.part, d.running, d.log, p.dev.log)
            && (p.rc == 0 ==> p.dev.running)
  {
    var started := d.running;
    if !stage {
      SetCpuDisciplined(d, started, faults, false);
      var stopped := SetCpu(d, faults, false);
      if LastOutcome(stopped).Done? {
        SecondPassDisciplined(FirstContext(stage), d, stopped, faults, text, buf1);
      }
    } else {
      ParseDisciplined(FirstContext(stage), d, started, faults, text, buf1);
      var p := ParseIhex(FirstContext(stage), d, faults, text, buf1);
      if p.rc == 0 {
        SetCpuDisciplined(p.dev, started, faults, false);
        var stopped := SetCpu(p.dev, faults, false);
        DisciplineChains(d.part, started, d.log, p.dev.log, stopped.log);
        if LastOutcome(stopped).Done? {
          SecondPassDisciplined(p.ctx.(mode := SkipExternal), d, stopped, faults, text, buf2);
        }
      }
    }
  }

  /** The scan with the CPU stopped, and the reset after it. */
  lemma SecondPassDisciplined(ctx: Context, d: Device, stopped: Device, faults: Faults, text: string, buf: string)
    requires |buf| == BUFFER_SIZE && ctx.RamContext? && ctx.mode != SkipInternal && !stopped.running
    requires stopped.part == d.part && stopped.eeprom == d.eeprom
    requires AllDisciplined(d.part, d.running, d.log, stopped.log)
    ensures var q := ParseIhex(ctx, stopped, faults, text, buf);
            var p := if q.rc != 0 then q else ResetCpu(q, faults);
            && p.dev.part == d.part && p.dev.eeprom == d.eeprom
            && AllDisciplined(d.part, d.running, d.log, p.dev.log)
            && (p.rc == 0 ==> p.dev.running)
  {
    var started := d.running;
    ParseDisciplined(ctx, stopped, started, faults, text, buf);
    var q := ParseIhex(ctx, stopped, faults, text, buf);
    DisciplineChains(d.part, started, d.log, stopped.log, q.dev.log);
    if q.rc == 0 {
      SetCpuDisciplined(q.dev, started, faults, true);
      DisciplineChains(d.part, started, d.log, q.dev.log, SetCpu(q.dev, faults, true).log);
    }
  }

  // ---- The CPU while memory is written -----------------------------------------------------

  /** A write of one byte to the CPUCS register, which was applied. */
  predicate SetsReset(part: Part, r: Request, value: byte) {
    && r.op == 0xA0 && r.data == [value] && r.outcome == Done
    && r.addr == if part == FX2 || part == FX2LP then 0xe600 else 0x7f92
  }

  /** Request i puts the CPU in reset and the last one takes it out. Before i external memory alone is
      written, and between the two on-chip memory alone, with the CPU stopped. */
  ghost predicate ResetAround(part: Part, before: seq<Request>, log: seq<Request>, i: nat) {
    var n := |log| - 1;
    && before <= log && |before| <= i < n
    && SetsReset(part, log[i], 1) && SetsReset(part, log[n], 0)
    && (forall j :: |before| <= j < i ==> log[j].op == 0xA3)
    && (forall j :: i < j < n ==> log[j].op == 0xA0 && !log[j].cpuRunning && !SetsCpu(part, log[j]))
  }

  /** The requests of a pass write on-chip memory, or external memory if on-chip segments are skipped. */
  ghost predicate PassOps(part: Part, mode: Mode, before: seq<Request>, log: seq<Request>) {
    && before <= log
    && forall j :: |before| <= j < |log| ==>
         if mode == SkipInternal then log[j].op == 0xA3 else log[j].op == 0xA0 && !SetsCpu(part, log[j])
  }

  lemma WriteOps(d: Device, faults: Faults, mode: Mode, external: bool, s: Block)
    requires 1 <= |s.data| && s.addr < ADDRESS_SPACE && external == IsExternal(d.part, s.addr, |s.data|)
    requires external == (mode == SkipInternal)
    ensures var d' := WriteWithRetry(d, faults, if external then RW_MEMORY else RW_INTERNAL, s.addr, s.data, 0);
            PassOps(d.part, mode, d.log, d'.log)
  {
    RetryBound(d, faults, if external then RW_MEMORY else RW_INTERNAL, s.addr, s.data, 0);
    if !external {
      OnChipSegment(d.part, s);
    }
  }

  lemma {:induction false} PassHasOps(ctx: Context, d: Device, started: bool, faults: Faults, segments: seq<Block>)
    requires ctx.RamContext? && Sized(segments) && CpuAsNeeded(ctx.mode, started, d)
    ensures PassOps(d.part, ctx.mode, d.log, PokeAll(ctx, d, faults, segments).dev.log)
    decreases |segments|
  {
    if segments != [] {
      var s := segments[0];
      var external := IsExternal(d.part, s.addr, |s.data|);
      var p := Poke(ctx, d, faults, s);
      if !(ctx.mode == InternalOnly && external) && !Skips(ctx.mode, external) {
        WriteOps(d, faults, ctx.mode, external, s);
      }
      PokeDisciplined(ctx, d, started, faults, s);
      if p.rc >= 0 {
        PassHasOps(p.ctx, p.dev, started, faults, segments[1..]);
      }
    }
  }

  /** A pass with the CPU stopped. */
  lemma StoppedPass(ctx: Context, d: Device, faults: Faults, text: string, buf: string)
    requires |buf| == BUFFER_SIZE && ctx.RamContext? && ctx.mode != SkipInternal && !d.running
    ensures var q := ParseIhex(ctx, d, faults, text, buf);
            && q.dev.part == d.part && d.log <= q.dev.log
            && forall j :: |d.log| <= j < |q.dev.log| ==>
                 q.dev.log[j].op == 0xA0 && !q.dev.log[j].cpuRunning && !SetsCpu(d.part, q.dev.log[j])
  {
    ScanSegmentsSized(text, buf);
    PassDisciplined(ctx, d, false, faults, PokedSegments(ReadAll(text, buf)));
    PassHasOps(ctx, d, false, faults, PokedSegments(ReadAll(text, buf)));
  }

  /** The logs along a stop, a pass with the CPU stopped, and a reset. */
  lemma ResetBracket(part: Part, log0: seq<Request>, log1: seq<Request>, log2: seq<Request>, log3: seq<Request>,
                     log4: seq<Request>)
    requires PassOps(part, SkipInternal, log0, log1)
    requires |log2| == |log1| + 1 && log1 <= log2 && SetsReset(part, log2[|log1|], 1)
    requires log2 <= log3 && forall j :: |log2| <= j < |log3| ==>
               log3[j].op == 0xA0 && !log3[j].cpuRunning && !SetsCpu(part, log3[j])
    requires |log4| == |log3| + 1 && log3 <= log4 && SetsReset(part, log4[|log3|], 0)
    ensures ResetAround(part, log0, log4, |log1|)
  {
    assert log4[|log1|] == log3[|log1|] == log2[|log1|];
    forall j | |log0| <= j < |log1| ensures log4[j].op == 0xA3 {
      assert log4[j] == log3[j] == log2[j] == log1[j];
    }
    assert forall j :: |log2| <= j < |log3| ==> log4[j] == log3[j];
  }

  lemma SetCpuSent(d: Device, faults: Faults, run: bool)
    ensures var d' := SetCpu(d, faults, run);
            && d'.part == d.part && |d'.log| == |d.log| + 1 && d.log <= d'.log
            && (LastOutcome(d').Done? ==>
                  d'.running == run && SetsReset(d.part, d'.log[|d.log|], if run then 0 else 1))
  {
    SetCpuDisciplined(d, d.running, faults, run);
  }

  /** From a device whose CPU is about to be stopped: stop, scan and reset. */
  lemma StopScanReset(d0: Device, d: Device, ctx: Context, faults: Faults, text: string, buf: string)
    requires |buf| == BUFFER_SIZE && ctx.RamContext? && ctx.mode != SkipInternal
    requires d.part == d0.part && PassOps(d.part, SkipInternal, d0.log, d.log)
    ensures var stopped := SetCpu(d, faults, false);
            var q := ParseIhex(ctx, stopped, faults, text, buf);
            LastOutcome(stopped).Done? && q.rc == 0 && ResetCpu(q, faults).rc == 0 ==>
              ResetAround(d0.part, d0.log, ResetCpu(q, faults).dev.log, |d.log|)
  {
    var stopped := SetCpu(d, faults, false);
    SetCpuSent(d, faults, false);
    if LastOutcome(stopped).Done? {
      var q := ParseIhex(ctx, stopped, faults, text, buf);
      StoppedPass(ctx, stopped, faults, text, buf);
      SetCpuSent(q.dev, faults, true);
      if ResetCpu(q, faults).rc == 0 {
        ResetBracket(d0.part, d0.log, d.log, stopped.log, q.dev.log, ResetCpu(q, faults).dev.log);
      }
    }
  }

  /** Every successful load puts the CPU in reset before it writes on-chip memory, at once if in a single
      stage, and takes it out of reset last. */
  lemma LoadResetsAround(d: Device, faults: Faults, text: string, stage: bool, buf1: string, buf2: string)
    requires |buf1| == |buf2| == BUFFER_SIZE
    ensures var p := LoadRam(d, faults, text, stage, buf1, buf2);
            p.rc == 0 ==> exists i :: ResetAround(d.part, d.log, p.dev.log, i) && (!stage ==> i == |d.log|)
  {
    if !stage {
      StopScanReset(d, d, FirstContext(stage), faults, text, buf1);
    } else {
      var p := ParseIhex(FirstContext(stage), d, faults, text, buf1);
      ScanSegmentsSized(text, buf1);
      PassDisciplined(FirstContext(stage), d, d.running, faults, PokedSegments(ReadAll(text, buf1)));
      PassHasOps(FirstContext(stage), d, d.running, faults, PokedSegments(ReadAll(text, buf1)));
      StopScanReset(d, p.dev, p.ctx.(mode := SkipExternal), faults, text, buf2);
    }
  }

  /** A load ends without error, with -1, or with the code of a scan that failed. */
  lemma LoadRamCodes(d: Device, faults: Faults, text: string, stage: bool, buf1: string, buf2: string)
    requires |buf1| == |buf2| == BUFFER_SIZE
    ensures var rc, c1, c2 := LoadRam(d, faults, text, stage, buf1, buf2).rc, ReadAll(text, buf1).Code(),
                              ReadAll(text, buf2).Code();
            rc == 0 || rc == -1 || (c1 != 0 && rc == c1) || (stage && c2 != 0 && rc == c2)
  {
  }
}
