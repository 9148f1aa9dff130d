/** What a RAM load that reports success leaves in the target's memory. */
module RamImage {
  import opened Errno
  import opened Memory
  import opened Merging
  import opened HexReader
  import opened HexPrinter
  import opened Target
  import opened Poking
  import opened RamLoader
  import opened Reordering

  /** No failed request leaves errno zero, so that -errno always reports it. */
  ghost predicate ErrnoSet(faults: Faults) {
    forall n :: faults(n) != Failed(0)
  }

  function AppliedBy(part: Part, r: Request): seq<Block> {
    if r.outcome.Done? && (r.op == 0xA0 || r.op == 0xA3) && !SetsCpu(part, r) then [Block(r.addr, r.data)] else []
  }

  /** The memory writes a log applied, in order: what the target was really given. */
  function Applied(part: Part, log: seq<Request>): seq<Block> {
    if log == [] then [] else Applied(part, log[..|log| - 1]) + AppliedBy(part, log[|log| - 1])
  }

  lemma SendApplied(d: Device, faults: Faults, op: byte, addr: nat, data: seq<byte>)
    requires addr < ADDRESS_SPACE
    ensures var d' := Send(d, faults, op, addr, data);
            Applied(d.part, d'.log) ==
            Applied(d.part, d.log) + AppliedBy(d.part, Request(op, addr, data, LastOutcome(d'), d.running))
  {
    var d' := Send(d, faults, op, addr, data);
    assert d'.log[..|d'.log| - 1] == d.log;
  }

  lemma RamSendApplied(d: Device, faults: Faults, op: byte, addr: nat, data: seq<byte>)
    requires addr < ADDRESS_SPACE && (op == RW_MEMORY || (op == RW_INTERNAL && addr != CpuRegister(d.part)))
    ensures AppliedLast(d, Send(d, faults, op, addr, data), addr, data)
  {
    SendApplied(d, faults, op, addr, data);
  }

  /** From d to d' only the last request was applied, if at all. */
  ghost predicate AppliedLast(d: Device, d': Device, addr: nat, data: seq<byte>) {
    && d'.part == d.part && d'.log != []
    && Applied(d.part, d'.log) == Applied(d.part, d.log) + Outcomes(LastOutcome(d'), addr, data)
  }

  lemma AppliedAfterFailure(d: Device, d1: Device, d': Device, addr: nat, data: seq<byte>)
    requires AppliedLast(d, d1, addr, data) && LastOutcome(d1).Failed? && AppliedLast(d1, d', addr, data)
    ensures AppliedLast(d, d', addr, data)
  {
    assert Applied(d.part, d.log) + [] == Applied(d.part, d.log);
  }

  function Outcomes(o: Outcome, addr: nat, data: seq<byte>): seq<Block> {
    if o.Done? then [Block(addr, data)] else []
  }

  lemma {:induction false} RetryApplied(d: Device, faults: Faults, op: byte, addr: nat, data: seq<byte>, retry: nat)
    requires addr < ADDRESS_SPACE && (op == RW_MEMORY || (op == RW_INTERNAL && addr != CpuRegister(d.part)))
    ensures AppliedLast(d, WriteWithRetry(d, faults, op, addr, data, retry), addr, data)
    decreases RETRY_LIMIT - retry
  {
    var d1 := Send(d, faults, op, addr, data);
    RamSendApplied(d, faults, op, addr, data);
    if LastOutcome(d1) == Failed(ETIMEDOUT) && retry < RETRY_LIMIT {
      RetryApplied(d1, faults, op, addr, data, retry + 1);
      AppliedAfterFailure(d, d1, WriteWithRetry(d1, faults, op, addr, data, retry + 1), addr, data);
    }
  }

  /** From d to d' these segments were written and nothing else, each once. */
  ghost predicate Left(d: Device, d': Device, written: seq<Block>) {
    && d'.part == d.part
    && d'.ram == StoreAll(d.ram, Trace(written))
    && Applied(d.part, d'.log) == Applied(d.part, d.log) + written
  }

  lemma LeftChains(d: Device, d1: Device, d2: Device, a: seq<Block>, b: seq<Block>)
    requires Left(d, d1, a) && Left(d1, d2, b)
    ensures Left(d, d2, a + b)
  {
    StoreTraces(d.ram, a, b);
    Associate(Applied(d.part, d.log), a, b);
  }

  lemma StoreTraces(m: Contents, a: seq<Block>, b: seq<Block>)
    ensures StoreAll(StoreAll(m, Trace(a)), Trace(b)) == StoreAll(m, Trace(a + b))
  {
    TraceConcat(a, b);
    StoreAllConcat(m, Trace(a), Trace(b));
  }

  /** The same for a stretch that leaves the CPU alone. */
  ghost predicate Wrote(d: Device, d': Device, written: seq<Block>) {
    d'.running == d.running && Left(d, d', written)
  }

  ghost predicate Counted(ctx: Context, ctx': Context, written: seq<Block>)
    requires ctx.RamContext? && ctx'.RamContext?
  {
    Added(ctx.total, ctx'.total, TotalLength(written)) && Added(ctx.count, ctx'.count, |written|)
  }

  /** A 32-bit counter advanced by n. */
  predicate Added(t: nat, t': nat, n: nat) {
    t' == (t + n) % UINT32
  }

  lemma WriteWrote(d: Device, faults: Faults, external: bool, s: Block)
    requires 1 <= |s.data| && s.addr < ADDRESS_SPACE && external == IsExternal(d.part, s.addr, |s.data|)
    ensures var d' := WriteWithRetry(d, faults, if external then RW_MEMORY else RW_INTERNAL, s.addr, s.data, 0);
            LastOutcome(d').Done? ==> Wrote(d, d', [s])
  {
    if !external {
      OnChipSegment(d.part, s);
    }
    var op := if external then RW_MEMORY else RW_INTERNAL;
    WriteEffect(d, faults, op, s.addr, s.data);
    RetryApplied(d, faults, op, s.addr, s.data, 0);
    TraceOfOne(s);
  }

  lemma WroteNothing(d: Device)
    ensures Wrote(d, d, [])
  {
  }

  /** With errno set by every failure, a write reported as done was applied. */
  lemma AppliedIfReported(d: Device, faults: Faults, op: byte, addr: nat, data: seq<byte>)
    requires addr < ADDRESS_SPACE && ErrnoSet(faults)
    ensures var d' := WriteWithRetry(d, faults, op, addr, data, 0);
            ReportedAs(LastOutcome(d')) >= 0 ==> LastOutcome(d').Done?
  {
    RetryEffect(d, faults, op, addr, data, 0);
  }

  lemma PokeWrote(ctx: Context, d: Device, faults: Faults, s: Block)
    requires ctx.RamContext? && 1 <= |s.data| && s.addr < ADDRESS_SPACE && ErrnoSet(faults)
    requires Poke(ctx, d, faults, s).rc >= 0
    ensures Wrote(d, Poke(ctx, d, faults, s).dev, Unskipped(ctx.mode, d.part, s))
  {
    var external := IsExternal(d.part, s.addr, |s.data|);
    if Skips(ctx.mode, external) {
      WroteNothing(d);
    } else {
      AppliedIfReported(d, faults, if external then RW_MEMORY else RW_INTERNAL, s.addr, s.data);
      WriteWrote(d, faults, external, s);
    }
  }

  lemma PokeCounted(ctx: Context, d: Device, faults: Faults, s: Block)
    requires ctx.RamContext? && ctx.total < UINT32 && ctx.count < UINT32
    requires Poke(ctx, d, faults, s).rc >= 0
    ensures Counted(ctx, Poke(ctx, d, faults, s).ctx, Unskipped(ctx.mode, d.part, s))
    ensures ctx.mode == InternalOnly ==> Unskipped(ctx.mode, d.part, s) == [s]
  {
    TraceOfOne(s);
  }

  lemma SumModulo(t: nat, t1: nat, t2: nat, a: nat, b: nat)
    requires Added(t, t1, a) && Added(t1, t2, b)
    ensures Added(t, t2, a + b)
  {
  }

  lemma CountedChains(ctx: Context, ctx1: Context, ctx2: Context, a: seq<Block>, b: seq<Block>)
    requires ctx.RamContext? && ctx1.RamContext? && ctx2.RamContext?
    requires Counted(ctx, ctx1, a) && Counted(ctx1, ctx2, b)
    ensures Counted(ctx, ctx2, a + b)
  {
    TotalLengthConcat(a, b);
    SumModulo(ctx.total, ctx1.total, ctx2.total, TotalLength(a), TotalLength(b));
    SumModulo(ctx.count, ctx1.count, ctx2.count, |a|, |b|);
  }

  /** A pass that reports success wrote exactly the segments its mode selects, each once. */
  lemma {:induction false} PassWrites(ctx: Context, d: Device, faults: Faults, segments: seq<Block>)
    requires ctx.RamContext? && Sized(segments) && ErrnoSet(faults)
    requires ctx.total < UINT32 && ctx.count < UINT32
    requires PokeAll(ctx, d, faults, segments).rc >= 0
    ensures var p, w := PokeAll(ctx, d, faults, segments), Selected(ctx.mode, d.part, segments);
            Wrote(d, p.dev, w) && Counted(ctx, p.ctx, w)
    ensures ctx.mode == InternalOnly ==> Selected(ctx.mode, d.part, segments) == segments
    decreases |segments|
  {
    if segments != [] {
      var s, rest := segments[0], segments[1..];
      var p := Poke(ctx, d, faults, s);
      PokeWrote(ctx, d, faults, s);
      PokeCounted(ctx, d, faults, s);
      PassWrites(p.ctx, p.dev, faults, rest);
      var w, w' := Unskipped(ctx.mode, d.part, s), Selected(ctx.mode, d.part, rest);
      var q := PokeAll(p.ctx, p.dev, faults, rest);
      LeftChains(d, p.dev, q.dev, w, w');
      CountedChains(ctx, p.ctx, q.ctx, w, w');
    }
  }

  // ---- The theorems ------------------------------------------------------------------------

  lemma SetCpuApplied(d: Device, faults: Faults, run: bool)
    ensures Applied(d.part, SetCpu(d, faults, run).log) == Applied(d.part, d.log)
  {
    SendApplied(d, faults, RW_INTERNAL, Cpucs(d.part), [if run then 0 else 1]);
  }

  lemma SetCpuLeft(d: Device, faults: Faults, run: bool)
    ensures Left(d, SetCpu(d, faults, run), [])
  {
    SetCpuDisciplined(d, d.running, faults, run);
    SetCpuApplied(d, faults, run);
  }

  lemma ScanWrites(ctx: Context, d: Device, faults: Faults, text: string, buf: string)
    requires |buf| == BUFFER_SIZE && ErrnoSet(faults)
    requires ctx.RamContext? && ctx.total < UINT32 && ctx.count < UINT32
    requires ParseIhex(ctx, d, faults, text, buf).rc == 0
    ensures var s, p := ReadAll(text, buf), ParseIhex(ctx, d, faults, text, buf);
            var w := Selected(ctx.mode, d.part, Segments(s.records));
            && s.Code() == 0 && Left(d, p.dev, w) && Counted(ctx, p.ctx, w)
            && (ctx.mode == InternalOnly ==> w == Segments(s.records))
  {
    ScanSegmentsSized(text, buf);
    PassWrites(ctx, d, faults, PokedSegments(ReadAll(text, buf)));
  }

  lemma Unpadded<T>(w: seq<T>)
    ensures [] + w + [] == w
  {
  }

  /** The last part of both loads: stop the CPU, scan, reset the CPU. */
  lemma StoppedScanWrites(ctx: Context, d: Device, faults: Faults, text: string, buf: string)
    requires |buf| == BUFFER_SIZE && ErrnoSet(faults)
    requires ctx.RamContext? && ctx.total < UINT32 && ctx.count < UINT32
    requires ParseIhex(ctx, SetCpu(d, faults, false), faults, text, buf).rc == 0
    requires ResetCpu(ParseIhex(ctx, SetCpu(d, faults, false), faults, text, buf), faults).rc == 0
    ensures var s := ReadAll(text, buf);
            var p := ResetCpu(ParseIhex(ctx, SetCpu(d, faults, false), faults, text, buf), faults);
            var w := Selected(ctx.mode, d.part, Segments(s.records));
            && s.Code() == 0 && Left(d, p.dev, w) && Counted(ctx, p.ctx, w) && p.dev.running
            && (ctx.mode == InternalOnly ==> w == Segments(s.records))
  {
    var stopped := SetCpu(d, faults, false);
    var q := ParseIhex(ctx, stopped, faults, text, buf);
    var w := Selected(ctx.mode, d.part, Segments(ReadAll(text, buf).records));
    SetCpuLeft(d, faults, false);
    ScanWrites(ctx, stopped, faults, text, buf);
    LeftChains(d, stopped, q.dev, [], w);
    SetCpuLeft(q.dev, faults, true);
    SetCpuDisciplined(q.dev, q.dev.running, faults, true);
    LeftChains(d, q.dev, SetCpu(q.dev, faults, true), [] + w, []);
    Unpadded(w);
  }

  /** What a successful load leaves: a running CPU, counters that agree, and these segments written,
      in the order of its passes, and nothing else. */
  ghost predicate LoadLeft(stage: bool, d: Device, p: Poked, segments: seq<Block>) {
    var written := WrittenBy(stage, d.part, segments);
    && p.dev.running && Left(d, p.dev, written)
    && p.ctx.RamContext? && Counted(FirstContext(stage), p.ctx, written)
  }

  /** A single-stage load that reports success found every segment on chip and left exactly the
      segments in memory, each written once, with the CPU running. */
  lemma SingleStageImage(d: Device, faults: Faults, text: string, buf1: string, buf2: string)
    requires |buf1| == |buf2| == BUFFER_SIZE && ErrnoSet(faults)
    ensures var p, s := LoadRam(d, faults, text, false, buf1, buf2), ReadAll(text, buf1);
            p.rc == 0 ==> s.Code() == 0 && LoadLeft(false, d, p, Segments(s.records))
  {
    if LoadRam(d, faults, text, false, buf1, buf2).rc == 0 {
      StoppedScanWrites(FirstContext(false), d, faults, text, buf1);
    }
  }

  /** The two scans of a two-stage load that reports success. */
  lemma TwoStageSteps(d: Device, faults: Faults, text: string, buf1: string, buf2: string) returns (p: Poked)
    requires |buf1| == |buf2| == BUFFER_SIZE
    requires LoadRam(d, faults, text, true, buf1, buf2).rc == 0
    ensures p == ParseIhex(FirstContext(true), d, faults, text, buf1) && p.rc == 0
    ensures var q := ParseIhex(p.ctx.(mode := SkipExternal), SetCpu(p.dev, faults, false), faults, text, buf2);
            q.rc == 0 && LoadRam(d, faults, text, true, buf1, buf2) == ResetCpu(q, faults)
  {
    p := ParseIhex(FirstContext(true), d, faults, text, buf1);
  }

  /** A two-stage load that reports success wrote the external segments its first scan read and then
      the on-chip ones its second scan read, each once. */
  lemma TwoStageImage(d: Device, faults: Faults, text: string, buf1: string, buf2: string)
    requires |buf1| == |buf2| == BUFFER_SIZE && ErrnoSet(faults)
    ensures var p, s, s' := LoadRam(d, faults, text, true, buf1, buf2), ReadAll(text, buf1), ReadAll(text, buf2);
            p.rc == 0 ==> s.Code() == 0 && s'.Code() == 0 && PassesLeft(FirstContext(true), d, p, s, s')
  {
    if LoadRam(d, faults, text, true, buf1, buf2).rc == 0 {
      var p := TwoStageSteps(d, faults, text, buf1, buf2);
      ScansWrite(FirstContext(true), p, d, faults, text, buf1, buf2);
    }
  }

  /** What the two passes of a successful load leave. */
  ghost predicate PassesLeft(ctx: Context, d: Device, p: Poked, s: Scan, s': Scan) {
    var ext := Selected(SkipInternal, d.part, Segments(s.records));
    var chip := Selected(SkipExternal, d.part, Segments(s'.records));
    && p.dev.running && Left(d, p.dev, ext + chip)
    && ctx.RamContext? && p.ctx.RamContext? && Counted(ctx, p.ctx, ext + chip)
  }

  lemma ScansWrite(ctx: Context, p: Poked, d: Device, faults: Faults, text: string, buf1: string, buf2: string)
    requires |buf1| == |buf2| == BUFFER_SIZE && ErrnoSet(faults)
    requires ctx.RamContext? && ctx.mode == SkipInternal && ctx.total < UINT32 && ctx.count < UINT32
    requires p == ParseIhex(ctx, d, faults, text, buf1) && p.rc == 0
    requires var q := ParseIhex(p.ctx.(mode := SkipExternal), SetCpu(p.dev, faults, false), faults, text, buf2);
             q.rc == 0 && ResetCpu(q, faults).rc == 0
    ensures var q := ParseIhex(p.ctx.(mode := SkipExternal), SetCpu(p.dev, faults, false), faults, text, buf2);
            var s, s' := ReadAll(text, buf1), ReadAll(text, buf2);
            s.Code() == 0 && s'.Code() == 0 && PassesLeft(ctx, d, ResetCpu(q, faults), s, s')
  {
    var ctx' := p.ctx.(mode := SkipExternal);
    ScanWrites(ctx, d, faults, text, buf1);
    StoppedScanWrites(ctx', p.dev, faults, text, buf2);
    var r := ResetCpu(ParseIhex(ctx', SetCpu(p.dev, faults, false), faults, text, buf2), faults);
    BothPasses(ctx, p.ctx, r.ctx, d, p.dev, r.dev,
               Selected(SkipInternal, d.part, Segments(ReadAll(text, buf1).records)),
               Selected(SkipExternal, d.part, Segments(ReadAll(text, buf2).records)));
  }

  lemma BothPasses(ctx: Context, ctx1: Context, ctx2: Context, d: Device, d1: Device, d2: Device,
                   ext: seq<Block>, chip: seq<Block>)
    requires ctx.RamContext? && ctx1.RamContext? && ctx2.RamContext?
    requires Left(d, d1, ext) && Counted(ctx, ctx1, ext)
    requires Left(d1, d2, chip) && Counted(ctx1.(mode := SkipExternal), ctx2, chip)
    ensures Left(d, d2, ext + chip) && Counted(ctx, ctx2, ext + chip)
  {
    LeftChains(d, d1, d2, ext, chip);
    CountedChains(ctx, ctx1, ctx2, ext, chip);
  }

  lemma SuccessMeansScanned(d: Device, faults: Faults, text: string, stage: bool, buf1: string, buf2: string)
    requires |buf1| == |buf2| == BUFFER_SIZE
    ensures LoadRam(d, faults, text, stage, buf1, buf2).rc == 0 ==>
              ReadAll(text, buf1).Code() == 0 && (stage ==> ReadAll(text, buf2).Code() == 0)
  {
  }

  /** The whole path from a printed file: if the load of a file, with comments anywhere, reports
      success, then every merged segment was written, the counters say so, and nothing else was
      written. */
  lemma FileWritten(d: Device, faults: Faults, items: seq<Item>, text: string, stage: bool, buf1: string, buf2: string)
    requires |buf1| == |buf2| == BUFFER_SIZE && ErrnoSet(faults) && Prints(items, text)
    ensures var p, segments := LoadRam(d, faults, text, stage, buf1, buf2), Segments(Records(items));
            p.rc == 0 ==> LoadLeft(stage, d, p, segments) && WholeFile(WrittenBy(stage, d.part, segments), segments)
  {
    PrintedTextReads(items, text, buf1);
    PrintedTextReads(items, text, buf2);
    RecordsWritten(d, faults, text, Records(items), stage, buf1, buf2);
  }

  /** The same of any text that reads as these records. */
  lemma RecordsWritten(d: Device, faults: Faults, text: string, records: seq<Block>, stage: bool,
                       buf1: string, buf2: string)
    requires |buf1| == |buf2| == BUFFER_SIZE && ErrnoSet(faults)
    requires ReadsAs(ReadAll(text, buf1), records) && ReadsAs(ReadAll(text, buf2), records)
    ensures var p, segments := LoadRam(d, faults, text, stage, buf1, buf2), Segments(records);
            p.rc == 0 ==> LoadLeft(stage, d, p, segments) && WholeFile(WrittenBy(stage, d.part, segments), segments)
  {
    SuccessMeansScanned(d, faults, text, stage, buf1, buf2);
    if LoadRam(d, faults, text, stage, buf1, buf2).rc == 0 {
      LoadWritten(d, faults, text, stage, buf1, buf2);
      WrittenOnce(stage, d.part, Segments(records));
    }
  }

  /** Both kinds of load at once. */
  lemma LoadWritten(d: Device, faults: Faults, text: string, stage: bool, buf1: string, buf2: string)
    requires |buf1| == |buf2| == BUFFER_SIZE && ErrnoSet(faults)
    requires stage ==> ReadAll(text, buf1) == ReadAll(text, buf2)
    ensures var p := LoadRam(d, faults, text, stage, buf1, buf2);
            p.rc == 0 ==> LoadLeft(stage, d, p, Segments(ReadAll(text, buf1).records))
  {
    if stage {
      TwoStageImage(d, faults, text, buf1, buf2);
    } else {
      SingleStageImage(d, faults, text, buf1, buf2);
    }
  }

  /** A load that reports success leaves the memory that storing the records one by one in file order
      leaves, if and only if it was in a single stage or the on-chip segments have the last word in the
      file. Its total is in any case the sum of the record lengths. No byte of a record may meet an empty
      segment buffer that carries another address, as in any file without zero-length records. */
  lemma FileImage(d: Device, faults: Faults, items: seq<Item>, text: string, stage: bool, buf1: string, buf2: string)
    requires |buf1| == |buf2| == BUFFER_SIZE && ErrnoSet(faults) && Prints(items, text)
    requires Aligned(EMPTY_MERGER, Records(items))
    ensures var p := LoadRam(d, faults, text, stage, buf1, buf2);
            p.rc == 0 ==>
              && (p.dev.ram == StoreAll(d.ram, Trace(Records(items))) <==>
                  !stage || ChipLast(d.part, Segments(Records(items))))
              && p.ctx.RamContext? && p.ctx.total == TotalLength(Records(items)) % 0x1_0000_0000
              && p.ctx.count == |Segments(Records(items))| % 0x1_0000_0000
  {
    var records := Records(items);
    FileWritten(d, faults, items, text, stage, buf1, buf2);
    MergeKeepsTrace(records);
    TraceLength(records);
    TraceLength(Segments(records));
    TwoPassesEqualOne(d.part, d.ram, Segments(records));
    var p := LoadRam(d, faults, text, stage, buf1, buf2);
    if p.rc == 0 {
      FirstCounts(FirstContext(stage), p.ctx, WrittenBy(stage, d.part, Segments(records)), stage);
    }
  }

  /** A load counts from zero. */
  lemma FirstCounts(ctx: Context, ctx': Context, written: seq<Block>, stage: bool)
    requires ctx == FirstContext(stage) && ctx'.RamContext? && Counted(ctx, ctx', written)
    ensures ctx'.total == TotalLength(written) % 0x1_0000_0000 && ctx'.count == |written| % 0x1_0000_0000
  {
  }

  // ---- When a load succeeds ----------------------------------------------------------------

  /** Without failing requests a pass stops only at an external segment the first-stage loader cannot
      write. */
  lemma {:induction false} FaultlessPass(ctx: Context, d: Device, faults: Faults, segments: seq<Block>)
    requires ctx.RamContext? && NoFaults(faults)
    ensures var p := PokeAll(ctx, d, faults, segments);
            && p.dev.part == d.part
            && (p.rc >= 0 <==> ctx.mode != InternalOnly || AllOnChip(d.part, segments))
    decreases |segments|
  {
    if segments != [] {
      var p := Poke(ctx, d, faults, segments[0]);
      assert p.dev.part == d.part;
      FaultlessPass(p.ctx, p.dev, faults, segments[1..]);
    }
  }

  lemma FaultlessScan(ctx: Context, d: Device, faults: Faults, text: string, buf: string)
    requires |buf| == BUFFER_SIZE && ctx.RamContext? && NoFaults(faults)
    ensures var p, s := ParseIhex(ctx, d, faults, text, buf), ReadAll(text, buf);
            && p.dev.part == d.part
            && (p.rc == 0 <==> s.Code() == 0 && (ctx.mode != InternalOnly || AllOnChip(d.part, Segments(s.records))))
  {
    FaultlessPass(ctx, d, faults, PokedSegments(ReadAll(text, buf)));
  }

  lemma StoppedScanSucceeds(ctx: Context, d: Device, faults: Faults, text: string, buf: string)
    requires |buf| == BUFFER_SIZE && ctx.RamContext? && NoFaults(faults)
    ensures var stopped := SetCpu(d, faults, false);
            var p, s := ParseIhex(ctx, stopped, faults, text, buf), ReadAll(text, buf);
            && LastOutcome(stopped).Done? && ResetCpu(p, faults).rc == 0
            && (p.rc == 0 <==> s.Code() == 0 && (ctx.mode != InternalOnly || AllOnChip(d.part, Segments(s.records))))
  {
    SetCpuDisciplined(d, d.running, faults, false);
    FaultlessScan(ctx, SetCpu(d, faults, false), faults, text, buf);
  }

  /** Without failing requests a load succeeds exactly when the file reads to its end and, in a single
      stage, every segment is on chip. */
  lemma FaultlessLoad(d: Device, faults: Faults, text: string, stage: bool, buf1: string, buf2: string)
    requires |buf1| == |buf2| == BUFFER_SIZE && NoFaults(faults)
    ensures var s := ReadAll(text, buf1);
            LoadRam(d, faults, text, stage, buf1, buf2).rc == 0 <==>
            s.Code() == 0 && if stage then ReadAll(text, buf2).Code() == 0 else AllOnChip(d.part, Segments(s.records))
  {
    if !stage {
      StoppedScanSucceeds(FirstContext(stage), d, faults, text, buf1);
    } else {
      FaultlessScan(FirstContext(stage), d, faults, text, buf1);
      var p := ParseIhex(FirstContext(stage), d, faults, text, buf1);
      StoppedScanSucceeds(p.ctx.(mode := SkipExternal), p.dev, faults, text, buf2);
    }
  }

  /** The same of a printed file. */
  lemma FileLoads(d: Device, faults: Faults, items: seq<Item>, text: string, stage: bool, buf1: string, buf2: string)
    requires |buf1| == |buf2| == BUFFER_SIZE && NoFaults(faults) && Prints(items, text)
    ensures LoadRam(d, faults, text, stage, buf1, buf2).rc == 0 <==>
            && (forall r :: r in Records(items) ==> |r.data| <= 249)
            && (stage || AllOnChip(d.part, Segments(Records(items))))
  {
    PrintedTextReads(items, text, buf1);
    PrintedTextReads(items, text, buf2);
    FaultlessLoad(d, faults, text, stage, buf1, buf2);
  }
}
