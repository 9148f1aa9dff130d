/** The two poke functions, with the contexts they keep, and what poking a sequence of segments
    does to a device. */
module Poking {
  import opened Errno
  import opened Memory
  import opened Target

  const RETRY_LIMIT: nat := 5
  const UINT32: nat := 0x1_0000_0000

  datatype Mode = InternalOnly | SkipInternal | SkipExternal

  /** The poke contexts: the RAM loader's counters and mode, or the next free EEPROM address and
      whether the segment to write is the last. */
  datatype Context =
    | RamContext(mode: Mode, total: nat, count: nat)
    | EepromContext(eeAddr: nat, last: bool)

  datatype Poked = Poked(ctx: Context, dev: Device, rc: int)

  // ---- RAM ---------------------------------------------------------------------------------

  predicate Skips(mode: Mode, external: bool) {
    (mode == SkipInternal && !external) || (mode == SkipExternal && external)
  }

  /** The retry loop: one request, and again while the last one timed out. */
  function WriteWithRetry(d: Device, faults: Faults, op: byte, addr: nat, data: seq<byte>, retry: nat): (d': Device)
    ensures d'.log != []
    decreases RETRY_LIMIT - retry, data
  {
    var d' := Send(d, faults, op, addr, data);
    if LastOutcome(d') == Failed(ETIMEDOUT) && retry < RETRY_LIMIT
    then WriteWithRetry(d', faults, op, addr, data, retry + 1)
    else d'
  }

  /** A failed request is reported as -errno. */
  function ReportedAs(o: Outcome): int {
    if o.Done? then 0 else -(o.errno as int)
  }

  function RamPoke(ctx: Context, d: Device, faults: Faults, external: bool, s: Block): Poked
    requires ctx.RamContext?
  {
    if ctx.mode == InternalOnly && external then Poked(ctx, d, -EINVAL)
    else if Skips(ctx.mode, external) then Poked(ctx, d, 0)
    else
      var ctx' := ctx.(total := (ctx.total + |s.data|) % UINT32, count := (ctx.count + 1) % UINT32);
      var d' := WriteWithRetry(d, faults, if external then RW_MEMORY else RW_INTERNAL, s.addr, s.data, 0);
      Poked(ctx', d', ReportedAs(LastOutcome(d')))
  }

  // ---- EEPROM ------------------------------------------------------------------------------

  /** A segment header: length and address, high byte first, the top bit set on the last one. */
  function Header(s: Block, last: bool): (h: seq<byte>)
    ensures |h| == 4
  {
    var h := |s.data| / 0x100 % 0x100;
    [if last && h < 0x80 then h + 0x80 else h, |s.data| % 0x100, s.addr / 0x100 % 0x100, s.addr % 0x100]
  }

  function EepromPoke(ctx: Context, d: Device, faults: Faults, external: bool, s: Block): Poked
    requires ctx.EepromContext?
  {
    if external then Poked(ctx, d, -EINVAL)
    else if |s.data| > 1023 then Poked(ctx, d, -EDOM)
    else HeaderThenData(ctx, d, faults, Header(s, ctx.last), s.data)
  }

  /** The two writes of a segment, at the next free address. */
  function HeaderThenData(ctx: Context, d: Device, faults: Faults, header: seq<byte>, data: seq<byte>): Poked
    requires ctx.EepromContext? && |header| == 4
  {
    var d1 := Send(d, faults, RW_EEPROM, ctx.eeAddr, header);
    if LastOutcome(d1).Failed? then Poked(ctx, d1, -1) else DataAfter(ctx, d1, faults, data)
  }

  function DataAfter(ctx: Context, d1: Device, faults: Faults, data: seq<byte>): Poked
    requires ctx.EepromContext?
  {
    var d2 := Send(d1, faults, RW_EEPROM, ctx.eeAddr + 4, data);
    if LastOutcome(d2).Failed? then Poked(ctx, d2, -1)
    else Poked(ctx.(eeAddr := (ctx.eeAddr + 4 + |data|) % ADDRESS_SPACE), d2, 0)
  }

  // ---- Sequences of segments ---------------------------------------------------------------

  /** A poke function keeps its own context and mode. */
  predicate SameKind(a: Context, b: Context) {
    (a.RamContext? <==> b.RamContext?) && (a.RamContext? ==> a.mode == b.mode)
  }

  function Poke(ctx: Context, d: Device, faults: Faults, s: Block): (p: Poked)
    ensures SameKind(ctx, p.ctx)
  {
    var external := IsExternal(d.part, s.addr, |s.data|);
    if ctx.RamContext? then RamPoke(ctx, d, faults, external, s) else EepromPoke(ctx, d, faults, external, s)
  }

  /** Poke the segments in order until one fails. */
  function PokeAll(ctx: Context, d: Device, faults: Faults, segments: seq<Block>): (p: Poked)
    ensures SameKind(ctx, p.ctx)
    decreases |segments|
  {
    if segments == [] then Poked(ctx, d, 0) else
      var p := Poke(ctx, d, faults, segments[0]);
      if p.rc < 0 then p else PokeAll(p.ctx, p.dev, faults, segments[1..])
  }

  lemma {:induction false} PokeAllConcat(ctx: Context, d: Device, faults: Faults, a: seq<Block>, b: seq<Block>)
    ensures var p := PokeAll(ctx, d, faults, a);
            PokeAll(ctx, d, faults, a + b) == if p.rc < 0 then p else PokeAll(p.ctx, p.dev, faults, b)
    decreases |a|
  {
    if a == [] {
      assert a + b == b;
    } else {
      assert (a + b)[1..] == a[1..] + b;
      var p := Poke(ctx, d, faults, a[0]);
      PokeAllConcat(p.ctx, p.dev, faults, a[1..], b);
    }
  }

  ghost predicate NoFaults(faults: Faults) {
    forall n :: faults(n).Done?
  }

  predicate AllOnChip(part: Part, segments: seq<Block>) {
    forall i :: 0 <= i < |segments| ==> !IsExternal(part, segments[i].addr, |segments[i].data|)
  }

  // ---- One RAM write -----------------------------------------------------------------------

  /** From d to d' the device changed, up to its log, by the last request alone. */
  ghost predicate ChangedByLast(d: Device, d': Device, faults: Faults, op: byte, addr: nat, data: seq<byte>) {
    && d.log < d'.log
    && var r := Request(op, addr, data, faults(|d'.log| - 1), d.running);
       d'.log[|d'.log| - 1] == r && d' == Effect(d, r).(log := d'.log)
  }

  lemma SendEffect(d: Device, faults: Faults, op: byte, addr: nat, data: seq<byte>)
    requires addr < ADDRESS_SPACE
    ensures var d' := Send(d, faults, op, addr, data);
            && ChangedByLast(d, d', faults, op, addr, data)
            && (LastOutcome(d').Failed? ==> d' == d.(log := d'.log))
  {
  }

  lemma EffectIgnoresLog(d: Device, log: seq<Request>, r: Request)
    ensures Effect(d.(log := log), r) == Effect(d, r).(log := log)
  {
  }

  lemma FailedBefore(d: Device, d1: Device, d': Device, faults: Faults, op: byte, addr: nat, data: seq<byte>)
    requires d.log <= d1.log && d1 == d.(log := d1.log) && ChangedByLast(d1, d', faults, op, addr, data)
    ensures ChangedByLast(d, d', faults, op, addr, data)
  {
    EffectIgnoresLog(d, d1.log, d'.log[|d'.log| - 1]);
  }

  /** The retry loop leaves the device as it was, up to its log, unless its last attempt was applied. */
  lemma {:induction false} RetryEffect(d: Device, faults: Faults, op: byte, addr: nat, data: seq<byte>, retry: nat)
    requires addr < ADDRESS_SPACE
    ensures ChangedByLast(d, WriteWithRetry(d, faults, op, addr, data, retry), faults, op, addr, data)
    decreases RETRY_LIMIT - retry
  {
    var d1 := Send(d, faults, op, addr, data);
    SendEffect(d, faults, op, addr, data);
    if LastOutcome(d1) == Failed(ETIMEDOUT) && retry < RETRY_LIMIT {
      RetryEffect(d1, faults, op, addr, data, retry + 1);
      FailedBefore(d, d1, WriteWithRetry(d1, faults, op, addr, data, retry + 1), faults, op, addr, data);
    }
  }

  /** The retry loop makes at most six attempts, all at the same request; every one but the last timed
      out, and it gives up on a time-out only after the sixth. */
  lemma {:induction false} RetryBound(d: Device, faults: Faults, op: byte, addr: nat, data: seq<byte>, retry: nat)
    requires retry <= RETRY_LIMIT && addr < ADDRESS_SPACE
    ensures var d' := WriteWithRetry(d, faults, op, addr, data, retry);
            var n := |d'.log| - |d.log|;
            && d.log < d'.log
            && n <= 6 - retry
            && (forall i :: |d.log| <= i < |d'.log| ==> d'.log[i] == Request(op, addr, data, faults(i), d.running))
            && (forall i :: |d.log| <= i < |d'.log| - 1 ==> d'.log[i].outcome == Failed(ETIMEDOUT))
            && (LastOutcome(d') == Failed(ETIMEDOUT) ==> n == 6 - retry)
    decreases RETRY_LIMIT - retry
  {
    var d1 := Send(d, faults, op, addr, data);
    var n := |d.log|;
    assert d1.log == d.log + [Request(op, addr, data, faults(n), d.running)];
    if LastOutcome(d1) == Failed(ETIMEDOUT) && retry < RETRY_LIMIT {
      RetryBound(d1, faults, op, addr, data, retry + 1);
      var d' := WriteWithRetry(d1, faults, op, addr, data, retry + 1);
      assert d'.log[n] == d1.log[n];
    }
  }

  /** The pokes that send nothing: on chip or off as the pass skips it, which is no error; external memory
      with the first-stage loader, or into an EEPROM; and more than 1023 bytes into an EEPROM. */
  lemma PokeRefusals(ctx: Context, d: Device, faults: Faults, s: Block)
    ensures var p, external := Poke(ctx, d, faults, s), IsExternal(d.part, s.addr, |s.data|);
            match ctx
            case RamContext(mode, _, _) =>
              && (mode == InternalOnly && external ==> p == Poked(ctx, d, -22))
              && (mode == SkipInternal && !external ==> p == Poked(ctx, d, 0))
              && (mode == SkipExternal && external ==> p == Poked(ctx, d, 0))
              && ((mode == SkipInternal <==> external) ==> |p.dev.log| > |d.log|)
            case EepromContext(_, _) =>
              && (external ==> p == Poked(ctx, d, -22))
              && (!external && |s.data| > 1023 ==> p == Poked(ctx, d, -33))
              && (!external && |s.data| <= 1023 ==> |p.dev.log| > |d.log|)
  {
    if ctx.RamContext? {
      var external := IsExternal(d.part, s.addr, |s.data|);
      LogGrows(d, faults, if external then RW_MEMORY else RW_INTERNAL, s.addr, s.data, 0);
    }
  }

  lemma {:induction false} LogGrows(d: Device, faults: Faults, op: byte, addr: nat, data: seq<byte>, retry: nat)
    ensures |WriteWithRetry(d, faults, op, addr, data, retry).log| > |d.log|
    decreases RETRY_LIMIT - retry
  {
    var d1 := Send(d, faults, op, addr, data);
    if LastOutcome(d1) == Failed(ETIMEDOUT) && retry < RETRY_LIMIT {
      LogGrows(d1, faults, op, addr, data, retry + 1);
    }
  }

  /** The RAM poke reports success exactly when its last attempt was applied, or failed without
      setting errno; and a failed one leaves the memory alone. */
  lemma RamPokeReportsSuccess(ctx: Context, d: Device, faults: Faults, external: bool, s: Block)
    requires ctx.RamContext? && s.addr < ADDRESS_SPACE
    requires !(ctx.mode == InternalOnly && external) && !Skips(ctx.mode, external)
    ensures var p := RamPoke(ctx, d, faults, external, s);
            && d.log < p.dev.log
            && (p.rc == 0 <==> LastOutcome(p.dev).Done? || LastOutcome(p.dev) == Failed(0))
            && (LastOutcome(p.dev).Failed? ==> p.dev.ram == d.ram)
  {
    RetryEffect(d, faults, if external then RW_MEMORY else RW_INTERNAL, s.addr, s.data, 0);
  }
}
