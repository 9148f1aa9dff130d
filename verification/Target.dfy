/** The EZ-USB target: its memories, its CPU, the vendor requests that write them, and which
    addresses the first-stage loader can reach on each part. */
module Target {
  import opened Memory

  datatype Part = Undefined | AN21 | FX | FX2 | FX2LP

  // The loader's request codes.
  const RW_INTERNAL: byte := 0xA0
  const RW_EEPROM: byte := 0xA2
  const RW_MEMORY: byte := 0xA3

  // ---- On-chip memory ----------------------------------------------------------------------

  predicate FxIsExternal(addr: nat, len: nat) {
    if addr <= 0x1b3f then addr + len > 0x1b40 else true
  }

  predicate Fx2IsExternal(addr: nat, len: nat) {
    if addr <= 0x1fff then addr + len > 0x2000
    else if 0xe000 <= addr <= 0xe1ff then addr + len > 0xe200
    else true
  }

  predicate Fx2lpIsExternal(addr: nat, len: nat) {
    if addr <= 0x3fff then addr + len > 0x4000
    else if 0xe000 <= addr <= 0xe1ff then addr + len > 0xe200
    else true
  }

  predicate IsExternal(part: Part, addr: nat, len: nat) {
    if part == FX2LP then Fx2lpIsExternal(addr, len)
    else if part == FX2 then Fx2IsExternal(addr, len)
    else FxIsExternal(addr, len)
  }

  /** The on-chip RAM of each part: 0x0000-0x1b3f; 8 KB and 512 bytes; 16 KB and 512 bytes. */
  predicate OnChip(part: Part, x: nat) {
    match part
    case FX2LP => x < 0x4000 || 0xe000 <= x < 0xe200
    case FX2 => x < 0x2000 || 0xe000 <= x < 0xe200
    case _ => x < 0x1b40
  }

  /** A nonempty segment is external exactly when some byte of it lies off chip; an empty one,
      exactly when its address does. */
  lemma ExternalMeansOffChip(part: Part, addr: nat, len: nat)
    ensures len > 0 ==> (IsExternal(part, addr, len) <==> exists x :: addr <= x < addr + len && !OnChip(part, x))
    ensures len == 0 ==> (IsExternal(part, addr, len) <==> !OnChip(part, addr))
  {
    if len > 0 {
      var low := if part == FX2LP then 0x4000 else if part == FX2 then 0x2000 else 0x1b40;
      var off := if !OnChip(part, addr) then addr else if addr < low then low else 0xe200;
      assert !OnChip(part, off);
    }
  }

  // ---- Requests ----------------------------------------------------------------------------

  /** How a control request ends: applied in full, or failed leaving this errno behind. */
  datatype Outcome = Done | Failed(errno: nat)

  type Faults = nat -> Outcome

  /** A request as it reached the device, and whether the CPU was running then. */
  datatype Request = Request(op: byte, addr: nat, data: seq<byte>, outcome: Outcome, cpuRunning: bool)

  datatype Device = Device(part: Part, ram: Contents, running: bool, eeprom: Contents, log: seq<Request>)

  /** Where a part has its CPUCS register, whose bit 0 holds the CPU in reset. */
  function CpuRegister(part: Part): nat {
    match part
    case FX2 => 0xe600
    case FX2LP => 0xe600
    case _ => 0x7f92
  }

  /** The request is the built-in loader's write of one byte to that register. */
  predicate SetsCpu(part: Part, r: Request) {
    r.op == 0xA0 && r.addr == CpuRegister(part) && |r.data| == 1
  }

  /** What the device makes of one request, but for the log: 0xA0 writes on-chip memory and 0xA3 external
      memory, 0xA2 the EEPROM, and nothing else writes anything. A failed one has no effect. */
  function Effect(d: Device, r: Request): Device {
    if r.outcome.Failed? then d
    else if SetsCpu(d.part, r) then d.(running := r.data[0] % 2 == 0)
    else if r.op == 0xA2 then d.(eeprom := Store(d.eeprom, r.addr, r.data))
    else if r.op == 0xA0 || r.op == 0xA3 then d.(ram := Store(d.ram, r.addr, r.data))
    else d
  }

  function Perform(d: Device, r: Request): Device {
    Effect(d, r).(log := d.log + [r])
  }

  /** `ezusb_write`: the n-th request of a device's life ends as faults(n) says. */
  function Send(d: Device, faults: Faults, op: byte, addr: nat, data: seq<byte>): Device {
    Perform(d, Request(op, addr % ADDRESS_SPACE, data, faults(|d.log|), d.running))
  }

  function LastOutcome(d: Device): Outcome
    requires d.log != []
  {
    d.log[|d.log| - 1].outcome
  }

  // ---- Replaying a log ---------------------------------------------------------------------

  function Replay(d: Device, requests: seq<Request>): Device
    decreases |requests|
  {
    if requests == [] then d else Replay(Perform(d, requests[0]), requests[1..])
  }

  lemma {:induction false} ReplayConcat(d: Device, a: seq<Request>, b: seq<Request>)
    ensures Replay(d, a + b) == Replay(Replay(d, a), b)
    decreases |a|
  {
    if a == [] {
      assert a + b == b;
    } else {
      assert (a + b)[1..] == a[1..] + b;
      ReplayConcat(Perform(d, a[0]), a[1..], b);
    }
  }

  /** The device that sent nothing but the requests logged after d's is d with them replayed. */
  ghost predicate Follows(d: Device, d': Device) {
    d.log <= d'.log && d' == Replay(d, d'.log[|d.log|..])
  }

  lemma FollowsSend(d: Device, d': Device, faults: Faults, op: byte, addr: nat, data: seq<byte>)
    requires Follows(d, d')
    ensures Follows(d, Send(d', faults, op, addr, data))
  {
    var d'' := Send(d', faults, op, addr, data);
    var n := |d.log|;
    var r := d''.log[|d''.log| - 1];
    assert d''.log[n..] == d'.log[n..] + [r];
    ReplayConcat(d, d'.log[n..], [r]);
    assert Replay(d', [r]) == Replay(Perform(d', r), [r][1..]) == d'';
  }
}
