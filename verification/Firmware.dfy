/** The target and the poke contexts as objects whose fields change. Each method is proved to do what
    its specification function in the other modules says. */
module Firmware {
  import opened Errno
  import opened Memory
  import opened Target
  import opened Poking
  import RamLoader

  const USHRT_MAX: nat := 0xFFFF

  // ---- The target --------------------------------------------------------------------------

  class UsbDevice {
    const part: Part
    const faults: Faults
    var ram: Contents
    var running: bool
    var eeprom: Contents
    var log: seq<Request>

    constructor (d: Device, faults: Faults)
      ensures View() == d && this.faults == faults
    {
      this.part, this.faults := d.part, faults;
      ram, running, eeprom, log := d.ram, d.running, d.eeprom, d.log;
    }

    function View(): Device
      reads this
    {
      Device(part, ram, running, eeprom, log)
    }

    /** `ezusb_write`: one control request, applied or failed as `faults` decides. */
    method EzusbWrite(op: byte, addr: nat, data: seq<byte>) returns (status: int, errno: nat)
      requires |data| <= USHRT_MAX
      modifies this
      ensures View() == Send(old(View()), faults, op, addr, data)
      ensures LastOutcome(View()).Done? ==> status == |data|
      ensures LastOutcome(View()).Failed? ==> status == -1 && errno == LastOutcome(View()).errno
    {
      var r := Request(op, addr % ADDRESS_SPACE, data, faults(|log|), running);
      log := log + [r];
      errno := 0;
      match r.outcome {
        case Failed(e) =>
          status, errno := -1, e;
        case Done =>
          status := |data|;
          if SetsCpu(part, r) {
            running := data[0] % 2 == 0;
          } else if op == 0xA2 {
            eeprom := Store(eeprom, r.addr, data);
          } else if op == 0xA0 || op == 0xA3 {
            ram := Store(ram, r.addr, data);
          }
      }
    }

    method EzusbCpucs(run: bool) returns (ok: bool)
      modifies this
      ensures View() == RamLoader.SetCpu(old(View()), faults, run)
      ensures ok <==> LastOutcome(View()).Done?
    {
      var status, _ := EzusbWrite(RW_INTERNAL, RamLoader.Cpucs(part), [if run then 0 else 1]);
      ok := status == 1;
    }
  }

  // ---- The poke contexts -------------------------------------------------------------------

  class RamPokeContext {
    const dev: UsbDevice
    var mode: Mode
    var total: nat
    var count: nat

    constructor (dev: UsbDevice, mode: Mode)
      ensures this.dev == dev && View() == RamContext(mode, 0, 0)
    {
      this.dev, this.mode, total, count := dev, mode, 0, 0;
    }

    function View(): Context
      reads this
    {
      RamContext(mode, total, count)
    }

    method Poke(addr: nat, external: bool, data: seq<byte>) returns (rc: int)
      requires |data| <= USHRT_MAX
      modifies this, dev
      ensures Poked(View(), dev.View(), rc) ==
              RamPoke(old(View()), old(dev.View()), dev.faults, external, Block(addr, data))
    {
      match mode {
        case InternalOnly => if external { return -EINVAL; }
        case SkipInternal => if !external { return 0; }
        case SkipExternal => if external { return 0; }
      }
      total := (total + |data|) % UINT32;
      count := (count + 1) % UINT32;
      var op := if external then RW_MEMORY else RW_INTERNAL;
      rc := WriteAndRetry(op, addr, data);
    }

    /** The retry loop of the poke: again while the last request timed out, up to the limit. */
    method WriteAndRetry(op: byte, addr: nat, data: seq<byte>) returns (rc: int)
      requires |data| <= USHRT_MAX
      modifies dev
      ensures dev.View() == WriteWithRetry(old(dev.View()), dev.faults, op, addr, data, 0)
      ensures rc == ReportedAs(LastOutcome(dev.View()))
    {
      ghost var d0 := dev.View();
      var retry := 0;
      var status, errno := dev.EzusbWrite(op, addr, data);
      while status < 0 && retry < RETRY_LIMIT
        invariant 0 <= retry <= RETRY_LIMIT && dev.log != []
        invariant status < 0 <==> LastOutcome(dev.View()).Failed?
        invariant status < 0 ==> errno == LastOutcome(dev.View()).errno
        invariant WriteWithRetry(d0, dev.faults, op, addr, data, 0) ==
                  Continued(dev.View(), dev.faults, op, addr, data, retry)
      {
        if errno != ETIMEDOUT {
          break;
        }
        retry := retry + 1;
        status, errno := dev.EzusbWrite(op, addr, data);
      }
      rc := if status < 0 then -(errno as int) else 0;
    }
  }

  /** What remains of the retry loop after an attempt. */
  function Continued(d: Device, faults: Faults, op: byte, addr: nat, data: seq<byte>, retry: nat): Device
    requires d.log != []
  {
    if LastOutcome(d) == Failed(ETIMEDOUT) && retry < RETRY_LIMIT
    then WriteWithRetry(d, faults, op, addr, data, retry + 1)
    else d
  }

  class EepromPokeContext {
    const dev: UsbDevice
    var eeAddr: nat
    var last: bool

    constructor (dev: UsbDevice, eeAddr: nat)
      ensures this.dev == dev && View() == EepromContext(eeAddr, false)
    {
      this.dev, this.eeAddr, last := dev, eeAddr, false;
    }

    function View(): Context
      reads this
    {
      EepromContext(eeAddr, last)
    }

    method Poke(addr: nat, external: bool, data: seq<byte>) returns (rc: int)
      modifies this, dev
      ensures Poked(View(), dev.View(), rc) ==
              EepromPoke(old(View()), old(dev.View()), dev.faults, external, Block(addr, data))
    {
      if external {
        return -EINVAL;
      }
      if |data| > 1023 {
        return -EDOM;
      }
      var top := |data| / 0x100 % 0x100;
      if last && top < 0x80 {
        top := top + 0x80;
      }
      var header := [top, |data| % 0x100, addr / 0x100 % 0x100, addr % 0x100];
      assert header == Header(Block(addr, data), last);
      var status, _ := dev.EzusbWrite(RW_EEPROM, eeAddr, header);
      if status < 0 {
        return status;
      }
      var written, _ := dev.EzusbWrite(RW_EEPROM, eeAddr + 4, data);
      if written < 0 {
        return written;
      }
      eeAddr := (eeAddr + 4 + |data|) % ADDRESS_SPACE;
      rc := 0;
    }
  }

  /** The context pointer and the poke function that goes with it. */
  datatype Poker = RamPoker(ram: RamPokeContext) | EepromPoker(ee: EepromPokeContext) {

    function Dev(): UsbDevice {
      match this case RamPoker(c) => c.dev case EepromPoker(c) => c.dev
    }

    function Footprint(): set<object> {
      match this case RamPoker(c) => {c, c.dev} case EepromPoker(c) => {c, c.dev}
    }

    function View(): Context
      reads Footprint()
    {
      match this case RamPoker(c) => c.View() case EepromPoker(c) => c.View()
    }

    function State(rc: int): Poked
      reads Footprint()
    {
      Poked(View(), Dev().View(), rc)
    }

    method Poke(addr: nat, data: seq<byte>) returns (rc: int)
      requires |data| <= USHRT_MAX
      modifies Footprint()
      ensures State(rc) == Poking.Poke(old(View()), old(Dev().View()), Dev().faults, Block(addr, data))
    {
      var external := IsExternal(Dev().part, addr, |data|);
      match this {
        case RamPoker(c) => rc := c.Poke(addr, external, data);
        case EepromPoker(c) => rc := c.Poke(addr, external, data);
      }
    }
  }
}
