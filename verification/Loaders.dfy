/** The two firmware loads as they run, on a file that may fail to open. A scan that would leave its
    buffers ends the run: its code is no value of the source. */
module Loaders {
  import opened Memory
  import opened HexReader
  import opened Target
  import opened Poking
  import opened Firmware
  import opened IhexParser
  import EepromLoader
  import RamLoader

  const NO_FILE := -2

  type File = Option<string>

  /** `ezusb_load_ram`. The ghost results are the poke context it ends with and what its line
      buffers held at first. */
  method EzusbLoadRam(dev: UsbDevice, image: File, stage: bool)
    returns (rc: int, ghost ctx: Context, ghost buf1: string, ghost buf2: string)
    modifies dev
    ensures |buf1| == |buf2| == BUFFER_SIZE
    ensures image.None? ==> rc == -2 && dev.View() == old(dev.View())
    ensures image.Some? ==>
              Poked(ctx, dev.View(), rc) ==
              RamLoader.LoadRam(old(dev.View()), dev.faults, image.value, stage, buf1, buf2)
  {
    buf1 := seq(BUFFER_SIZE, _ => NUL);
    buf2 := buf1;
    ctx := RamLoader.FirstContext(stage);
    if image.None? {
      return NO_FILE, ctx, buf1, buf2;
    }
    var context := new RamPokeContext(dev, if stage then SkipInternal else InternalOnly);
    if !stage {
      var stopped := dev.EzusbCpucs(false);
      if !stopped {
        return -1, ctx, buf1, buf2;
      }
    }
    rc, buf1 := ParseIhex(image.value, RamPoker(context));
    ctx := context.View();
    if rc != 0 {
      return;
    }
    if stage {
      context.mode := SkipExternal;
      ctx := context.View();
      var stopped := dev.EzusbCpucs(false);
      if !stopped {
        return -1, ctx, buf1, buf2;
      }
      rc, buf2 := ParseIhex(image.value, RamPoker(context));
      ctx := context.View();
      if rc != 0 {
        return;
      }
    }
    var reset := dev.EzusbCpucs(true);
    rc := if reset then 0 else -1;
  }

  /** `ezusb_load_eeprom`; `large` is the answer to the EEPROM type request. */
  method EzusbLoadEeprom(dev: UsbDevice, image: File, large: bool)
    returns (rc: int, ghost ctx: Context, ghost buf: string)
    modifies dev
    ensures |buf| == BUFFER_SIZE
    ensures large && image.None? ==> rc == -2 && dev.View() == old(dev.View())
    ensures !large ==> rc == -1 && dev.View() == old(dev.View())
    ensures image.Some? ==>
              Poked(ctx, dev.View(), rc) ==
              EepromLoader.LoadEeprom(old(dev.View()), dev.faults, image.value, buf, large)
  {
    buf := seq(BUFFER_SIZE, _ => NUL);
    var start := EepromLoader.StartAddress(dev.part);
    ctx := EepromContext(start, false);
    if !large {
      return -1, ctx, buf;
    }
    if image.None? {
      return NO_FILE, ctx, buf;
    }
    if dev.part == Undefined {
      return -1, ctx, buf;
    }
    var context := new EepromPokeContext(dev, start);
    var status, _ := dev.EzusbWrite(RW_EEPROM, 0, [0]);
    if status < 0 {
      return status, ctx, buf;
    }
    rc, ctx, buf := WriteImage(dev, context, image.value);
    if rc != 0 {
      return;
    }
    var marked, _ := dev.EzusbWrite(RW_EEPROM, 0, [EepromLoader.FirstByte(dev.part)]);
    rc := if marked < 0 then marked else 0;
  }

  /** The scan, the reset record and the extra byte, between the two writes of byte 0. */
  method WriteImage(dev: UsbDevice, context: EepromPokeContext, text: string)
    returns (rc: int, ghost ctx: Context, ghost buf: string)
    requires context.dev == dev && context.View() == EepromContext(EepromLoader.StartAddress(dev.part), false)
    modifies dev, context
    ensures |buf| == BUFFER_SIZE
    ensures Poked(ctx, dev.View(), rc) == EepromLoader.WriteImage(old(dev.View()), dev.faults, text, buf)
  {
    rc, buf := ParseIhex(text, EepromPoker(context));
    ctx := context.View();
    if rc != 0 {
      return;
    }
    var reset := EepromLoader.ResetRecord(dev.part);
    context.last := true;
    rc := context.Poke(reset.addr, false, reset.data);
    ctx := context.View();
    if rc < 0 {
      return;
    }
    match EepromLoader.ExtraByte(dev.part) {
      case None =>
      case Some(x) =>
        var status, _ := dev.EzusbWrite(RW_EEPROM, x, [0]);
        rc := if status < 0 then status else 0;
    }
  }
}
