/** The registry as it runs: queue and descriptor objects updated in place, searched by index. Each
    method is proved to be the corresponding step of the registry's specification. */
module DeviceTables {
  import opened Errno
  import opened Memory
  import opened Bus
  import opened Registry

  type uint16 = x: nat | x < 0x1_0000
  type int16 = x: int | -0x8000 <= x < 0x8000

  function Uint16(x: nat): uint16 {
    x % 0x1_0000
  }

  function Int16(x: int): int16 {
    (x + 0x8000) % 0x1_0000 - 0x8000
  }

  /** What a field of 16 bits keeps. */
  lemma FieldsKeep(x: int)
    ensures (Int16(x) - x) % 0x1_0000 == 0
    ensures x >= 0 ==> (Uint16(x) - x) % 0x1_0000 == 0
  {
  }

  lemma InRange(x: int16)
    ensures Int16(x) == x
  {
  }

  lemma PadInRange(x: uint16)
    ensures Uint16(x) == x
  {
  }

  // ---- Status queues -----------------------------------------------------------------------

  class StatusQueue {
    var pad: uint16
    var sad: int16
    var statusBytes: seq<byte>
    var numStatusBytes: nat
    var referenceCount: nat
    var droppedByte: bool

    /** A fresh queue for an address, as 16-bit fields keep it. */
    constructor (a: Address)
      ensures View() == Queue(Stored(a), [], 0, false, 1)
    {
      pad, sad := Uint16(a.pad), Int16(a.sad);
      statusBytes, numStatusBytes, referenceCount, droppedByte := [], 0, 1, false;
    }

    function View(): Queue
      reads this
    {
      Queue(Address(pad, sad), statusBytes, numStatusBytes, droppedByte, referenceCount)
    }

    method Push(pollByte: byte) returns (rc: int)
      modifies this
      ensures Pushed(View(), rc) == PushByte(old(View()), pollByte)
    {
      rc := 0;
      if numStatusBytes >= MAX_STATUS_BYTES {
        droppedByte := true;
        var lost;
        rc, lost := Pop();
        if rc < 0 {
          return;
        }
      }
      statusBytes := statusBytes + [pollByte];
      numStatusBytes := numStatusBytes + 1;
      rc := 0;
    }

    method Pop() returns (rc: int, pollByte: byte)
      modifies this
      ensures Popped(View(), rc, pollByte) == PopByte(old(View()))
    {
      pollByte := 0;
      if numStatusBytes == 0 {
        return -EIO, 0;
      }
      if droppedByte {
        droppedByte := false;
        return -EPIPE, 0;
      }
      if statusBytes != [] {
        pollByte := statusBytes[|statusBytes| - 1];
        statusBytes := statusBytes[..|statusBytes| - 1];
      }
      numStatusBytes := numStatusBytes - 1;
      rc := 0;
    }
  }

  /** The board's list of open devices. */
  class DeviceList {
    var devices: seq<StatusQueue>

    constructor ()
      ensures Valid() && Views() == []
    {
      devices := [];
    }

    ghost predicate Valid()
      reads this
    {
      forall i, j :: 0 <= i < j < |devices| ==> devices[i] != devices[j]
    }

    function Views(): (v: seq<Queue>)
      reads this, devices
      ensures |v| == |devices| && forall i :: 0 <= i < |v| ==> v[i] == devices[i].View()
    {
      seq(|devices|, i requires 0 <= i < |devices| reads this, devices => devices[i].View())
    }

    /** The search every operation on the list starts with. */
    method FindIndex(pad: nat, sad: int) returns (k: nat)
      ensures k == Find(Views(), Address(pad, sad))
    {
      k := 0;
      while k < |devices| && !Same(Address(devices[k].pad, devices[k].sad), Address(pad, sad))
        invariant k <= |devices|
        invariant forall j :: 0 <= j < k ==> !Same(devices[j].View().address, Address(pad, sad))
      {
        k := k + 1;
      }
      FindIsFirst(Views(), Address(pad, sad), k);
    }

    method IncrementOpenDeviceCount(pad: nat, sad: int)
      requires Valid()
      modifies this, devices
      ensures Valid() && Views() == Increment(old(Views()), Address(pad, sad))
      ensures forall d :: d in devices ==> d in old(devices) || fresh(d)
    {
      var k := FindIndex(pad, sad);
      if k < |devices| {
        AddReference(k);
      } else {
        AddDevice(pad, sad);
      }
    }

    method AddReference(k: nat)
      requires Valid() && k < |devices|
      modifies devices[k]
      ensures Valid() && Views() == old(Views())[k := old(Views())[k].(refs := old(Views())[k].refs + 1)]
    {
      devices[k].referenceCount := devices[k].referenceCount + 1;
    }

    method AddDevice(pad: nat, sad: int)
      requires Valid()
      modifies this
      ensures Valid() && Views() == old(Views()) + [Queue(Stored(Address(pad, sad)), [], 0, false, 1)]
      ensures forall d :: d in devices ==> d in old(devices) || fresh(d)
    {
      var device := new StatusQueue(Address(pad, sad));
      devices := devices + [device];
    }

    /** Leaves the list alone and returns -EINVAL where the source logs a bug. */
    method SubtractOpenDeviceCount(pad: nat, sad: int, count: nat) returns (rc: int)
      requires Valid()
      modifies this, devices
      ensures Valid()
      ensures match Subtract(old(Views()), Address(pad, sad), count)
              case Bug => rc == -EINVAL && Views() == old(Views()) && devices == old(devices)
              case Subtracted(queues) => rc == 0 && Views() == queues
      ensures forall d :: d in devices ==> d in old(devices)
    {
      var k := FindIndex(pad, sad);
      if k == |devices| || count > devices[k].referenceCount {
        return -EINVAL;
      }
      RemoveReferences(k, count);
      rc := 0;
    }

    /** Take references from the k-th device, dropping it when none is left. */
    method RemoveReferences(k: nat, count: nat)
      requires Valid() && k < |devices| && count <= devices[k].referenceCount
      modifies this, devices
      ensures Valid()
      ensures var was := old(Views());
              Views() == if was[k].refs == count then was[..k] + was[k + 1..]
                         else was[k := was[k].(refs := was[k].refs - count)]
      ensures forall d :: d in devices ==> d in old(devices)
    {
      var device := devices[k];
      device.referenceCount := device.referenceCount - count;
      if device.referenceCount == 0 {
        devices := devices[..k] + devices[k + 1..];
        assert Views() == old(Views())[..k] + old(Views())[k + 1..];
      } else {
        assert Views() == old(Views())[k := device.View()];
      }
    }

    /** The decrement and the increment of an address change. */
    method MoveReference(pad: nat, sad: int, pad': nat, sad': int) returns (rc: int)
      requires Valid()
      modifies this, devices
      ensures Valid()
      ensures match Subtract(old(Views()), Address(pad, sad), 1)
              case Bug => rc == -EINVAL && Views() == old(Views())
              case Subtracted(queues) => rc == 0 && Views() == Increment(queues, Address(pad', sad'))
    {
      rc := SubtractOpenDeviceCount(pad, sad, 1);
      if rc == 0 {
        assert forall i :: 0 <= i < |devices| ==> devices[i] in old(devices);
        IncrementOpenDeviceCount(pad', sad');
      }
    }

    /** `get_gpib_status_queue`. */
    method GetGpibStatusQueue(pad: nat, sad: int) returns (device: StatusQueue?)
      ensures var k := Find(Views(), Address(pad, sad));
              device == if k < |devices| then devices[k] else null
    {
      var i := FindIndex(pad, sad);
      device := if i < |devices| then devices[i] else null;
    }
  }

  lemma {:induction false} FindIsFirst(queues: seq<Queue>, a: Address, k: nat)
    requires k <= |queues| && (k < |queues| ==> Same(queues[k].address, a))
    requires forall j :: 0 <= j < k ==> !Same(queues[j].address, a)
    ensures Find(queues, a) == k
  {
  }

  // ---- The descriptor table ----------------------------------------------------------------

  class DescriptorObject {
    var pad: uint16
    var sad: int16
    const isBoard: bool

    constructor (a: Address, isBoard: bool)
      ensures View() == Descriptor(Stored(a), isBoard)
    {
      pad, sad := Uint16(a.pad), Int16(a.sad);
      this.isBoard := isBoard;
    }

    function View(): Descriptor
      reads this
    {
      Descriptor(Address(pad, sad), isBoard)
    }
  }

  class GpibLink {
    const board: DeviceList
    var descriptors: seq<DescriptorObject>
    /** The board's own address. */
    var boardAddress: Address

    constructor (boardAddress: Address)
      ensures Valid() && View() == Tables([], []) && fresh(board) && this.boardAddress == boardAddress
    {
      board := new DeviceList();
      descriptors, this.boardAddress := [], boardAddress;
    }

    ghost predicate Valid()
      reads this, board
    {
      && board.Valid()
      && forall i, j :: 0 <= i < j < |descriptors| ==> descriptors[i] != descriptors[j]
    }

    function DescViews(): (v: seq<Descriptor>)
      reads this, descriptors
      ensures |v| == |descriptors| && forall i :: 0 <= i < |v| ==> v[i] == descriptors[i].View()
    {
      seq(|descriptors|, i requires 0 <= i < |descriptors| reads this, descriptors => descriptors[i].View())
    }

    function View(): Tables
      reads this, descriptors, board, board.devices
    {
      Tables(board.Views(), DescViews())
    }

    /** `open_dev_ioctl`: the handle of a descriptor already open, or of a new one. */
    method OpenDevIoctl(pad: nat, sad: int, isBoard: bool) returns (rc: int, handle: nat)
      requires Valid()
      modifies this, board, board.devices
      ensures Valid() && Stepped(View(), Returns(rc)) == Step(old(View()), Open(Address(pad, sad), isBoard))
      ensures handle == FindDesc(old(View()).descs, Address(pad, sad)) < |descriptors|
    {
      handle := FindHandle(pad, sad);
      if handle == |descriptors| {
        OpenNew(pad, sad, isBoard);
      }
      rc := 0;
    }

    /** A descriptor that is not open yet, and its reference. */
    method OpenNew(pad: nat, sad: int, isBoard: bool)
      requires Valid()
      modifies this, board, board.devices
      ensures Valid() && |descriptors| == |old(descriptors)| + 1
      ensures var a, t := Address(pad, sad), old(View());
              View() == Tables(Increment(t.queues, a), t.descs + [Descriptor(Stored(a), isBoard)])
    {
      AddDescriptor(pad, sad, isBoard);
      ghost var descs := DescViews();
      board.IncrementOpenDeviceCount(pad, sad);
      assert DescViews() == descs;
    }

    method FindHandle(pad: nat, sad: int) returns (handle: nat)
      ensures handle == FindDesc(DescViews(), Address(pad, sad))
    {
      handle := 0;
      while handle < |descriptors| &&
            !Same(Address(descriptors[handle].pad, descriptors[handle].sad), Address(pad, sad))
        invariant handle <= |descriptors|
        invariant forall j :: 0 <= j < handle ==> !Same(descriptors[j].View().address, Address(pad, sad))
      {
        handle := handle + 1;
      }
      FindDescIsFirst(DescViews(), Address(pad, sad), handle);
    }

    method AddDescriptor(pad: nat, sad: int, isBoard: bool)
      requires Valid()
      modifies `descriptors
      ensures Valid()
      ensures DescViews() == old(DescViews()) + [Descriptor(Stored(Address(pad, sad)), isBoard)]
    {
      var desc := new DescriptorObject(Address(pad, sad), isBoard);
      descriptors := descriptors + [desc];
    }

    /** `close_dev_ioctl`; a handle past the table raises an exception. */
    method CloseDevIoctl(handle: nat) returns (reply: Reply)
      requires Valid()
      modifies this, board, board.devices
      ensures Valid() && Stepped(View(), reply) == Step(old(View()), Close(handle))
    {
      if handle >= |descriptors| {
        return Raises;
      }
      var desc := descriptors[handle];
      var rc := board.SubtractOpenDeviceCount(desc.pad, desc.sad, 1);
      assert DescViews() == old(DescViews());
      if rc < 0 {
        return ReportsBug;
      }
      ghost var queues := board.Views();
      RemoveDescriptor(handle);
      assert board.Views() == queues;
      reply := Returns(0);
    }

    method RemoveDescriptor(handle: nat)
      requires Valid() && handle < |descriptors|
      modifies `descriptors
      ensures Valid()
      ensures DescViews() == old(DescViews())[..handle] + old(DescViews())[handle + 1..]
    {
      descriptors := descriptors[..handle] + descriptors[handle + 1..];
    }

    /** The common part of the address changes of a device descriptor. */
    method Move(handle: nat, pad: nat, sad: int) returns (reply: Reply)
      requires Valid() && handle < |descriptors| && !descriptors[handle].isBoard
      modifies board, board.devices, descriptors[handle]
      ensures Valid() && Stepped(View(), reply) == Readdress(old(View()), handle, Address(pad, sad))
      ensures descriptors == old(descriptors)
      ensures reply == Returns(0) ==>
                descriptors[handle].pad == Uint16(pad) && descriptors[handle].sad == Int16(sad)
    {
      var desc := descriptors[handle];
      var rc := board.MoveReference(desc.pad, desc.sad, Uint16(pad), Int16(sad));
      assert DescViews() == old(DescViews());
      if rc < 0 {
        return ReportsBug;
      }
      assert Address(Uint16(pad), Int16(sad)) == Stored(Address(pad, sad));
      SetDescriptor(handle, pad, sad);
      reply := Returns(0);
    }

    method SetDescriptor(handle: nat, pad: nat, sad: int)
      requires Valid() && handle < |descriptors|
      modifies descriptors[handle]
      ensures Valid() && board.Views() == old(board.Views())
      ensures DescViews() == old(DescViews())[handle := old(DescViews())[handle].(address := Stored(Address(pad, sad)))]
    {
      descriptors[handle].pad, descriptors[handle].sad := Uint16(pad), Int16(sad);
    }

    /** Push a status byte to the queue of an open device. */
    method PushStatusByte(a: Address, pollByte: byte) returns (rc: int)
      requires Valid() && Find(View().queues, a) < |View().queues|
      modifies board.devices
      ensures Valid() && Stepped(View(), Returns(rc)) == Step(old(View()), Push(a, pollByte))
    {
      ghost var k := Find(board.Views(), Address(a.pad, a.sad));
      var device := board.GetGpibStatusQueue(a.pad, a.sad);
      rc := device.Push(pollByte);
      assert board.Views() == old(board.Views())[k := device.View()];
      assert DescViews() == old(DescViews());
    }

    /** Pop a stored status byte of an address, if it has one. */
    method PopStored(a: Address) returns (stored: bool, rc: int, pollByte: byte)
      requires Valid()
      modifies board.devices
      ensures Valid()
      ensures var q, k := old(View()).queues, Find(old(View()).queues, a);
              && (stored <==> k < |q| && q[k].num > 0)
              && (stored ==>
                    Stepped(View(), Returns(rc)) == Step(old(View()), Pop(a)) && pollByte == PopByte(q[k]).value)
              && (!stored ==> View() == old(View()))
    {
      ghost var k := Find(board.Views(), Address(a.pad, a.sad));
      var device := board.GetGpibStatusQueue(a.pad, a.sad);
      stored, rc, pollByte := device != null && device.numStatusBytes > 0, 0, 0;
      if stored {
        rc, pollByte := device.Pop();
        assert board.Views() == old(board.Views())[k := device.View()];
        assert DescViews() == old(DescViews());
      }
    }

    /** The descriptor of a handle is a board's. */
    predicate IsBoard(handle: nat)
      reads this, descriptors
    {
      handle < MAX_DESCRIPTORS && handle < |descriptors| && descriptors[handle].isBoard
    }

    /** `ibpad`: the board's own primary address. */
    method Ibpad(pad: nat) returns (reply: Reply)
      requires Valid()
      modifies this`boardAddress
      ensures Valid() && View() == old(View())
      ensures reply == Returns(if pad <= 30 then 0 else -1)
      ensures boardAddress == if pad <= 30 then old(boardAddress).(pad := pad) else old(boardAddress)
    {
      if pad > MAX_ADDRESS {
        return Returns(-1);
      }
      boardAddress := boardAddress.(pad := pad);
      reply := Returns(0);
    }

    /** `ibsad`: the board's own secondary address, none if negative. */
    method Ibsad(sad: int) returns (reply: Reply)
      requires Valid()
      modifies this`boardAddress
      ensures Valid() && View() == old(View())
      ensures reply == Returns(if sad <= 30 then 0 else -1)
      ensures boardAddress == if sad <= 30 then old(boardAddress).(sad := sad) else old(boardAddress)
    {
      if sad > MAX_ADDRESS {
        return Returns(-1);
      }
      boardAddress := boardAddress.(sad := sad);
      reply := Returns(0);
    }

    /** `pad_ioctl`. On a board descriptor only the board's own address changes, to the descriptor's
        primary address, whatever was asked for. */
    method PadIoctl(handle: nat, pad: nat) returns (reply: Reply)
      requires Valid()
      modifies this`boardAddress, board, board.devices, descriptors
      ensures Valid() && Stepped(View(), reply) == Step(old(View()), SetPad(handle, pad))
      ensures reply == Returns(0) && old(!IsBoard(handle)) ==>
                && descriptors == old(descriptors) && handle < |descriptors|
                && descriptors[handle].pad == pad % 0x1_0000
                && descriptors[handle].sad == old(descriptors[handle].sad)
      ensures boardAddress ==
              if old(IsBoard(handle)) && reply == Returns(0)
              then old(boardAddress).(pad := old(descriptors[handle].pad)) else old(boardAddress)
    {
      if handle >= MAX_DESCRIPTORS {
        return Returns(-EINVAL);
      }
      if handle >= |descriptors| {
        return Raises;
      }
      var desc := descriptors[handle];
      if desc.isBoard {
        reply := Ibpad(desc.pad);
        return;
      }
      InRange(desc.sad);
      reply := Move(handle, pad, desc.sad);
    }

    /** `sad_ioctl`. On a board descriptor the unsigned argument is taken as a signed one, so that a
        negative one disables the board's secondary address. */
    method SadIoctl(handle: nat, sad: nat) returns (reply: Reply)
      requires Valid()
      modifies this`boardAddress, board, board.devices, descriptors
      ensures Valid() && Stepped(View(), reply) == Step(old(View()), SetSad(handle, sad))
      ensures reply == Returns(0) && old(!IsBoard(handle)) ==>
                && descriptors == old(descriptors) && handle < |descriptors|
                && descriptors[handle].pad == old(descriptors[handle].pad)
                && descriptors[handle].sad == Int16(sad)
      ensures boardAddress ==
              if old(IsBoard(handle)) && reply == Returns(0)
              then old(boardAddress).(sad := Int32(sad)) else old(boardAddress)
    {
      if handle >= MAX_DESCRIPTORS {
        return Returns(-EINVAL);
      }
      if handle >= |descriptors| {
        return Raises;
      }
      var desc := descriptors[handle];
      if desc.isBoard {
        reply := Ibsad(Int32(sad));
        return;
      }
      PadInRange(desc.pad);
      reply := Move(handle, desc.pad, sad);
    }
  }

  lemma {:induction false} FindDescIsFirst(descs: seq<Descriptor>, a: Address, k: nat)
    requires k <= |descs| && (k < |descs| ==> Same(descs[k].address, a))
    requires forall j :: 0 <= j < k ==> !Same(descs[j].address, a)
    ensures FindDesc(descs, a) == k
  {
  }
}
