/** The interface board as controller: the driver contract of the board's bus operations, taking and
    releasing control, sending command strings in buffer-sized pieces, and the two address setups.
    The driver may fail or stop short at every call, in any way its contract allows. */
module Controller {
  import opened Errno
  import opened Memory
  import opened Bus
  import opened Addresses

  /** The last call that took or released control, with its result. */
  datatype Control = NoControl | Took(ret: int) | Standby(ret: int)

  /** A command string handed to the driver, and what the driver made of it. */
  datatype Call = Call(bytes: seq<byte>, ret: int, written: nat) {
    predicate Complete() {
      ret >= 0 && written >= |bytes|
    }
  }

  /** A one-byte read from the driver: the bus at that moment, and the answer. */
  datatype Read = Read(states: seq<State>, atn: bool, control: Control, ret: int, count: nat, value: byte) {
    predicate Answered() {
      ret >= 0 && count >= 1
    }
  }

  class Board {
    const bus: Instruments
    const address: Address
    const bufferLength: nat
    /** Whether every driver call that reports no error makes progress. */
    const progress: bool
    var cic: bool
    var atn: bool
    var control: Control
    var states: seq<State>
    /** The calls made to the driver, and how many reported an error or a time-out. */
    var commands: seq<Call>
    var polls: seq<Read>
    var failures: nat
    /** What the driver last said about the timer. */
    ghost var timedOut: bool
    /** How many queries of the board's own address failed. */
    var queryFailures: nat

    constructor (bus: Instruments, address: Address, bufferLength: nat, progress: bool, states: seq<State>)
      requires |states| == |bus| && bufferLength > 0
      ensures this.bus == bus && this.address == address && this.progress == progress
      ensures Valid() && this.states == states && cic && !atn && commands == [] && polls == []
    {
      this.bus, this.address, this.bufferLength, this.progress := bus, address, bufferLength, progress;
      cic, atn, control, this.states := true, false, NoControl, states;
      commands, polls, failures, queryFailures, timedOut := [], [], 0, 0, false;
    }

    predicate Valid()
      reads this
    {
      |states| == |bus| && bufferLength > 0
    }

    // ---- Driver contract -------------------------------------------------------------------

    method TakeControl() returns (ret: int)
      modifies this`atn, this`control, this`failures
      ensures ret <= 0 && (ret == 0 ==> atn)
      ensures ret != 0 ==> atn == old(atn)
      ensures control == Took(ret) && failures == old(failures) + if ret < 0 then 1 else 0
    {
      ret :| ret <= 0;
      control := Took(ret);
      if ret == 0 {
        atn := true;
      } else {
        failures := failures + 1;
      }
    }

    method GoToStandby() returns (ret: int)
      modifies this`atn, this`control, this`failures
      ensures ret >= 0 ==> !atn
      ensures ret < 0 ==> atn == old(atn)
      ensures control == Standby(ret) && failures == old(failures) + if ret < 0 then 1 else 0
    {
      ret := *;
      control := Standby(ret);
      if ret >= 0 {
        atn := false;
      } else {
        failures := failures + 1;
      }
    }

    /** The driver sends a prefix of the bytes, each with ATN true. */
    method Command(bytes: seq<byte>) returns (ret: int, written: nat)
      requires Valid()
      modifies this`atn, this`states, this`commands, this`failures
      ensures Valid() && written <= |bytes| && ret <= 0
      ensures states == HearBus(bus, old(states), bytes[..written])
      ensures commands == old(commands) + [Call(bytes, ret, written)]
      ensures failures == old(failures) + if ret < 0 then 1 else 0
      ensures written > 0 ==> atn
      ensures written == 0 ==> atn == old(atn)
      ensures progress && ret >= 0 && bytes != [] ==> written > 0
    {
      ret :| ret <= 0;
      written :| 0 <= written <= |bytes| && (progress && ret >= 0 && bytes != [] ==> written > 0);
      commands := commands + [Call(bytes, ret, written)];
      failures := failures + if ret < 0 then 1 else 0;
      states := HearBus(bus, states, bytes[..written]);
      atn := atn || written > 0;
    }

    /** One byte from whoever talks, or none. */
    method ReadByte() returns (ret: int, count: nat, b: byte)
      modifies this`polls, this`failures
      ensures count <= 1 && polls == old(polls) + [Read(states, atn, control, ret, count, b)]
      ensures failures == old(failures) + if ret < 0 then 1 else 0
    {
      ret, b := *, *;
      count :| 0 <= count <= 1;
      polls := polls + [Read(states, atn, control, ret, count, b)];
      failures := failures + if ret < 0 then 1 else 0;
    }

    /** Whether the timer ran out on the call just made. */
    method IoTimedOut() returns (timedOut: bool)
      modifies this`failures, this`timedOut
      ensures failures == old(failures) + if timedOut then 1 else 0
      ensures this.timedOut == timedOut
    {
      timedOut := *;
      this.timedOut := timedOut;
      failures := failures + if timedOut then 1 else 0;
    }

    // ---- Control ---------------------------------------------------------------------------

    /** `ibcac`: returns 0 only with ATN true, and takes control exactly if it is not. */
    method Ibcac() returns (ret: int)
      modifies this`atn, this`control, this`failures
      ensures ret <= 0 && (ret == 0 ==> atn)
      ensures ret != 0 ==> atn == old(atn)
      ensures !cic ==> ret == -1 && control == old(control) && failures == old(failures)
      ensures cic && old(atn) ==> ret == 0 && control == old(control) && failures == old(failures)
      ensures cic && !old(atn) ==> control == Took(ret) && failures == old(failures) + if ret < 0 then 1 else 0
    {
      if !cic {
        return -1;
      }
      if atn {
        return 0;
      }
      ret := TakeControl();
    }

    /** `ibgts`: returns without error only with ATN false. */
    method Ibgts() returns (ret: int)
      modifies this`atn, this`control, this`failures
      ensures ret >= 0 ==> !atn
      ensures ret < 0 ==> atn == old(atn)
      ensures !cic ==> ret == -1 && control == old(control) && failures == old(failures)
      ensures cic ==> control == Standby(ret) && failures == old(failures) + if ret < 0 then 1 else 0
    {
      if !cic {
        return -1;
      }
      ret := GoToStandby();
    }

    /** `ibcmd`: hand one piece of a command string to the driver, with control taken first. */
    method Ibcmd(bytes: seq<byte>) returns (ret: int, written: nat)
      requires Valid()
      modifies this`atn, this`control, this`states, this`commands, this`failures, this`timedOut
      ensures Valid() && written <= |bytes| && ret <= 0
      ensures states == HearBus(bus, old(states), bytes[..written])
      ensures commands == old(commands) || exists r :: commands == old(commands) + [Call(bytes, r, written)]
      ensures !cic ==> ret == -EIO && commands == old(commands) && failures == old(failures)
      ensures failures >= old(failures)
      ensures cic ==> (ret < 0 <==> failures > old(failures))
      ensures cic && ret == 0 ==> commands == old(commands) + [Call(bytes, 0, written)]
      ensures progress && ret >= 0 && bytes != [] ==> written > 0
    {
      HearNothing(bus, states, bytes);
      if !cic {
        return -EIO, 0;
      }
      ret := Ibcac();
      written := 0;
      if ret == 0 {
        ret, written := Command(bytes);
      }
      var timedOut := IoTimedOut();
      if timedOut {
        ret := -ETIMEDOUT;
      }
    }

    /** Since these calls the driver was handed only pieces of at most one board buffer, and none empty but
        perhaps the first. */
    ghost predicate SentInPieces(before: seq<Call>)
      reads this
    {
      before <= commands && forall k :: |before| <= k < |commands| ==>
        |commands[k].bytes| <= bufferLength && (k > |before| ==> commands[k].bytes != [])
    }

    /** `command_ioctl` on a fresh request: the driver is called at least once, with pieces of at
        most one board buffer; what was completed is exactly what the bus heard; an error is returned
        exactly if a call reported one, and without error that is everything, provided calls that
        report no error make progress. */
    method CommandIoctl(bytes: seq<byte>) returns (ret: int, completed: nat)
      requires Valid()
      modifies this`atn, this`control, this`states, this`commands, this`failures, this`timedOut
      ensures Valid() && completed <= |bytes| && ret <= 0
      ensures states == HearBus(bus, old(states), bytes[..completed])
      ensures SentInPieces(old(commands))
      ensures !cic ==> ret == -EIO && commands == old(commands) && failures == old(failures)
      ensures cic ==> (ret < 0 <==> failures > old(failures))
      ensures cic && ret == 0 ==> |commands| > |old(commands)|
      ensures ret == 0 && progress ==> completed == |bytes|
      ensures failures >= old(failures)
    {
      HearNothing(bus, states, bytes);
      ghost var before := states;
      completed := 0;
      var remain: nat := |bytes|;
      ret := 0;
      var started := false;
      while !started || remain > 0
        invariant Valid() && completed + remain == |bytes| && ret == 0 && (started ==> cic)
        invariant states == HearBus(bus, before, bytes[..completed])
        invariant SentInPieces(old(commands)) && failures == old(failures)
        invariant if started then |commands| > |old(commands)| else commands == old(commands)
        decreases if started then 0 else 1, remain
      {
        started := true;
        var nbytes := if bufferLength < remain then bufferLength else remain;
        var piece := bytes[completed..completed + nbytes];
        var written;
        ret, written := Ibcmd(piece);
        HearBusConcat(bus, before, bytes[..completed], piece[..written]);
        assert bytes[..completed] + piece[..written] == bytes[..completed + written];
        completed := completed + written;
        remain := remain - written;
        if ret < 0 || written == 0 {
          break;
        }
      }
    }

    /** `my_ibcmd`: the count sent, or -1 exactly without control or if a call reported an error. */
    method MyIbcmd(bytes: seq<byte>) returns (count: int)
      requires Valid()
      modifies this`atn, this`control, this`states, this`commands, this`failures, this`timedOut
      ensures Valid() && -1 <= count <= |bytes|
      ensures count >= 0 ==> states == HearBus(bus, old(states), bytes[..count])
      ensures SentInPieces(old(commands))
      ensures failures >= old(failures) && (count == -1 <==> !cic || failures > old(failures))
      ensures !cic ==> states == old(states) && commands == old(commands)
      ensures count >= 0 && progress ==> count == |bytes|
    {
      HearNothing(bus, states, bytes);
      if !cic {
        return -1;
      }
      var ret, completed := CommandIoctl(bytes);
      count := if ret < 0 then -1 else completed;
    }

    /** `query_pad` and `query_sad`: whether the board's own address is known. */
    method QueryAddress() returns (padKnown: bool, sadKnown: bool)
      modifies this`queryFailures
      ensures queryFailures >= old(queryFailures)
      ensures queryFailures == old(queryFailures) <==> padKnown && sadKnown
    {
      padKnown, sadKnown := *, *;
      queryFailures := queryFailures + if padKnown && sadKnown then 0 else 1;
    }

    // ---- Setups ----------------------------------------------------------------------------

    /** `InternalSendSetup`, unless counting the list never ends: it fails for a bad, null or empty list,
        on a device's handle and without control, and else exactly if a driver call reports an error,
        given progress. Success means that what the 8-bit index keeps of the setup string was heard: all of
        up to 255 bytes, as for up to 126 addresses, and then the bus is set to send; of a longer one only
        the end. But if the board's own address cannot be queried success is reported with nothing heard. */
    method InternalSendSetup(isInterface: bool, l: AddressList) returns (rc: int, endless: bool)
      requires Valid() && (l.Entries? ==> Ends(l.list))
      modifies this`atn, this`control, this`states, this`commands, this`failures, this`timedOut, this`queryFailures
      ensures Valid() && (rc == 0 || rc == -1)
      ensures endless <==> l.Entries? && ListIsValid(l.list) && !Terminated(l.list)
      ensures endless || (rc == 0 && queryFailures > old(queryFailures)) ==> states == old(states)
      ensures !endless && !Sendable(isInterface, l) ==> rc == -1 && states == old(states) && commands == old(commands)
      ensures rc == 0 && !endless ==> Sendable(isInterface, l) && failures == old(failures)
      ensures !endless && Sendable(isInterface, l) && progress && failures == old(failures) ==> rc == 0
      ensures rc == 0 && !endless && queryFailures == old(queryFailures) ==>
                var setup := SendSetup(address, Decoded(l.list));
                && states == HearBus(bus, old(states), Kept(setup))
                && (|setup| <= 0xFF ==> states == HearBus(bus, old(states), setup))
                && (|setup| <= 0xFF && ProperBus(bus, address) ==> Sending(bus, states, Decoded(l.list)))
      ensures rc == 0 && !endless && ListLength(l.list) <= 126 ==> |SendSetup(address, Decoded(l.list))| <= 0xFF
    {
      var valid, _ := AddressListIsValid(l);
      if !valid {
        return -1, false;
      }
      var n;
      n, endless := NumAddresses(l);
      if endless {
        return 0, true;
      }
      if n == 0 || !isInterface || !cic {
        return -1, false;
      }
      SendSetupLength(address, Decoded(l.list));
      var padKnown, sadKnown := QueryAddress();
      var cmd := new byte[16 + 2 * n];
      var i := CreateSendSetup(address, padKnown, sadKnown, l, cmd);
      rc := SendAll(cmd[..i]);
      HearNothing(bus, old(states), [0]);
      assert cmd[..0] == [0][..0];
      if padKnown && sadKnown && ProperBus(bus, address) {
        SendSetupReachesTarget(bus, old(states), address, Decoded(l.list));
      }
    }

    predicate Sendable(isInterface: bool, l: AddressList)
      reads this
    {
      isInterface && l.Entries? && ListIsValid(l.list) && ListLength(l.list) > 0 && cic
    }

    /** Success only if the whole string was counted as sent. */
    method SendAll(bytes: seq<byte>) returns (rc: int)
      requires Valid() && cic
      modifies this`atn, this`control, this`states, this`commands, this`failures, this`timedOut
      ensures Valid() && (rc == 0 || rc == -1) && failures >= old(failures)
      ensures rc == 0 ==> failures == old(failures) && states == HearBus(bus, old(states), bytes)
      ensures rc < 0 ==> failures > old(failures) || !progress
    {
      var count := MyIbcmd(bytes);
      rc := if count != |bytes| then -1 else 0;
      assert bytes[..|bytes|] == bytes;
    }

    /** `InternalReceiveSetup`: it fails for a bad address, if the board's own cannot be queried, without
        control, or if a driver call reports an error, and only then; so completeness rests on the driver
        making progress. */
    method InternalReceiveSetup(packed: nat) returns (rc: int)
      requires Valid()
      modifies this`atn, this`control, this`states, this`commands, this`failures, this`timedOut, this`queryFailures
      ensures Valid() && (rc == 0 || rc == -1)
      ensures rc == 0 <==> && packed != NOADDR && AddressIsValid(packed) && cic
                           && failures == old(failures) && queryFailures == old(queryFailures)
      ensures packed == NOADDR || !AddressIsValid(packed) || !cic || queryFailures > old(queryFailures) ==>
                states == old(states) && commands == old(commands)
      ensures rc == 0 && progress ==>
                var a := Address(ExtractPad(packed), ExtractSad(packed));
                && states == HearBus(bus, old(states), ReceiveSetup(address, a))
                && (ProperBus(bus, address) && a.pad != address.pad && Unambiguous(bus, a) ==>
                      Receiving(bus, states, a))
    {
      if !AddressIsValid(packed) || packed == NOADDR {
        return -1;
      }
      var padKnown, sadKnown := QueryAddress();
      if !padKnown || !sadKnown {
        return -1;
      }
      var a := Address(ExtractPad(packed), ExtractSad(packed));
      var cmd := ReceiveSetup(address, a);
      var count := MyIbcmd(cmd);
      assert cmd[..|cmd|] == cmd;
      rc := if count < 0 then -1 else 0;
      if ProperBus(bus, address) && a.pad != address.pad && Unambiguous(bus, a) {
        ReceiverSet(bus, old(states), address, a);
      }
    }
  }

  lemma ReceiverSet(bus: Instruments, states: seq<State>, board: Address, a: Address)
    requires ProperBus(bus, board) && ValidAddress(a) && a.pad != board.pad && Unambiguous(bus, a) && |states| == |bus|
    ensures Receiving(bus, HearBus(bus, states, ReceiveSetup(board, a)), a)
  {
    ReceiveSetupReachesTarget(bus, board, a);
  }

  lemma HearNothing(bus: Instruments, states: seq<State>, bytes: seq<byte>)
    requires |states| == |bus|
    ensures HearBus(bus, states, bytes[..0]) == states
  {
  }
}
