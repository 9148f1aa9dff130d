/** The serial poll as it runs on a driver that may fail at any call: setup, one byte from each
    descriptor's device, cleanup, and the status bytes pushed to the registry. What each run does is
    stated of the calls it made to the driver and of their results. */
module SerialPoll {
  import opened Errno
  import opened Memory
  import opened Bus
  import opened Registry
  import opened DeviceTables
  import opened Outcomes
  import opened PollModel
  import C = Controller

  // ---- What a run does, by the driver's answers --------------------------------------------

  /** What a poll works on: the instruments, the board's address, and whether the board has control. */
  datatype Setting = Setting(bus: Instruments, board: Address, cic: bool)

  /** Standby was requested before the read: ATN is false exactly if that succeeded, which takes
      control of the bus. */
  predicate AfterStandby(cic: bool, e: C.Read) {
    if cic then e.control.Standby? && (e.atn <==> e.control.ret < 0) else e.atn
  }

  /** The status byte pushed for an answer, if it requests service. */
  function Requested(a: Address, e: C.Read): seq<Op> {
    if e.Answered() && RequestsService(e.value) then [Push(a, e.value)] else []
  }

  /** The reads of the first rounds, when the last of these rounds is left out. */
  function EarlierReads(last: C.Call, answers: seq<C.Read>): seq<C.Read> {
    if last.Complete() && answers != [] then answers[..|answers| - 1] else answers
  }

  /** The pushes of a sweep: for each descriptor whose talk address was heard, what its byte asks for. */
  function Requests(descs: seq<Descriptor>, rounds: seq<C.Call>, answers: seq<C.Read>): seq<Op>
    requires |rounds| == |descs|
    decreases |descs|
  {
    if descs == [] then [] else
      var n := |descs| - 1;
      Requests(descs[..n], rounds[..n], EarlierReads(rounds[n], answers)) +
      if rounds[n].Complete() && answers != [] then Requested(descs[n].address, answers[|answers| - 1]) else []
  }

  /** What a poll may rely on: a proper bus, and an address that belongs to a device and is
      unambiguous. */
  ghost predicate Pollable(at: Setting, a: Address) {
    ProperBus(at.bus, at.board) && ValidAddress(a) && a.pad != at.board.pad && Unambiguous(at.bus, a)
  }

  /** On a proper bus, none of these addresses stops the board listening. */
  ghost predicate Steady(at: Setting, descs: seq<Descriptor>) {
    ProperBus(at.bus, at.board) && forall h :: 0 <= h < |descs| ==> Harmless(at.bus, descs[h].address)
  }

  /** Each descriptor's address was sent once, in order; after each that was sent completely, and only
      then, one byte was read; on a bus set for that byte if the descriptor is a device's at an
      unambiguous address, and none before it stopped the board listening. */
  ghost predicate Swept(at: Setting, descs: seq<Descriptor>, rounds: seq<C.Call>, answers: seq<C.Read>)
    decreases |descs|
  {
    |rounds| == |descs| &&
    if descs == [] then answers == [] else
      var n := |descs| - 1;
      && rounds[n].bytes == TalkBytes(descs[n].address)
      && (rounds[n].Complete() ==>
            && answers != []
            && ReadProperly(at, Steady(at, descs[..n]) && Pollable(at, descs[n].address),
                            descs[n].address, answers[|answers| - 1]))
      && Swept(at, descs[..n], rounds[..n], EarlierReads(rounds[n], answers))
  }

  ghost predicate ReadProperly(at: Setting, proper: bool, a: Address, e: C.Read) {
    AfterStandby(at.cic, e) && (proper ==> Asking(at.bus, e.states, a))
  }

  /** The calls of a sweep of at least one descriptor: setup; unless that fails, a round for each
      descriptor, whose requests reach the registry, and cleanup. The result is an error if setup or
      cleanup fails, and else counts the status bytes that reached the queues. */
  ghost predicate PolledAll(at: Setting, t: Tables, calls: seq<C.Call>,
                            answers: seq<C.Read>, t': Tables, rc: int)
  {
    calls != [] && calls[0].bytes == PollSetup(at.board) &&
    var n := |calls| - 1;
    if !calls[0].Complete() then n == 0 && answers == [] && t' == t && rc == -EIO else
      && n == |t.descs| + 1
      && calls[n].bytes == POLL_CLEANUP
      && Swept(at, t.descs, calls[1..n], answers)
      && t' == Run(t, Requests(t.descs, calls[1..n], answers))
      && rc == if calls[n].Complete() then Accepted(t, Requests(t.descs, calls[1..n], answers)) else -EIO
  }

  /** The calls of a single poll: setup; unless that fails, the talk address, one byte if that was
      heard, and cleanup in any case. It succeeds exactly if all of them did. */
  ghost predicate PolledOnce(at: Setting, proper: bool, a: Address, calls: seq<C.Call>,
                             answers: seq<C.Read>, rc: int, result: byte)
  {
    && calls != [] && calls[0].bytes == PollSetup(at.board)
    && if !calls[0].Complete() then |calls| == 1 && answers == [] && rc == -EIO else
         && |calls| == 3 && calls[1].bytes == TalkBytes(a) && calls[2].bytes == POLL_CLEANUP
         && |answers| == (if calls[1].Complete() then 1 else 0)
         && (answers != [] ==> ReadProperly(at, proper, a, answers[0]))
         && (rc == 0 || rc == -EIO)
         && (rc == 0 <==> answers != [] && answers[0].Answered() && calls[2].Complete())
         && (rc == 0 ==> result == answers[0].value)
  }

  lemma SetUp(at: Setting, states: seq<State>, call: C.Call, states': seq<State>)
    requires ProperBus(at.bus, at.board) && |states| == |at.bus|
    requires call.bytes == PollSetup(at.board) && call.Complete() && call.written <= |call.bytes|
    requires states' == HearBus(at.bus, states, PollSetup(at.board)[..call.written])
    ensures Polling(at.bus, states')
  {
    assert call.bytes[..|call.bytes|] == call.bytes;
    SetupStartsPolling(at.bus, states, at.board);
  }

  lemma Addressed(at: Setting, states: seq<State>, a: Address, call: C.Call, states': seq<State>)
    requires ProperBus(at.bus, at.board) && Harmless(at.bus, a) && Polling(at.bus, states)
    requires call.bytes == TalkBytes(a) && call.written <= |call.bytes|
    requires states' == HearBus(at.bus, states, TalkBytes(a)[..call.written])
    ensures Polling(at.bus, states')
    ensures call.Complete() && Pollable(at, a) ==> Asking(at.bus, states', a)
  {
    TalkKeepsPolling(at.bus, states, at.board, a, call.written);
    if call.Complete() && Pollable(at, a) {
      assert call.bytes[..|call.bytes|] == call.bytes;
      TalkAsks(at.bus, states, at.board, a);
    }
  }

  lemma CleanedUp(at: Setting, states: seq<State>, call: C.Call, states': seq<State>)
    requires ProperBus(at.bus, at.board) && |states| == |at.bus|
    requires call.bytes == POLL_CLEANUP && call.Complete() && call.written <= 2
    requires states' == HearBus(at.bus, states, POLL_CLEANUP[..call.written])
    ensures Released(states')
  {
    assert POLL_CLEANUP[..2] == POLL_CLEANUP;
    CleanupReleases(at.bus, states);
  }

  /** A sweep of t0's descriptors with the first rounds behind: what the registry and the bus are then. */
  ghost predicate MidSweep(at: Setting, t0: Tables, t: Tables, states: seq<State>, rounds: seq<C.Call>,
                           answers: seq<C.Read>, numBytes: nat)
  {
    var index := |rounds|;
    && index <= |t0.descs|
    && Collected(t0, t, Requests(t0.descs[..index], rounds, answers), numBytes)
    && Swept(at, t0.descs[..index], rounds, answers)
    && (Steady(at, t0.descs[..index]) ==> Polling(at.bus, states))
  }

  /** The registry after a round. */
  ghost predicate RoundPushed(a: Address, t: Tables, call: C.Call, more: seq<C.Read>, t': Tables, accepted: bool)
  {
    && |more| == (if call.Complete() then 1 else 0)
    && var pushes := if more != [] then Requested(a, more[0]) else [];
       t' == Run(t, pushes) && Accepted(t, pushes) == if accepted then 1 else 0
  }

  /** The bus after a round, and the byte read in it. */
  ghost predicate RoundHeard(at: Setting, a: Address, states: seq<State>, call: C.Call, more: seq<C.Read>,
                             states': seq<State>)
  {
    && |states| == |at.bus|
    && call.bytes == TalkBytes(a) && call.written <= |call.bytes|
    && states' == HearBus(at.bus, states, TalkBytes(a)[..call.written])
    && |more| == (if call.Complete() then 1 else 0)
    && (more != [] ==> more[0].states == states' && AfterStandby(at.cic, more[0]))
  }

  lemma SteadyMore(at: Setting, descs: seq<Descriptor>, index: nat)
    requires index < |descs|
    ensures Steady(at, descs[..index + 1]) <==> Steady(at, descs[..index]) && Harmless(at.bus, descs[index].address)
    ensures Pollable(at, descs[index].address) ==> Harmless(at.bus, descs[index].address)
  {
    assert descs[..index + 1] == descs[..index] + [descs[index]];
  }

  /** What a round leaves in the registry. */
  lemma RoundCollected(t0: Tables, t: Tables, pushes: seq<Op>, numBytes: nat, index: nat, call: C.Call,
                       more: seq<C.Read>, t': Tables, accepted: bool)
    requires Index(t0) && index < |t0.descs| && Collected(t0, t, pushes, numBytes)
    requires RoundPushed(t0.descs[index].address, t, call, more, t', accepted)
    ensures var next := if more != [] then Requested(t0.descs[index].address, more[0]) else [];
            Collected(t0, t', pushes + next, if accepted then numBytes + 1 else numBytes)
  {
    var next := if more != [] then Requested(t0.descs[index].address, more[0]) else [];
    CollectMore(t0, t, pushes, numBytes, index, next, t', if accepted then numBytes + 1 else numBytes);
  }

  /** What a round leaves on the bus, after these descriptors. */
  lemma RoundPolling(at: Setting, descs: seq<Descriptor>, index: nat, states: seq<State>, call: C.Call,
                     more: seq<C.Read>, states': seq<State>)
    requires index < |descs| && RoundHeard(at, descs[index].address, states, call, more, states')
    requires Steady(at, descs[..index]) ==> Polling(at.bus, states)
    ensures Steady(at, descs[..index + 1]) ==> Polling(at.bus, states')
    ensures more != [] ==>
              ReadProperly(at, Steady(at, descs[..index]) && Pollable(at, descs[index].address),
                           descs[index].address, more[0])
  {
    SteadyMore(at, descs, index);
    if Steady(at, descs[..index]) && Harmless(at.bus, descs[index].address) {
      Addressed(at, states, descs[index].address, call, states');
    }
  }

  lemma RoundSwept(at: Setting, t0: Tables, t: Tables, states: seq<State>, rounds: seq<C.Call>, answers: seq<C.Read>,
                   numBytes: nat, call: C.Call, more: seq<C.Read>, t': Tables, states': seq<State>, accepted: bool)
    requires Index(t0) && |rounds| < |t0.descs| && MidSweep(at, t0, t, states, rounds, answers, numBytes)
    requires RoundPushed(t0.descs[|rounds|].address, t, call, more, t', accepted)
    requires RoundHeard(at, t0.descs[|rounds|].address, states, call, more, states')
    ensures MidSweep(at, t0, t', states', rounds + [call], answers + more, if accepted then numBytes + 1 else numBytes)
  {
    var index := |rounds|;
    RoundCollected(t0, t, Requests(t0.descs[..index], rounds, answers), numBytes, index, call, more, t', accepted);
    RoundPolling(at, t0.descs, index, states, call, more, states');
    OneRound(at, t0.descs, index, rounds, answers, call, more);
  }

  class GpibSys {
    const board: C.Board
    const link: GpibLink

    constructor (board: C.Board, link: GpibLink)
      ensures this.board == board && this.link == link
    {
      this.board, this.link := board, link;
    }

    ghost predicate Valid()
      reads this, board, link, link.board
    {
      board.Valid() && link.Valid()
    }

    function LastCall(): C.Call
      requires board.commands != []
      reads board
    {
      board.commands[|board.commands| - 1]
    }

    function LastRead(): C.Read
      requires board.polls != []
      reads board
    {
      board.polls[|board.polls| - 1]
    }

    function At(): Setting
      reads board
    {
      Setting(board.bus, board.address, board.cic)
    }

    /** One command string was handed to the driver since then, and the bus heard what it sent. */
    ghost predicate Commanded(commands0: seq<C.Call>, states0: seq<State>, bytes: seq<byte>)
      reads board
    {
      && board.Valid() && board.commands != []
      && board.commands == commands0 + [LastCall()]
      && LastCall().bytes == bytes && LastCall().written <= |bytes|
      && |states0| == |board.bus| && board.states == HearBus(board.bus, states0, bytes[..LastCall().written])
    }

    /** How each step of a poll starts: control is requested, whatever comes of it; then one command
        string. */
    method RequestAndCommand(cmd: seq<byte>) returns (rc: int)
      requires board.Valid()
      modifies board`atn, board`control, board`states, board`commands, board`failures, board`timedOut
      ensures Commanded(old(board.commands), old(board.states), cmd)
      ensures board.cic && !old(board.atn) ==> board.control.Took?
      ensures board.atn || !(cmd != [] && LastCall().Complete())
      ensures rc == (if LastCall().Complete() then 0 else -EIO) && board.failures >= old(board.failures)
    {
      var _ := board.Ibcac();
      var ret, written := board.Command(cmd);
      rc := if ret < 0 || written < |cmd| then -EIO else 0;
    }

    /** `setup_serial_poll`. */
    method SetupSerialPoll() returns (rc: int)
      requires board.Valid()
      modifies board`atn, board`control, board`states, board`commands, board`failures, board`timedOut
      ensures Commanded(old(board.commands), old(board.states), PollSetup(board.address))
      ensures board.cic && !old(board.atn) ==> board.control.Took?
      ensures rc == (if LastCall().Complete() then 0 else -EIO) && board.failures >= old(board.failures)
    {
      var cmd := [UNL, MLA(board.address.pad)];
      if board.address.sad >= 0 {
        cmd := cmd + [MSA(board.address.sad)];
      }
      cmd := cmd + [SPE];
      assert cmd == PollSetup(board.address);
      rc := RequestAndCommand(cmd);
    }

    /** The byte of a poll: a request for standby, whatever comes of it, and one read. */
    method ReadAfterStandby() returns (rc: int, result: byte)
      requires board.Valid() && board.atn
      modifies board`atn, board`control, board`polls, board`failures, board`timedOut
      ensures board.Valid() && board.failures >= old(board.failures)
      ensures board.polls != [] && board.polls == old(board.polls) + [LastRead()]
      ensures LastRead().states == board.states && AfterStandby(board.cic, LastRead())
      ensures rc == (if LastRead().Answered() then 0 else -EIO) && (rc == 0 ==> result == LastRead().value)
    {
      var _ := board.Ibgts();
      var ret, count;
      ret, count, result := board.ReadByte();
      rc := if ret < 0 || count < 1 then -EIO else 0;
    }

    /** `read_serial_poll_byte`. The driver is asked for a byte only after the whole talk address was
        heard, and then after a request for standby, whatever came of that. */
    method ReadSerialPollByte(a: Address) returns (rc: int, result: byte)
      requires board.Valid()
      modifies board`atn, board`control, board`states, board`commands, board`polls, board`failures, board`timedOut
      ensures Commanded(old(board.commands), old(board.states), TalkBytes(a))
      ensures if LastCall().Complete()
              then && board.polls != [] && board.polls == old(board.polls) + [LastRead()]
                   && LastRead().states == board.states && AfterStandby(board.cic, LastRead())
                   && rc == (if LastRead().Answered() then 0 else -EIO)
                   && (rc == 0 ==> result == LastRead().value)
              else && board.polls == old(board.polls) && rc == -EIO
                   && (board.cic && !old(board.atn) ==> board.control.Took?)
      ensures board.failures >= old(board.failures)
    {
      var cmd := [MTA(a.pad)];
      if a.sad >= 0 {
        cmd := cmd + [MSA(a.sad)];
      }
      assert cmd == TalkBytes(a);
      result := 0;
      rc := RequestAndCommand(cmd);
      if rc < 0 {
        return;
      }
      rc, result := ReadAfterStandby();
    }

    /** `cleanup_serial_poll`. */
    method CleanupSerialPoll() returns (rc: int)
      requires board.Valid()
      modifies board`atn, board`control, board`states, board`commands, board`failures, board`timedOut
      ensures Commanded(old(board.commands), old(board.states), POLL_CLEANUP)
      ensures board.cic && !old(board.atn) ==> board.control.Took?
      ensures rc == (if LastCall().Complete() then 0 else -EIO) && board.failures >= old(board.failures)
    {
      rc := RequestAndCommand(POLL_CLEANUP);
    }

    /** The setup, and what it makes of the bus. */
    method BeginPoll() returns (rc: int, ghost setup: C.Call)
      requires board.Valid()
      modifies board`atn, board`control, board`states, board`commands, board`failures, board`timedOut
      ensures board.Valid() && board.failures >= old(board.failures)
      ensures board.commands == old(board.commands) + [setup] && setup.bytes == PollSetup(board.address)
      ensures rc == if setup.Complete() then 0 else -EIO
      ensures setup.Complete() && ProperBus(board.bus, board.address) ==> Polling(board.bus, board.states)
    {
      ghost var states0 := board.states;
      rc := SetupSerialPoll();
      setup := LastCall();
      if setup.Complete() && ProperBus(board.bus, board.address) {
        SetUp(At(), states0, setup, board.states);
      }
    }

    /** `serial_poll_single`: see PolledOnce; and once setup and cleanup were heard, whatever the read
        did, every device is released. */
    method SerialPollSingle(a: Address) returns (rc: int, result: byte)
      requires board.Valid()
      modifies board`atn, board`control, board`states, board`commands, board`polls, board`failures, board`timedOut
      ensures board.Valid() && old(board.commands) <= board.commands && old(board.polls) <= board.polls
      ensures PolledOnce(At(), Pollable(At(), a), a, board.commands[|old(board.commands)|..],
                         board.polls[|old(board.polls)|..], rc, result)
      ensures board.failures >= old(board.failures)
      ensures ProperBus(board.bus, board.address) && LastCall().bytes == POLL_CLEANUP && LastCall().Complete() ==>
                Released(board.states)
    {
      ghost var commands0 := board.commands;
      ghost var setup;
      result := 0;
      rc, setup := BeginPoll();
      if rc < 0 {
        OneMore(commands0, setup);
        assert board.polls[|board.polls|..] == [];
        PolledOnceFailed(At(), Pollable(At(), a), a, setup, result);
        return;
      }
      rc, result := ReadAndCleanup(a, commands0, setup);
    }

    /** The rest of a single poll, after a successful setup. */
    method ReadAndCleanup(a: Address, ghost commands0: seq<C.Call>, ghost setup: C.Call) returns (rc: int, result: byte)
      requires board.Valid() && board.commands == commands0 + [setup]
      requires setup.bytes == PollSetup(board.address) && setup.Complete()
      requires ProperBus(board.bus, board.address) ==> Polling(board.bus, board.states)
      modifies board`atn, board`control, board`states, board`commands, board`polls, board`failures, board`timedOut
      ensures board.Valid() && commands0 <= board.commands && old(board.polls) <= board.polls
      ensures PolledOnce(At(), Pollable(At(), a), a, board.commands[|commands0|..],
                         board.polls[|old(board.polls)|..], rc, result)
      ensures board.failures >= old(board.failures)
      ensures ProperBus(board.bus, board.address) && LastCall().Complete() ==> Released(board.states)
    {
      ghost var polls0, states1 := board.polls, board.states;
      rc, result := ReadSerialPollByte(a);
      ghost var states2, talk := board.states, LastCall();
      ghost var answers := if talk.Complete() then [LastRead()] else [];
      assert board.polls == polls0 + answers;
      if Pollable(At(), a) {
        assert Harmless(board.bus, a);
        Addressed(At(), states1, a, talk, states2);
      }
      rc := CleanupAfterRead(a, rc, result, commands0, setup, talk, answers);
      assert board.polls[|polls0|..] == answers;
    }

    /** The end of a single poll: an error of the read counts before one of the cleanup. */
    method CleanupAfterRead(a: Address, read: int, result: byte, ghost commands0: seq<C.Call>, ghost setup: C.Call,
                            ghost talk: C.Call, ghost answers: seq<C.Read>)
      returns (rc: int)
      requires board.Valid() && board.commands == (commands0 + [setup]) + [talk]
      requires setup.bytes == PollSetup(board.address) && setup.Complete() && talk.bytes == TalkBytes(a)
      requires |answers| == if talk.Complete() then 1 else 0
      requires answers != [] ==> ReadProperly(At(), Pollable(At(), a), a, answers[0])
      requires read == if answers != [] && answers[0].Answered() then 0 else -EIO
      requires read == 0 ==> result == answers[0].value
      modifies board`atn, board`control, board`states, board`commands, board`failures, board`timedOut
      ensures board.Valid() && commands0 <= board.commands
      ensures PolledOnce(At(), Pollable(At(), a), a, board.commands[|commands0|..], answers, rc, result)
      ensures board.failures >= old(board.failures)
      ensures ProperBus(board.bus, board.address) && LastCall().Complete() ==> Released(board.states)
    {
      ghost var at, states1 := At(), board.states;
      var cleanup := CleanupSerialPoll();
      if ProperBus(board.bus, board.address) && LastCall().Complete() {
        CleanedUp(at, states1, LastCall(), board.states);
      }
      rc := if read < 0 then read else cleanup;
      ThreeMore(commands0, setup, talk, LastCall(), board.commands);
      PolledOnceIs(at, Pollable(at, a), a, setup, talk, LastCall(), answers, rc, result);
    }

    /** Push a polled byte that has the service bit set. */
    method PushIfRequested(a: Address, result: byte) returns (accepted: bool)
      requires link.Valid() && Find(link.View().queues, a) < |link.View().queues|
      modifies link.board.devices
      ensures link.Valid()
      ensures var pushes := if RequestsService(result) then [Push(a, result)] else [];
              && link.View() == Run(old(link.View()), pushes)
              && Accepted(old(link.View()), pushes) == if accepted then 1 else 0
    {
      accepted := false;
      if RequestsService(result) {
        var rc := link.PushStatusByte(a, result);
        accepted := rc >= 0;
        RunOne(old(link.View()), Push(a, result));
      }
    }

    /** One round of the sweep: poll a descriptor's device and push what it asks for. */
    method PollOne(a: Address) returns (accepted: bool, ghost more: seq<C.Read>)
      requires Valid() && Find(link.View().queues, a) < |link.View().queues|
      modifies board`atn, board`control, board`states, board`commands, board`polls
      modifies board`failures, board`timedOut, link.board.devices
      ensures Valid() && Commanded(old(board.commands), old(board.states), TalkBytes(a))
      ensures board.polls == old(board.polls) + more
      ensures RoundHeard(At(), a, old(board.states), LastCall(), more, board.states)
      ensures RoundPushed(a, old(link.View()), LastCall(), more, link.View(), accepted)
    {
      var rc, result := ReadSerialPollByte(a);
      accepted, more := false, if LastCall().Complete() then [LastRead()] else [];
      if rc < 0 {
        return;
      }
      accepted := PushIfRequested(a, result);
    }

    /** The loop of the sweep: every descriptor's device in turn. */
    method Sweep() returns (numBytes: nat, ghost rounds: seq<C.Call>, ghost answers: seq<C.Read>)
      requires Valid() && Index(link.View())
      requires ProperBus(board.bus, board.address) ==> Polling(board.bus, board.states)
      modifies board`atn, board`control, board`states, board`commands, board`polls
      modifies board`failures, board`timedOut, link.board.devices
      ensures Valid() && |rounds| == |old(link.View()).descs|
      ensures board.commands == old(board.commands) + rounds && board.polls == old(board.polls) + answers
      ensures MidSweep(At(), old(link.View()), link.View(), board.states, rounds, answers, numBytes)
    {
      ghost var t0 := link.View();
      numBytes, rounds, answers := 0, [], [];
      assert t0.descs[..0] == [];
      var index := 0;
      while index < |link.descriptors|
        invariant Valid() && index <= |link.descriptors| == |t0.descs| && |rounds| == index
        invariant board.commands == old(board.commands) + rounds && board.polls == old(board.polls) + answers
        invariant MidSweep(At(), t0, link.View(), board.states, rounds, answers, numBytes)
      {
        ghost var more, call;
        numBytes, call, more := SweepOne(index, numBytes, t0, rounds, answers);
        Associate(old(board.polls), answers, more);
        Associate(old(board.commands), rounds, [call]);
        rounds, answers := rounds + [call], answers + more;
        index := index + 1;
      }
    }

    /** The body of that loop. */
    method SweepOne(index: nat, numBytes: nat, ghost t0: Tables, ghost rounds: seq<C.Call>, ghost answers: seq<C.Read>)
      returns (numBytes': nat, ghost call: C.Call, ghost more: seq<C.Read>)
      requires Valid() && Index(t0) && index == |rounds| < |t0.descs| == |link.descriptors|
      requires MidSweep(At(), t0, link.View(), board.states, rounds, answers, numBytes)
      modifies board`atn, board`control, board`states, board`commands, board`polls
      modifies board`failures, board`timedOut, link.board.devices
      ensures Valid() && board.commands == old(board.commands) + [call] && board.polls == old(board.polls) + more
      ensures MidSweep(At(), t0, link.View(), board.states, rounds + [call], answers + more, numBytes')
    {
      var desc := link.descriptors[index];
      var a := Address(desc.pad, desc.sad);
      ghost var t1, states1 := link.View(), board.states;
      assert t1.descs[index].address == a;
      CollectedIndexed(t0, t1, Requests(t0.descs[..index], rounds, answers), numBytes);
      DescriptorHasQueue(t1, index);
      var accepted;
      accepted, more := PollOne(a);
      call := LastCall();
      numBytes' := if accepted then numBytes + 1 else numBytes;
      RoundSwept(At(), t0, t1, states1, rounds, answers, numBytes, call, more, link.View(), board.states, accepted);
    }

    /** The sweep after a successful setup, then the cleanup, which releases every device. */
    method SweepAndCleanup(ghost commands0: seq<C.Call>, ghost setup: C.Call) returns (rc: int)
      requires Valid() && Index(link.View()) && link.descriptors != []
      requires board.commands == commands0 + [setup] && setup.bytes == PollSetup(board.address) && setup.Complete()
      requires ProperBus(board.bus, board.address) ==> Polling(board.bus, board.states)
      modifies board`atn, board`control, board`states, board`commands, board`polls
      modifies board`failures, board`timedOut, link.board.devices
      ensures Valid() && commands0 <= board.commands && old(board.polls) <= board.polls
      ensures PolledAll(At(), old(link.View()),
                        board.commands[|commands0|..], board.polls[|old(board.polls)|..], link.View(), rc)
      ensures rc >= 0 && ProperBus(board.bus, board.address) ==> Released(board.states)
    {
      ghost var t0 := link.View();
      var numBytes;
      ghost var rounds, answers;
      numBytes, rounds, answers := Sweep();
      rc := CleanupAfterSweep(numBytes, t0, commands0, setup, rounds, old(board.polls), answers);
    }

    /** The end of a sweep: the count is returned if the cleanup succeeds. */
    method CleanupAfterSweep(numBytes: nat, ghost t0: Tables, ghost commands0: seq<C.Call>, ghost setup: C.Call,
                             ghost rounds: seq<C.Call>, ghost polls0: seq<C.Read>, ghost answers: seq<C.Read>)
      returns (rc: int)
      requires Valid() && |rounds| == |t0.descs|
      requires setup.bytes == PollSetup(board.address) && setup.Complete()
      requires board.commands == (commands0 + [setup]) + rounds && board.polls == polls0 + answers
      requires MidSweep(At(), t0, link.View(), board.states, rounds, answers, numBytes)
      modifies board`atn, board`control, board`states, board`commands, board`failures, board`timedOut
      ensures Valid() && commands0 <= board.commands && polls0 <= board.polls && link.View() == old(link.View())
      ensures PolledAll(At(), t0, board.commands[|commands0|..], board.polls[|polls0|..], link.View(), rc)
      ensures rc >= 0 && ProperBus(board.bus, board.address) ==> Released(board.states)
    {
      ghost var at, states1 := At(), board.states;
      var cleanup := CleanupSerialPoll();
      rc := if cleanup < 0 then cleanup else numBytes;
      Bracketed(commands0, setup, rounds, LastCall(), board.commands);
      assert board.polls[|polls0|..] == answers;
      PolledAllIs(at, t0, board.commands[|commands0|..], rounds, answers, link.View(), states1, numBytes, rc);
      if rc >= 0 && ProperBus(board.bus, board.address) {
        CleanedUp(at, states1, LastCall(), board.states);
      }
    }

    /** `serial_poll_all`: see PolledAll; and if it succeeds, every device is released. */
    method SerialPollAll() returns (rc: int)
      requires Valid() && Index(link.View())
      modifies board`atn, board`control, board`states, board`commands, board`polls
      modifies board`failures, board`timedOut, link.board.devices
      ensures Valid() && old(board.commands) <= board.commands && old(board.polls) <= board.polls
      ensures old(link.descriptors) == [] ==>
                && rc == 0 && link.View() == old(link.View())
                && board.commands == old(board.commands) && board.polls == old(board.polls)
      ensures old(link.descriptors) != [] ==>
                PolledAll(At(), old(link.View()),
                          board.commands[|old(board.commands)|..], board.polls[|old(board.polls)|..], link.View(), rc)
      ensures old(link.descriptors) != [] && rc >= 0 && ProperBus(board.bus, board.address) ==> Released(board.states)
    {
      if link.descriptors == [] {
        return 0;
      }
      rc := PollEach();
    }

    /** The same with something open. */
    method PollEach() returns (rc: int)
      requires Valid() && Index(link.View()) && link.descriptors != []
      modifies board`atn, board`control, board`states, board`commands, board`polls
      modifies board`failures, board`timedOut, link.board.devices
      ensures Valid() && old(board.commands) <= board.commands && old(board.polls) <= board.polls
      ensures PolledAll(At(), old(link.View()),
                        board.commands[|old(board.commands)|..], board.polls[|old(board.polls)|..], link.View(), rc)
      ensures rc >= 0 && ProperBus(board.bus, board.address) ==> Released(board.states)
    {
      ghost var commands0 := board.commands;
      ghost var setup;
      rc, setup := BeginPoll();
      if rc < 0 {
        OneMore(commands0, setup);
        assert board.polls[|board.polls|..] == [];
        PolledAllFailed(At(), link.View(), setup, rc);
        return;
      }
      rc := SweepAndCleanup(commands0, setup);
    }

    /** `dvrsp`: a single poll on request, refused without control or for an address out of range; a
        time-out overrides its result. */
    method Dvrsp(a: Address) returns (rc: int, result: byte, ghost polled: int)
      requires board.Valid()
      modifies board`atn, board`control, board`states, board`commands, board`polls, board`failures, board`timedOut
      ensures board.Valid() && old(board.commands) <= board.commands && old(board.polls) <= board.polls
      ensures !board.cic || !ValidAddress(a) ==>
                rc == -1 && board.commands == old(board.commands) && board.polls == old(board.polls)
      ensures board.cic && ValidAddress(a) ==>
                && PolledOnce(At(), Pollable(At(), a), a, board.commands[|old(board.commands)|..],
                              board.polls[|old(board.polls)|..], polled, result)
                && rc == if board.timedOut then -60 else polled
      ensures rc >= 0 && ProperBus(board.bus, board.address) ==> Released(board.states)
    {
      if !board.cic || !ValidAddress(a) {
        return -1, 0, -1;
      }
      rc, result := SerialPollSingle(a);
      polled := rc;
      var timedOut := board.IoTimedOut();
      if timedOut {
        rc := -ETIMEDOUT;
      }
    }

    /** `get_serial_poll_byte`: a stored status byte if the address has one, with no bus traffic, and
        else a poll, with no change to the registry. */
    method GetSerialPollByte(a: Address) returns (rc: int, result: byte, ghost polled: int)
      requires Valid()
      modifies board`atn, board`control, board`states, board`commands, board`polls
      modifies board`failures, board`timedOut, link.board.devices
      ensures Valid() && old(board.commands) <= board.commands && old(board.polls) <= board.polls
      ensures var q, k := old(link.View()).queues, Find(old(link.View()).queues, a);
              if k < |q| && q[k].num > 0
              then Stepped(link.View(), Returns(rc)) == Step(old(link.View()), Pop(a)) && result == PopByte(q[k]).value
                   && board.polls == old(board.polls) && board.commands == old(board.commands)
              else link.View() == old(link.View()) &&
                   if !board.cic || !ValidAddress(a) then rc == -1 && board.commands == old(board.commands)
                   else
                     && PolledOnce(At(), Pollable(At(), a), a, board.commands[|old(board.commands)|..],
                                   board.polls[|old(board.polls)|..], polled, result)
                     && rc == if board.timedOut then -60 else polled
    {
      var stored;
      stored, rc, result := link.PopStored(a);
      polled := rc;
      if !stored {
        rc, result, polled := Dvrsp(a);
      }
    }
  }

  lemma PolledOnceFailed(at: Setting, proper: bool, a: Address, setup: C.Call, result: byte)
    requires setup.bytes == PollSetup(at.board) && !setup.Complete()
    ensures PolledOnce(at, proper, a, [setup], [], -EIO, result)
  {
  }

  lemma PolledOnceIs(at: Setting, proper: bool, a: Address, setup: C.Call, talk: C.Call, cleanup: C.Call,
                     answers: seq<C.Read>, rc: int, result: byte)
    requires setup.bytes == PollSetup(at.board) && setup.Complete()
    requires talk.bytes == TalkBytes(a) && cleanup.bytes == POLL_CLEANUP
    requires |answers| == if talk.Complete() then 1 else 0
    requires answers != [] ==> ReadProperly(at, proper, a, answers[0])
    requires rc == 0 || rc == -EIO
    requires rc == 0 <==> answers != [] && answers[0].Answered() && cleanup.Complete()
    requires rc == 0 ==> result == answers[0].value
    ensures PolledOnce(at, proper, a, [setup, talk, cleanup], answers, rc, result)
  {
  }

  lemma PolledAllFailed(at: Setting, t: Tables, setup: C.Call, rc: int)
    requires setup.bytes == PollSetup(at.board) && !setup.Complete() && rc == -EIO
    ensures PolledAll(at, t, [setup], [], t, rc)
  {
  }

  lemma ThreeMore<T>(before: seq<T>, x: T, y: T, z: T, all: seq<T>)
    requires all == before + [x] + [y] + [z]
    ensures before <= all && all[|before|..] == [x, y, z]
  {
  }

  lemma PolledAllIs(at: Setting, t: Tables, calls: seq<C.Call>, rounds: seq<C.Call>, answers: seq<C.Read>,
                    t': Tables, states: seq<State>, numBytes: nat, rc: int)
    requires |calls| == |rounds| + 2 && calls[1..|calls| - 1] == rounds && |rounds| == |t.descs|
    requires calls[0].bytes == PollSetup(at.board) && calls[0].Complete() && calls[|calls| - 1].bytes == POLL_CLEANUP
    requires MidSweep(at, t, t', states, rounds, answers, numBytes)
    requires rc == if calls[|calls| - 1].Complete() then numBytes else -EIO
    ensures PolledAll(at, t, calls, answers, t', rc)
  {
    assert t.descs[..|t.descs|] == t.descs;
  }

  lemma Bracketed<T>(before: seq<T>, first: T, middle: seq<T>, last: T, all: seq<T>)
    requires all == ((before + [first]) + middle) + [last]
    ensures before <= all
    ensures var s := all[|before|..];
            |s| == |middle| + 2 && s[0] == first && s[1..|s| - 1] == middle && s[|s| - 1] == last
  {
    assert all[|before|..] == [first] + middle + [last];
  }

  lemma OneMore<T>(before: seq<T>, x: T)
    ensures (before + [x])[|before|..] == [x]
  {
  }

  /** One round more: its talk address, and its answer if it got one. */
  lemma OneRound(at: Setting, descs: seq<Descriptor>, index: nat, rounds: seq<C.Call>,
                 answers: seq<C.Read>, call: C.Call, more: seq<C.Read>)
    requires |rounds| == index < |descs| && |more| == if call.Complete() then 1 else 0
    ensures var pushes := if more != [] then Requested(descs[index].address, more[0]) else [];
            Requests(descs[..index + 1], rounds + [call], answers + more) ==
            Requests(descs[..index], rounds, answers) + pushes
    ensures Swept(at, descs[..index + 1], rounds + [call], answers + more) <==>
            && call.bytes == TalkBytes(descs[index].address)
            && (more != [] ==> ReadProperly(at, Steady(at, descs[..index]) && Pollable(at, descs[index].address),
                                            descs[index].address, more[0]))
            && Swept(at, descs[..index], rounds, answers)
  {
    var d, r := descs[..index + 1], rounds + [call];
    assert d[..index] == descs[..index] && r[..index] == rounds;
    assert EarlierReads(call, answers + more) == answers;
  }

  /** Every push of a sweep is for a descriptor's address, and repeats a byte that was read and
      requests service. */
  lemma {:induction false} RequestOrigin(descs: seq<Descriptor>, rounds: seq<C.Call>, answers: seq<C.Read>, i: nat)
    requires |rounds| == |descs| && i < |Requests(descs, rounds, answers)|
    ensures var op := Requests(descs, rounds, answers)[i];
            && op.Push? && (op.b as bv8) & 0x40 != 0
            && (exists h :: 0 <= h < |descs| && descs[h].address == op.to)
            && (exists j :: 0 <= j < |answers| && answers[j].Answered() && answers[j].value == op.b)
    decreases |descs|
  {
    var n := |descs| - 1;
    var earlier := EarlierReads(rounds[n], answers);
    if i < |Requests(descs[..n], rounds[..n], earlier)| {
      RequestOrigin(descs[..n], rounds[..n], earlier, i);
      var op := Requests(descs, rounds, answers)[i];
      var h :| 0 <= h < n && descs[..n][h].address == op.to;
      var j :| 0 <= j < |earlier| && earlier[j].Answered() && earlier[j].value == op.b;
      assert descs[h].address == op.to && answers[j] == earlier[j];
    } else {
      assert descs[n].address == Requests(descs, rounds, answers)[i].to;
    }
  }

  /** How many of the first n rounds got an answer: each that was heard completely. */
  function AnswersOf(rounds: seq<C.Call>, n: nat): nat
    requires n <= |rounds|
  {
    if n == 0 then 0 else
      var c := rounds[n - 1];
      AnswersOf(rounds, n - 1) + if c.ret >= 0 && c.written >= |c.bytes| then 1 else 0
  }

  /** Round h was heard completely, and answered with a byte that has bit 6 set. */
  predicate Asks(rounds: seq<C.Call>, answers: seq<C.Read>, h: nat)
    requires h < |rounds|
  {
    var j := AnswersOf(rounds, h);
    && rounds[h].ret >= 0 && rounds[h].written >= |rounds[h].bytes|
    && j < |answers| && answers[j].ret >= 0 && answers[j].count >= 1 && (answers[j].value as bv8) & 0x40 != 0
  }

  /** How many of the first n rounds ask. */
  function AskedBefore(rounds: seq<C.Call>, answers: seq<C.Read>, n: nat): nat
    requires n <= |rounds|
  {
    if n == 0 then 0 else AskedBefore(rounds, answers, n - 1) + if Asks(rounds, answers, n - 1) then 1 else 0
  }

  /** Without its last round and that one's answer, a sweep's other rounds ask as before. */
  lemma {:induction false} EarlierAsks(rounds: seq<C.Call>, answers: seq<C.Read>, m: nat)
    requires m < |rounds| && |answers| == AnswersOf(rounds, |rounds|)
    ensures var n := |rounds| - 1;
            var r, e := rounds[..n], EarlierReads(rounds[n], answers);
            && |e| == AnswersOf(rounds, n)
            && AnswersOf(r, m) == AnswersOf(rounds, m) <= |e| && AskedBefore(r, e, m) == AskedBefore(rounds, answers, m)
    decreases m
  {
    if m > 0 {
      EarlierAsks(rounds, answers, m - 1);
    }
    EarlierAnswers(rounds, m);
  }

  lemma {:induction false} EarlierAnswers(rounds: seq<C.Call>, m: nat)
    requires m < |rounds|
    ensures AnswersOf(rounds[..|rounds| - 1], m) == AnswersOf(rounds, m) <= AnswersOf(rounds, |rounds| - 1)
    decreases |rounds| - m
  {
    if m + 1 < |rounds| {
      EarlierAnswers(rounds, m + 1);
    }
    AnswersAgree(rounds, m);
  }

  lemma {:induction false} AnswersAgree(rounds: seq<C.Call>, m: nat)
    requires m < |rounds|
    ensures AnswersOf(rounds[..|rounds| - 1], m) == AnswersOf(rounds, m)
    decreases m
  {
    if m > 0 {
      AnswersAgree(rounds, m - 1);
    }
  }

  /** Each round that asks has its own one of these pushes, in order, and there are no others. */
  ghost predicate AllPlaced(descs: seq<Descriptor>, rounds: seq<C.Call>, answers: seq<C.Read>, pushes: seq<Op>)
    requires |rounds| == |descs|
  {
    && |pushes| == AskedBefore(rounds, answers, |rounds|)
    && forall h :: 0 <= h < |descs| && Asks(rounds, answers, h) ==>
         Placed(descs[h].address, rounds, answers, h, pushes)
  }

  /** Every round that asks gives exactly one push, in order: of the value it was answered, to the address
      of its own descriptor. */
  lemma {:induction false} RequestsExactly(descs: seq<Descriptor>, rounds: seq<C.Call>, answers: seq<C.Read>)
    requires |rounds| == |descs| && |answers| == AnswersOf(rounds, |rounds|)
    ensures AllPlaced(descs, rounds, answers, Requests(descs, rounds, answers))
    decreases |descs|
  {
    if descs != [] {
      var n := |descs| - 1;
      EarlierAsks(rounds, answers, n);
      RequestsExactly(descs[..n], rounds[..n], EarlierReads(rounds[n], answers));
      LastRound(descs, rounds, answers);
    }
  }

  /** The same of all rounds, if it holds without the last one. */
  lemma LastRound(descs: seq<Descriptor>, rounds: seq<C.Call>, answers: seq<C.Read>)
    requires |rounds| == |descs| > 0 && |answers| == AnswersOf(rounds, |rounds|)
    requires var n := |descs| - 1;
             var r, e := rounds[..n], EarlierReads(rounds[n], answers);
             AllPlaced(descs[..n], r, e, Requests(descs[..n], r, e))
    ensures AllPlaced(descs, rounds, answers, Requests(descs, rounds, answers))
  {
    EarlierAsks(rounds, answers, |descs| - 1);
    LastRequest(descs, rounds, answers);
    forall h | 0 <= h < |descs| && Asks(rounds, answers, h)
      ensures Placed(descs[h].address, rounds, answers, h, Requests(descs, rounds, answers))
    {
      RoundPlaced(descs, rounds, answers, h);
    }
  }

  /** The same of one round, if it holds without the last one. */
  lemma RoundPlaced(descs: seq<Descriptor>, rounds: seq<C.Call>, answers: seq<C.Read>, h: nat)
    requires h < |descs| == |rounds| && |answers| == AnswersOf(rounds, |rounds|) && Asks(rounds, answers, h)
    requires var n := |descs| - 1;
             var r, e := rounds[..n], EarlierReads(rounds[n], answers);
             && |Requests(descs[..n], r, e)| == AskedBefore(r, e, n)
             && (h < n && Asks(r, e, h) ==> Placed(descs[..n][h].address, r, e, h, Requests(descs[..n], r, e)))
    ensures Placed(descs[h].address, rounds, answers, h, Requests(descs, rounds, answers))
  {
    var n := |descs| - 1;
    var r, e := rounds[..n], EarlierReads(rounds[n], answers);
    var front, all := Requests(descs[..n], r, e), Requests(descs, rounds, answers);
    LastRequest(descs, rounds, answers);
    if h < n {
      EarlierAnswer(rounds, answers, h);
      assert front <= all;
      StillPlaced(descs[h].address, rounds, answers, r, e, h, front, all);
    } else {
      EarlierAsks(rounds, answers, n);
      LastPlaced(descs[n].address, rounds, answers, front, all);
    }
  }

  lemma LastPlaced(a: Address, rounds: seq<C.Call>, answers: seq<C.Read>, front: seq<Op>, all: seq<Op>)
    requires rounds != [] && Asks(rounds, answers, |rounds| - 1)
    requires |front| == AskedBefore(rounds, answers, |rounds| - 1)
    requires all == front + [Push(a, answers[AnswersOf(rounds, |rounds| - 1)].value)]
    ensures Placed(a, rounds, answers, |rounds| - 1, all)
  {
  }

  /** Among these pushes, the one a round asks for. */
  ghost predicate Placed(a: Address, rounds: seq<C.Call>, answers: seq<C.Read>, h: nat, pushes: seq<Op>)
    requires h < |rounds|
  {
    var i, j := AskedBefore(rounds, answers, h), AnswersOf(rounds, h);
    i < |pushes| && j < |answers| && pushes[i] == Push(a, answers[j].value)
  }

  lemma EarlierAnswer(rounds: seq<C.Call>, answers: seq<C.Read>, h: nat)
    requires h + 1 < |rounds| && |answers| == AnswersOf(rounds, |rounds|) && Asks(rounds, answers, h)
    ensures var r, e := rounds[..|rounds| - 1], EarlierReads(rounds[|rounds| - 1], answers);
            && e <= answers && Asks(r, e, h) && AskedBefore(r, e, h) == AskedBefore(rounds, answers, h)
            && AnswersOf(r, h) == AnswersOf(rounds, h)
  {
    EarlierAsks(rounds, answers, h);
    EarlierAsks(rounds, answers, h + 1);
  }

  lemma StillPlaced(a: Address, rounds: seq<C.Call>, answers: seq<C.Read>, r: seq<C.Call>, e: seq<C.Read>, h: nat,
                    front: seq<Op>, all: seq<Op>)
    requires h < |rounds| && h < |r| && Placed(a, r, e, h, front) && front <= all && e <= answers
    requires AskedBefore(r, e, h) == AskedBefore(rounds, answers, h) && AnswersOf(r, h) == AnswersOf(rounds, h)
    ensures Placed(a, rounds, answers, h, all)
  {
  }

  /** The last round adds the push it asks for. */
  lemma LastRequest(descs: seq<Descriptor>, rounds: seq<C.Call>, answers: seq<C.Read>)
    requires |rounds| == |descs| > 0 && |answers| == AnswersOf(rounds, |rounds|)
    ensures var n := |descs| - 1;
            Requests(descs, rounds, answers) ==
            Requests(descs[..n], rounds[..n], EarlierReads(rounds[n], answers)) +
            if Asks(rounds, answers, n) then [Push(descs[n].address, answers[AnswersOf(rounds, n)].value)] else []
  {
    var n := |descs| - 1;
    if rounds[n].Complete() {
      ServiceBit(answers[|answers| - 1].value);
    }
  }

  /** A sweep reads one answer for each round that was heard completely. */
  lemma {:induction false} SweptAnswers(at: Setting, descs: seq<Descriptor>, rounds: seq<C.Call>, answers: seq<C.Read>)
    requires Swept(at, descs, rounds, answers)
    ensures |answers| == AnswersOf(rounds, |rounds|)
    decreases |descs|
  {
    if descs != [] {
      var n := |descs| - 1;
      SweptAnswers(at, descs[..n], rounds[..n], EarlierReads(rounds[n], answers));
      AnswersAgree(rounds, n);
    }
  }

  /** What a whole poll leaves of an indexed registry: the index and the descriptors; queues grown in
      all by the result, if that is no error; and a queue unlike before only if its address was pushed a
      byte that one of its descriptors answered with the service bit set. */
  lemma PollConservation(at: Setting, t: Tables, calls: seq<C.Call>,
                         answers: seq<C.Read>, t': Tables, rc: int)
    requires Index(t) && PolledAll(at, t, calls, answers, t', rc) && calls[0].Complete()
    ensures Index(t') && t'.descs == t.descs && |t'.queues| == |t.queues|
    ensures rc >= 0 ==> TotalQueued(t'.queues) == TotalQueued(t.queues) + rc
    ensures |answers| == AnswersOf(calls[1..|calls| - 1], |t.descs|)
    ensures forall a :: StoredFor(t'.queues, a) ==
                        Capped(StoredFor(t.queues, a) + PushedFor(Requests(t.descs, calls[1..|calls| - 1], answers), a))
    ensures var pushes := Requests(t.descs, calls[1..|calls| - 1], answers);
            SweepPushes(t, pushes) &&
            forall k :: 0 <= k < |t.queues| ==>
              t'.queues[k] == t.queues[k] || exists i :: 0 <= i < |pushes| && Same(t.queues[k].address, pushes[i].to)
  {
    var pushes := Requests(t.descs, calls[1..|calls| - 1], answers);
    forall i | 0 <= i < |pushes|
      ensures && pushes[i].Push? && RequestsService(pushes[i].b)
              && exists h :: 0 <= h < |t.descs| && t.descs[h].address == pushes[i].to
    {
      RequestOrigin(t.descs, calls[1..|calls| - 1], answers, i);
    }
    SweepConservation(t, pushes);
    SweptAnswers(at, t.descs, calls[1..|calls| - 1], answers);
    forall a ensures StoredFor(t'.queues, a) == Capped(StoredFor(t.queues, a) + PushedFor(pushes, a)) {
      SweepStores(t, pushes, a);
    }
  }

  lemma RunOne(t: Tables, op: Op)
    ensures Run(t, [op]) == Step(t, op).tables
    ensures Accepted(t, [op]) == if Step(t, op).reply.Returns? && Step(t, op).reply.rc >= 0 then 1 else 0
  {
    assert [op][1..] == [];
    assert Run(t, [op]) == Run(Step(t, op).tables, [op][1..]);
  }

  /** From t0 these pushes led to t, n of them accepted. */
  ghost predicate Collected(t0: Tables, t: Tables, pushes: seq<Op>, n: nat) {
    SweepPushes(t0, pushes) && t == Run(t0, pushes) && t.descs == t0.descs && n == Accepted(t0, pushes)
  }

  lemma CollectedIndexed(t0: Tables, t: Tables, pushes: seq<Op>, n: nat)
    requires Index(t0) && Collected(t0, t, pushes, n)
    ensures Index(t)
  {
    SweepConservation(t0, pushes);
  }

  lemma CollectMore(t0: Tables, t: Tables, pushes: seq<Op>, n: nat, index: nat, more: seq<Op>, t': Tables, n': nat)
    requires Index(t0) && Collected(t0, t, pushes, n) && index < |t0.descs|
    requires |more| <= 1
    requires more != [] ==> more[0].Push? && more[0].to == t0.descs[index].address && RequestsService(more[0].b)
    requires t' == Run(t, more) && n' == n + Accepted(t, more)
    ensures Collected(t0, t', pushes + more, n')
  {
    RunConcat(t0, pushes, more);
    assert SweepPushes(t0, pushes + more);
    SweepConservation(t0, pushes + more);
  }

  lemma {:induction false} RunConcat(t: Tables, a: seq<Op>, b: seq<Op>)
    ensures Run(t, a + b) == Run(Run(t, a), b)
    ensures Accepted(t, a + b) == Accepted(t, a) + Accepted(Run(t, a), b)
    decreases |a|
  {
    if a == [] {
      assert a + b == b;
    } else {
      assert (a + b)[1..] == a[1..] + b;
      RunConcat(Step(t, a[0]).tables, a[1..], b);
    }
  }
}
