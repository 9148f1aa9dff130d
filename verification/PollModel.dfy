/** Serial polls on the bus model: what the command strings of a poll do to every instrument, and what
    the status bytes it collects do to the registry. */
module PollModel {
  import opened Memory
  import opened Bus
  import opened Registry
  import opened Outcomes

  const REQUEST_SERVICE_BIT: nat := 0x40

  predicate RequestsService(b: byte) {
    b / REQUEST_SERVICE_BIT % 2 == 1
  }

  /** The request for service is bit 6 of a status byte, whatever the other bits. */
  lemma ServiceBit(b: byte)
    ensures RequestsService(b) <==> (b as bv8) & 0x40 != 0
  {
  }

  // ---- Command strings ---------------------------------------------------------------------

  function PollSetup(board: Address): seq<byte> {
    BoardListens(board) + [SPE]
  }

  const POLL_CLEANUP: seq<byte> := [SPD, UNT]

  /** Serial poll mode is on everywhere, and just the board listens. */
  ghost predicate Polling(bus: Instruments, states: seq<State>) {
    |states| == |bus| &&
    forall k :: 0 <= k < |bus| ==> states[k].serialPoll && (states[k].listener <==> k == 0) && !states[k].lpas
  }

  /** The bus is set for one status byte from the polled address, and nobody else talks. */
  ghost predicate Asking(bus: Instruments, states: seq<State>, a: Address) {
    Polling(bus, states) && forall k :: 0 <= k < |bus| ==> (states[k].talker <==> Matches(bus[k], a))
  }

  ghost predicate Released(states: seq<State>) {
    forall k :: 0 <= k < |states| ==> !states[k].talker && !states[k].serialPoll
  }

  lemma SetupStartsPolling(bus: Instruments, states: seq<State>, board: Address)
    requires ProperBus(bus, board) && |states| == |bus|
    ensures Polling(bus, HearBus(bus, states, PollSetup(board)))
  {
    forall k | 0 <= k < |bus|
      ensures var t := HearAll(bus[k], states[k], PollSetup(board)); t.serialPoll && !t.lpas && (t.listener <==> k == 0)
    {
      var i, s := bus[k], states[k];
      HearBoardListens(i, s, board);
      var s1 := HearAll(i, s, BoardListens(board));
      HearAllConcat(i, s, BoardListens(board), [SPE]);
      assert [SPE][1..] == [];
      assert HearAll(i, s1, [SPE]) == HearAll(i, Hear(i, s1, SPE), [SPE][1..]) == Hear(i, s1, SPE);
    }
  }

  /** Sending this talk address does not stop the board listening: it is not the board's own, or the
      board's listener function is not unaddressed by its own talk address. */
  predicate Harmless(bus: Instruments, a: Address) {
    bus != [] && ValidAddress(a) && !(Matches(bus[0], a) && bus[0].unListen)
  }

  lemma HearTalkPrefix(i: Instrument, s: State, a: Address, n: nat)
    requires ValidAddress(i.address) && ValidAddress(a) && n <= |TalkBytes(a)|
    requires s.serialPoll && !s.lpas && (s.listener ==> !(Matches(i, a) && i.unListen))
    ensures var t := HearAll(i, s, TalkBytes(a)[..n]);
            t.serialPoll && !t.lpas && t.listener == s.listener
  {
    var c := TalkBytes(a);
    if n == 0 {
      assert c[..n] == [];
    } else if n == 1 {
      var primary := Address(a.pad, -1);
      assert c[..n] == TalkBytes(primary);
      HearTalk(i, s, primary);
    } else {
      assert c[..n] == c;
      HearTalk(i, s, a);
    }
  }

  /** However much of a harmless talk address is heard, polling goes on. */
  lemma TalkKeepsPolling(bus: Instruments, states: seq<State>, board: Address, a: Address, n: nat)
    requires ProperBus(bus, board) && Harmless(bus, a)
    requires Polling(bus, states) && n <= |TalkBytes(a)|
    ensures Polling(bus, HearBus(bus, states, TalkBytes(a)[..n]))
  {
    var t := HearBus(bus, states, TalkBytes(a)[..n]);
    forall k | 0 <= k < |bus| ensures t[k].serialPoll && (t[k].listener <==> k == 0) && !t[k].lpas {
      HearTalkPrefix(bus[k], states[k], a, n);
    }
  }

  /** A whole talk address sets the bus for the device's byte, if it is a device's and unambiguous. */
  lemma TalkAsks(bus: Instruments, states: seq<State>, board: Address, a: Address)
    requires ProperBus(bus, board) && ValidAddress(a) && a.pad != board.pad && Unambiguous(bus, a)
    requires Polling(bus, states)
    ensures Asking(bus, HearBus(bus, states, TalkBytes(a)), a)
  {
    var c := TalkBytes(a);
    assert c[..|c|] == c;
    TalkKeepsPolling(bus, states, board, a, |c|);
    forall k | 0 <= k < |bus| ensures HearBus(bus, states, c)[k].talker <==> Matches(bus[k], a) {
      HearTalk(bus[k], states[k], a);
    }
  }

  /** The board's own talk address makes it the one talker, and stops it listening, which ends polling,
      exactly when its listener function is unaddressed by it. */
  lemma BoardPolled(bus: Instruments, states: seq<State>, board: Address, a: Address)
    requires ProperBus(bus, board) && ValidAddress(a) && Matches(bus[0], a)
    requires Polling(bus, states)
    ensures var t := HearBus(bus, states, TalkBytes(a));
            && (forall k :: 0 <= k < |bus| ==> (t[k].talker <==> k == 0))
            && (t[0].listener <==> !bus[0].unListen)
            && (Polling(bus, t) <==> !bus[0].unListen)
  {
    var t, c := HearBus(bus, states, TalkBytes(a)), TalkBytes(a);
    forall k | 0 <= k < |bus| ensures t[k].talker <==> k == 0 {
      HearTalk(bus[k], states[k], a);
    }
    HearTalk(bus[0], states[0], a);
    if !bus[0].unListen {
      assert c[..|c|] == c;
      TalkKeepsPolling(bus, states, board, a, |c|);
    }
  }

  /** From every polling state the talk address sets the bus for the polled byte exactly when the
      address is unambiguous; otherwise some state lets the wrong instrument answer. */
  lemma PollAsksEveryTime(bus: Instruments, board: Address, a: Address)
    requires ProperBus(bus, board) && ValidAddress(a) && a.pad != board.pad
    ensures (forall states: seq<State> | Polling(bus, states) :: Asking(bus, HearBus(bus, states, TalkBytes(a)), a))
            <==> Unambiguous(bus, a)
  {
    forall states: seq<State> | Polling(bus, states)
      ensures Unambiguous(bus, a) ==> Asking(bus, HearBus(bus, states, TalkBytes(a)), a)
    {
      if Unambiguous(bus, a) {
        TalkAsks(bus, states, board, a);
      }
    }
    if !Unambiguous(bus, a) {
      var k :| 0 <= k < |bus| && Undecided(bus[k], a);
      var states := seq(|bus|, j => State(true, j == 0, false, false, true));
      assert Polling(bus, states);
      HearTalk(bus[k], states[k], a);
      assert HearBus(bus, states, TalkBytes(a))[k].talker && !Matches(bus[k], a);
    }
  }

  /** The cleanup string silences every instrument, from any state. */
  lemma CleanupReleases(bus: Instruments, states: seq<State>)
    requires |states| == |bus| && forall k :: 0 <= k < |bus| ==> ValidAddress(bus[k].address)
    ensures Released(HearBus(bus, states, POLL_CLEANUP))
  {
    forall k | 0 <= k < |bus| ensures var t := HearAll(bus[k], states[k], POLL_CLEANUP); !t.talker && !t.serialPoll {
      var i, s := bus[k], states[k];
      assert POLL_CLEANUP[1..] == [UNT] && [UNT][1..] == [];
      var s1 := Hear(i, s, SPD);
      assert HearAll(i, s, POLL_CLEANUP) == HearAll(i, s1, [UNT]) == HearAll(i, Hear(i, s1, UNT), []);
    }
  }

  // ---- Status bytes ------------------------------------------------------------------------

  /** The pushes of a sweep: each for a descriptor's address, with the service bit set. */
  ghost predicate SweepPushes(t: Tables, pushes: seq<Op>) {
    forall i :: 0 <= i < |pushes| ==>
      && pushes[i].Push? && RequestsService(pushes[i].b)
      && exists h :: 0 <= h < |t.descs| && t.descs[h].address == pushes[i].to
  }

  /** How many of the pushes are accepted. */
  function Accepted(t: Tables, pushes: seq<Op>): nat
    decreases |pushes|
  {
    if pushes == [] then 0 else
      var s := Step(t, pushes[0]);
      (if s.reply.Returns? && s.reply.rc >= 0 then 1 else 0) + Accepted(s.tables, pushes[1..])
  }

  function TotalQueued(queues: seq<Queue>): nat {
    if queues == [] then 0 else |queues[0].bytes| + TotalQueued(queues[1..])
  }

  lemma {:induction false} TotalQueuedUpdate(queues: seq<Queue>, k: nat, q: Queue)
    requires k < |queues|
    ensures TotalQueued(queues[k := q]) + |queues[k].bytes| == TotalQueued(queues) + |q.bytes|
    decreases k
  {
    if k > 0 {
      assert queues[k := q][1..] == queues[1..][k - 1 := q];
      TotalQueuedUpdate(queues[1..], k - 1, q);
    } else {
      assert queues[k := q][1..] == queues[1..];
    }
  }

  /** The registry finds a queue for every push of a sweep; the sweep keeps the index and the
      descriptors; the queues grow by exactly the number of pushes accepted; and a queue whose
      address did not answer is as it was. */
  lemma {:induction false} SweepConservation(t: Tables, pushes: seq<Op>)
    requires Index(t) && SweepPushes(t, pushes)
    ensures var t' := Run(t, pushes);
            && Index(t') && t'.descs == t.descs && |t'.queues| == |t.queues|
            && TotalQueued(t'.queues) == TotalQueued(t.queues) + Accepted(t, pushes)
            && (forall k :: 0 <= k < |t.queues| ==>
                 t'.queues[k] == t.queues[k] ||
                 exists i :: 0 <= i < |pushes| && Same(t.queues[k].address, pushes[i].to))
            && (forall k :: 0 <= k < |t.queues| ==> t'.queues[k].address == t.queues[k].address)
    decreases |pushes|
  {
    if pushes != [] {
      var t1, rest := Step(t, pushes[0]).tables, pushes[1..];
      PushGrows(t, pushes[0]);
      SweepConservation(t1, rest);
      forall k | 0 <= k < |t.queues| && Run(t, pushes).queues[k] != t.queues[k]
        ensures exists i :: 0 <= i < |pushes| && Same(t.queues[k].address, pushes[i].to)
      {
        if t1.queues[k] != t.queues[k] {
          assert Same(t.queues[k].address, pushes[0].to);
        } else {
          var i :| 0 <= i < |rest| && Same(t1.queues[k].address, rest[i].to);
          assert pushes[i + 1] == rest[i];
        }
      }
    }
  }

  /** The values pushed for an address, in order. */
  function PushedFor(pushes: seq<Op>, a: Address): seq<byte>
    decreases |pushes|
  {
    if pushes == [] then []
    else (if pushes[0].Push? && Equal(a, pushes[0].to) then [pushes[0].b] else []) + PushedFor(pushes[1..], a)
  }

  /** As many of these bytes as a queue holds. */
  function Capped(bytes: seq<byte>): seq<byte> {
    if |bytes| <= 1024 then bytes else bytes[..1024]
  }

  lemma CappedChain(a: seq<byte>, b: seq<byte>, c: seq<byte>)
    ensures Capped(Capped(a + b) + c) == Capped(a + (b + c))
  {
  }

  /** After a sweep every address has stored, behind what it had, the values pushed for it in order, up to
      1024 bytes in all. */
  lemma {:induction false} SweepStores(t: Tables, pushes: seq<Op>, a: Address)
    requires Index(t) && SweepPushes(t, pushes)
    ensures StoredFor(Run(t, pushes).queues, a) == Capped(StoredFor(t.queues, a) + PushedFor(pushes, a))
    decreases |pushes|
  {
    StoredAtMost(t, a);
    if pushes == [] {
      assert StoredFor(t.queues, a) + [] == StoredFor(t.queues, a);
    } else {
      var t1, rest := Step(t, pushes[0]).tables, pushes[1..];
      PushGrows(t, pushes[0]);
      PushStores(t, pushes[0], a);
      SweepStores(t1, rest, a);
      CappedChain(StoredFor(t.queues, a), PushedFor([pushes[0]], a), PushedFor(rest, a));
      PushedFirst(pushes, a);
    }
  }

  lemma PushedFirst(pushes: seq<Op>, a: Address)
    requires pushes != []
    ensures PushedFor(pushes, a) == PushedFor([pushes[0]], a) + PushedFor(pushes[1..], a)
  {
    assert [pushes[0]][1..] == [];
  }

  lemma StoredAtMost(t: Tables, a: Address)
    requires Index(t)
    ensures |StoredFor(t.queues, a)| <= 1024
  {
    var k := Find(t.queues, a);
    assert k < |t.queues| ==> QueueOk(t.queues[k]);
  }

  lemma PushStores(t: Tables, op: Op, a: Address)
    requires Index(t) && op.Push? && exists h :: 0 <= h < |t.descs| && t.descs[h].address == op.to
    ensures StoredFor(Step(t, op).tables.queues, a) == Capped(StoredFor(t.queues, a) + PushedFor([op], a))
  {
    var h :| 0 <= h < |t.descs| && t.descs[h].address == op.to;
    DescriptorHasQueue(t, h);
    CountedIsFound(t, op.to);
    PushOutcome(t, op.to, op.b);
    StoredAtMost(t, a);
    PushedOne(op, a);
    CappedPush(StoredFor(t.queues, a), op.b);
    if Equal(a, op.to) {
      EqualStored(t, op.to, a);
    }
  }

  lemma PushedOne(op: Op, a: Address)
    requires op.Push?
    ensures PushedFor([op], a) == if Equal(a, op.to) then [op.b] else []
  {
    assert [op][1..] == [];
    assert PushedFor([op][1..], a) == [];
  }

  lemma CappedPush(s: seq<byte>, b: byte)
    requires |s| <= 1024
    ensures Capped(s + []) == s && Capped(s + [b]) == if |s| < 1024 then s + [b] else s
  {
    assert s + [] == s && (s + [b])[..|s|] == s;
  }

  lemma EqualStored(t: Tables, a: Address, b: Address)
    requires Index(t) && Equal(a, b) && Find(t.queues, a) < |t.queues|
    ensures StoredFor(t.queues, a) == StoredFor(t.queues, b)
  {
    SameAsFound(t.queues, a, b);
  }

  lemma PushGrows(t: Tables, op: Op)
    requires Index(t) && op.Push? && exists h :: 0 <= h < |t.descs| && t.descs[h].address == op.to
    ensures var s := Step(t, op);
            && Find(t.queues, op.to) < |t.queues| && Index(s.tables) && s.reply.Returns?
            && s.tables.descs == t.descs && |s.tables.queues| == |t.queues|
            && TotalQueued(s.tables.queues) == TotalQueued(t.queues) + (if s.reply.rc >= 0 then 1 else 0)
            && (forall k :: 0 <= k < |t.queues| ==> s.tables.queues[k].address == t.queues[k].address)
            && (forall k :: 0 <= k < |t.queues| && k != Find(t.queues, op.to) ==> s.tables.queues[k] == t.queues[k])
  {
    var h :| 0 <= h < |t.descs| && t.descs[h].address == op.to;
    DescriptorHasQueue(t, h);
    StepKeepsIndex(t, op);
    var k := Find(t.queues, op.to);
    PushPopOutcomes(t.queues[k], op.b);
    TotalQueuedUpdate(t.queues, k, PushByte(t.queues[k], op.b).queue);
  }
}
