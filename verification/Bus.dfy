/** The command bytes of IEEE Std 488.1 and what instruments make of them: the addressed states of the
    talker and listener interface functions (sections 2.5 and 2.6 of IEEE Std 488.1-1987), with their
    extended forms, for any choice of the two optional unaddressing rules. */
module Bus {
  import opened Memory

  // ---- Command bytes -----------------------------------------------------------------------

  const SPE: byte := 0x18
  const SPD: byte := 0x19
  const LAD: nat := 0x20
  const UNL: byte := 0x3F
  const TAD: nat := 0x40
  const UNT: byte := 0x5F
  const MAX_ADDRESS: nat := 30

  /** Bitwise or of a byte with a single bit. */
  function WithBit(v: byte, bit: nat): (r: byte)
    requires bit in {0x20, 0x40}
  {
    if v / bit % 2 == 1 then v else v + bit
  }

  /** The bit is set, and nothing else changed. */
  lemma BitSet(v: byte, bit: nat)
    requires bit in {0x20, 0x40}
    ensures WithBit(v, bit) / bit % 2 == 1 && (WithBit(v, bit) == v || WithBit(v, bit) == v + bit)
  {
  }

  function MLA(addr: nat): byte {
    WithBit(addr % 0x100, LAD)
  }

  function MTA(addr: nat): byte {
    WithBit(addr % 0x100, TAD)
  }

  function MSA(addr: nat): byte {
    WithBit(WithBit(addr % 0x100, LAD), TAD)
  }

  /** A command byte is an address modulo 256 with its group's bits set. */
  lemma CommandBits(addr: nat)
    ensures var low := addr % 0x100;
            && MLA(addr) / 0x20 % 2 == 1 && (MLA(addr) == low || MLA(addr) == low + 0x20)
            && MTA(addr) / 0x40 % 2 == 1 && (MTA(addr) == low || MTA(addr) == low + 0x40)
            && MSA(addr) / 0x20 % 4 == 3 && (MSA(addr) - low) % 0x20 == 0 && low <= MSA(addr) <= low + 0x60
  {
    BitSet(addr % 0x100, 0x20);
    BitSet(addr % 0x100, 0x40);
    BothBits(addr % 0x100);
  }

  lemma BothBits(v: byte)
    ensures var b := WithBit(WithBit(v, 0x20), 0x40); b / 0x20 % 4 == 3 && (b - v) % 0x20 == 0 && v <= b <= v + 0x60
  {
    var c := WithBit(v, 0x20);
    BitSet(v, 0x20);
    BitSet(c, 0x40);
    BitKept(c);
  }

  lemma BitKept(c: byte)
    requires c / 0x20 % 2 == 1
    ensures WithBit(c, 0x40) / 0x20 % 4 == 3
  {
  }

  /** A GPIB address; a negative secondary address means none. */
  datatype Address = Address(pad: nat, sad: int)

  predicate ValidAddress(a: Address) {
    a.pad <= MAX_ADDRESS && a.sad <= MAX_ADDRESS
  }

  lemma AddressBytes(a: Address)
    requires a.pad <= 30 && a.sad <= 30
    ensures MLA(a.pad) == 0x20 + a.pad && MTA(a.pad) == 0x40 + a.pad
    ensures a.sad >= 0 ==> MSA(a.sad) == 0x60 + a.sad
  {
  }

  // ---- Instruments -------------------------------------------------------------------------

  /** An instrument, extended if it has a secondary address. Its talker function may be unaddressed
      by its own listen address, and its listener function by its own talk address. */
  datatype Instrument = Instrument(address: Address, unTalk: bool, unListen: bool)

  /** The addressed states, the primary-addressed states of the extended functions, and whether
      serial poll mode is on. */
  datatype State = State(talker: bool, listener: bool, tpas: bool, lpas: bool, serialPoll: bool)

  /** The primary commands, by their codes: listen addresses from 0x20 on, 0x3F to unlisten, talk
      addresses from 0x40 on, any other of which untalks, and 0x18 and 0x19 for serial polls. */
  function HearPrimary(i: Instrument, s: State, c: nat): State {
    var extended := i.address.sad >= 0;
    var mine, mineToListen := c == 0x40 + i.address.pad, c == 0x20 + i.address.pad;
    State(
      if extended then s.talker && !(0x40 <= c && !mine)
      else if 0x40 <= c then mine
      else s.talker && !(mineToListen && i.unTalk),
      if c == 0x3F then false
      else if extended then s.listener
      else if mineToListen then true
      else s.listener && !(mine && i.unListen),
      extended && mine,
      extended && mineToListen,
      if c == 0x18 then true else if c == 0x19 then false else s.serialPoll)
  }

  function HearSecondary(i: Instrument, s: State, c: nat): State {
    var mine := c == 0x60 + i.address.sad;
    if i.address.sad < 0 then s
    else s.(talker := if s.tpas then mine else s.talker && !(s.lpas && mine && i.unTalk),
            listener := if s.lpas && mine then true else s.listener && !(s.tpas && mine && i.unListen))
  }

  /** One command byte, sent with ATN true. */
  function Hear(i: Instrument, s: State, b: byte): State {
    var c := b % 0x80;
    if c < 0x60 then HearPrimary(i, s, c) else HearSecondary(i, s, c)
  }

  function HearAll(i: Instrument, s: State, commands: seq<byte>): State
    decreases |commands|
  {
    if commands == [] then s else HearAll(i, Hear(i, s, commands[0]), commands[1..])
  }

  lemma {:induction false} HearAllConcat(i: Instrument, s: State, a: seq<byte>, b: seq<byte>)
    ensures HearAll(i, s, a + b) == HearAll(i, HearAll(i, s, a), b)
    decreases |a|
  {
    if a == [] {
      assert a + b == b;
    } else {
      assert (a + b)[1..] == a[1..] + b;
      HearAllConcat(i, Hear(i, s, a[0]), a[1..], b);
    }
  }

  /** The instruments of a bus; the interface board is the first. */
  type Instruments = seq<Instrument>

  function HearBus(bus: Instruments, states: seq<State>, commands: seq<byte>): (r: seq<State>)
    requires |states| == |bus|
    ensures |r| == |bus|
  {
    seq(|bus|, k requires 0 <= k < |bus| => HearAll(bus[k], states[k], commands))
  }

  /** Sending a command string in pieces leaves the bus as sending it at once does. */
  lemma HearBusConcat(bus: Instruments, states: seq<State>, a: seq<byte>, b: seq<byte>)
    requires |states| == |bus|
    ensures HearBus(bus, states, a + b) == HearBus(bus, HearBus(bus, states, a), b)
  {
    forall k | 0 <= k < |bus| {
      HearAllConcat(bus[k], states[k], a, b);
    }
  }

  // ---- Addressing one instrument -----------------------------------------------------------

  function SecondaryByte(sad: int): seq<byte> {
    if sad >= 0 then [MSA(sad)] else []
  }

  function TalkBytes(a: Address): seq<byte> {
    [MTA(a.pad)] + SecondaryByte(a.sad)
  }

  function ListenBytes(a: Address): seq<byte> {
    [MLA(a.pad)] + SecondaryByte(a.sad)
  }

  /** The instrument answers to the address: same primary, and unextended or same secondary. */
  predicate Matches(i: Instrument, a: Address) {
    i.address.pad == a.pad && (i.address.sad < 0 || i.address.sad == a.sad)
  }

  /** The instrument is extended and at the primary address of one without a secondary: the talk
      address alone neither addresses nor unaddresses it. */
  predicate Undecided(i: Instrument, a: Address) {
    i.address.pad == a.pad && i.address.sad >= 0 && a.sad < 0
  }

  lemma HearTwo(i: Instrument, s: State, first: byte, sad: int)
    ensures HearAll(i, s, [first] + SecondaryByte(sad)) ==
            if sad >= 0 then Hear(i, Hear(i, s, first), MSA(sad)) else Hear(i, s, first)
  {
    var c := [first] + SecondaryByte(sad);
    assert c[1..] == SecondaryByte(sad);
    if sad >= 0 {
      assert c[1..][1..] == [];
      assert HearAll(i, Hear(i, s, first), c[1..]) == HearAll(i, Hear(i, Hear(i, s, first), MSA(sad)), c[1..][1..]);
    }
  }

  /** The exact effect of a talk address on any instrument in any state. */
  lemma HearTalk(i: Instrument, s: State, a: Address)
    requires ValidAddress(i.address) && ValidAddress(a)
    ensures var t := HearAll(i, s, TalkBytes(a));
            && (t.talker <==> Matches(i, a) || (Undecided(i, a) && s.talker))
            && (t.listener <==> s.listener && !(Matches(i, a) && i.unListen))
            && t.serialPoll == s.serialPoll && !t.lpas
  {
    AddressBytes(a);
    HearTwo(i, s, MTA(a.pad), a.sad);
  }

  /** The exact effect of a listen address. */
  lemma HearListen(i: Instrument, s: State, a: Address)
    requires ValidAddress(i.address) && ValidAddress(a)
    ensures var t := HearAll(i, s, ListenBytes(a));
            && (t.listener <==> s.listener || Matches(i, a))
            && (t.talker <==> s.talker && !(Matches(i, a) && i.unTalk))
            && t.serialPoll == s.serialPoll
  {
    AddressBytes(a);
    HearTwo(i, s, MLA(a.pad), a.sad);
  }

  lemma HearUnlisten(i: Instrument, s: State)
    requires ValidAddress(i.address)
    ensures var t := Hear(i, s, UNL);
            !t.listener && t.talker == s.talker && t.serialPoll == s.serialPoll
  {
  }

  // ---- Send setup --------------------------------------------------------------------------

  function ListenAll(list: seq<Address>): seq<byte> {
    if list == [] then [] else ListenBytes(list[0]) + ListenAll(list[1..])
  }

  function SendSetup(board: Address, list: seq<Address>): seq<byte> {
    TalkBytes(board) + [UNL] + ListenAll(list)
  }

  ghost predicate Listed(i: Instrument, list: seq<Address>) {
    exists k :: 0 <= k < |list| && Matches(i, list[k])
  }

  ghost predicate AllValid(list: seq<Address>) {
    forall k :: 0 <= k < |list| ==> ValidAddress(list[k])
  }

  lemma {:induction false} HearListenAll(i: Instrument, s: State, list: seq<Address>)
    requires ValidAddress(i.address) && AllValid(list)
    ensures var t := HearAll(i, s, ListenAll(list));
            && (t.listener <==> s.listener || Listed(i, list))
            && (t.talker <==> s.talker && !(Listed(i, list) && i.unTalk))
            && t.serialPoll == s.serialPoll
    decreases |list|
  {
    if list != [] {
      var s' := HearAll(i, s, ListenBytes(list[0]));
      HearListen(i, s, list[0]);
      HearListenAll(i, s', list[1..]);
      HearAllConcat(i, s, ListenBytes(list[0]), ListenAll(list[1..]));
      assert Listed(i, list) <==> Matches(i, list[0]) || Listed(i, list[1..]) by {
        if Listed(i, list) && !Matches(i, list[0]) {
          var k :| 0 <= k < |list| && Matches(i, list[k]);
          assert list[1..][k - 1] == list[k];
        }
      }
    }
  }

  /** The exact effect of a send setup on any instrument in any state: it listens exactly when the
      list names it, and talks exactly when it is the board's and the list does not unaddress it. */
  lemma HearSendSetup(i: Instrument, s: State, board: Address, list: seq<Address>)
    requires ValidAddress(i.address) && ValidAddress(board) && AllValid(list)
    ensures var t := HearAll(i, s, SendSetup(board, list));
            && (t.listener <==> Listed(i, list))
            && (t.talker <==>
                (Matches(i, board) || (Undecided(i, board) && s.talker)) && !(Listed(i, list) && i.unTalk))
            && t.serialPoll == s.serialPoll
  {
    HearTalk(i, s, board);
    var s1 := HearAll(i, s, TalkBytes(board));
    HearUnlisten(i, s1);
    assert [UNL][1..] == [];
    assert HearAll(i, s1, [UNL]) == HearAll(i, Hear(i, s1, UNL), [UNL][1..]) == Hear(i, s1, UNL);
    HearAllConcat(i, s, TalkBytes(board), [UNL]);
    HearListenAll(i, Hear(i, s1, UNL), list);
    HearAllConcat(i, s, TalkBytes(board) + [UNL], ListenAll(list));
  }

  /** A bus with a board at this address, alone at its primary address. */
  ghost predicate ProperBus(bus: Instruments, board: Address) {
    && bus != [] && ValidAddress(board) && Matches(bus[0], board)
    && (forall k :: 0 <= k < |bus| ==> ValidAddress(bus[k].address))
    && (forall k :: 0 < k < |bus| ==> bus[k].address.pad != board.pad)
  }

  /** The listeners are exactly the instruments the list names, and the board is the one talker,
      unless the list makes it unaddress itself. */
  ghost predicate Sending(bus: Instruments, states: seq<State>, list: seq<Address>) {
    && |states| == |bus|
    && (forall k :: 0 <= k < |bus| ==> (states[k].listener <==> Listed(bus[k], list)))
    && (forall k :: 0 <= k < |bus| ==> (states[k].talker <==> k == 0 && !(bus[0].unTalk && Listed(bus[0], list))))
  }

  /** Send setup reaches its target from any bus state. */
  lemma SendSetupReachesTarget(bus: Instruments, states: seq<State>, board: Address, list: seq<Address>)
    requires ProperBus(bus, board) && AllValid(list) && |states| == |bus|
    ensures Sending(bus, HearBus(bus, states, SendSetup(board, list)), list)
  {
    forall k | 0 <= k < |bus| {
      HearSendSetup(bus[k], states[k], board, list);
    }
  }

  // ---- Receive setup -----------------------------------------------------------------------

  function BoardListens(board: Address): seq<byte> {
    [UNL] + ListenBytes(board)
  }

  function ReceiveSetup(board: Address, a: Address): seq<byte> {
    BoardListens(board) + TalkBytes(a)
  }

  lemma HearBoardListens(i: Instrument, s: State, board: Address)
    requires ValidAddress(i.address) && ValidAddress(board)
    ensures var t := HearAll(i, s, BoardListens(board));
            && (t.listener <==> Matches(i, board))
            && (t.talker <==> s.talker && !(Matches(i, board) && i.unTalk))
            && t.serialPoll == s.serialPoll
  {
    HearUnlisten(i, s);
    assert ([UNL] + ListenBytes(board))[1..] == ListenBytes(board);
    HearListen(i, Hear(i, s, UNL), board);
  }

  /** Just the board listens and just the instruments at address a talk. */
  ghost predicate Receiving(bus: Instruments, states: seq<State>, a: Address) {
    |states| == |bus| &&
    forall k :: 0 <= k < |bus| ==> (states[k].listener <==> k == 0) && (states[k].talker <==> Matches(bus[k], a))
  }

  /** No extended instrument sits at the primary address of one addressed without a secondary. */
  ghost predicate Unambiguous(bus: Instruments, a: Address) {
    forall k :: 0 <= k < |bus| ==> !Undecided(bus[k], a)
  }

  lemma HearReceiveSetup(i: Instrument, s: State, board: Address, a: Address)
    requires ValidAddress(i.address) && ValidAddress(board) && ValidAddress(a) && a.pad != board.pad
    ensures var t := HearAll(i, s, ReceiveSetup(board, a));
            && (t.listener <==> Matches(i, board))
            && (t.talker <==> Matches(i, a) || (Undecided(i, a) && s.talker))
            && t.serialPoll == s.serialPoll
  {
    HearBoardListens(i, s, board);
    HearTalk(i, HearAll(i, s, BoardListens(board)), a);
    HearAllConcat(i, s, BoardListens(board), TalkBytes(a));
  }

  /** Receive setup reaches its target from every bus state exactly when the address is unambiguous:
      otherwise an extended instrument that was talking goes on talking. */
  lemma ReceiveSetupReachesTarget(bus: Instruments, board: Address, a: Address)
    requires ProperBus(bus, board) && ValidAddress(a) && a.pad != board.pad
    ensures (forall states: seq<State> | |states| == |bus| ::
               Receiving(bus, HearBus(bus, states, ReceiveSetup(board, a)), a)) <==>
            Unambiguous(bus, a)
  {
    forall states: seq<State> | |states| == |bus|
      ensures Unambiguous(bus, a) ==> Receiving(bus, HearBus(bus, states, ReceiveSetup(board, a)), a)
    {
      forall k | 0 <= k < |bus| {
        HearReceiveSetup(bus[k], states[k], board, a);
      }
    }
    if !Unambiguous(bus, a) {
      var k :| 0 <= k < |bus| && Undecided(bus[k], a);
      var states := seq(|bus|, _ => State(true, false, false, false, false));
      HearReceiveSetup(bus[k], states[k], board, a);
      assert HearBus(bus, states, ReceiveSetup(board, a))[k].talker && !Matches(bus[k], a);
      assert !Receiving(bus, HearBus(bus, states, ReceiveSetup(board, a)), a);
    }
  }
}
