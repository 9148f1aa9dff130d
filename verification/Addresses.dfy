/** Packed device addresses, NOADDR-terminated lists of them, and the send-setup string built from a
    list with the source's 8-bit counters. */
module Addresses {
  import opened Memory
  import opened Bus

  const NOADDR: nat := 0xFFFF
  const SAD_DISABLED := -1
  const ADDR_INVALID := -2

  function PackAddress(pad: byte, sad: int): (a: nat)
    ensures a <= 0xFFFF
  {
    pad as nat + if sad >= 0 then 0x100 * (MSA(sad) as nat) else 0
  }

  function ExtractPad(a: nat): int {
    if a == NOADDR || a % 0x100 > MAX_ADDRESS then ADDR_INVALID else a % 0x100
  }

  function ExtractSad(a: nat): int {
    var high := a / 0x100 % 0x100;
    if a == NOADDR then ADDR_INVALID
    else if high == 0 then SAD_DISABLED
    else if high / 0x20 % 4 == 0 then ADDR_INVALID
    else
      var sad := high - 0x20 * (high / 0x20 % 4);
      if sad > MAX_ADDRESS then ADDR_INVALID else sad
  }

  predicate AddressIsValid(a: nat) {
    a == NOADDR || (ExtractPad(a) != ADDR_INVALID && ExtractSad(a) != ADDR_INVALID)
  }

  /** Extracting inverts packing exactly for primary and secondary addresses up to 30, and only the
      sign of a disabled secondary survives; a packed address in range is never NOADDR. */
  lemma ExtractUndoesPack(pad: byte, sad: int)
    ensures var a := PackAddress(pad, sad);
            ExtractPad(a) == pad && ExtractSad(a) == (if sad >= 0 then sad else SAD_DISABLED) <==>
            pad <= MAX_ADDRESS && sad <= MAX_ADDRESS
    ensures pad <= MAX_ADDRESS ==> PackAddress(pad, sad) != NOADDR
  {
    if sad < 0 {
      PackedParts(pad, 0);
    } else {
      ExtractSecondary(pad, sad);
    }
  }

  lemma ExtractSecondary(pad: byte, sad: nat)
    ensures var a := PackAddress(pad, sad);
            && (ExtractPad(a) == pad && ExtractSad(a) == sad <==> pad <= MAX_ADDRESS && sad <= MAX_ADDRESS)
            && (pad <= MAX_ADDRESS ==> a != NOADDR)
  {
    var v: byte := sad % 0x100;
    var a, s := PackAddress(pad, sad), v - 0x20 * (v / 0x20 % 4);
    PackedParts(pad, MSA(sad));
    SadBits(v);
    SadField(v);
    ExtractPacked(a, pad, MSA(sad), v);
    SecondaryKept(sad, v, s);
  }

  /** A reduced field is the number itself only up to 30. */
  lemma SecondaryKept(sad: nat, v: nat, s: int)
    requires v == sad % 0x100 && (v <= MAX_ADDRESS ==> s == v) && (v > MAX_ADDRESS ==> s != v || s > MAX_ADDRESS)
    requires s <= v
    ensures s <= MAX_ADDRESS && s == sad <==> sad <= MAX_ADDRESS
  {
  }

  /** The layout of a packed address: the primary address below, and above it the secondary one with 0x60
      added, or nothing. */
  lemma PackedLayout(pad: byte, sad: int)
    requires sad <= 30
    ensures PackAddress(pad, sad) == pad as nat + if sad < 0 then 0 else 0x100 * (0x60 + sad)
  {
    if sad >= 0 {
      AddressBytes(Address(0, sad));
    }
  }

  /** What extracting makes of any packed address: -2 for a part that is none; a secondary address has
      bit 5 or 6 of its byte set, which do not count, and bit 7 clear. */
  lemma ExtractExactly(a: nat, low: nat, high: nat)
    requires a == 0x100 * high + low && low < 0x100 && high < 0x100
    ensures && ExtractPad(a) == (if low <= 30 && a != 0xFFFF then low else -2)
            && ExtractSad(a) == (if a == 0xFFFF then -2
                                 else if high == 0 then -1
                                 else if 0x20 <= high < 0x80 && high % 0x20 != 31 then high % 0x20
                                 else -2)
            && (AddressIsValid(a) <==>
                a == 0xFFFF || (low <= 30 && (high == 0 || (0x20 <= high < 0x80 && high % 0x20 != 31))))
  {
    assert a % 0x100 == low && a / 0x100 % 0x100 == high;
    SecondaryField(high);
  }

  lemma SecondaryField(high: nat)
    requires high < 0x100
    ensures var sad := high - 0x20 * (high / 0x20 % 4);
            && (high / 0x20 % 4 != 0 <==> 0x20 <= high < 0x80 || 0xA0 <= high)
            && (high < 0x80 ==> sad == high % 0x20) && (high >= 0x80 ==> sad >= 0x80)
  {
  }

  /** What extracting makes of an address whose high byte has bits 5 and 6 set. */
  lemma ExtractPacked(a: nat, pad: byte, high: byte, v: byte)
    requires a % 0x100 == pad && a / 0x100 % 0x100 == high && a <= 0xFFFF
    requires high / 0x20 % 4 == 3 && high - 0x60 == v - 0x20 * (v / 0x20 % 4)
    ensures ExtractPad(a) == if pad > MAX_ADDRESS then ADDR_INVALID else pad
    ensures var s := v - 0x20 * (v / 0x20 % 4);
            ExtractSad(a) == if a == NOADDR || s > MAX_ADDRESS then ADDR_INVALID else s
  {
  }

  lemma PackedParts(pad: byte, high: byte)
    ensures var a := pad as nat + 0x100 * (high as nat); a % 0x100 == pad && a / 0x100 % 0x100 == high
  {
  }

  lemma SadBits(v: byte)
    ensures var h := WithBit(WithBit(v, LAD), TAD);
            && h / 0x20 % 4 == 3 && h - 0x60 == v - 0x20 * (v / 0x20 % 4)
  {
  }

  /** Clearing bits 5 and 6 leaves a number up to 30 as it is, and nothing else up to 30. */
  lemma SadField(v: byte)
    ensures var s := v - 0x20 * (v / 0x20 % 4);
            (v <= MAX_ADDRESS ==> s == v) && (v > MAX_ADDRESS ==> s != v || s > MAX_ADDRESS)
  {
  }

  // ---- Lists -------------------------------------------------------------------------------

  /** A list of packed addresses as a pointer to it, which may be null. */
  datatype AddressList = Null | Entries(list: seq<nat>)

  /** The list has a terminator. */
  predicate Ends(list: seq<nat>) {
    exists n :: 0 <= n < |list| && list[n] == NOADDR
  }

  /** The list ends within the range of an 8-bit counter. */
  predicate Terminated(list: seq<nat>) {
    exists n :: 0 <= n < |list| && n < 0x100 && list[n] == NOADDR
  }

  /** How many addresses precede the terminator. */
  function ListLength(list: seq<nat>): (n: nat)
    ensures n <= |list| && (n < |list| ==> list[n] == NOADDR)
    ensures forall k :: 0 <= k < n ==> list[k] != NOADDR
  {
    if list == [] || list[0] == NOADDR then 0 else 1 + ListLength(list[1..])
  }

  lemma TerminatedLength(list: seq<nat>)
    requires Ends(list)
    ensures ListLength(list) < |list| && (Terminated(list) <==> ListLength(list) < 0x100)
  {
  }

  /** `numAddresses`, whose 8-bit counter starts over, and never ends, exactly on a list without a
      terminator among its first 256 entries. */
  method NumAddresses(l: AddressList) returns (count: nat, endless: bool)
    requires l.Entries? ==> Ends(l.list)
    ensures l.Null? ==> count == 0 && !endless
    ensures l.Entries? ==> (endless <==> !Terminated(l.list)) && (!endless ==> count == ListLength(l.list) < 0x100)
  {
    if l.Null? {
      return 0, false;
    }
    TerminatedLength(l.list);
    count := 0;
    while l.list[count] != NOADDR
      invariant count <= ListLength(l.list) && count < 0x100
      decreases ListLength(l.list) - count
    {
      count := (count + 1) % 0x100;
      if count == 0 {
        return 0, true;
      }
    }
    endless := false;
  }

  function Decoded(list: seq<nat>): (d: seq<Address>)
    requires forall k :: 0 <= k < ListLength(list) ==> AddressIsValid(list[k])
    ensures |d| == ListLength(list) && AllValid(d)
  {
    seq(ListLength(list), k requires 0 <= k < ListLength(list) =>
      assert list[k] != NOADDR && AddressIsValid(list[k]);
      Address(ExtractPad(list[k]), ExtractSad(list[k])))
  }

  predicate ListIsValid(list: seq<nat>) {
    forall k :: 0 <= k < ListLength(list) ==> AddressIsValid(list[k])
  }

  predicate ValidList(l: AddressList) {
    l.Entries? ==> ListIsValid(l.list)
  }

  /** `addressListIsValid`; on failure ibcnt is the index of the first bad entry. */
  method AddressListIsValid(l: AddressList) returns (valid: bool, ibcnt: nat)
    requires l.Entries? ==> Ends(l.list)
    ensures valid <==> ValidList(l)
    ensures !valid ==> ibcnt < ListLength(l.list) && !AddressIsValid(l.list[ibcnt]) && ListIsValid(l.list[..ibcnt])
  {
    if l.Null? {
      return true, 0;
    }
    TerminatedLength(l.list);
    var i := 0;
    while l.list[i] != NOADDR
      invariant 0 <= i <= ListLength(l.list)
      invariant forall k :: 0 <= k < i ==> AddressIsValid(l.list[k])
      decreases ListLength(l.list) - i
    {
      if !AddressIsValid(l.list[i]) {
        PrefixLength(l.list, i);
        return false, i;
      }
      i := i + 1;
    }
    return true, 0;
  }

  lemma PrefixLength(list: seq<nat>, i: nat)
    requires i < ListLength(list)
    ensures ListLength(list[..i]) == i
  {
  }

  // ---- The setup string --------------------------------------------------------------------

  lemma {:induction false} ListenAllConcat(a: seq<Address>, b: seq<Address>)
    ensures ListenAll(a + b) == ListenAll(a) + ListenAll(b)
    decreases |a|
  {
    if a == [] {
      assert a + b == b;
    } else {
      assert (a + b)[1..] == a[1..] + b;
      ListenAllConcat(a[1..], b);
    }
  }

  lemma ListenAllGrows(all: seq<Address>, j: nat)
    requires j < |all|
    ensures ListenAll(all[..j + 1]) == ListenAll(all[..j]) + ListenBytes(all[j])
  {
    var a := [all[j]];
    assert a[1..] == [] && ListenAll(a) == ListenBytes(all[j]) + ListenAll([]);
    ListenAllConcat(all[..j], a);
    assert all[..j + 1] == all[..j] + a;
  }

  lemma ListenAllPrefix(all: seq<Address>, j: nat)
    requires j <= |all|
    ensures |ListenAll(all[..j])| <= |ListenAll(all)|
  {
    ListenAllConcat(all[..j], all[j..]);
    assert all == all[..j] + all[j..];
  }

  /** The setup string of one more list entry. */
  lemma SendSetupGrows(board: Address, all: seq<Address>, j: nat)
    requires j < |all|
    ensures SendSetup(board, all[..j + 1]) == SendSetup(board, all[..j]) + ListenBytes(all[j])
    ensures |SendSetup(board, all[..j + 1])| <= |SendSetup(board, all)|
  {
    ListenAllGrows(all, j);
    ListenAllPrefix(all, j + 1);
  }

  lemma {:induction false} ListenAllLength(list: seq<Address>)
    ensures |list| <= |ListenAll(list)| <= 2 * |list|
    ensures (forall k :: 0 <= k < |list| ==> list[k].sad >= 0) ==> |ListenAll(list)| == 2 * |list|
    decreases |list|
  {
    if list != [] {
      ListenAllLength(list[1..]);
    }
  }

  /** A setup string for n addresses has at most 3 + 2n bytes: it and the commands its callers append
      fit the 16 + 2n bytes they allocate, and up to 126 addresses its length fits 8 bits. */
  lemma SendSetupLength(board: Address, list: seq<Address>)
    ensures |SendSetup(board, list)| <= 3 + 2 * |list|
    ensures |list| <= 126 ==> |SendSetup(board, list)| <= 0xFF
    ensures |list| == 127 && board.sad >= 0 && (forall k :: 0 <= k < |list| ==> list[k].sad >= 0) ==>
              |SendSetup(board, list)| == 0x101
  {
    ListenAllLength(list);
  }

  /** What an 8-bit index delimits of a string stored through it: all of up to 255 bytes, and of a longer
      string the bytes stored since the index last started over. */
  function Kept(bytes: seq<byte>): (kept: seq<byte>)
    ensures |kept| == |bytes| % 0x100
    ensures kept == bytes <==> |bytes| <= 0xFF
  {
    bytes[|bytes| - |bytes| % 0x100..]
  }

  /** These bytes were stored from the start on, up to an 8-bit index. */
  predicate Written(cmd: seq<byte>, i: nat, bytes: seq<byte>) {
    i == |Kept(bytes)| <= |cmd| && cmd[..i] == Kept(bytes)
  }

  lemma NextIndex(n: nat)
    ensures (n % 0x100 + 1) % 0x100 == (n + 1) % 0x100 && n % 0x100 <= n
    ensures (n + 1) % 0x100 == if n % 0x100 == 0xFF then 0 else n % 0x100 + 1
  {
  }

  lemma KeptMore(bytes: seq<byte>, b: byte)
    ensures Kept(bytes + [b]) == if |bytes| % 0x100 == 0xFF then [] else Kept(bytes) + [b]
  {
    NextIndex(|bytes|);
  }

  lemma WrittenMore(cmd: seq<byte>, i: nat, before: seq<byte>, b: byte)
    requires |before| < |cmd| && Written(cmd, i, before)
    ensures i < |cmd| && Written(cmd[i := b], (i + 1) % 0x100, before + [b])
  {
    NextIndex(|before|);
    KeptMore(before, b);
    StoredMore(cmd, i, Kept(before), b);
  }

  lemma StoredMore(cmd: seq<byte>, i: nat, kept: seq<byte>, b: byte)
    requires i == |kept| < |cmd| && cmd[..i] == kept
    ensures cmd[i := b][..i + 1] == kept + [b] && cmd[i := b][..0] == []
  {
  }

  /** Store more bytes at an 8-bit index, which wraps around. */
  method Put(cmd: array<byte>, index: nat, bytes: seq<byte>, ghost before: seq<byte>) returns (i: nat)
    requires |before + bytes| <= cmd.Length && Written(cmd[..], index, before)
    modifies cmd
    ensures Written(cmd[..], i, before + bytes)
  {
    i := index;
    for k := 0 to |bytes|
      invariant Written(cmd[..], i, before + bytes[..k])
    {
      ghost var b := before + bytes[..k];
      WrittenMore(cmd[..], i, b, bytes[k]);
      cmd[i] := bytes[k];
      i := (i + 1) % 0x100;
      assert before + bytes[..k + 1] == b + [bytes[k]];
    }
    assert bytes[..|bytes|] == bytes;
  }

  /** `create_send_setup`: the setup string for a valid list, written through an 8-bit index, which keeps
      it exactly when it has at most 255 bytes, and else the end of it. Nothing is counted for a null or bad
      list, or when the board's own address cannot be queried. */
  method CreateSendSetup(board: Address, padKnown: bool, sadKnown: bool, l: AddressList, cmd: array<byte>)
    returns (i: nat)
    requires l.Entries? ==> Terminated(l.list)
    requires l.Entries? && ListIsValid(l.list) ==> |SendSetup(board, Decoded(l.list))| <= cmd.Length
    modifies cmd
    ensures i <= cmd.Length && i <= 0xFF
    ensures l.Null? || !ListIsValid(l.list) || !padKnown ==> i == 0 && cmd[..] == old(cmd[..])
    ensures !sadKnown ==> i == 0
    ensures l.Entries? && ListIsValid(l.list) && padKnown && sadKnown ==>
              cmd[..i] == Kept(SendSetup(board, Decoded(l.list)))
  {
    if l.Null? {
      return 0;
    }
    var valid, _ := AddressListIsValid(l);
    if !valid || !padKnown {
      return 0;
    }
    assert |TalkBytes(board)| >= 1;
    if !sadKnown {
      cmd[0] := MTA(board.pad);
      return 0;
    }
    ghost var all := Decoded(l.list);
    assert SendSetup(board, all[..0]) == TalkBytes(board) + [UNL];
    assert |SendSetup(board, all[..0])| <= |SendSetup(board, all)|;
    i := Put(cmd, 0, TalkBytes(board) + [UNL], []);
    assert [] + (TalkBytes(board) + [UNL]) == SendSetup(board, all[..0]);
    i := PutListeners(board, l, cmd, i);
  }

  method PutListener(board: Address, entry: nat, ghost a: Address, cmd: array<byte>, index: nat,
                     ghost before: seq<byte>, ghost after: seq<byte>)
    returns (i: nat)
    requires entry != NOADDR && AddressIsValid(entry) && a == Address(ExtractPad(entry), ExtractSad(entry))
    requires after == before + ListenBytes(a) && |after| <= cmd.Length && Written(cmd[..], index, before)
    modifies cmd
    ensures Written(cmd[..], i, after)
  {
    i := Put(cmd, index, ListenBytes(Address(ExtractPad(entry), ExtractSad(entry))), before);
  }

  /** Its loop: the listen addresses of the entries. */
  method PutListeners(board: Address, l: AddressList, cmd: array<byte>, start: nat) returns (i: nat)
    requires l.Entries? && Terminated(l.list) && ListIsValid(l.list)
    requires |SendSetup(board, Decoded(l.list))| <= cmd.Length
    requires Written(cmd[..], start, SendSetup(board, Decoded(l.list)[..0]))
    modifies cmd
    ensures Written(cmd[..], i, SendSetup(board, Decoded(l.list)))
    ensures i <= cmd.Length && i <= 0xFF
  {
    ghost var all := Decoded(l.list);
    var count, _ := NumAddresses(l);
    i := start;
    var j := 0;
    ListenAllPrefix(all, 0);
    while j < count
      invariant 0 <= j <= count
      invariant |SendSetup(board, all[..j])| <= cmd.Length && Written(cmd[..], i, SendSetup(board, all[..j]))
    {
      SendSetupGrows(board, all, j);
      i := PutListener(board, l.list[j], all[j], cmd, i, SendSetup(board, all[..j]), SendSetup(board, all[..j + 1]));
      j := j + 1;
    }
    assert all[..j] == all;
  }

  // ---- Setup strings of more than 255 bytes ------------------------------------------------

  predicate NoTalkAddress(b: byte) {
    b % 0x80 < 0x40 || b % 0x80 >= 0x60
  }

  /** Without a talk address nobody starts to talk. */
  lemma {:induction false} NobodyTalks(i: Instrument, s: State, bytes: seq<byte>)
    requires !s.talker && !s.tpas && forall k :: 0 <= k < |bytes| ==> NoTalkAddress(bytes[k])
    ensures !HearAll(i, s, bytes).talker
    decreases |bytes|
  {
    if bytes != [] {
      assert NoTalkAddress(bytes[0]);
      NobodyTalks(i, Hear(i, s, bytes[0]), bytes[1..]);
    }
  }

  lemma {:induction false} ListenAllNoTalk(list: seq<Address>)
    requires AllValid(list)
    ensures forall k :: 0 <= k < |ListenAll(list)| ==> NoTalkAddress(ListenAll(list)[k])
    decreases |list|
  {
    if list != [] {
      AddressBytes(list[0]);
      ListenAllNoTalk(list[1..]);
    }
  }

  /** What is kept of a long setup string begins among its listen addresses. */
  lemma KeptNoTalk(board: Address, list: seq<Address>)
    requires AllValid(list) && |SendSetup(board, list)| > 0xFF
    ensures forall k :: 0 <= k < |Kept(SendSetup(board, list))| ==> NoTalkAddress(Kept(SendSetup(board, list))[k])
  {
    var setup, head := SendSetup(board, list), TalkBytes(board) + [UNL];
    var n := |setup| - |setup| % 0x100;
    ListenAllNoTalk(list);
    assert setup == head + ListenAll(list) && n >= 0x100;
    assert setup[n..] == ListenAll(list)[n - |head|..];
  }

  /** What is sent of the setup string for a list sets the bus to send to it, from every bus state, if
      and only if the string has at most 255 bytes: a longer one loses the board's talk address. The
      list must not make the board unaddress itself. */
  lemma KeptSetupSends(bus: Instruments, board: Address, list: seq<Address>)
    requires ProperBus(bus, board) && AllValid(list) && !(bus[0].unTalk && Listed(bus[0], list))
    ensures (forall states: seq<State> | |states| == |bus| ::
               Sending(bus, HearBus(bus, states, Kept(SendSetup(board, list))), list)) <==>
            |SendSetup(board, list)| <= 0xFF
  {
    var setup := SendSetup(board, list);
    if |setup| <= 0xFF {
      forall states: seq<State> | |states| == |bus| ensures Sending(bus, HearBus(bus, states, Kept(setup)), list) {
        SendSetupReachesTarget(bus, states, board, list);
      }
    } else {
      var idle := seq(|bus|, _ => State(false, false, false, false, false));
      KeptNoTalk(board, list);
      NobodyTalks(bus[0], idle[0], Kept(setup));
      assert !Sending(bus, HearBus(bus, idle, Kept(setup)), list);
    }
  }
}
