/** What each operation of the registry does, field by field: the descriptors, the replies, and the status
    bytes stored for every address. */
module Outcomes {
  import opened Memory
  import opened Bus
  import opened Registry

  /** The field of 16 bits each that holds what is left of an address. */
  predicate Truncated(field: Address, a: Address) {
    && field.pad < 0x1_0000 && (a.pad - field.pad) % 0x1_0000 == 0
    && -0x8000 <= field.sad < 0x8000 && (a.sad - field.sad) % 0x1_0000 == 0
  }

  /** An address by its primary part and its secondary one, of which all negative values are one. */
  predicate Equal(a: Address, b: Address) {
    a.pad == b.pad && (if a.sad < 0 then -1 else a.sad) == (if b.sad < 0 then -1 else b.sad)
  }

  lemma SameIsEqual(a: Address, b: Address)
    ensures Same(a, b) <==> Equal(a, b)
  {
  }

  lemma StoredTruncates(a: Address)
    ensures Truncated(Stored(a), a)
  {
    assert (a.sad + 0x8000) / 0x1_0000 * 0x1_0000 + (a.sad + 0x8000) % 0x1_0000 == a.sad + 0x8000;
  }

  /** The status bytes stored for an address, if it has a queue. */
  function StoredFor(queues: seq<Queue>, a: Address): seq<byte> {
    var k := Find(queues, a);
    if k < |queues| then queues[k].bytes else []
  }

  // ---- Opens and closes --------------------------------------------------------------------

  /** A new reference leaves what is stored for every address: a new queue is empty. */
  lemma IncrementStored(queues: seq<Queue>, a: Address, b: Address)
    requires Distinct(queues) && Healthy(queues)
    ensures StoredFor(Increment(queues, a), b) == StoredFor(queues, b)
  {
    var k, queues' := Find(queues, a), Increment(queues, a);
    if k < |queues| {
      SameFind(queues, queues', b);
    } else {
      AppendFind(queues, Queue(Stored(a), [], 0, false, 1), b);
    }
  }

  lemma {:induction false} AppendFind(queues: seq<Queue>, q: Queue, b: Address)
    ensures var k := Find(queues, b);
            Find(queues + [q], b) == if k < |queues| || Same(q.address, b) then k else |queues| + 1
    decreases |queues|
  {
    if queues == [] {
      assert queues + [q] == [q] && [q][1..] == [];
    } else {
      assert (queues + [q])[1..] == queues[1..] + [q];
      AppendFind(queues[1..], q, b);
    }
  }

  /** An open finds a descriptor with an equal address, or appends one of the given kind with what the
      fields keep of the address. No stored byte changes. */
  lemma OpenOutcome(t: Tables, a: Address, isBoard: bool)
    requires Distinct(t.queues) && Healthy(t.queues)
    ensures var s := Step(t, Open(a, isBoard));
            && s.reply == Returns(0)
            && (if exists h :: 0 <= h < |t.descs| && Equal(t.descs[h].address, a) then s.tables == t else
                  && |s.tables.descs| == |t.descs| + 1 && t.descs <= s.tables.descs
                  && Truncated(s.tables.descs[|t.descs|].address, a)
                  && s.tables.descs[|t.descs|].isBoard == isBoard
                  && forall b :: StoredFor(s.tables.queues, b) == StoredFor(t.queues, b))
  {
    var k := FindDesc(t.descs, a);
    if k < |t.descs| {
      assert Equal(t.descs[k].address, a);
    } else {
      StoredTruncates(a);
      forall b ensures StoredFor(Increment(t.queues, a), b) == StoredFor(t.queues, b) {
        IncrementStored(t.queues, a, b);
      }
    }
  }

  /** The queue of an address goes with its last reference; no other stored byte changes. */
  lemma SubtractStored(queues: seq<Queue>, a: Address, b: Address)
    requires Distinct(queues) && Healthy(queues) && Find(queues, a) < |queues|
    ensures Subtract(queues, a, 1).Subtracted?
    ensures StoredFor(Subtract(queues, a, 1).queues, b) ==
            if Same(a, b) && RefsFor(queues, a) == 1 then [] else StoredFor(queues, b)
  {
    var k := Find(queues, a);
    SubtractShape(queues, a);
    SameAsFound(queues, a, b);
    if queues[k].refs == 1 {
      RemovedStored(queues, k, b);
    } else {
      SameFind(queues, queues[k := queues[k].(refs := queues[k].refs - 1)], b);
    }
  }

  lemma RemovedStored(queues: seq<Queue>, k: nat, b: Address)
    requires Distinct(queues) && Healthy(queues) && k < |queues|
    ensures StoredFor(queues[..k] + queues[k + 1..], b) == if Find(queues, b) == k then [] else StoredFor(queues, b)
  {
    var j, queues' := Find(queues, b), queues[..k] + queues[k + 1..];
    if j < |queues| && j != k {
      RemovedShape(queues, k);
      RemovedAt(queues, k, queues', j);
      FindIs(queues', b, Shifted(k, j));
    } else {
      forall i | 0 <= i < |queues| && i != k ensures !Same(queues[i].address, b) {
        if j == k {
          SameSame(queues[k].address, b, queues[i].address);
        }
      }
      NoneLeft(queues, k, queues', b);
    }
  }

  lemma NoneLeft(queues: seq<Queue>, k: nat, queues': seq<Queue>, b: Address)
    requires k < |queues| && queues' == queues[..k] + queues[k + 1..]
    requires forall j :: 0 <= j < |queues| && j != k ==> !Same(queues[j].address, b)
    ensures StoredFor(queues', b) == []
  {
    forall i | 0 <= i < |queues'| ensures !Same(queues'[i].address, b) {
      assert queues'[i] == queues[if i < k then i else i + 1];
    }
  }

  /** A close removes the descriptor of the handle and no other, and the stored bytes of its address if no
      other descriptor has it. */
  lemma CloseOutcome(t: Tables, handle: nat)
    requires Index(t)
    ensures var s := Step(t, Close(handle));
            if handle >= |t.descs| then s == Stepped(t, Raises) else
              && s.reply == Returns(0) && s.tables.descs == t.descs[..handle] + t.descs[handle + 1..]
              && forall b :: StoredFor(s.tables.queues, b) ==
                             if Equal(t.descs[handle].address, b) && CountFor(t.descs, b) == 1 then []
                             else StoredFor(t.queues, b)
  {
    if handle < |t.descs| {
      var a := t.descs[handle].address;
      DescriptorHasQueue(t, handle);
      SubtractShape(t.queues, a);
      forall b ensures StoredFor(Subtract(t.queues, a, 1).queues, b) ==
                       if Equal(a, b) && CountFor(t.descs, b) == 1 then [] else StoredFor(t.queues, b)
      {
        SubtractStored(t.queues, a, b);
        SameRefs(t.queues, a, b);
      }
    }
  }

  lemma SameRefs(queues: seq<Queue>, a: Address, b: Address)
    requires Distinct(queues) && Find(queues, a) < |queues|
    ensures Same(a, b) ==> RefsFor(queues, a) == RefsFor(queues, b)
  {
    SameAsFound(queues, a, b);
  }

  // ---- Address changes ---------------------------------------------------------------------

  /** A device descriptor got this address; every other descriptor is as it was, the new address has a
      queue, and only the stored bytes of the old address may be gone, if it was its last descriptor. */
  ghost predicate Moved(t: Tables, t': Tables, handle: nat, a: Address)
    requires handle < |t.descs|
  {
    && |t'.descs| == |t.descs|
    && Truncated(t'.descs[handle].address, a) && !t'.descs[handle].isBoard
    && (forall j :: 0 <= j < |t.descs| && j != handle ==> t'.descs[j] == t.descs[j])
    && (exists k :: 0 <= k < |t'.queues| && Equal(t'.queues[k].address, t'.descs[handle].address))
    && forall b :: StoredFor(t'.queues, b) ==
                   if Equal(t.descs[handle].address, b) && CountFor(t.descs, b) == 1 then []
                   else StoredFor(t.queues, b)
  }

  lemma ReaddressMoves(t: Tables, handle: nat, a: Address)
    requires Index(t) && handle < |t.descs| && !t.descs[handle].isBoard
    ensures var s := Readdress(t, handle, a); s.reply == Returns(0) && Moved(t, s.tables, handle, a)
  {
    var leaving, s := t.descs[handle].address, Readdress(t, handle, a);
    ReaddressKeepsIndex(t, handle, a);
    DescriptorHasQueue(t, handle);
    DescriptorHasQueue(s.tables, handle);
    StoredTruncates(a);
    SubtractShape(t.queues, leaving);
    var queues := Subtract(t.queues, leaving, 1).queues;
    forall b ensures StoredFor(Increment(queues, Stored(a)), b) ==
                     if Equal(leaving, b) && CountFor(t.descs, b) == 1 then [] else StoredFor(t.queues, b)
    {
      IncrementStored(queues, Stored(a), b);
      SubtractStored(t.queues, leaving, b);
      SameRefs(t.queues, leaving, b);
    }
    var k := Find(s.tables.queues, s.tables.descs[handle].address);
    assert Equal(s.tables.queues[k].address, s.tables.descs[handle].address);
  }

  /** A primary address change gives a device descriptor that primary address and keeps its secondary
      one; on a board descriptor it changes no table. */
  lemma SetPadOutcome(t: Tables, handle: nat, pad: nat)
    requires Index(t)
    ensures var s := Step(t, SetPad(handle, pad));
            if handle >= 0x1000 then s == Stepped(t, Returns(-22))
            else if handle >= |t.descs| then s == Stepped(t, Raises)
            else if t.descs[handle].isBoard then
              s == Stepped(t, Returns(if t.descs[handle].address.pad <= 30 then 0 else -1))
            else s.reply == Returns(0) && Moved(t, s.tables, handle, Address(pad, t.descs[handle].address.sad))
  {
    if handle < |t.descs| && !t.descs[handle].isBoard {
      ReaddressMoves(t, handle, Address(pad, t.descs[handle].address.sad));
    }
  }

  /** The same of a secondary address change, whose argument a board takes as a signed number. */
  lemma SetSadOutcome(t: Tables, handle: nat, sad: nat)
    requires Index(t) && sad < 0x1_0000_0000
    ensures var s := Step(t, SetSad(handle, sad));
            if handle >= 0x1000 then s == Stepped(t, Returns(-22))
            else if handle >= |t.descs| then s == Stepped(t, Raises)
            else if t.descs[handle].isBoard then
              s == Stepped(t, Returns(if sad <= 30 || sad >= 0x8000_0000 then 0 else -1))
            else s.reply == Returns(0) && Moved(t, s.tables, handle, Address(t.descs[handle].address.pad, sad))
  {
    if handle < |t.descs| && !t.descs[handle].isBoard {
      ReaddressMoves(t, handle, Address(t.descs[handle].address.pad, sad));
    }
  }

  // ---- Status bytes ------------------------------------------------------------------------

  /** Only the bytes stored for one address changed. */
  ghost predicate OnlyStored(t: Tables, t': Tables, a: Address, bytes: seq<byte>) {
    && t'.descs == t.descs
    && forall b :: StoredFor(t'.queues, b) == if Equal(a, b) then bytes else StoredFor(t.queues, b)
  }

  lemma StoreBytes(t: Tables, a: Address, q: Queue)
    requires Distinct(t.queues) && Find(t.queues, a) < |t.queues|
    requires q.address == t.queues[Find(t.queues, a)].address
    ensures OnlyStored(t, t.(queues := t.queues[Find(t.queues, a) := q]), a, q.bytes)
  {
    var k := Find(t.queues, a);
    forall b ensures StoredFor(t.queues[k := q], b) == if Equal(a, b) then q.bytes else StoredFor(t.queues, b) {
      SameFind(t.queues, t.queues[k := q], b);
      SameAsFound(t.queues, a, b);
    }
  }

  /** A push appends its byte to those stored for its address, unless there are 1024, and then returns
      -32 and stores nothing; with no queue for the address it raises an exception. */
  lemma PushOutcome(t: Tables, a: Address, b: byte)
    requires Index(t)
    ensures var s, bytes := Step(t, Push(a, b)), StoredFor(t.queues, a);
            if CountFor(t.descs, a) == 0 then s == Stepped(t, Raises)
            else if |bytes| < 1024 then s.reply == Returns(0) && OnlyStored(t, s.tables, a, bytes + [b])
            else s.reply == Returns(-32) && OnlyStored(t, s.tables, a, bytes)
  {
    IndexFinds(t, a);
    CountedIsFound(t, a);
    var k := Find(t.queues, a);
    if k < |t.queues| {
      PushPopOutcomes(t.queues[k], b);
      StoreBytes(t, a, PushByte(t.queues[k], b).queue);
    }
  }

  /** A pop takes the last byte stored for its address; without one it returns -5. */
  lemma PopOutcome(t: Tables, a: Address)
    requires Index(t)
    ensures var s, bytes := Step(t, Pop(a)), StoredFor(t.queues, a);
            if bytes == [] then s == Stepped(t, Returns(-5))
            else s.reply == Returns(0) && OnlyStored(t, s.tables, a, bytes[..|bytes| - 1])
    ensures var k, bytes := Find(t.queues, a), StoredFor(t.queues, a);
            bytes != [] ==> PopByte(t.queues[k]).value == bytes[|bytes| - 1]
  {
    var k := Find(t.queues, a);
    if k < |t.queues| {
      PushPopOutcomes(t.queues[k], 0);
      StoreBytes(t, a, PopByte(t.queues[k]).queue);
      assert t.queues[k := t.queues[k]] == t.queues;
    }
  }

  lemma CountedIsFound(t: Tables, a: Address)
    requires Index(t)
    ensures CountFor(t.descs, a) == 0 <==> Find(t.queues, a) == |t.queues|
  {
    assert RefsFor(t.queues, a) == CountFor(t.descs, a);
  }
}
