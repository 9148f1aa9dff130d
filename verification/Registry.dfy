/** The open-device registry: the descriptor table, and the reference-counted list of device queues
    that must agree with it; what every run of opens, closes, re-addressings, pushes and pops keeps. */
module Registry {
  import opened Errno
  import opened Memory
  import opened Bus

  const MAX_STATUS_BYTES: nat := 1024
  const MAX_DESCRIPTORS: nat := 0x1000

  // ---- Addresses ---------------------------------------------------------------------------

  /** `gpib_address_equal`: all negative secondary addresses are the same. */
  predicate Same(a: Address, b: Address) {
    a.pad == b.pad && (a.sad == b.sad || (a.sad < 0 && b.sad < 0))
  }

  /** What a 16-bit unsigned pad field and a 16-bit signed sad field keep of an address. */
  function Stored(a: Address): Address {
    Address(a.pad % 0x1_0000, (a.sad + 0x8000) % 0x1_0000 - 0x8000)
  }

  /** An unsigned argument passed on as a signed 32-bit one. */
  function Int32(x: nat): int {
    (x + 0x8000_0000) % 0x1_0000_0000 - 0x8000_0000
  }

  predicate FitsFields(a: Address) {
    a.pad < 0x1_0000 && -0x8000 <= a.sad < 0x8000
  }

  // ---- Queues ------------------------------------------------------------------------------

  datatype Queue = Queue(address: Address, bytes: seq<byte>, num: nat, dropped: bool, refs: nat)

  datatype Popped = Popped(queue: Queue, rc: int, value: byte)

  /** `pop_status_byte`. It takes the byte pushed last, although its comment speaks of a fifo. */
  function PopByte(q: Queue): Popped {
    if q.num == 0 then Popped(q, -EIO, 0)
    else if q.dropped then Popped(q.(dropped := false), -EPIPE, 0)
    else if q.bytes == [] then Popped(q.(num := q.num - 1), 0, 0)
    else Popped(q.(bytes := q.bytes[..|q.bytes| - 1], num := q.num - 1), 0, q.bytes[|q.bytes| - 1])
  }

  datatype Pushed = Pushed(queue: Queue, rc: int)

  /** `push_status_byte`: a full queue is marked and popped first, which only clears the mark. */
  function PushByte(q: Queue, b: byte): Pushed {
    if q.num >= MAX_STATUS_BYTES then
      var p := PopByte(q.(dropped := true));
      if p.rc < 0 then Pushed(p.queue, p.rc)
      else Pushed(p.queue.(bytes := p.queue.bytes + [b], num := p.queue.num + 1), 0)
    else Pushed(q.(bytes := q.bytes + [b], num := q.num + 1), 0)
  }

  predicate QueueOk(q: Queue) {
    q.num == |q.bytes| <= MAX_STATUS_BYTES && !q.dropped
  }

  datatype QueueOp = PushOp(b: byte) | PopOp

  datatype QueueRun = QueueRun(queue: Queue, accepted: seq<byte>, popped: seq<byte>, lost: bool)

  /** A run of pushes and pops: the bytes accepted, the bytes popped, and whether any pop reported
      a lost byte. */
  function RunQueue(q: Queue, ops: seq<QueueOp>): QueueRun
    decreases |ops|
  {
    if ops == [] then QueueRun(q, [], [], false) else
      match ops[0]
      case PushOp(b) =>
        var p := PushByte(q, b);
        var r := RunQueue(p.queue, ops[1..]);
        if p.rc < 0 then r else r.(accepted := [b] + r.accepted)
      case PopOp =>
        var p := PopByte(q);
        var r := RunQueue(p.queue, ops[1..]);
        if p.rc < 0 then r.(lost := r.lost || p.rc == -EPIPE) else r.(popped := [p.value] + r.popped)
  }

  /** A push fails exactly when the queue is full, and then leaves it as it was: the new byte is the
      one lost, and no mark of the loss remains. A pop fails exactly when the queue is empty. */
  lemma PushPopOutcomes(q: Queue, b: byte)
    requires QueueOk(q)
    ensures var p := PushByte(q, b);
            && QueueOk(p.queue) && (p.rc < 0 <==> |q.bytes| == 1024)
            && p.queue == (if p.rc < 0 then q else q.(bytes := q.bytes + [b], num := q.num + 1))
    ensures var p := PopByte(q);
            && QueueOk(p.queue) && (p.rc < 0 <==> q.bytes == [])
            && (p.rc >= 0 ==> q.bytes == p.queue.bytes + [p.value])
            && p.queue.(bytes := q.bytes, num := q.num) == q
  {
  }

  lemma MultisetConcat<T>(a: seq<T>, b: seq<T>)
    ensures multiset(a + b) == multiset(a) + multiset(b)
  {
  }

  lemma Regrouped<T>(a: multiset<T>, b: multiset<T>, c: multiset<T>)
    ensures a + (b + c) == (a + b) + c == (a + c) + b
  {
  }

  /** Two stretches that each conserve their elements conserve them together. */
  lemma ConservedChain<T>(q: multiset<T>, q1: multiset<T>, q2: multiset<T>,
                          in1: seq<T>, out1: seq<T>, in2: seq<T>, out2: seq<T>)
    requires q + multiset(in1) == q1 + multiset(out1)
    requires q1 + multiset(in2) == q2 + multiset(out2)
    ensures q + multiset(in1 + in2) == q2 + multiset(out1 + out2)
  {
    MultisetConcat(in1, in2);
    MultisetConcat(out1, out2);
    Regrouped(q, multiset(in1), multiset(in2));
    Regrouped(q1, multiset(out1), multiset(in2));
    Regrouped(q2, multiset(out1), multiset(out2));
  }

  lemma RunQueueStep(q: Queue, ops: seq<QueueOp>)
    requires ops != []
    ensures var (q', accepted, popped) := OneStep(q, ops[0]);
            var r, all := RunQueue(q', ops[1..]), RunQueue(q, ops);
            && all.queue == r.queue && all.accepted == accepted + r.accepted && all.popped == popped + r.popped
            && (QueueOk(q) && !r.lost ==> !all.lost)
  {
    var (q', accepted, popped) := OneStep(q, ops[0]);
    var r := RunQueue(q', ops[1..]);
    assert [] + r.accepted == r.accepted && [] + r.popped == r.popped;
  }

  /** Over every run: the count is the stored length and at most 1024, no byte appears or vanishes,
      and no pop ever reports a lost byte, even after bytes were refused. */
  lemma {:induction false} QueueConservation(q: Queue, ops: seq<QueueOp>)
    requires QueueOk(q)
    ensures var r := RunQueue(q, ops);
            && QueueOk(r.queue) && !r.lost
            && multiset(q.bytes) + multiset(r.accepted) == multiset(r.queue.bytes) + multiset(r.popped)
    decreases |ops|
  {
    if ops != [] {
      var (q', accepted, popped) := OneStep(q, ops[0]);
      QueueStep(q, ops[0]);
      QueueConservation(q', ops[1..]);
      var r := RunQueue(q', ops[1..]);
      RunQueueStep(q, ops);
      ConservedChain(multiset(q.bytes), multiset(q'.bytes), multiset(r.queue.bytes),
                     accepted, popped, r.accepted, r.popped);
    }
  }

  /** One operation: the queue after it, and the bytes it accepted and popped. */
  function OneStep(q: Queue, op: QueueOp): (Queue, seq<byte>, seq<byte>) {
    match op
    case PushOp(b) => var p := PushByte(q, b); (p.queue, if p.rc < 0 then [] else [b], [])
    case PopOp => var p := PopByte(q); (p.queue, [], if p.rc < 0 then [] else [p.value])
  }

  lemma QueueStep(q: Queue, op: QueueOp)
    requires QueueOk(q)
    ensures var (q', accepted, popped) := OneStep(q, op);
            QueueOk(q') && multiset(q.bytes) + multiset(accepted) == multiset(q'.bytes) + multiset(popped)
  {
    PushPopOutcomes(q, if op.PushOp? then op.b else 0);
    var (q', accepted, popped) := OneStep(q, op);
    assert q.bytes + accepted == q'.bytes + popped;
    MultisetConcat(q.bytes, accepted);
    MultisetConcat(q'.bytes, popped);
  }

  function Drained(q: Queue): seq<byte>
    requires QueueOk(q)
    decreases |q.bytes|
  {
    if q.bytes == [] then [] else [PopByte(q).value] + Drained(PopByte(q).queue)
  }

  /** Popping until empty yields the bytes last in first out, and so in the order they came exactly
      when they read the same both ways. */
  lemma {:induction false} DrainedOrder(q: Queue)
    requires QueueOk(q)
    ensures var d, n := Drained(q), |q.bytes|;
            && |d| == n && (forall k :: 0 <= k < n ==> d[k] == q.bytes[n - 1 - k])
            && (d == q.bytes <==> forall k :: 0 <= k < n ==> q.bytes[k] == q.bytes[n - 1 - k])
    decreases |q.bytes|
  {
    if q.bytes != [] {
      DrainedOrder(PopByte(q).queue);
    }
  }

  // ---- The registry ------------------------------------------------------------------------

  datatype Descriptor = Descriptor(address: Address, isBoard: bool)

  datatype Tables = Tables(queues: seq<Queue>, descs: seq<Descriptor>)

  function Find(queues: seq<Queue>, a: Address): (k: nat)
    ensures k <= |queues| && (k < |queues| ==> Same(queues[k].address, a))
    ensures forall j :: 0 <= j < k ==> !Same(queues[j].address, a)
  {
    if queues == [] || Same(queues[0].address, a) then 0 else 1 + Find(queues[1..], a)
  }

  function Increment(queues: seq<Queue>, a: Address): seq<Queue> {
    var k := Find(queues, a);
    if k < |queues| then queues[k := queues[k].(refs := queues[k].refs + 1)]
    else queues + [Queue(Stored(a), [], 0, false, 1)]
  }

  datatype Subtracted = Bug | Subtracted(queues: seq<Queue>)

  function Subtract(queues: seq<Queue>, a: Address, count: nat): Subtracted {
    var k := Find(queues, a);
    if k == |queues| || count > queues[k].refs then Bug
    else if queues[k].refs == count then Subtracted(queues[..k] + queues[k + 1..])
    else Subtracted(queues[k := queues[k].(refs := queues[k].refs - count)])
  }

  function FindDesc(descs: seq<Descriptor>, a: Address): (k: nat)
    ensures k <= |descs| && (k < |descs| ==> Same(descs[k].address, a))
    ensures forall j :: 0 <= j < k ==> !Same(descs[j].address, a)
  {
    if descs == [] || Same(descs[0].address, a) then 0 else 1 + FindDesc(descs[1..], a)
  }

  datatype Op =
    | Open(a: Address, isBoard: bool)
    | Close(handle: nat)
    | SetPad(handle: nat, pad: nat)
    | SetSad(handle: nat, sad: nat)
    | Push(to: Address, b: byte)
    | Pop(from: Address)

  /** How an operation ends: its return value; the registry's own error; or an exception, as
      for a handle past the table and a push to no queue. */
  datatype Reply = Returns(rc: int) | ReportsBug | Raises

  datatype Stepped = Stepped(tables: Tables, reply: Reply)

  /** Give the device of a descriptor a new address: leave the old queue, join the new one. */
  function Readdress(t: Tables, handle: nat, a: Address): Stepped
    requires handle < |t.descs|
  {
    match Subtract(t.queues, t.descs[handle].address, 1)
    case Bug => Stepped(t, ReportsBug)
    case Subtracted(queues) =>
      var desc := t.descs[handle].(address := Stored(a));
      Stepped(Tables(Increment(queues, Stored(a)), t.descs[handle := desc]), Returns(0))
  }

  function Step(t: Tables, op: Op): Stepped {
    match op
    case Open(a, isBoard) =>
      if FindDesc(t.descs, a) < |t.descs| then Stepped(t, Returns(0))
      else Stepped(Tables(Increment(t.queues, a), t.descs + [Descriptor(Stored(a), isBoard)]), Returns(0))
    case Close(handle) =>
      if handle >= |t.descs| then Stepped(t, Raises)
      else (match Subtract(t.queues, t.descs[handle].address, 1)
            case Bug => Stepped(t, ReportsBug)
            case Subtracted(queues) => Stepped(Tables(queues, t.descs[..handle] + t.descs[handle + 1..]), Returns(0)))
    case SetPad(handle, pad) =>
      if handle >= MAX_DESCRIPTORS then Stepped(t, Returns(-EINVAL))
      else if handle >= |t.descs| then Stepped(t, Raises)
      else if t.descs[handle].isBoard then
        Stepped(t, Returns(if t.descs[handle].address.pad > MAX_ADDRESS then -1 else 0))
      else Readdress(t, handle, t.descs[handle].address.(pad := pad))
    case SetSad(handle, sad) =>
      if handle >= MAX_DESCRIPTORS then Stepped(t, Returns(-EINVAL))
      else if handle >= |t.descs| then Stepped(t, Raises)
      else if t.descs[handle].isBoard then Stepped(t, Returns(if Int32(sad) > MAX_ADDRESS then -1 else 0))
      else Readdress(t, handle, t.descs[handle].address.(sad := sad))
    case Push(a, b) =>
      var k := Find(t.queues, a);
      if k == |t.queues| then Stepped(t, Raises)
      else Stepped(t.(queues := t.queues[k := PushByte(t.queues[k], b).queue]), Returns(PushByte(t.queues[k], b).rc))
    case Pop(a) =>
      var k := Find(t.queues, a);
      if k == |t.queues| then Stepped(t, Returns(-EIO))
      else Stepped(t.(queues := t.queues[k := PopByte(t.queues[k]).queue]), Returns(PopByte(t.queues[k]).rc))
  }

  // ---- The invariant -----------------------------------------------------------------------

  /** The reference count the list keeps for an address. */
  function RefsFor(queues: seq<Queue>, a: Address): nat {
    var k := Find(queues, a);
    if k < |queues| then queues[k].refs else 0
  }

  /** The number of descriptors with an address. */
  function CountFor(descs: seq<Descriptor>, a: Address): nat {
    if descs == [] then 0 else (if Same(descs[0].address, a) then 1 else 0) + CountFor(descs[1..], a)
  }

  ghost predicate Distinct(queues: seq<Queue>) {
    forall i, j :: 0 <= i < j < |queues| ==> !Same(queues[i].address, queues[j].address)
  }

  ghost predicate Healthy(queues: seq<Queue>) {
    forall i :: 0 <= i < |queues| ==> queues[i].refs > 0 && QueueOk(queues[i])
  }

  /** The device list is an exact index of the descriptor table: one queue per address, counting
      that address's descriptors. */
  ghost predicate Index(t: Tables) {
    && Distinct(t.queues) && Healthy(t.queues)
    && forall a :: RefsFor(t.queues, a) == CountFor(t.descs, a)
  }

  lemma SameSame(a: Address, b: Address, c: Address)
    requires Same(a, b)
    ensures Same(a, c) <==> Same(b, c)
  {
  }

  lemma {:induction false} CountAppend(descs: seq<Descriptor>, d: Descriptor, a: Address)
    ensures CountFor(descs + [d], a) == CountFor(descs, a) + if Same(d.address, a) then 1 else 0
    decreases |descs|
  {
    if descs == [] {
      assert descs + [d] == [d] && [d][1..] == [];
    } else {
      assert (descs + [d])[1..] == descs[1..] + [d];
      CountAppend(descs[1..], d, a);
    }
  }

  lemma {:induction false} CountRemove(descs: seq<Descriptor>, h: nat, a: Address)
    requires h < |descs|
    ensures CountFor(descs, a) == CountFor(descs[..h] + descs[h + 1..], a) + if Same(descs[h].address, a) then 1 else 0
    decreases h
  {
    var rest := descs[..h] + descs[h + 1..];
    if h == 0 {
      assert rest == descs[1..];
    } else {
      assert rest[1..] == descs[1..][..h - 1] + descs[1..][h..];
      CountRemove(descs[1..], h - 1, a);
    }
  }

  lemma {:induction false} CountReplace(descs: seq<Descriptor>, h: nat, d: Descriptor, a: Address)
    requires h < |descs|
    ensures CountFor(descs[h := d], a) + (if Same(descs[h].address, a) then 1 else 0) ==
            CountFor(descs, a) + if Same(d.address, a) then 1 else 0
    decreases h
  {
    if h > 0 {
      assert descs[h := d][1..] == descs[1..][h - 1 := d];
      CountReplace(descs[1..], h - 1, d, a);
    } else {
      assert descs[h := d][1..] == descs[1..];
    }
  }

  lemma {:induction false} CountPositive(descs: seq<Descriptor>, a: Address)
    ensures CountFor(descs, a) > 0 <==> FindDesc(descs, a) < |descs|
    decreases |descs|
  {
    if descs != [] {
      CountPositive(descs[1..], a);
    }
  }

  lemma FindIs(queues: seq<Queue>, a: Address, k: nat)
    requires k < |queues| && Same(queues[k].address, a) && Distinct(queues)
    ensures Find(queues, a) == k
  {
    var j := Find(queues, a);
    if j < k {
      SameSame(queues[j].address, a, queues[k].address);
    }
  }

  /** The address an increment counts: the one found, or the one stored for it. */
  function Counted(queues: seq<Queue>, a: Address): Address {
    if Find(queues, a) < |queues| then a else Stored(a)
  }

  lemma IncrementShape(queues: seq<Queue>, a: Address)
    requires Distinct(queues) && Healthy(queues)
    requires Find(queues, Counted(queues, a)) == Find(queues, a)
    ensures Distinct(Increment(queues, a)) && Healthy(Increment(queues, a))
  {
    var k, queues' := Find(queues, a), Increment(queues, a);
    assert forall i :: 0 <= i < |queues| ==> queues'[i].address == queues[i].address;
  }

  /** An increment adds one to the count of one address and to no other. */
  lemma IncrementCounts(queues: seq<Queue>, a: Address, b: Address)
    requires Distinct(queues) && Healthy(queues)
    requires Find(queues, Counted(queues, a)) == Find(queues, a)
    ensures RefsFor(Increment(queues, a), b) == RefsFor(queues, b) + if Same(Counted(queues, a), b) then 1 else 0
  {
    IncrementShape(queues, a);
    var k, queues' := Find(queues, a), Increment(queues, a);
    var j := Find(queues, b);
    if j < |queues| {
      assert queues'[j].address == queues[j].address;
      FindIs(queues', b, j);
      assert Same(Counted(queues, a), b) <==> j == k by {
        if Same(Counted(queues, a), b) && k < |queues| && j != k {
          FindIs(queues, b, k);
        }
      }
    } else if Same(Counted(queues, a), b) {
      assert k == |queues|;
      FindIs(queues', b, k);
    }
  }

  lemma RemovedShape(queues: seq<Queue>, k: nat)
    requires Distinct(queues) && Healthy(queues) && k < |queues|
    ensures Distinct(queues[..k] + queues[k + 1..]) && Healthy(queues[..k] + queues[k + 1..])
  {
    var queues' := queues[..k] + queues[k + 1..];
    assert forall i :: 0 <= i < |queues'| ==> queues'[i] == queues[if i < k then i else i + 1];
  }

  lemma ReducedShape(queues: seq<Queue>, k: nat, q: Queue)
    requires Distinct(queues) && Healthy(queues) && k < |queues|
    requires q.address == queues[k].address && q.refs > 0 && QueueOk(q)
    ensures Distinct(queues[k := q]) && Healthy(queues[k := q])
  {
    assert forall i :: 0 <= i < |queues| ==> queues[k := q][i].address == queues[i].address;
  }

  lemma SubtractShape(queues: seq<Queue>, a: Address)
    requires Distinct(queues) && Healthy(queues) && Find(queues, a) < |queues|
    ensures Subtract(queues, a, 1).Subtracted?
    ensures Distinct(Subtract(queues, a, 1).queues) && Healthy(Subtract(queues, a, 1).queues)
  {
    var k := Find(queues, a);
    if queues[k].refs == 1 {
      RemovedShape(queues, k);
    } else {
      ReducedShape(queues, k, queues[k].(refs := queues[k].refs - 1));
    }
  }

  /** Where a queue other than the k-th goes when that is removed. */
  function Shifted(k: nat, j: nat): nat
    requires j != k
  {
    if j > k then j - 1 else j
  }

  lemma RemovedAt(queues: seq<Queue>, k: nat, queues': seq<Queue>, j: nat)
    requires k < |queues| && queues' == queues[..k] + queues[k + 1..]
    requires j < |queues| && j != k
    ensures Shifted(k, j) < |queues'| && queues'[Shifted(k, j)] == queues[j]
  {
    if j > k {
      assert queues[k + 1..][j - k - 1] == queues[j];
    }
  }

  lemma RemovedFound(queues: seq<Queue>, k: nat, queues': seq<Queue>, b: Address)
    requires k < |queues| && queues' == queues[..k] + queues[k + 1..] && Distinct(queues')
    requires Find(queues, b) < |queues| && Find(queues, b) != k
    ensures RefsFor(queues', b) == RefsFor(queues, b)
  {
    var j := Find(queues, b);
    RemovedAt(queues, k, queues', j);
    FindIs(queues', b, Shifted(k, j));
  }

  lemma RemovedAbsent(queues: seq<Queue>, k: nat, queues': seq<Queue>, b: Address)
    requires k < |queues| && queues' == queues[..k] + queues[k + 1..]
    requires forall j :: 0 <= j < |queues| && j != k ==> !Same(queues[j].address, b)
    ensures RefsFor(queues', b) == 0
  {
    forall i | 0 <= i < |queues'| ensures !Same(queues'[i].address, b) {
      assert queues'[i] == queues[if i < k then i else i + 1];
    }
  }

  /** Without the k-th queue, the others are found as before. */
  lemma RemovedCounts(queues: seq<Queue>, k: nat, b: Address)
    requires Distinct(queues) && Healthy(queues) && k < |queues|
    ensures RefsFor(queues[..k] + queues[k + 1..], b) == if Find(queues, b) == k then 0 else RefsFor(queues, b)
  {
    var j := Find(queues, b);
    if j < |queues| && j != k {
      RemovedShape(queues, k);
      RemovedFound(queues, k, queues[..k] + queues[k + 1..], b);
    } else {
      forall i | 0 <= i < |queues| && i != k ensures !Same(queues[i].address, b) {
        if j == k {
          SameSame(queues[k].address, b, queues[i].address);
        }
      }
      RemovedAbsent(queues, k, queues[..k] + queues[k + 1..], b);
    }
  }

  lemma ReducedCounts(queues: seq<Queue>, k: nat, q: Queue, b: Address)
    requires Distinct(queues) && Healthy(queues) && k < |queues|
    requires q.address == queues[k].address
    ensures RefsFor(queues[k := q], b) == if Find(queues, b) == k then q.refs else RefsFor(queues, b)
  {
    SameFind(queues, queues[k := q], b);
  }

  /** A subtraction takes one from the count of its address and from no other. */
  lemma SubtractCounts(queues: seq<Queue>, a: Address, b: Address)
    requires Distinct(queues) && Healthy(queues) && Find(queues, a) < |queues|
    ensures Subtract(queues, a, 1).Subtracted?
    ensures RefsFor(queues, b) == RefsFor(Subtract(queues, a, 1).queues, b) + if Same(a, b) then 1 else 0
  {
    var k := Find(queues, a);
    SubtractShape(queues, a);
    SameAsFound(queues, a, b);
    if queues[k].refs == 1 {
      RemovedCounts(queues, k, b);
    } else {
      ReducedCounts(queues, k, queues[k].(refs := queues[k].refs - 1), b);
    }
  }

  /** The queue of an address is the queue of exactly the addresses the same as it. */
  lemma SameAsFound(queues: seq<Queue>, a: Address, b: Address)
    requires Distinct(queues) && Find(queues, a) < |queues|
    ensures Same(a, b) <==> Find(queues, b) == Find(queues, a)
  {
    var k := Find(queues, a);
    if Same(a, b) {
      FindIs(queues, b, k);
    }
  }

  // ---- Steps and runs ----------------------------------------------------------------------

  /** A caller's check before an open: the address is open already, or what the 16-bit fields keep
      of it is not. Every address that fits the fields passes. */
  predicate OpenSafe(t: Tables, a: Address) {
    FindDesc(t.descs, a) < |t.descs| || FindDesc(t.descs, Stored(a)) == |t.descs|
  }

  predicate SafeOp(t: Tables, op: Op) {
    op.Open? ==> OpenSafe(t, op.a)
  }

  lemma FittingIsSafe(t: Tables, op: Op)
    requires op.Open? ==> FitsFields(op.a)
    ensures SafeOp(t, op)
  {
  }

  lemma IndexFinds(t: Tables, a: Address)
    requires Index(t)
    ensures Find(t.queues, a) < |t.queues| <==> FindDesc(t.descs, a) < |t.descs|
  {
    CountPositive(t.descs, a);
    assert RefsFor(t.queues, a) == CountFor(t.descs, a);
  }

  /** In an indexed registry every open device has its queue. */
  lemma DescriptorHasQueue(t: Tables, handle: nat)
    requires Index(t) && handle < |t.descs|
    ensures Find(t.queues, t.descs[handle].address) < |t.queues|
  {
    var a := t.descs[handle].address;
    assert FindDesc(t.descs, a) <= handle;
    IndexFinds(t, a);
  }

  lemma OpenKeepsIndex(t: Tables, a: Address, isBoard: bool)
    requires Index(t)
    ensures Index(Step(t, Open(a, isBoard)).tables) <==> OpenSafe(t, a)
  {
    if FindDesc(t.descs, a) == |t.descs| {
      var t' := Step(t, Open(a, isBoard)).tables;
      IndexFinds(t, a);
      IndexFinds(t, Stored(a));
      if OpenSafe(t, a) {
        IncrementShape(t.queues, a);
        forall b ensures RefsFor(t'.queues, b) == CountFor(t'.descs, b) {
          IncrementCounts(t.queues, a, b);
          CountAppend(t.descs, Descriptor(Stored(a), isBoard), b);
        }
      } else {
        var j := Find(t.queues, Stored(a));
        assert t'.queues[j].address == t.queues[j].address && t'.queues[|t.queues|].address == Stored(a);
        assert !Distinct(t'.queues);
      }
    }
  }

  lemma CloseKeepsIndex(t: Tables, handle: nat)
    requires Index(t) && handle < |t.descs|
    ensures var s := Step(t, Close(handle)); Index(s.tables) && s.reply == Returns(0)
  {
    var a := t.descs[handle].address;
    DescriptorHasQueue(t, handle);
    SubtractShape(t.queues, a);
    var t' := Step(t, Close(handle)).tables;
    forall b ensures RefsFor(t'.queues, b) == CountFor(t'.descs, b) {
      SubtractCounts(t.queues, a, b);
      CountRemove(t.descs, handle, b);
    }
  }

  lemma StoredTwice(a: Address)
    ensures Stored(Stored(a)) == Stored(a)
  {
  }

  lemma ReaddressKeepsIndex(t: Tables, handle: nat, a: Address)
    requires Index(t) && handle < |t.descs|
    ensures var s := Readdress(t, handle, a); Index(s.tables) && s.reply == Returns(0)
  {
    var leaving := t.descs[handle].address;
    DescriptorHasQueue(t, handle);
    SubtractShape(t.queues, leaving);
    var queues := Subtract(t.queues, leaving, 1).queues;
    StoredTwice(a);
    IncrementShape(queues, Stored(a));
    var t' := Readdress(t, handle, a).tables;
    forall b ensures RefsFor(t'.queues, b) == CountFor(t'.descs, b) {
      SubtractCounts(t.queues, leaving, b);
      IncrementCounts(queues, Stored(a), b);
      CountReplace(t.descs, handle, t'.descs[handle], b);
    }
  }

  /** Replacing a queue's bytes, at a healthy queue, keeps the index. */
  lemma BytesKeepIndex(t: Tables, k: nat, q: Queue)
    requires Index(t) && k < |t.queues| && QueueOk(q)
    requires q.address == t.queues[k].address && q.refs == t.queues[k].refs
    ensures Index(t.(queues := t.queues[k := q]))
  {
    var queues := t.queues[k := q];
    assert forall i :: 0 <= i < |queues| ==>
                         queues[i].address == t.queues[i].address && queues[i].refs == t.queues[i].refs;
    forall b ensures RefsFor(queues, b) == RefsFor(t.queues, b) {
      SameFind(t.queues, queues, b);
    }
  }

  lemma {:induction false} SameFind(a: seq<Queue>, b: seq<Queue>, x: Address)
    requires |a| == |b| && forall i :: 0 <= i < |a| ==> a[i].address == b[i].address
    ensures Find(a, x) == Find(b, x)
    decreases |a|
  {
    if a != [] {
      SameFind(a[1..], b[1..], x);
    }
  }

  /** Every operation keeps the index, exactly if it is not an open of an address whose stored form
      is open while it is not; and the registry's own error is never reported. */
  lemma StepKeepsIndex(t: Tables, op: Op)
    requires Index(t)
    ensures Index(Step(t, op).tables) <==> SafeOp(t, op)
    ensures !Step(t, op).reply.ReportsBug?
  {
    match op
    case Open(a, isBoard) => OpenKeepsIndex(t, a, isBoard);
    case Close(handle) => if handle < |t.descs| { CloseKeepsIndex(t, handle); }
    case SetPad(handle, pad) =>
      if handle < |t.descs| { ReaddressKeepsIndex(t, handle, t.descs[handle].address.(pad := pad)); }
    case SetSad(handle, sad) =>
      if handle < |t.descs| { ReaddressKeepsIndex(t, handle, t.descs[handle].address.(sad := sad)); }
    case Push(a, b) =>
      var k := Find(t.queues, a);
      if k < |t.queues| {
        PushPopOutcomes(t.queues[k], b);
        BytesKeepIndex(t, k, PushByte(t.queues[k], b).queue);
      }
    case Pop(a) =>
      var k := Find(t.queues, a);
      if k < |t.queues| {
        PushPopOutcomes(t.queues[k], 0);
        BytesKeepIndex(t, k, PopByte(t.queues[k]).queue);
      }
  }

  function Run(t: Tables, ops: seq<Op>): Tables
    decreases |ops|
  {
    if ops == [] then t else Run(Step(t, ops[0]).tables, ops[1..])
  }

  /** The index holds at every moment of the run. */
  ghost predicate IndexedThroughout(t: Tables, ops: seq<Op>)
    decreases |ops|
  {
    Index(t) && (ops == [] || IndexedThroughout(Step(t, ops[0]).tables, ops[1..]))
  }

  /** Every open of the run is safe when it comes. */
  ghost predicate SafeRun(t: Tables, ops: seq<Op>)
    decreases |ops|
  {
    ops == [] || (SafeOp(t, ops[0]) && SafeRun(Step(t, ops[0]).tables, ops[1..]))
  }

  ghost predicate NoBugReported(t: Tables, ops: seq<Op>)
    decreases |ops|
  {
    ops == [] || (!Step(t, ops[0]).reply.ReportsBug? && NoBugReported(Step(t, ops[0]).tables, ops[1..]))
  }

  /** Over every run the device list stays an exact index of the descriptor table exactly as long as
      every open is safe, and then the two "bug!" errors of the reference counts are unreachable. */
  lemma {:induction false} RunKeepsIndex(t: Tables, ops: seq<Op>)
    requires Index(t)
    ensures IndexedThroughout(t, ops) <==> SafeRun(t, ops)
    ensures SafeRun(t, ops) ==> Index(Run(t, ops)) && NoBugReported(t, ops)
    decreases |ops|
  {
    if ops != [] {
      StepKeepsIndex(t, ops[0]);
      if SafeOp(t, ops[0]) {
        RunKeepsIndex(Step(t, ops[0]).tables, ops[1..]);
      }
    }
  }

  /** Any run from an indexed registry, as the empty one is, whose opens fit the 16-bit fields is indexed
      throughout. */
  lemma {:induction false} FittingRunIndexed(t: Tables, ops: seq<Op>)
    requires Index(t)
    requires forall i :: 0 <= i < |ops| && ops[i].Open? ==> FitsFields(ops[i].a)
    ensures IndexedThroughout(t, ops) && NoBugReported(t, ops)
    decreases |ops|
  {
    if ops != [] {
      FittingIsSafe(t, ops[0]);
      StepKeepsIndex(t, ops[0]);
      FittingRunIndexed(Step(t, ops[0]).tables, ops[1..]);
    }
  }

  lemma EmptyIsIndexed()
    ensures Index(Tables([], []))
  {
  }

  /** An open of primary address 65541 after one of 5 breaks the index: two queues for address 5. */
  lemma WideOpenBreaksIndex(t: Tables)
    requires Index(t) && FindDesc(t.descs, Address(5, -1)) < |t.descs|
    requires forall i :: 0 <= i < |t.descs| ==> t.descs[i].address.pad <= MAX_ADDRESS
    ensures !Index(Step(t, Open(Address(0x1_0005, -1), false)).tables)
  {
    var wide := Address(0x1_0005, -1);
    assert Stored(wide) == Address(5, -1);
    assert FindDesc(t.descs, wide) == |t.descs|;
    StepKeepsIndex(t, Open(wide, false));
  }
}
