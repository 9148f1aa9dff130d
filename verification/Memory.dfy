/** Bytes, blocks of bytes at a 16-bit address, and the memories they are stored into.
    A block write is given its meaning by its trace: the single-byte writes it performs, in order.
    Two block sequences with equal traces leave every memory in the same state. */
module Memory {

  datatype Option<T> = None | Some(value: T)

  type byte = b: int | 0 <= b < 0x100

  const ADDRESS_SPACE: nat := 0x1_0000

  /** A data record of a hex file, a segment handed to a poke function, or a segment in an EEPROM. */
  datatype Block = Block(addr: nat, data: seq<byte>)

  datatype ByteWrite = ByteWrite(at: nat, value: byte)

  type Contents = map<nat, byte>

  function Writes(addr: nat, data: seq<byte>): (ws: seq<ByteWrite>)
    ensures |ws| == |data|
  {
    seq(|data|, i requires 0 <= i < |data| => ByteWrite((addr + i) % ADDRESS_SPACE, data[i]))
  }

  function Trace(blocks: seq<Block>): seq<ByteWrite> {
    if blocks == [] then [] else Writes(blocks[0].addr, blocks[0].data) + Trace(blocks[1..])
  }

  function StoreAll(m: Contents, ws: seq<ByteWrite>): Contents
    decreases |ws|
  {
    if ws == [] then m else StoreAll(m[ws[0].at := ws[0].value], ws[1..])
  }

  function Store(m: Contents, addr: nat, data: seq<byte>): Contents {
    StoreAll(m, Writes(addr, data))
  }

  function TotalLength(blocks: seq<Block>): nat {
    if blocks == [] then 0 else |blocks[0].data| + TotalLength(blocks[1..])
  }

  lemma Associate<T>(x: seq<T>, a: seq<T>, b: seq<T>)
    ensures (x + a) + b == x + (a + b)
  {
  }

  lemma {:induction false} TraceConcat(a: seq<Block>, b: seq<Block>)
    ensures Trace(a + b) == Trace(a) + Trace(b)
  {
    if a == [] {
      assert a + b == b;
    } else {
      assert (a + b)[1..] == a[1..] + b;
      TraceConcat(a[1..], b);
    }
  }

  lemma {:induction false} TraceLength(blocks: seq<Block>)
    ensures |Trace(blocks)| == TotalLength(blocks)
  {
    if blocks != [] {
      TraceLength(blocks[1..]);
    }
  }

  lemma {:induction false} TotalLengthConcat(a: seq<Block>, b: seq<Block>)
    ensures TotalLength(a + b) == TotalLength(a) + TotalLength(b)
  {
    if a == [] {
      assert a + b == b;
    } else {
      assert (a + b)[1..] == a[1..] + b;
      TotalLengthConcat(a[1..], b);
    }
  }

  lemma WritesWrap(addr: nat, data: seq<byte>)
    ensures Writes(addr % ADDRESS_SPACE, data) == Writes(addr, data)
  {
  }

  lemma WritesConcat(addr: nat, a: seq<byte>, b: seq<byte>)
    ensures Writes(addr, a + b) == Writes(addr, a) + Writes(addr + |a|, b)
  {
  }

  lemma {:induction false} StoreAllConcat(m: Contents, a: seq<ByteWrite>, b: seq<ByteWrite>)
    ensures StoreAll(m, a + b) == StoreAll(StoreAll(m, a), b)
    decreases |a|
  {
    if a == [] {
      assert a + b == b;
    } else {
      assert (a + b)[1..] == a[1..] + b;
      StoreAllConcat(m[a[0].at := a[0].value], a[1..], b);
    }
  }

  ghost predicate Touches(ws: seq<ByteWrite>, x: nat) {
    exists i :: 0 <= i < |ws| && ws[i].at == x
  }

  ghost predicate Disjoint(a: seq<ByteWrite>, b: seq<ByteWrite>) {
    forall i, j :: 0 <= i < |a| && 0 <= j < |b| ==> a[i].at != b[j].at
  }

  ghost predicate NoAddressTwice(ws: seq<ByteWrite>) {
    forall i, j :: 0 <= i < j < |ws| ==> ws[i].at != ws[j].at
  }

  lemma {:induction false} UntouchedByte(m: Contents, ws: seq<ByteWrite>, x: nat)
    requires !Touches(ws, x)
    ensures x in StoreAll(m, ws) <==> x in m
    ensures x in m ==> StoreAll(m, ws)[x] == m[x]
    decreases |ws|
  {
    if ws != [] {
      assert ws[0].at != x;
      assert !Touches(ws[1..], x);
      UntouchedByte(m[ws[0].at := ws[0].value], ws[1..], x);
    }
  }

  /** Bytes stored at distinct addresses can all be read back. */
  lemma {:induction false} StoredByte(m: Contents, ws: seq<ByteWrite>, k: nat)
    requires k < |ws| && forall j :: k < j < |ws| ==> ws[j].at != ws[k].at
    ensures ws[k].at in StoreAll(m, ws) && StoreAll(m, ws)[ws[k].at] == ws[k].value
    decreases |ws|
  {
    var m' := m[ws[0].at := ws[0].value];
    if k == 0 {
      assert !Touches(ws[1..], ws[0].at);
      UntouchedByte(m', ws[1..], ws[0].at);
    } else {
      assert ws[1..][k - 1] == ws[k];
      StoredByte(m', ws[1..], k - 1);
    }
  }

  /** The last byte a trace stores at an address. */
  function Last(ws: seq<ByteWrite>, x: nat): Option<byte>
    decreases |ws|
  {
    if ws == [] then None
    else if Last(ws[1..], x).Some? then Last(ws[1..], x)
    else if ws[0].at == x then Some(ws[0].value)
    else None
  }

  lemma {:induction false} LastConcat(a: seq<ByteWrite>, b: seq<ByteWrite>, x: nat)
    ensures Last(a + b, x) == if Last(b, x).Some? then Last(b, x) else Last(a, x)
    decreases |a|
  {
    if a == [] {
      assert a + b == b;
    } else {
      assert (a + b)[1..] == a[1..] + b;
      LastConcat(a[1..], b, x);
    }
  }

  /** What a trace leaves at an address: its last byte there, or what was there. */
  lemma {:induction false} StoredLast(m: Contents, ws: seq<ByteWrite>, x: nat)
    ensures x in StoreAll(m, ws) <==> x in m || Last(ws, x).Some?
    ensures Last(ws, x).Some? ==> StoreAll(m, ws)[x] == Last(ws, x).value
    ensures Last(ws, x).None? && x in m ==> StoreAll(m, ws)[x] == m[x]
    decreases |ws|
  {
    if ws != [] {
      StoredLast(m[ws[0].at := ws[0].value], ws[1..], x);
    }
  }

  /** Two traces that write at the same addresses leave the same memory, whatever it was before, if and
      only if they have the same last byte at each. */
  lemma SameStores(m: Contents, a: seq<ByteWrite>, b: seq<ByteWrite>)
    requires forall x: nat :: Last(a, x).Some? <==> Last(b, x).Some?
    ensures StoreAll(m, a) == StoreAll(m, b) <==> forall x: nat :: Last(a, x) == Last(b, x)
  {
    var ma, mb := StoreAll(m, a), StoreAll(m, b);
    forall x: nat
      ensures x in ma <==> x in mb
      ensures x in ma ==> (ma[x] == mb[x] <==> Last(a, x) == Last(b, x))
      ensures Last(a, x).Some? ==> x in ma
    {
      StoredLast(m, a, x);
      StoredLast(m, b, x);
    }
    if ma == mb {
      forall x: nat ensures Last(a, x) == Last(b, x) {
        assert Last(a, x).Some? ==> x in ma && ma[x] == mb[x];
      }
    } else if x: nat :| (x in ma || x in mb) && !(x in ma && x in mb && ma[x] == mb[x]) {
      assert Last(a, x) != Last(b, x);
    }
  }

  lemma {:induction false} LastTouches(ws: seq<ByteWrite>, x: nat)
    ensures Last(ws, x).Some? ==> Touches(ws, x)
    decreases |ws|
  {
    if ws != [] {
      LastTouches(ws[1..], x);
      if Last(ws[1..], x).Some? {
        var i :| 0 <= i < |ws[1..]| && ws[1..][i].at == x;
        assert ws[i + 1].at == x;
      }
    }
  }

  lemma DisjointLast(a: seq<ByteWrite>, b: seq<ByteWrite>, x: nat)
    requires Disjoint(a, b)
    ensures Last(a, x).None? || Last(b, x).None?
  {
    LastTouches(a, x);
    LastTouches(b, x);
  }

  lemma {:induction false} LastInSpace(blocks: seq<Block>, x: nat)
    ensures Last(Trace(blocks), x).Some? ==> x < ADDRESS_SPACE
    decreases |blocks|
  {
    if blocks != [] {
      LastInSpace(blocks[1..], x);
      LastConcat(Writes(blocks[0].addr, blocks[0].data), Trace(blocks[1..]), x);
      LastTouches(Writes(blocks[0].addr, blocks[0].data), x);
    }
  }
}
