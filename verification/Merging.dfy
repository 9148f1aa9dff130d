/** How the hex reader merges consecutive data records into the segments it pokes. */
module Merging {
  import opened Memory

  const MAX_SEGMENT: nat := 1023

  /** The reader's `data_addr`, `data[..data_len]` and `first_line`. */
  datatype Merger = Merger(first: bool, addr: nat, data: seq<byte>)

  const EMPTY_MERGER := Merger(true, 0, [])

  function Begun(m: Merger, r: Block): Merger {
    if m.first then m.(first := false, addr := r.addr % ADDRESS_SPACE) else m
  }

  /** The saved data is not contiguous with the record, or has no room for it. */
  predicate MustFlush(m: Merger, r: Block) {
    m.data != [] && (r.addr != m.addr + |m.data| || |m.data| + |r.data| > MAX_SEGMENT)
  }

  function Flushed(m: Merger): seq<Block> {
    if m.data == [] then [] else [Block(m.addr, m.data)]
  }

  function Emit(m: Merger, r: Block): seq<Block> {
    if MustFlush(Begun(m, r), r) then Flushed(Begun(m, r)) else []
  }

  function Absorb(m: Merger, r: Block): Merger {
    var b := Begun(m, r);
    var base := if MustFlush(b, r) then Merger(false, r.addr % ADDRESS_SPACE, []) else b;
    base.(data := base.data + r.data)
  }

  /** The segments poked while the records are read, before the final flush. */
  function Emitted(m: Merger, records: seq<Block>): seq<Block>
    decreases |records|
  {
    if records == [] then [] else Emit(m, records[0]) + Emitted(Absorb(m, records[0]), records[1..])
  }

  function After(m: Merger, records: seq<Block>): Merger
    decreases |records|
  {
    if records == [] then m else After(Absorb(m, records[0]), records[1..])
  }

  function SegmentsFrom(m: Merger, records: seq<Block>): seq<Block> {
    Emitted(m, records) + Flushed(After(m, records))
  }

  function Segments(records: seq<Block>): seq<Block> {
    SegmentsFrom(EMPTY_MERGER, records)
  }

  ghost predicate Nonempty(records: seq<Block>) {
    forall i :: 0 <= i < |records| ==> records[i].data != []
  }

  // ---- What was poked before a failed read -------------------------------------------------

  /** Reading on only adds segments: what was poked before a failure is a prefix of the
      segmentation of any continuation of the file. */
  lemma {:induction false} EmittedIsPrefix(m: Merger, records: seq<Block>, more: seq<Block>)
    ensures Emitted(m, records) <= SegmentsFrom(m, records + more)
    decreases |records|
  {
    if records == [] {
    } else {
      assert (records + more)[1..] == records[1..] + more;
      EmittedIsPrefix(Absorb(m, records[0]), records[1..], more);
      var rest := SegmentsFrom(Absorb(m, records[0]), records[1..] + more);
      assert SegmentsFrom(m, records + more) == Emit(m, records[0]) + rest;
    }
  }

  // ---- Merging preserves meaning -----------------------------------------------------------

  /** The record's bytes, if any, are appended after saved ones or at their own address. */
  predicate InPlace(b: Merger, r: Block) {
    r.data == [] || b.data != [] || b.addr == r.addr % ADDRESS_SPACE
  }

  /** No record's bytes are appended at a stale address, where the buffer is empty and its address is
      not the record's. Checkable on record lengths and addresses. */
  predicate Aligned(m: Merger, records: seq<Block>)
    decreases |records|
  {
    records == [] ||
    (var r, b := records[0], Begun(m, records[0]);
     InPlace(b, r) && Aligned(Absorb(m, r), records[1..]))
  }

  function Pending(m: Merger): seq<ByteWrite> {
    Writes(m.addr, m.data)
  }

  lemma {:induction false} PendingIsPrefix(m: Merger, records: seq<Block>)
    requires m.first ==> m.data == []
    ensures Pending(m) <= Trace(SegmentsFrom(m, records))
    decreases |records|
  {
    if records == [] {
      assert Trace(Flushed(m)) == Pending(m);
      assert SegmentsFrom(m, records) == Flushed(m);
    } else {
      var r := records[0];
      var m' := Absorb(m, r);
      PendingIsPrefix(m', records[1..]);
      SegmentsStep(m, records);
      if !MustFlush(Begun(m, r), r) {
        WritesConcat(Begun(m, r).addr, Begun(m, r).data, r.data);
      }
    }
  }

  lemma SegmentsStep(m: Merger, records: seq<Block>)
    requires records != []
    ensures SegmentsFrom(m, records) ==
            Emit(m, records[0]) + SegmentsFrom(Absorb(m, records[0]), records[1..])
    ensures Trace(SegmentsFrom(m, records)) ==
            Trace(Emit(m, records[0])) + Trace(SegmentsFrom(Absorb(m, records[0]), records[1..]))
  {
    var rest := SegmentsFrom(Absorb(m, records[0]), records[1..]);
    assert SegmentsFrom(m, records) == Emit(m, records[0]) + rest;
    TraceConcat(Emit(m, records[0]), rest);
  }

  /** One record's contribution: `tail` stands for what the reader pokes from the next state on,
      `rest` for the byte writes of the remaining records. */
  lemma TraceStep(m: Merger, r: Block, tail: seq<ByteWrite>, rest: seq<ByteWrite>)
    requires m.first ==> m.data == []
    requires m.addr < ADDRESS_SPACE
    requires Pending(Absorb(m, r)) <= tail
    ensures Trace(Emit(m, r)) + tail == Pending(m) + (Writes(r.addr, r.data) + rest) <==>
            InPlace(Begun(m, r), r) && tail == Pending(Absorb(m, r)) + rest
  {
    if MustFlush(Begun(m, r), r) {
      FlushedStep(m, r, tail, rest);
    } else if InPlace(Begun(m, r), r) {
      PendingGrows(m, r);
      Associate(Pending(m), Writes(r.addr, r.data), rest);
      assert Trace(Emit(m, r)) + tail == tail;
    } else {
      StaleStep(m, r, tail, rest);
    }
  }

  lemma FlushedStep(m: Merger, r: Block, tail: seq<ByteWrite>, rest: seq<ByteWrite>)
    requires MustFlush(Begun(m, r), r) && (m.first ==> m.data == [])
    ensures Trace(Emit(m, r)) + tail == Pending(m) + (Writes(r.addr, r.data) + rest) <==>
            tail == Pending(Absorb(m, r)) + rest
  {
    assert Trace(Emit(m, r)) == Pending(m) + [];
    assert Pending(m) + [] == Pending(m);
    WritesWrap(r.addr, r.data);
    assert [] + r.data == r.data;
    SamePrefix(Pending(m), tail, Writes(r.addr, r.data) + rest);
  }

  /** Appended at a stale address, the first byte goes elsewhere. */
  lemma StaleStep(m: Merger, r: Block, tail: seq<ByteWrite>, rest: seq<ByteWrite>)
    requires m.addr < ADDRESS_SPACE && (m.first ==> m.data == [])
    requires !MustFlush(Begun(m, r), r) && !InPlace(Begun(m, r), r)
    requires Pending(Absorb(m, r)) <= tail
    ensures Trace(Emit(m, r)) + tail != Pending(m) + (Writes(r.addr, r.data) + rest)
  {
    assert Trace(Emit(m, r)) + tail == tail;
    assert tail[0] == Pending(Absorb(m, r))[0];
    assert tail[0].at == Begun(m, r).addr;
    assert (Pending(m) + (Writes(r.addr, r.data) + rest))[0] == Writes(r.addr, r.data)[0];
  }

  /** Appending a record in place extends the pending writes by the record's. */
  lemma PendingGrows(m: Merger, r: Block)
    requires m.first ==> m.data == []
    requires !MustFlush(Begun(m, r), r) && InPlace(Begun(m, r), r)
    ensures Pending(Absorb(m, r)) == Pending(m) + Writes(r.addr, r.data)
  {
    var b := Begun(m, r);
    WritesConcat(b.addr, b.data, r.data);
    if b.data == [] {
      WritesWrap(r.addr, r.data);
      assert Pending(m) + Writes(r.addr, r.data) == Writes(r.addr, r.data);
    }
  }

  /** The same of the segments poked from a state on, for given traces of all of them. */
  lemma TraceChain(head: seq<ByteWrite>, tail: seq<ByteWrite>, all: seq<ByteWrite>, pending: seq<ByteWrite>,
                   w: seq<ByteWrite>, rest: seq<ByteWrite>, records: seq<ByteWrite>)
    requires all == head + tail && records == w + rest
    ensures all == pending + records <==> head + tail == pending + (w + rest)
  {
  }

  lemma {:induction false} MergeTraceFrom(m: Merger, records: seq<Block>)
    requires m.first ==> m.data == []
    requires m.addr < ADDRESS_SPACE
    ensures Trace(SegmentsFrom(m, records)) == Pending(m) + Trace(records) <==> Aligned(m, records)
    decreases |records|
  {
    if records == [] {
      NothingMore(m);
    } else {
      var r, rest := records[0], records[1..];
      var tail := Trace(SegmentsFrom(Absorb(m, r), rest));
      MergeTraceFrom(Absorb(m, r), rest);
      SegmentsStep(m, records);
      PendingIsPrefix(Absorb(m, r), rest);
      TraceStep(m, r, tail, Trace(rest));
      TraceChain(Trace(Emit(m, r)), tail, Trace(SegmentsFrom(m, records)), Pending(m),
                 Writes(r.addr, r.data), Trace(rest), Trace(records));
    }
  }

  lemma NothingMore(m: Merger)
    requires m.first ==> m.data == []
    ensures Trace(SegmentsFrom(m, [])) == Pending(m) + Trace([])
  {
    assert SegmentsFrom(m, []) == Flushed(m);
    assert Trace(Flushed(m)) == Pending(m) by {
      if m.data != [] {
        assert Flushed(m)[1..] == [];
        assert Pending(m) + [] == Pending(m);
      }
    }
    assert Pending(m) + [] == Pending(m);
  }

  lemma SamePrefix<T>(p: seq<T>, a: seq<T>, b: seq<T>)
    ensures p + a == p + b <==> a == b
  {
    if p + a == p + b {
      assert a == (p + a)[|p|..] == (p + b)[|p|..] == b;
    }
  }

  /** The segments perform exactly the records' byte writes, in file order, if and only if no
      nonempty record meets an empty buffer that carries another address. */
  lemma MergeKeepsTrace(records: seq<Block>)
    ensures Trace(Segments(records)) == Trace(records) <==> Aligned(EMPTY_MERGER, records)
  {
    MergeTraceFrom(EMPTY_MERGER, records);
    assert Pending(EMPTY_MERGER) + Trace(records) == Trace(records);
  }

  lemma {:induction false} NonemptyAligned(m: Merger, records: seq<Block>)
    requires Nonempty(records)
    requires m.first || m.data != []
    ensures Aligned(m, records)
    decreases |records|
  {
    if records != [] {
      NonemptyAligned(Absorb(m, records[0]), records[1..]);
    }
  }

  /** With nonempty records, merging preserves the meaning of the file on every memory. */
  lemma MergePreservesMeaning(records: seq<Block>, memory: Contents)
    requires Nonempty(records)
    ensures Trace(Segments(records)) == Trace(records)
    ensures StoreAll(memory, Trace(Segments(records))) == StoreAll(memory, Trace(records))
  {
    NonemptyAligned(EMPTY_MERGER, records);
    MergeKeepsTrace(records);
  }

  /** A zero-length record leaves a stale address behind: here the byte meant for 0x100 is
      poked to 0. */
  lemma ZeroLengthRecordMisplaces()
    ensures var records := [Block(0, []), Block(0x100, [7])];
            Segments(records) == [Block(0, [7])] && !Aligned(EMPTY_MERGER, records)
  {
    var records := [Block(0, []), Block(0x100, [7])];
    var m := Absorb(EMPTY_MERGER, records[0]);
    assert m == Merger(false, 0, []);
    assert records[1..] == [Block(0x100, [7])];
    assert Absorb(m, records[1]) == Merger(false, 0, [7]);
    assert records[1..][1..] == [];
  }

  // ---- Where the file is split -------------------------------------------------------------

  /** The segment is these records laid end to end, within the segment limit: the last record
      fills the end of the segment and the others are laid end to end in what precedes it. */
  predicate Group(records: seq<Block>, s: Block)
    decreases |records|
  {
    var n := |records| - 1;
    records != [] && 1 <= |records[n].data| <= |s.data| <= 1023 &&
    if n == 0 then s == records[0] else
      var k := |s.data| - |records[n].data|;
      && s.data[k..] == records[n].data
      && records[n].addr == s.addr + k
      && Group(records[..n], Block(s.addr, s.data[..k]))
  }

  /** The only two reasons to start a new segment: an address gap, or no room for the record. */
  predicate Breaks(s: Block, next: Block) {
    next.addr != s.addr + |s.data| || |s.data| + |next.data| > 1023
  }

  ghost predicate FirstGroup(records: seq<Block>, s: Block, k: nat) {
    && 1 <= k <= |records|
    && Group(records[..k], s)
    && (k < |records| ==> Breaks(s, records[k]))
  }

  /** Reference definition of the segmentation of a file. */
  ghost predicate Segmentation(records: seq<Block>, segments: seq<Block>)
    decreases |segments|
  {
    if segments == [] then records == [] else
      exists k: nat :: FirstGroup(records, segments[0], k) && Segmentation(records[k..], segments[1..])
  }

  ghost predicate Fitting(records: seq<Block>) {
    forall i :: 0 <= i < |records| ==> 1 <= |records[i].data| <= 1023 && records[i].addr < 0x1_0000
  }

  lemma GroupExtends(p: seq<Block>, s: Block, r: Block)
    requires Group(p, s) && !Breaks(s, r) && r.data != []
    ensures Group(p + [r], Block(s.addr, s.data + r.data))
  {
    var q, d := p + [r], s.data + r.data;
    assert q[..|q| - 1] == p && d[..|s.data|] == s.data && d[|s.data|..] == r.data;
  }

  lemma {:induction false} GroupIsOne(records: seq<Block>, s: Block, s': Block)
    requires Group(records, s) && Group(records, s')
    ensures s == s'
    decreases |records|
  {
    var n := |records| - 1;
    if n > 0 {
      var k, k' := |s.data| - |records[n].data|, |s'.data| - |records[n].data|;
      GroupIsOne(records[..n], Block(s.addr, s.data[..k]), Block(s'.addr, s'.data[..k']));
      assert s.data == s.data[..k] + s.data[k..] && s'.data == s'.data[..k'] + s'.data[k'..];
    }
  }

  /** Within a group no record is preceded by a break. */
  lemma {:induction false} GroupPrefix(records: seq<Block>, s: Block, k: nat) returns (front: Block)
    requires Group(records, s) && 1 <= k < |records|
    ensures Group(records[..k], front) && !Breaks(front, records[k])
    decreases |records|
  {
    var n := |records| - 1;
    front := Block(s.addr, s.data[..|s.data| - |records[n].data|]);
    if k < n {
      front := GroupPrefix(records[..n], front, k);
      assert records[..n][..k] == records[..k];
    }
  }

  lemma SegmentationCons(p: seq<Block>, s: Block, rest: seq<Block>, segments: seq<Block>)
    requires Group(p, s) && Segmentation(rest, segments)
    requires rest != [] ==> Breaks(s, rest[0])
    ensures Segmentation(p + rest, [s] + segments)
  {
    var all := p + rest;
    assert all[..|p|] == p && all[|p|..] == rest && ([s] + segments)[1..] == segments;
    assert FirstGroup(all, s, |p|);
  }

  lemma SegmentsCases(m: Merger, records: seq<Block>)
    requires !m.first && m.data != [] && records != [] && records[0].addr < ADDRESS_SPACE
    ensures SegmentsFrom(m, records) ==
            if MustFlush(m, records[0])
            then [Block(m.addr, m.data)] + SegmentsFrom(Merger(false, records[0].addr, records[0].data), records[1..])
            else SegmentsFrom(Merger(false, m.addr, m.data + records[0].data), records[1..])
  {
    SegmentsStep(m, records);
    assert [] + records[0].data == records[0].data;
  }

  /** The record starts a new segment. */
  lemma SegmentationFlush(p: seq<Block>, m: Merger, records: seq<Block>)
    requires !m.first && Group(p, Block(m.addr, m.data))
    requires records != [] && records[0].addr < ADDRESS_SPACE && MustFlush(m, records[0])
    requires Segmentation(records, SegmentsFrom(Merger(false, records[0].addr, records[0].data), records[1..]))
    ensures Segmentation(p + records, SegmentsFrom(m, records))
  {
    var next := Merger(false, records[0].addr, records[0].data);
    SegmentsCases(m, records);
    SegmentationCons(p, Block(m.addr, m.data), records, SegmentsFrom(next, records[1..]));
  }

  lemma {:induction false} SegmentationFrom(p: seq<Block>, m: Merger, records: seq<Block>)
    requires !m.first && Group(p, Block(m.addr, m.data)) && Fitting(records)
    ensures Segmentation(p + records, SegmentsFrom(m, records))
    decreases |records|
  {
    if records == [] {
      assert SegmentsFrom(m, records) == [Block(m.addr, m.data)] + [];
      SegmentationCons(p, Block(m.addr, m.data), [], []);
    } else {
      var r, rest := records[0], records[1..];
      assert Fitting(rest) && 1 <= |r.data| <= MAX_SEGMENT;
      RegroupRecords(p, r, rest, records);
      if MustFlush(m, r) {
        SegmentationFrom([r], Merger(false, r.addr, r.data), rest);
        SegmentationFlush(p, m, records);
      } else {
        GroupExtends(p, Block(m.addr, m.data), r);
        SegmentationFrom(p + [r], Merger(false, m.addr, m.data + r.data), rest);
        SegmentsCases(m, records);
      }
    }
  }

  lemma RegroupRecords(p: seq<Block>, r: Block, rest: seq<Block>, records: seq<Block>)
    requires records == [r] + rest
    ensures p + [r] + rest == p + records && [r] + rest == records
  {
  }

  lemma FirstGroupUnique(records: seq<Block>, s: Block, k: nat, s': Block, k': nat)
    requires FirstGroup(records, s, k) && FirstGroup(records, s', k') && k <= k'
    ensures k == k' && s == s'
  {
    if k < k' {
      var front := GroupPrefix(records[..k'], s', k);
      assert records[..k'][..k] == records[..k];
      GroupIsOne(records[..k], s, front);
      assert false;
    }
    GroupIsOne(records[..k], s, s');
  }

  lemma {:induction false} SegmentationUnique(records: seq<Block>, a: seq<Block>, b: seq<Block>)
    requires Segmentation(records, a) && Segmentation(records, b)
    ensures a == b
    decreases |a|
  {
    if a == [] || b == [] {
      assert a == [] <==> records == [];
      assert b == [] <==> records == [];
    } else {
      var k: nat :| FirstGroup(records, a[0], k) && Segmentation(records[k..], a[1..]);
      var j: nat :| FirstGroup(records, b[0], j) && Segmentation(records[j..], b[1..]);
      if k <= j {
        FirstGroupUnique(records, a[0], k, b[0], j);
      } else {
        FirstGroupUnique(records, b[0], j, a[0], k);
      }
      SegmentationUnique(records[k..], a[1..], b[1..]);
    }
  }

  /** The poked segments are the one and only segmentation of the file's records: whole records,
      laid end to end, 1 to 1023 bytes each, split only at a gap or where the next record would
      overflow. */
  lemma SegmentsAreTheSegmentation(records: seq<Block>, segments: seq<Block>)
    requires Fitting(records)
    ensures Segmentation(records, segments) <==> segments == Segments(records)
  {
    if records == [] {
      assert Segments(records) == [];
    } else {
      var r := records[0];
      assert Absorb(EMPTY_MERGER, r) == Merger(false, r.addr, r.data);
      SegmentationFrom([r], Merger(false, r.addr, r.data), records[1..]);
      SegmentsStep(EMPTY_MERGER, records);
      assert [r] + records[1..] == records;
      assert Segments(records) == SegmentsFrom(Absorb(EMPTY_MERGER, r), records[1..]);
    }
    assert Segmentation(records, Segments(records));
    if Segmentation(records, segments) {
      SegmentationUnique(records, segments, Segments(records));
    }
  }

  /** Every segment handed to a poke function has 1 to 1023 bytes and a 16-bit address, whatever
      the records, so long as one record is at most 1023 bytes. */
  lemma {:induction false} SegmentSizes(m: Merger, records: seq<Block>)
    requires |m.data| <= MAX_SEGMENT && m.addr < ADDRESS_SPACE && (m.first ==> m.data == [])
    requires forall i :: 0 <= i < |records| ==> |records[i].data| <= MAX_SEGMENT
    ensures forall s :: s in SegmentsFrom(m, records) ==>
              1 <= |s.data| <= MAX_SEGMENT && s.addr < ADDRESS_SPACE
    decreases |records|
  {
    if records != [] {
      SegmentsStep(m, records);
      SegmentSizes(Absorb(m, records[0]), records[1..]);
    }
  }
}
