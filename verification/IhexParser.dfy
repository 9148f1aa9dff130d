/** The scan of a hex file, in place: one line buffer, one segment buffer, pokes as segments fill. */
module IhexParser {
  import opened Memory
  import opened Merging
  import opened HexReader
  import opened Target
  import opened Poking
  import opened RamLoader
  import opened Firmware

  lemma Overwritten(a: string, was: string, c: char)
    requires |a| < |was|
    ensures (a + was[|a|..])[|a| := c] == a + [c] + was[|a| + 1..]
  {
  }

  /** One character more of the line is in the buffer. */
  lemma OneTaken(tail: string, was: string, n: nat, chars: string)
    requires n < |tail| && n < |was| && chars == tail[..n] + was[n..]
    ensures chars[n := tail[n]] == tail[..n + 1] + was[n + 1..]
    ensures '\n' in tail[..n + 1] <==> '\n' in tail[..n] || tail[n] == '\n'
  {
    Overwritten(tail[..n], was, tail[n]);
    assert tail[..n + 1] == tail[..n] + [tail[n]];
  }

  /** `fgets` on what is left of the file: fill the buffer with the next line and terminate it, or
      leave it alone at the end. */
  method Fgets(tail: string, buf: array<char>, size: nat) returns (n: nat)
    requires 0 < size <= buf.Length
    modifies buf
    ensures n == LineLength(tail, size - 1)
    ensures buf[..] == if n == 0 then old(buf[..]) else Filled(old(buf[..]), tail[..n])
  {
    ghost var was := buf[..];
    n := TakeCharacters(tail, buf, size - 1);
    if n > 0 {
      Overwritten(tail[..n], was, NUL);
      buf[n] := NUL;
    }
  }

  /** Its loop: up to and including a newline, at most `limit` characters. */
  method TakeCharacters(tail: string, buf: array<char>, limit: nat) returns (n: nat)
    requires limit < buf.Length
    modifies buf
    ensures n == LineLength(tail, limit)
    ensures buf[..] == tail[..n] + old(buf[..])[n..]
  {
    ghost var was := buf[..];
    n := 0;
    while n < limit && n < |tail| && tail[n] != '\n'
      invariant n <= limit && n <= |tail| && '\n' !in tail[..n]
      invariant buf[..] == tail[..n] + was[n..]
    {
      OneTaken(tail, was, n, buf[..]);
      buf[n] := tail[n];
      n := n + 1;
    }
    LineLengthIs(tail, limit, n);
    if n < limit && n < |tail| {
      OneTaken(tail, was, n, buf[..]);
      buf[n] := tail[n];
      n := n + 1;
    }
  }

  lemma StringCons(c: char, t: string)
    requires c != NUL
    ensures ([c] + t)[..StrLen([c] + t)] == [c] + t[..StrLen(t)]
  {
    assert ([c] + t)[1..] == t;
  }

  lemma {:induction false} TerminatedString(b: string, lo: nat, hi: nat)
    requires lo <= hi < |b| && b[hi] == NUL
    ensures b[lo..][..StrLen(b[lo..])] == b[lo..hi][..StrLen(b[lo..hi])]
    decreases hi - lo
  {
    if lo < hi && b[lo] != NUL {
      TerminatedString(b, lo + 1, hi);
      StringCons(b[lo], b[lo + 1..]);
      StringCons(b[lo], b[lo + 1..hi]);
      assert b[lo..] == [b[lo]] + b[lo + 1..] && b[lo..hi] == [b[lo]] + b[lo + 1..hi];
    }
  }

  /** A numeric column: a terminator is put at its end for the conversion, and the character there
      put back. */
  method ReadField(buf: array<char>, lo: nat, hi: nat) returns (v: nat)
    requires lo <= hi < buf.Length
    modifies buf
    ensures buf[..] == old(buf[..]) && v == Field(buf[..], lo, hi)
  {
    var saved := buf[hi];
    buf[hi] := NUL;
    TerminatedString(buf[..], lo, hi);
    assert buf[..][lo..hi] == old(buf[..])[lo..hi];
    v := Strtoul(buf[..][lo..][..StrLen(buf[..][lo..])]);
    buf[hi] := saved;
    assert buf[..] == old(buf[..]);
  }

  lemma {:induction false} WithoutNewlineAt(b: string, k: nat)
    requires k <= |b| && forall i :: 0 <= i < k ==> b[i] != NUL && b[i] != '\n'
    ensures k < |b| && b[k] == '\n' ==> WithoutNewline(b) == b[k := NUL]
    ensures k == |b| || b[k] == NUL ==> WithoutNewline(b) == b
    decreases k
  {
    if k > 0 {
      WithoutNewlineAt(b[1..], k - 1);
    }
  }

  /** Replace the newline of the string in the buffer, if it has one. */
  method StripNewline(buf: array<char>)
    modifies buf
    ensures buf[..] == WithoutNewline(old(buf[..]))
  {
    var k := 0;
    while k < buf.Length && buf[k] != NUL && buf[k] != '\n'
      invariant 0 <= k <= buf.Length
      invariant forall i :: 0 <= i < k ==> buf[i] != NUL && buf[i] != '\n'
    {
      k := k + 1;
    }
    WithoutNewlineAt(buf[..], k);
    if k < buf.Length && buf[k] == '\n' {
      buf[k] := NUL;
      assert buf[..] == old(buf[..])[k := NUL];
    }
  }

  /** Copy one byte of a record. */
  method CopyByte(buf: array<char>, data: array<byte>, at: nat, idx: nat)
    requires 11 + 2 * idx < buf.Length && at < data.Length
    modifies buf, data
    ensures buf[..] == old(buf[..])
    ensures data[..at + 1] == old(data[..at]) + [Field(buf[..], 9 + 2 * idx, 11 + 2 * idx) % 0x100]
  {
    var v := ReadField(buf, 9 + 2 * idx, 11 + 2 * idx);
    data[at] := v % 0x100;
    assert data[..at + 1] == data[..at] + [data[at]];
  }

  /** Append a record's data bytes to the segment buffer, up to the first access outside one of the
      two buffers. */
  method AppendData(buf: array<char>, data: array<byte>, dataLen: nat, len: nat) returns (overrun: bool)
    requires 9 < buf.Length && dataLen <= data.Length
    modifies buf, data
    ensures overrun <==> 9 + 2 * len >= buf.Length || dataLen + len > data.Length
    ensures !overrun ==> buf[..] == old(buf[..])
    ensures !overrun ==> data[..dataLen + len] == old(data[..dataLen]) + DataBytes(buf[..], len)
  {
    ghost var was := data[..dataLen];
    var idx := 0;
    while idx < len
      invariant idx <= len && 9 + 2 * idx < buf.Length && dataLen + idx <= data.Length
      invariant buf[..] == old(buf[..])
      invariant data[..dataLen + idx] == was + DataBytes(buf[..], idx)
    {
      if 11 + 2 * idx >= buf.Length || dataLen + idx >= data.Length {
        return true;
      }
      CopyByte(buf, data, dataLen + idx, idx);
      OneByteMore(buf[..], idx);
      Associate(was, DataBytes(buf[..], idx), [data[dataLen + idx]]);
      idx := idx + 1;
    }
    overrun := false;
  }

  lemma OneByteMore(b: string, idx: nat)
    requires 11 + 2 * idx <= |b|
    ensures DataBytes(b, idx + 1) == DataBytes(b, idx) + [Field(b, 9 + 2 * idx, 11 + 2 * idx) % 0x100]
  {
  }

  // ---- The scan ----------------------------------------------------------------------------

  /** In the middle of scan s0: these segments were poked, m is saved, and `rest` is still ahead. */
  ghost predicate Ahead(s0: Scan, poked: seq<Block>, m: Merger, rest: Scan) {
    s0.Code() == rest.Code() && PokedSegments(s0) == poked + PokedFrom(m, rest)
  }

  lemma PokedStep(m: Merger, r: Block, rest: Scan)
    ensures PokedFrom(m, rest.After(r)) == Emit(m, r) + PokedFrom(Absorb(m, r), rest)
  {
    var all := [r] + rest.records;
    assert all[0] == r && all[1..] == rest.records;
    var m' := Absorb(m, r);
    Associate(Emit(m, r), Emitted(m', rest.records), LastFlush(After(m', rest.records), rest));
  }

  lemma AheadStep(s0: Scan, poked: seq<Block>, m: Merger, r: Block, rest: Scan)
    requires Ahead(s0, poked, m, rest.After(r))
    ensures Ahead(s0, poked + Emit(m, r), Absorb(m, r), rest)
    ensures poked + Emit(m, r) <= PokedSegments(s0)
  {
    PokedStep(m, r, rest);
    Associate(poked, Emit(m, r), PokedFrom(Absorb(m, r), rest));
  }

  lemma AheadEnd(s0: Scan, poked: seq<Block>, m: Merger, rest: Scan)
    requires Ahead(s0, poked, m, rest) && rest.records == []
    ensures PokedSegments(s0) == poked + LastFlush(m, rest)
  {
  }

  /** For a record that fits the buffers the 64-bit room test is the merger's. */
  lemma EmitIsFlush(m: Merger, r: Block)
    requires |m.data| <= MAX_SEGMENT && |r.data| <= 250 && (m.first ==> m.data == [])
    ensures Emit(m, r) == BeyondFlush(m, r.addr, |r.data|)
  {
  }

  /** A failed poke decides the whole sequence. */
  lemma PokeFails(ctx: Context, d: Device, faults: Faults, poked: seq<Block>, s: Block, all: seq<Block>)
    requires poked + [s] <= all
    requires PokeAll(ctx, d, faults, poked).rc >= 0
    requires var p := PokeAll(ctx, d, faults, poked); Poking.Poke(p.ctx, p.dev, faults, s).rc < 0
    ensures var p := PokeAll(ctx, d, faults, poked);
            PokeAll(ctx, d, faults, all) == Poking.Poke(p.ctx, p.dev, faults, s)
  {
    assert all == poked + ([s] + all[|poked| + 1..]);
    PokeAllConcat(ctx, d, faults, poked, [s] + all[|poked| + 1..]);
  }

  lemma PokeSucceeds(ctx: Context, d: Device, faults: Faults, poked: seq<Block>, s: Block)
    ensures var p := PokeAll(ctx, d, faults, poked);
            var q := Poking.Poke(p.ctx, p.dev, faults, s);
            p.rc >= 0 && q.rc >= 0 ==> PokeAll(ctx, d, faults, poked + [s]) == Poked(q.ctx, q.dev, 0)
  {
    PokeAllConcat(ctx, d, faults, poked, [s]);
    assert [s][1..] == [];
  }

  /** Poke a segment, keeping track of what was poked since ctx0 and d0. */
  method Flush(poker: Poker, addr: nat, data: array<byte>, len: nat,
               ghost ctx0: Context, ghost d0: Device, ghost poked: seq<Block>) returns (rc: int)
    requires len <= data.Length && len <= USHRT_MAX
    requires poker.State(0) == PokeAll(ctx0, d0, poker.Dev().faults, poked)
    modifies poker.Footprint()
    ensures rc >= 0 ==> poker.State(0) == PokeAll(ctx0, d0, poker.Dev().faults, poked + [Block(addr, old(data[..len]))])
    ensures rc < 0 ==> forall all :: poked + [Block(addr, old(data[..len]))] <= all ==>
                         poker.State(rc) == PokeAll(ctx0, d0, poker.Dev().faults, all)
  {
    ghost var s := Block(addr, data[..len]);
    rc := poker.Poke(addr, data[..len]);
    if rc >= 0 {
      PokeSucceeds(ctx0, d0, poker.Dev().faults, poked, s);
    } else {
      forall all | poked + [s] <= all
        ensures poker.State(rc) == PokeAll(ctx0, d0, poker.Dev().faults, all)
      {
        PokeFails(ctx0, d0, poker.Dev().faults, poked, s, all);
      }
    }
  }

  /** What the next line asks of the scan. */
  datatype Taken = Stop(rc: int) | Skip | Record(offset: nat, len: nat)

  /** What a line, by its classification, asks of the scan. */
  ghost predicate Asked(l: Line, b: string, line: Taken)
    requires |b| == BUFFER_SIZE
  {
    match l
    case Comment => line == Skip
    case NotRecord => line == Stop(NOT_A_RECORD)
    case EndRecord => line == Stop(0)
    case BadType => line == Stop(BAD_TYPE)
    case TooShort => line == Stop(TOO_SHORT)
    case Data(r) => line.Record? && CopyFits(line.len) && r == Block(line.offset, DataBytes(b, line.len))
    case Beyond(offset, len) => line == Record(offset, len)
  }

  /** Read the columns of the line in the buffer; a record line loses its newline. */
  method ReadColumns(buf: array<char>) returns (line: Taken)
    requires buf.Length == BUFFER_SIZE && StrLen(WithoutNewline(buf[..])) < BUFFER_SIZE
    modifies buf
    ensures buf[..] == AfterLine(old(buf[..]))
    ensures Asked(Classify(old(buf[..])), buf[..], line)
  {
    if buf[0] == '#' {
      return Skip;
    }
    if buf[0] != ':' {
      return Stop(NOT_A_RECORD);
    }
    StripNewline(buf);
    var len := ReadField(buf, 1, 3);
    var offset := ReadField(buf, 3, 7);
    offset := offset % UNSIGNED;
    var kind := ReadField(buf, 7, 9);
    kind := kind % 0x100;
    line := TestRecord(buf, len, offset, kind);
  }

  /** The tests of a record line, by its columns. */
  method TestRecord(buf: array<char>, len: nat, offset: nat, kind: nat) returns (line: Taken)
    requires buf.Length == BUFFER_SIZE
    ensures Asked(ClassifyRecord(buf[..], len, offset, kind), buf[..], line)
  {
    if kind == 1 {
      return Stop(0);
    }
    if kind != 0 {
      return Stop(BAD_TYPE);
    }
    if (2 * len + 11) % ULONG > StrLen(buf[..]) {
      return Stop(TOO_SHORT);
    }
    line := Record(offset, len);
  }

  /** Take one line into the buffer and read it. */
  method TakeLine(tail: string, buf: array<char>) returns (n: nat, line: Taken)
    requires buf.Length == BUFFER_SIZE
    modifies buf
    ensures n <= |tail|
    ensures line.Stop? ==> ReadAll(tail, old(buf[..])) == Scan([], line.rc)
    ensures line.Skip? ==> n > 0 && ReadAll(tail, old(buf[..])) == ReadAll(tail[n..], buf[..])
    ensures line.Record? && CopyFits(line.len) ==>
              && n > 0 && line.len <= 250
              && ReadAll(tail, old(buf[..])) ==
                 ReadAll(tail[n..], buf[..]).After(Block(line.offset, DataBytes(buf[..], line.len)))
    ensures line.Record? && !CopyFits(line.len) ==>
              n > 0 && ReadAll(tail, old(buf[..])) == Overrun([], line.offset, line.len)
  {
    n := Fgets(tail, buf, BUFFER_SIZE);
    if n == 0 {
      return n, Stop(0);
    }
    FilledTerminates(old(buf[..]), tail[..n]);
    line := ReadColumns(buf);
    TakenIs(tail, old(buf[..]), n, buf[..], line);
  }

  lemma TakenIs(tail: string, chars: string, n: nat, b: string, line: Taken)
    requires tail != [] && |chars| == BUFFER_SIZE && n == LineLength(tail, BUFFER_SIZE - 1)
    requires b == AfterLine(Filled(chars, tail[..n])) && Asked(Classify(Filled(chars, tail[..n])), b, line)
    ensures line.Stop? ==> ReadAll(tail, chars) == Scan([], line.rc)
    ensures line.Skip? ==> ReadAll(tail, chars) == ReadAll(tail[n..], b)
    ensures line.Record? && CopyFits(line.len) ==>
              && line.len <= 250
              && ReadAll(tail, chars) == ReadAll(tail[n..], b).After(Block(line.offset, DataBytes(b, line.len)))
    ensures line.Record? && !CopyFits(line.len) ==> ReadAll(tail, chars) == Overrun([], line.offset, line.len)
  {
    FilledTerminates(chars, tail[..n]);
  }

  /** In the middle of scan s0, with this much text left and these characters in the line buffer. */
  ghost predicate MidScan(s0: Scan, poked: seq<Block>, m: Merger, tail: string, chars: string) {
    |chars| == BUFFER_SIZE && Ahead(s0, poked, m, ReadAll(tail, chars))
  }

  /** The same, for a scan in the middle: how what is ahead moves on. */
  method Advance(tail: string, buf: array<char>, ghost s0: Scan, ghost poked: seq<Block>, ghost m: Merger)
    returns (n: nat, line: Taken)
    requires buf.Length == BUFFER_SIZE && MidScan(s0, poked, m, tail, buf[..])
    requires |m.data| <= MAX_SEGMENT && (m.first ==> m.data == [])
    modifies buf
    ensures n <= |tail|
    ensures line.Stop? ==>
              s0.Code() == line.rc && PokedSegments(s0) == if line.rc == 0 then poked + Flushed(m) else poked
    ensures line.Skip? ==> n > 0 && MidScan(s0, poked, m, tail[n..], buf[..])
    ensures line.Record? ==> n > 0 && poked + BeyondFlush(m, line.offset, line.len) <= PokedSegments(s0)
    ensures line.Record? && CopyFits(line.len) ==>
              line.len <= 250 &&
              var r := Block(line.offset, DataBytes(buf[..], line.len));
              MidScan(s0, poked + BeyondFlush(m, line.offset, line.len), Absorb(m, r), tail[n..], buf[..])
    ensures line.Record? && !CopyFits(line.len) ==>
              s0.Code() == OVERRUN && PokedSegments(s0) == poked + BeyondFlush(m, line.offset, line.len)
  {
    n, line := TakeLine(tail, buf);
    match line {
      case Stop(rc) => AheadEnd(s0, poked, m, Scan([], rc));
      case Skip =>
      case Record(offset, len) =>
        if CopyFits(len) {
          ghost var r := Block(offset, DataBytes(buf[..], len));
          AheadStep(s0, poked, m, r, ReadAll(tail[n..], buf[..]));
          EmitIsFlush(m, r);
        } else {
          AheadEnd(s0, poked, m, Overrun([], offset, len));
        }
    }
  }

  /** Append a record to the saved data, flushing first what it does not extend. */
  method SaveRecord(poker: Poker, buf: array<char>, data: array<byte>, firstLine: bool, addr: nat, saved: nat,
                    offset: nat, len: nat, ghost ctx0: Context, ghost d0: Device, ghost poked: seq<Block>)
    returns (rc: int, overrun: bool, dataAddr: nat, dataLen: nat)
    requires buf !in poker.Footprint() && data !in poker.Footprint()
    requires buf.Length == BUFFER_SIZE && data.Length == MAX_SEGMENT && (CopyFits(len) ==> len <= 250)
    requires saved <= MAX_SEGMENT && (firstLine ==> saved == 0)
    requires poker.State(0) == PokeAll(ctx0, d0, poker.Dev().faults, poked)
    modifies poker.Footprint(), buf, data
    ensures var flush := BeyondFlush(Merger(firstLine, addr, old(data[..saved])), offset, len);
            && (rc < 0 ==> forall all :: poked + flush <= all ==>
                  poker.State(rc) == PokeAll(ctx0, d0, poker.Dev().faults, all))
            && (rc >= 0 ==> poker.State(0) == PokeAll(ctx0, d0, poker.Dev().faults, poked + flush))
    ensures rc >= 0 ==> (overrun <==> !CopyFits(len))
    ensures rc >= 0 && !overrun ==>
              var r := Block(offset, DataBytes(buf[..], len));
              && dataLen <= MAX_SEGMENT && buf[..] == old(buf[..])
              && Merger(false, dataAddr, data[..dataLen]) == Absorb(Merger(firstLine, addr, old(data[..saved])), r)
  {
    ghost var m := Merger(firstLine, addr, data[..saved]);
    overrun := false;
    rc, dataAddr, dataLen := FlushBefore(poker, data, firstLine, addr, saved, offset, len, ctx0, d0, poked);
    if rc < 0 {
      return;
    }
    overrun := AppendData(buf, data, dataLen, len);
    if overrun {
      return;
    }
    AbsorbIs(m, offset, DataBytes(buf[..], len));
    dataLen := dataLen + len;
  }

  lemma AbsorbIs(m: Merger, offset: nat, bytes: seq<byte>)
    requires |m.data| <= MAX_SEGMENT && |bytes| <= 250 && (m.first ==> m.data == [])
    ensures var base := Kept(m, offset, |bytes|);
            Absorb(m, Block(offset, bytes)) == Merger(false, base.addr, base.data + bytes)
  {
    EmitIsFlush(m, Block(offset, bytes));
  }

  /** What is saved once the flush before a record is done. */
  function Kept(m: Merger, offset: nat, len: nat): Merger {
    if BeyondFlush(m, offset, len) != [] then Merger(false, offset % ADDRESS_SPACE, [])
    else Merger(false, if m.first then offset % ADDRESS_SPACE else m.addr, m.data)
  }

  lemma FlushIs(m: Merger, offset: nat, len: nat, flush: seq<Block>)
    requires flush == [Block(m.addr, m.data)] || flush == []
    requires flush != [] <==>
             m.data != [] && (offset != m.addr + |m.data| || (|m.data| + len) % ULONG > MAX_SEGMENT)
    ensures BeyondFlush(m, offset, len) == flush
    ensures Kept(m, offset, len) ==
            if flush != [] then Merger(false, offset % ADDRESS_SPACE, [])
            else Merger(false, if m.first then offset % ADDRESS_SPACE else m.addr, m.data)
  {
  }

  lemma RoomTest(saved: nat, len: nat)
    requires saved <= MAX_SEGMENT
    ensures CopyFits(len) ==> (saved + len) % ULONG == saved + len && len <= MAX_SEGMENT
  {
  }

  /** The flush of saved data a record does not extend, or has no room after. */
  method FlushBefore(poker: Poker, data: array<byte>, firstLine: bool, addr: nat, saved: nat, offset: nat, len: nat,
                     ghost ctx0: Context, ghost d0: Device, ghost poked: seq<Block>)
    returns (rc: int, dataAddr: nat, dataLen: nat)
    requires data !in poker.Footprint() && data.Length == MAX_SEGMENT
    requires saved <= MAX_SEGMENT && (firstLine ==> saved == 0)
    requires poker.State(0) == PokeAll(ctx0, d0, poker.Dev().faults, poked)
    modifies poker.Footprint()
    ensures var m := Merger(firstLine, addr, data[..saved]);
            var flush := BeyondFlush(m, offset, len);
            && (rc < 0 ==> forall all :: poked + flush <= all ==>
                  poker.State(rc) == PokeAll(ctx0, d0, poker.Dev().faults, all))
            && (rc >= 0 ==>
                  && poker.State(0) == PokeAll(ctx0, d0, poker.Dev().faults, poked + flush)
                  && dataLen <= MAX_SEGMENT && Merger(false, dataAddr, data[..dataLen]) == Kept(m, offset, len)
                  && (CopyFits(len) ==> dataLen + len <= MAX_SEGMENT))
  {
    rc, dataAddr, dataLen := 0, addr, saved;
    RoomTest(saved, len);
    if firstLine {
      dataAddr := offset % ADDRESS_SPACE;
    }
    ghost var m := Merger(firstLine, addr, data[..saved]);
    if dataLen != 0 && (offset != dataAddr + dataLen || (dataLen + len) % ULONG > MAX_SEGMENT) {
      FlushIs(m, offset, len, [Block(dataAddr, data[..dataLen])]);
      rc := Flush(poker, dataAddr, data, dataLen, ctx0, d0, poked);
      dataAddr := offset % ADDRESS_SPACE;
      dataLen := 0;
    } else {
      FlushIs(m, offset, len, []);
      assert poked + [] == poked;
    }
  }

  lemma ScanResult(ctx0: Context, d0: Device, faults: Faults, text: string, junk: string, p: Poked)
    requires |junk| == BUFFER_SIZE && p == PokeAll(ctx0, d0, faults, PokedSegments(ReadAll(text, junk)))
    ensures RamLoader.ParseIhex(ctx0, d0, faults, text, junk) ==
            Poked(p.ctx, p.dev, if p.rc < 0 then -1 else ReadAll(text, junk).Code())
  {
  }

  /** `parse_ihex`. The line buffer starts with whatever `junk` the stack holds. */
  method ParseIhex(text: string, poker: Poker) returns (rc: int, ghost junk: string)
    modifies poker.Footprint()
    ensures |junk| == BUFFER_SIZE
    ensures poker.State(rc) ==
            RamLoader.ParseIhex(old(poker.View()), old(poker.Dev().View()), poker.Dev().faults, text, junk)
  {
    var buf := new char[BUFFER_SIZE];
    junk := buf[..];
    ghost var p := PokeAll(poker.View(), poker.Dev().View(), poker.Dev().faults, PokedSegments(ReadAll(text, junk)));
    ScanResult(poker.View(), poker.Dev().View(), poker.Dev().faults, text, junk, p);
    rc := ScanAndPoke(text, poker, buf, ReadAll(text, junk), poker.View(), poker.Dev().View());
  }

  /** Flush any data remaining: the last poke of a scan that did not fail. */
  method FinalFlush(poker: Poker, addr: nat, data: array<byte>, len: nat,
                    ghost ctx0: Context, ghost d0: Device, ghost poked: seq<Block>, ghost all: seq<Block>)
    returns (rc: int)
    requires len <= data.Length && len <= USHRT_MAX
    requires poker.State(0) == PokeAll(ctx0, d0, poker.Dev().faults, poked)
    requires all == poked + Flushed(Merger(false, addr, data[..len]))
    modifies poker.Footprint()
    ensures Ended(poker.State(rc), PokeAll(ctx0, d0, poker.Dev().faults, all), 0)
  {
    rc := 0;
    if len != 0 {
      rc := Flush(poker, addr, data, len, ctx0, d0, poked);
      rc := if rc < 0 then -1 else 0;
    } else {
      assert all == poked;
    }
  }

  /** How a scan whose reading ends with `code` reports on its pokes p. */
  ghost predicate Ended(state: Poked, p: Poked, code: int) {
    state == Poked(p.ctx, p.dev, if p.rc < 0 then -1 else code)
  }

  /** One line of the scan: the loop body. A record copied from beyond the buffers ends it. */
  method OneLine(tail: string, poker: Poker, buf: array<char>, data: array<byte>,
                 firstLine: bool, addr: nat, saved: nat,
                 ghost s0: Scan, ghost ctx0: Context, ghost d0: Device, ghost poked: seq<Block>)
    returns (tail': string, line: Taken, rc: int, first: bool, dataAddr: nat, dataLen: nat, ghost poked': seq<Block>)
    requires buf.Length == BUFFER_SIZE && data.Length == MAX_SEGMENT
    requires buf !in poker.Footprint() && data !in poker.Footprint()
    requires saved <= MAX_SEGMENT && (firstLine ==> saved == 0)
    requires MidScan(s0, poked, Merger(firstLine, addr, data[..saved]), tail, buf[..])
    requires poker.State(0) == PokeAll(ctx0, d0, poker.Dev().faults, poked)
    modifies poker.Footprint(), buf, data
    ensures dataLen <= MAX_SEGMENT && (!line.Stop? ==> |tail'| < |tail|) && (first ==> dataLen == 0)
    ensures line.Stop? ==>
              && s0.Code() == line.rc && rc >= 0
              && PokedSegments(s0) ==
                 if line.rc == 0 then poked' + Flushed(Merger(false, dataAddr, data[..dataLen])) else poked'
    ensures rc < 0 ==> poker.State(rc) == PokeAll(ctx0, d0, poker.Dev().faults, PokedSegments(s0))
    ensures rc >= 0 ==> poker.State(0) == PokeAll(ctx0, d0, poker.Dev().faults, poked')
    ensures rc >= 0 && !line.Stop? ==> MidScan(s0, poked', Merger(first, dataAddr, data[..dataLen]), tail', buf[..])
  {
    ghost var m := Merger(firstLine, addr, data[..saved]);
    var n;
    n, line := Advance(tail, buf, s0, poked, m);
    tail' := tail[n..];
    rc, first, dataAddr, dataLen, poked' := 0, firstLine, addr, saved, poked;
    if line.Record? {
      first := false;
      poked' := poked + BeyondFlush(m, line.offset, line.len);
      var overrun;
      rc, overrun, dataAddr, dataLen :=
        SaveRecord(poker, buf, data, firstLine, addr, saved, line.offset, line.len, ctx0, d0, poked);
      if rc < 0 {
        dataLen := 0;
      } else if overrun {
        line, dataLen := Stop(OVERRUN), 0;
      }
    }
  }

  /** The body of the scan, once the line buffer exists. */
  method ScanAndPoke(text: string, poker: Poker, buf: array<char>,
                     ghost s0: Scan, ghost ctx0: Context, ghost d0: Device)
    returns (rc: int)
    requires buf.Length == BUFFER_SIZE && buf !in poker.Footprint()
    requires s0 == ReadAll(text, buf[..]) && poker.State(0) == Poked(ctx0, d0, 0)
    modifies poker.Footprint(), buf
    ensures Ended(poker.State(rc), PokeAll(ctx0, d0, poker.Dev().faults, PokedSegments(s0)), s0.Code())
  {
    ghost var poked: seq<Block> := [];
    var data := new byte[MAX_SEGMENT];
    assert data !in poker.Footprint();
    var dataAddr: nat, dataLen: nat, firstLine := 0, 0, true;
    var tail := text;
    while true
      invariant dataLen <= MAX_SEGMENT && (firstLine ==> dataLen == 0)
      invariant MidScan(s0, poked, Merger(firstLine, dataAddr, data[..dataLen]), tail, buf[..])
      invariant poker.State(0) == PokeAll(ctx0, d0, poker.Dev().faults, poked)
      decreases |tail|
    {
      var line: Taken;
      tail, line, rc, firstLine, dataAddr, dataLen, poked :=
        OneLine(tail, poker, buf, data, firstLine, dataAddr, dataLen, s0, ctx0, d0, poked);
      if rc < 0 {
        return -1;
      }
      if line.Stop? {
        if line.rc != 0 {
          return line.rc;
        }
        break;
      }
    }
    rc := FinalFlush(poker, dataAddr, data, dataLen, ctx0, d0, poked, PokedSegments(s0));
  }
}
