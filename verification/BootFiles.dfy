/** Which files a boot EEPROM can hold: the files every interrupted write of which is safe, and two
    that load without an error and do not boot. */
module BootFiles {
  import opened Memory
  import opened Merging
  import opened HexReader
  import opened HexPrinter
  import opened Target
  import opened Poking
  import opened RamLoader
  import opened EepromImage
  import opened EepromLoader

  // ---- Safe at every moment ----------------------------------------------------------------

  /** With these failures, the EEPROM is safe to boot from at every moment after the initial mark was
      written. */
  ghost predicate SafeThroughout(d: Device, faults: Faults, text: string, buf: string)
    requires |buf| == BUFFER_SIZE
  {
    var p := LoadEeprom(d, faults, text, buf, true);
    LastOutcome(Send(d, faults, RW_EEPROM, 0, [0])).Done? ==>
      forall k :: |d.log| < k <= |p.dev.log| ==>
        SafeToBoot(d.part, EepromAt(d, p.dev.log, k), p.rc, Segments(ReadAll(text, buf).records))
  }

  lemma PokeFollows(d0: Device, ctx: Context, d: Device, faults: Faults, external: bool, s: Block)
    requires ctx.EepromContext? && Follows(d0, d)
    ensures var p := EepromPoke(ctx, d, faults, external, s); Follows(d0, p.dev) && p.ctx.EepromContext?
  {
    WritesFollow(d0, ctx, d, faults, Header(s, ctx.last), s.data);
  }

  lemma WritesFollow(d0: Device, ctx: Context, d: Device, faults: Faults, header: seq<byte>, data: seq<byte>)
    requires ctx.EepromContext? && |header| == 4 && Follows(d0, d)
    ensures var p := HeaderThenData(ctx, d, faults, header, data); Follows(d0, p.dev) && p.ctx.EepromContext?
  {
    var d1 := Send(d, faults, RW_EEPROM, ctx.eeAddr, header);
    FollowsSend(d0, d, faults, RW_EEPROM, ctx.eeAddr, header);
    FollowsSend(d0, d1, faults, RW_EEPROM, ctx.eeAddr + 4, data);
  }

  lemma {:induction false} PokesFollow(d0: Device, ctx: Context, d: Device, faults: Faults, segments: seq<Block>)
    requires ctx.EepromContext? && Follows(d0, d)
    ensures var p := PokeAll(ctx, d, faults, segments); Follows(d0, p.dev) && p.ctx.EepromContext?
    decreases |segments|
  {
    if segments != [] {
      var s := segments[0];
      PokeFollows(d0, ctx, d, faults, IsExternal(d.part, s.addr, |s.data|), s);
      var p := Poke(ctx, d, faults, s);
      PokesFollow(d0, p.ctx, p.dev, faults, segments[1..]);
    }
  }

  lemma FinishFollows(d0: Device, part: Part, p: Poked, faults: Faults)
    requires p.ctx.EepromContext? && Follows(d0, p.dev)
    ensures Follows(d0, FinishImage(part, p, faults).dev)
  {
    PokeFollows(d0, p.ctx.(last := true), p.dev, faults, false, ResetRecord(part));
    var q := EepromPoke(p.ctx.(last := true), p.dev, faults, false, ResetRecord(part));
    match ExtraByte(part)
    case None =>
    case Some(x) => FollowsSend(d0, q.dev, faults, RW_EEPROM, x, [0]);
  }

  lemma ImageFollows(d0: Device, marked: Device, faults: Faults, text: string, buf: string)
    requires |buf| == BUFFER_SIZE && Follows(d0, marked)
    ensures Follows(d0, WriteImage(marked, faults, text, buf).dev)
  {
    var ctx := EepromContext(StartAddress(marked.part), false);
    PokesFollow(d0, ctx, marked, faults, PokedSegments(ReadAll(text, buf)));
    FinishFollows(d0, marked.part, ParseIhex(ctx, marked, faults, text, buf), faults);
  }

  /** Whatever its outcome, a load is the requests it logged after a device it passed through. */
  lemma LoadFollows(d0: Device, d: Device, faults: Faults, text: string, buf: string)
    requires |buf| == BUFFER_SIZE && d.part != Undefined && Follows(d0, Send(d, faults, RW_EEPROM, 0, [0]))
    ensures Follows(d0, LoadEeprom(d, faults, text, buf, true).dev)
  {
    var marked := Send(d, faults, RW_EEPROM, 0, [0]);
    ImageFollows(d0, marked, faults, text, buf);
    FollowsSend(d0, WriteImage(marked, faults, text, buf).dev, faults, RW_EEPROM, 0, [FirstByte(d.part)]);
  }

  /** Its requests taken together leave the EEPROM it leaves. */
  lemma LoadReplayed(d: Device, faults: Faults, text: string, buf: string)
    requires |buf| == BUFFER_SIZE && d.part != Undefined
    ensures var d' := LoadEeprom(d, faults, text, buf, true).dev;
            |d.log| < |d'.log| && EepromAt(d, d'.log, |d'.log|) == d'.eeprom
  {
    var marked := Send(d, faults, RW_EEPROM, 0, [0]);
    assert d.log[|d.log|..] == [] && marked.log[|marked.log|..] == [];
    FollowsSend(d, d, faults, RW_EEPROM, 0, [0]);
    LoadFollows(d, d, faults, text, buf);
    LoadFollows(marked, d, faults, text, buf);
    WholeReplay(d, LoadEeprom(d, faults, text, buf, true).dev);
  }

  lemma WholeReplay(d: Device, d': Device)
    requires Follows(d, d')
    ensures EepromAt(d, d'.log, |d'.log|) == d'.eeprom
  {
    assert d'.log[|d.log|..|d'.log|] == d'.log[|d.log|..];
  }

  /** An image that does not fit is marked and does not boot, if nothing fails. */
  lemma UnfitIsUnsafe(d: Device, faults: Faults, text: string, buf: string)
    requires |buf| == BUFFER_SIZE && d.part in {FX, FX2, FX2LP} && NoFaults(faults)
    requires ReadAll(text, buf).Code() == 0 && AllOnChip(d.part, Segments(ReadAll(text, buf).records))
    ensures var p, segments := LoadEeprom(d, faults, text, buf, true), Segments(ReadAll(text, buf).records);
            !Fits(d.part, segments) ==>
              && p.rc == 0 && Marked(d.part, p.dev.eeprom)
              && !BootsInto(d.part, p.dev.eeprom, segments)
              && !SafeThroughout(d, faults, text, buf)
  {
    var p, segments := LoadEeprom(d, faults, text, buf, true), Segments(ReadAll(text, buf).records);
    if !Fits(d.part, segments) {
      FaultlessEeprom(d, faults, text, buf, true);
      LoadedImageBoots(d, faults, text, buf, true);
      LoadReplayed(d, faults, text, buf);
      assert !SafeToBoot(d.part, EepromAt(d, p.dev.log, |p.dev.log|), p.rc, segments);
    }
  }

  /** For FX, FX2 and FX2LP, of the files that read to their end with every segment on chip, those whose
      every write is safe at every moment, with every pattern of failures, are exactly those whose image
      fits. */
  lemma SafeExactly(d: Device, text: string, buf: string)
    requires |buf| == BUFFER_SIZE && d.part in {FX, FX2, FX2LP}
    requires ReadAll(text, buf).Code() == 0 && AllOnChip(d.part, Segments(ReadAll(text, buf).records))
    ensures (forall faults: Faults :: SafeThroughout(d, faults, text, buf)) <==>
            Fits(d.part, Segments(ReadAll(text, buf).records))
  {
    assert PokedSegments(ReadAll(text, buf)) == Segments(ReadAll(text, buf).records);
    if Fits(d.part, Segments(ReadAll(text, buf).records)) {
      forall faults: Faults ensures SafeThroughout(d, faults, text, buf) {
        FittingIsSafe(d, faults, text, buf);
      }
    } else {
      UnfitIsUnsafe(d, n => Done, text, buf);
    }
  }

  lemma FittingIsSafe(d: Device, faults: Faults, text: string, buf: string)
    requires |buf| == BUFFER_SIZE && d.part in {FX, FX2, FX2LP}
    requires Fits(d.part, PokedSegments(ReadAll(text, buf)))
    ensures SafeThroughout(d, faults, text, buf)
  {
    if LastOutcome(Send(d, faults, RW_EEPROM, 0, [0])).Done? {
      var p := LoadEeprom(d, faults, text, buf, true);
      forall k | |d.log| < k <= |p.dev.log|
        ensures SafeToBoot(d.part, EepromAt(d, p.dev.log, k), p.rc, Segments(ReadAll(text, buf).records))
      {
        BootSafety(d, faults, text, buf, true, k);
      }
    }
  }

  // ---- Two files that do not boot ----------------------------------------------------------

  function Repeated(r: Block, n: nat): seq<Block> {
    if n == 0 then [] else [r] + Repeated(r, n - 1)
  }

  function RecordItems(records: seq<Block>): seq<Item> {
    seq(|records|, i requires 0 <= i < |records| => DataItem(records[i], Body(records[i])))
  }

  ghost predicate Small(records: seq<Block>) {
    forall i :: 0 <= i < |records| ==> |records[i].data| <= 249 && records[i].addr < ADDRESS_SPACE
  }

  lemma {:induction false} ItemRecords(records: seq<Block>)
    ensures Records(RecordItems(records)) == records
    decreases |records|
  {
    if records != [] {
      assert RecordItems(records)[1..] == RecordItems(records[1..]);
      ItemRecords(records[1..]);
    }
  }

  lemma ItemsPrintable(records: seq<Block>)
    requires Small(records)
    ensures forall i :: 0 <= i < |RecordItems(records)| ==> Printable(RecordItems(records)[i])
  {
    forall i | 0 <= i < |records| ensures Printable(RecordItems(records)[i]) {
      RecordPrintable(records[i]);
    }
  }

  lemma RecordPrintable(r: Block)
    requires |r.data| <= 249 && r.addr < ADDRESS_SPACE
    ensures Printable(DataItem(r, Body(r)))
  {
    BodyIsLine(r);
  }

  /** A file of small records reads as them. */
  lemma SmallRecordsRead(records: seq<Block>, buf: string)
    requires |buf| == BUFFER_SIZE && Small(records)
    ensures ReadAll(PrintAll(RecordItems(records)), buf) == Scan(records, 0)
  {
    ItemsPrintable(records);
    ItemRecords(records);
    var text := PrintAll(RecordItems(records));
    ReaderUndoesPrinter(RecordItems(records), [], buf);
    assert text + [] == text;
  }

  lemma {:induction false} RepeatedSegments(r: Block, n: nat)
    requires r.data != [] && r.addr < ADDRESS_SPACE
    ensures SegmentsFrom(Merger(false, r.addr, r.data), Repeated(r, n)) == Repeated(r, n + 1)
    decreases n
  {
    var m := Merger(false, r.addr, r.data);
    assert r == Block(r.addr, r.data);
    if n == 0 {
      assert SegmentsFrom(m, []) == [r];
      assert Repeated(r, 1) == [r] + [];
    } else {
      SegmentsCases(m, Repeated(r, n));
      assert Repeated(r, n)[1..] == Repeated(r, n - 1);
      RepeatedSegments(r, n - 1);
    }
  }

  lemma FirstAbsorbed(r: Block)
    requires r.addr < ADDRESS_SPACE
    ensures Absorb(EMPTY_MERGER, r) == Merger(false, r.addr, r.data) && Emit(EMPTY_MERGER, r) == []
  {
    assert [] + r.data == r.data;
  }

  /** Records at one address are not merged. */
  lemma RepeatedAlone(r: Block, n: nat)
    requires r.data != [] && r.addr < ADDRESS_SPACE && n > 0
    ensures Segments(Repeated(r, n)) == Repeated(r, n)
  {
    var all := Repeated(r, n);
    FirstAbsorbed(r);
    assert all[0] == r && all[1..] == Repeated(r, n - 1);
    SegmentsStep(EMPTY_MERGER, all);
    var rest := SegmentsFrom(Merger(false, r.addr, r.data), all[1..]);
    assert [] + rest == rest;
    RepeatedSegments(r, n - 1);
  }

  lemma {:induction false} RepeatedAll(r: Block, n: nat)
    ensures |Repeated(r, n)| == n && forall i :: 0 <= i < n ==> Repeated(r, n)[i] == r
    decreases n
  {
    if n > 0 {
      RepeatedAll(r, n - 1);
    }
  }

  lemma {:induction false} RepeatedImage(r: Block, n: nat)
    ensures |Image(Repeated(r, n))| == n * (4 + |r.data|)
    decreases n
  {
    if n > 0 {
      assert Repeated(r, n)[1..] == Repeated(r, n - 1);
      RepeatedImage(r, n - 1);
      assert n * (4 + |r.data|) == (n - 1) * (4 + |r.data|) + (4 + |r.data|);
    }
  }

  /** Files that load and do not boot: 260 or more records of 249 bytes at address 0, whose image has
      more than 64 KB with its headers. */
  lemma OversizedFile(d: Device, faults: Faults, r: Block, n: nat, buf: string)
    requires |buf| == BUFFER_SIZE && d.part in {FX, FX2, FX2LP} && NoFaults(faults)
    requires r.addr == 0 && |r.data| == 249 && n >= 260
    ensures var records := Repeated(r, n);
            var text := PrintAll(RecordItems(records));
            var p := LoadEeprom(d, faults, text, buf, true);
            && ReadAll(text, buf) == Scan(records, 0) && AllOnChip(d.part, Segments(records))
            && p.rc == 0 && Marked(d.part, p.dev.eeprom)
            && !BootsInto(d.part, p.dev.eeprom, records)
  {
    RepeatedAll(r, n);
    RepeatedAlone(r, n);
    RepeatedImage(r, n);
    UnfitRecords(d, faults, Repeated(r, n), buf);
  }

  lemma UnfitRecords(d: Device, faults: Faults, records: seq<Block>, buf: string)
    requires |buf| == BUFFER_SIZE && d.part in {FX, FX2, FX2LP} && NoFaults(faults)
    requires Small(records) && Segments(records) == records && AllOnChip(d.part, records) && !Fits(d.part, records)
    ensures var text := PrintAll(RecordItems(records));
            var p := LoadEeprom(d, faults, text, buf, true);
            && ReadAll(text, buf) == Scan(records, 0)
            && p.rc == 0 && Marked(d.part, p.dev.eeprom)
            && !BootsInto(d.part, p.dev.eeprom, records)
  {
    SmallRecordsRead(records, buf);
    UnfitIsUnsafe(d, faults, PrintAll(RecordItems(records)), buf);
  }

  lemma HalvesMerge(a: Block, b: Block)
    requires a.addr == 0 && b.addr == |a.data| && a.data != [] && |a.data + b.data| <= MAX_SEGMENT
    ensures Segments([a, b]) == [Block(0, a.data + b.data)]
  {
    FirstAbsorbed(a);
    assert [a, b][1..] == [b] && [b][1..] == [];
    SegmentsStep(EMPTY_MERGER, [a, b]);
    SegmentsCases(Merger(false, 0, a.data), [b]);
    assert SegmentsFrom(Merger(false, 0, a.data + b.data), []) == [Block(0, a.data + b.data)];
  }

  /** A file that loads into an AN21xx EEPROM and does not boot: two contiguous records of 128 bytes, whose
      segment of 256 has a nonzero first header byte, which the config byte overwrites. */
  lemma An21FailingFile(d: Device, faults: Faults, a: Block, b: Block, buf: string)
    requires |buf| == BUFFER_SIZE && d.part == AN21 && NoFaults(faults)
    requires a.addr == 0 && |a.data| == 128 && b.addr == 128 && |b.data| == 128
    ensures var text := PrintAll(RecordItems([a, b]));
            var p := LoadEeprom(d, faults, text, buf, true);
            && ReadAll(text, buf) == Scan([a, b], 0) && Fits(AN21, Segments([a, b]))
            && p.rc == 0 && !BootsInto(AN21, p.dev.eeprom, Segments([a, b]))
  {
    HalvesMerge(a, b);
    HalvesSmall(a, b);
    LargeFirst(d, faults, [a, b], Block(0, a.data + b.data), buf);
  }

  lemma HalvesSmall(a: Block, b: Block)
    requires |a.data| <= 249 && |b.data| <= 249 && a.addr < ADDRESS_SPACE && b.addr < ADDRESS_SPACE
    ensures Small([a, b])
  {
  }

  lemma OneSegment(s: Block)
    requires |s.data| <= MAX_SEGMENT
    ensures Fits(AN21, [s])
  {
    assert [s][1..] == [];
    assert Image([s]) == SegmentBytes(s, false) + [];
    assert |Image([s])| == 4 + |s.data|;
  }

  lemma LargeFirst(d: Device, faults: Faults, records: seq<Block>, s: Block, buf: string)
    requires |buf| == BUFFER_SIZE && d.part == AN21 && NoFaults(faults)
    requires Small(records) && Segments(records) == [s]
    requires !IsExternal(AN21, s.addr, |s.data|) && 0x100 <= |s.data| <= MAX_SEGMENT
    ensures var text := PrintAll(RecordItems(records));
            var p := LoadEeprom(d, faults, text, buf, true);
            && ReadAll(text, buf) == Scan(records, 0) && Fits(AN21, [s])
            && p.rc == 0 && !BootsInto(AN21, p.dev.eeprom, [s])
  {
    OneSegment(s);
    SmallRecordsRead(records, buf);
    LargeFails(d, faults, PrintAll(RecordItems(records)), s, buf);
  }

  lemma LargeFails(d: Device, faults: Faults, text: string, s: Block, buf: string)
    requires |buf| == BUFFER_SIZE && d.part == AN21 && NoFaults(faults)
    requires ReadAll(text, buf).Code() == 0 && Segments(ReadAll(text, buf).records) == [s]
    requires !IsExternal(AN21, s.addr, |s.data|) && |s.data| >= 0x100
    ensures var p := LoadEeprom(d, faults, text, buf, true); p.rc == 0 && !BootsInto(AN21, p.dev.eeprom, [s])
  {
    FaultlessEeprom(d, faults, text, buf, true);
    An21LoadBoots(d, faults, text, buf, true);
  }
}
