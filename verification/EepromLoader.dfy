/** Writing a boot EEPROM: interrupted at any moment, it never looks bootable unless it boots into
    the whole image. */
module EepromLoader {
  import opened Memory
  import opened Merging
  import opened HexReader
  import opened Target
  import opened Poking
  import opened RamLoader
  import opened EepromImage

  // ---- The loader --------------------------------------------------------------------------

  function StartAddress(part: Part): nat {
    match part
    case FX2 => 8
    case FX2LP => 8
    case FX => 9
    case _ => 7
  }

  function FirstByte(part: Part): byte {
    match part
    case FX2 => 0xC2
    case FX2LP => 0xC2
    case FX => 0xB6
    case _ => 0xB2
  }

  /** The record that resets the CPU after a boot load. */
  function ResetRecord(part: Part): Block {
    Block(Cpucs(part), [0])
  }

  /** The byte some parts get before the boot mark: a config byte at 7, or a reserved one at 8. */
  function ExtraByte(part: Part): Option<nat> {
    match part
    case AN21 => Some(7)
    case FX => Some(8)
    case _ => None
  }

  /** The loader between the two writes of byte 0: scan, reset record, extra byte. */
  function WriteImage(d: Device, faults: Faults, text: string, buf: string): Poked
    requires |buf| == BUFFER_SIZE
  {
    var p := ParseIhex(EepromContext(StartAddress(d.part), false), d, faults, text, buf);
    if p.rc != 0 then p else FinishImage(d.part, p, faults)
  }

  /** The reset record and the extra byte. */
  function FinishImage(part: Part, p: Poked, faults: Faults): Poked
    requires p.ctx.EepromContext?
  {
    var q := EepromPoke(p.ctx.(last := true), p.dev, faults, false, ResetRecord(part));
    if q.rc < 0 then q else WithExtra(part, q, faults)
  }

  function WithExtra(part: Part, q: Poked, faults: Faults): Poked {
    match ExtraByte(part)
    case None => q
    case Some(x) =>
      var d' := Send(q.dev, faults, RW_EEPROM, x, [0]);
      Poked(q.ctx, d', if LastOutcome(d').Failed? then -1 else 0)
  }

  /** `ezusb_load_eeprom` on an opened file; `large` is whether the device reported an EEPROM with
      16-bit addresses. */
  function LoadEeprom(d: Device, faults: Faults, text: string, buf: string, large: bool): Poked
    requires |buf| == BUFFER_SIZE
  {
    var ctx := EepromContext(StartAddress(d.part), false);
    if !large || d.part == Undefined then Poked(ctx, d, -1) else
      var marked := Send(d, faults, RW_EEPROM, 0, [0]);
      if LastOutcome(marked).Failed? then Poked(ctx, marked, -1) else
        var q := WriteImage(marked, faults, text, buf);
        if q.rc != 0 then q else
          var d' := Send(q.dev, faults, RW_EEPROM, 0, [FirstByte(d.part)]);
          Poked(q.ctx, d', if LastOutcome(d').Failed? then -1 else 0)
  }

  // ---- The image ---------------------------------------------------------------------------

  /** The bytes of a whole boot image: the segments and the reset record marked last. */
  function FullImage(part: Part, segments: seq<Block>): seq<byte> {
    Image(segments) + SegmentBytes(ResetRecord(part), true)
  }

  /** The image fits the 64 KB of 16-bit EEPROM addresses. */
  predicate Fits(part: Part, segments: seq<Block>) {
    StartAddress(part) + |FullImage(part, segments)| <= ADDRESS_SPACE
  }

  function WithExtraByte(part: Part, ee: Contents): Contents {
    match ExtraByte(part) case None => ee case Some(x) => Store(ee, x, [0])
  }

  /** An EEPROM with a whole image and the extra byte. */
  function WithFullImage(part: Part, ee: Contents, segments: seq<Block>): Contents {
    WithExtraByte(part, Store(ee, StartAddress(part), FullImage(part, segments)))
  }

  /** The reset record completes the image. */
  lemma ResetPoked(d: Device, p: Poked, faults: Faults, segments: seq<Block>)
    requires d.part != Undefined && Fits(d.part, segments) && p.rc >= 0
    requires ImageWritten(d, 7, EepromContext(StartAddress(d.part), false), d, p, Image(segments))
    ensures var q := EepromPoke(p.ctx.(last := true), p.dev, faults, false, ResetRecord(d.part));
            && SentAbove(d, q.dev, 7) && q.dev.part == d.part
            && (q.rc >= 0 ==> q.dev.eeprom == Store(d.eeprom, StartAddress(d.part), FullImage(d.part, segments)))
  {
    PokeWritesSegment(d, 7, p.ctx.(last := true), p.dev, faults, false, ResetRecord(d.part));
    StoreConcat(d.eeprom, StartAddress(d.part), Image(segments), SegmentBytes(ResetRecord(d.part), true));
  }

  lemma ExtraByteSent(d: Device, q: Poked, faults: Faults)
    requires SentAbove(d, q.dev, 7) && q.dev.part == d.part && q.rc >= 0
    ensures var p := WithExtra(d.part, q, faults);
            && SentAbove(d, p.dev, 7) && p.dev.part == d.part
            && (p.rc == 0 ==> p.dev.eeprom == WithExtraByte(d.part, q.dev.eeprom))
  {
    match ExtraByte(d.part)
    case None =>
    case Some(x) =>
      SendAbove(d, q.dev, 7, faults, x, [0]);
      SendWrites(q.dev, faults, x, [0]);
  }

  lemma ImageFinished(d: Device, p: Poked, faults: Faults, segments: seq<Block>)
    requires d.part != Undefined && Fits(d.part, segments) && p.rc >= 0
    requires ImageWritten(d, 7, EepromContext(StartAddress(d.part), false), d, p, Image(segments))
    ensures var q := FinishImage(d.part, p, faults);
            && SentAbove(d, q.dev, 7) && q.dev.part == d.part
            && (q.rc == 0 ==>
                  q.dev.eeprom == WithFullImage(d.part, d.eeprom, segments))
  {
    ResetPoked(d, p, faults, segments);
    var q := EepromPoke(p.ctx.(last := true), p.dev, faults, false, ResetRecord(d.part));
    if q.rc >= 0 {
      ExtraByteSent(d, q, faults);
    }
  }

  /** Until the boot mark only bytes above the mark are written; a complete image is in place. */
  lemma ImageComplete(d: Device, faults: Faults, text: string, buf: string)
    requires |buf| == BUFFER_SIZE && d.part != Undefined
    requires Fits(d.part, PokedSegments(ReadAll(text, buf)))
    ensures var q, s := WriteImage(d, faults, text, buf), ReadAll(text, buf);
            && SentAbove(d, q.dev, 7) && q.dev.part == d.part
            && (q.rc == 0 ==>
                  && s.Code() == 0
                  && q.dev.eeprom == WithFullImage(d.part, d.eeprom, Segments(s.records)))
  {
    var ctx := EepromContext(StartAddress(d.part), false);
    var segments := PokedSegments(ReadAll(text, buf));
    ScanSegmentsSized(text, buf);
    assert d.log[|d.log|..] == [];
    PokeAllWritesImage(d, 7, ctx, d, faults, segments);
    var p := ParseIhex(ctx, d, faults, text, buf);
    if p.rc == 0 {
      ImageFinished(d, p, faults, segments);
    }
  }

  /** From where a part's boot looks for it, the EEPROM decodes to this image and then a write of 0 to
      the part's CPUCS register; on an FX after a reserved byte of 0. */
  predicate BootsInto(part: Part, ee: Contents, segments: seq<Block>) {
    match part
    case FX2 => Decode(ee, 8) == Some(segments + [Block(0xe600, [0])])
    case FX2LP => Decode(ee, 8) == Some(segments + [Block(0xe600, [0])])
    case FX => Decode(ee, 9) == Some(segments + [Block(0x7f92, [0])]) && 8 in ee && ee[8] == 0
    case _ => Decode(ee, 7) == Some(segments + [Block(0x7f92, [0])])
  }

  /** Byte 0 tells the part to boot from this EEPROM, by its own code for that. */
  predicate Marked(part: Part, ee: Contents) {
    0 in ee && ee[0] == match part case FX2 => 0xC2 case FX2LP => 0xC2 case FX => 0xB6 case _ => 0xB2
  }

  lemma HoldsAcross(ee: Contents, start: nat, bytes: seq<byte>, x: nat, v: byte)
    requires x < start && start + |bytes| <= ADDRESS_SPACE && Holds(ee, start, bytes)
    ensures Holds(Store(ee, x, [v]), start, bytes)
  {
    forall y | start <= y < start + |bytes| ensures y in Store(ee, x, [v]) && Store(ee, x, [v])[y] == ee[y] {
      StoreElsewhere(ee, x, [v], y);
    }
    assert Slice(Store(ee, x, [v]), start, |bytes|) == Slice(ee, start, |bytes|);
  }

  lemma CompleteImageBoots(part: Part, ee: Contents, segments: seq<Block>, mark: byte)
    requires part in {FX, FX2, FX2LP} && Sized(segments) && Fits(part, segments)
    ensures BootsInto(part, Store(WithFullImage(part, ee, segments), 0, [mark]), segments)
  {
    var start, full := StartAddress(part), FullImage(part, segments);
    var ee1 := Store(ee, start, full);
    StoreHolds(ee, start, full);
    if part == FX {
      HoldsAcross(ee1, start, full, 8, 0);
    }
    HoldsAcross(WithExtraByte(part, ee1), start, full, 0, mark);
    if part == FX {
      MarkedAt(ee1, 8, 0);
      StoreElsewhere(WithExtraByte(part, ee1), 0, [mark], 8);
    }
    DecodeUndoesLayout(Store(WithExtraByte(part, ee1), 0, [mark]), start, segments, ResetRecord(part));
  }

  // ---- Boot safety -------------------------------------------------------------------------

  lemma {:induction false} PayloadKeepsMark(d: Device, requests: seq<Request>)
    requires forall i :: 0 <= i < |requests| ==> Payload(requests[i], 7)
    ensures Replay(d, requests).part == d.part
    ensures 0 in Replay(d, requests).eeprom <==> 0 in d.eeprom
    ensures 0 in d.eeprom ==> Replay(d, requests).eeprom[0] == d.eeprom[0]
    decreases |requests|
  {
    if requests != [] {
      var r := requests[0];
      StoreElsewhere(d.eeprom, r.addr, r.data, 0);
      PayloadKeepsMark(Perform(d, r), requests[1..]);
    }
  }

  /** What the EEPROM holds if the run of the loader stops after its first k requests. */
  function EepromAt(d: Device, log: seq<Request>, k: nat): Contents
    requires |d.log| <= k <= |log|
  {
    Replay(d, log[|d.log|..k]).eeprom
  }

  lemma MarkStored(ee: Contents, v: byte)
    ensures 0 in Store(ee, 0, [v]) && Store(ee, 0, [v])[0] == v
  {
    StoredByte(ee, Writes(0, [v]), 0);
  }

  /** Stopped after any number of requests between the two writes of byte 0, the EEPROM says not to
      boot from it. */
  lemma UnmarkedMeanwhile(d: Device, marked: Device, faults: Faults, d': Device, k: nat)
    requires marked == Send(d, faults, RW_EEPROM, 0, [0]) && LastOutcome(marked).Done?
    requires SentAbove(marked, d', 7) && |d.log| < k <= |d'.log|
    ensures d.log <= d'.log && 0 in EepromAt(d, d'.log, k) && EepromAt(d, d'.log, k)[0] == 0
  {
    var n := |d.log|;
    assert marked.log == d.log + [d'.log[n]];
    assert d'.log[n..k] == [d'.log[n]] + d'.log[n + 1..k];
    MarkStored(d.eeprom, 0);
    var rest := d'.log[n + 1..k];
    assert forall i :: 0 <= i < |rest| ==> rest[i] == d'.log[n + 1 + i];
    PayloadKeepsMark(marked, rest);
    assert Replay(d, [d'.log[n]] + rest) == Replay(marked, rest);
  }

  lemma ReplayWhole(d: Device, marked: Device, faults: Faults, d': Device)
    requires marked == Send(d, faults, RW_EEPROM, 0, [0]) && SentAbove(marked, d', 7)
    ensures Follows(d, d')
  {
    var n := |d.log|;
    assert marked.log == d.log + [d'.log[n]];
    assert d'.log[n..] == [d'.log[n]] + d'.log[n + 1..];
  }

  /** The run up to the boot mark, and the boot mark. */
  lemma LoadSteps(d: Device, faults: Faults, text: string, buf: string, large: bool) returns (marked: Device, q: Poked)
    requires |buf| == BUFFER_SIZE && d.part != Undefined && large
    requires LastOutcome(Send(d, faults, RW_EEPROM, 0, [0])).Done?
    ensures marked == Send(d, faults, RW_EEPROM, 0, [0]) && marked.part == d.part
    ensures q == WriteImage(marked, faults, text, buf)
    ensures var p := LoadEeprom(d, faults, text, buf, large);
            var d' := Send(q.dev, faults, RW_EEPROM, 0, [FirstByte(d.part)]);
            p == if q.rc != 0 then q else Poked(q.ctx, d', if LastOutcome(d').Failed? then -1 else 0)
  {
    marked := Send(d, faults, RW_EEPROM, 0, [0]);
    q := WriteImage(marked, faults, text, buf);
  }

  /** The EEPROM is unmarked, or marked and complete. */
  predicate SafeToBoot(part: Part, ee: Contents, rc: int, segments: seq<Block>) {
    0 in ee && (ee[0] != 0 ==> rc == 0 && Marked(part, ee) && BootsInto(part, ee, segments))
  }

  /** The boot mark goes onto a complete image. */
  lemma MarkedComplete(d: Device, faults: Faults, text: string, buf: string, q: Poked)
    requires |buf| == BUFFER_SIZE && d.part in {FX, FX2, FX2LP}
    requires Fits(d.part, PokedSegments(ReadAll(text, buf)))
    requires q == WriteImage(d, faults, text, buf) && q.rc == 0
    ensures var e := Store(q.dev.eeprom, 0, [FirstByte(d.part)]);
            0 in e && e[0] == FirstByte(d.part) && Marked(d.part, e)
            && BootsInto(d.part, e, Segments(ReadAll(text, buf).records))
  {
    ImageComplete(d, faults, text, buf);
    MarkStored(q.dev.eeprom, FirstByte(d.part));
    ScanSegmentsSized(text, buf);
    CompleteImageBoots(d.part, d.eeprom, Segments(ReadAll(text, buf).records), FirstByte(d.part));
  }

  /** The state after the boot mark was attempted. */
  lemma MarkAttempted(d: Device, marked: Device, faults: Faults, text: string, buf: string, q: Poked)
    requires |buf| == BUFFER_SIZE && d.part in {FX, FX2, FX2LP} && marked.part == d.part
    requires Fits(d.part, PokedSegments(ReadAll(text, buf)))
    requires marked == Send(d, faults, RW_EEPROM, 0, [0]) && LastOutcome(marked).Done?
    requires q == WriteImage(marked, faults, text, buf) && q.rc == 0
    ensures var d' := Send(q.dev, faults, RW_EEPROM, 0, [FirstByte(d.part)]);
            var rc := if LastOutcome(d').Failed? then -1 else 0;
            && SafeToBoot(d.part, d'.eeprom, rc, Segments(ReadAll(text, buf).records))
            && (rc == 0 ==> d'.eeprom[0] != 0)
  {
    ImageComplete(marked, faults, text, buf);
    SendWrites(q.dev, faults, 0, [FirstByte(d.part)]);
    MarkedComplete(marked, faults, text, buf, q);
    LastRequest(d, marked, faults, q.dev);
    UnmarkedMeanwhile(d, marked, faults, q.dev, |q.dev.log|);
  }

  /** For FX, FX2 and FX2LP, every file whose image fits, every pattern of failures and every moment
      after the initial mark was written, up to an access outside the scan's buffers: if byte 0 is not
      zero, the load has succeeded and the EEPROM decodes to all segments of the file followed by the
      reset record. */
  lemma BootSafety(d: Device, faults: Faults, text: string, buf: string, large: bool, k: nat)
    requires |buf| == BUFFER_SIZE && d.part in {FX, FX2, FX2LP} && large
    requires Fits(d.part, PokedSegments(ReadAll(text, buf)))
    requires LastOutcome(Send(d, faults, RW_EEPROM, 0, [0])).Done?
    ensures var p := LoadEeprom(d, faults, text, buf, large);
            |d.log| < k <= |p.dev.log| ==>
              var e := EepromAt(d, p.dev.log, k);
              && SafeToBoot(d.part, e, p.rc, Segments(ReadAll(text, buf).records))
              && (e[0] != 0 ==> k == |p.dev.log|)
              && (p.rc == 0 && k == |p.dev.log| ==> e[0] != 0)
  {
    var p := LoadEeprom(d, faults, text, buf, large);
    if |d.log| < k <= |p.dev.log| {
      var marked, q := LoadSteps(d, faults, text, buf, large);
      ImageComplete(marked, faults, text, buf);
      var e, segments := EepromAt(d, p.dev.log, k), Segments(ReadAll(text, buf).records);
      if k <= |q.dev.log| {
        SameSlice(q.dev.log, p.dev.log, |d.log|, k);
        UnmarkedMeanwhile(d, marked, faults, q.dev, k);
        UnmarkedIsSafe(d.part, e, p.rc, segments);
      } else {
        LastRequest(d, marked, faults, q.dev);
        MarkAttempted(d, marked, faults, text, buf, q);
        var d' := Send(q.dev, faults, RW_EEPROM, 0, [FirstByte(d.part)]);
        WholeLog(d, p.dev, d', k);
      }
    }
  }

  lemma SameSlice<T>(a: seq<T>, b: seq<T>, n: nat, k: nat)
    requires a <= b && n <= k <= |a|
    ensures a[n..k] == b[n..k]
  {
  }

  lemma WholeLog(d: Device, d1: Device, d2: Device, k: nat)
    requires d1 == d2 && d.log <= d2.log && |d.log| <= k == |d2.log|
    requires EepromAt(d, d2.log, |d2.log|) == d2.eeprom
    ensures EepromAt(d, d1.log, k) == d2.eeprom
  {
  }

  lemma UnmarkedIsSafe(part: Part, e: Contents, rc: int, segments: seq<Block>)
    requires 0 in e && e[0] == 0
    ensures SafeToBoot(part, e, rc, segments)
  {
  }

  lemma LastRequest(d: Device, marked: Device, faults: Faults, d': Device)
    requires marked == Send(d, faults, RW_EEPROM, 0, [0]) && SentAbove(marked, d', 7)
    ensures var d'' := Send(d', faults, RW_EEPROM, 0, [FirstByte(d.part)]);
            && d.log <= d''.log && EepromAt(d, d''.log, |d''.log|) == d''.eeprom
            && d.log <= d'.log && EepromAt(d, d'.log, |d'.log|) == d'.eeprom
  {
    ReplayWhole(d, marked, faults, d');
    FollowsSend(d, d', faults, RW_EEPROM, 0, [FirstByte(d.part)]);
    var d'' := Send(d', faults, RW_EEPROM, 0, [FirstByte(d.part)]);
    assert d''.log[|d.log|..|d''.log|] == d''.log[|d.log|..];
    assert d'.log[|d.log|..|d'.log|] == d'.log[|d.log|..];
  }

  // ---- Successful loads of any size --------------------------------------------------------

  function ExtraWrites(part: Part): seq<ByteWrite> {
    match ExtraByte(part) case None => [] case Some(x) => Writes(x, [0])
  }

  function ImageTrace(part: Part, segments: seq<Block>): seq<ByteWrite> {
    Writes(StartAddress(part), FullImage(part, segments)) + ExtraWrites(part)
  }

  /** Every byte a successful load writes, in order. */
  function LoadTrace(part: Part, segments: seq<Block>): seq<ByteWrite> {
    Writes(0, [0]) + ImageTrace(part, segments) + Writes(0, [FirstByte(part)])
  }

  lemma ExtraTraced(d: Device, q: Poked, faults: Faults, ws: seq<ByteWrite>)
    requires Traced(d, q.dev, ws)
    ensures var p := WithExtra(d.part, q, faults);
            p.rc == 0 ==> Traced(d, p.dev, ws + ExtraWrites(d.part))
  {
    match ExtraByte(d.part)
    case None => assert ws + [] == ws;
    case Some(x) =>
      var d2 := Send(q.dev, faults, RW_EEPROM, x, [0]);
      SendTraced(q.dev, faults, x, [0]);
      if LastOutcome(d2).Done? {
        TracedChains(d, q.dev, d2, ws, Writes(x, [0]));
      }
  }

  lemma ImageTraced(d: Device, faults: Faults, text: string, buf: string)
    requires |buf| == BUFFER_SIZE && d.part != Undefined
    ensures var q, s := WriteImage(d, faults, text, buf), ReadAll(text, buf);
            q.rc == 0 ==> s.Code() == 0 && Traced(d, q.dev, ImageTrace(d.part, Segments(s.records)))
  {
    var ctx, segments := EepromContext(StartAddress(d.part), false), PokedSegments(ReadAll(text, buf));
    ImageLaid(ctx, d, faults, segments);
    var p := ParseIhex(ctx, d, faults, text, buf);
    if p.rc == 0 {
      FinishTraced(d, ctx, p, faults, segments);
    }
  }

  lemma FinishTraced(d: Device, ctx: Context, p: Poked, faults: Faults, segments: seq<Block>)
    requires ctx.EepromContext? && p.ctx.EepromContext? && p.rc >= 0 && Laid(ctx, d, p, Image(segments))
    ensures var q := FinishImage(d.part, p, faults);
            q.rc == 0 ==> Traced(d, q.dev, Writes(ctx.eeAddr, FullImage(d.part, segments)) + ExtraWrites(d.part))
  {
    ResetLaid(d, ctx, p, faults, segments);
    var q := EepromPoke(p.ctx.(last := true), p.dev, faults, false, ResetRecord(d.part));
    if q.rc >= 0 {
      ExtraTraced(d, q, faults, Writes(ctx.eeAddr, FullImage(d.part, segments)));
    }
  }

  lemma ResetLaid(d: Device, ctx: Context, p: Poked, faults: Faults, segments: seq<Block>)
    requires ctx.EepromContext? && p.ctx.EepromContext? && p.rc >= 0 && Laid(ctx, d, p, Image(segments))
    ensures var q := EepromPoke(p.ctx.(last := true), p.dev, faults, false, ResetRecord(d.part));
            q.rc >= 0 ==> Traced(d, q.dev, Writes(ctx.eeAddr, FullImage(d.part, segments)))
  {
    var reset := ResetRecord(d.part);
    SegmentLaid(p.ctx.(last := true), p.dev, faults, false, reset);
    var q := EepromPoke(p.ctx.(last := true), p.dev, faults, false, reset);
    LastLaid(ctx, d, p, q, Image(segments), SegmentBytes(reset, true));
  }

  lemma LastLaid(ctx: Context, d: Device, p: Poked, q: Poked, a: seq<byte>, b: seq<byte>)
    requires ctx.EepromContext? && p.ctx.EepromContext? && p.rc >= 0
    requires Laid(ctx, d, p, a) && Laid(p.ctx.(last := true), p.dev, q, b)
    ensures q.rc >= 0 ==> Traced(d, q.dev, Writes(ctx.eeAddr, a + b))
  {
    if q.rc >= 0 {
      WritesOn(ctx.eeAddr, a, b);
      TracedChains(d, p.dev, q.dev, Writes(ctx.eeAddr, a), Writes(p.ctx.eeAddr, b));
    }
  }

  /** A load that reports success wrote the mark 0, the image of all segments end to end, the extra
      byte and the boot mark, and nothing else, whatever the size of the image; the image's own
      writes run over the mark exactly when it does not fit. */
  lemma LoadWrites(d: Device, faults: Faults, text: string, buf: string, large: bool)
    requires |buf| == BUFFER_SIZE
    ensures var p, s := LoadEeprom(d, faults, text, buf, large), ReadAll(text, buf);
            p.rc == 0 ==>
              && s.Code() == 0 && Traced(d, p.dev, LoadTrace(d.part, Segments(s.records)))
              && (Touches(Writes(StartAddress(d.part), FullImage(d.part, Segments(s.records))), 0) <==>
                  !Fits(d.part, Segments(s.records)))
  {
    if LoadEeprom(d, faults, text, buf, large).rc == 0 {
      var marked, q := LoadSteps(d, faults, text, buf, large);
      var p := LoadEeprom(d, faults, text, buf, large);
      ImageTraced(marked, faults, text, buf);
      var segments := Segments(ReadAll(text, buf).records);
      var image := ImageTrace(d.part, segments);
      SendTraced(d, faults, 0, [0]);
      SendTraced(q.dev, faults, 0, [FirstByte(d.part)]);
      TracedChains(d, marked, q.dev, Writes(0, [0]), image);
      TracedChains(d, q.dev, p.dev, Writes(0, [0]) + image, Writes(0, [FirstByte(d.part)]));
      WrapReachesHeader(StartAddress(d.part), FullImage(d.part, segments));
    }
  }

  /** For FX, FX2 and FX2LP, a load that reports success always leaves the boot mark, and an EEPROM
      that decodes to the file exactly when the image fits. */
  lemma LoadedImageBoots(d: Device, faults: Faults, text: string, buf: string, large: bool)
    requires |buf| == BUFFER_SIZE && d.part in {FX, FX2, FX2LP}
    ensures var p, segments := LoadEeprom(d, faults, text, buf, large), Segments(ReadAll(text, buf).records);
            p.rc == 0 ==>
              && Marked(d.part, p.dev.eeprom) && p.dev.eeprom[0] != 0
              && (BootsInto(d.part, p.dev.eeprom, segments) <==> Fits(d.part, segments))
  {
    if LoadEeprom(d, faults, text, buf, large).rc == 0 {
      var marked, q := LoadSteps(d, faults, text, buf, large);
      var p, segments := LoadEeprom(d, faults, text, buf, large), Segments(ReadAll(text, buf).records);
      LoadWrites(d, faults, text, buf, large);
      SendWrites(q.dev, faults, 0, [FirstByte(d.part)]);
      MarkStored(q.dev.eeprom, FirstByte(d.part));
      if Fits(d.part, segments) {
        MarkedComplete(marked, faults, text, buf, q);
      }
      if BootsInto(d.part, p.dev.eeprom, segments) {
        DecodedFits(p.dev.eeprom, StartAddress(d.part), segments + [ResetRecord(d.part)]);
        ImageLength(segments, ResetRecord(d.part));
      }
    }
  }

  // ---- When a load succeeds ----------------------------------------------------------------

  lemma {:induction false} FaultlessPokes(ctx: Context, d: Device, faults: Faults, segments: seq<Block>)
    requires ctx.EepromContext? && NoFaults(faults) && Sized(segments)
    ensures var p := PokeAll(ctx, d, faults, segments);
            p.dev.part == d.part && p.ctx.EepromContext? && (p.rc >= 0 <==> AllOnChip(d.part, segments))
    decreases |segments|
  {
    if segments != [] {
      var p := Poke(ctx, d, faults, segments[0]);
      FaultlessPoke(ctx, d, faults, IsExternal(d.part, segments[0].addr, |segments[0].data|), segments[0]);
      FaultlessPokes(p.ctx, p.dev, faults, segments[1..]);
    }
  }

  lemma FaultlessPoke(ctx: Context, d: Device, faults: Faults, external: bool, s: Block)
    requires ctx.EepromContext? && NoFaults(faults) && |s.data| <= 1023
    ensures var p := EepromPoke(ctx, d, faults, external, s);
            p.dev.part == d.part && p.ctx.EepromContext? && (p.rc >= 0 <==> !external)
  {
  }

  /** Without failing requests a load succeeds exactly when the EEPROM is large, the part is known, the
      file reads to its end and every segment is on chip. */
  lemma FaultlessEeprom(d: Device, faults: Faults, text: string, buf: string, large: bool)
    requires |buf| == BUFFER_SIZE && NoFaults(faults)
    ensures var s := ReadAll(text, buf);
            LoadEeprom(d, faults, text, buf, large).rc == 0 <==>
            large && d.part != Undefined && s.Code() == 0 && AllOnChip(d.part, Segments(s.records))
  {
    if large && d.part != Undefined {
      var marked, q := LoadSteps(d, faults, text, buf, large);
      FaultlessImage(marked, faults, text, buf);
    }
  }

  lemma FaultlessImage(d: Device, faults: Faults, text: string, buf: string)
    requires |buf| == BUFFER_SIZE && NoFaults(faults)
    ensures var q, s := WriteImage(d, faults, text, buf), ReadAll(text, buf);
            q.rc == 0 <==> s.Code() == 0 && AllOnChip(d.part, Segments(s.records))
  {
    var ctx := EepromContext(StartAddress(d.part), false);
    ScanSegmentsSized(text, buf);
    FaultlessPokes(ctx, d, faults, PokedSegments(ReadAll(text, buf)));
    var p := ParseIhex(ctx, d, faults, text, buf);
    if p.rc == 0 {
      FaultlessPoke(p.ctx.(last := true), p.dev, faults, false, ResetRecord(d.part));
    }
  }

  // ---- AN21xx ------------------------------------------------------------------------------

  lemma HoldsUnderZero(ee: Contents, start: nat, bytes: seq<byte>)
    requires bytes != [] && bytes[0] == 0 && start + |bytes| <= ADDRESS_SPACE && Holds(ee, start, bytes)
    ensures Holds(Store(ee, start, [0]), start, bytes)
  {
    assert Slice(ee, start, |bytes|)[0] == ee[start] == 0;
    MarkedAt(ee, start, 0);
    forall y | start <= y < start + |bytes| ensures y in Store(ee, start, [0]) && Store(ee, start, [0])[y] == ee[y] {
      if y > start {
        StoreElsewhere(ee, start, [0], y);
      }
    }
    assert Slice(Store(ee, start, [0]), start, |bytes|) == Slice(ee, start, |bytes|);
  }

  lemma MarkedAt(ee: Contents, x: nat, v: byte)
    requires x < ADDRESS_SPACE
    ensures x in Store(ee, x, [v]) && Store(ee, x, [v])[x] == v
  {
    StoredByte(ee, Writes(x, [v]), 0);
  }

  /** On AN21xx parts the config byte goes to offset 7, over the first byte of the image itself. The
      loaded EEPROM boots into the file exactly when that byte was zero: when the file has a first
      segment, of fewer than 256 bytes. */
  lemma An21Boots(ee: Contents, segments: seq<Block>, mark: byte)
    requires Sized(segments) && Fits(AN21, segments)
    ensures BootsInto(AN21, Store(WithFullImage(AN21, ee, segments), 0, [mark]), segments) <==>
            segments != [] && |segments[0].data| < 0x100
  {
    var full := FullImage(AN21, segments);
    var ee1 := Store(ee, 7, full);
    var ee2 := Store(ee1, 7, [0]);
    var e := Store(ee2, 0, [mark]);
    StoreHolds(ee, 7, full);
    if segments != [] && |segments[0].data| < 0x100 {
      assert full[0] == Header(segments[0], false)[0] == 0;
      HoldsUnderZero(ee1, 7, full);
      HoldsAcross(ee2, 7, full, 0, mark);
      DecodeUndoesLayout(e, 7, segments, ResetRecord(AN21));
    }
    if BootsInto(AN21, e, segments) {
      MarkedAt(ee1, 7, 0);
      StoreElsewhere(ee1, 7, [0], 8);
      StoreElsewhere(ee2, 0, [mark], 7);
      StoreElsewhere(ee2, 0, [mark], 8);
      var image := segments + [ResetRecord(AN21)];
      DecodedHead(e, 7, image);
      assert segments != [] ==> image[0] == segments[0];
    }
  }

  /** The same of the loader itself: an AN21xx load that reports success boots into the file exactly
      when the image fits and a first segment exists and has fewer than 256 bytes. */
  lemma An21LoadBoots(d: Device, faults: Faults, text: string, buf: string, large: bool)
    requires |buf| == BUFFER_SIZE && d.part == AN21
    ensures var p, segments := LoadEeprom(d, faults, text, buf, large), Segments(ReadAll(text, buf).records);
            p.rc == 0 ==>
              && Marked(AN21, p.dev.eeprom)
              && (BootsInto(AN21, p.dev.eeprom, segments) <==>
                  Fits(AN21, segments) && segments != [] && |segments[0].data| < 0x100)
  {
    var p, segments := LoadEeprom(d, faults, text, buf, large), Segments(ReadAll(text, buf).records);
    if p.rc == 0 {
      var marked, q := LoadSteps(d, faults, text, buf, large);
      LoadWrites(d, faults, text, buf, large);
      MarkStored(q.dev.eeprom, FirstByte(AN21));
      if Fits(AN21, segments) {
        ImageComplete(marked, faults, text, buf);
        ScanSegmentsSized(text, buf);
        SendWrites(q.dev, faults, 0, [FirstByte(AN21)]);
        An21Boots(marked.eeprom, segments, FirstByte(AN21));
      } else if BootsInto(AN21, p.dev.eeprom, segments) {
        DecodedFits(p.dev.eeprom, 7, segments + [ResetRecord(AN21)]);
        ImageLength(segments, ResetRecord(AN21));
      }
    }
  }

  /** A load ends without error, with -1, or with the code of a scan that failed. */
  lemma LoadEepromCodes(d: Device, faults: Faults, text: string, buf: string, large: bool)
    requires |buf| == BUFFER_SIZE
    ensures var rc, c := LoadEeprom(d, faults, text, buf, large).rc, ReadAll(text, buf).Code();
            rc == 0 || rc == -1 || (c != 0 && rc == c)
  {
    if large && d.part != Undefined && LastOutcome(Send(d, faults, RW_EEPROM, 0, [0])).Done? {
      var marked, q := LoadSteps(d, faults, text, buf, large);
      WriteImageCodes(marked, faults, text, buf);
    }
  }

  lemma WriteImageCodes(d: Device, faults: Faults, text: string, buf: string)
    requires |buf| == BUFFER_SIZE
    ensures var rc, c := WriteImage(d, faults, text, buf).rc, ReadAll(text, buf).Code();
            rc == 0 || rc == -1 || (c != 0 && rc == c)
  {
    var p := ParseIhex(EepromContext(StartAddress(d.part), false), d, faults, text, buf);
    FinishCodes(d.part, p, faults);
  }

  lemma FinishCodes(part: Part, p: Poked, faults: Faults)
    requires p.ctx.EepromContext?
    ensures var rc := FinishImage(part, p, faults).rc; rc == 0 || rc == -1
  {
    PokeCodes(p.ctx.(last := true), p.dev, faults, ResetRecord(part));
  }

  lemma PokeCodes(ctx: Context, d: Device, faults: Faults, s: Block)
    requires ctx.EepromContext? && |s.data| <= 1023
    ensures var rc := EepromPoke(ctx, d, faults, false, s).rc; rc == 0 || rc == -1
  {
  }
}
