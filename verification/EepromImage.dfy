/** The layout of a boot EEPROM, a reference decoder for it, and what the poke function writes. */
module EepromImage {
  import opened Memory
  import opened Target
  import opened Poking
  import opened RamLoader

  // ---- Layout and decoder ------------------------------------------------------------------

  function SegmentBytes(s: Block, last: bool): (b: seq<byte>)
    ensures |b| == 4 + |s.data|
  {
    Header(s, last) + s.data
  }

  function Image(segments: seq<Block>): seq<byte> {
    if segments == [] then [] else SegmentBytes(segments[0], false) + Image(segments[1..])
  }

  predicate Present(ee: Contents, pos: nat, len: nat) {
    pos + len <= ADDRESS_SPACE && forall x :: pos <= x < pos + len ==> x in ee
  }

  function Slice(ee: Contents, pos: nat, len: nat): (s: seq<byte>)
    requires Present(ee, pos, len)
    ensures |s| == len
  {
    seq(len, i requires 0 <= i < len => ee[pos + i])
  }

  function Word(high: nat, low: nat): nat {
    0x100 * high + low
  }

  /** Reference decoder of a boot EEPROM: a 15-bit length with the top bit marking the last segment,
      a 16-bit address, the data; the last segment ends the image. */
  function Decode(ee: Contents, pos: nat): Option<seq<Block>>
    decreases ADDRESS_SPACE - pos
  {
    if !Present(ee, pos, 4) then None else
      var h := Slice(ee, pos, 4);
      var len, addr := Word(h[0] % 0x80, h[1]), Word(h[2], h[3]);
      if !Present(ee, pos + 4, len) then None else
        var s := Block(addr, Slice(ee, pos + 4, len));
        if h[0] >= 0x80 then Some([s]) else
          match Decode(ee, pos + 4 + len)
          case None => None
          case Some(rest) => Some([s] + rest)
  }

  ghost predicate Holds(ee: Contents, pos: nat, bytes: seq<byte>) {
    Present(ee, pos, |bytes|) && Slice(ee, pos, |bytes|) == bytes
  }

  lemma HoldsParts(ee: Contents, pos: nat, a: seq<byte>, b: seq<byte>)
    requires Holds(ee, pos, a + b)
    ensures Holds(ee, pos, a) && Holds(ee, pos + |a|, b)
  {
    var s := Slice(ee, pos, |a + b|);
    assert Slice(ee, pos, |a|) == s[..|a|] == a;
    assert Slice(ee, pos + |a|, |b|) == s[|a|..] == b;
  }

  lemma HeaderFields(s: Block, last: bool)
    requires |s.data| < 0x8000 && s.addr < ADDRESS_SPACE
    ensures var h := Header(s, last);
            && Word(h[0] % 0x80, h[1]) == |s.data| && Word(h[2], h[3]) == s.addr
            && (h[0] >= 0x80 <==> last)
  {
    BytePair(|s.data|);
    BytePair(s.addr);
    var len, addr := |s.data|, s.addr;
    FieldsOf(Header(s, last), len, addr, len / 0x100, len % 0x100, addr / 0x100, addr % 0x100, last);
  }

  lemma FieldsOf(h: seq<byte>, len: nat, addr: nat, a: nat, b: nat, c: nat, d: nat, last: bool)
    requires a < 0x80 && b < 0x100 && c < 0x100 && d < 0x100
    requires h == [if last then a + 0x80 else a, b, c, d]
    requires Word(a, b) == len && Word(c, d) == addr
    ensures Word(h[0] % 0x80, h[1]) == len && Word(h[2], h[3]) == addr && (h[0] >= 0x80 <==> last)
  {
  }

  lemma BytePair(n: nat)
    requires n < ADDRESS_SPACE
    ensures n / 0x100 % 0x100 == n / 0x100 && Word(n / 0x100, n % 0x100) == n
    ensures n < 0x8000 ==> n / 0x100 < 0x80
  {
  }

  lemma DecodeOne(ee: Contents, pos: nat, s: Block, last: bool)
    requires |s.data| < 0x8000 && s.addr < ADDRESS_SPACE
    requires Holds(ee, pos, SegmentBytes(s, last))
    ensures Decode(ee, pos) == if last then Some([s]) else
              match Decode(ee, pos + 4 + |s.data|) case None => None case Some(rest) => Some([s] + rest)
  {
    HoldsParts(ee, pos, Header(s, last), s.data);
    HeaderFields(s, last);
    assert Slice(ee, pos + 4, |s.data|) == s.data;
  }

  /** The decoder returns exactly the segments laid out, and stops at the one marked last. */
  lemma {:induction false} DecodeUndoesLayout(ee: Contents, pos: nat, segments: seq<Block>, final: Block)
    requires Sized(segments) && |final.data| < 0x8000 && final.addr < ADDRESS_SPACE
    requires Holds(ee, pos, Image(segments) + SegmentBytes(final, true))
    ensures Decode(ee, pos) == Some(segments + [final])
    decreases |segments|
  {
    if segments == [] {
      assert Image(segments) + SegmentBytes(final, true) == SegmentBytes(final, true);
      assert segments + [final] == [final];
      DecodeOne(ee, pos, final, true);
    } else {
      var s, rest := segments[0], Image(segments[1..]) + SegmentBytes(final, true);
      assert Image(segments) + SegmentBytes(final, true) == SegmentBytes(s, false) + rest;
      HoldsParts(ee, pos, SegmentBytes(s, false), rest);
      DecodeOne(ee, pos, s, false);
      DecodeUndoesLayout(ee, pos + 4 + |s.data|, segments[1..], final);
      assert segments + [final] == [s] + (segments[1..] + [final]);
    }
  }

  /** What the first header alone decides: the first segment's length, and whether it is the only one. */
  lemma DecodedHead(ee: Contents, pos: nat, image: seq<Block>)
    requires Decode(ee, pos) == Some(image) && pos in ee && pos + 1 in ee
    ensures image != [] && |image[0].data| == Word(ee[pos] % 0x80, ee[pos + 1])
    ensures |image| == 1 <==> ee[pos] >= 0x80
  {
    DecodedNonempty(ee, pos + 4 + Word(ee[pos] % 0x80, ee[pos + 1]));
  }

  lemma DecodedNonempty(ee: Contents, pos: nat)
    ensures Decode(ee, pos) != Some([])
  {
  }

  /** Whatever decodes lies below 64 KB. */
  lemma {:induction false} DecodedFits(ee: Contents, pos: nat, image: seq<Block>)
    requires Decode(ee, pos) == Some(image)
    ensures pos + |Image(image)| <= ADDRESS_SPACE
    decreases ADDRESS_SPACE - pos
  {
    var h := Slice(ee, pos, 4);
    var len := Word(h[0] % 0x80, h[1]);
    if h[0] >= 0x80 {
      assert Image(image[1..]) == [];
    } else {
      DecodedFits(ee, pos + 4 + len, image[1..]);
    }
  }

  lemma {:induction false} ImageLength(segments: seq<Block>, final: Block)
    ensures |Image(segments + [final])| == |Image(segments)| + 4 + |final.data|
    decreases |segments|
  {
    if segments == [] {
      assert [] + [final] == [final] && [final][1..] == [];
    } else {
      assert (segments + [final])[1..] == segments[1..] + [final];
      ImageLength(segments[1..], final);
    }
  }

  // ---- Writes without wrap-around ----------------------------------------------------------

  lemma StoreHolds(ee: Contents, pos: nat, bytes: seq<byte>)
    requires pos + |bytes| <= ADDRESS_SPACE
    ensures Holds(Store(ee, pos, bytes), pos, bytes)
  {
    var ws, ee' := Writes(pos, bytes), Store(ee, pos, bytes);
    forall x | pos <= x < pos + |bytes| ensures x in ee' && ee'[x] == bytes[x - pos] {
      assert ws[x - pos] == ByteWrite(x, bytes[x - pos]);
      StoredByte(ee, ws, x - pos);
    }
    assert Slice(ee', pos, |bytes|) == bytes;
  }

  lemma StoreElsewhere(ee: Contents, pos: nat, bytes: seq<byte>, x: nat)
    requires pos + |bytes| <= ADDRESS_SPACE && (x < pos || x >= pos + |bytes|)
    ensures x in Store(ee, pos, bytes) <==> x in ee
    ensures x in ee ==> Store(ee, pos, bytes)[x] == ee[x]
  {
    UntouchedByte(ee, Writes(pos, bytes), x);
  }

  /** Writes from `start` up reach below `start`, wrapping around at 64 KB, exactly when they do not
      fit; the first byte they then reach is the boot mark. */
  lemma WrapReachesHeader(start: nat, bytes: seq<byte>)
    requires 0 < start < ADDRESS_SPACE
    ensures (exists x: nat :: x < start && Touches(Writes(start, bytes), x)) <==> start + |bytes| > ADDRESS_SPACE
    ensures Touches(Writes(start, bytes), 0) <==> start + |bytes| > ADDRESS_SPACE
  {
    var ws := Writes(start, bytes);
    if start + |bytes| > ADDRESS_SPACE {
      assert ws[ADDRESS_SPACE - start].at == 0;
      assert Touches(ws, 0);
    } else {
      assert forall i :: 0 <= i < |ws| ==> ws[i].at == start + i;
    }
  }

  /** An image's writes never overlap exactly when it has at most 64 KB. */
  lemma WritesOverlap(start: nat, bytes: seq<byte>)
    ensures NoAddressTwice(Writes(start, bytes)) <==> |bytes| <= ADDRESS_SPACE
  {
    var ws := Writes(start, bytes);
    if |bytes| > ADDRESS_SPACE {
      SameResidue(start);
      assert ws[0].at == ws[ADDRESS_SPACE].at;
    } else {
      forall i, j | 0 <= i < j < |ws| ensures ws[i].at != ws[j].at {
        DifferentResidues(start + i, j - i);
      }
    }
  }

  lemma SameResidue(a: nat)
    ensures (a + ADDRESS_SPACE) % ADDRESS_SPACE == a % ADDRESS_SPACE
  {
  }

  lemma DifferentResidues(a: nat, n: nat)
    requires 0 < n < ADDRESS_SPACE
    ensures a % ADDRESS_SPACE != (a + n) % ADDRESS_SPACE
  {
  }

  // ---- What the poke function writes -------------------------------------------------------

  /** A request of the image itself: an EEPROM write above the header. */
  predicate Payload(r: Request, start: nat) {
    r.op == 0xA2 && start <= r.addr && r.addr + |r.data| <= ADDRESS_SPACE
  }

  /** From d to d' only image requests above `start` were sent. */
  ghost predicate SentAbove(d: Device, d': Device, start: nat) {
    Follows(d, d') && forall i :: |d.log| <= i < |d'.log| ==> Payload(d'.log[i], start)
  }

  lemma SendAbove(d: Device, d': Device, start: nat, faults: Faults, addr: nat, data: seq<byte>)
    requires SentAbove(d, d', start) && start <= addr && addr < ADDRESS_SPACE && addr + |data| <= ADDRESS_SPACE
    ensures SentAbove(d, Send(d', faults, RW_EEPROM, addr, data), start)
  {
    FollowsSend(d, d', faults, RW_EEPROM, addr, data);
  }

  lemma SendWrites(d: Device, faults: Faults, addr: nat, data: seq<byte>)
    requires addr < ADDRESS_SPACE
    ensures var d' := Send(d, faults, RW_EEPROM, addr, data);
            && d'.part == d.part
            && d'.eeprom == if LastOutcome(d').Done? then Store(d.eeprom, addr, data) else d.eeprom
  {
  }

  /** The data of a segment after its header. */
  lemma DataWritten(d0: Device, start: nat, ctx: Context, ee: Contents, d1: Device, faults: Faults,
                    header: seq<byte>, data: seq<byte>)
    requires ctx.EepromContext? && start <= ctx.eeAddr && SentAbove(d0, d1, start)
    requires |header| == 4 && data != [] && ctx.eeAddr + 4 + |data| <= ADDRESS_SPACE
    requires d1.eeprom == Store(ee, ctx.eeAddr, header)
    ensures var p := DataAfter(ctx, d1, faults, data);
            && SentAbove(d0, p.dev, start) && p.dev.part == d1.part
            && (p.rc >= 0 ==>
                  && p.dev.eeprom == Store(ee, ctx.eeAddr, header + data)
                  && p.ctx == ctx.(eeAddr := (ctx.eeAddr + |header + data|) % ADDRESS_SPACE))
  {
    SendAbove(d0, d1, start, faults, ctx.eeAddr + 4, data);
    SendWrites(d1, faults, ctx.eeAddr + 4, data);
    StoreConcat(ee, ctx.eeAddr, header, data);
  }

  /** A header and the data after it. */
  lemma TwoWrites(d0: Device, start: nat, ctx: Context, d: Device, faults: Faults, header: seq<byte>, data: seq<byte>)
    requires ctx.EepromContext? && start <= ctx.eeAddr && SentAbove(d0, d, start)
    requires |header| == 4 && data != [] && ctx.eeAddr + 4 + |data| <= ADDRESS_SPACE
    ensures var p := HeaderThenData(ctx, d, faults, header, data);
            && SentAbove(d0, p.dev, start) && p.dev.part == d.part
            && (p.rc >= 0 ==>
                  && p.dev.eeprom == Store(d.eeprom, ctx.eeAddr, header + data)
                  && p.ctx == ctx.(eeAddr := (ctx.eeAddr + |header + data|) % ADDRESS_SPACE))
  {
    var d1 := Send(d, faults, RW_EEPROM, ctx.eeAddr, header);
    SendAbove(d0, d, start, faults, ctx.eeAddr, header);
    SendWrites(d, faults, ctx.eeAddr, header);
    if LastOutcome(d1).Done? {
      DataWritten(d0, start, ctx, d.eeprom, d1, faults, header, data);
    }
  }

  /** One segment: all of it is written at the next free address and the address moves past it, or
      the poke fails. */
  lemma PokeWritesSegment(d0: Device, start: nat, ctx: Context, d: Device, faults: Faults, external: bool, s: Block)
    requires ctx.EepromContext? && start <= ctx.eeAddr && SentAbove(d0, d, start)
    requires 1 <= |s.data| <= 1023 && ctx.eeAddr + 4 + |s.data| <= ADDRESS_SPACE
    ensures var p := EepromPoke(ctx, d, faults, external, s);
            && SentAbove(d0, p.dev, start) && p.dev.part == d.part
            && (p.rc >= 0 ==>
                  && !external && p.dev.eeprom == Store(d.eeprom, ctx.eeAddr, SegmentBytes(s, ctx.last))
                  && p.ctx == ctx.(eeAddr := (ctx.eeAddr + |SegmentBytes(s, ctx.last)|) % ADDRESS_SPACE))
  {
    TwoWrites(d0, start, ctx, d, faults, Header(s, ctx.last), s.data);
  }

  lemma StoreConcat(ee: Contents, pos: nat, a: seq<byte>, b: seq<byte>)
    ensures Store(Store(ee, pos, a), pos + |a|, b) == Store(ee, pos, a + b)
  {
    WritesConcat(pos, a, b);
    StoreAllConcat(ee, Writes(pos, a), Writes(pos + |a|, b));
  }

  /** The state after an image's segments were poked, or some poke failed. */
  ghost predicate ImageWritten(d0: Device, start: nat, ctx: Context, d: Device, p: Poked, bytes: seq<byte>) {
    && SentAbove(d0, p.dev, start) && p.dev.part == d.part && ctx.EepromContext?
    && (p.rc >= 0 ==>
          && p.dev.eeprom == Store(d.eeprom, ctx.eeAddr, bytes)
          && p.ctx == ctx.(eeAddr := ctx.eeAddr + |bytes|))
  }

  lemma SegmentWritten(d0: Device, start: nat, ctx: Context, d: Device, faults: Faults, external: bool, s: Block)
    requires ctx.EepromContext? && start <= ctx.eeAddr && SentAbove(d0, d, start)
    requires 1 <= |s.data| <= 1023 && ctx.eeAddr + 4 + |s.data| < ADDRESS_SPACE
    ensures ImageWritten(d0, start, ctx, d, EepromPoke(ctx, d, faults, external, s), SegmentBytes(s, ctx.last))
  {
    PokeWritesSegment(d0, start, ctx, d, faults, external, s);
    AdvanceIs(d0, start, ctx, d, EepromPoke(ctx, d, faults, external, s), SegmentBytes(s, ctx.last));
  }

  /** Below 64 KB the address does not wrap around. */
  lemma AdvanceIs(d0: Device, start: nat, ctx: Context, d: Device, p: Poked, bytes: seq<byte>)
    requires SentAbove(d0, p.dev, start) && p.dev.part == d.part && ctx.EepromContext?
    requires ctx.eeAddr + |bytes| < ADDRESS_SPACE
    requires p.rc >= 0 ==>
               && p.dev.eeprom == Store(d.eeprom, ctx.eeAddr, bytes)
               && p.ctx == ctx.(eeAddr := (ctx.eeAddr + |bytes|) % ADDRESS_SPACE)
    ensures ImageWritten(d0, start, ctx, d, p, bytes)
  {
  }

  lemma ImageGrows(d0: Device, start: nat, ctx: Context, d: Device, p: Poked, q: Poked, a: seq<byte>, b: seq<byte>)
    requires p.rc >= 0 && ImageWritten(d0, start, ctx, d, p, a) && ImageWritten(d0, start, p.ctx, p.dev, q, b)
    ensures ImageWritten(d0, start, ctx, d, q, a + b)
  {
    StoreConcat(d.eeprom, ctx.eeAddr, a, b);
  }

  lemma {:induction false} PokeAllWritesImage(d0: Device, start: nat, ctx: Context, d: Device, faults: Faults,
                                              segments: seq<Block>)
    requires ctx.EepromContext? && !ctx.last && start <= ctx.eeAddr && SentAbove(d0, d, start)
    requires Sized(segments) && ctx.eeAddr + |Image(segments)| < ADDRESS_SPACE
    ensures ImageWritten(d0, start, ctx, d, PokeAll(ctx, d, faults, segments), Image(segments))
    decreases |segments|
  {
    if segments == [] {
      assert Writes(ctx.eeAddr, []) == [];
    } else {
      var s, rest := segments[0], segments[1..];
      assert |Image(segments)| == 4 + |s.data| + |Image(rest)|;
      var p := EepromPoke(ctx, d, faults, IsExternal(d.part, s.addr, |s.data|), s);
      SegmentWritten(d0, start, ctx, d, faults, IsExternal(d.part, s.addr, |s.data|), s);
      if p.rc >= 0 {
        PokeAllWritesImage(d0, start, p.ctx, p.dev, faults, rest);
        ImageGrows(d0, start, ctx, d, p, PokeAll(p.ctx, p.dev, faults, rest), SegmentBytes(s, false), Image(rest));
      }
    }
  }

  // ---- The write trace, with or without wrap-around ----------------------------------------

  function RequestWrites(r: Request): seq<ByteWrite> {
    if r.op == 0xA2 && r.outcome.Done? then Writes(r.addr, r.data) else []
  }

  /** The EEPROM bytes a log wrote, in order. */
  function Written(log: seq<Request>): seq<ByteWrite> {
    if log == [] then [] else Written(log[..|log| - 1]) + RequestWrites(log[|log| - 1])
  }

  /** From d to d' exactly these bytes were written to the EEPROM, in this order. */
  ghost predicate Traced(d: Device, d': Device, ws: seq<ByteWrite>) {
    && d'.part == d.part
    && Written(d'.log) == Written(d.log) + ws
    && d'.eeprom == StoreAll(d.eeprom, ws)
  }

  lemma TracedChains(d: Device, d1: Device, d2: Device, a: seq<ByteWrite>, b: seq<ByteWrite>)
    requires Traced(d, d1, a) && Traced(d1, d2, b)
    ensures Traced(d, d2, a + b)
  {
    Associate(Written(d.log), a, b);
    StoreAllConcat(d.eeprom, a, b);
  }

  lemma SendTraced(d: Device, faults: Faults, addr: nat, data: seq<byte>)
    ensures var d' := Send(d, faults, RW_EEPROM, addr, data);
            LastOutcome(d').Done? ==> Traced(d, d', Writes(addr, data))
  {
    var d' := Send(d, faults, RW_EEPROM, addr, data);
    assert d'.log[..|d'.log| - 1] == d.log;
    WritesWrap(addr, data);
  }

  lemma DataTraced(ctx: Context, d: Device, d1: Device, faults: Faults, header: seq<byte>, data: seq<byte>)
    requires ctx.EepromContext? && |header| == 4 && Traced(d, d1, Writes(ctx.eeAddr, header))
    ensures Laid(ctx, d, DataAfter(ctx, d1, faults, data), header + data)
  {
    var d2, p := Send(d1, faults, RW_EEPROM, ctx.eeAddr + 4, data), DataAfter(ctx, d1, faults, data);
    SendTraced(d1, faults, ctx.eeAddr + 4, data);
    if p.rc >= 0 {
      assert p == Poked(ctx.(eeAddr := (ctx.eeAddr + (4 + |data|)) % ADDRESS_SPACE), d2, 0);
      TwoTraces(d, d1, d2, ctx.eeAddr, header, data);
      LaidAt(ctx, d, d2, p, header + data, 4 + |data|);
    }
  }

  lemma TwoTraces(d: Device, d1: Device, d2: Device, addr: nat, header: seq<byte>, data: seq<byte>)
    requires Traced(d, d1, Writes(addr, header)) && Traced(d1, d2, Writes(addr + |header|, data))
    ensures Traced(d, d2, Writes(addr, header + data))
  {
    TracedChains(d, d1, d2, Writes(addr, header), Writes(addr + |header|, data));
    WritesConcat(addr, header, data);
  }

  lemma LaidAt(ctx: Context, d: Device, d2: Device, p: Poked, bytes: seq<byte>, n: nat)
    requires ctx.EepromContext? && n == |bytes| && Traced(d, d2, Writes(ctx.eeAddr, bytes))
    requires p == Poked(ctx.(eeAddr := (ctx.eeAddr + n) % ADDRESS_SPACE), d2, 0)
    ensures Laid(ctx, d, p, bytes)
  {
  }

  lemma SegmentTraced(ctx: Context, d: Device, faults: Faults, header: seq<byte>, data: seq<byte>)
    requires ctx.EepromContext? && |header| == 4
    ensures Laid(ctx, d, HeaderThenData(ctx, d, faults, header, data), header + data)
  {
    var d1 := Send(d, faults, RW_EEPROM, ctx.eeAddr, header);
    SendTraced(d, faults, ctx.eeAddr, header);
    if LastOutcome(d1).Done? {
      DataTraced(ctx, d, d1, faults, header, data);
    }
  }

  /** Poked without failure, these bytes are written end to end from the next free address on,
      wherever that wraps around. */
  ghost predicate Laid(ctx: Context, d: Device, p: Poked, bytes: seq<byte>)
    requires ctx.EepromContext?
  {
    p.rc >= 0 ==> Traced(d, p.dev, Writes(ctx.eeAddr, bytes)) &&
                  p.ctx == ctx.(eeAddr := (ctx.eeAddr + |bytes|) % ADDRESS_SPACE)
  }

  lemma LaidChains(ctx: Context, d: Device, p: Poked, q: Poked, a: seq<byte>, b: seq<byte>)
    requires ctx.EepromContext? && p.ctx.EepromContext? && p.rc >= 0
    requires Laid(ctx, d, p, a) && Laid(p.ctx, p.dev, q, b)
    ensures Laid(ctx, d, q, a + b)
  {
    if q.rc >= 0 {
      WritesChain(d, p.dev, q.dev, ctx.eeAddr, a, b);
      AddressSum(ctx.eeAddr, |a|, |b|);
    }
  }

  lemma WritesChain(d: Device, d1: Device, d2: Device, addr: nat, a: seq<byte>, b: seq<byte>)
    requires Traced(d, d1, Writes(addr, a)) && Traced(d1, d2, Writes((addr + |a|) % ADDRESS_SPACE, b))
    ensures Traced(d, d2, Writes(addr, a + b))
  {
    WritesOn(addr, a, b);
    TracedChains(d, d1, d2, Writes(addr, a), Writes((addr + |a|) % ADDRESS_SPACE, b));
  }

  lemma WritesOn(addr: nat, a: seq<byte>, b: seq<byte>)
    ensures Writes(addr, a) + Writes((addr + |a|) % ADDRESS_SPACE, b) == Writes(addr, a + b)
  {
    WritesWrap(addr + |a|, b);
    WritesConcat(addr, a, b);
  }

  lemma AddressSum(addr: nat, a: nat, b: nat)
    ensures ((addr + a) % ADDRESS_SPACE + b) % ADDRESS_SPACE == (addr + (a + b)) % ADDRESS_SPACE
  {
  }

  lemma SegmentLaid(ctx: Context, d: Device, faults: Faults, external: bool, s: Block)
    requires ctx.EepromContext?
    ensures Laid(ctx, d, EepromPoke(ctx, d, faults, external, s), SegmentBytes(s, ctx.last))
  {
    SegmentTraced(ctx, d, faults, Header(s, ctx.last), s.data);
  }

  lemma {:induction false} ImageLaid(ctx: Context, d: Device, faults: Faults, segments: seq<Block>)
    requires ctx.EepromContext? && !ctx.last && ctx.eeAddr < ADDRESS_SPACE
    ensures Laid(ctx, d, PokeAll(ctx, d, faults, segments), Image(segments))
    decreases |segments|
  {
    if segments == [] {
      assert Writes(ctx.eeAddr, []) == [];
    } else {
      var s, rest := segments[0], segments[1..];
      var p := EepromPoke(ctx, d, faults, IsExternal(d.part, s.addr, |s.data|), s);
      SegmentLaid(ctx, d, faults, IsExternal(d.part, s.addr, |s.data|), s);
      if p.rc >= 0 {
        ImageLaid(p.ctx, p.dev, faults, rest);
        LaidChains(ctx, d, p, PokeAll(p.ctx, p.dev, faults, rest), SegmentBytes(s, false), Image(rest));
      }
    }
  }
}
