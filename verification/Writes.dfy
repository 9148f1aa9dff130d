/** The write calls above the board: splitting at end-of-string bytes, user buffers, whole files, and
    data with a message terminator. Where a loop of the source never ends, the model says so and
    stops. */
module Writes {
  import opened Memory
  import opened Transfer

  // ---- End-of-string bytes -----------------------------------------------------------------

  /** The part of the configuration that decides about EOI: send it at the end, send it with each
      end-of-string byte (XEOS), that byte, and whether all 8 bits of it count. */
  datatype Settings = Settings(sendEoi: bool, xeos: bool, eos: byte, bin: bool)

  predicate IsEos(s: Settings, b: byte) {
    if s.bin then b == s.eos else b % 0x80 == s.eos % 0x80
  }

  /** The two bytes are one; or, if only 7 bits count, differ in the eighth alone. */
  lemma EosBits(s: Settings, b: byte)
    ensures IsEos(s, b) <==> b == s.eos || (!s.bin && (b == s.eos + 0x80 || s.eos == b + 0x80))
  {
  }

  /** The answer of a search with an 8-bit index. */
  datatype Found = At(k: nat) | Absent | Endless

  /** The search from index i on; after index 255 it would start over. */
  function Search(s: Settings, data: seq<byte>, i: nat): Found
    requires i < 0x100
    decreases 0x100 - i
  {
    if i >= |data| then Absent
    else if IsEos(s, data[i]) then At(i)
    else if i + 1 == 0x100 then Endless
    else Search(s, data, i + 1)
  }

  /** The test the n-th round of the search makes passes on to the next round. */
  predicate SearchesOn(s: Settings, data: seq<byte>, n: nat) {
    var i := n % 0x100;
    i < |data| && !IsEos(s, data[i])
  }

  lemma {:induction false} SearchResult(s: Settings, data: seq<byte>, i: nat)
    requires i < 0x100
    ensures match Search(s, data, i)
            case At(k) => i <= k < |data| && IsEos(s, data[k]) && forall j :: i <= j < k ==> !IsEos(s, data[j])
            case Absent => |data| < 0x100 && forall j :: i <= j < |data| ==> !IsEos(s, data[j])
            case Endless => |data| >= 0x100 && forall j :: i <= j < 0x100 ==> !IsEos(s, data[j])
    decreases 0x100 - i
  {
    if i < |data| && !IsEos(s, data[i]) && i + 1 < 0x100 {
      SearchResult(s, data, i + 1);
    }
  }

  /** The search never ends exactly when each of its rounds passes on. */
  lemma EndlessSearch(s: Settings, data: seq<byte>)
    ensures Search(s, data, 0).Endless? <==> forall n: nat :: SearchesOn(s, data, n)
  {
    SearchResult(s, data, 0);
    if !Search(s, data, 0).Endless? {
      var k := if Search(s, data, 0).At? then Search(s, data, 0).k else |data|;
      if k < 0x100 {
        assert !SearchesOn(s, data, k);
      } else {
        AtBelow(s, data, 0);
      }
    }
  }

  lemma {:induction false} AtBelow(s: Settings, data: seq<byte>, i: nat)
    requires i < 0x100
    ensures Search(s, data, i).At? ==> Search(s, data, i).k < 0x100
    decreases 0x100 - i
  {
    if i < |data| && !IsEos(s, data[i]) && i + 1 < 0x100 {
      AtBelow(s, data, i + 1);
    }
  }

  // ---- Blocks ------------------------------------------------------------------------------

  /** What the next block of a write takes: this much, up to, not including, an end-of-string byte if
      there is one; or the search for one never ends. */
  datatype Portion = Size(n: nat, eos: bool) | Never

  function NextBlock(s: Settings, data: seq<byte>): Portion {
    if !s.xeos then Size(|data|, false) else
      match Search(s, data, 0)
      case At(k) => Size(k, true)
      case Absent => Size(|data|, false)
      case Endless => Never
  }

  lemma BlockSize(s: Settings, data: seq<byte>)
    ensures var b := NextBlock(s, data);
            b.Size? ==> b.n <= |data| && (b.eos <==> b.n < |data|) && (b.eos ==> s.xeos && IsEos(s, data[b.n]))
    ensures NextBlock(s, data) == Size(|data|, false) <==> OneBlock(s, data)
  {
    SearchResult(s, data, 0);
  }

  /** The data passes through in one block: XEOS is off, or the data is shorter than 256 bytes and
      holds no end-of-string byte. */
  predicate OneBlock(s: Settings, data: seq<byte>) {
    s.xeos ==> |data| < 0x100 && forall i :: 0 <= i < |data| ==> !IsEos(s, data[i])
  }

  /** What a run of blocks leaves of the data; nothing is known after a search that never ends. */
  datatype Rest = Left(data: seq<byte>) | Stuck

  function AfterBlocks(s: Settings, data: seq<byte>, n: nat): Rest {
    if n == 0 || data == [] then Left(data) else
      match NextBlock(s, data)
      case Never => Stuck
      case Size(k, _) => if k <= |data| then AfterBlocks(s, data[k..], n - 1) else Stuck
  }

  /** A block at an end-of-string byte is empty, and so are all after it. */
  lemma {:induction false} StalledAtEos(s: Settings, data: seq<byte>, n: nat)
    requires s.xeos && data != [] && IsEos(s, data[0])
    ensures AfterBlocks(s, data, n) == Left(data)
    decreases n
  {
    if n > 0 {
      assert NextBlock(s, data) == Size(0, true);
      assert data[0..] == data;
      StalledAtEos(s, data, n - 1);
    }
  }

  /** The blocks of a write reach the end of nonempty data if and only if it passes in one block. */
  lemma BlocksReachEnd(s: Settings, data: seq<byte>)
    requires data != []
    ensures (exists n: nat :: AfterBlocks(s, data, n) == Left([])) <==> OneBlock(s, data)
  {
    BlockSize(s, data);
    var b := NextBlock(s, data);
    if OneBlock(s, data) {
      assert data[|data|..] == [];
      assert AfterBlocks(s, data, 1) == AfterBlocks(s, data[|data|..], 0) == Left([]);
    } else {
      forall n: nat ensures AfterBlocks(s, data, n) != Left([]) {
        if n > 0 && b.Size? {
          StalledAtEos(s, data[b.n..], n - 1);
        }
      }
    }
  }

  /** The first cause: an end-of-string byte. Of "A" and a newline, the newline is never sent. */
  lemma EosByteStalls(n: nat)
    ensures var s := Settings(true, true, NEWLINE, true);
            AfterBlocks(s, [65, NEWLINE], n + 1) == Left([NEWLINE])
  {
    var s := Settings(true, true, NEWLINE, true);
    var data: seq<byte> := [65, NEWLINE];
    assert Search(s, data, 0) == Search(s, data, 1) == At(1);
    assert data[1..] == [NEWLINE];
    StalledAtEos(s, [NEWLINE], n);
  }

  /** The second cause: 256 bytes or more without one, such as 300 times "A". */
  lemma LongDataNeverSearched(n: nat)
    ensures var s := Settings(true, true, NEWLINE, true);
            AfterBlocks(s, seq(300, _ => 65), n + 1) == Stuck
  {
    var s := Settings(true, true, NEWLINE, true);
    var data: seq<byte> := seq(300, _ => 65);
    SearchResult(s, data, 0);
    AtBelow(s, data, 0);
  }

  // ---- The write calls ---------------------------------------------------------------------

  class Device {
    const channel: Channel
    const settings: Settings
    /** What each read of a file gave, and how many failed. */
    var fileReads: seq<nat>
    var fileErrors: nat

    constructor (channel: Channel, settings: Settings)
      ensures this.channel == channel && this.settings == settings
    {
      this.channel, this.settings, fileReads, fileErrors := channel, settings, [], 0;
    }

    /** `find_eos`, with its 8-bit index. */
    method FindEos(data: seq<byte>) returns (found: Found)
      ensures found == Search(settings, data, 0)
    {
      var i := 0;
      while i < |data|
        invariant i < 0x100 && Search(settings, data, i) == Search(settings, data, 0)
        decreases 0x100 - i
      {
        if IsEos(settings, data[i]) {
          return At(i);
        }
        i := (i + 1) % 0x100;
        if i == 0 {
          return Endless;
        }
      }
      found := Absent;
    }

    /** Since then this went onto the wire, if no standby failed. */
    ghost predicate Sent(wire0: seq<WireByte>, standbys0: nat, bytes: seq<byte>, eoi: bool)
      reads channel
    {
      && channel.standbyFailures >= standbys0
      && (channel.standbyFailures == standbys0 ==> channel.wire == wire0 + Tagged(bytes, eoi))
    }

    /** Since then at most this many bytes went onto the wire, and fewer if a standby failed. */
    ghost predicate Bounded(wire0: seq<WireByte>, standbys0: nat, n: nat)
      reads channel
    {
      && channel.standbyFailures >= standbys0
      && |wire0| <= |channel.wire| <= |wire0| + n
      && (channel.standbyFailures > standbys0 ==> |channel.wire| < |wire0| + n)
    }

    /** `send_data_smart_eoi`, unless its search never ends. The wire gets a prefix of the block, with
        EOI on the block's last byte if forced or found; success means that the count is the block's,
        and then all of it was sent exactly when no standby failed. */
    method SendDataSmartEoi(data: seq<byte>, forceEoi: bool)
      returns (rc: int, count: nat, endless: bool, ghost sent: nat)
      requires channel.Valid()
      modifies channel`wire, channel`failures, channel`standbyFailures, channel`atn, channel`underAtn, channel`answers
      ensures channel.master ==> channel.underAtn == old(channel.underAtn)
      ensures rc == 0 || rc == -1
      ensures channel.failures >= old(channel.failures) && channel.standbyFailures >= old(channel.standbyFailures)
      ensures channel.failures == old(channel.failures) ==>
                rc == 0 && channel.standbyFailures == old(channel.standbyFailures)
      ensures endless <==> NextBlock(settings, data).Never?
      ensures endless ==>
                count == sent == 0 && channel.wire == old(channel.wire) && channel.failures == old(channel.failures)
      ensures !endless ==>
                var b := NextBlock(settings, data);
                && sent <= b.n <= |data| && (rc == 0 <==> count == b.n)
                && channel.wire == old(channel.wire) + Tagged(data[..sent], (forceEoi || b.eos) && sent == b.n)
                && (rc == 0 ==> (sent == b.n <==> channel.standbyFailures == old(channel.standbyFailures)))
                && (count == sent <==> channel.standbyFailures == old(channel.standbyFailures) || sent == 0)
    {
      BlockSize(settings, data);
      var block, found := |data|, false;
      rc, count, endless, sent := 0, 0, false, 0;
      if settings.xeos {
        var answer := FindEos(data);
        match answer {
          case At(k) => block, found := k, true;
          case Absent =>
          case Endless => return 0, 0, true, 0;
        }
      }
      var sendEoi := forceEoi || (settings.xeos && found);
      var ret;
      ret, count, sent := channel.WriteIoctl(data[..block], sendEoi);
      assert data[..block][..sent] == data[..sent];
      rc := if ret < 0 then -1 else 0;
    }

    /** `my_ibwrt` on an addressed device, unless it never ends. Success means that the count is the
        data's, and then exactly the data is on the wire, in order, with EOI on the last byte exactly if
        so configured, if and only if no standby failed. If none did, the count is in any case the
        length of the prefix sent. Without a failing driver call it succeeds, or never ends exactly
        when the data does not pass in one block. */
    method MyIbwrt(data: seq<byte>) returns (rc: int, bytesWritten: nat, endless: bool)
      requires channel.Valid()
      modifies channel`wire, channel`failures, channel`standbyFailures, channel`atn, channel`underAtn, channel`answers
      ensures channel.master ==> channel.underAtn == old(channel.underAtn)
      ensures channel.standbyFailures >= old(channel.standbyFailures)
      ensures rc == 0 || rc == -1
      ensures channel.failures == old(channel.failures) ==>
                rc == 0 && (endless <==> data != [] && !OneBlock(settings, data))
      ensures endless ==> data != [] && !OneBlock(settings, data)
      ensures rc == 0 && !endless ==> bytesWritten == |data|
      ensures rc == 0 && !endless ==>
                (channel.wire == old(channel.wire) + Tagged(data, settings.sendEoi) <==>
                 channel.standbyFailures == old(channel.standbyFailures))
      ensures channel.standbyFailures == old(channel.standbyFailures) ==>
                var b := NextBlock(settings, data);
                && bytesWritten <= (if b.Size? then b.n else 0) <= |data|
                && (rc == 0 && !endless <==> data == [] || (OneBlock(settings, data) && bytesWritten == |data|))
                && var eoi := b.Size? && (settings.sendEoi || b.eos) && bytesWritten == b.n;
                   channel.wire == old(channel.wire) + Tagged(data[..bytesWritten], eoi)
    {
      BlockSize(settings, data);
      rc, bytesWritten, endless := 0, 0, false;
      var count, rest := |data|, data;
      ghost var first := true;
      while count > 0
        invariant channel.master ==> channel.underAtn == old(channel.underAtn)
        invariant channel.Valid() && rc == 0 && !endless && count == |rest|
        invariant channel.failures >= old(channel.failures)
        invariant channel.failures == old(channel.failures) ==> channel.standbyFailures == old(channel.standbyFailures)
        invariant channel.standbyFailures >= old(channel.standbyFailures)
        invariant first ==> rest == data && bytesWritten == 0 && channel.wire == old(channel.wire)
        invariant first ==> channel.failures == old(channel.failures)
        invariant !first ==> Halfway(data, rest, bytesWritten, old(channel.wire), old(channel.standbyFailures))
        decreases count
      {
        var block;
        ghost var sent;
        ghost var standbys := channel.standbyFailures;
        rc, block, endless, sent := SendDataSmartEoi(rest, settings.sendEoi);
        if !first {
          RestStalls(data, rest);
        }
        bytesWritten := bytesWritten + block;
        if rc < 0 {
          return -1, bytesWritten, false;
        }
        if endless || block == 0 {
          return 0, bytesWritten, true;
        }
        count := count - block;
        rest := rest[block..];
        first := false;
      }
      rc := 0;
      if !first {
        assert data[..|data|] == data;
      }
    }

    /** After the first block of a write: all of the data is behind, or the rest starts at an
        end-of-string byte. */
    ghost predicate Halfway(data: seq<byte>, rest: seq<byte>, bytesWritten: nat, wire0: seq<WireByte>, standbys0: nat)
      reads channel
    {
      var b := NextBlock(settings, data);
      && data != [] && b.Size? && 0 < b.n == bytesWritten <= |data| && rest == data[b.n..]
      && (b.eos <==> b.n < |data|) && (b.eos ==> settings.xeos && IsEos(settings, data[b.n]))
      && Sent(wire0, standbys0, data[..b.n], settings.sendEoi || b.eos)
      && Bounded(wire0, standbys0, b.n)
    }

    lemma RestStalls(data: seq<byte>, rest: seq<byte>)
      requires NextBlock(settings, data).Size? && NextBlock(settings, data).n <= |data|
      requires rest == data[NextBlock(settings, data).n..] && rest != []
      requires settings.xeos && IsEos(settings, data[NextBlock(settings, data).n])
      ensures NextBlock(settings, rest) == Size(0, true)
    {
    }

    /** `fread`: any nonempty piece that fits the buffer, or none on an error. */
    method Fread(left: nat) returns (n: nat)
      requires left > 0
      modifies `fileReads, `fileErrors
      ensures n <= left && n <= 0x4000 && fileReads == old(fileReads) + [n]
      ensures fileErrors == old(fileErrors) + if n == 0 then 1 else 0
    {
      n :| 0 <= n <= left && n <= FREAD_BUFFER;
      fileReads := fileReads + [n];
      fileErrors := fileErrors + if n == 0 then 1 else 0;
    }

    /** One block of a file buffer: where the file stands after it. What went before ended with EOI only
        if nothing more will be sent. */
    method SendBlock(file: seq<byte>, written: nat, buffer: seq<byte>, forceEoi: bool,
                     ghost wire0: seq<WireByte>, ghost standbys0: nat, ghost ended: bool)
      returns (rc: int, block: nat, endless: bool)
      requires channel.Valid() && written + |buffer| <= |file| && buffer == file[written..written + |buffer|]
      requires Sent(wire0, standbys0, file[..written], ended) && Bounded(wire0, standbys0, written)
      requires ended ==> NextBlock(settings, buffer) == Size(0, true)
      modifies channel`wire, channel`failures, channel`standbyFailures, channel`atn, channel`underAtn, channel`answers
      ensures channel.master ==> channel.underAtn == old(channel.underAtn)
      ensures rc == 0 || rc == -1
      ensures channel.failures >= old(channel.failures)
      ensures channel.failures == old(channel.failures) ==>
                rc == 0 && channel.standbyFailures == old(channel.standbyFailures)
      ensures channel.standbyFailures >= standbys0
      ensures endless <==> NextBlock(settings, buffer).Never?
      ensures endless ==> block == 0
      ensures !endless ==>
                var b := NextBlock(settings, buffer);
                && b.n <= |buffer|
                && (channel.standbyFailures == standbys0 ==> block <= b.n && (rc == 0 <==> block == b.n))
                && (rc == 0 ==> block == b.n && Bounded(wire0, standbys0, written + block))
      ensures channel.standbyFailures == standbys0 ==>
                var b := NextBlock(settings, buffer);
                && written + block <= |file|
                && channel.wire == wire0 + Tagged(file[..written + block],
                                                  ended || (b.Size? && (forceEoi || b.eos) && 0 < block == b.n))
    {
      ghost var sent;
      rc, block, endless, sent := SendDataSmartEoi(buffer, forceEoi);
      if channel.standbyFailures == standbys0 {
        if ended {
          assert wire0 + Tagged(file[..written], ended) + [] == wire0 + Tagged(file[..written], ended);
        } else {
          var b := NextBlock(settings, buffer);
          FileGrows(file, written, buffer, block, b.Size? && (forceEoi || b.eos) && block == b.n, wire0);
        }
      }
    }

    /** Inside a file buffer: nothing of it is behind; or its first block is, and is all of it, or ended
        before an end-of-string byte. */
    ghost predicate InBuffer(file: seq<byte>, written: nat, buffer: seq<byte>, offset: nat,
                             wire0: seq<WireByte>, standbys0: nat, marked: bool)
      requires written + |buffer| <= |file| && offset <= |buffer|
      reads channel
    {
      var b := NextBlock(settings, buffer);
      && Sent(wire0, standbys0, file[..written + offset], marked || (settings.sendEoi && written + offset == |file|))
      && Bounded(wire0, standbys0, written + offset)
      && (if offset == 0 then !marked else b.Size? && b.n == offset && marked == b.eos)
    }

    /** What part of a file is on the wire, if no standby failed. */
    ghost predicate OnWire(file: seq<byte>, n: nat, wire0: seq<WireByte>, standbys0: nat, marked: bool)
      reads channel
    {
      channel.standbyFailures == standbys0 ==>
        n <= |file| && channel.wire == wire0 + Tagged(file[..n], marked || (settings.sendEoi && n == |file|))
    }

    /** One round of the inner loop: one block of what is left of the buffer. */
    method BufferRound(file: seq<byte>, written: nat, buffer: seq<byte>, offset: nat,
                       ghost wire0: seq<WireByte>, ghost standbys0: nat, ghost marked: bool)
      returns (rc: int, block: nat, endless: bool, ghost marked': bool)
      requires channel.Valid() && written + |buffer| <= |file| && buffer == file[written..written + |buffer|]
      requires offset < |buffer| && InBuffer(file, written, buffer, offset, wire0, standbys0, marked)
      modifies channel`wire, channel`failures, channel`standbyFailures, channel`atn, channel`underAtn, channel`answers
      ensures channel.master ==> channel.underAtn == old(channel.underAtn)
      ensures rc == 0 || rc == -1
      ensures channel.failures >= old(channel.failures) && channel.standbyFailures >= standbys0
      ensures channel.failures == old(channel.failures) ==> rc == 0
      ensures endless ==> rc == 0 && !OneBlock(settings, buffer)
      ensures rc == 0 && !endless ==>
                && 0 < block && offset + block <= |buffer|
                && InBuffer(file, written, buffer, offset + block, wire0, standbys0, marked')
      ensures marked' ==> settings.xeos
      ensures OnWire(file, written + offset + block, wire0, standbys0, marked')
      ensures (rc < 0 || endless) && channel.standbyFailures == standbys0 ==> offset + block < |buffer|
    {
      BlockSize(settings, buffer);
      if offset > 0 {
        RestStalls(buffer, buffer[offset..]);
      }
      assert offset == 0 ==> buffer[offset..] == buffer;
      var sendEoi := settings.sendEoi && written + |buffer| == |file|;
      rc, block, endless := SendBlock(file, written + offset, buffer[offset..], sendEoi, wire0, standbys0, marked);
      marked' := marked || (!endless && NextBlock(settings, buffer).eos && 0 < block == NextBlock(settings, buffer).n);
      // an empty block leaves the next round as this one
      endless := rc == 0 && block == 0;
    }

    /** The inner loop of `my_ibwrtf`: one buffer of the file, in as many writes as it takes. It never
        ends once it meets an end-of-string byte it cannot pass, or cannot end its search for one. */
    method WriteBuffer(file: seq<byte>, written: nat, n: nat, ghost wire0: seq<WireByte>, ghost standbys0: nat)
      returns (rc: int, bytesWritten: nat, endless: bool, ghost marked: bool)
      requires channel.Valid() && 0 < n && written + n <= |file|
      requires Sent(wire0, standbys0, file[..written], false) && Bounded(wire0, standbys0, written)
      modifies channel`wire, channel`failures, channel`standbyFailures, channel`atn, channel`underAtn, channel`answers
      ensures channel.master ==> channel.underAtn == old(channel.underAtn)
      ensures rc == 0 || rc == -1
      ensures channel.failures >= old(channel.failures) && channel.standbyFailures >= standbys0
      ensures channel.failures == old(channel.failures) ==>
                rc == 0 && (endless <==> !OneBlock(settings, file[written..written + n]))
      ensures endless ==> !OneBlock(settings, file[written..written + n])
      ensures marked ==> settings.xeos && (rc < 0 || endless)
      ensures rc == 0 && !endless ==> bytesWritten == written + n && Bounded(wire0, standbys0, bytesWritten)
      ensures OnWire(file, bytesWritten, wire0, standbys0, marked)
      ensures channel.standbyFailures == standbys0 ==>
                bytesWritten <= written + n && (rc == 0 && !endless <==> bytesWritten == written + n)
    {
      var buffer := file[written..written + n];
      BlockSize(settings, buffer);
      var offset := 0;
      rc, endless, marked := 0, false, false;
      while offset < n
        invariant channel.master ==> channel.underAtn == old(channel.underAtn)
        invariant channel.Valid() && offset <= n && rc == 0 && !endless
        invariant channel.failures >= old(channel.failures) && channel.standbyFailures >= standbys0
        invariant InBuffer(file, written, buffer, offset, wire0, standbys0, marked)
        decreases n - offset
      {
        var block;
        rc, block, endless, marked := BufferRound(file, written, buffer, offset, wire0, standbys0, marked);
        offset := offset + block;
        if rc < 0 || endless {
          return rc, written + offset, endless, marked;
        }
      }
      bytesWritten := written + n;
    }

    /** `my_ibwrtf` on an addressed device, unless it never ends: however `fread` splits the file,
        success means that the count is the file's, and then its whole contents are on the wire, with
        EOI on the final byte only, if so configured, exactly when no standby failed. It fails only if a
        driver call or a read of the file does; if none does it never ends exactly when XEOS is on and the
        file holds an end-of-string byte or some piece of it has 256 bytes or more. */
    method MyIbwrtf(file: seq<byte>) returns (rc: int, bytesWritten: nat, endless: bool, ghost marked: bool)
      requires channel.Valid()
      modifies `fileReads, `fileErrors
      modifies channel`wire, channel`failures, channel`standbyFailures, channel`atn, channel`underAtn, channel`answers
      ensures channel.master ==> channel.underAtn == old(channel.underAtn)
      ensures old(fileReads) <= fileReads
      ensures rc == 0 || rc == -1
      ensures channel.failures == old(channel.failures) && fileErrors == old(fileErrors) ==>
                rc == 0 && (endless <==> Stalls(settings, file, fileReads[|old(fileReads)|..]))
      ensures endless ==> Stalls(settings, file, fileReads[|old(fileReads)|..]) && !OneBlock(settings, file)
      ensures marked ==> settings.xeos && (rc < 0 || endless)
      ensures rc == 0 && !endless ==>
                && bytesWritten == |file|
                && (channel.wire == old(channel.wire) + Tagged(file, settings.sendEoi) <==>
                    channel.standbyFailures == old(channel.standbyFailures))
      ensures OnWire(file, bytesWritten, old(channel.wire), old(channel.standbyFailures), marked)
      ensures channel.standbyFailures == old(channel.standbyFailures) ==>
                (rc == 0 && !endless <==> bytesWritten == |file|)
    {
      rc, bytesWritten, endless, marked := 0, 0, false, false;
      ghost var wire0, standbys0 := channel.wire, channel.standbyFailures;
      assert Tagged(file[..0], settings.sendEoi && 0 == |file|) == [] == Tagged(file[..0], false);
      while bytesWritten < |file|
        invariant channel.master ==> channel.underAtn == old(channel.underAtn)
        invariant channel.Valid() && bytesWritten <= |file| && !endless && !marked && rc == 0
        invariant channel.failures >= old(channel.failures) && fileErrors == old(fileErrors)
        invariant old(fileReads) <= fileReads
        invariant channel.failures == old(channel.failures) ==>
                    !Stalls(settings, file[..bytesWritten], fileReads[|old(fileReads)|..])
        invariant Sent(wire0, standbys0, file[..bytesWritten], settings.sendEoi && bytesWritten == |file|)
        invariant Bounded(wire0, standbys0, bytesWritten)
        decreases |file| - bytesWritten
      {
        var freadCount := Fread(|file| - bytesWritten);
        if freadCount == 0 {
          return -1, bytesWritten, false, false;
        }
        ghost var written, pieces := bytesWritten, fileReads[|old(fileReads)|..|fileReads| - 1];
        assert fileReads[|old(fileReads)|..] == pieces + [freadCount];
        PieceStalls(settings, file, written, freadCount, pieces);
        rc, bytesWritten, endless, marked := WriteBuffer(file, bytesWritten, freadCount, wire0, standbys0);
        if rc < 0 || endless {
          PartOfFile(settings, file, written, freadCount);
          return;
        }
      }
      assert file[..|file|] == file;
    }

    /** `InternalSendDataBytes` on an interface: the data, with EOI on its last byte for DABend, or
        followed by a newline with EOI for NLend. Success means that ibcnt is the length of all that, and
        then it is all on the wire exactly when no standby failed. */
    method InternalSendDataBytes(isInterface: bool, data: seq<byte>, eotmode: EotMode) returns (rc: int, ibcnt: nat)
      requires channel.Valid()
      modifies channel`wire, channel`failures, channel`standbyFailures, channel`atn, channel`underAtn, channel`answers
      ensures channel.master ==> channel.underAtn == old(channel.underAtn)
      ensures !isInterface ==> rc == -1 && ibcnt == 0 && channel.wire == old(channel.wire)
      ensures isInterface && channel.failures == old(channel.failures) ==> rc >= 0
      ensures isInterface ==>
                var message := if eotmode == NLend then data + [10] else data;
                && (rc >= 0 ==> ibcnt == |message|)
                && (rc >= 0 ==> (channel.wire == old(channel.wire) + Tagged(message, eotmode != NULLend) <==>
                                 channel.standbyFailures == old(channel.standbyFailures)))
                && (channel.standbyFailures == old(channel.standbyFailures) ==>
                      && ibcnt <= |message| && (rc >= 0 <==> ibcnt == |message|)
                      && channel.wire == old(channel.wire) +
                                         Tagged(message[..ibcnt], eotmode != NULLend && ibcnt == |message|))
    {
      if !isInterface {
        return -1, 0;
      }
      ghost var wire0, message := channel.wire, if eotmode == NLend then data + [NEWLINE] else data;
      ghost var sent;
      rc, ibcnt, sent := channel.WriteIoctl(data, eotmode == DABend);
      assert data[..sent] == message[..sent] && data[..|data|] == data && message[..|message|] == message;
      if rc < 0 || eotmode != NLend {
        return;
      }
      ghost var more;
      var count;
      rc, count, more := channel.WriteIoctl([NEWLINE], true);
      ibcnt := ibcnt + count;
      if channel.standbyFailures == old(channel.standbyFailures) {
        SendMore(message, |data|, [NEWLINE], count, true, true);
        Associate(wire0, Tagged(data, false), Tagged([NEWLINE][..count], count == 1));
      }
    }
  }

  lemma FileGrows(file: seq<byte>, written: nat, buffer: seq<byte>, n: nat, eoi: bool, wire0: seq<WireByte>)
    requires written + |buffer| <= |file| && buffer == file[written..written + |buffer|] && n <= |buffer|
    ensures (wire0 + Tagged(file[..written], false)) + Tagged(buffer[..n], eoi) ==
            wire0 + Tagged(file[..written + n], eoi && n > 0)
  {
    assert file[..written + n] == file[..written] + buffer[..n];
    assert Tagged(file[..written], false) + Tagged(buffer[..n], eoi) == Tagged(file[..written + n], eoi && n > 0);
  }

  /** A part of data that passes in one block passes in one block. */
  /** A file on which a write never ends, read in these pieces. */
  predicate Stalls(s: Settings, file: seq<byte>, pieces: seq<nat>) {
    s.xeos && ((exists i :: 0 <= i < |file| && IsEos(s, file[i])) ||
               (exists k :: 0 <= k < |pieces| && pieces[k] >= 0x100))
  }

  /** One piece more: it passes in one block, or the write stalls. */
  lemma PieceStalls(s: Settings, file: seq<byte>, written: nat, n: nat, pieces: seq<nat>)
    requires written + n <= |file|
    ensures !OneBlock(s, file[written..written + n]) ==> Stalls(s, file, pieces + [n])
    ensures OneBlock(s, file[written..written + n]) && !Stalls(s, file[..written], pieces) ==>
              !Stalls(s, file[..written + n], pieces + [n])
  {
    var piece, more := file[written..written + n], pieces + [n];
    assert more[|pieces|] == n;
    if i :| 0 <= i < n && IsEos(s, piece[i]) {
      assert IsEos(s, file[written + i]);
    }
    forall i | 0 <= i < written + n ensures file[i] == if i < written then file[..written][i] else piece[i - written] {
    }
  }

  lemma PartOfFile(s: Settings, file: seq<byte>, written: nat, n: nat)
    requires written + n <= |file|
    ensures OneBlock(s, file) ==> OneBlock(s, file[written..written + n])
  {
  }
}
