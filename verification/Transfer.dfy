/** The data transfers: reads and writes in board-buffer pieces over a driver that may transfer part
    of a request and may fail, with EOI on the last byte, and errors suppressed once all is sent. */
module Transfer {
  import opened Errno
  import opened Memory

  /** A byte on the wire, and whether EOI was true with it. */
  datatype WireByte = WireByte(value: byte, eoi: bool)

  /** A byte a talker has ready, and whether it ends a message. */
  datatype TalkerByte = TalkerByte(value: byte, end: bool)

  /** Bytes on the wire, with EOI on the last one if asked for. */
  function Tagged(bytes: seq<byte>, eoi: bool): (t: seq<WireByte>)
    ensures |t| == |bytes|
    ensures forall i :: 0 <= i < |t| ==> t[i].value == bytes[i] && (t[i].eoi <==> eoi && i + 1 == |t|)
  {
    seq(|bytes|, i requires 0 <= i < |bytes| => WireByte(bytes[i], eoi && i == |bytes| - 1))
  }

  function Values(bytes: seq<TalkerByte>): (v: seq<byte>)
    ensures |v| == |bytes|
  {
    seq(|bytes|, i requires 0 <= i < |bytes| => bytes[i].value)
  }

  /** Nothing follows the first END byte. */
  predicate StopsAtEnd(bytes: seq<TalkerByte>) {
    forall i :: 0 <= i < |bytes| - 1 ==> !bytes[i].end
  }

  predicate EndsMessage(bytes: seq<TalkerByte>) {
    bytes != [] && bytes[|bytes| - 1].end
  }

  /** What was taken so far, and what one more read took. */
  lemma TakeMore(all: seq<TalkerByte>, i: nat, j: nat, k: nat)
    requires i <= j <= k <= |all| && !EndsMessage(all[i..j])
    requires StopsAtEnd(all[i..j]) && StopsAtEnd(all[j..k])
    ensures Values(all[i..k]) == Values(all[i..j]) + Values(all[j..k])
    ensures StopsAtEnd(all[i..k]) && (j < k ==> (EndsMessage(all[i..k]) <==> EndsMessage(all[j..k])))
  {
    assert all[i..k] == all[i..j] + all[j..k];
  }

  /** The size of the buffer a file is read through. */
  const FREAD_BUFFER: nat := 0x4000
  const NEWLINE: byte := 10

  // ---- The count of a write ----------------------------------------------------------------

  /** How one piece of a write went: standby failed before it, or this many bytes were sent. */
  datatype Answer = NoStandby | Wrote(count: nat)

  /** The count a write has run up, the count of its last piece, and the bytes really sent. */
  datatype Count = Count(completed: nat, last: nat, sent: nat)

  /** The in-out count of a piece that got no standby is still the one of the piece before. */
  function Progress(answers: seq<Answer>): Count {
    if answers == [] then Count(0, 0, 0) else
      var c := Progress(answers[..|answers| - 1]);
      match answers[|answers| - 1]
      case NoStandby => Count(c.completed + c.last, c.last, c.sent)
      case Wrote(n) => Count(c.completed + n, n, c.sent + n)
  }

  lemma ProgressMore(answers: seq<Answer>, a: Answer)
    ensures var c := Progress(answers);
            Progress(answers + [a]) ==
            if a.NoStandby? then Count(c.completed + c.last, c.last, c.sent)
            else Count(c.completed + a.count, a.count, c.sent + a.count)
  {
    assert (answers + [a])[..|answers|] == answers;
  }

  /** A false success: of 20 bytes written in pieces of 10 the second gets no standby, and the count is
      20 with 10 bytes sent. */
  lemma FalseSuccess()
    ensures Progress([Wrote(10), NoStandby]) == Count(20, 10, 10)
  {
    var a: seq<Answer> := [];
    ProgressMore(a, Wrote(10));
    ProgressMore(a + [Wrote(10)], NoStandby);
    assert a + [Wrote(10)] + [NoStandby] == [Wrote(10), NoStandby];
  }

  datatype EotMode = NULLend | DABend | NLend

  class Channel {
    const bufferLength: nat
    const master: bool
    var wire: seq<WireByte>
    const incoming: seq<TalkerByte>
    var taken: nat
    /** How many driver calls reported an error or a time-out, and how many of these were for standby. */
    var failures: nat
    var standbyFailures: nat
    /** How each piece written went. */
    var answers: seq<Answer>
    /** Whether ATN is true, and how many data bytes went while it was. */
    var atn: bool
    var underAtn: nat

    constructor (bufferLength: nat, master: bool, incoming: seq<TalkerByte>)
      requires bufferLength > 0
      ensures Valid()
      ensures this.bufferLength == bufferLength && this.master == master && this.incoming == incoming
      ensures wire == [] && taken == 0
    {
      this.bufferLength, this.master, this.incoming := bufferLength, master, incoming;
      wire, taken, failures, standbyFailures, answers := [], 0, 0, 0, [];
      atn, underAtn := true, 0;
    }

    predicate Valid()
      reads this
    {
      bufferLength > 0 && taken <= |incoming|
    }

    // ---- Driver contract -------------------------------------------------------------------

    /** The driver sends a prefix, EOI going with the last byte; it makes progress or reports an
        error, and may do both. */
    method Write(bytes: seq<byte>, sendEoi: bool) returns (ret: int, written: nat)
      requires Valid() && 0 < |bytes| <= bufferLength
      modifies this`wire, this`failures, this`underAtn
      ensures underAtn == old(underAtn) + if atn then written else 0
      ensures failures == old(failures) + if ret < 0 then 1 else 0
      ensures ret <= 0 && written <= |bytes| && (written == 0 ==> ret < 0)
      ensures wire == old(wire) + Tagged(bytes[..written], sendEoi && written == |bytes|)
    {
      ret :| ret <= 0;
      written :| 0 <= written <= |bytes| && (written == 0 ==> ret < 0);
      wire := wire + Tagged(bytes[..written], sendEoi && written == |bytes|);
      underAtn := underAtn + if atn then written else 0;
      failures := failures + if ret < 0 then 1 else 0;
    }

    /** The driver reads what the talker has ready, at most `length` bytes and nothing past an END; it
        makes progress or reports an error, and may do both. */
    method Read(length: nat) returns (ret: int, bytes: seq<byte>, end: bool)
      requires Valid() && 0 < length <= bufferLength
      modifies this`taken, this`failures, this`underAtn
      ensures failures == old(failures) + if ret < 0 then 1 else 0
      ensures underAtn == old(underAtn) + if atn then |bytes| else 0
      ensures Valid() && old(taken) <= taken && ret <= 0
      ensures var got := incoming[old(taken)..taken];
              && bytes == Values(got) && |got| <= length && StopsAtEnd(got)
              && (end <==> EndsMessage(got)) && (got == [] ==> ret < 0)
    {
      ret :| ret <= 0;
      var n: nat := 0;
      while n < length && taken + n < |incoming| && (n == 0 || !incoming[taken + n - 1].end)
        invariant 0 <= n <= length && taken + n <= |incoming|
        invariant StopsAtEnd(incoming[taken..taken + n])
      {
        var more := *;
        if !more {
          break;
        }
        assert incoming[taken..taken + n + 1] == incoming[taken..taken + n] + [incoming[taken + n]];
        n := n + 1;
      }
      if n == 0 {
        ret := -EIO;
      }
      var got := incoming[taken..taken + n];
      bytes, end := Values(got), EndsMessage(got);
      taken := taken + n;
      underAtn := underAtn + if atn then n else 0;
      failures := failures + if ret < 0 then 1 else 0;
    }

    /** `ibgts` of a master board. */
    method Ibgts() returns (ret: int)
      modifies this`failures, this`standbyFailures, this`atn
      ensures var more := if ret < 0 then 1 else 0;
              failures == old(failures) + more && standbyFailures == old(standbyFailures) + more
      ensures atn == if ret < 0 then old(atn) else false
    {
      ret := *;
      if ret < 0 {
        failures, standbyFailures := failures + 1, standbyFailures + 1;
      } else {
        atn := false;
      }
    }

    /** Whether the timer ran out on the call just made. */
    method IoTimedOut() returns (timedOut: bool)
      modifies this`failures
      ensures failures == old(failures) + if timedOut then 1 else 0
    {
      timedOut := *;
      failures := failures + if timedOut then 1 else 0;
    }

    // ---- Writes ----------------------------------------------------------------------------

    /** `ibwrt`. The count is an in-out parameter: an early return leaves what the caller had in it. */
    method Ibwrt(bytes: seq<byte>, sendEoi: bool, count0: nat) returns (ret: int, count: nat)
      requires Valid() && |bytes| <= bufferLength
      modifies this`wire, this`failures, this`standbyFailures, this`atn, this`underAtn, this`answers
      ensures master ==> underAtn == old(underAtn)
      ensures ret <= 0 && (ret < 0 <==> failures > old(failures)) && failures >= old(failures)
      ensures bytes == [] ==> count == count0 && wire == old(wire) && answers == old(answers)
      ensures standbyFailures > old(standbyFailures) ==>
                ret < 0 && count == count0 && wire == old(wire) && answers == old(answers) + [NoStandby]
      ensures bytes != [] && standbyFailures == old(standbyFailures) ==>
                && count <= |bytes| && (count == 0 ==> ret < 0) && answers == old(answers) + [Wrote(count)]
                && wire == old(wire) + Tagged(bytes[..count], sendEoi && count == |bytes|)
      ensures standbyFailures >= old(standbyFailures)
    {
      if bytes == [] {
        return 0, count0;
      }
      if master {
        ret := Ibgts();
        if ret < 0 {
          answers := answers + [NoStandby];
          return ret, count0;
        }
      }
      ret, count := Write(bytes, sendEoi);
      answers := answers + [Wrote(count)];
      var timedOut := IoTimedOut();
      if timedOut {
        ret := -ETIMEDOUT;
      }
    }

    /** `write_ioctl` on a fresh request. The bytes on the wire are a prefix of the request, with EOI on
        the last byte of the request only. If going to standby fails after the first piece, the count of
        the piece before is counted again: the count reported is what was sent exactly when that did
        not happen. The result is no error exactly when the count reported is the request's, and then
        all of it was sent exactly when no standby failed. Without a failing driver call all is sent. */
    method WriteIoctl(data: seq<byte>, sendEoi: bool) returns (ret: int, completed: nat, ghost sent: nat)
      requires Valid()
      modifies this`wire, this`failures, this`standbyFailures, this`atn, this`underAtn, this`answers
      ensures master ==> underAtn == old(underAtn)
      ensures failures >= old(failures) && standbyFailures >= old(standbyFailures) && ret <= 0
      ensures failures == old(failures) ==> ret == 0 && standbyFailures == old(standbyFailures)
      ensures sent <= |data| && wire == old(wire) + Tagged(data[..sent], sendEoi && sent == |data|)
      ensures old(answers) <= answers
      ensures var c := Progress(answers[|old(answers)|..]); completed == c.completed && sent == c.sent
      ensures completed == sent <==> standbyFailures == old(standbyFailures) || sent == 0
      ensures ret == 0 <==> completed == |data|
      ensures ret == 0 ==> (sent == |data| <==> standbyFailures == old(standbyFailures))
    {
      var remain: int, index, written := |data|, 0, 0;
      ret, sent := 0, 0;
      ghost var before := answers;
      assert answers[|answers|..] == [];
      assert wire == wire + Tagged(data[..0], sendEoi && 0 == |data|);
      while remain > 0
        invariant master ==> underAtn == old(underAtn)
        invariant remain == |data| - sent && index == sent <= |data| && ret == 0
        invariant wire == old(wire) + Tagged(data[..sent], sendEoi && sent == |data|)
        invariant standbyFailures == old(standbyFailures) && failures == old(failures)
        invariant before <= answers && Progress(answers[|before|..]) == Count(index, written, sent)
        invariant written == 0 <==> sent == 0
        decreases remain
      {
        ghost var piecesBefore, writtenBefore := answers, written;
        var count;
        ret, count := WritePiece(data, index, remain, sendEoi, written);
        Suffix(before, piecesBefore, answers);
        ProgressMore(piecesBefore[|before|..], answers[|piecesBefore|]);
        sent := if standbyFailures == old(standbyFailures) then sent + count else sent;
        written := count;
        index := index + written;
        remain := remain - written;
        if ret < 0 || written == 0 {
          break;
        }
      }
      completed := |data| - remain;
      if remain == 0 {
        ret := 0;
      }
    }

    /** One piece: at most one board buffer, with EOI if nothing remains after it. */
    method WritePiece(data: seq<byte>, index: nat, remain: nat, sendEoi: bool, written: nat)
      returns (ret: int, count: nat)
      requires Valid() && 0 < remain && index + remain == |data|
      modifies this`wire, this`failures, this`standbyFailures, this`atn, this`underAtn, this`answers
      ensures master ==> underAtn == old(underAtn)
      ensures ret <= 0 && failures >= old(failures) && (ret < 0 <==> failures > old(failures))
      ensures |answers| == |old(answers)| + 1 && old(answers) <= answers
      ensures standbyFailures >= old(standbyFailures)
      ensures standbyFailures > old(standbyFailures) ==>
                ret < 0 && count == written && wire == old(wire) && answers[|old(answers)|] == NoStandby
      ensures standbyFailures == old(standbyFailures) ==>
                && count <= remain && (count == 0 ==> ret < 0) && answers[|old(answers)|] == Wrote(count)
                && forall w :: old(wire) == w + Tagged(data[..index], false) ==>
                     wire == w + Tagged(data[..index + count], sendEoi && index + count == |data|)
    {
      var nbytes := if bufferLength < remain then bufferLength else remain;
      var eoi := remain <= bufferLength && sendEoi;
      var piece := data[index..index + nbytes];
      ret, count := Ibwrt(piece, eoi, written);
      if standbyFailures == old(standbyFailures) {
        SendMore(data, index, piece, count, sendEoi, eoi);
        forall w | old(wire) == w + Tagged(data[..index], false)
          ensures wire == w + Tagged(data[..index + count], sendEoi && index + count == |data|)
        {
          Associate(w, Tagged(data[..index], false), Tagged(piece[..count], eoi && count == |piece|));
        }
      }
    }

    // ---- Reads -----------------------------------------------------------------------------

    /** `ibrd`: driver reads until the request is filled, a message ended, or an error came. */
    method Ibrd(length: nat) returns (ret: int, bytes: seq<byte>, end: bool)
      requires Valid() && length <= bufferLength
      modifies this`taken, this`failures, this`standbyFailures, this`atn, this`underAtn
      ensures master ==> underAtn == old(underAtn)
      ensures failures >= old(failures) && (ret < 0 <==> failures > old(failures))
      ensures Valid() && old(taken) <= taken && ret <= 0
      ensures var got := incoming[old(taken)..taken];
              && bytes == Values(got) && |got| <= length && StopsAtEnd(got) && (end <==> EndsMessage(got))
      ensures ret == 0 ==> |bytes| == length || end
      ensures length == 0 ==> ret == 0 && failures == old(failures) && atn == old(atn)
    {
      bytes, end := [], false;
      if length == 0 {
        return 0, bytes, end;
      }
      if master {
        ret := Ibgts();
        if ret < 0 {
          return;
        }
      }
      ret := 0;
      while ret == 0 && |bytes| < length && !end
        invariant master ==> !atn && underAtn == old(underAtn)
        invariant Valid() && old(taken) <= taken && ret <= 0
        invariant failures >= old(failures) && (ret < 0 <==> failures > old(failures))
        invariant var got := incoming[old(taken)..taken];
                  && bytes == Values(got) && |got| <= length && StopsAtEnd(got) && (end <==> EndsMessage(got))
        decreases if ret == 0 then 1 else 0, length - |bytes|
      {
        ghost var before := taken;
        var more;
        ret, more, end := Read(length - |bytes|);
        TakeMore(incoming, old(taken), before, taken);
        bytes := bytes + more;
      }
    }

    /** `read_ioctl` on a fresh request, whose remainder is kept in 16 bits. The bytes returned are the
        talker's next bytes, none past the first END; the result is an error exactly when the low 16
        bits of the request were not filled and no message ended. The count reported is the number of
        bytes returned exactly when the request fits 16 bits. */
    method ReadIoctl(requested: nat) returns (ret: int, completed: nat, buffer: seq<byte>, end: bool)
      requires Valid()
      modifies this`taken, this`failures, this`standbyFailures, this`atn, this`underAtn
      ensures master ==> underAtn == old(underAtn)
      ensures failures >= old(failures) && (failures == old(failures) ==> ret == 0)
      ensures Valid() && old(taken) <= taken && ret <= 0
      ensures var got := incoming[old(taken)..taken];
              && buffer == Values(got) && |got| <= requested && StopsAtEnd(got) && (end <==> EndsMessage(got))
      ensures ret == 0 <==> |buffer| == requested % 0x1_0000 || end
      ensures |buffer| <= completed <= requested
      ensures completed == |buffer| <==> requested < 0x1_0000
    {
      var size: nat := requested % 0x1_0000;
      var remain: nat := size;
      ret, buffer, end := 0, [], false;
      while remain > 0 && !end
        invariant master ==> underAtn == old(underAtn)
        invariant Valid() && old(taken) <= taken && ret <= 0
        invariant |buffer| + remain == size
        invariant ret == 0 && failures == old(failures)
        invariant var got := incoming[old(taken)..taken];
                  && buffer == Values(got) && StopsAtEnd(got) && (end <==> EndsMessage(got))
        decreases remain
      {
        ghost var before := taken;
        var bytes;
        ret, bytes, end := Ibrd(if bufferLength < remain then bufferLength else remain);
        TakeMore(incoming, old(taken), before, taken);
        if |bytes| == 0 {
          break;
        }
        buffer := buffer + bytes;
        remain := remain - |bytes|;
        if ret < 0 {
          break;
        }
      }
      completed := requested - remain;
      if remain == 0 || end {
        ret := 0;
      }
    }
  }

  lemma Suffix<T>(a: seq<T>, b: seq<T>, c: seq<T>)
    requires a <= b <= c && |c| == |b| + 1
    ensures c[|a|..] == b[|a|..] + [c[|b|]]
  {
  }

  lemma SendMore(data: seq<byte>, sent: nat, piece: seq<byte>, written: nat, sendEoi: bool, eoi: bool)
    requires sent + |piece| <= |data| && piece == data[sent..sent + |piece|] && written <= |piece|
    requires sent < |data|
    requires eoi ==> sendEoi
    requires eoi <==> sendEoi && sent + |piece| == |data|
    ensures Tagged(data[..sent], sendEoi && sent == |data|) + Tagged(piece[..written], eoi && written == |piece|) ==
            Tagged(data[..sent + written], sendEoi && sent + written == |data|)
  {
    assert data[..sent + written] == data[..sent] + piece[..written];
  }
}
