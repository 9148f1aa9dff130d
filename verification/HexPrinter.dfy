/** A reference printer for Intel HEX files (record types 00 and 01 of the Intel Hexadecimal Object
    File Format Specification), and the proof that the reader undoes it. */
module HexPrinter {
  import opened Memory
  import opened HexReader

  const DIGITS := "0123456789ABCDEF"
  const MAX_LINE: nat := BUFFER_SIZE - 1
  const EOF_LINE := ":00000001FF\n"

  /** One line of a file: a comment line with its newline, or a data record with the characters of its
      line. */
  datatype Item = CommentItem(line: string) | DataItem(record: Block, chars: string)

  function Hex2(v: nat): string {
    [DIGITS[v / 16 % 16], DIGITS[v % 16]]
  }

  function HexData(data: seq<byte>): string {
    seq(2 * |data|, k requires 0 <= k < 2 * |data| => Hex2(data[k / 2])[k % 2])
  }

  function ByteSum(data: seq<byte>): nat {
    if data == [] then 0 else data[0] + ByteSum(data[1..])
  }

  function Checksum(r: Block): nat {
    (0x100 - (|r.data| + r.addr / 0x100 + r.addr % 0x100 + ByteSum(r.data)) % 0x100) % 0x100
  }

  function Body(r: Block): string {
    ":" + Hex2(|r.data|) + Hex2(r.addr / 0x100) + Hex2(r.addr % 0x100) + "00" + HexData(r.data) + Hex2(Checksum(r))
  }

  /** The two digits of a byte, each in either case. */
  predicate TwoDigitsOf(s: string, v: nat) {
    |s| == 2 && Digit(s[0], v / 16 % 16) && Digit(s[1], v % 16)
  }

  predicate PairAt(s: string, lo: nat, v: nat) {
    lo + 2 <= |s| && TwoDigitsOf(s[lo..lo + 2], v)
  }

  /** The characters of a data record: a colon, the length, the address, type 00, the data and the
      checksum, in digits of either case. */
  predicate RecordLine(s: string, r: Block) {
    var n := 2 * |r.data|;
    && |s| == 11 + n && s[0] == ':'
    && TwoDigitsOf(s[1..3], |r.data|)
    && TwoDigitsOf(s[3..5], r.addr / 0x100) && TwoDigitsOf(s[5..7], r.addr % 0x100)
    && s[7..9] == "00"
    && (forall i :: 0 <= i < |r.data| ==> PairAt(s, 9 + 2 * i, r.data[i]))
    && TwoDigitsOf(s[9 + n..11 + n], Checksum(r))
  }

  /** A comment line the reader skips as a whole: whenever `fgets` has to cut it, what follows the
      cut starts with '#' again. */
  predicate SkippedComment(line: string) {
    && line != [] && line[0] == '#'
    && if |line| <= MAX_LINE then line[|line| - 1] == '\n' && '\n' !in line[..|line| - 1]
       else '\n' !in line[..MAX_LINE] && SkippedComment(line[MAX_LINE..])
  }

  function Print(item: Item): string {
    match item
    case CommentItem(line) => line
    case DataItem(_, chars) => chars + "\n"
  }

  function PrintAll(items: seq<Item>): string {
    if items == [] then [] else Print(items[0]) + PrintAll(items[1..])
  }

  function Records(items: seq<Item>): seq<Block> {
    if items == [] then []
    else if items[0].DataItem? then [items[0].record] + Records(items[1..])
    else Records(items[1..])
  }

  /** A record the two-digit length and four-digit address columns can express. */
  predicate Printable(item: Item) {
    match item
    case CommentItem(line) => SkippedComment(line)
    case DataItem(r, chars) => |r.data| <= 255 && r.addr < ADDRESS_SPACE && RecordLine(chars, r)
  }

  // ---- Columns -----------------------------------------------------------------------------

  lemma FieldOfDigits(b: string, lo: nat, hi: nat)
    requires lo < hi <= |b| && hi - lo <= 4 && forall k :: lo <= k < hi ==> IsHexDigit(b[k])
    ensures Field(b, lo, hi) == HexValue(b[lo..hi], 0)
  {
    var s := b[lo..hi];
    StrLenIs(s + [NUL], |s|);
    StrLenNoNul(s);
    assert s[..|s|] == s;
    assert IsHexDigit(s[0]) && (|s| > 1 ==> IsHexDigit(s[1]));
    HexValueBound(s, 0, 4);
  }

  lemma {:induction false} StrLenNoNul(s: string)
    requires NUL !in s
    ensures StrLen(s) == |s|
    decreases |s|
  {
    if s != [] {
      StrLenNoNul(s[1..]);
    }
  }

  lemma {:induction false} StrLenIs(b: string, k: nat)
    requires k < |b| && b[k] == NUL && NUL !in b[..k]
    ensures StrLen(b) == k
    decreases k
  {
    if k > 0 {
      assert b[0] in b[..k] && forall c :: c in b[1..][..k - 1] ==> c in b[..k];
      StrLenIs(b[1..], k - 1);
    }
  }

  lemma TwoAppended(s: string, v: nat, rest: string, acc: nat)
    requires TwoDigitsOf(s, v) && v < 0x100
    ensures HexValue(s + rest, acc) == HexValue(rest, 0x100 * acc + v)
    ensures IsHexDigit(s[0]) && IsHexDigit(s[1])
  {
    DigitIs(s[0]);
    DigitIs(s[1]);
    var t := s + rest;
    assert t[1..][1..] == rest;
    assert HexValue(t, acc) == HexValue(t[1..], 16 * acc + v / 16 % 16);
    assert HexValue(t[1..], 16 * acc + v / 16 % 16) == HexValue(rest, 16 * (16 * acc + v / 16 % 16) + v % 16);
    TwoNibbles(v, acc);
  }

  lemma TwoNibbles(v: nat, acc: nat)
    requires v < 0x100
    ensures 16 * (16 * acc + v / 16 % 16) + v % 16 == 0x100 * acc + v
  {
  }

  lemma Hex2Value(b: string, lo: nat, v: nat)
    requires lo + 2 <= |b| && TwoDigitsOf(b[lo..lo + 2], v) && v < 0x100
    ensures Field(b, lo, lo + 2) == v
  {
    var s := b[lo..lo + 2];
    TwoAppended(s, v, [], 0);
    assert s + [] == s && b[lo] == s[0] && b[lo + 1] == s[1];
    FieldOfDigits(b, lo, lo + 2);
  }

  lemma Hex4Value(b: string, lo: nat, v: nat)
    requires lo + 4 <= |b| && v < ADDRESS_SPACE
    requires TwoDigitsOf(b[lo..lo + 2], v / 0x100) && TwoDigitsOf(b[lo + 2..lo + 4], v % 0x100)
    ensures Field(b, lo, lo + 4) == v
  {
    FourDigits(b, lo, v / 0x100, v % 0x100);
    FieldOfDigits(b, lo, lo + 4);
  }

  lemma FourDigits(b: string, lo: nat, v: nat, w: nat)
    requires lo + 4 <= |b| && v < 0x100 && w < 0x100
    requires TwoDigitsOf(b[lo..lo + 2], v) && TwoDigitsOf(b[lo + 2..lo + 4], w)
    ensures HexValue(b[lo..lo + 4], 0) == 0x100 * v + w && forall k :: lo <= k < lo + 4 ==> IsHexDigit(b[k])
  {
    var s, t := b[lo..lo + 2], b[lo + 2..lo + 4];
    TwoAppended(s, v, t, 0);
    TwoAppended(t, w, [], v);
    assert t + [] == t && s + t == b[lo..lo + 4];
    assert b[lo] == s[0] && b[lo + 1] == s[1] && b[lo + 2] == t[0] && b[lo + 3] == t[1];
  }

  /** After the colon a record's line has only hexadecimal digits. */
  lemma RecordDigits(s: string, r: Block, k: nat)
    requires RecordLine(s, r) && 1 <= k < |s|
    ensures IsHexDigit(s[k])
  {
    var i := if k >= 9 then (k - 9) / 2 else 0;
    if k >= 9 && i < |r.data| {
      DataDigits(s, r, i);
      PairDigits(s, 9 + 2 * i, r.data[i], k);
    } else if k >= 9 {
      PairDigits(s, 9 + 2 * |r.data|, Checksum(r), k);
    } else if k >= 7 {
      assert s[k] == s[7..9][k - 7];
    } else if k >= 5 {
      PairDigits(s, 5, r.addr % 0x100, k);
    } else if k >= 3 {
      PairDigits(s, 3, r.addr / 0x100, k);
    } else {
      PairDigits(s, 1, |r.data|, k);
    }
  }

  lemma PairDigits(s: string, lo: nat, v: nat, k: nat)
    requires PairAt(s, lo, v) && lo <= k < lo + 2
    ensures IsHexDigit(s[k])
  {
    assert s[k] == s[lo..lo + 2][k - lo];
    DigitIs(s[k]);
  }

  lemma AllDigits(s: string, r: Block)
    requires RecordLine(s, r)
    ensures forall k :: 1 <= k < |s| ==> IsHexDigit(s[k])
  {
    forall k | 1 <= k < |s| ensures IsHexDigit(s[k]) {
      RecordDigits(s, r, k);
    }
  }

  lemma Hex2Prints(v: nat)
    ensures TwoDigitsOf(Hex2(v), v)
  {
  }

  /** The upper-case printer prints such lines. */
  lemma BodyIsLine(r: Block)
    ensures RecordLine(Body(r), r)
  {
    var s := Body(r);
    BodyParts(r, Hex2(|r.data|), Hex2(r.addr / 0x100), Hex2(r.addr % 0x100), HexData(r.data), Hex2(Checksum(r)));
    Hex2Prints(|r.data|);
    Hex2Prints(r.addr / 0x100);
    Hex2Prints(r.addr % 0x100);
    Hex2Prints(Checksum(r));
    forall i | 0 <= i < |r.data| ensures PairAt(s, 9 + 2 * i, r.data[i]) {
      DataPrinted(s, r.data, i);
    }
  }

  lemma BodyParts(r: Block, len: string, hi: string, lo: string, data: string, sum: string)
    requires |len| == |hi| == |lo| == |sum| == 2
    requires Body(r) == ":" + len + hi + lo + "00" + data + sum
    ensures var s, n := Body(r), |data|;
            && |s| == 11 + n && s[0] == ':' && s[1..3] == len && s[3..5] == hi && s[5..7] == lo
            && s[7..9] == "00" && s[9..9 + n] == data && s[9 + n..11 + n] == sum
  {
  }

  lemma DataPrinted(s: string, data: seq<byte>, i: nat)
    requires i < |data| && 9 + 2 * |data| <= |s| && s[9..9 + 2 * |data|] == HexData(data)
    ensures PairAt(s, 9 + 2 * i, data[i])
  {
    HexDataAt(data, i);
    Hex2Prints(data[i]);
    var d, pair := s[9..9 + 2 * |data|], s[9 + 2 * i..11 + 2 * i];
    assert pair[0] == d[2 * i] && pair[1] == d[2 * i + 1];
  }

  // ---- Lines -------------------------------------------------------------------------------

  lemma {:induction false} WithoutNewlineIs(b: string, k: nat)
    requires k < |b| && '\n' !in b[..k] && NUL !in b[..k]
    ensures b[k] == NUL ==> WithoutNewline(b) == b
    ensures b[k] == '\n' ==> WithoutNewline(b) == b[k := NUL]
    decreases k
  {
    if k > 0 {
      assert b[0] in b[..k] && forall c :: c in b[1..][..k - 1] ==> c in b[..k];
      WithoutNewlineIs(b[1..], k - 1);
    }
  }

  /** The characters of a record's line that fit in one buffer. */
  function Chunk(s: string): string {
    if |s| < MAX_LINE then s + "\n" else s[..MAX_LINE]
  }

  lemma ChunkTaken(s: string, r: Block, rest: string)
    requires RecordLine(s, r)
    ensures LineLength(s + "\n" + rest, MAX_LINE) == |Chunk(s)|
    ensures (s + "\n" + rest)[..|Chunk(s)|] == Chunk(s)
  {
    AllDigits(s, r);
    var text := s + "\n" + rest;
    var n := if |s| < MAX_LINE then |s| else MAX_LINE;
    assert text[..n] == s[..n];
    assert '\n' !in text[..n];
    LineLengthIs(text, MAX_LINE, n);
  }

  lemma ChunkBuffer(s: string, r: Block, buf: string) returns (b: string)
    requires |buf| == BUFFER_SIZE && RecordLine(s, r)
    ensures b == WithoutNewline(Filled(buf, Chunk(s))) && |b| == BUFFER_SIZE
    ensures var n := if |s| < MAX_LINE then |s| else MAX_LINE;
            b[..n] == s[..n] && StrLen(b) == n
  {
    AllDigits(s, r);
    var filled := Filled(buf, Chunk(s));
    var n := if |s| < MAX_LINE then |s| else MAX_LINE;
    assert filled[..n] == s[..n];
    forall k | 0 <= k < n ensures filled[k] != '\n' && filled[k] != NUL {
      assert filled[k] == filled[..n][k] == s[k];
    }
    WithoutNewlineIs(filled, n);
    b := WithoutNewline(filled);
    assert b[..n] == filled[..n];
    StrLenIs(b, n);
  }

  /** A record's line is read back if it, or all but its newline, fits the buffer. */
  lemma RecordReadBack(s: string, r: Block, buf: string)
    requires |buf| == BUFFER_SIZE && |r.data| <= 255 && r.addr < ADDRESS_SPACE && RecordLine(s, r)
    ensures Classify(Filled(buf, Chunk(s))) == if |r.data| <= 250 then Data(r) else TooShort
  {
    var b := ChunkBuffer(s, r, buf);
    assert Filled(buf, Chunk(s))[0] == s[0];
    ColumnsReadBack(s, r, b);
    RecordColumns(Filled(buf, Chunk(s)), b, |r.data|, r.addr, 0);
    RecordClassified(s, r, b);
  }

  /** The numeric columns of a record's line. */
  lemma ColumnsReadBack(s: string, r: Block, b: string)
    requires |b| == BUFFER_SIZE && |r.data| <= 255 && r.addr < ADDRESS_SPACE && RecordLine(s, r)
    requires 9 <= StrLen(b) <= |s| && b[..StrLen(b)] == s[..StrLen(b)]
    ensures Field(b, 1, 3) == |r.data| && Field(b, 3, 7) % UNSIGNED == r.addr && Field(b, 7, 9) % 0x100 == 0
  {
    var n := StrLen(b);
    SameColumns(b, s, n, 1, 3);
    SameColumns(b, s, n, 3, 5);
    SameColumns(b, s, n, 5, 7);
    SameColumns(b, s, n, 7, 9);
    Hex2Value(b, 1, |r.data|);
    Hex4Value(b, 3, r.addr);
    SmallNumber(r.addr, UNSIGNED);
    Hex2Value(b, 7, 0);
  }

  lemma SmallNumber(v: nat, m: nat)
    requires v < m
    ensures v % m == v
  {
  }

  lemma RecordClassified(s: string, r: Block, b: string)
    requires |b| == BUFFER_SIZE && |r.data| <= 255 && r.addr < ADDRESS_SPACE && RecordLine(s, r)
    requires StrLen(b) == (if |s| < MAX_LINE then |s| else MAX_LINE)
    requires b[..StrLen(b)] == s[..StrLen(b)]
    ensures ClassifyRecord(b, |r.data|, r.addr, 0) == if |r.data| <= 250 then Data(r) else TooShort
  {
    SmallNumber(2 * |r.data| + 11, ULONG);
    if |r.data| <= 250 {
      DataReadBack(s, r, b);
    }
  }

  lemma SameColumns(b: string, s: string, n: nat, lo: nat, hi: nat)
    requires lo <= hi <= n <= |b| && n <= |s| && b[..n] == s[..n]
    ensures b[lo..hi] == s[lo..hi]
  {
    assert b[lo..hi] == b[..n][lo..hi] == s[..n][lo..hi] == s[lo..hi];
  }

  lemma DataReadBack(s: string, r: Block, b: string)
    requires RecordLine(s, r) && |s| <= |b| && b[..|s|] == s
    ensures DataBytes(b, |r.data|) == r.data
  {
    DataIs(b, r.data) by {
      forall i | 0 <= i < |r.data| ensures Field(b, 9 + 2 * i, 11 + 2 * i) == r.data[i] {
        DataDigits(s, r, i);
        DataColumn(b, s, r.data[i], 9 + 2 * i);
      }
    }
  }

  lemma DataIs(b: string, data: seq<byte>)
    requires 9 + 2 * |data| <= |b|
    requires forall i :: 0 <= i < |data| ==> 11 + 2 * i <= |b| && Field(b, 9 + 2 * i, 11 + 2 * i) == data[i]
    ensures DataBytes(b, |data|) == data
  {
  }

  lemma DataDigits(s: string, r: Block, i: nat)
    requires RecordLine(s, r) && i < |r.data|
    ensures PairAt(s, 9 + 2 * i, r.data[i])
  {
  }

  lemma DataColumn(b: string, s: string, v: byte, lo: nat)
    requires |s| <= |b| && b[..|s|] == s && PairAt(s, lo, v)
    ensures Field(b, lo, lo + 2) == v
  {
    SameColumns(b, s, |s|, lo, lo + 2);
    Hex2Value(b, lo, v);
  }

  lemma HexDataAt(data: seq<byte>, i: nat)
    requires i < |data|
    ensures HexData(data)[2 * i] == Hex2(data[i])[0] && HexData(data)[2 * i + 1] == Hex2(data[i])[1]
  {
    assert 2 * i / 2 == i && 2 * i % 2 == 0 && (2 * i + 1) / 2 == i && (2 * i + 1) % 2 == 1;
  }

  lemma {:induction false} CommentSkipped(line: string, rest: string, buf: string) returns (buf': string)
    requires SkippedComment(line) && |buf| == BUFFER_SIZE
    ensures |buf'| == BUFFER_SIZE && ReadAll(line + rest, buf) == ReadAll(rest, buf')
    decreases |line|
  {
    var text := line + rest;
    if |line| <= MAX_LINE {
      assert text[..|line| - 1] == line[..|line| - 1];
      LineLengthIs(text, MAX_LINE, |line| - 1);
      assert text[..|line|] == line && text[|line|..] == rest;
      buf' := Filled(buf, line);
    } else {
      assert text[..MAX_LINE] == line[..MAX_LINE];
      LineLengthIs(text, MAX_LINE, MAX_LINE);
      assert text[MAX_LINE..] == line[MAX_LINE..] + rest;
      buf' := CommentSkipped(line[MAX_LINE..], rest, Filled(buf, line[..MAX_LINE]));
    }
  }

  /** A comment too long for the buffer ends the scan with an error, unless what follows the cut
      looks like a comment or a record itself. */
  lemma LongCommentRejected(text: string, buf: string)
    requires |buf| == BUFFER_SIZE && |text| > MAX_LINE && text[0] == '#' && '\n' !in text[..MAX_LINE]
    requires text[MAX_LINE] != '#' && text[MAX_LINE] != ':'
    ensures ReadAll(text, buf) == Scan([], NOT_A_RECORD)
  {
    LineLengthIs(text, MAX_LINE, MAX_LINE);
    var tail, filled := text[MAX_LINE..], Filled(buf, text[..MAX_LINE]);
    assert filled[0] == '#';
    assert ReadAll(text, buf) == ReadAll(tail, filled);
    assert Filled(filled, tail[..LineLength(tail, MAX_LINE)])[0] == tail[0];
  }

  /** A comment line that ends at its only newline is skipped, whatever follows it. */
  ghost predicate AlwaysSkipped(line: string, buf: string)
    requires |buf| == BUFFER_SIZE
  {
    forall rest: string :: SkippedBefore(line, rest, buf)
  }

  /** The scan goes on with what follows the line. */
  ghost predicate SkippedBefore(line: string, rest: string, buf: string)
    requires |buf| == BUFFER_SIZE
  {
    exists buf': string :: |buf'| == BUFFER_SIZE && ReadAll(line + rest, buf) == ReadAll(rest, buf')
  }

  /** Its only newline is its last character. */
  predicate IsLine(line: string) {
    line != [] && line[|line| - 1] == '\n' && '\n' !in line[..|line| - 1]
  }

  /** What follows the cut in a comment too long for the buffer is read as a line of its own. */
  lemma CommentCut(line: string, rest: string, buf: string)
    requires |buf| == BUFFER_SIZE && |line| > MAX_LINE && line[0] == '#' && '\n' !in line[..MAX_LINE]
    ensures ReadAll(line + rest, buf) == ReadAll(line[MAX_LINE..] + rest, Filled(buf, line[..MAX_LINE]))
  {
    var text := line + rest;
    assert text[..MAX_LINE] == line[..MAX_LINE];
    LineLengthIs(text, MAX_LINE, MAX_LINE);
    assert text[MAX_LINE..] == line[MAX_LINE..] + rest;
  }

  lemma CutLine(line: string)
    requires IsLine(line) && |line| > MAX_LINE
    ensures IsLine(line[MAX_LINE..]) && '\n' !in line[..MAX_LINE]
  {
    var tail, front := line[MAX_LINE..], line[..|line| - 1];
    assert front[..MAX_LINE] == line[..MAX_LINE] && front[MAX_LINE..] == tail[..|tail| - 1];
  }

  /** The first piece of a line does not depend on what follows the line. */
  lemma FirstPiece(line: string, rest: string) returns (piece: string)
    requires IsLine(line)
    ensures |piece| == LineLength(line + rest, MAX_LINE) && piece <= line && piece != []
    ensures piece == (line + rest)[..|piece|] && piece[0] == line[0]
    ensures |piece| == if |line| <= MAX_LINE then |line| else MAX_LINE
  {
    var n := if |line| <= MAX_LINE then |line| - 1 else MAX_LINE;
    var text := line + rest;
    assert text[..n] == line[..n];
    assert forall c :: c in line[..n] ==> c in line[..|line| - 1];
    LineLengthIs(text, MAX_LINE, n);
    piece := if |line| <= MAX_LINE then line else line[..MAX_LINE];
  }

  /** A line that is no comment is not skipped: alone it gives records or an error, unless it ends the
      scan; and then what follows is not read. */
  lemma NoCommentNotSkipped(line: string, buf: string)
    requires |buf| == BUFFER_SIZE && IsLine(line) && line[0] != '#'
    ensures !SkippedBefore(line, [], buf) || !SkippedBefore(line, "X", buf)
  {
    var piece := FirstPiece(line, []);
    var filled := Filled(buf, piece);
    assert filled[0] == line[0];
    if Classify(filled).EndRecord? {
      var piece' := FirstPiece(line, "X");
      assert piece' == piece;
      assert ReadAll(line + "X", buf) == Scan([], 0);
      forall buf': string | |buf'| == BUFFER_SIZE ensures ReadAll("X", buf') != Scan([], 0) {
        LineLengthIs("X", MAX_LINE, 1);
        assert Filled(buf', "X"[..1])[0] == 'X';
      }
    } else {
      assert ReadAll(line + [], buf) != Scan([], 0);
      assert forall buf': string | |buf'| == BUFFER_SIZE :: ReadAll([], buf') == Scan([], 0);
    }
  }

  lemma {:induction false} UnskippedComment(line: string, buf: string)
    requires |buf| == BUFFER_SIZE && IsLine(line) && line[0] == '#' && !SkippedComment(line)
    ensures !SkippedBefore(line, [], buf) || !SkippedBefore(line, "X", buf)
    decreases |line|
  {
    var tail, filled := line[MAX_LINE..], Filled(buf, line[..MAX_LINE]);
    CutLine(line);
    CommentCut(line, [], buf);
    CommentCut(line, "X", buf);
    if tail[0] == '#' {
      UnskippedComment(tail, filled);
    } else {
      NoCommentNotSkipped(tail, filled);
    }
  }

  /** A comment line is skipped, whatever follows it, if and only if it fits the buffer or every piece
      it is cut into starts with '#' again. */
  lemma CommentSkippedExactly(line: string, buf: string)
    requires |buf| == BUFFER_SIZE && IsLine(line) && line[0] == '#'
    ensures AlwaysSkipped(line, buf) <==> SkippedComment(line)
  {
    if SkippedComment(line) {
      forall rest: string ensures SkippedBefore(line, rest, buf) {
        var buf' := CommentSkipped(line, rest, buf);
      }
    } else {
      UnskippedComment(line, buf);
    }
  }

  /** The first step of a scan, for a line whose classification is known. */
  lemma ReadOne(text: string, buf: string, chars: string, tail: string, r: Block)
    requires |buf| == BUFFER_SIZE && text != [] && LineLength(text, MAX_LINE) == |chars|
    requires text[..|chars|] == chars && text[|chars|..] == tail
    ensures Classify(Filled(buf, chars)) == Data(r) ==>
              ReadAll(text, buf) == ReadAll(tail, AfterLine(Filled(buf, chars))).After(r)
    ensures Classify(Filled(buf, chars)) == TooShort ==> ReadAll(text, buf) == Scan([], TOO_SHORT)
  {
  }

  lemma AfterChunk(s: string, r: Block, rest: string) returns (tail: string)
    requires RecordLine(s, r) && |r.data| <= 255
    ensures var text := s + "\n" + rest;
            |Chunk(s)| <= |text| && text[|Chunk(s)|..] == tail
    ensures |r.data| <= 249 ==> tail == rest
    ensures |r.data| == 250 ==> tail == "\n" + rest
  {
    tail := (s + "\n" + rest)[|Chunk(s)|..];
  }

  lemma RecordStep(line: string, r: Block, rest: string, buf: string) returns (buf': string)
    requires |buf| == BUFFER_SIZE && |r.data| <= 255 && r.addr < ADDRESS_SPACE && RecordLine(line, r)
    ensures |buf'| == BUFFER_SIZE
    ensures var s := ReadAll(line + "\n" + rest, buf);
            if |r.data| <= 249 then s == ReadAll(rest, buf').After(r)
            else if |r.data| == 250 then s == Scan([r], NOT_A_RECORD)
            else s == Scan([], TOO_SHORT)
  {
    ChunkTaken(line, r, rest);
    RecordReadBack(line, r, buf);
    buf' := AfterLine(Filled(buf, Chunk(line)));
    var tail := AfterChunk(line, r, rest);
    ReadOne(line + "\n" + rest, buf, Chunk(line), tail, r);
    if |r.data| == 250 {
      LoneNewline(tail, buf');
    }
  }

  lemma RecordIsLine(s: string, r: Block)
    requires RecordLine(s, r)
    ensures IsLine(s + "\n") && (s + "\n")[0] == ':'
  {
    AllDigits(s, r);
    forall k | 0 <= k < |s| ensures s[k] != '\n' {
      assert k == 0 || IsHexDigit(s[k]);
    }
    assert (s + "\n")[..|s|] == s;
  }

  lemma LongComment(comment: string, tail: string)
    requires |comment| == MAX_LINE && comment[0] == '#' && '\n' !in comment && IsLine(tail)
    ensures IsLine(comment + tail) && (comment + tail)[..MAX_LINE] == comment && (comment + tail)[MAX_LINE..] == tail
    ensures tail[0] != '#' ==> !SkippedComment(comment + tail)
  {
    var line := comment + tail;
    assert line[..|line| - 1] == comment + tail[..|tail| - 1];
    assert line[MAX_LINE..] == tail;
  }

  /** The end of a comment line may be read as a record: one that starts at the cut is. */
  lemma CommentReadAsRecord(comment: string, chars: string, r: Block, rest: string, buf: string)
    returns (buf': string)
    requires |buf| == BUFFER_SIZE && |comment| == MAX_LINE && comment[0] == '#' && '\n' !in comment
    requires |r.data| <= 249 && r.addr < ADDRESS_SPACE && RecordLine(chars, r)
    ensures IsLine(comment + (chars + "\n")) && !SkippedComment(comment + (chars + "\n"))
    ensures |buf'| == BUFFER_SIZE
    ensures ReadAll(comment + (chars + "\n") + rest, buf) == ReadAll(rest, buf').After(r)
  {
    var record := chars + "\n";
    RecordIsLine(chars, r);
    LongComment(comment, record);
    CommentCut(comment + record, rest, buf);
    buf' := RecordStep(chars, r, rest, Filled(buf, comment));
  }

  /** A comment that pokes a byte: 511 times '#', and a record that stores 7 at 0. */
  lemma CommentThatPokes(buf: string)
    requires |buf| == BUFFER_SIZE
    ensures ReadAll(seq(MAX_LINE, _ => '#') + (Body(Block(0, [7])) + "\n"), buf) == Scan([Block(0, [7])], 0)
  {
    var comment, tail := seq(MAX_LINE, _ => '#'), Body(Block(0, [7])) + "\n";
    BodyIsLine(Block(0, [7]));
    var buf' := CommentReadAsRecord(comment, Body(Block(0, [7])), Block(0, [7]), [], buf);
    assert comment + tail + [] == comment + tail;
  }

  /** The newline that did not fit with its record is not a record. */
  lemma LoneNewline(text: string, buf: string)
    requires |buf| == BUFFER_SIZE && text != [] && text[0] == '\n'
    ensures ReadAll(text, buf) == Scan([], NOT_A_RECORD)
  {
    LineLengthIs(text, MAX_LINE, 0);
    assert Filled(buf, text[..1])[0] == '\n';
  }

  lemma EofClassified(line: string, buf: string)
    requires |buf| == BUFFER_SIZE && |line| == 12 && line[0] == ':' && line[7..9] == "01" && line[11] == '\n'
    requires '\n' !in line[..11] && NUL !in line[..11]
    ensures Classify(Filled(buf, line)) == EndRecord
  {
    var filled := Filled(buf, line);
    assert filled[..11] == line[..11];
    WithoutNewlineIs(filled, 11);
    var b := filled[11 := NUL];
    SameColumns(b, line, 11, 7, 9);
    Hex2Value(b, 7, 1);
    RecordColumns(filled, b, Field(b, 1, 3), Field(b, 3, 7) % UNSIGNED, 1);
  }

  lemma RecordColumns(filled: string, b: string, len: nat, offset: nat, kind: nat)
    requires |filled| == BUFFER_SIZE && filled[0] == ':' && b == WithoutNewline(filled)
    requires len == Field(b, 1, 3) && offset == Field(b, 3, 7) % UNSIGNED && kind == Field(b, 7, 9) % 0x100
    ensures Classify(filled) == ClassifyRecord(b, len, offset, kind)
  {
  }

  /** A line on which the scan leaves its buffers: the length column "-1" stands for 2^64 - 1, and the
      length test wraps around to 9. */
  lemma NegativeLengthOverruns(text: string, buf: string)
    requires |buf| == BUFFER_SIZE && text == ":-1000000000\n"
    ensures ReadAll(text, buf) == Overrun([], 0, ULONG - 1)
  {
    assert '\n' !in text[..12];
    LineLengthIs(text, MAX_LINE, 12);
    assert text[..13] == text;
    NegativeLengthClassified(text, buf);
  }

  lemma NegativeLengthClassified(text: string, buf: string)
    requires |buf| == BUFFER_SIZE && text == ":-1000000000\n"
    ensures Classify(Filled(buf, text)) == Beyond(0, ULONG - 1)
  {
    var filled := Filled(buf, text);
    assert filled[..12] == text[..12];
    WithoutNewlineIs(filled, 12);
    var b := filled[12 := NUL];
    StrLenIs(b, 12);
    NegativeLengthColumns(text, b);
    RecordColumns(filled, b, ULONG - 1, 0, 0);
    BeyondClassified(b, ULONG - 1, 12);
  }

  lemma NegativeLengthColumns(text: string, b: string)
    requires |b| == BUFFER_SIZE && text == ":-1000000000\n" && b[..12] == text[..12]
    ensures Field(b, 1, 3) == ULONG - 1 && Field(b, 3, 7) % UNSIGNED == 0 && Field(b, 7, 9) % 0x100 == 0
  {
    assert b[1] == b[..12][1] && b[2] == b[..12][2];
    LengthColumn(b);
    assert forall k :: 3 <= k < 9 ==> b[k] == b[..12][k] == text[k];
    ZeroColumns(b);
  }

  lemma ZeroColumns(b: string)
    requires |b| == BUFFER_SIZE && forall k :: 3 <= k < 9 ==> b[k] == '0'
    ensures Field(b, 3, 7) == 0 && Field(b, 7, 9) == 0
  {
    TwoZeros(b, 3);
    TwoZeros(b, 5);
    TwoZeros(b, 7);
    Hex4Value(b, 3, 0);
    Hex2Value(b, 7, 0);
  }

  lemma TwoZeros(b: string, lo: nat)
    requires lo + 2 <= |b| && b[lo] == b[lo + 1] == '0'
    ensures TwoDigitsOf(b[lo..lo + 2], 0)
  {
  }

  lemma BeyondClassified(b: string, len: nat, n: nat)
    requires |b| == BUFFER_SIZE && 9 <= StrLen(b) == n < BUFFER_SIZE && len == ULONG - 1
    ensures ClassifyRecord(b, len, 0, 0) == Beyond(0, len)
  {
    WrappedTest(1, n);
  }

  lemma EndOfFile(tail: string, buf: string)
    requires |buf| == BUFFER_SIZE && (tail == [] || EOF_LINE <= tail)
    ensures ReadAll(tail, buf) == Scan([], 0)
  {
    if tail != [] {
      var line := tail[..12];
      assert line == EOF_LINE;
      assert tail[..11] == line[..11];
      LineLengthIs(tail, MAX_LINE, 11);
      EofClassified(line, buf);
    }
  }

  /** A scan read these records, or stopped with an error because one was too long. */
  ghost predicate ReadsAs(s: Scan, records: seq<Block>) {
    && s.Scan?
    && (s.rc == 0 <==> forall r :: r in records ==> |r.data| <= 249)
    && (s.rc == 0 ==> s.records == records)
    && (s.rc != 0 ==> s.rc == NOT_A_RECORD || s.rc == TOO_SHORT)
  }

  lemma ReadsAsCons(r: Block, s: Scan, t: Scan, records: seq<Block>)
    requires ReadsAs(t, records)
    requires if |r.data| <= 249 then s == t.After(r) else s.Code() == NOT_A_RECORD || s.Code() == TOO_SHORT
    ensures ReadsAs(s, [r] + records)
  {
    assert r in [r] + records;
    assert forall q :: q in [r] + records <==> q == r || q in records;
  }

  /** One item more: a comment line is skipped, a record is read or ends the scan. */
  lemma ItemStep(item: Item, rest: string, buf: string) returns (buf': string)
    requires |buf| == BUFFER_SIZE && Printable(item)
    ensures |buf'| == BUFFER_SIZE
    ensures var s, t := ReadAll(Print(item) + rest, buf), ReadAll(rest, buf');
            if item.CommentItem? then s == t
            else if |item.record.data| <= 249 then s == t.After(item.record)
            else s.Code() == NOT_A_RECORD || s.Code() == TOO_SHORT
  {
    match item
    case CommentItem(line) => buf' := CommentSkipped(line, rest, buf);
    case DataItem(r, chars) => buf' := RecordStep(chars, r, rest, buf);
  }

  lemma PrintedTail(items: seq<Item>, tail: string)
    requires items != []
    ensures PrintAll(items) + tail == Print(items[0]) + (PrintAll(items[1..]) + tail)
  {
    Associate(Print(items[0]), PrintAll(items[1..]), tail);
  }

  /** The reader undoes the printer: with comments anywhere, an optional end-of-file record, and
      whatever after it, the scan succeeds exactly when no record has more than 249 bytes, and then
      yields exactly the printed records. */
  lemma {:induction false} ReaderUndoesPrinter(items: seq<Item>, tail: string, buf: string)
    requires |buf| == BUFFER_SIZE && (tail == [] || EOF_LINE <= tail)
    requires forall i :: 0 <= i < |items| ==> Printable(items[i])
    ensures ReadsAs(ReadAll(PrintAll(items) + tail, buf), Records(items))
    decreases |items|
  {
    if items == [] {
      assert PrintAll(items) + tail == tail;
      EndOfFile(tail, buf);
    } else {
      var rest := PrintAll(items[1..]) + tail;
      PrintedTail(items, tail);
      var buf' := ItemStep(items[0], rest, buf);
      ReaderUndoesPrinter(items[1..], tail, buf');
      if items[0].DataItem? {
        ReadsAsCons(items[0].record, ReadAll(Print(items[0]) + rest, buf), ReadAll(rest, buf'), Records(items[1..]));
      }
    }
  }

  /** A text that prints these items: their lines, and possibly an end-of-file record with anything
      after it. */
  ghost predicate Prints(items: seq<Item>, text: string) {
    && (forall i :: 0 <= i < |items| ==> Printable(items[i]))
    && exists tail: string :: (tail == [] || EOF_LINE <= tail) && text == PrintAll(items) + tail
  }

  lemma PrintedTextReads(items: seq<Item>, text: string, buf: string)
    requires |buf| == BUFFER_SIZE && Prints(items, text)
    ensures ReadsAs(ReadAll(text, buf), Records(items))
  {
    var tail: string :| (tail == [] || EOF_LINE <= tail) && text == PrintAll(items) + tail;
    ReaderUndoesPrinter(items, tail, buf);
  }
}
