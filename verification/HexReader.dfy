/** Reading an Intel HEX file: `fgets` into a 512-byte line buffer that is reused, the fixed
    columns of a record line, and the records read up to the end of the scan. */
module HexReader {
  import opened Memory

  const BUFFER_SIZE: nat := 512
  const NUL := '\0'
  const ULONG: nat := 0x1_0000_0000_0000_0000
  const UNSIGNED: nat := 0x1_0000_0000

  // Return values of the scan.
  const NOT_A_RECORD := -2
  const BAD_TYPE := -3
  const TOO_SHORT := -4

  /** Not a value of the source: the scan reached an access outside its buffers, where nothing more
      is known of it. */
  const OVERRUN := 1

  // ---- C strings ---------------------------------------------------------------------------

  function StrLen(s: string): (n: nat)
    ensures n <= |s| && (n < |s| ==> s[n] == NUL) && NUL !in s[..n]
  {
    if s == [] || s[0] == NUL then 0 else
      assert s[..1 + StrLen(s[1..])] == [s[0]] + s[1..][..StrLen(s[1..])];
      1 + StrLen(s[1..])
  }

  predicate IsHexDigit(c: char) {
    '0' <= c <= '9' || 'A' <= c <= 'F' || 'a' <= c <= 'f'
  }

  function DigitValue(c: char): (v: nat)
    requires IsHexDigit(c)
    ensures v < 16
  {
    if c <= '9' then (c - '0') as int
    else if c <= 'F' then 10 + (c - 'A') as int
    else 10 + (c - 'a') as int
  }

  function HexValue(s: string, acc: nat): nat {
    if s == [] || !IsHexDigit(s[0]) then acc
    else HexValue(s[1..], 16 * acc + DigitValue(s[0]))
  }

  predicate IsBlank(c: char) {
    c == ' ' || '\t' <= c <= '\r'
  }

  function SkipBlanks(s: string): string {
    if s != [] && IsBlank(s[0]) then SkipBlanks(s[1..]) else s
  }

  function SkipSign(s: string): string {
    if s != [] && (s[0] == '+' || s[0] == '-') then s[1..] else s
  }

  function SkipPrefix(s: string): string {
    if |s| > 2 && s[0] == '0' && (s[1] == 'x' || s[1] == 'X') && IsHexDigit(s[2]) then s[2..] else s
  }

  /** The negation of an unsigned 64-bit number. */
  function Negate(v: nat): nat
    requires v < ULONG
  {
    if v == 0 then 0 else ULONG - v
  }

  /** `strtoul(s, 0, 16)` with 64 bits: too large a number saturates, and a minus sign negates. */
  function Strtoul(s: string): (v: nat)
    ensures v < ULONG
  {
    var t := SkipBlanks(s);
    var v := HexValue(SkipPrefix(SkipSign(t)), 0);
    if v >= ULONG then ULONG - 1
    else if t != [] && t[0] == '-' then Negate(v)
    else v
  }

  /** The value of columns lo to hi of a buffer, with a terminator placed at column hi. */
  function Field(b: string, lo: nat, hi: nat): (v: nat)
    requires lo <= hi <= |b|
    ensures v < ULONG
  {
    Strtoul(b[lo..hi][..StrLen(b[lo..hi])])
  }

  // ---- What a number is --------------------------------------------------------------------

  /** The character is the hexadecimal digit d, in either case. */
  predicate Digit(c: char, d: nat) {
    d < 16 && (c == "0123456789ABCDEF"[d] || c == "0123456789abcdef"[d])
  }

  /** The digits of a hexadecimal number, the last one of lowest weight. */
  predicate Expresses(digits: string, v: nat)
    decreases |digits|
  {
    if digits == [] then v == 0
    else Digit(digits[|digits| - 1], v % 16) && Expresses(digits[..|digits| - 1], v / 16)
  }

  lemma DigitIs(c: char)
    ensures IsHexDigit(c) <==> exists d :: Digit(c, d)
    ensures forall d :: Digit(c, d) ==> d == DigitValue(c)
    ensures IsHexDigit(c) ==> Digit(c, DigitValue(c))
  {
    if IsHexDigit(c) {
      assert Digit(c, DigitValue(c));
    }
  }

  lemma {:induction false} HexValueConcat(a: string, b: string, acc: nat)
    requires forall k :: 0 <= k < |a| ==> IsHexDigit(a[k])
    ensures HexValue(a + b, acc) == HexValue(b, HexValue(a, acc))
    decreases |a|
  {
    if a == [] {
      assert a + b == b;
    } else {
      assert (a + b)[1..] == a[1..] + b;
      HexValueConcat(a[1..], b, 16 * acc + DigitValue(a[0]));
    }
  }

  /** The accumulated value of digits is the number they express. */
  lemma {:induction false} HexValueIs(digits: string, v: nat)
    requires Expresses(digits, v)
    ensures HexValue(digits, 0) == v && forall k :: 0 <= k < |digits| ==> IsHexDigit(digits[k])
    decreases |digits|
  {
    if digits != [] {
      var n := |digits| - 1;
      HexValueIs(digits[..n], v / 16);
      DigitIs(digits[n]);
      assert digits == digits[..n] + [digits[n]];
      HexValueConcat(digits[..n], [digits[n]], 0);
      assert [digits[n]][1..] == [];
    }
  }

  lemma {:induction false} BlanksSkipped(blanks: string, s: string)
    requires forall k :: 0 <= k < |blanks| ==> blanks[k] == ' ' || 9 <= blanks[k] as int <= 13
    requires s == [] || (s[0] != ' ' && !(9 <= s[0] as int <= 13))
    ensures SkipBlanks(blanks + s) == s
    decreases |blanks|
  {
    if blanks == [] {
      assert blanks + s == s;
    } else {
      assert (blanks + s)[1..] == blanks[1..] + s;
      BlanksSkipped(blanks[1..], s);
    }
  }

  /** No digit of a number starts the text. */
  predicate NoDigitFirst(s: string) {
    s == [] || forall d :: 0 <= d < 16 ==> !Digit(s[0], d)
  }

  /** What `strtoul` with base 16 reads: blanks, a sign, a prefix, and the digits of a number up to the
      first character that is none. A number of more than 64 bits saturates, a minus sign negates. */
  lemma StrtoulReads(blanks: string, sign: string, prefix: string, digits: string, rest: string, v: nat)
    requires forall k :: 0 <= k < |blanks| ==> blanks[k] == ' ' || 9 <= blanks[k] as int <= 13
    requires sign in {"", "+", "-"} && prefix in {"", "0x", "0X"}
    requires digits != [] && Expresses(digits, v) && NoDigitFirst(rest)
    requires prefix == "" && digits == "0" && |rest| > 1 && (rest[0] == 'x' || rest[0] == 'X') ==>
               NoDigitFirst(rest[1..])
    ensures Strtoul(blanks + (sign + (prefix + (digits + rest)))) ==
            if v >= 0x1_0000_0000_0000_0000 then 0xFFFF_FFFF_FFFF_FFFF
            else if sign == "-" && v > 0 then 0x1_0000_0000_0000_0000 - v
            else v
  {
    var number := prefix + (digits + rest);
    NumberFirst(prefix, digits, rest, v);
    BlanksSkipped(blanks, sign + number);
    assert SkipSign(sign + number) == number;
    NumberRead(prefix, digits, rest, v);
  }

  lemma NumberFirst(prefix: string, digits: string, rest: string, v: nat)
    requires prefix in {"", "0x", "0X"} && digits != [] && Expresses(digits, v)
    ensures IsHexDigit((prefix + (digits + rest))[0])
  {
    HexValueIs(digits, v);
  }

  lemma NumberRead(prefix: string, digits: string, rest: string, v: nat)
    requires prefix in {"", "0x", "0X"} && digits != [] && Expresses(digits, v) && NoDigitFirst(rest)
    requires prefix == "" && digits == "0" && |rest| > 1 && (rest[0] == 'x' || rest[0] == 'X') ==>
               NoDigitFirst(rest[1..])
    ensures HexValue(SkipPrefix(prefix + (digits + rest)), 0) == v
  {
    var s := digits + rest;
    HexValueIs(digits, v);
    HexValueConcat(digits, rest, 0);
    NoDigitStops(rest, v);
    if prefix == "" {
      assert prefix + s == s;
      if digits == "0" && |rest| > 1 && (rest[0] == 'x' || rest[0] == 'X') {
        NoDigitStops(rest[1..], 0);
      }
      assert SkipPrefix(s) == s by {
        assert |s| > 1 && |digits| > 1 ==> s[1] == digits[1];
      }
    } else {
      assert (prefix + s)[2] == digits[0] && (prefix + s)[2..] == s;
    }
  }

  lemma NoDigitStops(s: string, acc: nat)
    requires NoDigitFirst(s)
    ensures HexValue(s, acc) == acc && (s != [] ==> !IsHexDigit(s[0]))
  {
    if s != [] {
      DigitIs(s[0]);
    }
  }

  /** Without a digit after blanks and a sign there is no number, and 0 is read. */
  lemma StrtoulNothing(blanks: string, sign: string, rest: string)
    requires forall k :: 0 <= k < |blanks| ==> blanks[k] == ' ' || 9 <= blanks[k] as int <= 13
    requires sign in {"", "+", "-"} && NoDigitFirst(rest)
    requires sign == "" && rest != [] ==> rest[0] !in "+-" && rest[0] != ' ' && !(9 <= rest[0] as int <= 13)
    ensures Strtoul(blanks + (sign + rest)) == 0
  {
    BlanksSkipped(blanks, sign + rest);
    assert SkipSign(sign + rest) == rest;
    NoDigitStops(rest, 0);
  }

  // ---- Lines -------------------------------------------------------------------------------

  /** How many characters `fgets` takes: up to and including a newline, at most `limit`. */
  function LineLength(text: string, limit: nat): (n: nat)
    ensures n <= limit && n <= |text|
    ensures text != [] && limit > 0 ==> n > 0
    ensures forall k :: 0 <= k < n - 1 ==> text[k] != '\n'
    ensures n < limit && n < |text| ==> n > 0 && text[n - 1] == '\n'
  {
    if text == [] || limit == 0 then 0
    else if text[0] == '\n' then 1
    else 1 + LineLength(text[1..], limit - 1)
  }

  /** The length is pinned down by its end: a first newline, the limit, or the end of the text. */
  lemma LineLengthIs(text: string, limit: nat, n: nat)
    requires n <= limit && n <= |text| && '\n' !in text[..n]
    ensures n == limit || n == |text| ==> LineLength(text, limit) == n
    ensures n < limit && n < |text| && text[n] == '\n' ==> LineLength(text, limit) == n + 1
  {
    assert forall k :: 0 <= k < n ==> text[k] in text[..n];
  }

  /** The buffer after `fgets` stored these characters and a terminator; the rest is what earlier
      lines left there. */
  function Filled(buf: string, chars: string): (b: string)
    requires |chars| < |buf|
    ensures |b| == |buf|
  {
    chars + [NUL] + buf[|chars| + 1..]
  }

  /** The buffer after the first newline of its string, if any, became a terminator. */
  function WithoutNewline(b: string): (b': string)
    ensures |b'| == |b|
  {
    if b == [] || b[0] == NUL then b
    else if b[0] == '\n' then [NUL] + b[1..]
    else [b[0]] + WithoutNewline(b[1..])
  }

  datatype Line =
    | Comment
    | NotRecord
    | EndRecord
    | BadType
    | TooShort
    | Data(record: Block)
    | Beyond(offset: nat, len: nat)

  /** The last access of a copy of `len` data bytes, the terminator of the last column, is still in the
      line buffer. */
  predicate CopyFits(len: nat) {
    9 + 2 * len < BUFFER_SIZE
  }

  function DataBytes(b: string, len: nat): seq<byte>
    requires 9 + 2 * len <= |b|
  {
    seq(len, i requires 0 <= i < len => Field(b, 9 + 2 * i, 11 + 2 * i) % 0x100)
  }

  /** What a filled line buffer holds, in the order the reader tests it. */
  function Classify(filled: string): (l: Line)
    requires |filled| == BUFFER_SIZE
    ensures l.Data? ==> l.record.addr < UNSIGNED && 2 * |l.record.data| + 11 <= StrLen(WithoutNewline(filled))
    ensures l.Beyond? ==> !CopyFits(l.len)
  {
    if filled[0] == '#' then Comment
    else if filled[0] != ':' then NotRecord
    else
      var b := WithoutNewline(filled);
      ClassifyRecord(b, Field(b, 1, 3), Field(b, 3, 7) % UNSIGNED, Field(b, 7, 9) % 0x100)
  }

  /** A record line, by its type column. The length test is made in 64 bits. */
  function ClassifyRecord(b: string, len: nat, offset: nat, kind: nat): (l: Line)
    requires |b| == BUFFER_SIZE
    ensures l.Data? ==> l.record.addr == offset && 2 * |l.record.data| + 11 <= StrLen(b)
    ensures l.Beyond? <==> kind == 0 && (2 * len + 11) % ULONG <= StrLen(b) && !CopyFits(len)
    ensures l.Beyond? ==> l.len == len
  {
    if kind == 1 then EndRecord
    else if kind != 0 then BadType
    else if (2 * len + 11) % ULONG > StrLen(b) then TooShort
    else if CopyFits(len) then Data(Block(offset, DataBytes(b, len)))
    else Beyond(offset, len)
  }

  function AfterLine(filled: string): (b: string)
    ensures |b| == |filled|
  {
    if filled != [] && filled[0] == ':' then WithoutNewline(filled) else filled
  }

  /** The data records of a scan, and the code it ends with when no poke fails; or the record whose
      data it would copy from beyond its buffers. */
  datatype Scan = Scan(records: seq<Block>, rc: int) | Overrun(records: seq<Block>, offset: nat, len: nat) {
    function Code(): int {
      if Scan? then rc else OVERRUN
    }

    function After(r: Block): Scan {
      this.(records := [r] + records)
    }
  }

  /** Scan a text with a line buffer whose earlier contents are `buf`. */
  function ReadAll(text: string, buf: string): (s: Scan)
    requires |buf| == BUFFER_SIZE
    ensures s.Scan? ==> s.rc <= 0
    ensures s.Overrun? ==> !CopyFits(s.len)
    decreases |text|
  {
    if text == [] then Scan([], 0) else
      var n := LineLength(text, BUFFER_SIZE - 1);
      var filled := Filled(buf, text[..n]);
      match Classify(filled)
      case Comment => ReadAll(text[n..], filled)
      case NotRecord => Scan([], NOT_A_RECORD)
      case EndRecord => Scan([], 0)
      case BadType => Scan([], BAD_TYPE)
      case TooShort => Scan([], TOO_SHORT)
      case Data(r) => ReadAll(text[n..], AfterLine(filled)).After(r)
      case Beyond(offset, len) => Overrun([], offset, len)
  }

  /** How a scan ends at a line that holds no data record, by its first character and its columns: -2 for
      one that is no record, no error for type 1, -3 for any other type but 0, and -4 for a string shorter
      than its length column asks for. */
  lemma LineOutcome(text: string, buf: string)
    requires |buf| == BUFFER_SIZE && text != []
    ensures var s, filled := ReadAll(text, buf), Filled(buf, text[..LineLength(text, 511)]);
            var b := WithoutNewline(filled);
            if text[0] == '#' then s == ReadAll(text[LineLength(text, 511)..], filled)
            else if text[0] != ':' then s == Scan([], -2)
            else if Field(b, 7, 9) % 0x100 == 1 then s == Scan([], 0)
            else if Field(b, 7, 9) % 0x100 != 0 then s == Scan([], -3)
            else if (2 * Field(b, 1, 3) + 11) % 0x1_0000_0000_0000_0000 > StrLen(b) then s == Scan([], -4)
            else s.Overrun? || (s.records != [] && s.records[0].addr == Field(b, 3, 7) % 0x1_0000_0000)
  {
    assert Filled(buf, text[..LineLength(text, 511)])[0] == text[0];
  }

  lemma {:induction false} WithoutNewlineKeepsTerminator(b: string, k: nat)
    requires k < |b| && b[k] == NUL
    ensures WithoutNewline(b)[k] == NUL
    decreases k
  {
    if k > 0 && b[0] != NUL && b[0] != '\n' {
      WithoutNewlineKeepsTerminator(b[1..], k - 1);
    }
  }

  /** No line is longer than the buffer allows, so no record has more than 250 bytes. */
  lemma FilledTerminates(buf: string, chars: string)
    requires |chars| < |buf| == BUFFER_SIZE
    ensures StrLen(WithoutNewline(Filled(buf, chars))) <= |chars|
  {
    var filled := Filled(buf, chars);
    WithoutNewlineKeepsTerminator(filled, |chars|);
    StrLenAtMost(WithoutNewline(filled), |chars|);
  }

  lemma {:induction false} StrLenAtMost(b: string, k: nat)
    requires k < |b| && b[k] == NUL
    ensures StrLen(b) <= k
    decreases k
  {
    if k > 0 && b[0] != NUL {
      StrLenAtMost(b[1..], k - 1);
    }
  }

  /** Whatever the text: no record read has more than 250 bytes, and its address is 32 bits. */
  lemma {:induction false} ScanBounds(text: string, buf: string)
    requires |buf| == BUFFER_SIZE
    ensures forall r :: r in ReadAll(text, buf).records ==> |r.data| <= 250 && r.addr < UNSIGNED
    decreases |text|
  {
    if text != [] {
      var n := LineLength(text, BUFFER_SIZE - 1);
      var filled := Filled(buf, text[..n]);
      match Classify(filled)
      case Comment => ScanBounds(text[n..], filled);
      case Data(_) =>
        FilledTerminates(buf, text[..n]);
        ScanBounds(text[n..], AfterLine(filled));
      case _ =>
    }
  }

  // ---- Numeric columns ---------------------------------------------------------------------

  /** The accumulator bound that leaves room for n more hexadecimal digits in 16 bits. */
  function Room(n: nat): nat
    requires n <= 4
  {
    [0x1_0000, 0x1000, 0x100, 0x10, 1][n]
  }

  lemma {:induction false} HexValueBound(s: string, acc: nat, n: nat)
    requires |s| <= n <= 4 && acc < Room(n)
    ensures HexValue(s, acc) < ADDRESS_SPACE
    decreases |s|
  {
    if s != [] && IsHexDigit(s[0]) {
      HexValueBound(s[1..], 16 * acc + DigitValue(s[0]), n - 1);
    }
  }

  lemma {:induction false} BlanksShorten(s: string)
    ensures |SkipBlanks(s)| <= |s|
    decreases |s|
  {
    if s != [] && IsBlank(s[0]) {
      BlanksShorten(s[1..]);
    }
  }

  /** A column of at most four characters is a 16-bit number, or the negation of a nonzero one that
      its other characters express. */
  lemma ColumnValue(s: string)
    requires |s| <= 4
    ensures Strtoul(s) < ADDRESS_SPACE || ('-' in s && ULONG - ADDRESS_SPACE < Strtoul(s))
  {
    var t := SkipBlanks(s);
    BlanksShorten(s);
    BlanksKeep(s);
    HexValueBound(SkipPrefix(SkipSign(t)), 0, 4);
  }

  lemma {:induction false} BlanksKeep(s: string)
    ensures forall c :: c in SkipBlanks(s) ==> c in s
    decreases |s|
  {
    if s != [] && IsBlank(s[0]) {
      BlanksKeep(s[1..]);
    }
  }

  /** The address column is a 16-bit number; or, with a minus sign in it, the 32-bit negation of one. */
  lemma AddressBound(b: string)
    requires |b| >= 7
    ensures var off := Field(b, 3, 7) % UNSIGNED;
            off < ADDRESS_SPACE || ('-' in b[3..7] && UNSIGNED - ADDRESS_SPACE < off)
  {
    var s := b[3..7][..StrLen(b[3..7])];
    ColumnValue(s);
    assert forall c :: c in s ==> c in b[3..7];
    if Strtoul(s) >= ADDRESS_SPACE {
      NegatedOffset(ULONG - Strtoul(s));
    }
  }

  lemma NegatedOffset(v: nat)
    requires 0 < v < ADDRESS_SPACE
    ensures (ULONG - v) % UNSIGNED == UNSIGNED - v
  {
  }

  /** The length column is an 8-bit number, unless it is a minus sign and a nonzero digit. */
  lemma LengthColumn(b: string)
    requires |b| >= 3
    ensures var negated := b[1] == '-' && IsHexDigit(b[2]) && DigitValue(b[2]) > 0;
            if negated then Field(b, 1, 3) == ULONG - DigitValue(b[2]) else Field(b, 1, 3) < 0x100
  {
    var c := b[1..3];
    assert c == [b[1], b[2]];
    TwoCharacters(b[1], b[2]);
  }

  lemma TwoCharacters(x: char, y: char)
    ensures var c := [x, y];
            var v := Strtoul(c[..StrLen(c)]);
            if x == '-' && IsHexDigit(y) && DigitValue(y) > 0 then v == ULONG - DigitValue(y) else v < 0x100
  {
    var c := [x, y];
    if x == NUL {
      assert c[..0] == [];
    } else if y == NUL {
      assert StrLen(c[1..]) == 0;
      assert c[..1] == [x];
      OneCharacter(x);
    } else {
      assert c[1..] == [y] && [y][1..] == [];
      assert StrLen([y]) == 1;
      assert c[..2] == c;
      if IsBlank(x) {
        assert SkipBlanks(c) == SkipBlanks([y]);
        OneCharacter(y);
      } else {
        TwoDigits(x, y);
      }
    }
  }

  lemma OneCharacter(x: char)
    ensures Strtoul([x]) < 0x10
  {
    if IsBlank(x) {
      assert [x][1..] == [];
      assert SkipBlanks([x]) == [];
    } else if x == '+' || x == '-' {
      assert SkipSign([x]) == [];
    } else {
      assert HexValue([x][1..], 0) == 0;
      assert HexValue([x], 0) < 0x10 by { OneDigit(x, 0); }
    }
  }

  lemma OneDigit(x: char, acc: nat)
    ensures HexValue([x], acc) == if IsHexDigit(x) then 16 * acc + DigitValue(x) else acc
  {
    if IsHexDigit(x) {
      assert [x][1..] == [];
    }
  }

  lemma TwoDigits(x: char, y: char)
    requires !IsBlank(x)
    ensures if x == '-' && IsHexDigit(y) && DigitValue(y) > 0 then Strtoul([x, y]) == ULONG - DigitValue(y)
            else Strtoul([x, y]) < 0x100
  {
    var c := [x, y];
    assert c[1..] == [y];
    if x == '+' || x == '-' {
      OneDigit(y, 0);
    } else if IsHexDigit(x) {
      OneDigit(y, DigitValue(x));
      assert HexValue(c, 0) == HexValue([y], DigitValue(x));
    }
  }

  // ---- When a scan leaves its buffers ------------------------------------------------------

  /** A record line that passes the length test with a length no buffer holds: the length column is
      "-1" to "-5", and the line is at least as long as the wrapped test asks. */
  predicate NegativeLength(b: string) {
    && |b| == BUFFER_SIZE && b[0] == ':' && Field(b, 7, 9) % 0x100 == 0
    && b[1] == '-' && '1' <= b[2] <= '5' && StrLen(b) + 2 * DigitValue(b[2]) >= 11
  }

  /** The lines a scan reaches, as its buffer holds them when it has read their columns. */
  function RecordLines(text: string, buf: string): seq<string>
    requires |buf| == BUFFER_SIZE
    decreases |text|
  {
    if text == [] then [] else
      var n := LineLength(text, BUFFER_SIZE - 1);
      var filled := Filled(buf, text[..n]);
      match Classify(filled)
      case Comment => RecordLines(text[n..], filled)
      case Data(_) => [AfterLine(filled)] + RecordLines(text[n..], AfterLine(filled))
      case _ => [AfterLine(filled)]
  }

  lemma BeyondExactly(b: string, len: nat, offset: nat, kind: nat)
    requires |b| == BUFFER_SIZE && b[0] == ':' && StrLen(b) < BUFFER_SIZE
    requires len == Field(b, 1, 3) && kind == Field(b, 7, 9) % 0x100
    ensures ClassifyRecord(b, len, offset, kind).Beyond? <==> NegativeLength(b)
  {
    LengthColumn(b);
    LengthTest(b[1], b[2], len, StrLen(b));
  }

  lemma LengthTest(x: char, y: char, len: nat, n: nat)
    requires if x == '-' && IsHexDigit(y) && DigitValue(y) > 0 then len == ULONG - DigitValue(y) else len < 0x100
    requires n < BUFFER_SIZE
    ensures (2 * len + 11) % ULONG <= n && !CopyFits(len) <==>
            x == '-' && '1' <= y <= '5' && n + 2 * DigitValue(y) >= 11
  {
    if x == '-' && IsHexDigit(y) && DigitValue(y) > 0 {
      WrappedTest(DigitValue(y), n);
    } else {
      PlainTest(len, n);
    }
  }

  lemma PlainTest(len: nat, n: nat)
    requires len < 0x100 && n < BUFFER_SIZE
    ensures (2 * len + 11) % ULONG <= n ==> CopyFits(len)
  {
  }

  lemma WrappedTest(d: nat, n: nat)
    requires 0 < d < 16 && n < BUFFER_SIZE
    ensures !CopyFits(ULONG - d)
    ensures (2 * (ULONG - d) + 11) % ULONG <= n <==> d <= 5 && n + 2 * d >= 11
  {
  }

  /** No record is copied from or to beyond the buffers, if and only if no record line that is reached
      has a length column "-1" to "-5" and passes the test its length wraps around in. */
  lemma {:induction false} OverrunExactly(text: string, buf: string)
    requires |buf| == BUFFER_SIZE
    ensures ReadAll(text, buf).Overrun? <==> exists b :: b in RecordLines(text, buf) && NegativeLength(b)
    decreases |text|
  {
    if text != [] {
      var n := LineLength(text, BUFFER_SIZE - 1);
      var filled := Filled(buf, text[..n]);
      LineOverruns(buf, text[..n]);
      match Classify(filled)
      case Comment => OverrunExactly(text[n..], filled);
      case Data(_) => OverrunExactly(text[n..], AfterLine(filled));
      case _ =>
    }
  }

  lemma LineOverruns(buf: string, chars: string)
    requires |chars| < |buf| == BUFFER_SIZE
    ensures var filled := Filled(buf, chars);
            !Classify(filled).Comment? ==> (Classify(filled).Beyond? <==> NegativeLength(AfterLine(filled)))
  {
    var filled := Filled(buf, chars);
    FilledTerminates(buf, chars);
    if filled[0] == ':' {
      assert WithoutNewline(filled)[0] == ':';
      var b := WithoutNewline(filled);
      BeyondExactly(b, Field(b, 1, 3), Field(b, 3, 7) % UNSIGNED, Field(b, 7, 9) % 0x100);
    }
  }
}
