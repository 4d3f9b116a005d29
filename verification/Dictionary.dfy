/**
  Dictionaries: the printer of captured tokens (`__tokencap_dump`) and the loader of
  dictionary files (`load_extras_file`), and what loading a printed file gives.
  A C string is the sequence of the bytes before its NUL.
*/
module Dictionary {
  import opened Buffers

  const MIN_AUTO_EXTRA: nat := 3
  const MAX_AUTO_EXTRA: nat := 32
  const MAX_DICT_FILE: nat := 128
  const MAX_LINE: nat := 8192

  const NUL: u8 := 0
  const NEWLINE: u8 := 10
  const QUOTE: u8 := 34
  const HASH: u8 := 35
  const EQUALS: u8 := 61
  const AT: u8 := 64
  const BACKSLASH: u8 := 92
  const UNDERSCORE: u8 := 95
  const LOWER_X: u8 := 120

  // ---------------------------------------------------------------- characters

  predicate IsSpace(c: u8) { c == 32 || 9 <= c <= 13 }

  predicate IsDigit(c: u8) { 48 <= c <= 57 }

  predicate IsLabel(c: u8) { IsDigit(c) || 65 <= c <= 90 || 97 <= c <= 122 || c == UNDERSCORE }

  predicate IsSeparator(c: u8) { IsSpace(c) || c == EQUALS }

  predicate IsHexDigit(c: u8) { IsDigit(c) || 65 <= c <= 70 || 97 <= c <= 102 }

  function HexDigit(n: nat): u8
    requires n < 16
  {
    if n < 10 then 48 + n else 87 + n
  }

  /** The position of the digit, in lower case, in "0123456789abcdef". */
  function HexValue(c: u8): (n: nat)
    requires IsHexDigit(c)
    ensures n < 16
  {
    if IsDigit(c) then c - 48 else if c <= 70 then c - 55 else c - 87
  }

  /** The byte at a position of a C string, its terminator included. */
  function CharAt(s: seq<u8>, i: nat): u8 {
    if i < |s| then s[i] else NUL
  }

  /** The C string at the start of a buffer. */
  function CString(s: seq<u8>): (r: seq<u8>)
    ensures |r| <= |s| && r == s[..|r|] && NUL !in r && (|r| < |s| ==> s[|r|] == NUL)
  {
    if s == [] || s[0] == NUL then [] else [s[0]] + CString(s[1..])
  }

  lemma {:induction false} CStringWithin(s: seq<u8>, n: nat)
    requires n <= |s| && NUL !in s[..n] && (n == |s| || s[n] == NUL)
    ensures CString(s) == s[..n]
  {
    if n > 0 {
      assert s[0] in s[..n];
      assert s[1..][..n - 1] == s[..n][1..];
      CStringWithin(s[1..], n - 1);
    }
  }

  predicate All(p: u8 -> bool, s: seq<u8>) {
    forall i :: 0 <= i < |s| ==> p(s[i])
  }

  function DropWhile(p: u8 -> bool, s: seq<u8>): (r: seq<u8>)
    ensures |r| <= |s|
    ensures r != [] ==> !p(r[0])
  {
    if s != [] && p(s[0]) then DropWhile(p, s[1..]) else s
  }

  function TrimRight(s: seq<u8>): (r: seq<u8>)
    ensures |r| <= |s|
  {
    if s != [] && IsSpace(s[|s| - 1]) then TrimRight(s[..|s| - 1]) else s
  }

  // ---------------------------------------------------------------- the printer

  predicate MustEscape(c: u8) {
    c < 32 || c >= 127 || c == QUOTE || c == BACKSLASH
  }

  function Escaped(c: u8): seq<u8> {
    if MustEscape(c) then [BACKSLASH, LOWER_X, HexDigit(c / 16), HexDigit(c % 16)] else [c]
  }

  function Body(token: seq<u8>): seq<u8> {
    if token == [] then [] else Body(token[..|token| - 1]) + Escaped(token[|token| - 1])
  }

  /** A token handed to the printer. */
  datatype Capture = Capture(bytes: seq<u8>, isText: bool)

  predicate IsPermitted(c: Capture) {
    MIN_AUTO_EXTRA <= |c.bytes| <= MAX_AUTO_EXTRA
  }

  /** What of it is printed: in text mode only what is before the first NUL. */
  function Visible(c: Capture): seq<u8> {
    if c.isText then CString(c.bytes) else c.bytes
  }

  function Quoted(token: seq<u8>): seq<u8> {
    [QUOTE] + Body(token) + [QUOTE]
  }

  function Printed(c: Capture): seq<u8> {
    if IsPermitted(c) then Quoted(Visible(c)) + [NEWLINE] else []
  }

  /** `sprintf(buf + pos, "\\x%02x", c)`, with its terminating NUL. */
  method PutEscape(buf: array<u8>, pos: nat, c: u8)
    requires pos + 4 < buf.Length
    modifies buf
    ensures buf[..pos + 4] == old(buf[..pos]) + [BACKSLASH, LOWER_X, HexDigit(c / 16), HexDigit(c % 16)]
  {
    buf[pos] := BACKSLASH;
    buf[pos + 1] := LOWER_X;
    buf[pos + 2] := HexDigit(c / 16);
    buf[pos + 3] := HexDigit(c % 16);
    buf[pos + 4] := NUL;
  }

  /** One turn of the printing loop. */
  method PutByte(buf: array<u8>, pos: nat, c: u8) returns (pos': nat)
    requires pos + 4 < buf.Length
    modifies buf
    ensures pos < pos' <= pos + 4 && buf[..pos'] == old(buf[..pos]) + Escaped(c)
  {
    if MustEscape(c) {
      PutEscape(buf, pos, c);
      pos' := pos + 4;
    } else {
      buf[pos] := c;
      pos' := pos + 1;
    }
  }

  lemma OneMoreByte(bytes: seq<u8>, i: nat)
    requires i < |bytes|
    ensures Body(bytes[..i + 1]) == Body(bytes[..i]) + Escaped(bytes[i])
  {
    assert bytes[..i + 1][..i] == bytes[..i];
  }

  lemma StoppedAt(bytes: seq<u8>, isText: bool, i: nat)
    requires i <= |bytes| && (isText ==> NUL !in bytes[..i]) && (i == |bytes| || (isText && bytes[i] == NUL))
    ensures bytes[..i] == Visible(Capture(bytes, isText))
  {
    if isText {
      CStringWithin(bytes, i);
    }
  }

  /** The printing loop. */
  method PutBytes(buf: array<u8>, bytes: seq<u8>, isText: bool) returns (pos: nat)
    requires 4 * |bytes| < buf.Length
    modifies buf
    ensures pos < buf.Length && buf[..pos] == Body(Visible(Capture(bytes, isText)))
  {
    pos := 0;
    var i := 0;
    while i < |bytes| && !(isText && bytes[i] == NUL)
      invariant 0 <= i <= |bytes| && 0 <= pos <= 4 * i
      invariant buf[..pos] == Body(bytes[..i])
      invariant isText ==> NUL !in bytes[..i]
    {
      OneMoreByte(bytes, i);
      pos := PutByte(buf, pos, bytes[i]);
      i := i + 1;
    }
    StoppedAt(bytes, isText, i);
  }

  /** `__tokencap_dump`: never writes outside its buffer, and writes the line of the token. */
  method Dump(bytes: seq<u8>, isText: bool) returns (out: seq<u8>)
    ensures out == Printed(Capture(bytes, isText))
  {
    if |bytes| < MIN_AUTO_EXTRA || |bytes| > MAX_AUTO_EXTRA {
      return [];
    }
    var buf := new u8[MAX_AUTO_EXTRA * 4 + 1](_ => NUL);
    var pos := PutBytes(buf, bytes, isText);
    ghost var body := buf[..pos];
    buf[pos] := NUL;
    assert buf[..][..pos] == body;
    BodyIsPrintable(Visible(Capture(bytes, isText)));
    CStringWithin(buf[..], pos);
    out := [QUOTE] + CString(buf[..]) + [QUOTE, NEWLINE];
  }

  ghost predicate IsPrintable(s: seq<u8>) {
    forall i :: 0 <= i < |s| ==> 32 <= s[i] < 127
  }

  lemma EscapedIsPrintable(c: u8)
    ensures IsPrintable(Escaped(c)) && 1 <= |Escaped(c)| <= 4
  {
  }

  lemma {:induction false} BodyIsPrintable(token: seq<u8>)
    ensures IsPrintable(Body(token)) && |token| <= |Body(token)| <= 4 * |token|
    ensures NUL !in Body(token) && NEWLINE !in Body(token)
  {
    if token != [] {
      BodyIsPrintable(token[..|token| - 1]);
      EscapedIsPrintable(token[|token| - 1]);
    }
  }

  // ---------------------------------------------------------------- the loader, as functions

  datatype Reason = MalformedPair | MalformedKeyword | EmptyKeyword | NonPrintable | InvalidEscape | TooBig

  datatype Decoded = Bytes(bytes: seq<u8>) | Bad(why: Reason)
  {
    function After(prefix: seq<u8>): Decoded {
      if Bytes? then Bytes(prefix + bytes) else this
    }
  }

  predicate IsHexEscape(s: seq<u8>) {
    CharAt(s, 1) == LOWER_X && IsHexDigit(CharAt(s, 2)) && IsHexDigit(CharAt(s, 3))
  }

  /** The bytes between the quotes, with their escapes undone. */
  function Decode(s: seq<u8>): (d: Decoded)
    ensures d.Bytes? ==> |d.bytes| <= |s|
    decreases |s|
  {
    if s == [] then Bytes([])
    else if 1 <= s[0] < 32 || s[0] >= 128 then Bad(NonPrintable)
    else if s[0] != BACKSLASH then Decode(s[1..]).After([s[0]])
    else if CharAt(s, 1) == BACKSLASH || CharAt(s, 1) == QUOTE then Decode(s[2..]).After([s[1]])
    else if !IsHexEscape(s) then Bad(InvalidEscape)
    else Decode(s[4..]).After([16 * HexValue(s[2]) + HexValue(s[3])])
  }

  datatype LineResult = Skip | Token(bytes: seq<u8>) | Fatal(why: Reason)

  function ParseKeyword(s: seq<u8>): LineResult {
    if CharAt(s, 0) != QUOTE then Fatal(MalformedKeyword)
    else if |s| == 1 then Fatal(EmptyKeyword)
    else match Decode(s[1..])
      case Bad(why) => Fatal(why)
      case Bytes(b) => if |b| > MAX_DICT_FILE then Fatal(TooBig) else Token(b)
  }

  function DigitsValue(s: seq<u8>, sofar: nat): nat {
    if s != [] && IsDigit(s[0]) then DigitsValue(s[1..], 10 * sofar + (s[0] - 48)) else sofar
  }

  /** `atoi`, before any overflow. */
  function Atoi(s: seq<u8>): int {
    var t := DropWhile(IsSpace, s);
    if CharAt(t, 0) == 45 then 0 - DigitsValue(t[1..], 0)
    else if CharAt(t, 0) == 43 then DigitsValue(t[1..], 0)
    else DigitsValue(t, 0)
  }

  /** The level of an `@level` mark: the comparison with the wanted level is unsigned. */
  function Level(s: seq<u8>): nat {
    Atoi(s) % 0x1_0000_0000
  }

  /** What follows the label: an optional level, separators, the keyword. */
  function ParseMarked(t: seq<u8>, level: nat): LineResult {
    if CharAt(t, 0) != AT then ParseKeyword(DropWhile(IsSeparator, t))
    else if Level(t[1..]) > level then Skip
    else ParseKeyword(DropWhile(IsSeparator, DropWhile(IsDigit, t[1..])))
  }

  function ParsePair(s: seq<u8>, level: nat): LineResult {
    ParseMarked(DropWhile(IsLabel, s), level)
  }

  /** What one line read by `fgets` stands for. */
  function ParseLine(line: seq<u8>, level: nat): LineResult {
    ParseTrimmed(TrimRight(DropWhile(IsSpace, CString(line))), level)
  }

  function ParseTrimmed(s: seq<u8>, level: nat): LineResult {
    if s == [] || s[0] == HASH then Skip
    else if s[|s| - 1] != QUOTE then Fatal(MalformedPair)
    else ParsePair(s[..|s| - 1], level)
  }

  datatype Loaded = Extras(tokens: seq<seq<u8>>) | Failed(line: nat, why: Reason)
  {
    function After(prefix: seq<seq<u8>>): Loaded {
      if Extras? then Extras(prefix + tokens) else this
    }
  }

  /** How many bytes `fgets` takes: up to a newline, the end, or the room there is. */
  function LineLength(file: seq<u8>, room: nat): (n: nat)
    ensures n <= |file| && (file != [] && room > 0 ==> n > 0)
    decreases room
  {
    if file == [] || room == 0 then 0
    else if file[0] == NEWLINE then 1
    else 1 + LineLength(file[1..], room - 1)
  }

  /** One line's result, the number of that line, and what the lines after it give. */
  function Then(t: LineResult, line: nat, later: Loaded): Loaded {
    match t
    case Skip => later
    case Token(b) => later.After([b])
    case Fatal(why) => Failed(line, why)
  }

  /** Loading a file when `line` lines were read before it. */
  function Load(file: seq<u8>, level: nat, line: nat): Loaded
    decreases |file|
  {
    if file == [] then Extras([])
    else
      var n := LineLength(file, MAX_LINE - 1);
      Then(ParseLine(file[..n], level), line + 1, Load(file[n..], level, line + 1))
  }

  /** Loading a file. */
  function LoadAll(file: seq<u8>, level: nat): Loaded {
    Load(file, level, 0)
  }

  // ---------------------------------------------------------------- the loader, as loops

  /** A C string in the line buffer: it starts at `from`, and its NUL is at `end`. */
  ghost predicate IsString(buf: seq<u8>, from: nat, end: nat) {
    from <= end < |buf| && buf[end] == NUL && NUL !in buf[from..end]
  }

  lemma NulIsAtEnd(buf: seq<u8>, from: nat, end: nat, at: nat)
    requires IsString(buf, from, end) && from <= at <= end
    ensures buf[at] == NUL <==> at == end
  {
    if at < end {
      assert buf[at] == buf[from..end][at - from];
    }
  }

  lemma StringFrom(buf: seq<u8>, from: nat, end: nat, at: nat)
    requires IsString(buf, from, end) && from <= at <= end
    ensures IsString(buf, at, end)
  {
    assert buf[at..end] == buf[from..end][at - from..];
  }

  /** `while (p(*lptr)) lptr++`, which stops at the NUL at the latest. */
  method SkipChars(p: u8 -> bool, buf: array<u8>, from: nat, ghost end: nat) returns (to: nat)
    requires IsString(buf[..], from, end) && !p(NUL)
    ensures from <= to && IsString(buf[..], to, end)
    ensures buf[..][to..end] == DropWhile(p, buf[..][from..end])
  {
    to := from;
    ghost var s := buf[..];
    while p(buf[to])
      invariant from <= to <= end && DropWhile(p, s[to..end]) == DropWhile(p, s[from..end])
      decreases end - to
    {
      assert s[to..end][1..] == s[to + 1..end];
      to := to + 1;
    }
    assert to < end ==> s[to..end][0] == s[to];
    assert s[to..end] == s[from..end][to - from..];
  }

  method StrLen(buf: array<u8>, from: nat, ghost end: nat) returns (n: nat)
    requires IsString(buf[..], from, end)
    ensures from + n == end
  {
    n := 0;
    while buf[from + n] != NUL
      invariant from + n <= end
      decreases end - (from + n)
    {
      assert from + n != end;
      n := n + 1;
    }
    NulIsAtEnd(buf[..], from, end, from + n);
  }

  /** `rptr` goes back over white space, and the string is cut off there. */
  method TrimEnd(buf: array<u8>, lptr: nat, ghost end: nat) returns (rptr: nat)
    requires IsString(buf[..], lptr, end)
    modifies buf
    ensures IsString(buf[..], lptr, rptr)
    ensures buf[..][lptr..rptr] == TrimRight(old(buf[..][lptr..end]))
  {
    ghost var s := buf[..];
    var len := StrLen(buf, lptr, end);
    rptr := lptr + len;
    while rptr > lptr && IsSpace(buf[rptr - 1])
      invariant lptr <= rptr <= end && TrimRight(s[lptr..rptr]) == TrimRight(s[lptr..end])
    {
      assert s[lptr..rptr][..rptr - 1 - lptr] == s[lptr..rptr - 1];
      rptr := rptr - 1;
    }
    assert rptr > lptr ==> s[lptr..rptr][rptr - 1 - lptr] == s[rptr - 1];
    assert s[lptr..rptr] == s[lptr..end][..rptr - lptr];
    buf[rptr] := NUL;
    assert buf[..][lptr..rptr] == s[lptr..rptr];
  }

  /** What one turn of the copying loop does: the bytes consumed and the byte produced. */
  method DecodeOne(buf: array<u8>, lptr: nat, ghost end: nat) returns (n: nat, c: u8, bad: bool, why: Reason)
    requires IsString(buf[..], lptr, end) && lptr < end
    ensures bad ==> Decode(buf[..][lptr..end]) == Bad(why)
    ensures !bad ==> n > 0 && lptr + n <= end && Decode(buf[..][lptr..end]) == Decode(buf[..][lptr + n..end]).After([c])
  {
    n, c, bad, why := 1, buf[lptr], false, NonPrintable;
    ghost var s := buf[..];
    ghost var rest := s[lptr..end];
    assert rest[0] == c && s[end] == NUL;
    if 1 <= c < 32 || c >= 128 {
      bad := true;
    } else if c == BACKSLASH {
      assert CharAt(rest, 1) == s[lptr + 1];
      if buf[lptr + 1] == BACKSLASH || buf[lptr + 1] == QUOTE {
        n, c := 2, buf[lptr + 1];
      } else {
        n := 4;
        bad, c := DecodeHex(buf, lptr, end);
        why := InvalidEscape;
      }
    }
    assert !bad ==> lptr + n <= end && rest[n..] == s[lptr + n..end];
  }

  /** The test of the two digits stops at the first that is none, so it never reads past the NUL. */
  method DecodeHex(buf: array<u8>, lptr: nat, ghost end: nat) returns (bad: bool, c: u8)
    requires IsString(buf[..], lptr, end) && lptr < end && buf[lptr] == BACKSLASH
    ensures bad <==> !IsHexEscape(buf[..][lptr..end])
    ensures !bad ==> lptr + 4 <= end && c == 16 * HexValue(buf[lptr + 2]) + HexValue(buf[lptr + 3])
  {
    ghost var rest := buf[..][lptr..end];
    assert forall k: nat :: lptr + k < end ==> rest[k] == buf[lptr + k];
    bad, c := true, NUL;
    if buf[lptr + 1] == LOWER_X {
      assert lptr + 2 <= end && CharAt(rest, 2) == buf[lptr + 2];
      if IsHexDigit(buf[lptr + 2]) {
        assert lptr + 3 <= end && CharAt(rest, 3) == buf[lptr + 3];
        if IsHexDigit(buf[lptr + 3]) {
          bad, c := false, 16 * HexValue(buf[lptr + 2]) + HexValue(buf[lptr + 3]);
        }
      }
    }
  }

  ghost predicate Decoding(s: seq<u8>, rest: seq<u8>, done: seq<u8>) {
    Decode(s) == Decode(rest).After(done)
  }

  lemma OneMoreDecoded(s: seq<u8>, rest: seq<u8>, done: seq<u8>, after: seq<u8>, c: u8)
    requires Decoding(s, rest, done) && Decode(rest) == Decode(after).After([c])
    ensures Decoding(s, after, done + [c])
  {
    DecodedTwice(Decode(after), done, [c]);
  }

  /** Copying the keyword into a block as long as the text between the quotes never leaves the block. */
  method DecodeKeyword(buf: array<u8>, from: nat, rptr: nat) returns (d: Decoded)
    requires IsString(buf[..], from, rptr)
    ensures d == Decode(buf[..][from..rptr])
  {
    ghost var s := buf[..];
    var data := new u8[rptr - from];
    var lptr, klen := from, 0;
    while buf[lptr] != NUL
      invariant from <= lptr <= rptr && 0 <= klen <= lptr - from && data.Length == rptr - from && buf[..] == s
      invariant Decoding(s[from..rptr], s[lptr..rptr], data[..klen])
      decreases rptr - lptr
    {
      StringFrom(s, from, rptr, lptr);
      var n, c, bad, why := DecodeOne(buf, lptr, rptr);
      if bad {
        return Bad(why);
      }
      OneMoreDecoded(s[from..rptr], s[lptr..rptr], data[..klen], s[lptr + n..rptr], c);
      ghost var done := data[..klen];
      data[klen] := c;
      klen := klen + 1;
      assert data[..klen] == done + [c];
      lptr := lptr + n;
    }
    d := Bytes(data[..klen]);
    NulIsAtEnd(s, from, rptr, lptr);
    assert s[lptr..rptr] == [];
  }

  method LoadKeyword(buf: array<u8>, from: nat, rptr: nat) returns (r: LineResult)
    requires IsString(buf[..], from, rptr)
    ensures r == ParseKeyword(buf[..][from..rptr])
  {
    ghost var s := buf[..][from..rptr];
    assert CharAt(s, 0) == buf[from];
    if buf[from] != QUOTE {
      return Fatal(MalformedKeyword);
    }
    var lptr := from + 1;
    assert s[1..] == buf[..][lptr..rptr];
    StringFrom(buf[..], from, rptr, lptr);
    NulIsAtEnd(buf[..], lptr, rptr, lptr);
    if buf[lptr] == NUL {
      return Fatal(EmptyKeyword);
    }
    var d := DecodeKeyword(buf, lptr, rptr);
    if d.Bad? {
      return Fatal(d.why);
    }
    if |d.bytes| > MAX_DICT_FILE {
      return Fatal(TooBig);
    }
    r := Token(d.bytes);
  }

  method LoadPair(buf: array<u8>, from: nat, rptr: nat, level: nat) returns (r: LineResult)
    requires IsString(buf[..], from, rptr)
    ensures r == ParsePair(buf[..][from..rptr], level)
  {
    var lptr := SkipChars(IsLabel, buf, from, rptr);
    ghost var t := buf[..][lptr..rptr];
    assert CharAt(t, 0) == buf[lptr];
    if buf[lptr] == AT {
      lptr := lptr + 1;
      assert t[1..] == buf[..][lptr..rptr];
      if Level(buf[lptr..rptr]) > level {
        return Skip;
      }
      lptr := SkipChars(IsDigit, buf, lptr, rptr);
    }
    lptr := SkipChars(IsSeparator, buf, lptr, rptr);
    r := LoadKeyword(buf, lptr, rptr);
  }

  /** A trimmed line: comments are skipped, and the closing quote is overwritten with a NUL. */
  method LoadTrimmed(buf: array<u8>, lptr: nat, end: nat, level: nat) returns (r: LineResult)
    requires IsString(buf[..], lptr, end)
    modifies buf
    ensures r == ParseTrimmed(old(buf[..][lptr..end]), level)
  {
    ghost var s := buf[..][lptr..end];
    NulIsAtEnd(buf[..], lptr, end, lptr);
    if buf[lptr] == NUL || buf[lptr] == HASH {
      return Skip;
    }
    var rptr := end - 1;
    assert s[rptr - lptr] == buf[rptr] && s[0] == buf[lptr];
    if rptr < lptr || buf[rptr] != QUOTE {
      return Fatal(MalformedPair);
    }
    buf[rptr] := NUL;
    assert buf[..][lptr..rptr] == s[..|s| - 1];
    r := LoadPair(buf, lptr, rptr, level);
  }

  /** One line in the buffer: `lptr` and `rptr` close in on it, and NULs are written where it is cut off. */
  method LoadLine(buf: array<u8>, ghost line: seq<u8>, level: nat) returns (r: LineResult)
    requires |line| < buf.Length && buf[..|line|] == line && buf[|line|] == NUL
    modifies buf
    ensures r == ParseLine(line, level)
  {
    ghost var end := |CString(line)|;
    StringInBuffer(buf[..], line);
    var lptr := SkipChars(IsSpace, buf, 0, end);
    var rptr := TrimEnd(buf, lptr, end);
    r := LoadTrimmed(buf, lptr, rptr, level);
  }

  lemma StringInBuffer(buf: seq<u8>, line: seq<u8>)
    requires |line| < |buf| && buf[..|line|] == line && buf[|line|] == NUL
    ensures IsString(buf, 0, |CString(line)|) && buf[0..|CString(line)|] == CString(line)
  {
    var s := CString(line);
    assert buf[0..|s|] == line[..|s|];
    assert |s| < |line| ==> buf[..|line|][|s|] == line[|s|];
  }

  /** The lines up to `at` gave `extras`, and the rest is still to be read. */
  ghost predicate Progress(file: seq<u8>, level: nat, at: nat, line: nat, extras: seq<seq<u8>>) {
    at <= |file| && LoadAll(file, level) == Load(file[at..], level, line).After(extras)
  }

  function Collect(extras: seq<seq<u8>>, t: LineResult): seq<seq<u8>> {
    if t.Token? then extras + [t.bytes] else extras
  }

  lemma LoadStep(rest: seq<u8>, level: nat, line: nat, n: nat, t: LineResult, after: seq<u8>, line': nat)
    requires rest != [] && n == LineLength(rest, MAX_LINE - 1) && t == ParseLine(rest[..n], level)
    requires after == rest[n..] && line' == line + 1
    ensures Load(rest, level, line) == Then(t, line', Load(after, level, line'))
  {
  }

  lemma AfterTwice(later: Loaded, a: seq<seq<u8>>, b: seq<seq<u8>>)
    ensures later.After(b).After(a) == later.After(a + b)
  {
    if later.Extras? {
      assert a + (b + later.tokens) == a + b + later.tokens;
    }
  }

  lemma OneMoreLine(file: seq<u8>, level: nat, at: nat, line: nat, extras: seq<seq<u8>>, n: nat, t: LineResult,
                    next: nat, line': nat, more: seq<seq<u8>>)
    requires Progress(file, level, at, line, extras) && at < |file|
    requires n == LineLength(file[at..], MAX_LINE - 1) && t == ParseLine(file[at..][..n], level)
    requires next == at + n && line' == line + 1 && more == Collect(extras, t)
    ensures t.Fatal? ==> LoadAll(file, level) == Failed(line', t.why)
    ensures !t.Fatal? ==> Progress(file, level, next, line', more)
  {
    var rest, after := file[at..], file[next..];
    assert rest[n..] == after;
    LoadStep(rest, level, line, n, t, after, line');
    if t.Token? {
      AfterTwice(Load(after, level, line'), extras, [t.bytes]);
    }
  }

  lemma NoMoreLines(file: seq<u8>, level: nat, line: nat, extras: seq<seq<u8>>)
    requires Progress(file, level, |file|, line, extras)
    ensures LoadAll(file, level) == Extras(extras)
  {
  }

  lemma NoLinesYet(file: seq<u8>, level: nat)
    ensures Progress(file, level, 0, 0, [])
  {
    assert file[0..] == file;
    assert var r := LoadAll(file, level); r.After([]) == r;
  }

  /** `fgets`: the next line into the buffer, and a NUL behind it. */
  method Fgets(file: seq<u8>, at: nat, buf: array<u8>) returns (n: nat)
    requires at < |file| && buf.Length == MAX_LINE
    modifies buf
    ensures n == LineLength(file[at..], MAX_LINE - 1) && n < MAX_LINE
    ensures buf[..n] == file[at..][..n] && buf[n] == NUL
  {
    n := LineLength(file[at..], MAX_LINE - 1);
    LineFits(file[at..], MAX_LINE - 1);
    forall k | 0 <= k < n {
      buf[k] := file[at + k];
    }
    buf[n] := NUL;
  }

  lemma {:induction false} LineFits(file: seq<u8>, room: nat)
    ensures LineLength(file, room) <= room
    decreases room
  {
    if file != [] && room > 0 && file[0] != NEWLINE {
      LineFits(file[1..], room - 1);
    }
  }

  /** One call of `fgets` and what is made of the line. */
  method LoadNext(file: seq<u8>, level: nat, at: nat, line: nat, extras: seq<seq<u8>>, buf: array<u8>)
    returns (t: LineResult, at': nat, line': nat, extras': seq<seq<u8>>)
    requires Progress(file, level, at, line, extras) && at < |file| && buf.Length == MAX_LINE
    modifies buf
    ensures t.Fatal? ==> LoadAll(file, level) == Failed(line', t.why)
    ensures !t.Fatal? ==> at < at' && Progress(file, level, at', line', extras')
  {
    var n := Fgets(file, at, buf);
    ghost var text := file[at..][..n];
    t := LoadLine(buf, text, level);
    at', line', extras' := at + n, line + 1, Collect(extras, t);
    OneMoreLine(file, level, at, line, extras, n, t, at', line', extras');
  }

  /** `load_extras_file`: line by line, up to the first line it refuses. */
  method LoadExtrasFile(file: seq<u8>, level: nat) returns (r: Loaded)
    ensures r == LoadAll(file, level)
  {
    var buf := new u8[MAX_LINE](_ => NUL);
    var extras: seq<seq<u8>> := [];
    var at: nat, line: nat := 0, 0;
    NoLinesYet(file, level);
    while at < |file|
      invariant Progress(file, level, at, line, extras) && buf.Length == MAX_LINE && fresh(buf)
      decreases |file| - at
    {
      var t;
      t, at, line, extras := LoadNext(file, level, at, line, extras, buf);
      if t.Fatal? {
        return Failed(line, t.why);
      }
    }
    NoMoreLines(file, level, line, extras);
    r := Extras(extras);
  }

  // ---------------------------------------------------------------- loading what was printed

  lemma HexIsUndone(n: nat)
    requires n < 16
    ensures IsHexDigit(HexDigit(n)) && HexValue(HexDigit(n)) == n
  {
  }

  lemma HexEscapeIsUndone(c: u8, s: seq<u8>)
    requires |s| >= 4 && s[..4] == [BACKSLASH, LOWER_X, HexDigit(c / 16), HexDigit(c % 16)]
    ensures Decode(s) == Decode(s[4..]).After([c])
  {
    HexIsUndone(c / 16);
    HexIsUndone(c % 16);
    assert s[0] == s[..4][0] && s[1] == s[..4][1] && s[2] == s[..4][2] && s[3] == s[..4][3];
    assert IsHexEscape(s);
    assert 16 * (c / 16) + c % 16 == c;
  }

  lemma EscapeIsUndone(c: u8, rest: seq<u8>)
    ensures Decode(Escaped(c) + rest) == Decode(rest).After([c])
  {
    var s := Escaped(c) + rest;
    if MustEscape(c) {
      assert s[4..] == rest;
      HexEscapeIsUndone(c, s);
    } else {
      assert s[1..] == rest;
    }
  }

  lemma DecodedTwice(later: Decoded, a: seq<u8>, b: seq<u8>)
    ensures later.After(b).After(a) == later.After(a + b)
  {
    if later.Bytes? {
      assert a + (b + later.bytes) == a + b + later.bytes;
    }
  }

  lemma BodyOfLast(token: seq<u8>, init: seq<u8>, last: u8, rest: seq<u8>, more: seq<u8>)
    requires token == init + [last] && more == Escaped(last) + rest
    ensures Body(token) + rest == Body(init) + more
  {
    assert token[..|token| - 1] == init;
  }

  lemma {:induction false} BodyIsUndone(token: seq<u8>, rest: seq<u8>)
    ensures Decode(Body(token) + rest) == Decode(rest).After(token)
  {
    if token == [] {
      assert Body(token) + rest == rest;
    } else {
      var init, last := token[..|token| - 1], token[|token| - 1];
      var more := Escaped(last) + rest;
      assert token == init + [last];
      BodyOfLast(token, init, last, rest, more);
      BodyIsUndone(init, more);
      EscapeIsUndone(last, rest);
      DecodedTwice(Decode(rest), init, [last]);
    }
  }

  lemma {:induction false} DropsPrefix(p: u8 -> bool, s: seq<u8>, rest: seq<u8>)
    requires All(p, s) && (rest == [] || !p(rest[0]))
    ensures DropWhile(p, s + rest) == rest
  {
    if s == [] {
      assert s + rest == rest;
    } else {
      assert (s + rest)[1..] == s[1..] + rest;
      DropsPrefix(p, s[1..], rest);
    }
  }

  lemma {:induction false} TrimsSuffix(s: seq<u8>, spaces: seq<u8>)
    requires All(IsSpace, spaces) && (s == [] || !IsSpace(s[|s| - 1]))
    ensures TrimRight(s + spaces) == s
  {
    if spaces == [] {
      assert s + spaces == s;
    } else {
      assert (s + spaces)[..|s + spaces| - 1] == s + spaces[..|spaces| - 1];
      TrimsSuffix(s, spaces[..|spaces| - 1]);
    }
  }

  lemma {:induction false} ReadsDigits(digits: seq<u8>, rest: seq<u8>, sofar: nat)
    requires All(IsDigit, digits) && (rest == [] || !IsDigit(rest[0]))
    ensures DigitsValue(digits + rest, sofar) == DigitsValue(digits, sofar)
  {
    if digits == [] {
      assert digits + rest == rest;
    } else {
      assert (digits + rest)[1..] == digits[1..] + rest;
      ReadsDigits(digits[1..], rest, 10 * sofar + (digits[0] - 48));
    }
  }

  /** A keyword, its separators and its optional level in front of it. */
  ghost predicate IsMark(mark: seq<u8>) {
    mark == [] ||
    (|mark| > 1 && mark[0] == AT && All(IsDigit, mark[1..]) && DigitsValue(mark[1..], 0) < 0x8000_0000)
  }

  function MarkLevel(mark: seq<u8>): nat {
    if mark == [] then 0 else DigitsValue(mark[1..], 0)
  }

  /** What the loader makes of a printed token. */
  function KeywordResult(token: seq<u8>): LineResult {
    if token == [] then Fatal(EmptyKeyword) else if |token| > 128 then Fatal(TooBig) else Token(token)
  }

  lemma QuotedIsParsed(token: seq<u8>)
    ensures ParseKeyword([QUOTE] + Body(token)) == KeywordResult(token)
  {
    var s := [QUOTE] + Body(token);
    assert s[1..] == Body(token) + [];
    BodyIsPrintable(token);
    BodyIsUndone(token, []);
  }

  lemma LevelIsRead(mark: seq<u8>, rest: seq<u8>)
    requires IsMark(mark) && mark != [] && rest != [] && !IsDigit(rest[0])
    ensures Level(mark[1..] + rest) == MarkLevel(mark)
    ensures DropWhile(IsDigit, mark[1..] + rest) == rest
  {
    var digits := mark[1..];
    assert digits + rest == [digits[0]] + (digits + rest)[1..];
    assert DropWhile(IsSpace, digits + rest) == digits + rest;
    ReadsDigits(digits, rest, 0);
    DropsPrefix(IsDigit, digits, rest);
  }

  lemma TailStarts(seps: seq<u8>, key: seq<u8>)
    requires All(IsSeparator, seps) && key != [] && key[0] == QUOTE
    ensures var c := (seps + key)[0]; !IsDigit(c) && !IsLabel(c) && c != AT
  {
    if seps != [] {
      assert (seps + key)[0] == seps[0];
      assert IsSeparator(seps[0]);
    }
  }

  lemma MarkIsParsed(mark: seq<u8>, seps: seq<u8>, key: seq<u8>, level: nat)
    requires IsMark(mark) && All(IsSeparator, seps) && key != [] && key[0] == QUOTE
    ensures var t := mark + (seps + key);
      && !IsLabel(t[0])
      && ParseMarked(t, level) == if MarkLevel(mark) > level then Skip else ParseKeyword(key)
  {
    var tail := seps + key;
    var t := mark + tail;
    DropsPrefix(IsSeparator, seps, key);
    TailStarts(seps, key);
    if mark == [] {
      assert t == tail;
    } else {
      assert t[1..] == mark[1..] + tail;
      LevelIsRead(mark, tail);
    }
  }

  /** `label@level = "keyword` */
  lemma PairIsParsed(name: seq<u8>, mark: seq<u8>, seps: seq<u8>, key: seq<u8>, level: nat)
    requires All(IsLabel, name) && IsMark(mark) && All(IsSeparator, seps) && key != [] && key[0] == QUOTE
    ensures ParsePair(name + (mark + (seps + key)), level)
         == if MarkLevel(mark) > level then Skip else ParseKeyword(key)
  {
    MarkIsParsed(mark, seps, key, level);
    DropsPrefix(IsLabel, name, mark + (seps + key));
  }

  /** A dictionary line in the documented form, with anything `isspace` around it, and this text as its keyword. */
  function DictionaryLine(lead: seq<u8>, name: seq<u8>, mark: seq<u8>, seps: seq<u8>, text: seq<u8>,
                          trail: seq<u8>): seq<u8> {
    lead + (name + (mark + (seps + ([QUOTE] + text + [QUOTE]))) + trail)
  }

  ghost predicate IsDictionaryLine(lead: seq<u8>, name: seq<u8>, mark: seq<u8>, seps: seq<u8>, trail: seq<u8>) {
    && All(IsSpace, lead)
    && All(IsSpace, trail)
    && All(IsLabel, name)
    && All(IsSeparator, seps)
    && IsMark(mark)
    && (seps == [] || name != [] || mark != [] || !IsSpace(seps[0]))
  }

  lemma {:induction false} NoNul(s: seq<u8>)
    requires NUL !in s
    ensures CString(s) == s
  {
    CStringWithin(s, |s|);
  }

  lemma LineHasNoNul(lead: seq<u8>, name: seq<u8>, mark: seq<u8>, seps: seq<u8>, text: seq<u8>, trail: seq<u8>)
    requires IsDictionaryLine(lead, name, mark, seps, trail) && NUL !in text
    ensures NUL !in DictionaryLine(lead, name, mark, seps, text, trail)
  {
    MarkHasNoNul(mark);
    assert NUL !in name + (mark + (seps + ([QUOTE] + text + [QUOTE])));
  }

  lemma MarkHasNoNul(mark: seq<u8>)
    requires IsMark(mark)
    ensures NUL !in mark
  {
    if mark != [] {
      assert mark == [mark[0]] + mark[1..];
    }
  }

  /** Trimming a line around a core that starts and ends with no white space. */
  lemma CoreIsParsed(lead: seq<u8>, pair: seq<u8>, trail: seq<u8>, level: nat)
    requires All(IsSpace, lead) && All(IsSpace, trail)
    requires pair != [] && !IsSpace(pair[0]) && pair[0] != HASH
    requires NUL !in lead + (pair + [QUOTE] + trail)
    ensures ParseLine(lead + (pair + [QUOTE] + trail), level) == ParsePair(pair, level)
  {
    var core := pair + [QUOTE];
    NoNul(lead + (core + trail));
    assert (core + trail)[0] == pair[0];
    DropsPrefix(IsSpace, lead, core + trail);
    TrimsSuffix(core, trail);
    assert core[..|core| - 1] == pair;
  }

  /** For every label, level mark, separators and white space, the line gives what its keyword gives. */
  lemma TextIsParsed(lead: seq<u8>, name: seq<u8>, mark: seq<u8>, seps: seq<u8>, text: seq<u8>, trail: seq<u8>,
                     level: nat)
    requires IsDictionaryLine(lead, name, mark, seps, trail) && NUL !in text
    ensures ParseLine(DictionaryLine(lead, name, mark, seps, text, trail), level)
         == if MarkLevel(mark) > level then Skip else ParseKeyword([QUOTE] + text)
  {
    var tail := seps + ([QUOTE] + text);
    var pair := name + (mark + tail);
    LineHasNoNul(lead, name, mark, seps, text, trail);
    assert DictionaryLine(lead, name, mark, seps, text, trail) == lead + (pair + [QUOTE] + trail);
    assert !IsSpace(pair[0]) && pair[0] != HASH by {
      if name != [] {
        assert pair[0] == name[0];
      } else if mark != [] {
        assert pair[0] == mark[0];
      } else {
        assert pair[0] == tail[0];
      }
    }
    CoreIsParsed(lead, pair, trail, level);
    PairIsParsed(name, mark, seps, [QUOTE] + text, level);
  }

  /** A printed token comes back: skipped when its level is above the wanted one, refused only if empty or too long. */
  lemma LineIsParsed(lead: seq<u8>, name: seq<u8>, mark: seq<u8>, seps: seq<u8>, token: seq<u8>, trail: seq<u8>,
                     level: nat)
    requires IsDictionaryLine(lead, name, mark, seps, trail)
    ensures ParseLine(DictionaryLine(lead, name, mark, seps, Body(token), trail), level)
         == if MarkLevel(mark) > level then Skip else KeywordResult(token)
  {
    BodyIsPrintable(token);
    TextIsParsed(lead, name, mark, seps, Body(token), trail, level);
    QuotedIsParsed(token);
  }

  // ---------------------------------------------------------------- all spellings of a keyword

  /** A byte as it may be written in a keyword: itself, in hex, or a quote or backslash behind a backslash. */
  datatype Piece = Plain(c: u8) | Hex(hi: u8, lo: u8) | Escape(c: u8)
  {
    predicate IsValid() {
      match this
      case Plain(c) => 32 <= c < 128 && c != 92
      case Hex(hi, lo) => IsHexDigit(hi) && IsHexDigit(lo)
      case Escape(c) => c == 92 || c == 34
    }

    function Text(): seq<u8> {
      match this
      case Plain(c) => [c]
      case Hex(hi, lo) => [92, 120, hi, lo]
      case Escape(c) => [92, c]
    }

    function Byte(): u8
      requires IsValid()
    {
      match this
      case Plain(c) => c
      case Hex(hi, lo) => 16 * HexValue(hi) + HexValue(lo)
      case Escape(c) => c
    }
  }

  const HEX_DIGITS: string := "0123456789abcdef"

  /** A digit, large or small, stands for its position in this list, and the printer uses the small ones. */
  lemma HexDigitsAreListed(c: u8, n: nat)
    requires n < 16
    ensures IsHexDigit(c)
       <==> exists k :: 0 <= k < 16 && (HEX_DIGITS[k] as int == c || (k >= 10 && HEX_DIGITS[k] as int == c as int + 32))
    ensures IsHexDigit(c) ==>
              var k := HexValue(c); HEX_DIGITS[k] as int == c || (k >= 10 && HEX_DIGITS[k] as int == c as int + 32)
    ensures HEX_DIGITS[n] as int == HexDigit(n)
  {
    assert forall k :: 0 <= k < 16 ==> HEX_DIGITS[k] as int == if k < 10 then 48 + k else 87 + k;
    if IsHexDigit(c) {
      var k := HexValue(c);
      assert HEX_DIGITS[k] as int == c || (k >= 10 && HEX_DIGITS[k] as int == c as int + 32);
    }
  }

  ghost predicate AreValid(ps: seq<Piece>) {
    forall i :: 0 <= i < |ps| ==> ps[i].IsValid()
  }

  function TextOf(ps: seq<Piece>): seq<u8> {
    if ps == [] then [] else ps[0].Text() + TextOf(ps[1..])
  }

  function BytesOf(ps: seq<Piece>): (r: seq<u8>)
    requires AreValid(ps)
    ensures |r| == |ps| && forall i :: 0 <= i < |ps| ==> r[i] == ps[i].Byte()
  {
    if ps == [] then [] else [ps[0].Byte()] + BytesOf(ps[1..])
  }

  lemma PieceIsDecoded(p: Piece, rest: seq<u8>)
    requires p.IsValid()
    ensures Decode(p.Text() + rest) == Decode(rest).After([p.Byte()])
  {
    var s := p.Text() + rest;
    assert s[|p.Text()|..] == rest;
    match p
    case Plain(c) => assert s[0] == c;
    case Hex(hi, lo) => assert s[0] == 92 && s[1] == 120 && s[2] == hi && s[3] == lo && IsHexEscape(s);
    case Escape(c) => assert s[0] == 92 && s[1] == c;
  }

  /** Decoding undoes every spelling, whatever follows. */
  lemma {:induction false} SpellingIsDecoded(ps: seq<Piece>, rest: seq<u8>)
    requires AreValid(ps)
    ensures Decode(TextOf(ps) + rest) == Decode(rest).After(BytesOf(ps))
  {
    if ps == [] {
      assert TextOf(ps) + rest == rest;
      assert Decode(rest).After([]) == Decode(rest);
    } else {
      var more := TextOf(ps[1..]) + rest;
      assert TextOf(ps) + rest == ps[0].Text() + more;
      PieceIsDecoded(ps[0], more);
      SpellingIsDecoded(ps[1..], rest);
      DecodedTwice(Decode(rest), [ps[0].Byte()], BytesOf(ps[1..]));
    }
  }

  /** What cannot be the next byte of a keyword, and why. */
  ghost predicate IsRefusedAt(rest: seq<u8>, why: Reason) {
    && rest != []
    && match why
       case NonPrintable => 1 <= rest[0] < 32 || rest[0] >= 128
       case InvalidEscape =>
         && rest[0] == 92 && !(|rest| >= 2 && (rest[1] == 92 || rest[1] == 34))
         && !(|rest| >= 4 && rest[1] == 120 && IsHexDigit(rest[2]) && IsHexDigit(rest[3]))
       case _ => false
  }

  /** The text without its first piece; none if it cannot begin with one. */
  lemma FirstPiece(s: seq<u8>) returns (p: Piece, rest: seq<u8>)
    requires s != [] && NUL !in s && !(exists why :: IsRefusedAt(s, why))
    ensures p.IsValid() && s == p.Text() + rest && |rest| < |s|
  {
    assert !IsRefusedAt(s, NonPrintable) && !IsRefusedAt(s, InvalidEscape);
    assert s[0] != NUL;
    if s[0] != 92 {
      p, rest := Plain(s[0]), s[1..];
    } else if |s| >= 2 && (s[1] == 92 || s[1] == 34) {
      p, rest := Escape(s[1]), s[2..];
    } else {
      p, rest := Hex(s[2], s[3]), s[4..];
    }
  }

  lemma RefusedIsBad(s: seq<u8>, why: Reason)
    requires IsRefusedAt(s, why) && NUL !in s
    ensures Decode(s) == Bad(why)
  {
    if why.InvalidEscape? {
      assert IsHexEscape(s) ==> |s| >= 4;
    }
  }

  /** Every text is a spelling up to where it is refused, if it is. */
  lemma {:induction false} TextIsSpelling(s: seq<u8>) returns (ps: seq<Piece>, rest: seq<u8>)
    requires NUL !in s
    ensures AreValid(ps) && s == TextOf(ps) + rest
    ensures rest != [] ==> exists why :: IsRefusedAt(rest, why)
    decreases |s|
  {
    if s == [] || exists why :: IsRefusedAt(s, why) {
      ps, rest := [], s;
    } else {
      var p, more := FirstPiece(s);
      assert forall c :: c in more ==> c in s;
      ps, rest := TextIsSpelling(more);
      ps := [p] + ps;
      assert TextOf(ps) == p.Text() + TextOf(ps[1..]);
    }
  }

  lemma SpelledIsAccepted(ps: seq<Piece>)
    requires AreValid(ps)
    ensures Decode(TextOf(ps)) == Bytes(BytesOf(ps))
  {
    SpellingIsDecoded(ps, []);
    assert TextOf(ps) + [] == TextOf(ps);
    assert Decode([]) == Bytes([]);
    assert BytesOf(ps) + [] == BytesOf(ps);
  }

  lemma RefusedBehind(ps: seq<Piece>, rest: seq<u8>, why: Reason)
    requires AreValid(ps) && IsRefusedAt(rest, why) && NUL !in TextOf(ps) + rest
    ensures Decode(TextOf(ps) + rest) == Bad(why)
  {
    SpellingIsDecoded(ps, rest);
    forall c | c in rest ensures c in TextOf(ps) + rest {
    }
    RefusedIsBad(rest, why);
  }

  lemma AcceptedIsSpelled(s: seq<u8>) returns (ps: seq<Piece>)
    requires NUL !in s && Decode(s).Bytes?
    ensures AreValid(ps) && s == TextOf(ps)
  {
    var rest;
    ps, rest := TextIsSpelling(s);
    if rest != [] {
      var why :| IsRefusedAt(rest, why);
      RefusedBehind(ps, rest, why);
    }
    assert TextOf(ps) + [] == TextOf(ps);
  }

  /** A text is accepted exactly if it is a spelling, and then gives the bytes that it spells. */
  lemma DecodeMeans(s: seq<u8>, b: seq<u8>)
    requires NUL !in s
    ensures Decode(s) == Bytes(b) <==> exists ps :: AreValid(ps) && s == TextOf(ps) && b == BytesOf(ps)
  {
    if Decode(s) == Bytes(b) {
      var ps := AcceptedIsSpelled(s);
      SpelledIsAccepted(ps);
    }
    if ps :| AreValid(ps) && s == TextOf(ps) && b == BytesOf(ps) {
      SpelledIsAccepted(ps);
    }
  }

  /** And refused exactly at the first place where it is none. */
  lemma DecodeRefuses(s: seq<u8>, why: Reason)
    requires NUL !in s
    ensures Decode(s) == Bad(why)
       <==> exists ps, rest :: AreValid(ps) && s == TextOf(ps) + rest && IsRefusedAt(rest, why)
  {
    if Decode(s) == Bad(why) {
      var ps, rest := TextIsSpelling(s);
      if rest == [] {
        assert TextOf(ps) + [] == TextOf(ps);
        SpelledIsAccepted(ps);
      } else {
        var w :| IsRefusedAt(rest, w);
        RefusedBehind(ps, rest, w);
      }
    }
    if ps, rest :| AreValid(ps) && s == TextOf(ps) + rest && IsRefusedAt(rest, why) {
      RefusedBehind(ps, rest, why);
    }
  }

  lemma {:induction false} TextHasNoNul(ps: seq<Piece>)
    requires AreValid(ps)
    ensures NUL !in TextOf(ps)
  {
    if ps != [] {
      TextHasNoNul(ps[1..]);
    }
  }

  /** A line with a keyword in any spelling: escaped quotes and backslashes, hex digits of either case, plain bytes. */
  lemma SpelledLineIsParsed(lead: seq<u8>, name: seq<u8>, mark: seq<u8>, seps: seq<u8>, ps: seq<Piece>,
                            trail: seq<u8>, level: nat)
    requires IsDictionaryLine(lead, name, mark, seps, trail) && AreValid(ps)
    ensures ParseLine(DictionaryLine(lead, name, mark, seps, TextOf(ps), trail), level)
         == if MarkLevel(mark) > level then Skip else KeywordResult(BytesOf(ps))
  {
    TextHasNoNul(ps);
    TextIsParsed(lead, name, mark, seps, TextOf(ps), trail, level);
    SpellingIsDecoded(ps, []);
    var key := [QUOTE] + TextOf(ps);
    assert key[1..] == TextOf(ps) + [];
    assert TextOf(ps) == [] <==> ps == [];
  }

  // ---------------------------------------------------------------- lines that give nothing

  /** A comment, with anything behind it. */
  lemma CommentIsSkipped(lead: seq<u8>, text: seq<u8>, level: nat)
    requires All(IsSpace, lead)
    ensures ParseLine(lead + [HASH] + text, level) == Skip
  {
    var line := lead + ([HASH] + text);
    assert lead + [HASH] + text == line;
    var s := CString(line);
    CStringKeeps(lead + [HASH], text);
    assert lead + [HASH] + text == (lead + [HASH]) + text;
    var tail := s[|lead|..];
    assert s == lead + tail && tail[0] == HASH;
    DropsPrefix(IsSpace, lead, tail);
    TrimKeepsFirst(tail);
  }

  lemma {:induction false} CStringKeeps(front: seq<u8>, text: seq<u8>)
    requires NUL !in front
    ensures |CString(front + text)| >= |front| && CString(front + text)[..|front|] == front
  {
    if front != [] {
      assert front[0] in front;
      assert (front + text)[1..] == front[1..] + text;
      CStringKeeps(front[1..], text);
      assert CString(front + text) == [front[0]] + CString(front[1..] + text);
    }
  }

  lemma {:induction false} TrimKeepsFirst(s: seq<u8>)
    requires s != [] && !IsSpace(s[0])
    ensures TrimRight(s) != [] && TrimRight(s)[0] == s[0]
  {
    if IsSpace(s[|s| - 1]) {
      TrimKeepsFirst(s[..|s| - 1]);
    }
  }

  lemma BlankIsSkipped(line: seq<u8>, level: nat)
    requires All(IsSpace, line)
    ensures ParseLine(line, level) == Skip
  {
    NoNul(line);
    DropsPrefix(IsSpace, line, []);
    assert line + [] == line;
  }

  /** A line that is no comment and does not end with a quote. */
  lemma UnclosedIsRefused(lead: seq<u8>, core: seq<u8>, trail: seq<u8>, level: nat)
    requires All(IsSpace, lead) && All(IsSpace, trail) && NUL !in core
    requires core != [] && !IsSpace(core[0]) && core[0] != HASH
    requires !IsSpace(core[|core| - 1]) && core[|core| - 1] != QUOTE
    ensures ParseLine(lead + (core + trail), level) == Fatal(MalformedPair)
  {
    NoNul(lead + (core + trail));
    assert (core + trail)[0] == core[0];
    DropsPrefix(IsSpace, lead, core + trail);
    TrimsSuffix(core, trail);
  }

  // ---------------------------------------------------------------- characters, as they are written

  const WHITE: string := " \t\n\U{0B}\U{0C}\r"
  const DIGITS: string := "0123456789"
  const LARGE: string := "ABCDEFGHIJKLMNOPQRSTUVWXYZ"
  const SMALL: string := "abcdefghijklmnopqrstuvwxyz"

  ghost predicate IsOneOf(c: u8, chars: string) {
    exists k :: 0 <= k < |chars| && chars[k] as int == c
  }

  /** White space, labels, separators and comments. */
  lemma CharactersAreListed(c: u8)
    ensures IsSpace(c) <==> IsOneOf(c, WHITE)
    ensures IsDigit(c) <==> IsOneOf(c, DIGITS)
    ensures IsLabel(c)
       <==> IsOneOf(c, DIGITS) || IsOneOf(c, LARGE) || IsOneOf(c, SMALL) || c as int == '_' as int
    ensures IsSeparator(c) <==> IsOneOf(c, WHITE) || c as int == '=' as int
    ensures HASH as int == '#' as int && AT as int == '@' as int && QUOTE as int == '"' as int
  {
    assert forall k :: 0 <= k < 10 ==> DIGITS[k] as int == 48 + k;
    assert forall k :: 0 <= k < 26 ==> LARGE[k] as int == 65 + k && SMALL[k] as int == 97 + k;
    if IsSpace(c) {
      var k := if c == 32 then 0 else c as int - 8;
      assert WHITE[k] as int == c;
    }
    if IsDigit(c) {
      assert DIGITS[c - 48] as int == c;
    }
    if 65 <= c <= 90 {
      assert LARGE[c - 65] as int == c;
    }
    if 97 <= c <= 122 {
      assert SMALL[c - 97] as int == c;
    }
  }

  /** The printer escapes exactly what is not printable ASCII, quotes and backslashes. */
  lemma EscapedMeans(c: u8)
    ensures Escaped(c) == [c] <==> 32 <= c <= 126 && c as int != '"' as int && c as int != '\\' as int
    ensures Escaped(c) != [c] ==>
              && |Escaped(c)| == 4 && Escaped(c)[0] as int == '\\' as int && Escaped(c)[1] as int == 'x' as int
              && Escaped(c)[2] as int == HEX_DIGITS[c / 16] as int && Escaped(c)[3] as int == HEX_DIGITS[c % 16] as int
  {
    HexDigitsAreListed(c, c as int / 16);
    HexDigitsAreListed(c, c as int % 16);
  }

  // ---------------------------------------------------------------- levels and files

  /** A number as it is written. */
  function Decimal(n: nat): (s: seq<u8>)
    ensures s != []
  {
    if n < 10 then [48 + n] else Decimal(n / 10) + [48 + n % 10]
  }

  lemma {:induction false} DigitsAppend(digits: seq<u8>, d: u8, sofar: nat)
    requires All(IsDigit, digits) && IsDigit(d)
    ensures DigitsValue(digits + [d], sofar) == 10 * DigitsValue(digits, sofar) + (d as int - 48)
  {
    if digits == [] {
      assert digits + [d] == [d];
      assert DigitsValue([], 10 * sofar + (d as int - 48)) == 10 * sofar + (d as int - 48);
    } else {
      assert (digits + [d])[1..] == digits[1..] + [d];
      DigitsAppend(digits[1..], d, 10 * sofar + (digits[0] - 48));
    }
  }

  /** The level of `@n` is n. */
  lemma {:induction false} DecimalIsRead(n: nat)
    ensures All(IsDigit, Decimal(n)) && DigitsValue(Decimal(n), 0) == n
  {
    if n >= 10 {
      DecimalIsRead(n / 10);
      DigitsAppend(Decimal(n / 10), 48 + n % 10, 0);
    } else {
      assert Decimal(n)[1..] == [];
    }
  }

  lemma LevelIsDecimal(n: nat)
    requires n < 0x8000_0000
    ensures IsMark([AT] + Decimal(n)) && MarkLevel([AT] + Decimal(n)) == n
  {
    DecimalIsRead(n);
    assert ([AT] + Decimal(n))[1..] == Decimal(n);
  }

  /** A negative level is above every wanted one that fits 31 bits, because the comparison is unsigned. */
  lemma NegativeLevelIsSkipped(n: nat, rest: seq<u8>, level: nat)
    requires 0 < n <= 0x8000_0000 && level < 0x8000_0000 && (rest == [] || !IsDigit(rest[0]))
    ensures Level([45] + (Decimal(n) + rest)) == 0x1_0000_0000 - n
    ensures ParseMarked([AT] + ([45] + (Decimal(n) + rest)), level) == Skip
  {
    var t := [45] + (Decimal(n) + rest);
    DecimalIsRead(n);
    ReadsDigits(Decimal(n), rest, 0);
    assert DropWhile(IsSpace, t) == t;
    assert t[1..] == Decimal(n) + rest;
    assert ([AT] + t)[1..] == t;
  }

  /** A file made of lines. */
  function FileOf(lines: seq<seq<u8>>): seq<u8> {
    if lines == [] then [] else lines[0] + [NEWLINE] + FileOf(lines[1..])
  }

  /** Line by line, up to the first that is refused. */
  function LoadLines(lines: seq<seq<u8>>, level: nat, before: nat): Loaded {
    if lines == [] then Extras([])
    else Then(ParseLine(lines[0] + [NEWLINE], level), before + 1, LoadLines(lines[1..], level, before + 1))
  }

  /** Loading a file of lines is loading each of them, as long as they fit the line buffer. */
  lemma {:induction false} FileIsLines(lines: seq<seq<u8>>, level: nat, before: nat)
    requires forall l :: l in lines ==> NEWLINE !in l && |l| < 8191
    ensures Load(FileOf(lines), level, before) == LoadLines(lines, level, before)
  {
    if lines != [] {
      var l, rest := lines[0], FileOf(lines[1..]);
      assert l in lines;
      LineEnds(l, rest, MAX_LINE - 1);
      var file := l + [NEWLINE] + rest;
      assert file[..|l| + 1] == l + [NEWLINE] && file[|l| + 1..] == rest;
      FileIsLines(lines[1..], level, before + 1);
    }
  }

  lemma {:induction false} LineEnds(line: seq<u8>, rest: seq<u8>, room: nat)
    requires |line| < room && NEWLINE !in line
    ensures LineLength(line + [NEWLINE] + rest, room) == |line| + 1
  {
    if line != [] {
      assert (line + [NEWLINE] + rest)[1..] == line[1..] + [NEWLINE] + rest;
      assert line[0] in line;
      LineEnds(line[1..], rest, room - 1);
    }
  }

  function PrintedAll(captures: seq<Capture>): seq<u8> {
    if captures == [] then [] else Printed(captures[0]) + PrintedAll(captures[1..])
  }

  /** What a file of printed tokens stands for. */
  function Expected(captures: seq<Capture>, line: nat): Loaded {
    if captures == [] then Extras([])
    else if !IsPermitted(captures[0]) then Expected(captures[1..], line)
    else if Visible(captures[0]) == [] then Failed(line + 1, EmptyKeyword)
    else Expected(captures[1..], line + 1).After([Visible(captures[0])])
  }

  lemma PrintedLineIsLoaded(c: Capture, rest: seq<u8>, level: nat, line: nat)
    requires IsPermitted(c)
    ensures Load(Printed(c) + rest, level, line)
         == if Visible(c) == [] then Failed(line + 1, EmptyKeyword)
            else Load(rest, level, line + 1).After([Visible(c)])
  {
    var token, file := Visible(c), Printed(c) + rest;
    BodyIsPrintable(token);
    assert file == Quoted(token) + [NEWLINE] + rest;
    LineEnds(Quoted(token), rest, MAX_LINE - 1);
    assert file[..|Quoted(token)| + 1] == DictionaryLine([], [], [], [], Body(token), [NEWLINE]);
    assert file[|Quoted(token)| + 1..] == rest;
    LineIsParsed([], [], [], [], token, [NEWLINE], level);
  }

  lemma {:induction false} PrintedFileIsLoaded(captures: seq<Capture>, level: nat, line: nat)
    ensures Load(PrintedAll(captures), level, line) == Expected(captures, line)
  {
    if captures != [] {
      var rest := captures[1..];
      if IsPermitted(captures[0]) {
        PrintedFileIsLoaded(rest, level, line + 1);
        PrintedLineIsLoaded(captures[0], PrintedAll(rest), level, line);
      } else {
        PrintedFileIsLoaded(rest, level, line);
        assert PrintedAll(captures) == PrintedAll(rest);
      }
    }
  }

  /** A text token that starts with a NUL prints an empty keyword. */
  predicate PrintsEmpty(c: Capture) {
    IsPermitted(c) && c.isText && c.bytes[0] == NUL
  }

  function VisibleTokens(captures: seq<Capture>): seq<seq<u8>> {
    if captures == [] then []
    else (if IsPermitted(captures[0]) then [Visible(captures[0])] else []) + VisibleTokens(captures[1..])
  }

  ghost predicate NonePrintsEmpty(captures: seq<Capture>) {
    forall c :: c in captures ==> !PrintsEmpty(c)
  }

  lemma FirstOrRest(captures: seq<Capture>)
    requires captures != []
    ensures NonePrintsEmpty(captures) <==> !PrintsEmpty(captures[0]) && NonePrintsEmpty(captures[1..])
  {
    assert captures == [captures[0]] + captures[1..];
    assert captures[0] in captures;
    assert forall c :: c in captures[1..] ==> c in captures;
  }

  lemma EmptyExactly(c: Capture)
    requires IsPermitted(c)
    ensures Visible(c) == [] <==> PrintsEmpty(c)
  {
  }

  lemma {:induction false} ExpectedMeans(captures: seq<Capture>, line: nat)
    ensures var r := Expected(captures, line);
      && (r.Extras? <==> NonePrintsEmpty(captures))
      && (r.Extras? ==> r.tokens == VisibleTokens(captures))
      && (r.Failed? ==> r.why == EmptyKeyword)
  {
    if captures != [] {
      FirstOrRest(captures);
      if IsPermitted(captures[0]) {
        EmptyExactly(captures[0]);
        ExpectedMeans(captures[1..], line + 1);
      } else {
        ExpectedMeans(captures[1..], line);
      }
    }
  }

  /**
    Parse undoes print: a file of printed tokens is accepted exactly when no text token
    starts with a NUL, and then yields the printed bytes of every permitted token, in order.
  */
  lemma ParseUndoesPrint(captures: seq<Capture>, level: nat)
    ensures var r := LoadAll(PrintedAll(captures), level);
      && (r.Extras? <==> NonePrintsEmpty(captures))
      && (r.Extras? ==> r.tokens == VisibleTokens(captures))
      && (r.Failed? ==> r.why == EmptyKeyword)
  {
    PrintedFileIsLoaded(captures, level, 0);
    ExpectedMeans(captures, 0);
  }

  function Binary(tokens: seq<seq<u8>>): (r: seq<Capture>)
    ensures |r| == |tokens| && forall i :: 0 <= i < |r| ==> r[i] == Capture(tokens[i], false)
  {
    seq(|tokens|, i requires 0 <= i < |tokens| => Capture(tokens[i], false))
  }

  lemma {:induction false} BinaryTokensAreVisible(tokens: seq<seq<u8>>)
    requires forall t :: t in tokens ==> MIN_AUTO_EXTRA <= |t| <= MAX_AUTO_EXTRA
    ensures VisibleTokens(Binary(tokens)) == tokens
  {
    if tokens != [] {
      assert tokens[0] in tokens;
      BinaryTokensAreVisible(tokens[1..]);
      assert Binary(tokens)[1..] == Binary(tokens[1..]);
    }
  }

  /** Binary tokens of permitted length come back byte for byte, whatever bytes they hold. */
  lemma BinaryRoundTrip(tokens: seq<seq<u8>>, level: nat)
    requires forall t :: t in tokens ==> 3 <= |t| <= 32
    ensures LoadAll(PrintedAll(Binary(tokens)), level) == Extras(tokens)
  {
    ParseUndoesPrint(Binary(tokens), level);
    BinaryTokensAreVisible(tokens);
  }

  /** The exception is real: this text token makes the printed file unreadable. */
  lemma LeadingNulIsRefused(level: nat)
    ensures LoadAll(PrintedAll([Capture([NUL, 65, 66], true)]), level) == Failed(1, EmptyKeyword)
  {
    var c := Capture([NUL, 65, 66], true);
    PrintedFileIsLoaded([c], level, 0);
    assert Visible(c) == [];
  }
}
