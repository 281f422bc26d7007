/** Text as bytes: UTF-8 well-formedness and Rust's `str::lines`. */
module Text {
  import opened Results
  import opened ByteStrings

  // ---------------------------------------------------------------- UTF-8

  predicate Continuation(b: Bytes, from: nat, to: nat) {
    to <= |b| && forall i :: from <= i < to ==> 0x80 <= b[i] <= 0xBF
  }

  /** Length of the well-formed UTF-8 sequence that starts `b`, or 0 (table 3-7 of the Unicode standard). */
  function ScalarLength(b: Bytes): (n: nat)
    ensures n <= |b|
  {
    if b == [] then 0
    else if b[0] <= 0x7F then 1
    else if 0xC2 <= b[0] <= 0xDF && Continuation(b, 1, 2) then 2
    else if 0xE0 <= b[0] <= 0xEF && Continuation(b, 1, 3)
            && (b[0] == 0xE0 ==> b[1] >= 0xA0) && (b[0] == 0xED ==> b[1] <= 0x9F) then 3
    else if 0xF0 <= b[0] <= 0xF4 && Continuation(b, 1, 4)
            && (b[0] == 0xF0 ==> b[1] >= 0x90) && (b[0] == 0xF4 ==> b[1] <= 0x8F) then 4
    else 0
  }

  predicate ValidUtf8(b: Bytes) {
    b == [] || (ScalarLength(b) > 0 && ValidUtf8(b[ScalarLength(b)..]))
  }

  predicate AllAscii(b: Bytes) {
    forall i :: 0 <= i < |b| ==> b[i] < 128
  }

  lemma {:induction false} AsciiIsUtf8(b: Bytes)
    requires AllAscii(b)
    ensures ValidUtf8(b)
  {
    if b != [] {
      AsciiIsUtf8(b[1..]);
    }
  }

  /** A Unicode scalar value. */
  type scalar = c: int | 0 <= c < 0xD800 || 0xE000 <= c < 0x11_0000

  /** The UTF-8 form of a scalar value (section 3 of RFC 3629). */
  function ScalarBytes(c: scalar): Bytes {
    if c < 0x80 then [c]
    else if c < 0x800 then [0xC0 + c / 0x40, 0x80 + c % 0x40]
    else if c < 0x1_0000 then [0xE0 + c / 0x1000, 0x80 + c / 0x40 % 0x40, 0x80 + c % 0x40]
    else [0xF0 + c / 0x4_0000, 0x80 + c / 0x1000 % 0x40, 0x80 + c / 0x40 % 0x40, 0x80 + c % 0x40]
  }

  function Utf8(text: seq<scalar>): Bytes {
    if text == [] then [] else ScalarBytes(text[0]) + Utf8(text[1..])
  }

  /** `b` encodes some text. */
  ghost predicate IsText(b: Bytes) {
    exists text :: Utf8(text) == b
  }

  lemma EncodedScalar(c: scalar, rest: Bytes)
    ensures ScalarLength(ScalarBytes(c) + rest) == |ScalarBytes(c)|
  {
  }

  /** Groups of six bits read back. */
  lemma SixBits(high: nat, low: nat, c: nat)
    requires low < 0x40 && c == high * 0x40 + low
    ensures c / 0x40 == high && c % 0x40 == low
  {
  }

  lemma TwelveBits(high: nat, middle: nat, low: nat, c: nat)
    requires middle < 0x40 && low < 0x40 && c == (high * 0x40 + middle) * 0x40 + low
    ensures c / 0x1000 == high && c / 0x40 % 0x40 == middle && c % 0x40 == low
  {
    SixBits(high * 0x40 + middle, low, c);
    SixBits(high, middle, c / 0x40);
    assert c / 0x1000 == c / 0x40 / 0x40;
  }

  lemma DecodedScalar(b: Bytes) returns (c: scalar)
    requires ScalarLength(b) > 0
    ensures ScalarBytes(c) == b[..ScalarLength(b)]
  {
    var n := ScalarLength(b);
    var lead: int := b[0];
    if n == 1 {
      c := lead;
    } else if n == 2 {
      c := (lead - 0xC0) * 0x40 + (b[1] as int - 0x80);
      SixBits(lead - 0xC0, b[1] - 0x80, c);
    } else if n == 3 {
      c := DecodedThree(b);
    } else {
      c := DecodedFour(b);
    }
  }

  lemma DecodedThree(b: Bytes) returns (c: scalar)
    requires ScalarLength(b) == 3
    ensures ScalarBytes(c) == b[..3]
  {
    var lead: int, second: int, third: int := b[0], b[1], b[2];
    var x: nat, y: nat, z: nat := lead - 0xE0, second - 0x80, third - 0x80;
    c := (x * 0x40 + y) * 0x40 + z;
    TwelveBits(x, y, z, c);
  }

  lemma DecodedFour(b: Bytes) returns (c: scalar)
    requires ScalarLength(b) == 4
    ensures ScalarBytes(c) == b[..4]
  {
    var lead: int, second: int, third: int, fourth: int := b[0], b[1], b[2], b[3];
    var w: nat, x: nat, y: nat, z: nat := lead - 0xF0, second - 0x80, third - 0x80, fourth - 0x80;
    c := ((w * 0x40 + x) * 0x40 + y) * 0x40 + z;
    TwelveBits(w * 0x40 + x, y, z, c);
    SixBits(w, x, c / 0x1000);
    assert c / 0x4_0000 == c / 0x1000 / 0x40;
  }

  lemma {:induction false} EncodedIsValid(text: seq<scalar>)
    ensures ValidUtf8(Utf8(text))
  {
    if text != [] {
      var rest := Utf8(text[1..]);
      EncodedIsValid(text[1..]);
      EncodedScalar(text[0], rest);
      assert (ScalarBytes(text[0]) + rest)[|ScalarBytes(text[0])|..] == rest;
    }
  }

  lemma {:induction false} ValidIsEncoded(b: Bytes) returns (text: seq<scalar>)
    requires ValidUtf8(b)
    ensures Utf8(text) == b
  {
    hide ScalarLength, ScalarBytes;
    if b == [] {
      text := [];
    } else {
      var n := ScalarLength(b);
      var first := DecodedScalar(b);
      var rest := ValidIsEncoded(b[n..]);
      text := [first] + rest;
      assert b == b[..n] + b[n..];
    }
  }

  /** The check accepts exactly the encodings of texts. */
  lemma ValidUtf8Exact(b: Bytes)
    ensures ValidUtf8(b) <==> IsText(b)
  {
    if ValidUtf8(b) {
      var text := ValidIsEncoded(b);
    }
    forall text | Utf8(text) == b
      ensures ValidUtf8(b)
    {
      EncodedIsValid(text);
    }
  }

  // ---------------------------------------------------------------- lines

  /** How a line ends. Only the last line may lack its terminator. */
  datatype Terminator = Lf | CrLf | NoEol

  function Eol(end: Terminator): Bytes {
    match end
    case Lf => [LF]
    case CrLf => [CR, LF]
    case NoEol => []
  }

  function FirstLf(text: Bytes): (i: nat)
    ensures i <= |text|
    ensures i < |text| ==> text[i] == LF
    ensures forall k :: 0 <= k < i ==> text[k] != LF
  {
    if text == [] || text[0] == LF then 0 else 1 + FirstLf(text[1..])
  }

  function StripCr(line: Bytes): Bytes {
    if line != [] && line[|line| - 1] == CR then line[..|line| - 1] else line
  }

  /** A line that `StripCr` leaves alone. */
  predicate NoTrailingCr(line: Bytes) {
    line == [] || line[|line| - 1] != CR
  }

  /** A line that reads back whatever its terminator is. */
  predicate PlainLine(line: Bytes) {
    line != [] && LF !in line && NoTrailingCr(line)
  }

  /** `text.lines()`: a carriage return is dropped only in front of a line feed. */
  function Lines(text: Bytes): seq<Bytes> {
    if text == [] then []
    else
      var i := FirstLf(text);
      if i == |text| then [text] else [StripCr(text[..i])] + Lines(text[i + 1..])
  }

  function At(lines: seq<Bytes>, i: nat): Option<Bytes> {
    if i < |lines| then Some(lines[i]) else None
  }

  /** One step of `Lines` at the first line feed. */
  lemma LinesStep(text: Bytes, i: nat)
    requires i < |text| && text[i] == LF && LF !in text[..i]
    ensures Lines(text) == [StripCr(text[..i])] + Lines(text[i + 1..])
  {
    forall k | 0 <= k < i
      ensures text[k] != LF
    {
      assert text[k] == text[..i][k];
    }
    assert FirstLf(text) == i;
  }

  lemma LinesAlone(line: Bytes)
    requires LF !in line && line != []
    ensures Lines(line) == [line] && Lines([]) == []
  {
    assert FirstLf(line) == |line|;
  }

  /** Prepending a terminated line prepends it to the lines. */
  lemma LinesCons(line: Bytes, end: Terminator, rest: Bytes)
    requires LF !in line
    requires end.Lf? ==> NoTrailingCr(line)
    requires end.NoEol? ==> line != [] && rest == []
    ensures Lines(line + Eol(end) + rest) == [line] + Lines(rest)
  {
    hide Lines;
    match end
    case NoEol =>
      assert line + Eol(end) + rest == line;
      LinesAlone(line);
      assert [line] + [] == [line];
    case Lf =>
      LinesConsAt(line, [], rest);
      assert line + [] + [LF] + rest == line + Eol(end) + rest;
    case CrLf =>
      LinesConsAt(line, [CR], rest);
      assert line + [CR] + [LF] + rest == line + Eol(end) + rest;
  }

  /** The line in front of the first line feed, with or without a carriage return to strip. */
  lemma LinesConsAt(line: Bytes, cr: Bytes, rest: Bytes)
    requires LF !in line && (cr == [CR] || (cr == [] && NoTrailingCr(line)))
    ensures Lines(line + cr + [LF] + rest) == [line] + Lines(rest)
  {
    hide Lines;
    var text, i := line + cr + [LF] + rest, |line + cr|;
    assert text[..i] == line + cr && text[i] == LF && text[i + 1..] == rest;
    LinesStep(text, i);
    assert cr == [CR] ==> (line + cr)[..|line|] == line;
    assert cr == [] ==> line + cr == line;
  }

  /** Every non-empty text is its first line, a terminator and the rest. */
  lemma FirstLine(text: Bytes) returns (line: Bytes, end: Terminator, rest: Bytes)
    requires text != []
    ensures text == line + Eol(end) + rest
    ensures LF !in line
    ensures end.NoEol? ==> rest == []
    ensures Lines(text) == [line] + Lines(rest)
  {
    var i := FirstLf(text);
    if i == |text| {
      line, end, rest := text, NoEol, [];
    } else {
      line, rest := StripCr(text[..i]), text[i + 1..];
      end := if line == text[..i] then Lf else CrLf;
      assert text == text[..i] + [LF] + rest;
      if line != text[..i] {
        assert text[..i] == line + [CR];
      }
    }
  }

  lemma LinesLast(line: Bytes, end: Terminator)
    requires PlainLine(line)
    ensures Lines(line + Eol(end)) == [line]
  {
    assert line + Eol(end) == line + Eol(end) + [];
    LinesCons(line, end, []);
  }

  lemma LinesUncons(text: Bytes, line: Bytes, lines: seq<Bytes>) returns (end: Terminator, rest: Bytes)
    requires Lines(text) == [line] + lines
    ensures text == line + Eol(end) + rest && Lines(rest) == lines
    ensures end.NoEol? ==> lines == []
    ensures lines == [] ==> rest == []
  {
    var first;
    first, end, rest := FirstLine(text);
    var whole := Lines(text);
    assert whole[0] == first == line;
    assert lines == whole[1..] && Lines(rest) == whole[1..];
  }

  /** The iterator behind `lines()`. */
  class LineIterator {
    var rest: Bytes

    constructor (text: Bytes)
      ensures rest == text
    {
      rest := text;
    }

    method Next() returns (line: Option<Bytes>)
      modifies this
      ensures line == At(Lines(old(rest)), 0)
      ensures Lines(rest) == if old(rest) == [] then [] else Lines(old(rest))[1..]
    {
      if rest == [] {
        return None;
      }
      var i := FirstLf(rest);
      if i == |rest| {
        line := Some(rest);
        rest := [];
      } else {
        line := Some(StripCr(rest[..i]));
        rest := rest[i + 1..];
      }
    }
  }
}
