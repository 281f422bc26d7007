/** Hexadecimal text and the bounds-checked binary reader. */
module Format {
  import opened Results
  import opened ByteStrings

  // ---------------------------------------------------------------- hexadecimal

  /** Entry `nibble` of the lower-case alphabet. */
  function HexDigit(nibble: nat): byte
    requires nibble < 16
  {
    if nibble < 10 then 48 + nibble else 87 + nibble
  }

  function HexNibble(b: byte): Option<nat> {
    if 48 <= b <= 57 then Some(b - 48)
    else if 97 <= b <= 102 then Some(b - 97 + 10)
    else if 65 <= b <= 70 then Some(b - 65 + 10)
    else None
  }

  /** The lower-case hexadecimal text of `b`. */
  function Hex(b: Bytes): (text: Bytes)
    ensures |text| == 2 * |b|
  {
    seq<byte>(2 * |b|, k requires 0 <= k < 2 * |b| =>
      if k % 2 == 0 then HexDigit(b[k / 2] / 16) else HexDigit(b[k / 2] % 16))
  }

  predicate AllHex(text: Bytes) {
    forall k :: 0 <= k < |text| ==> HexNibble(text[k]).Some?
  }

  /** The byte written by the two digits at `2 * k`. */
  function PairValue(text: Bytes, k: nat): (b: byte)
    requires AllHex(text) && 2 * k + 1 < |text|
  {
    HexNibble(text[2 * k]).value * 16 + HexNibble(text[2 * k + 1]).value
  }

  /** What `hex_decode::<N>` yields for `text`. */
  function Unhex(n: nat, text: Bytes): (r: Result<Bytes>)
    ensures r.Ok? ==> |r.value| == n
    ensures r == Invalid(HexLength) <==> |text| != 2 * n
    ensures r.Err? && |text| == 2 * n ==> r == Invalid(HexCharacter)
  {
    if |text| != 2 * n then Invalid(HexLength)
    else if !AllHex(text) then Invalid(HexCharacter)
    else Ok(seq<byte>(n, k requires 0 <= k < n => PairValue(text, k)))
  }

  /** ASCII lower case. */
  function Lower(text: Bytes): (lower: Bytes)
    ensures |lower| == |text|
  {
    seq<byte>(|text|, k requires 0 <= k < |text| => if 65 <= text[k] <= 90 then text[k] + 32 else text[k])
  }

  /** Everything `hex_encode` writes is a digit, and the digit reads back. */
  lemma HexDigits(b: Bytes)
    ensures AllHex(Hex(b)) && Printable(Hex(b)) && Lower(Hex(b)) == Hex(b)
    ensures DASH !in Hex(b)
    ensures forall k :: 0 <= k < |b| ==> PairValue(Hex(b), k) == b[k]
  {
    var text := Hex(b);
    forall k | 0 <= k < |text|
      ensures HexNibble(text[k]) == Some(if k % 2 == 0 then b[k / 2] / 16 else b[k / 2] % 16)
      ensures 48 <= text[k] <= 57 || 97 <= text[k] <= 102
    {
    }
    forall k | 0 <= k < |b|
      ensures PairValue(text, k) == b[k]
    {
      assert (2 * k) % 2 == 0 && (2 * k + 1) % 2 == 1 && (2 * k + 1) / 2 == k;
    }
  }

  /** Decoding inverts encoding for every byte string. */
  lemma HexRoundTrip(b: Bytes)
    ensures Unhex(|b|, Hex(b)) == Ok(b)
  {
    HexDigits(b);
    assert Unhex(|b|, Hex(b)).value == b;
  }

  lemma LowerNibble(text: Bytes, k: nat)
    requires k < |text| && HexNibble(text[k]).Some?
    ensures HexNibble(Lower(text)[k]) == HexNibble(text[k])
  {
  }

  /** The two digits of a byte, read and written again, are the digits in lower case. */
  lemma LowerPair(text: Bytes, k: nat)
    requires AllHex(text) && 2 * k + 1 < |text|
    ensures Lower(text)[2 * k] == HexDigit(PairValue(text, k) / 16)
    ensures Lower(text)[2 * k + 1] == HexDigit(PairValue(text, k) % 16)
  {
    var high, low := HexNibble(text[2 * k]).value, HexNibble(text[2 * k + 1]).value;
    assert PairValue(text, k) / 16 == high && PairValue(text, k) % 16 == low;
  }

  lemma AcceptedIsEncoding(n: nat, text: Bytes, b: Bytes)
    requires Unhex(n, text) == Ok(b)
    ensures |b| == n && AllHex(text) && Lower(text) == Hex(b)
  {
    forall k | 0 <= k < |text|
      ensures Lower(text)[k] == Hex(b)[k]
    {
      var j := k / 2;
      assert b[j] == PairValue(text, j);
      LowerPair(text, j);
      assert k == 2 * j || k == 2 * j + 1;
    }
  }

  /** Letter case does not change what digits mean. */
  lemma LowerKeepsPair(text: Bytes, k: nat)
    requires AllHex(text) && AllHex(Lower(text)) && 2 * k + 1 < |text|
    ensures PairValue(text, k) == PairValue(Lower(text), k)
  {
    hide Lower;
    LowerNibble(text, 2 * k);
    LowerNibble(text, 2 * k + 1);
  }

  lemma EncodingIsAccepted(n: nat, text: Bytes, b: Bytes)
    requires |b| == n && AllHex(text) && Lower(text) == Hex(b)
    ensures Unhex(n, text) == Ok(b)
  {
    hide Lower, Hex, PairValue;
    HexDigits(b);
    forall k | 0 <= k < n
      ensures PairValue(text, k) == b[k]
    {
      LowerKeepsPair(text, k);
    }
    assert Unhex(n, text).value == b;
  }

  /** What reads as the encoding in lower case consists of digits. */
  lemma EncodingIsDigits(text: Bytes, b: Bytes)
    requires Lower(text) == Hex(b)
    ensures AllHex(text) && |text| == 2 * |b|
  {
    HexDigits(b);
    assert |text| == |Lower(text)|;
    forall k | 0 <= k < |text|
      ensures HexNibble(text[k]).Some?
    {
      assert HexNibble(Lower(text)[k]).Some? && Lower(Hex(b))[k] == Hex(b)[k];
    }
  }

  /** Accepted text is the encoding of its value up to letter case, and nothing else is accepted. */
  lemma UnhexExact(n: nat, text: Bytes, b: Bytes)
    ensures Unhex(n, text) == Ok(b) <==> |b| == n && Lower(text) == Hex(b)
  {
    hide Unhex, AllHex, Lower, Hex;
    if Unhex(n, text) == Ok(b) {
      AcceptedIsEncoding(n, text, b);
    }
    if |b| == n && Lower(text) == Hex(b) {
      EncodingIsDigits(text, b);
      EncodingIsAccepted(n, text, b);
    }
  }

  /** Each half of a byte is one character of the alphabet. */
  lemma HexAlphabet(b: byte)
    ensures var alphabet := Ascii("0123456789abcdef"); Hex([b]) == [alphabet[b / 16], alphabet[b % 16]]
  {
    var alphabet := Ascii("0123456789abcdef");
    forall n: nat | n < 16
      ensures HexDigit(n) == alphabet[n]
    {
    }
    assert Hex([b])[0] == HexDigit(b / 16) && Hex([b])[1] == HexDigit(b % 16);
  }

  lemma HexInjective(a: Bytes, b: Bytes)
    requires Hex(a) == Hex(b)
    ensures a == b
  {
    assert |a| == |b|;
    HexRoundTrip(a);
    HexRoundTrip(b);
  }

  method HexEncode(bytes: Bytes) returns (encoded: Bytes)
    ensures encoded == Hex(bytes)
  {
    encoded := [];
    for i := 0 to |bytes|
      invariant |encoded| == 2 * i
      invariant forall k :: 0 <= k < 2 * i ==> encoded[k] == Hex(bytes)[k]
    {
      encoded := encoded + [HexDigit(bytes[i] / 16)];
      encoded := encoded + [HexDigit(bytes[i] % 16)];
      assert (2 * i) / 2 == i && (2 * i + 1) / 2 == i && (2 * i + 1) % 2 == 1;
    }
  }

  method HexDecode(n: nat, encoded: Bytes) returns (r: Result<Bytes>)
    ensures r == Unhex(n, encoded)
  {
    if |encoded| != n * 2 {
      return Invalid(HexLength);
    }
    var decoded := new byte[n];
    for i := 0 to n
      invariant forall k :: 0 <= k < 2 * i ==> HexNibble(encoded[k]).Some?
      invariant forall k :: 0 <= k < i ==>
        decoded[k] as int == HexNibble(encoded[2 * k]).value * 16 + HexNibble(encoded[2 * k + 1]).value
    {
      var high, low := HexNibble(encoded[i * 2]), HexNibble(encoded[i * 2 + 1]);
      if high.None? || low.None? {
        return Invalid(HexCharacter);
      }
      decoded[i] := high.value * 16 + low.value;
    }
    r := Ok(decoded[..]);
    assert r.value == Unhex(n, encoded).value;
  }

  // ---------------------------------------------------------------- reader

  class Reader {
    const input: Bytes
    var offset: nat

    ghost predicate Valid()
      reads this
    {
      offset <= |input|
    }

    constructor (input: Bytes)
      ensures Valid() && this.input == input && offset == 0
    {
      this.input := input;
      offset := 0;
    }

    /** A failed read does not move the cursor; a successful one moves it past exactly the bytes it returns. */
    method Take(length: nat) returns (r: Result<Bytes>)
      requires Valid()
      modifies this`offset
      ensures Valid()
      ensures r.Ok? <==> old(offset) + length <= USIZE_MAX && old(offset) + length <= |input|
      ensures r.Err? ==> offset == old(offset)
      ensures r.Err? ==> r == Invalid(if offset + length > USIZE_MAX then MalformedBinary else TruncatedBinary)
      ensures r.Ok? ==> offset == old(offset) + length && r.value == input[old(offset)..old(offset) + length]
    {
      var end := offset + length;
      if end > USIZE_MAX {
        return Invalid(MalformedBinary);
      }
      if end > |input| {
        return Invalid(TruncatedBinary);
      }
      r := Ok(input[offset..end]);
      offset := end;
    }

    method Byte() returns (r: Result<byte>)
      requires Valid()
      modifies this`offset
      ensures Valid()
      ensures r.Ok? <==> old(offset) + 1 <= USIZE_MAX && old(offset) < |input|
      ensures r.Err? ==> offset == old(offset)
      ensures r.Err? ==> r == Invalid(if offset + 1 > USIZE_MAX then MalformedBinary else TruncatedBinary)
      ensures r.Ok? ==> offset == old(offset) + 1 && r.value == input[old(offset)]
    {
      var one :- Take(1);
      r := Ok(one[0]);
    }

    method U32() returns (r: Result<nat>)
      requires Valid()
      modifies this`offset
      ensures Valid()
      ensures r.Ok? <==> old(offset) + 4 <= USIZE_MAX && old(offset) + 4 <= |input|
      ensures r.Err? ==> offset == old(offset)
      ensures r.Err? ==> r == Invalid(if offset + 4 > USIZE_MAX then MalformedBinary else TruncatedBinary)
      ensures r.Ok? ==> offset == old(offset) + 4
                        && r.value == FromU32Be(input[old(offset)..old(offset) + 4])
    {
      var four :- Take(4);
      r := Ok(FromU32Be(four));
    }

    method Remaining() returns (n: nat)
      requires Valid()
      ensures n == |input| - offset
    {
      n := |input| - offset;
    }
  }
}
