/** Public profiles, fingerprints, unlock keys and the identity encrypted at rest. */
module Identity {
  import opened Results
  import opened ByteStrings
  import opened Primitives
  import opened Protocol
  import opened Format
  import opened Text

  datatype PublicProfile = PublicProfile(
    version: byte,
    identityPublic: Bytes32,
    agreementPublic: Bytes32,
    fingerprint: Bytes32)

  datatype IdentitySecrets = IdentitySecrets(identitySecret: Bytes32, agreementSecret: Bytes32)

  function Fingerprint(s: LawfulSuite, version: byte, identityPublic: Bytes32, agreementPublic: Bytes32): Bytes32 {
    s.sha256(FINGERPRINT_DOMAIN + [version] + identityPublic + agreementPublic)
  }

  function NewProfile(s: LawfulSuite, identityPublic: Bytes32, agreementPublic: Bytes32): PublicProfile {
    PublicProfile(PROFILE_VERSION, identityPublic, agreementPublic,
                  Fingerprint(s, PROFILE_VERSION, identityPublic, agreementPublic))
  }

  /** The fields are public in the source: that the fingerprint matches the keys is a predicate to carry. */
  predicate WellFormed(s: LawfulSuite, p: PublicProfile) {
    p == NewProfile(s, p.identityPublic, p.agreementPublic)
  }

  /** What it takes for a profile to be well-formed: version 1, and a fingerprint over version and both keys. */
  lemma WellFormedExact(s: LawfulSuite, p: PublicProfile)
    ensures WellFormed(s, p) <==>
            && p.version == 1
            && p.fingerprint == s.sha256(FINGERPRINT_DOMAIN + [1] + p.identityPublic + p.agreementPublic)
  {
  }

  /** The string that is hashed determines version and keys. */
  lemma FingerprintInputInjective(v: byte, i: Bytes32, a: Bytes32, v': byte, i': Bytes32, a': Bytes32)
    requires FINGERPRINT_DOMAIN + [v] + i + a == FINGERPRINT_DOMAIN + [v'] + i' + a'
    ensures v == v' && i == i' && a == a'
  {
    SplitEqual(FINGERPRINT_DOMAIN + [v] + i, a, FINGERPRINT_DOMAIN + [v'] + i', a');
    SplitEqual(FINGERPRINT_DOMAIN + [v], i, FINGERPRINT_DOMAIN + [v'], i');
    SplitEqual(FINGERPRINT_DOMAIN, [v], FINGERPRINT_DOMAIN, [v']);
  }

  function ProfileOf(s: LawfulSuite, secrets: IdentitySecrets): (p: PublicProfile)
    ensures WellFormed(s, p)
    ensures p.identityPublic == s.signingPublic(secrets.identitySecret)
    ensures p.agreementPublic == s.agreementPublic(secrets.agreementSecret)
  {
    NewProfile(s, s.signingPublic(secrets.identitySecret), s.agreementPublic(secrets.agreementSecret))
  }

  // ---------------------------------------------------------------- profile text

  function Encode(p: PublicProfile): (text: Bytes)
    ensures |text| == 240
  {
    ProfileText(Lf, Hex(p.identityPublic), Lf, Hex(p.agreementPublic), Lf, Hex(p.fingerprint), Lf)
  }

  /** The four lines of a profile with the given digits and line ends. */
  function ProfileText(e0: Terminator, h1: Bytes, e1: Terminator, h2: Bytes, e2: Terminator, h3: Bytes,
                       e3: Terminator): Bytes {
    PROFILE_PREFIX + Eol(e0)
    + ((ED25519_FIELD + h1) + Eol(e1)
       + ((X25519_FIELD + h2) + Eol(e2)
          + ((FINGERPRINT_FIELD + h3) + Eol(e3))))
  }

  function ParseField(line: Option<Bytes>, prefix: Bytes): (r: Result<Bytes32>) {
    if line.None? then Invalid(ProfileFieldMissing)
    else if !(prefix <= line.value) then Invalid(ProfileField)
    else Unhex(32, line.value[|prefix|..])
  }

  /** Every check of the parser in front of the final comparison with the canonical encoding. */
  function ParseLoosely(s: LawfulSuite, bytes: Bytes): Result<PublicProfile> {
    if |bytes| > 512 then Invalid(ProfileTooLarge)
    else if !ValidUtf8(bytes) then Invalid(ProfileNotUtf8)
    else
      var lines := Lines(bytes);
      if At(lines, 0) != Some(PROFILE_PREFIX) then Invalid(ProfilePrefix)
      else
        var identityPublic :- ParseField(At(lines, 1), ED25519_FIELD);
        var agreementPublic :- ParseField(At(lines, 2), X25519_FIELD);
        var supplied :- ParseField(At(lines, 3), FINGERPRINT_FIELD);
        if |lines| > 4 then Invalid(ProfileExtraLine)
        else
          var profile := NewProfile(s, identityPublic, agreementPublic);
          if profile.fingerprint != supplied then Invalid(ProfileFingerprint) else Ok(profile)
  }

  function Parse(s: LawfulSuite, bytes: Bytes): Result<PublicProfile> {
    var profile :- ParseLoosely(s, bytes);
    if Encode(profile) != bytes then Invalid(ProfileNotCanonical) else Ok(profile)
  }

  /** Digits of a field, in either letter case. */
  predicate DigitsOf(text: Bytes, value: Bytes32) {
    Lower(text) == Hex(value)
  }

  /** `bytes` spells the well-formed profile `p`, up to letter case of the digits and line ends. */
  ghost predicate Spells(s: LawfulSuite, bytes: Bytes, p: PublicProfile,
                         e0: Terminator, h1: Bytes, e1: Terminator, h2: Bytes, e2: Terminator, h3: Bytes,
                         e3: Terminator) {
    && WellFormed(s, p)
    && DigitsOf(h1, p.identityPublic) && DigitsOf(h2, p.agreementPublic) && DigitsOf(h3, p.fingerprint)
    && !e0.NoEol? && !e1.NoEol? && !e2.NoEol?
    && bytes == ProfileText(e0, h1, e1, h2, e2, h3, e3)
  }

  lemma FieldExact(line: Bytes, prefix: Bytes, digits: Bytes, value: Bytes32)
    requires line == prefix + digits
    ensures ParseField(Some(line), prefix) == Ok(value) <==> DigitsOf(digits, value)
  {
    assert prefix <= line && line[|prefix|..] == digits;
    UnhexExact(32, digits, value);
  }

  /** Hexadecimal digits are visible ASCII, so they contain no line break. */
  lemma DigitsPrintable(digits: Bytes)
    requires AllHex(digits)
    ensures Printable(digits)
  {
  }

  lemma LineOfField(prefix: Bytes, digits: Bytes)
    requires Printable(prefix) && AllHex(digits) && |prefix| > 0
    ensures PlainLine(prefix + digits)
  {
    DigitsPrintable(digits);
  }

  /** Prepending a line to a text whose lines are known. */
  lemma OneMoreLine(line: Bytes, end: Terminator, rest: Bytes, lines: seq<Bytes>)
    requires PlainLine(line) && !end.NoEol? && Lines(rest) == lines
    ensures Lines(line + Eol(end) + rest) == [line] + lines
  {
    LinesCons(line, end, rest);
  }

  lemma TwoLines(l2: Bytes, e2: Terminator, l3: Bytes, e3: Terminator)
    requires !e2.NoEol? && PlainLine(l2) && PlainLine(l3)
    ensures Lines(l2 + Eol(e2) + (l3 + Eol(e3))) == [l2, l3]
  {
    LinesLast(l3, e3);
    OneMoreLine(l2, e2, l3 + Eol(e3), [l3]);
  }

  /** The lines of a text of four lines without line breaks inside. */
  lemma FourLines(l0: Bytes, e0: Terminator, l1: Bytes, e1: Terminator, l2: Bytes, e2: Terminator,
                  l3: Bytes, e3: Terminator)
    requires !e0.NoEol? && !e1.NoEol? && !e2.NoEol?
    requires PlainLine(l0) && PlainLine(l1) && PlainLine(l2) && PlainLine(l3)
    ensures Lines(l0 + Eol(e0) + (l1 + Eol(e1) + (l2 + Eol(e2) + (l3 + Eol(e3))))) == [l0, l1, l2, l3]
  {
    hide Lines, PlainLine, Eol;
    TwoLines(l2, e2, l3, e3);
    PrependTwo(l0, e0, l1, e1, l2 + Eol(e2) + (l3 + Eol(e3)), [l2, l3]);
  }

  lemma PrependTwo(l0: Bytes, e0: Terminator, l1: Bytes, e1: Terminator, rest: Bytes, lines: seq<Bytes>)
    requires !e0.NoEol? && !e1.NoEol? && PlainLine(l0) && PlainLine(l1) && Lines(rest) == lines
    ensures Lines(l0 + Eol(e0) + (l1 + Eol(e1) + rest)) == [l0, l1] + lines
  {
    hide Lines, PlainLine, Eol;
    OneMoreLine(l1, e1, rest, lines);
    OneMoreLine(l0, e0, l1 + Eol(e1) + rest, [l1] + lines);
    assert [l0] + ([l1] + lines) == [l0, l1] + lines;
  }

  /** Four lines can only come from such a text. */
  lemma FourLinesInverse(text: Bytes, l0: Bytes, l1: Bytes, l2: Bytes, l3: Bytes)
    returns (e0: Terminator, e1: Terminator, e2: Terminator, e3: Terminator)
    requires Lines(text) == [l0, l1, l2, l3]
    ensures !e0.NoEol? && !e1.NoEol? && !e2.NoEol?
    ensures text == l0 + Eol(e0) + (l1 + Eol(e1) + (l2 + Eol(e2) + (l3 + Eol(e3))))
  {
    var rest0, rest1, rest2, rest3;
    assert [l0, l1, l2, l3] == [l0] + [l1, l2, l3];
    e0, rest0 := LinesUncons(text, l0, [l1, l2, l3]);
    assert [l1, l2, l3] == [l1] + [l2, l3];
    e1, rest1 := LinesUncons(rest0, l1, [l2, l3]);
    assert [l2, l3] == [l2] + [l3];
    e2, rest2 := LinesUncons(rest1, l2, [l3]);
    assert [l3] == [l3] + [];
    e3, rest3 := LinesUncons(rest2, l3, []);
    assert rest2 == l3 + Eol(e3);
  }

  lemma AsciiLine(line: Bytes, end: Terminator, rest: Bytes)
    requires Printable(line) && AllAscii(rest)
    ensures AllAscii(line + Eol(end) + rest)
  {
  }

  lemma ProfileTextShort(e0: Terminator, h1: Bytes, e1: Terminator, h2: Bytes, e2: Terminator, h3: Bytes,
                         e3: Terminator)
    requires |h1| == |h2| == |h3| == 64
    ensures |ProfileText(e0, h1, e1, h2, e2, h3, e3)| <= 512
  {
    TextLiterals();
  }

  /** The text of the four lines is ASCII and short, so the first two checks let it pass. */
  lemma ProfileTextPasses(e0: Terminator, h1: Bytes, e1: Terminator, h2: Bytes, e2: Terminator, h3: Bytes,
                          e3: Terminator)
    requires AllHex(h1) && AllHex(h2) && AllHex(h3) && |h1| == |h2| == |h3| == 64
    ensures var text := ProfileText(e0, h1, e1, h2, e2, h3, e3); |text| <= 512 && ValidUtf8(text)
  {
    hide ValidUtf8, AllHex, Printable, AllAscii, Eol;
    ProfileTextShort(e0, h1, e1, h2, e2, h3, e3);
    TextLiterals();
    DigitsPrintable(h1);
    DigitsPrintable(h2);
    DigitsPrintable(h3);
    var l3 := FINGERPRINT_FIELD + h3;
    var l2 := X25519_FIELD + h2;
    var l1 := ED25519_FIELD + h1;
    var t3 := l3 + Eol(e3);
    var t2 := l2 + Eol(e2) + t3;
    var t1 := l1 + Eol(e1) + t2;
    AsciiLine(l3, e3, []);
    assert t3 == t3 + [];
    AsciiLine(l2, e2, t3);
    AsciiLine(l1, e1, t2);
    AsciiLine(PROFILE_PREFIX, e0, t1);
    assert ProfileText(e0, h1, e1, h2, e2, h3, e3) == PROFILE_PREFIX + Eol(e0) + t1;
    AsciiIsUtf8(PROFILE_PREFIX + Eol(e0) + t1);
  }

  /** A spelling of `p` passes every check in front of the canonical comparison ... */
  lemma SpellingPasses(s: LawfulSuite, bytes: Bytes, p: PublicProfile,
                       e0: Terminator, h1: Bytes, e1: Terminator, h2: Bytes, e2: Terminator, h3: Bytes,
                       e3: Terminator)
    requires Spells(s, bytes, p, e0, h1, e1, h2, e2, h3, e3)
    ensures ParseLoosely(s, bytes) == Ok(p)
  {
    EncodingIsDigits(h1, p.identityPublic);
    EncodingIsDigits(h2, p.agreementPublic);
    EncodingIsDigits(h3, p.fingerprint);
    ProfileTextPasses(e0, h1, e1, h2, e2, h3, e3);
    TextLiterals();
    LineOfField(ED25519_FIELD, h1);
    LineOfField(X25519_FIELD, h2);
    LineOfField(FINGERPRINT_FIELD, h3);
    FourLines(PROFILE_PREFIX, e0, ED25519_FIELD + h1, e1, X25519_FIELD + h2, e2, FINGERPRINT_FIELD + h3, e3);
    FieldExact(ED25519_FIELD + h1, ED25519_FIELD, h1, p.identityPublic);
    FieldExact(X25519_FIELD + h2, X25519_FIELD, h2, p.agreementPublic);
    FieldExact(FINGERPRINT_FIELD + h3, FINGERPRINT_FIELD, h3, p.fingerprint);
  }

  /** ... and only spellings do: the inputs that reach the comparison differ from the canonical text in
      nothing but letter case, carriage returns in front of line feeds, and the last line feed. */
  lemma PassingIsSpelling(s: LawfulSuite, bytes: Bytes)
    returns (e0: Terminator, h1: Bytes, e1: Terminator, h2: Bytes, e2: Terminator, h3: Bytes, e3: Terminator)
    requires ParseLoosely(s, bytes).Ok?
    ensures Spells(s, bytes, ParseLoosely(s, bytes).value, e0, h1, e1, h2, e2, h3, e3)
  {
    var lines := Lines(bytes);
    var p := ParseLoosely(s, bytes).value;
    assert |lines| == 4;
    h1, h2, h3 := lines[1][|ED25519_FIELD|..], lines[2][|X25519_FIELD|..], lines[3][|FINGERPRINT_FIELD|..];
    assert lines[1] == ED25519_FIELD + h1 && lines[2] == X25519_FIELD + h2 && lines[3] == FINGERPRINT_FIELD + h3;
    FieldExact(lines[1], ED25519_FIELD, h1, p.identityPublic);
    FieldExact(lines[2], X25519_FIELD, h2, p.agreementPublic);
    FieldExact(lines[3], FINGERPRINT_FIELD, h3, p.fingerprint);
    assert lines == [lines[0], lines[1], lines[2], lines[3]];
    e0, e1, e2, e3 := FourLinesInverse(bytes, lines[0], lines[1], lines[2], lines[3]);
  }

  /** The text of a profile: four lines, each ended by a line feed. */
  lemma EncodedLines(p: PublicProfile)
    ensures Lines(Encode(p)) == [PROFILE_PREFIX, ED25519_FIELD + Hex(p.identityPublic),
                                 X25519_FIELD + Hex(p.agreementPublic), FINGERPRINT_FIELD + Hex(p.fingerprint)]
    ensures CR !in Encode(p) && Encode(p)[239] == LF
  {
    hide Lines, Hex;
    TextLiterals();
    HexDigits(p.identityPublic);
    HexDigits(p.agreementPublic);
    HexDigits(p.fingerprint);
    FourLines(PROFILE_PREFIX, Lf, ED25519_FIELD + Hex(p.identityPublic), Lf, X25519_FIELD + Hex(p.agreementPublic), Lf,
              FINGERPRINT_FIELD + Hex(p.fingerprint), Lf);
    assert Encode(p) == (PROFILE_PREFIX + Eol(Lf)) + (ED25519_FIELD + Hex(p.identityPublic) + Eol(Lf))
                        + (X25519_FIELD + Hex(p.agreementPublic) + Eol(Lf))
                        + (FINGERPRINT_FIELD + Hex(p.fingerprint) + Eol(Lf));
  }

  /** The parser accepts exactly the encodings of well-formed profiles. */
  lemma ParseExact(s: LawfulSuite, bytes: Bytes, p: PublicProfile)
    ensures Parse(s, bytes) == Ok(p) <==> WellFormed(s, p) && bytes == Encode(p)
  {
    if WellFormed(s, p) && bytes == Encode(p) {
      HexDigits(p.identityPublic);
      HexDigits(p.agreementPublic);
      HexDigits(p.fingerprint);
      SpellingPasses(s, bytes, p, Lf, Hex(p.identityPublic), Lf, Hex(p.agreementPublic), Lf, Hex(p.fingerprint), Lf);
    }
  }

  /** What the guards of the parser answer, in their order, and that only spellings reach the last one. */
  lemma ParseRefusals(s: LawfulSuite, bytes: Bytes)
    ensures Parse(s, bytes) == Invalid(ProfileTooLarge) <==> |bytes| > 512
    ensures Parse(s, bytes) == Invalid(ProfileNotUtf8) <==> |bytes| <= 512 && !IsText(bytes)
    ensures Parse(s, bytes) == Invalid(ProfilePrefix) <==>
            |bytes| <= 512 && IsText(bytes) && !(|Lines(bytes)| > 0 && Lines(bytes)[0] == PROFILE_PREFIX)
    ensures Parse(s, bytes) == Invalid(ProfileNotCanonical) <==>
            ParseLoosely(s, bytes).Ok? && bytes != Encode(ParseLoosely(s, bytes).value)
  {
    hide ValidUtf8, IsText, Lines, Unhex, NewProfile, Encode;
    ValidUtf8Exact(bytes);
  }

  /** No profile text is a proper prefix of another: a half-written profile never parses. */
  lemma ProperPrefixRejected(s: LawfulSuite, p: PublicProfile, written: nat)
    requires written < |Encode(p)|
    ensures Parse(s, Encode(p)[..written]).Err?
  {
    var r := Parse(s, Encode(p)[..written]);
    if r.Ok? {
      ParseExact(s, Encode(p)[..written], r.value);
    }
  }

  lemma EncodeInjective(s: LawfulSuite, p: PublicProfile, q: PublicProfile)
    requires WellFormed(s, p) && WellFormed(s, q) && Encode(p) == Encode(q)
    ensures p == q
  {
    ParseExact(s, Encode(p), p);
    ParseExact(s, Encode(p), q);
  }

  method ReadField(line: Option<Bytes>, prefix: Bytes) returns (r: Result<Bytes32>)
    ensures r == ParseField(line, prefix)
  {
    if line.None? {
      return Invalid(ProfileFieldMissing);
    }
    if !(prefix <= line.value) {
      return Invalid(ProfileField);
    }
    r := HexDecode(32, line.value[|prefix|..]);
  }

  method EncodeProfile(p: PublicProfile) returns (text: Bytes)
    ensures text == Encode(p)
  {
    var first := HexEncode(p.identityPublic);
    var second := HexEncode(p.agreementPublic);
    var third := HexEncode(p.fingerprint);
    text := ProfileText(Lf, first, Lf, second, Lf, third, Lf);
  }

  /** The parser as the source runs it, line by line. */
  method ParseProfile(s: LawfulSuite, bytes: Bytes) returns (r: Result<PublicProfile>)
    ensures r == Parse(s, bytes)
    ensures r.Ok? ==> WellFormed(s, r.value) && bytes == Encode(r.value)
  {
    hide ValidUtf8, Encode, ParseField, Fingerprint;
    if |bytes| > 512 {
      return Invalid(ProfileTooLarge);
    }
    if !ValidUtf8(bytes) {
      return Invalid(ProfileNotUtf8);
    }
    ghost var all := Lines(bytes);
    var lines := new LineIterator(bytes);
    var first := lines.Next();
    if first != Some(PROFILE_PREFIX) {
      return Invalid(ProfilePrefix);
    }
    var second := lines.Next();
    var identityPublic :- ReadField(second, ED25519_FIELD);
    var third := lines.Next();
    var agreementPublic :- ReadField(third, X25519_FIELD);
    var fourth := lines.Next();
    var supplied :- ReadField(fourth, FINGERPRINT_FIELD);
    assert second == At(all, 1) && third == At(all, 2) && fourth == At(all, 3);
    var fifth := lines.Next();
    if fifth.Some? {
      return Invalid(ProfileExtraLine);
    }
    var profile := NewProfile(s, identityPublic, agreementPublic);
    if profile.fingerprint != supplied {
      return Invalid(ProfileFingerprint);
    }
    var canonical := EncodeProfile(profile);
    if canonical != bytes {
      return Invalid(ProfileNotCanonical);
    }
    r := Ok(profile);
  }

  /** The two public keys, filled into one buffer. */
  function KeyMaterial(p: PublicProfile): Bytes64 {
    p.identityPublic + p.agreementPublic
  }

  /** Key material determines both keys. */
  lemma KeyMaterialInjective(p: PublicProfile, q: PublicProfile)
    ensures KeyMaterial(p) == KeyMaterial(q) <==>
            p.identityPublic == q.identityPublic && p.agreementPublic == q.agreementPublic
  {
    if KeyMaterial(p) == KeyMaterial(q) {
      SplitEqual(p.identityPublic, p.agreementPublic, q.identityPublic, q.agreementPublic);
    }
  }

  method CanonicalKeyMaterial(p: PublicProfile) returns (material: Bytes)
    ensures material == p.identityPublic + p.agreementPublic
  {
    var buffer := new byte[64](_ => 0);
    forall i | 0 <= i < 32 {
      buffer[i] := p.identityPublic[i];
    }
    forall i | 32 <= i < 64 {
      buffer[i] := p.agreementPublic[i - 32];
    }
    material := buffer[..];
    assert material == KeyMaterial(p);
  }

  // ---------------------------------------------------------------- grouped fingerprint

  function Upper(text: Bytes): (upper: Bytes)
    ensures |upper| == |text|
  {
    seq<byte>(|text|, k requires 0 <= k < |text| => if 97 <= text[k] <= 122 then text[k] - 32 else text[k])
  }

  /** `text` in groups of four, joined by dashes. */
  function Grouped(text: Bytes): Bytes {
    if |text| <= 4 then text else text[..4] + [DASH] + Grouped(text[4..])
  }

  function RemoveDashes(text: Bytes): Bytes {
    if text == [] then []
    else if text[0] == DASH then RemoveDashes(text[1..])
    else [text[0]] + RemoveDashes(text[1..])
  }

  function FormattedFingerprint(fingerprint: Bytes32): Bytes {
    Grouped(Upper(Hex(fingerprint)))
  }

  lemma {:induction false} GroupedShape(text: Bytes)
    requires |text| % 4 == 0 && DASH !in text
    ensures text != [] ==> |Grouped(text)| == |text| + |text| / 4 - 1
    ensures forall i :: 0 <= i < |Grouped(text)| ==> (Grouped(text)[i] == DASH <==> i % 5 == 4)
    ensures forall b :: b in Grouped(text) ==> b == DASH || b in text
  {
    if |text| > 4 {
      GroupedShape(text[4..]);
      var tail := Grouped(text[4..]);
      assert Grouped(text) == text[..4] + [DASH] + tail;
      forall i | 0 <= i < |Grouped(text)|
        ensures Grouped(text)[i] == DASH <==> i % 5 == 4
      {
        if i >= 5 {
          assert Grouped(text)[i] == tail[i - 5];
        }
      }
    }
  }

  lemma {:induction false} RemoveFromConcat(a: Bytes, b: Bytes)
    requires DASH !in a
    ensures RemoveDashes(a + b) == a + RemoveDashes(b)
  {
    if a == [] {
      assert a + b == b;
    } else {
      RemoveFromConcat(a[1..], b);
      assert (a + b)[1..] == a[1..] + b;
    }
  }

  lemma {:induction false} RemoveGrouped(text: Bytes)
    requires DASH !in text
    ensures RemoveDashes(Grouped(text)) == text
  {
    if |text| <= 4 {
      RemoveFromConcat(text, []);
      assert text + [] == text;
    } else {
      var tail := [DASH] + Grouped(text[4..]);
      RemoveGrouped(text[4..]);
      RemoveFromConcat(text[..4], tail);
      assert Grouped(text) == text[..4] + tail && tail[1..] == Grouped(text[4..]);
    }
  }

  lemma UpperDigits(fingerprint: Bytes32)
    ensures var text := Upper(Hex(fingerprint));
            && DASH !in text && Lower(text) == Hex(fingerprint)
            && forall b :: b in text ==> 48 <= b <= 57 || 65 <= b <= 70
  {
    HexDigits(fingerprint);
    var hex := Hex(fingerprint);
    forall k | 0 <= k < |hex|
      ensures Upper(hex)[k] != DASH && Lower(Upper(hex))[k] == hex[k]
      ensures 48 <= Upper(hex)[k] <= 57 || 65 <= Upper(hex)[k] <= 70
    {
    }
  }

  /** 79 characters, dashes exactly after each group of four, upper-case digits elsewhere, and the fingerprint
      can be read back. */
  lemma FormattedFingerprintExact(fingerprint: Bytes32)
    ensures var text := FormattedFingerprint(fingerprint);
            && |text| == 79
            && (forall i :: 0 <= i < 79 ==> (text[i] == DASH <==> i % 5 == 4))
            && (forall i :: 0 <= i < 79 ==> text[i] == DASH || 48 <= text[i] <= 57 || 65 <= text[i] <= 70)
            && Unhex(32, RemoveDashes(text)) == Ok(fingerprint)
  {
    var text := Upper(Hex(fingerprint));
    UpperDigits(fingerprint);
    GroupedShape(text);
    RemoveGrouped(text);
    UnhexExact(32, text, fingerprint);
    assert forall i :: 0 <= i < 79 ==> Grouped(text)[i] in Grouped(text);
  }

  lemma FormattedFingerprintInjective(a: Bytes32, b: Bytes32)
    requires FormattedFingerprint(a) == FormattedFingerprint(b)
    ensures a == b
  {
    FormattedFingerprintExact(a);
    FormattedFingerprintExact(b);
  }

  lemma {:induction false} GroupedSnoc(text: Bytes, chunk: Bytes)
    requires |text| % 4 == 0 && text != [] && 0 < |chunk| <= 4
    ensures Grouped(text + chunk) == Grouped(text) + [DASH] + chunk
  {
    var whole := text + chunk;
    assert whole[..4] == text[..4] && whole[4..] == text[4..] + chunk;
    if |text| == 4 {
      assert text[4..] + chunk == chunk && text[..4] == text;
    } else {
      GroupedSnoc(text[4..], chunk);
      assert Grouped(text) == text[..4] + [DASH] + Grouped(text[4..]);
    }
  }

  method FormatFingerprint(fingerprint: Bytes32) returns (output: Bytes)
    ensures output == FormattedFingerprint(fingerprint)
  {
    var hex := HexEncode(fingerprint);
    hex := Upper(hex);
    output := [];
    for index := 0 to 16
      invariant output == Grouped(hex[..4 * index])
    {
      var chunk := hex[4 * index..4 * index + 4];
      assert hex[..4 * (index + 1)] == hex[..4 * index] + chunk;
      if index != 0 {
        GroupedSnoc(hex[..4 * index], chunk);
        output := output + [DASH];
      }
      ghost var start := output;
      for k := 0 to 4
        invariant output == start + chunk[..k]
      {
        output := output + [chunk[k]];
      }
      assert index == 0 ==> hex[..4] == chunk;
    }
    assert hex[..64] == hex;
  }

  // ---------------------------------------------------------------- unlock key

  function EncodeUnlockKey(key: Bytes32): (text: Bytes)
    ensures |text| == 82
  {
    UNLOCK_PREFIX + Eol(Lf) + (Hex(key) + Eol(Lf))
  }

  function ParseUnlockKeyOf(bytes: Bytes): Result<Bytes32> {
    if |bytes| > 128 then Invalid(UnlockTooLarge)
    else if !ValidUtf8(bytes) then Invalid(UnlockNotUtf8)
    else
      var lines := Lines(bytes);
      if At(lines, 0) != Some(UNLOCK_PREFIX) then Invalid(UnlockPrefix)
      else if |lines| < 2 then Invalid(UnlockMissing)
      else if |lines| > 2 then Invalid(UnlockExtraLine)
      else
        var key :- Unhex(32, lines[1]);
        if EncodeUnlockKey(key) != bytes then Invalid(UnlockNotCanonical) else Ok(key)
  }

  /** The text of an unlock key is ASCII and has two lines. */
  lemma UnlockLines(digits: Bytes)
    requires Printable(digits) && digits != []
    ensures var text := UNLOCK_PREFIX + Eol(Lf) + (digits + Eol(Lf));
            ValidUtf8(text) && Lines(text) == [UNLOCK_PREFIX, digits]
  {
    hide Lines, ValidUtf8;
    TextLiterals();
    AsciiLine(digits, Lf, []);
    assert digits + Eol(Lf) + [] == digits + Eol(Lf);
    AsciiLine(UNLOCK_PREFIX, Lf, digits + Eol(Lf));
    AsciiIsUtf8(UNLOCK_PREFIX + Eol(Lf) + (digits + Eol(Lf)));
    LinesLast(digits, Lf);
    LinesCons(UNLOCK_PREFIX, Lf, digits + Eol(Lf));
  }

  /** The text of an unlock key: two lines, each ended by a line feed. */
  lemma UnlockKeyLines(key: Bytes32)
    ensures Lines(EncodeUnlockKey(key)) == [UNLOCK_PREFIX, Hex(key)]
    ensures CR !in EncodeUnlockKey(key) && EncodeUnlockKey(key)[81] == LF
  {
    hide Lines, Hex;
    TextLiterals();
    HexDigits(key);
    UnlockLines(Hex(key));
  }

  /** The unlock-key parser accepts exactly the encodings. */
  lemma UnlockKeyExact(bytes: Bytes, key: Bytes32)
    ensures ParseUnlockKeyOf(bytes) == Ok(key) <==> bytes == EncodeUnlockKey(key)
  {
    hide Lines, ValidUtf8, Unhex, Hex;
    if bytes == EncodeUnlockKey(key) {
      HexDigits(key);
      HexRoundTrip(key);
      UnlockLines(Hex(key));
    }
  }

  /** What the guards of the unlock-key parser answer, in their order. */
  lemma ParseUnlockKeyRefusals(bytes: Bytes)
    ensures var lines, r := Lines(bytes), ParseUnlockKeyOf(bytes);
            var prefixed := |bytes| <= 128 && IsText(bytes) && |lines| > 0 && lines[0] == UNLOCK_PREFIX;
            && (r == Invalid(UnlockTooLarge) <==> |bytes| > 128)
            && (r == Invalid(UnlockNotUtf8) <==> |bytes| <= 128 && !IsText(bytes))
            && (r == Invalid(UnlockPrefix) <==> |bytes| <= 128 && IsText(bytes) && !prefixed)
            && (r == Invalid(UnlockMissing) <==> prefixed && |lines| == 1)
            && (r == Invalid(UnlockExtraLine) <==> prefixed && |lines| > 2)
  {
    hide ValidUtf8, IsText, Lines, Unhex, EncodeUnlockKey;
    ValidUtf8Exact(bytes);
  }

  method PrintUnlockKey(key: Bytes32) returns (text: Bytes)
    ensures text == EncodeUnlockKey(key)
  {
    var digits := HexEncode(key);
    text := UNLOCK_PREFIX + Eol(Lf) + (digits + Eol(Lf));
  }

  method ParseUnlockKey(bytes: Bytes) returns (r: Result<Bytes32>)
    ensures r == ParseUnlockKeyOf(bytes)
  {
    if |bytes| > 128 {
      return Invalid(UnlockTooLarge);
    }
    if !ValidUtf8(bytes) {
      return Invalid(UnlockNotUtf8);
    }
    ghost var all := Lines(bytes);
    var lines := new LineIterator(bytes);
    var first := lines.Next();
    if first != Some(UNLOCK_PREFIX) {
      return Invalid(UnlockPrefix);
    }
    var second := lines.Next();
    if second.None? {
      return Invalid(UnlockMissing);
    }
    var third := lines.Next();
    assert second == At(all, 1) && third == At(all, 2);
    if third.Some? {
      return Invalid(UnlockExtraLine);
    }
    var key: Bytes32 :- HexDecode(32, second.value);
    var canonical := PrintUnlockKey(key);
    if canonical != bytes {
      return Invalid(UnlockNotCanonical);
    }
    r := Ok(key);
  }

  // ---------------------------------------------------------------- identity at rest

  const PRIVATE_FILE_LEN: nat := 24 + (1 + 32 + 32) + 16

  function PrivatePlaintext(secrets: IdentitySecrets): Bytes {
    [PROFILE_VERSION] + secrets.identitySecret + secrets.agreementSecret
  }

  function EncryptedIdentity(s: LawfulSuite, secrets: IdentitySecrets, key: Bytes32, nonce: Bytes24): Bytes {
    nonce + s.encrypt(key, nonce, IDENTITY_AAD_DOMAIN, PrivatePlaintext(secrets))
  }

  function DecryptIdentity(s: LawfulSuite, encrypted: Bytes, key: Bytes32): Result<IdentitySecrets> {
    if |encrypted| != PRIVATE_FILE_LEN then Err(Authentication)
    else
      var plain := s.decrypt(key, encrypted[..NONCE_LEN], IDENTITY_AAD_DOMAIN, encrypted[NONCE_LEN..]);
      if plain.None? then Err(Authentication)
      else if |plain.value| != 65 || plain.value[0] != PROFILE_VERSION then Err(Authentication)
      else Ok(IdentitySecrets(plain.value[1..33], plain.value[33..65]))
  }

  /** The plaintext at rest, from which both secrets read back. */
  lemma PrivatePlaintextLayout(secrets: IdentitySecrets)
    ensures var plain := PrivatePlaintext(secrets);
            && |plain| == 65 && plain[0] == 1
            && plain[1..33] == secrets.identitySecret && plain[33..65] == secrets.agreementSecret
  {
  }

  /** Decryption succeeds exactly on a nonce and an encryption, under that nonce and the unlock key, of version
      and secrets. */
  lemma IdentityAtRestExact(s: LawfulSuite, encrypted: Bytes, key: Bytes32, secrets: IdentitySecrets)
    ensures DecryptIdentity(s, encrypted, key) == Ok(secrets) <==>
            && |encrypted| == 105
            && encrypted[24..] == s.encrypt(key, encrypted[..24], IDENTITY_AAD_DOMAIN,
                                            [1] + secrets.identitySecret + secrets.agreementSecret)
    ensures DecryptIdentity(s, encrypted, key) == Ok(secrets) <==>
            && |encrypted| == PRIVATE_FILE_LEN
            && encrypted == EncryptedIdentity(s, secrets, key, encrypted[..NONCE_LEN])
  {
    if |encrypted| == PRIVATE_FILE_LEN {
      var nonce: Bytes24, rest := encrypted[..NONCE_LEN], encrypted[NONCE_LEN..];
      var expected := PrivatePlaintext(secrets);
      var plain := s.decrypt(key, nonce, IDENTITY_AAD_DOMAIN, rest);
      assert encrypted == nonce + rest;
      PrivatePlaintextLayout(secrets);
      AeadExact(s, key, nonce, IDENTITY_AAD_DOMAIN, expected, rest);
      if DecryptIdentity(s, encrypted, key) == Ok(secrets) {
        assert plain.value == [plain.value[0]] + plain.value[1..33] + plain.value[33..65];
        assert plain == Some(expected);
      }
      if encrypted == EncryptedIdentity(s, secrets, key, nonce) {
        SplitEqual(nonce, rest, nonce, s.encrypt(key, nonce, IDENTITY_AAD_DOMAIN, expected));
      }
    }
  }

  /** The stored file has the one length that decryption admits, and decrypts to the same secrets. */
  lemma IdentityAtRestRoundTrip(s: LawfulSuite, secrets: IdentitySecrets, key: Bytes32, nonce: Bytes24)
    ensures var file := EncryptedIdentity(s, secrets, key, nonce);
            |file| == PRIVATE_FILE_LEN && DecryptIdentity(s, file, key) == Ok(secrets)
  {
    var file := EncryptedIdentity(s, secrets, key, nonce);
    AeadExact(s, key, nonce, IDENTITY_AAD_DOMAIN, PrivatePlaintext(secrets), file[NONCE_LEN..]);
    assert file[..NONCE_LEN] == nonce;
    IdentityAtRestExact(s, file, key, secrets);
  }

  method EncryptPrivateIdentity(s: LawfulSuite, secrets: IdentitySecrets, key: Bytes32, nonce: Bytes24)
    returns (encoded: Bytes)
    ensures encoded == EncryptedIdentity(s, secrets, key, nonce)
    ensures encoded == nonce + s.encrypt(key, nonce, IDENTITY_AAD_DOMAIN,
                                         [1] + secrets.identitySecret + secrets.agreementSecret)
  {
    var plaintext: Bytes := [PROFILE_VERSION];
    plaintext := plaintext + secrets.identitySecret;
    plaintext := plaintext + secrets.agreementSecret;
    var ciphertext := s.encrypt(key, nonce, IDENTITY_AAD_DOMAIN, plaintext);
    encoded := nonce;
    encoded := encoded + ciphertext;
  }
}
