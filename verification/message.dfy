/** Sealing and opening letters. */
module Messages {
  import opened Results
  import opened ByteStrings
  import opened Primitives
  import opened Protocol
  import opened Format
  import opened Identity
  import opened Crypto
  import opened Contacts

  datatype SenderTrust = Pinned(alias: Bytes) | Mismatch(alias: Bytes) | Unknown

  datatype OpenedLetter = OpenedLetter(body: Bytes, messageId: Bytes32, sender: PublicProfile, trust: SenderTrust)

  datatype ParsedMessage = ParsedMessage(
    sender: PublicProfile,
    recipientFingerprint: Bytes32,
    messageId: Bytes32,
    body: Bytes,
    signature: Bytes64)

  // ---------------------------------------------------------------- the inner record

  function Record(m: ParsedMessage, padding: Bytes): (record: Bytes)
    requires |m.body| <= U32_MAX
    ensures |record| == INTERNAL_FIXED_LEN + |m.body| + |padding|
  {
    SignedFields(m.sender, m.recipientFingerprint, m.messageId, m.body) + (m.signature + padding)
  }

  function ParseRecord(s: LawfulSuite, plaintext: Bytes): (r: Result<ParsedMessage>)
    ensures r.Err? && |plaintext| >= INTERNAL_FIXED_LEN ==>
              || r.error == InvalidInput(Reason.ProtocolVersion)
              || r.error == InvalidInput(Reason.CryptoSuite)
              || r.error == InvalidInput(BodyLength)
  {
    if |plaintext| < INTERNAL_FIXED_LEN then Invalid(InternalTruncated)
    else if plaintext[0] != PROTOCOL_VERSION then Invalid(Reason.ProtocolVersion)
    else if plaintext[1] != CRYPTO_SUITE then Invalid(Reason.CryptoSuite)
    else
      var n := FromU32Be(plaintext[130..134]);
      if n > MAX_BODY_LEN || n > |plaintext| - INTERNAL_FIXED_LEN then Invalid(BodyLength)
      else Ok(ParsedMessage(
        NewProfile(s, plaintext[2..34], plaintext[34..66]),
        plaintext[66..98],
        plaintext[98..130],
        plaintext[134..134 + n],
        plaintext[134 + n..198 + n]))
  }

  lemma RecordParses(s: LawfulSuite, m: ParsedMessage, padding: Bytes)
    requires WellFormed(s, m.sender) && |m.body| <= MAX_BODY_LEN
    ensures ParseRecord(s, Record(m, padding)) == Ok(m)
  {
    FieldsOfRecord(m, padding);
    U32RoundTrip(|m.body|);
  }

  /** Cutting a string at the field boundaries loses nothing. */
  lemma CutAtFields(p: Bytes, n: nat)
    requires INTERNAL_FIXED_LEN + n <= |p|
    ensures p == p[0..2] + p[2..34] + p[34..66] + p[66..98] + p[98..130] + p[130..134] + p[134..134 + n]
                 + (p[134 + n..198 + n] + p[198 + n..])
  {
    assert p == p[0..134] + (p[134..134 + n] + (p[134 + n..198 + n] + p[198 + n..]));
    assert p[0..134] == p[0..2] + p[2..34] + p[34..66] + p[66..98] + p[98..130] + p[130..134];
  }

  lemma ParsedIsRecord(s: LawfulSuite, plaintext: Bytes)
    requires ParseRecord(s, plaintext).Ok?
    ensures var m := ParseRecord(s, plaintext).value;
            && WellFormed(s, m.sender) && |m.body| <= MAX_BODY_LEN
            && INTERNAL_FIXED_LEN + |m.body| <= |plaintext|
            && plaintext == Record(m, plaintext[INTERNAL_FIXED_LEN + |m.body|..])
  {
    var n := FromU32Be(plaintext[130..134]);
    U32Unique(plaintext[130..134]);
    CutAtFields(plaintext, n);
    assert plaintext[0..2] == [PROTOCOL_VERSION, CRYPTO_SUITE];
  }

  /** Parsing and serializing are inverse to each other, on every byte string: whatever follows the
      signature is the padding. */
  lemma ParseRecordExact(s: LawfulSuite, plaintext: Bytes, m: ParsedMessage)
    ensures ParseRecord(s, plaintext) == Ok(m) <==>
            && WellFormed(s, m.sender) && |m.body| <= MAX_BODY_LEN
            && INTERNAL_FIXED_LEN + |m.body| <= |plaintext|
            && plaintext == Record(m, plaintext[INTERNAL_FIXED_LEN + |m.body|..])
  {
    if ParseRecord(s, plaintext).Ok? {
      ParsedIsRecord(s, plaintext);
    }
    if WellFormed(s, m.sender) && |m.body| <= MAX_BODY_LEN && INTERNAL_FIXED_LEN + |m.body| <= |plaintext| {
      RecordParses(s, m, plaintext[INTERNAL_FIXED_LEN + |m.body|..]);
    }
  }

  lemma FieldsOfRecord(m: ParsedMessage, padding: Bytes)
    requires |m.body| <= U32_MAX
    ensures var r := Record(m, padding); var n := |m.body|;
            && r[0] == PROTOCOL_VERSION && r[1] == CRYPTO_SUITE
            && r[2..34] == m.sender.identityPublic && r[34..66] == m.sender.agreementPublic
            && r[66..98] == m.recipientFingerprint && r[98..130] == m.messageId
            && r[130..134] == U32Be(n) && r[134..134 + n] == m.body
            && r[134 + n..198 + n] == m.signature && r[198 + n..] == padding
  {
    var r, n := Record(m, padding), |m.body|;
    var fields := SignedFields(m.sender, m.recipientFingerprint, m.messageId, m.body);
    SignedFieldsLayout(m.sender, m.recipientFingerprint, m.messageId, m.body);
    assert r[..134 + n] == fields;
    assert r[2..34] == fields[2..34] && r[34..66] == fields[34..66] && r[66..98] == fields[66..98];
    assert r[98..130] == fields[98..130] && r[130..134] == fields[130..134] && r[134..134 + n] == fields[134..];
    assert r[134 + n..] == m.signature + padding;
    assert r[134 + n..198 + n] == r[134 + n..][..64] && r[198 + n..] == r[134 + n..][64..];
  }

  /** A record determines its message and its padding. */
  lemma RecordUnique(s: LawfulSuite, m: ParsedMessage, padding: Bytes, m': ParsedMessage, padding': Bytes)
    requires WellFormed(s, m.sender) && |m.body| <= MAX_BODY_LEN
    requires WellFormed(s, m'.sender) && |m'.body| <= MAX_BODY_LEN
    requires Record(m, padding) == Record(m', padding')
    ensures m == m' && padding == padding'
  {
    RecordParses(s, m, padding);
    RecordParses(s, m', padding');
    FieldsOfRecord(m, padding);
    FieldsOfRecord(m', padding');
  }

  /** The bytes that are signed are the signature domain and exactly the first `134 + body` bytes of the
      record on the wire; verifying a parsed record reconstructs that same string. */
  lemma SignedBytesAreTheRecordHeader(s: LawfulSuite, plaintext: Bytes)
    requires ParseRecord(s, plaintext).Ok?
    ensures var m := ParseRecord(s, plaintext).value;
            && 134 + |m.body| <= |plaintext|
            && SignatureInputOf(m.sender, m.recipientFingerprint, m.messageId, m.body)
               == Ok(SIGNATURE_DOMAIN + plaintext[..134 + |m.body|])
  {
    var m := ParseRecord(s, plaintext).value;
    ParsedIsRecord(s, plaintext);
    var fields := SignedFields(m.sender, m.recipientFingerprint, m.messageId, m.body);
    assert plaintext[..134 + |m.body|] == fields;
  }

  /** The four fields of 32 bytes behind version and suite. */
  method ReadFixedFields(reader: Reader)
    returns (identityPublic: Bytes32, agreementPublic: Bytes32, recipientFingerprint: Bytes32, messageId: Bytes32)
    requires reader.offset == 2 && 130 <= |reader.input|
    modifies reader`offset
    ensures reader.offset == 130
    ensures identityPublic == reader.input[2..34] && agreementPublic == reader.input[34..66]
    ensures recipientFingerprint == reader.input[66..98] && messageId == reader.input[98..130]
  {
    var first := reader.Take(32);
    assert first.Ok?;
    var second := reader.Take(32);
    assert second.Ok?;
    var third := reader.Take(32);
    assert third.Ok?;
    var fourth := reader.Take(32);
    assert fourth.Ok?;
    identityPublic, agreementPublic := first.value, second.value;
    recipientFingerprint, messageId := third.value, fourth.value;
  }

  /** The parser as the source runs it. Past the length guard no read can fail: the only refusals left
      are version, suite and body length. Each
      `assert _.Ok?` stands for a `?` of the source that never propagates an error. */
  method ParseInternal(s: LawfulSuite, plaintext: Bytes) returns (r: Result<ParsedMessage>)
    requires |plaintext| <= ISIZE_MAX
    ensures r == ParseRecord(s, plaintext)
  {
    hide NewProfile, FromU32Be;
    if |plaintext| < INTERNAL_FIXED_LEN {
      return Invalid(InternalTruncated);
    }
    var reader := new Reader(plaintext);
    var version := reader.Byte();
    assert version.Ok?;
    if version.value != PROTOCOL_VERSION {
      return Invalid(Reason.ProtocolVersion);
    }
    var suite := reader.Byte();
    assert suite.Ok?;
    if suite.value != CRYPTO_SUITE {
      return Invalid(Reason.CryptoSuite);
    }
    var identityPublic, agreementPublic, recipientFingerprint, messageId := ReadFixedFields(reader);
    var sender := NewProfile(s, identityPublic, agreementPublic);
    var bodyLen := reader.U32();
    assert bodyLen.Ok?;
    var remaining := reader.Remaining();
    if bodyLen.value > MAX_BODY_LEN || bodyLen.value > SaturatingSub(remaining, SIGNATURE_LEN) {
      return Invalid(BodyLength);
    }
    var body := reader.Take(bodyLen.value);
    assert body.Ok?;
    var signature := reader.Take(SIGNATURE_LEN);
    assert signature.Ok?;
    var left := reader.Remaining();
    var authenticatedPadding := reader.Take(left);
    assert authenticatedPadding.Ok?;
    r := Ok(ParsedMessage(sender, recipientFingerprint, messageId, body.value, signature.value));
  }

  function SerializeInternalOf(s: LawfulSuite, secrets: IdentitySecrets, sender: PublicProfile,
                               recipient: PublicProfile, messageId: Bytes32, body: Bytes,
                               padding: Bytes): Result<Bytes> {
    if |body| > MAX_BODY_LEN then Invalid(BodyTooLarge)
    else
      var signature :- SignMessage(s, secrets, sender, recipient.fingerprint, messageId, body);
      Ok(Record(ParsedMessage(sender, recipient.fingerprint, messageId, body, signature), padding))
  }

  method SerializeInternal(s: LawfulSuite, secrets: IdentitySecrets, sender: PublicProfile,
                           recipient: PublicProfile, messageId: Bytes32, body: Bytes, padding: Bytes)
    returns (r: Result<Bytes>)
    requires |padding| <= ISIZE_MAX
    ensures r == SerializeInternalOf(s, secrets, sender, recipient, messageId, body, padding)
  {
    if |body| > MAX_BODY_LEN {
      return Invalid(BodyTooLarge);
    }
    var signature :- Sign(s, secrets, sender, recipient.fingerprint, messageId, body);
    var partial := CheckedAdd(INTERNAL_FIXED_LEN, |body|);
    if partial.None? || CheckedAdd(partial.value, |padding|).None? {
      return Invalid(BodyTooLarge);
    }
    ghost var fields := SignedFields(sender, recipient.fingerprint, messageId, body);
    var output: Bytes := [PROTOCOL_VERSION];
    output := output + [CRYPTO_SUITE];
    output := output + sender.identityPublic;
    output := output + sender.agreementPublic;
    output := output + recipient.fingerprint;
    output := output + messageId;
    output := output + U32Be(|body|);
    output := output + body;
    assert output == fields;
    output := output + signature;
    output := output + padding;
    assert output == fields + (signature + padding);
    r := Ok(output);
  }

  // ---------------------------------------------------------------- sealing

  /** What `seal` draws from the operating system. */
  datatype Entropy = Entropy(ephemeralSecret: Bytes32, nonce: Bytes24, messageId: Bytes32, padding: Bytes)

  /** The number of padding bytes that fill the bucket. */
  function PaddingLen(bodyLen: nat): nat
    requires bodyLen <= MAX_BODY_LEN
  {
    PaddedLenExact(bodyLen);
    PaddedBlobLenOf(bodyLen).value - OUTER_OVERHEAD - INTERNAL_FIXED_LEN - bodyLen
  }

  /** The padding is drawn with the length that was asked for. */
  predicate Drawn(bodyLen: nat, entropy: Entropy) {
    bodyLen <= MAX_BODY_LEN ==> |entropy.padding| == PaddingLen(bodyLen)
  }

  /** The letter as one formula: ephemeral key, nonce, and the encrypted record. */
  function SealedBlob(s: LawfulSuite, secrets: IdentitySecrets, sender: PublicProfile, recipient: PublicProfile,
                      body: Bytes, entropy: Entropy): Result<Bytes> {
    var record :- SerializeInternalOf(s, secrets, sender, recipient, entropy.messageId, body, entropy.padding);
    var ephemeralPublic := s.agreementPublic(entropy.ephemeralSecret);
    var key :- MessageKeySender(s, entropy.ephemeralSecret, ephemeralPublic, recipient.agreementPublic);
    Ok(ephemeralPublic + entropy.nonce
       + s.encrypt(key, entropy.nonce, OuterAadOf(ephemeralPublic, entropy.nonce), record))
  }

  /** Sealing as the source runs it: no length subtraction underflows, both "padding calculation failed"
      exits are dead, and the length of the letter depends on the bucket of the body alone. */
  method Seal(s: LawfulSuite, secrets: IdentitySecrets, sender: PublicProfile, recipient: PublicProfile,
              body: Bytes, entropy: Entropy) returns (r: Result<Bytes>)
    requires Drawn(|body|, entropy)
    ensures r == SealedBlob(s, secrets, sender, recipient, body, entropy)
    ensures r.Ok? ==> Some(|r.value|) == PaddedBlobLenOf(|body|) && ValidBlobLen(|r.value|)
    ensures r != Invalid(NoBucket) && r != Invalid(InternalPadding) && r != Invalid(OuterPadding)
  {
    if |body| > MAX_BODY_LEN {
      return Invalid(BodyTooLarge);
    }
    var ephemeralPublic := s.agreementPublic(entropy.ephemeralSecret);
    var bucket := PaddedBlobLen(|body|);
    if bucket.None? {
      return Invalid(NoBucket);
    }
    var blobLen := bucket.value;
    var plaintextLen: nat := blobLen - OUTER_OVERHEAD;
    var paddingLen: nat := plaintextLen - INTERNAL_FIXED_LEN - |body|;
    assert paddingLen == |entropy.padding|;
    var internal :- SerializeInternal(s, secrets, sender, recipient, entropy.messageId, body, entropy.padding);
    if |internal| != plaintextLen {
      return Invalid(InternalPadding);
    }
    var key :- DeriveMessageKeySender(s, entropy.ephemeralSecret, ephemeralPublic, recipient.agreementPublic);
    var aad := OuterAad(ephemeralPublic, entropy.nonce);
    var ciphertext := s.encrypt(key, entropy.nonce, aad, internal);
    AeadExact(s, key, entropy.nonce, aad, internal, ciphertext);
    var blob: Bytes := ephemeralPublic;
    blob := blob + entropy.nonce;
    blob := blob + ciphertext;
    if |blob| != blobLen {
      return Invalid(OuterPadding);
    }
    r := Ok(blob);
  }

  // ---------------------------------------------------------------- opening

  function Find(contacts: seq<Contact>, p: Contact -> bool): (r: Option<Contact>)
    ensures r.Some? ==> p(r.value) && r.value in contacts
    ensures r.None? ==> forall c :: c in contacts ==> !p(c)
  {
    if contacts == [] then None
    else if p(contacts[0]) then Some(contacts[0])
    else Find(contacts[1..], p)
  }

  predicate SharesKey(c: Contact, sender: PublicProfile) {
    c.profile.identityPublic == sender.identityPublic || c.profile.agreementPublic == sender.agreementPublic
  }

  function Classify(contacts: seq<Contact>, sender: PublicProfile): SenderTrust {
    var exact := Find(contacts, (c: Contact) => c.profile == sender);
    if exact.Some? then Pinned(exact.value.alias)
    else
      var partial := Find(contacts, (c: Contact) => SharesKey(c, sender));
      if partial.Some? then Mismatch(partial.value.alias) else Unknown
  }

  function Open(s: LawfulSuite, secrets: IdentitySecrets, profile: PublicProfile, contacts: seq<Contact>,
                blob: Bytes): (r: Result<OpenedLetter>)
    ensures r.Err? ==> r.error == CannotOpen
  {
    if !ValidBlobLen(|blob|) || |blob| < OUTER_OVERHEAD then Err(CannotOpen)
    else if ProfileOf(s, secrets) != profile then Err(CannotOpen)
    else
      var ephemeralPublic, nonce, ciphertext := blob[..32], blob[32..56], blob[56..];
      var key := MessageKeyRecipient(s, secrets.agreementSecret, ephemeralPublic, profile.agreementPublic);
      if key.Err? then Err(CannotOpen)
      else
        var plain := s.decrypt(key.value, nonce, OuterAadOf(ephemeralPublic, nonce), ciphertext);
        if plain.None? then Err(CannotOpen)
        else
          var parsed := ParseRecord(s, plain.value);
          if parsed.Err? then Err(CannotOpen)
          else
            var m := parsed.value;
            if m.recipientFingerprint != profile.fingerprint then Err(CannotOpen)
            else if VerifyMessageSignature(s, m.sender, m.recipientFingerprint, m.messageId, m.body, m.signature).Err?
            then Err(CannotOpen)
            else Ok(LetterOf(m, contacts))
  }

  /** The verdict in terms of keys: pinned when a contact is the sender, unknown exactly when no contact has either
      of the sender's keys. */
  lemma ClassifyExact(contacts: seq<Contact>, sender: PublicProfile)
    ensures var verdict := Classify(contacts, sender);
            && (verdict.Pinned? <==> exists c :: c in contacts && c.profile == sender)
            && (verdict.Unknown? <==> forall c :: c in contacts ==>
                  c.profile.identityPublic != sender.identityPublic
                  && c.profile.agreementPublic != sender.agreementPublic)
  {
  }

  /** Opening as the source runs it. */
  method OpenLetter(s: LawfulSuite, secrets: IdentitySecrets, profile: PublicProfile, contacts: seq<Contact>,
                    blob: Bytes) returns (r: Result<OpenedLetter>)
    ensures r == Open(s, secrets, profile, contacts, blob)
  {
    if !ValidBlobLen(|blob|) || |blob| < OUTER_OVERHEAD {
      return Err(CannotOpen);
    }
    if ProfileOf(s, secrets) != profile {
      return Err(CannotOpen);
    }
    var ephemeralPublic, nonce, ciphertext := blob[..32], blob[32..56], blob[56..];
    var key := DeriveMessageKeyRecipient(s, secrets.agreementSecret, ephemeralPublic, profile.agreementPublic);
    if key.Err? {
      return Err(CannotOpen);
    }
    var aad := OuterAad(ephemeralPublic, nonce);
    var plaintext := s.decrypt(key.value, nonce, aad, ciphertext);
    if plaintext.None? {
      return Err(CannotOpen);
    }
    AeadExact(s, key.value, nonce, aad, plaintext.value, ciphertext);
    var parsed := ParseInternal(s, plaintext.value);
    if parsed.Err? || parsed.value.recipientFingerprint != profile.fingerprint {
      return Err(CannotOpen);
    }
    var m := parsed.value;
    var verified := Verify(s, m.sender, m.recipientFingerprint, m.messageId, m.body, m.signature);
    if verified.Err? {
      return Err(CannotOpen);
    }
    r := Ok(LetterOf(m, contacts));
  }

  function LetterOf(m: ParsedMessage, contacts: seq<Contact>): OpenedLetter {
    OpenedLetter(m.body, m.messageId, m.sender, Classify(contacts, m.sender))
  }

  /** `blob` is an ephemeral key, a nonce, and the encryption of the record of `m` with `padding` behind it, under
      the key that HKDF makes of `shared`. */
  ghost predicate Encloses(s: LawfulSuite, shared: Bytes32, recipientPublic: Bytes32, blob: Bytes,
                           m: ParsedMessage, padding: Bytes)
    requires |blob| >= 56
  {
    var ephemeralPublic, nonce := blob[..32], blob[32..56];
    var key := s.hkdf(MESSAGE_KEY_SALT, shared, MESSAGE_KEY_INFO + ephemeralPublic + recipientPublic);
    && WellFormed(s, m.sender) && |m.body| <= MAX_BODY_LEN
    && blob[56..] == s.encrypt(key, nonce, OUTER_AAD_DOMAIN + (ephemeralPublic + nonce), Record(m, padding))
  }

  /** The signature of `m` verifies over the domain and the record up to the end of its body. */
  ghost predicate ValidlySigned(s: LawfulSuite, m: ParsedMessage)
    requires |m.body| <= MAX_BODY_LEN
  {
    && s.keyDecodes(m.sender.identityPublic)
    && s.verifyStrict(m.sender.identityPublic, SIGNATURE_DOMAIN + Record(m, [])[..134 + |m.body|], m.signature)
  }

  /** For this recipient, `blob` encloses a message with a valid signature and this recipient's fingerprint, and
      the agreed secret is not all zero. */
  ghost predicate Carries(s: LawfulSuite, secrets: IdentitySecrets, profile: PublicProfile, blob: Bytes,
                          m: ParsedMessage, padding: Bytes) {
    && ProfileOf(s, secrets) == profile && ValidBlobLen(|blob|)
    && m.recipientFingerprint == profile.fingerprint
    && var shared := s.diffieHellman(secrets.agreementSecret, blob[..32]);
       && shared != Zeros(32)
       && Encloses(s, shared, profile.agreementPublic, blob, m, padding)
       && ValidlySigned(s, m)
  }

  lemma ValidlySignedExact(s: LawfulSuite, m: ParsedMessage)
    requires |m.body| <= MAX_BODY_LEN
    ensures ValidlySigned(s, m) <==>
            VerifyMessageSignature(s, m.sender, m.recipientFingerprint, m.messageId, m.body, m.signature).Ok?
  {
    var fields := SignedFields(m.sender, m.recipientFingerprint, m.messageId, m.body);
    assert Record(m, [])[..134 + |m.body|] == fields;
    SignaturesExact(s, IdentitySecrets(Zeros(32), Zeros(32)), m.sender, m.recipientFingerprint, m.messageId, m.body,
                    m.signature);
  }

  /** A letter that carries a message opens to exactly that message. */
  lemma CarriedOpens(s: LawfulSuite, secrets: IdentitySecrets, profile: PublicProfile, contacts: seq<Contact>,
                     blob: Bytes, m: ParsedMessage, padding: Bytes)
    requires Carries(s, secrets, profile, blob, m, padding)
    ensures Open(s, secrets, profile, contacts, blob)
         == Ok(OpenedLetter(m.body, m.messageId, m.sender, Classify(contacts, m.sender)))
  {
    hide ParseRecord, Record, VerifyMessageSignature, MessageKeyRecipient, Classify, ProfileOf, ValidlySigned;
    var ephemeralPublic, nonce, ciphertext := blob[..32], blob[32..56], blob[56..];
    MessageKeysExact(s, secrets.agreementSecret, ephemeralPublic, profile.agreementPublic);
    var key := MessageKeyRecipient(s, secrets.agreementSecret, ephemeralPublic, profile.agreementPublic).value;
    AeadExact(s, key, nonce, OuterAadOf(ephemeralPublic, nonce), Record(m, padding), ciphertext);
    RecordParses(s, m, padding);
    ValidlySignedExact(s, m);
  }

  /** Nothing else opens. */
  lemma OpenedCarries(s: LawfulSuite, secrets: IdentitySecrets, profile: PublicProfile, contacts: seq<Contact>,
                      blob: Bytes) returns (m: ParsedMessage, padding: Bytes)
    requires Open(s, secrets, profile, contacts, blob).Ok?
    ensures Carries(s, secrets, profile, blob, m, padding)
  {
    hide ParseRecord, Record, VerifyMessageSignature, MessageKeyRecipient, Classify, ProfileOf, ValidlySigned;
    var ephemeralPublic, nonce, ciphertext := blob[..32], blob[32..56], blob[56..];
    MessageKeysExact(s, secrets.agreementSecret, ephemeralPublic, profile.agreementPublic);
    var key := MessageKeyRecipient(s, secrets.agreementSecret, ephemeralPublic, profile.agreementPublic).value;
    var aad := OuterAadOf(ephemeralPublic, nonce);
    var plaintext := s.decrypt(key, nonce, aad, ciphertext).value;
    AeadExact(s, key, nonce, aad, plaintext, ciphertext);
    ParsedIsRecord(s, plaintext);
    m := ParseRecord(s, plaintext).value;
    padding := plaintext[INTERNAL_FIXED_LEN + |m.body|..];
    ValidlySignedExact(s, m);
  }

  /** `open` answers exactly the letters that carry a message, and refuses all others in one and the same way. */
  lemma OpenExact(s: LawfulSuite, secrets: IdentitySecrets, profile: PublicProfile, contacts: seq<Contact>,
                  blob: Bytes, letter: OpenedLetter)
    ensures Open(s, secrets, profile, contacts, blob) == Ok(letter) <==>
            exists m, padding :: Carries(s, secrets, profile, blob, m, padding)
              && letter == OpenedLetter(m.body, m.messageId, m.sender, Classify(contacts, m.sender))
    ensures Open(s, secrets, profile, contacts, blob) == Err(CannotOpen) <==>
            forall m, padding :: !Carries(s, secrets, profile, blob, m, padding)
  {
    hide Open, Carries, Classify;
    if Open(s, secrets, profile, contacts, blob).Ok? {
      var m, padding := OpenedCarries(s, secrets, profile, contacts, blob);
    }
    forall m, padding | Carries(s, secrets, profile, blob, m, padding)
      ensures Open(s, secrets, profile, contacts, blob)
           == Ok(OpenedLetter(m.body, m.messageId, m.sender, Classify(contacts, m.sender)))
    {
      CarriedOpens(s, secrets, profile, contacts, blob, m, padding);
    }
  }

  /** For fixed ephemeral key and nonce, letter and content determine each other, padding included. */
  lemma OpenInjective(s: LawfulSuite, secrets: IdentitySecrets, profile: PublicProfile,
                      blob: Bytes, m: ParsedMessage, padding: Bytes,
                      blob': Bytes, m': ParsedMessage, padding': Bytes)
    requires Carries(s, secrets, profile, blob, m, padding)
    requires Carries(s, secrets, profile, blob', m', padding')
    requires blob[..56] == blob'[..56]
    ensures blob == blob' <==> m == m' && padding == padding'
  {
    hide Record, ValidlySigned, ProfileOf, WellFormed;
    assert blob[..32] == blob[..56][..32] && blob[32..56] == blob[..56][32..];
    assert blob'[..32] == blob'[..56][..32] && blob'[32..56] == blob'[..56][32..];
    assert blob == blob[..56] + blob[56..] && blob' == blob'[..56] + blob'[56..];
    var ephemeralPublic, nonce := blob[..32], blob[32..56];
    var shared := s.diffieHellman(secrets.agreementSecret, ephemeralPublic);
    var key := s.hkdf(MESSAGE_KEY_SALT, shared, MESSAGE_KEY_INFO + ephemeralPublic + profile.agreementPublic);
    var aad := OUTER_AAD_DOMAIN + (ephemeralPublic + nonce);
    if blob == blob' {
      AeadExact(s, key, nonce, aad, Record(m, padding), blob[56..]);
      AeadExact(s, key, nonce, aad, Record(m', padding'), blob[56..]);
      RecordUnique(s, m, padding, m', padding');
    }
  }

  /** What `seal` writes, in terms of the primitives: the public key of the drawn secret, the drawn nonce, and the
      record of sender, recipient, drawn message ID, body and honest signature, with the drawn padding. It is
      written exactly for admissible bodies, matching sender keys and an agreed secret that is not all zero. */
  lemma SealedBlobExact(s: LawfulSuite, secrets: IdentitySecrets, sender: PublicProfile, recipient: PublicProfile,
                        body: Bytes, entropy: Entropy, blob: Bytes)
    ensures var shared := s.diffieHellman(entropy.ephemeralSecret, recipient.agreementPublic);
            SealedBlob(s, secrets, sender, recipient, body, entropy) == Ok(blob) <==>
            && |body| <= MAX_BODY_LEN && sender == ProfileOf(s, secrets) && shared != Zeros(32)
            && |blob| >= 56 && blob[..32] == s.agreementPublic(entropy.ephemeralSecret) && blob[32..56] == entropy.nonce
            && Encloses(s, shared, recipient.agreementPublic, blob,
                        HonestMessage(s, secrets, sender, recipient, entropy.messageId, body), entropy.padding)
  {
    hide Record, ProfileOf, SignedFields, MessageKeySender;
    var ephemeralPublic := s.agreementPublic(entropy.ephemeralSecret);
    MessageKeysExact(s, entropy.ephemeralSecret, ephemeralPublic, recipient.agreementPublic);
    var sealed := SealedBlob(s, secrets, sender, recipient, body, entropy);
    if sealed.Ok? {
      var m := HonestMessage(s, secrets, sender, recipient, entropy.messageId, body);
      var key := MessageKeySender(s, entropy.ephemeralSecret, ephemeralPublic, recipient.agreementPublic).value;
      var ciphertext := s.encrypt(key, entropy.nonce, OuterAadOf(ephemeralPublic, entropy.nonce),
                                  Record(m, entropy.padding));
      assert sealed.value == ephemeralPublic + entropy.nonce + ciphertext;
      assert sealed.value[..32] == ephemeralPublic && sealed.value[32..56] == entropy.nonce;
      assert sealed.value[56..] == ciphertext;
      assert |blob| >= 56 ==> blob == blob[..32] + blob[32..56] + blob[56..];
    }
  }

  /** A message with the signature of its sender. */
  function HonestMessage(s: LawfulSuite, secrets: IdentitySecrets, sender: PublicProfile, recipient: PublicProfile,
                         messageId: Bytes32, body: Bytes): ParsedMessage
    requires |body| <= MAX_BODY_LEN
  {
    ParsedMessage(sender, recipient.fingerprint, messageId, body,
                  s.sign(secrets.identitySecret,
                         SIGNATURE_DOMAIN + SignedFields(sender, recipient.fingerprint, messageId, body)))
  }

  lemma HonestIsValidlySigned(s: LawfulSuite, secrets: IdentitySecrets, recipient: PublicProfile,
                              messageId: Bytes32, body: Bytes)
    requires |body| <= MAX_BODY_LEN
    ensures ValidlySigned(s, HonestMessage(s, secrets, ProfileOf(s, secrets), recipient, messageId, body))
  {
    var m := HonestMessage(s, secrets, ProfileOf(s, secrets), recipient, messageId, body);
    SignaturesExact(s, secrets, m.sender, recipient.fingerprint, messageId, body, m.signature);
    SignedVerifies(s, secrets, m.sender, recipient.fingerprint, messageId, body);
    ValidlySignedExact(s, m);
  }

  /** With the padding that was asked for, the letter fills the bucket of its body. */
  lemma SealedLength(s: LawfulSuite, m: ParsedMessage, blob: Bytes, recipient: PublicProfile, entropy: Entropy)
    requires |blob| >= 56 && Drawn(|m.body|, entropy)
    requires Encloses(s, s.diffieHellman(entropy.ephemeralSecret, recipient.agreementPublic),
                      recipient.agreementPublic, blob, m, entropy.padding)
    ensures PaddedBlobLenOf(|m.body|) == Some(|blob|) && ValidBlobLen(|blob|)
  {
    var ephemeralPublic, nonce: Bytes24 := blob[..32], blob[32..56];
    var shared := s.diffieHellman(entropy.ephemeralSecret, recipient.agreementPublic);
    var key := s.hkdf(MESSAGE_KEY_SALT, shared, MESSAGE_KEY_INFO + ephemeralPublic + recipient.agreementPublic);
    AeadExact(s, key, nonce, OUTER_AAD_DOMAIN + (ephemeralPublic + nonce), Record(m, entropy.padding), blob[56..]);
    PaddedLenExact(|m.body|);
  }

  /** What is sealed for a recipient opens, for that recipient, to the same body, message ID and sender. */
  lemma SealOpenRoundTrip(s: LawfulSuite, senderSecrets: IdentitySecrets, sender: PublicProfile,
                          recipientSecrets: IdentitySecrets, contacts: seq<Contact>, body: Bytes, entropy: Entropy)
    requires Drawn(|body|, entropy)
    requires SealedBlob(s, senderSecrets, sender, ProfileOf(s, recipientSecrets), body, entropy).Ok?
    ensures Open(s, recipientSecrets, ProfileOf(s, recipientSecrets), contacts,
                 SealedBlob(s, senderSecrets, sender, ProfileOf(s, recipientSecrets), body, entropy).value)
         == Ok(OpenedLetter(body, entropy.messageId, sender, Classify(contacts, sender)))
  {
    hide Record, ProfileOf, Classify, ValidlySigned;
    var recipient := ProfileOf(s, recipientSecrets);
    var sealed := SealedBlob(s, senderSecrets, sender, recipient, body, entropy);
    SealedBlobExact(s, senderSecrets, sender, recipient, body, entropy, sealed.value);
    hide SealedBlob, Encloses;
    var m := HonestMessage(s, senderSecrets, sender, recipient, entropy.messageId, body);
    SealedLength(s, m, sealed.value, recipient, entropy);
    SharedSecretAgrees(s, entropy.ephemeralSecret, recipientSecrets.agreementSecret);
    HonestIsValidlySigned(s, senderSecrets, recipient, entropy.messageId, body);
    CarriedOpens(s, recipientSecrets, recipient, contacts, sealed.value, m, entropy.padding);
  }

  /** Sealing succeeds exactly for admissible bodies, matching sender keys and a shared secret that is not all
      zero; the recipient computes that same secret, so its check fires on exactly those letters. */
  lemma SealSucceedsExactly(s: LawfulSuite, senderSecrets: IdentitySecrets, sender: PublicProfile,
                            recipient: PublicProfile, body: Bytes, entropy: Entropy)
    ensures SealedBlob(s, senderSecrets, sender, recipient, body, entropy).Ok? <==>
            && |body| <= MAX_BODY_LEN && sender == ProfileOf(s, senderSecrets)
            && s.diffieHellman(entropy.ephemeralSecret, recipient.agreementPublic) != Zeros(32)
    ensures var r := SealedBlob(s, senderSecrets, sender, recipient, body, entropy);
            r.Err? ==>
              r == if |body| > MAX_BODY_LEN then Invalid(BodyTooLarge)
                   else if sender != ProfileOf(s, senderSecrets) then Invalid(SenderProfileMismatch)
                   else Err(Authentication)
    ensures forall recipientSecrets :: recipient == ProfileOf(s, recipientSecrets) ==>
              s.diffieHellman(entropy.ephemeralSecret, recipient.agreementPublic)
              == s.diffieHellman(recipientSecrets.agreementSecret, s.agreementPublic(entropy.ephemeralSecret))
  {
    MessageKeysExact(s, entropy.ephemeralSecret, s.agreementPublic(entropy.ephemeralSecret), recipient.agreementPublic);
    forall recipientSecrets | recipient == ProfileOf(s, recipientSecrets)
      ensures s.diffieHellman(entropy.ephemeralSecret, recipient.agreementPublic)
           == s.diffieHellman(recipientSecrets.agreementSecret, s.agreementPublic(entropy.ephemeralSecret))
    {
      SharedSecretAgrees(s, entropy.ephemeralSecret, recipientSecrets.agreementSecret);
    }
  }

  /** A letter whose length was changed to anything strictly between half and double does not open ... */
  lemma ResizedLetterRefused(s: LawfulSuite, secrets: IdentitySecrets, profile: PublicProfile,
                             contacts: seq<Contact>, blob: Bytes, other: Bytes)
    requires Open(s, secrets, profile, contacts, blob).Ok?
    requires |other| != |blob| && |blob| < 2 * |other| && |other| < 2 * |blob|
    ensures Open(s, secrets, profile, contacts, other) == Err(CannotOpen)
  {
    if ValidBlobLen(|other|) {
      NoOtherLengthNearby(|blob|, |other|);
    }
  }

  /** ... but the length alone does not refuse every appended letter: 512 bytes more are a valid length. */
  lemma AppendingCanKeepTheLengthValid()
    ensures ValidBlobLen(MIN_BLOB_LEN) && ValidBlobLen(MIN_BLOB_LEN + 512)
  {
    BlobBounds();
    PowersMultiply(512, 2);
  }
}
