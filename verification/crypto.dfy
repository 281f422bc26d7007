/** Key agreement, key derivation inputs, and the bytes that are signed. */
module Crypto {
  import opened Results
  import opened ByteStrings
  import opened Primitives
  import opened Protocol
  import opened Identity

  predicate AllZero(shared: Bytes) {
    forall i :: 0 <= i < |shared| ==> shared[i] == 0
  }

  function RejectAllZero(shared: Bytes32): Result<()> {
    if AllZero(shared) then Err(Authentication) else Ok(())
  }

  /** The check fires on the zero string and on nothing else. */
  lemma RejectAllZeroExact(shared: Bytes32)
    ensures RejectAllZero(shared) == if shared == Zeros(32) then Err(Authentication) else Ok(())
  {
    assert AllZero(shared) ==> shared == Zeros(32);
  }

  // ---------------------------------------------------------------- derivation inputs

  /** Everything that HKDF sees. */
  datatype HkdfInput = HkdfInput(salt: Bytes, material: Bytes, info: Bytes)

  function Derive(s: LawfulSuite, input: HkdfInput): Bytes32 {
    s.hkdf(input.salt, input.material, input.info)
  }

  function EndpointInfo(local: PublicProfile, peer: PublicProfile): Bytes {
    if LexLeq(KeyMaterial(local), KeyMaterial(peer))
    then CONTACT_ROOT_INFO + KeyMaterial(local) + KeyMaterial(peer)
    else CONTACT_ROOT_INFO + KeyMaterial(peer) + KeyMaterial(local)
  }

  function RootInput(shared: Bytes32, local: PublicProfile, peer: PublicProfile): HkdfInput {
    HkdfInput(CONTACT_ROOT_SALT, shared, EndpointInfo(local, peer))
  }

  function StegoInput(root: Bytes32): HkdfInput {
    HkdfInput(SUBKEY_SALT, root, STEGO_INFO)
  }

  function MessageInput(shared: Bytes32, ephemeralPublic: Bytes32, recipientPublic: Bytes32): HkdfInput {
    HkdfInput(MESSAGE_KEY_SALT, shared, MESSAGE_KEY_INFO + ephemeralPublic + recipientPublic)
  }

  function DeriveContactRootOf(s: LawfulSuite, secrets: IdentitySecrets, local: PublicProfile,
                               peer: PublicProfile): Result<Bytes32> {
    if ProfileOf(s, secrets) != local then Invalid(LocalProfileMismatch)
    else
      var shared := s.diffieHellman(secrets.agreementSecret, peer.agreementPublic);
      var _ :- RejectAllZero(shared);
      Ok(Derive(s, RootInput(shared, local, peer)))
  }

  function MessageKeySender(s: LawfulSuite, ephemeralSecret: Bytes32, ephemeralPublic: Bytes32,
                            recipientPublic: Bytes32): Result<Bytes32> {
    var shared := s.diffieHellman(ephemeralSecret, recipientPublic);
    var _ :- RejectAllZero(shared);
    Ok(Derive(s, MessageInput(shared, ephemeralPublic, recipientPublic)))
  }

  function MessageKeyRecipient(s: LawfulSuite, agreementSecret: Bytes32, ephemeralPublic: Bytes32,
                               recipientPublic: Bytes32): Result<Bytes32> {
    var shared := s.diffieHellman(agreementSecret, ephemeralPublic);
    var _ :- RejectAllZero(shared);
    Ok(Derive(s, MessageInput(shared, ephemeralPublic, recipientPublic)))
  }

  /** The info buffers as they are filled. */
  method DeriveMessageKeyFromShared(s: LawfulSuite, shared: Bytes32, ephemeralPublic: Bytes32,
                                    recipientPublic: Bytes32) returns (key: Bytes32)
    ensures key == Derive(s, MessageInput(shared, ephemeralPublic, recipientPublic))
  {
    var info := MESSAGE_KEY_INFO;
    info := info + ephemeralPublic;
    info := info + recipientPublic;
    key := s.hkdf(MESSAGE_KEY_SALT, shared, info);
  }

  method DeriveMessageKeySender(s: LawfulSuite, ephemeralSecret: Bytes32, ephemeralPublic: Bytes32,
                                recipientPublic: Bytes32) returns (r: Result<Bytes32>)
    ensures r == MessageKeySender(s, ephemeralSecret, ephemeralPublic, recipientPublic)
    ensures r.Ok? <==> s.diffieHellman(ephemeralSecret, recipientPublic) != Zeros(32)
  {
    RejectAllZeroExact(s.diffieHellman(ephemeralSecret, recipientPublic));
    var shared := s.diffieHellman(ephemeralSecret, recipientPublic);
    var _ :- RejectAllZero(shared);
    var key := DeriveMessageKeyFromShared(s, shared, ephemeralPublic, recipientPublic);
    r := Ok(key);
  }

  method DeriveMessageKeyRecipient(s: LawfulSuite, agreementSecret: Bytes32, ephemeralPublic: Bytes32,
                                   recipientPublic: Bytes32) returns (r: Result<Bytes32>)
    ensures r == MessageKeyRecipient(s, agreementSecret, ephemeralPublic, recipientPublic)
    ensures r.Ok? <==> s.diffieHellman(agreementSecret, ephemeralPublic) != Zeros(32)
  {
    RejectAllZeroExact(s.diffieHellman(agreementSecret, ephemeralPublic));
    var shared := s.diffieHellman(agreementSecret, ephemeralPublic);
    var _ :- RejectAllZero(shared);
    var key := DeriveMessageKeyFromShared(s, shared, ephemeralPublic, recipientPublic);
    r := Ok(key);
  }

  method DeriveContactRoot(s: LawfulSuite, secrets: IdentitySecrets, local: PublicProfile, peer: PublicProfile)
    returns (r: Result<Bytes32>)
    ensures r == DeriveContactRootOf(s, secrets, local, peer)
    ensures r.Ok? <==> local == ProfileOf(s, secrets)
                       && s.diffieHellman(secrets.agreementSecret, peer.agreementPublic) != Zeros(32)
  {
    RejectAllZeroExact(s.diffieHellman(secrets.agreementSecret, peer.agreementPublic));
    if ProfileOf(s, secrets) != local {
      return Invalid(LocalProfileMismatch);
    }
    var shared := s.diffieHellman(secrets.agreementSecret, peer.agreementPublic);
    var _ :- RejectAllZero(shared);
    var localMaterial := CanonicalKeyMaterial(local);
    var peerMaterial := CanonicalKeyMaterial(peer);
    var first, second := localMaterial, peerMaterial;
    if !LexLeq(localMaterial, peerMaterial) {
      first, second := peerMaterial, localMaterial;
    }
    var info := CONTACT_ROOT_INFO;
    info := info + first;
    info := info + second;
    r := Ok(s.hkdf(CONTACT_ROOT_SALT, shared, info));
  }

  /** What the two message-key derivations compute, in terms of the primitives: they are refused exactly for the
      all-zero secret, and otherwise give HKDF the agreed secret and both public keys. */
  lemma MessageKeysExact(s: LawfulSuite, secret: Bytes32, ephemeralPublic: Bytes32, recipientPublic: Bytes32)
    ensures var shared := s.diffieHellman(secret, recipientPublic);
            MessageKeySender(s, secret, ephemeralPublic, recipientPublic)
            == if shared == Zeros(32) then Err(Authentication)
               else Ok(s.hkdf(MESSAGE_KEY_SALT, shared, MESSAGE_KEY_INFO + ephemeralPublic + recipientPublic))
    ensures var shared := s.diffieHellman(secret, ephemeralPublic);
            MessageKeyRecipient(s, secret, ephemeralPublic, recipientPublic)
            == if shared == Zeros(32) then Err(Authentication)
               else Ok(s.hkdf(MESSAGE_KEY_SALT, shared, MESSAGE_KEY_INFO + ephemeralPublic + recipientPublic))
  {
    RejectAllZeroExact(s.diffieHellman(secret, recipientPublic));
    RejectAllZeroExact(s.diffieHellman(secret, ephemeralPublic));
  }

  /** The same for the contact root: the lesser key material comes first. */
  lemma ContactRootExact(s: LawfulSuite, secrets: IdentitySecrets, local: PublicProfile, peer: PublicProfile)
    ensures var shared := s.diffieHellman(secrets.agreementSecret, peer.agreementPublic);
            var mine := local.identityPublic + local.agreementPublic;
            var theirs := peer.identityPublic + peer.agreementPublic;
            var ordered := if LexLeq(mine, theirs) then mine + theirs else theirs + mine;
            DeriveContactRootOf(s, secrets, local, peer)
            == if ProfileOf(s, secrets) != local then Invalid(LocalProfileMismatch)
               else if shared == Zeros(32) then Err(Authentication)
               else Ok(s.hkdf(CONTACT_ROOT_SALT, shared, CONTACT_ROOT_INFO + ordered))
  {
    hide ProfileOf;
    RejectAllZeroExact(s.diffieHellman(secrets.agreementSecret, peer.agreementPublic));
    var mine: Bytes, theirs: Bytes := KeyMaterial(local), KeyMaterial(peer);
    assert CONTACT_ROOT_INFO + mine + theirs == CONTACT_ROOT_INFO + (mine + theirs);
    assert CONTACT_ROOT_INFO + theirs + mine == CONTACT_ROOT_INFO + (theirs + mine);
  }

  /** Both parties derive the same root, or both are refused for the same reason. */
  lemma ContactRootsAgree(s: LawfulSuite, a: IdentitySecrets, b: IdentitySecrets)
    ensures DeriveContactRootOf(s, a, ProfileOf(s, a), ProfileOf(s, b))
         == DeriveContactRootOf(s, b, ProfileOf(s, b), ProfileOf(s, a))
  {
    var pa, pb := ProfileOf(s, a), ProfileOf(s, b);
    SharedSecretAgrees(s, a.agreementSecret, b.agreementSecret);
    EndpointsUnordered(pa, pb, pb, pa);
  }

  predicate SameBothKeys(a: PublicProfile, b: PublicProfile) {
    a.identityPublic == b.identityPublic && a.agreementPublic == b.agreementPublic
  }

  /** The info string identifies the two endpoints by their keys, and nothing about their order. */
  lemma EndpointsUnordered(a: PublicProfile, b: PublicProfile, c: PublicProfile, d: PublicProfile)
    ensures EndpointInfo(a, b) == EndpointInfo(c, d) <==>
            (SameBothKeys(a, c) && SameBothKeys(b, d)) || (SameBothKeys(a, d) && SameBothKeys(b, c))
  {
    KeyMaterialInjective(a, c);
    KeyMaterialInjective(a, d);
    KeyMaterialInjective(b, c);
    KeyMaterialInjective(b, d);
    MaterialsUnordered(a, b, c, d);
  }

  lemma MaterialsUnordered(a: PublicProfile, b: PublicProfile, c: PublicProfile, d: PublicProfile)
    ensures EndpointInfo(a, b) == EndpointInfo(c, d) <==>
            || (KeyMaterial(a) == KeyMaterial(c) && KeyMaterial(b) == KeyMaterial(d))
            || (KeyMaterial(a) == KeyMaterial(d) && KeyMaterial(b) == KeyMaterial(c))
  {
    var ma, mb, mc, md := KeyMaterial(a), KeyMaterial(b), KeyMaterial(c), KeyMaterial(d);
    LexTotal(ma, mb);
    LexTotal(mc, md);
    if LexLeq(ma, mb) && LexLeq(mb, ma) {
      LexAntisymmetric(ma, mb);
    }
    if LexLeq(mc, md) && LexLeq(md, mc) {
      LexAntisymmetric(mc, md);
    }
    var first, second := if LexLeq(ma, mb) then ma else mb, if LexLeq(ma, mb) then mb else ma;
    var first', second' := if LexLeq(mc, md) then mc else md, if LexLeq(mc, md) then md else mc;
    if EndpointInfo(a, b) == EndpointInfo(c, d) {
      SplitEqual(CONTACT_ROOT_INFO + first, second, CONTACT_ROOT_INFO + first', second');
      SplitEqual(CONTACT_ROOT_INFO, first, CONTACT_ROOT_INFO, first');
    }
  }

  /** Derivations for different purposes, or for the same purpose with different inputs, never give HKDF
      the same triple. */
  lemma DerivationsAreSeparated(shared: Bytes32, local: PublicProfile, peer: PublicProfile,
                                root: Bytes32, shared': Bytes32, ephemeral: Bytes32, recipient: Bytes32)
    ensures RootInput(shared, local, peer) != StegoInput(root)
    ensures RootInput(shared, local, peer) != MessageInput(shared', ephemeral, recipient)
    ensures StegoInput(root) != MessageInput(shared', ephemeral, recipient)
  {
    assert |CONTACT_ROOT_SALT| == 30 && |SUBKEY_SALT| == 32 && |MESSAGE_KEY_SALT| == 29;
  }

  /** The derivations for a contact: the root is fed the agreed secret and the two endpoints, the steganography
      key the root. */
  lemma ContactInputsExact(shared: Bytes32, a: PublicProfile, b: PublicProfile,
                           shared': Bytes32, c: PublicProfile, d: PublicProfile)
    ensures RootInput(shared, a, b) == RootInput(shared', c, d) <==>
            && shared == shared'
            && ((SameBothKeys(a, c) && SameBothKeys(b, d)) || (SameBothKeys(a, d) && SameBothKeys(b, c)))
    ensures StegoInput(shared) == StegoInput(shared') <==> shared == shared'
  {
    hide EndpointInfo, SameBothKeys;
    EndpointsUnordered(a, b, c, d);
  }

  lemma MessageInputInjective(shared: Bytes32, e: Bytes32, r: Bytes32, shared': Bytes32, e': Bytes32, r': Bytes32)
    requires MessageInput(shared, e, r) == MessageInput(shared', e', r')
    ensures shared == shared' && e == e' && r == r'
  {
    SplitEqual(MESSAGE_KEY_INFO + e, r, MESSAGE_KEY_INFO + e', r');
    SplitEqual(MESSAGE_KEY_INFO, e, MESSAGE_KEY_INFO, e');
  }

  /** Sender and recipient derive the same message key; the all-zero check refuses both or neither. */
  lemma MessageKeysAgree(s: LawfulSuite, ephemeralSecret: Bytes32, agreementSecret: Bytes32)
    ensures var ephemeral, recipient := s.agreementPublic(ephemeralSecret), s.agreementPublic(agreementSecret);
            MessageKeySender(s, ephemeralSecret, ephemeral, recipient)
            == MessageKeyRecipient(s, agreementSecret, ephemeral, recipient)
  {
    SharedSecretAgrees(s, ephemeralSecret, agreementSecret);
  }

  // ---------------------------------------------------------------- signatures

  /** The signed fields, in the order in which the record also carries them. */
  function SignedFields(sender: PublicProfile, recipientFingerprint: Bytes32, messageId: Bytes32,
                        body: Bytes): (fields: Bytes)
    requires |body| <= U32_MAX
    ensures |fields| == 134 + |body|
  {
    [PROTOCOL_VERSION, CRYPTO_SUITE] + sender.identityPublic + sender.agreementPublic + recipientFingerprint
    + messageId + U32Be(|body|) + body
  }

  function SignatureInputOf(sender: PublicProfile, recipientFingerprint: Bytes32, messageId: Bytes32,
                            body: Bytes): Result<Bytes> {
    if |body| > U32_MAX then Invalid(BodyTooLarge)
    else Ok(SIGNATURE_DOMAIN + SignedFields(sender, recipientFingerprint, messageId, body))
  }

  method SignatureInput(sender: PublicProfile, recipientFingerprint: Bytes32, messageId: Bytes32, body: Bytes)
    returns (r: Result<Bytes>)
    ensures r == SignatureInputOf(sender, recipientFingerprint, messageId, body)
  {
    if |body| > U32_MAX {
      return Invalid(BodyTooLarge);
    }
    ghost var fields := SignedFields(sender, recipientFingerprint, messageId, body);
    var input := SIGNATURE_DOMAIN;
    input := input + [PROTOCOL_VERSION];
    input := input + [CRYPTO_SUITE];
    input := input + sender.identityPublic;
    input := input + sender.agreementPublic;
    input := input + recipientFingerprint;
    input := input + messageId;
    input := input + U32Be(|body|);
    input := input + body;
    assert input == SIGNATURE_DOMAIN + fields;
    r := Ok(input);
  }

  /** The fields can be read off the signed bytes at fixed offsets. */
  lemma SignedFieldsLayout(sender: PublicProfile, fingerprint: Bytes32, id: Bytes32, body: Bytes)
    requires |body| <= U32_MAX
    ensures var f := SignedFields(sender, fingerprint, id, body);
            && f[0] == PROTOCOL_VERSION && f[1] == CRYPTO_SUITE
            && f[2..34] == sender.identityPublic && f[34..66] == sender.agreementPublic
            && f[66..98] == fingerprint && f[98..130] == id
            && f[130..134] == U32Be(|body|) && f[134..] == body
  {
  }

  /** Equal signed bytes mean equal sender keys, recipient, message ID and body. */
  lemma SignatureInputInjective(a: PublicProfile, fa: Bytes32, ia: Bytes32, ba: Bytes,
                                b: PublicProfile, fb: Bytes32, ib: Bytes32, bb: Bytes)
    requires SignatureInputOf(a, fa, ia, ba).Ok?
    requires SignatureInputOf(a, fa, ia, ba) == SignatureInputOf(b, fb, ib, bb)
    ensures SameBothKeys(a, b) && fa == fb && ia == ib && ba == bb
  {
    SplitEqual(SIGNATURE_DOMAIN, SignedFields(a, fa, ia, ba), SIGNATURE_DOMAIN, SignedFields(b, fb, ib, bb));
    SignedFieldsLayout(a, fa, ia, ba);
    SignedFieldsLayout(b, fb, ib, bb);
  }

  function SignMessage(s: LawfulSuite, secrets: IdentitySecrets, sender: PublicProfile,
                       recipientFingerprint: Bytes32, messageId: Bytes32, body: Bytes): Result<Bytes64> {
    if ProfileOf(s, secrets) != sender then Invalid(SenderProfileMismatch)
    else
      var input :- SignatureInputOf(sender, recipientFingerprint, messageId, body);
      Ok(s.sign(secrets.identitySecret, input))
  }

  function VerifyMessageSignature(s: LawfulSuite, sender: PublicProfile, recipientFingerprint: Bytes32,
                                  messageId: Bytes32, body: Bytes, signature: Bytes64): Result<()> {
    if !s.keyDecodes(sender.identityPublic) then Err(Authentication)
    else
      var input :- SignatureInputOf(sender, recipientFingerprint, messageId, body);
      if s.verifyStrict(sender.identityPublic, input, signature) then Ok(()) else Err(Authentication)
  }

  method Sign(s: LawfulSuite, secrets: IdentitySecrets, sender: PublicProfile, recipientFingerprint: Bytes32,
              messageId: Bytes32, body: Bytes) returns (r: Result<Bytes64>)
    ensures r == SignMessage(s, secrets, sender, recipientFingerprint, messageId, body)
  {
    if ProfileOf(s, secrets) != sender {
      return Invalid(SenderProfileMismatch);
    }
    var input :- SignatureInput(sender, recipientFingerprint, messageId, body);
    r := Ok(s.sign(secrets.identitySecret, input));
  }

  method Verify(s: LawfulSuite, sender: PublicProfile, recipientFingerprint: Bytes32, messageId: Bytes32,
                body: Bytes, signature: Bytes64) returns (r: Result<()>)
    ensures r == VerifyMessageSignature(s, sender, recipientFingerprint, messageId, body, signature)
    ensures r.Ok? && |body| <= U32_MAX ==>
              s.verifyStrict(sender.identityPublic,
                             SIGNATURE_DOMAIN + SignedFields(sender, recipientFingerprint, messageId, body), signature)
  {
    if !s.keyDecodes(sender.identityPublic) {
      return Err(Authentication);
    }
    var input :- SignatureInput(sender, recipientFingerprint, messageId, body);
    r := if s.verifyStrict(sender.identityPublic, input, signature) then Ok(()) else Err(Authentication);
  }

  /** Signing and verifying, in terms of the primitives: both are about the domain and the signed fields. */
  lemma SignaturesExact(s: LawfulSuite, secrets: IdentitySecrets, sender: PublicProfile,
                        recipientFingerprint: Bytes32, messageId: Bytes32, body: Bytes, signature: Bytes64)
    requires |body| <= U32_MAX
    ensures var signed := SIGNATURE_DOMAIN + SignedFields(sender, recipientFingerprint, messageId, body);
            && (SignMessage(s, secrets, sender, recipientFingerprint, messageId, body) == Ok(signature) <==>
                  sender == ProfileOf(s, secrets) && signature == s.sign(secrets.identitySecret, signed))
            && VerifyMessageSignature(s, sender, recipientFingerprint, messageId, body, signature)
               == if s.keyDecodes(sender.identityPublic) && s.verifyStrict(sender.identityPublic, signed, signature)
                  then Ok(()) else Err(Authentication)
  {
    hide SignedFields, ProfileOf;
  }

  /** What an identity signs, anyone with its profile verifies. */
  lemma SignedVerifies(s: LawfulSuite, secrets: IdentitySecrets, sender: PublicProfile,
                       recipientFingerprint: Bytes32, messageId: Bytes32, body: Bytes)
    requires SignMessage(s, secrets, sender, recipientFingerprint, messageId, body).Ok?
    ensures VerifyMessageSignature(s, sender, recipientFingerprint, messageId, body,
              SignMessage(s, secrets, sender, recipientFingerprint, messageId, body).value).Ok?
  {
    HonestSignature(s, secrets.identitySecret, SignatureInputOf(sender, recipientFingerprint, messageId, body).value);
  }

  // ---------------------------------------------------------------- associated data

  function OuterAadOf(ephemeralPublic: Bytes32, nonce: Bytes24): Bytes {
    OUTER_AAD_DOMAIN + (ephemeralPublic + nonce)
  }

  /** Equal associated data mean equal ephemeral key and nonce. */
  lemma OuterAadInjective(e: Bytes32, n: Bytes24, e': Bytes32, n': Bytes24)
    requires OuterAadOf(e, n) == OuterAadOf(e', n')
    ensures e == e' && n == n'
  {
    SplitEqual(OUTER_AAD_DOMAIN, e + n, OUTER_AAD_DOMAIN, e' + n');
    SplitEqual(e, n, e', n');
  }

  method OuterAad(ephemeralPublic: Bytes32, nonce: Bytes24) returns (aad: Bytes)
    ensures aad == OuterAadOf(ephemeralPublic, nonce)
  {
    aad := OUTER_AAD_DOMAIN;
    aad := aad + ephemeralPublic;
    aad := aad + nonce;
  }
}
