/** The vendored cryptographic primitives, as functions about which only the laws below are known. */
module Primitives {
  import opened Results
  import opened ByteStrings

  datatype Suite = Suite(
    agreementPublic: Bytes32 -> Bytes32,            // X25519 public key of a secret
    diffieHellman: (Bytes32, Bytes32) -> Bytes32,   // own secret, peer public
    signingPublic: Bytes32 -> Bytes32,              // Ed25519 verifying key of a secret
    keyDecodes: Bytes32 -> bool,                    // VerifyingKey::from_bytes succeeds
    sign: (Bytes32, Bytes) -> Bytes64,
    verifyStrict: (Bytes32, Bytes, Bytes64) -> bool,
    encrypt: (Bytes32, Bytes24, Bytes, Bytes) -> Bytes,          // key, nonce, associated data, message
    decrypt: (Bytes32, Bytes24, Bytes, Bytes) -> Option<Bytes>,  // key, nonce, associated data, ciphertext
    hkdf: (Bytes, Bytes, Bytes) -> Bytes32,         // salt, input keying material, info
    sha256: Bytes -> Bytes32)
  {
    /** Section 6.1 of RFC 7748: both ends compute the same shared secret. */
    ghost predicate AgreementLaw() {
      forall a: Bytes32, b: Bytes32 ::
        diffieHellman(a, agreementPublic(b)) == diffieHellman(b, agreementPublic(a))
    }

    /** Section 5.1 of RFC 8032: an honest signature verifies under the honestly derived key. */
    ghost predicate SignatureLaw() {
      forall secret: Bytes32, message: Bytes ::
        && keyDecodes(signingPublic(secret))
        && verifyStrict(signingPublic(secret), message, sign(secret, message))
    }

    /** Section 2.8 of RFC 8439: a 16-byte tag, and exactly the encryptions are accepted. */
    ghost predicate AeadLaw() {
      && (forall key: Bytes32, nonce: Bytes24, aad: Bytes, message: Bytes ::
            && |encrypt(key, nonce, aad, message)| == |message| + 16
            && decrypt(key, nonce, aad, encrypt(key, nonce, aad, message)) == Some(message))
      && (forall key: Bytes32, nonce: Bytes24, aad: Bytes, ciphertext: Bytes ::
            var plain := decrypt(key, nonce, aad, ciphertext);
            plain.Some? ==> encrypt(key, nonce, aad, plain.value) == ciphertext)
    }

    ghost predicate Lawful() {
      AgreementLaw() && SignatureLaw() && AeadLaw()
    }
  }

  /** Every statement of the project about `s: LawfulSuite` holds for all primitives obeying the laws;
      the witness shows that the laws do not contradict each other. */
  type LawfulSuite = s: Suite | s.Lawful() ghost witness ToyLawful()

  // ---------------------------------------------------------------- consistency of the laws

  function ToySum(a: Bytes32, b: Bytes32): Bytes32 {
    seq<byte>(32, i requires 0 <= i < 32 => (a[i] as int + b[i] as int) % 256)
  }

  function ToyOpen(ciphertext: Bytes): Option<Bytes> {
    if |ciphertext| >= 16 && ciphertext[|ciphertext| - 16..] == Zeros(16)
    then Some(ciphertext[..|ciphertext| - 16])
    else None
  }

  function Toy(): Suite {
    Suite(
      (secret: Bytes32) => secret,
      (a: Bytes32, b: Bytes32) => ToySum(a, b),
      (secret: Bytes32) => secret,
      (key: Bytes32) => true,
      (secret: Bytes32, message: Bytes) => Zeros(64),
      (key: Bytes32, message: Bytes, signature: Bytes64) => true,
      (key: Bytes32, nonce: Bytes24, aad: Bytes, message: Bytes) => message + Zeros(16),
      (key: Bytes32, nonce: Bytes24, aad: Bytes, ciphertext: Bytes) => ToyOpen(ciphertext),
      (salt: Bytes, ikm: Bytes, info: Bytes) => Zeros(32),
      (input: Bytes) => Zeros(32))
  }

  ghost function ToyLawful(): (s: Suite)
    ensures s.Lawful()
  {
    var s := Toy();
    assert s.AgreementLaw() by {
      forall a: Bytes32, b: Bytes32
        ensures s.diffieHellman(a, s.agreementPublic(b)) == s.diffieHellman(b, s.agreementPublic(a))
      {
        assert ToySum(a, b) == ToySum(b, a);
      }
    }
    assert s.AeadLaw() by {
      forall key: Bytes32, nonce: Bytes24, aad: Bytes, message: Bytes
        ensures |s.encrypt(key, nonce, aad, message)| == |message| + 16
        ensures s.decrypt(key, nonce, aad, s.encrypt(key, nonce, aad, message)) == Some(message)
      {
        var sealed: Bytes := message + Zeros(16);
        assert sealed[|sealed| - 16..] == Zeros(16) && sealed[..|sealed| - 16] == message;
      }
      forall key: Bytes32, nonce: Bytes24, aad: Bytes, ciphertext: Bytes
        | s.decrypt(key, nonce, aad, ciphertext).Some?
        ensures s.encrypt(key, nonce, aad, s.decrypt(key, nonce, aad, ciphertext).value) == ciphertext
      {
        assert ciphertext[..|ciphertext| - 16] + ciphertext[|ciphertext| - 16..] == ciphertext;
      }
    }
    s
  }

  // ---------------------------------------------------------------- the laws, one instance at a time

  lemma SharedSecretAgrees(s: LawfulSuite, a: Bytes32, b: Bytes32)
    ensures s.diffieHellman(a, s.agreementPublic(b)) == s.diffieHellman(b, s.agreementPublic(a))
  {
    assert s.AgreementLaw();
  }

  lemma HonestSignature(s: LawfulSuite, secret: Bytes32, message: Bytes)
    ensures s.keyDecodes(s.signingPublic(secret))
    ensures s.verifyStrict(s.signingPublic(secret), message, s.sign(secret, message))
  {
    assert s.SignatureLaw();
    assert s.verifyStrict(s.signingPublic(secret), message, s.sign(secret, message));
  }

  /** Acceptance by the AEAD, both ways. */
  lemma AeadExact(s: LawfulSuite, key: Bytes32, nonce: Bytes24, aad: Bytes, message: Bytes, ciphertext: Bytes)
    ensures |s.encrypt(key, nonce, aad, message)| == |message| + 16
    ensures s.decrypt(key, nonce, aad, ciphertext) == Some(message) <==>
            ciphertext == s.encrypt(key, nonce, aad, message)
  {
    assert s.AeadLaw();
  }
}
