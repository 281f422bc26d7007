/** Length constants, domain strings, and the power-of-two padding buckets. */
module Protocol {
  import opened Results
  import opened ByteStrings

  const PROTOCOL_VERSION: byte := 1
  const CRYPTO_SUITE: byte := 1
  const PROFILE_VERSION: byte := 1

  const SIGNATURE_LEN: nat := 64
  const NONCE_LEN: nat := 24
  const EPHEMERAL_LEN: nat := 32
  const AEAD_TAG_LEN: nat := 16
  const OUTER_OVERHEAD: nat := EPHEMERAL_LEN + NONCE_LEN + AEAD_TAG_LEN
  const INTERNAL_FIXED_LEN: nat := 1 + 1 + 32 + 32 + 32 + 32 + 4 + 64

  const MIN_BLOB_LEN: nat := 512
  const MAX_BODY_LEN: nat := 1024 * 1024
  const MAX_BLOB_LEN: nat := 2 * 1024 * 1024

  const PROFILE_PREFIX: Bytes := Ascii("sealed-profile-v1")
  const UNLOCK_PREFIX: Bytes := Ascii("sealed-unlock-v1")
  const ED25519_FIELD: Bytes := Ascii("ed25519=")
  const X25519_FIELD: Bytes := Ascii("x25519=")
  const FINGERPRINT_FIELD: Bytes := Ascii("fingerprint=")

  const FINGERPRINT_DOMAIN: Bytes := Ascii("sealed/fingerprint/v1")
  const CONTACT_ROOT_SALT: Bytes := Ascii("sealed/contact-root/extract/v1")
  const CONTACT_ROOT_INFO: Bytes := Ascii("sealed/contact-root/expand/v1")
  const SUBKEY_SALT: Bytes := Ascii("sealed/contact-subkey/extract/v1")
  const STEGO_INFO: Bytes := Ascii("sealed/steganography/v1")
  const MESSAGE_KEY_SALT: Bytes := Ascii("sealed/message-key/extract/v1")
  const MESSAGE_KEY_INFO: Bytes := Ascii("sealed/message-key/expand/v1")
  const SIGNATURE_DOMAIN: Bytes := Ascii("sealed/message-signature/v1")
  const OUTER_AAD_DOMAIN: Bytes := Ascii("sealed/outer-aead/v1")
  const IDENTITY_AAD_DOMAIN: Bytes := Ascii("sealed/identity-at-rest/v1")

  /** The literals that start a line of a text file contain no line break, and their lengths. */
  lemma TextLiterals()
    ensures Printable(PROFILE_PREFIX) && |PROFILE_PREFIX| == 17
    ensures Printable(UNLOCK_PREFIX) && |UNLOCK_PREFIX| == 16
    ensures Printable(ED25519_FIELD) && |ED25519_FIELD| == 8
    ensures Printable(X25519_FIELD) && |X25519_FIELD| == 7
    ensures Printable(FINGERPRINT_FIELD) && |FINGERPRINT_FIELD| == 12
  {
  }

  // ---------------------------------------------------------------- powers of two

  predicate IsPowerOfTwo(n: nat) {
    n == 1 || (n > 1 && n % 2 == 0 && IsPowerOfTwo(n / 2))
  }

  function Pow2(k: nat): nat {
    if k == 0 then 1 else 2 * Pow2(k - 1)
  }

  lemma {:induction false} Pow2IsPower(k: nat)
    ensures IsPowerOfTwo(Pow2(k))
  {
    if k > 0 {
      Pow2IsPower(k - 1);
    }
  }

  lemma {:induction false} Logarithm(n: nat) returns (k: nat)
    requires IsPowerOfTwo(n)
    ensures n == Pow2(k)
  {
    if n == 1 {
      k := 0;
    } else {
      var half := Logarithm(n / 2);
      k := half + 1;
    }
  }

  /** `usize::is_power_of_two`, in terms of exponents. */
  lemma PowersExact(n: nat)
    ensures IsPowerOfTwo(n) <==> exists k :: n == Pow2(k)
  {
    if IsPowerOfTwo(n) {
      var k := Logarithm(n);
    }
    forall k | n == Pow2(k)
      ensures IsPowerOfTwo(n)
    {
      Pow2IsPower(k);
    }
  }

  /** The next power of two is the double. */
  lemma {:induction false} PowersAreSparse(a: nat, b: nat)
    requires IsPowerOfTwo(a) && IsPowerOfTwo(b) && a < b
    ensures 2 * a <= b
  {
    if a > 1 {
      PowersAreSparse(a / 2, b / 2);
    }
  }

  predicate ValidBlobLen(length: nat) {
    MIN_BLOB_LEN <= length <= MAX_BLOB_LEN && IsPowerOfTwo(length)
  }

  lemma {:induction false} PowersMultiply(a: nat, b: nat)
    requires IsPowerOfTwo(a) && IsPowerOfTwo(b)
    ensures IsPowerOfTwo(a * b)
  {
    if b > 1 {
      PowersMultiply(a, b / 2);
      var half := b / 2;
      assert b == 2 * half;
      assert a * b == 2 * (a * half);
    }
  }

  /** The bounds of the range are themselves powers of two. */
  lemma BlobBounds()
    ensures ValidBlobLen(MIN_BLOB_LEN) && ValidBlobLen(MAX_BLOB_LEN)
  {
    assert IsPowerOfTwo(2) && IsPowerOfTwo(4);
    PowersMultiply(4, 4);
    PowersMultiply(16, 16);
    PowersMultiply(256, 2);
    PowersMultiply(512, 4);
    PowersMultiply(2048, 256);
    PowersMultiply(524288, 4);
  }

  // ---------------------------------------------------------------- buckets

  /** `bucket` is the least valid length that can carry a body of `bodyLen` bytes. */
  ghost predicate LeastBucket(bodyLen: nat, bucket: nat) {
    && ValidBlobLen(bucket)
    && INTERNAL_FIXED_LEN + OUTER_OVERHEAD + bodyLen <= bucket
    && forall other :: ValidBlobLen(other) && INTERNAL_FIXED_LEN + OUTER_OVERHEAD + bodyLen <= other ==> bucket <= other
  }

  /** Doubling `bucket` until it reaches `required`. */
  function Doubled(bucket: nat, required: nat): (r: nat)
    requires bucket > 0
    decreases required - bucket
  {
    if bucket < required then Doubled(2 * bucket, required) else bucket
  }

  function PaddedBlobLenOf(bodyLen: nat): Option<nat> {
    if bodyLen > MAX_BODY_LEN then None
    else Some(Doubled(MIN_BLOB_LEN, INTERNAL_FIXED_LEN + OUTER_OVERHEAD + bodyLen))
  }

  lemma {:induction false} DoubledIsLeast(bucket: nat, required: nat)
    requires MIN_BLOB_LEN <= bucket <= MAX_BLOB_LEN && IsPowerOfTwo(bucket)
    requires required <= MAX_BLOB_LEN
    ensures var r := Doubled(bucket, required);
            ValidBlobLen(r) && required <= r && bucket <= r
            && forall other :: ValidBlobLen(other) && bucket <= other && required <= other ==> r <= other
    decreases required - bucket
  {
    if bucket < required {
      BlobBounds();
      PowersAreSparse(bucket, MAX_BLOB_LEN);
      assert IsPowerOfTwo(2 * bucket);
      DoubledIsLeast(2 * bucket, required);
      forall other | ValidBlobLen(other) && bucket <= other && required <= other
        ensures Doubled(bucket, required) <= other
      {
        PowersAreSparse(bucket, other);
      }
    }
  }

  /** The bucket exists exactly for admissible bodies, and is then the least fitting valid length. */
  lemma PaddedLenExact(bodyLen: nat)
    ensures PaddedBlobLenOf(bodyLen).None? <==> bodyLen > MAX_BODY_LEN
    ensures bodyLen <= MAX_BODY_LEN ==> LeastBucket(bodyLen, PaddedBlobLenOf(bodyLen).value)
  {
    BlobBounds();
    if bodyLen <= MAX_BODY_LEN {
      DoubledIsLeast(MIN_BLOB_LEN, INTERNAL_FIXED_LEN + OUTER_OVERHEAD + bodyLen);
    }
  }

  /** The same in the numbers of the protocol: 270 bytes around a body of at most 1 MiB, in the one power of
      two from 512 up that fits and is either 512 or less than twice as long as needed. */
  lemma BucketNumbers(bodyLen: nat, bucket: nat)
    ensures PaddedBlobLenOf(bodyLen) == Some(bucket) <==>
            && bodyLen <= 1_048_576 && 270 + bodyLen <= bucket
            && 512 <= bucket && (bucket == 512 || bucket < 2 * (270 + bodyLen))
            && IsPowerOfTwo(bucket)
    ensures ValidBlobLen(bucket) <==> 512 <= bucket <= 2_097_152 && IsPowerOfTwo(bucket)
  {
    PaddedLenExact(bodyLen);
    BlobBounds();
    if bodyLen <= MAX_BODY_LEN {
      var least := PaddedBlobLenOf(bodyLen).value;
      if least > 512 {
        PowersAreSparse(512, least);
        assert ValidBlobLen(least / 2);
        assert least / 2 < 270 + bodyLen;
      }
      if IsPowerOfTwo(bucket) && bucket > least {
        PowersAreSparse(least, bucket);
      } else if IsPowerOfTwo(bucket) && bucket < least {
        PowersAreSparse(bucket, least);
      }
    }
  }

  lemma PaddedLenMonotone(small: nat, large: nat)
    requires small <= large <= MAX_BODY_LEN
    ensures PaddedBlobLenOf(small).value <= PaddedBlobLenOf(large).value
  {
    PaddedLenExact(small);
    PaddedLenExact(large);
  }

  /** Every valid length is the bucket of some body, and no other length is. */
  lemma BucketsAreTheValidLengths(length: nat)
    ensures ValidBlobLen(length) <==> exists n: nat :: n <= MAX_BODY_LEN && PaddedBlobLenOf(n) == Some(length)
  {
    forall n: nat | n <= MAX_BODY_LEN && PaddedBlobLenOf(n) == Some(length)
      ensures ValidBlobLen(length)
    {
      PaddedLenExact(n);
    }
    if ValidBlobLen(length) {
      BlobBounds();
      if length > MIN_BLOB_LEN {
        PowersAreSparse(MIN_BLOB_LEN, length);
      }
      var n: nat := if length == MIN_BLOB_LEN then 0 else length / 2 + 1 - INTERNAL_FIXED_LEN - OUTER_OVERHEAD;
      PaddedLenExact(n);
      var bucket := PaddedBlobLenOf(n).value;
      if bucket < length {
        PowersAreSparse(bucket, length);
      }
      assert PaddedBlobLenOf(n) == Some(length);
    }
  }

  /** Strictly between half and double a valid length there is no other valid length. */
  lemma NoOtherLengthNearby(length: nat, other: nat)
    requires ValidBlobLen(length) && ValidBlobLen(other)
    requires length < 2 * other && other < 2 * length
    ensures other == length
  {
    if other < length {
      PowersAreSparse(other, length);
    } else if length < other {
      PowersAreSparse(length, other);
    }
  }

  lemma {:induction false} DivisorsOfPowers(whole: nat, part: nat)
    requires IsPowerOfTwo(whole) && part > 0 && whole % part == 0
    ensures IsPowerOfTwo(part) && IsPowerOfTwo(whole / part)
  {
    var times := whole / part;
    assert whole == part * times;
    if whole > 1 {
      if part % 2 == 0 {
        assert whole / 2 == (part / 2) * times;
        QuotientExact(whole / 2, part / 2, times);
        DivisorsOfPowers(whole / 2, part / 2);
      } else {
        OddFactor(part, times);
        assert whole / 2 == part * (times / 2);
        QuotientExact(whole / 2, part, times / 2);
        DivisorsOfPowers(whole / 2, part);
        assert times > 0;
      }
    }
  }

  /** A multiple of `part` that lies within one `part` of zero is zero. */
  lemma SmallMultiple(part: int, factor: int)
    requires -part < part * factor < part
    ensures factor == 0
  {
    if factor >= 1 {
      MultiplyMonotone(part, 1, factor);
    } else if factor <= -1 {
      MultiplyMonotone(part, factor, -1);
    }
  }

  lemma MultiplyMonotone(part: int, a: int, b: int)
    requires 0 <= part && a <= b
    ensures part * a <= part * b
  {
    assert part * b - part * a == part * (b - a);
  }

  lemma QuotientExact(whole: nat, part: nat, times: nat)
    requires part > 0 && whole == part * times
    ensures whole % part == 0 && whole / part == times
  {
    var quotient, rest := whole / part, whole % part;
    assert whole == part * quotient + rest;
    assert part * (times - quotient) == rest;
    SmallMultiple(part, times - quotient);
  }

  lemma OddFactor(odd: nat, times: nat)
    requires odd % 2 == 1 && (odd * times) % 2 == 0
    ensures times % 2 == 0
  {
    var half := odd / 2;
    assert odd == 2 * half + 1;
    assert odd * times == 2 * (half * times) + times;
  }

  /** Exactly when appended bytes leave a valid length. */
  lemma AppendedLengthValid(length: nat, longer: nat)
    requires ValidBlobLen(length) && length < longer
    ensures ValidBlobLen(longer) <==>
            longer <= MAX_BLOB_LEN && longer % length == 0 && IsPowerOfTwo(longer / length)
  {
    if ValidBlobLen(longer) {
      PowersDivide(length, longer);
      DivisorsOfPowers(longer, length);
    } else if longer % length == 0 && IsPowerOfTwo(longer / length) {
      PowersMultiply(length, longer / length);
      assert length * (longer / length) == longer;
    }
  }

  /** Exactly when truncation leaves a valid length. */
  lemma TruncatedLengthValid(length: nat, shorter: nat)
    requires ValidBlobLen(length) && 0 < shorter < length
    ensures ValidBlobLen(shorter) <==> MIN_BLOB_LEN <= shorter && length % shorter == 0
  {
    if ValidBlobLen(shorter) {
      PowersDivide(shorter, length);
    } else if length % shorter == 0 {
      DivisorsOfPowers(length, shorter);
    }
  }

  lemma {:induction false} PowersDivide(small: nat, large: nat)
    requires IsPowerOfTwo(small) && IsPowerOfTwo(large) && small <= large
    ensures large % small == 0
  {
    if small > 1 {
      PowersDivide(small / 2, large / 2);
      var times := (large / 2) / (small / 2);
      assert large / 2 == small / 2 * times;
      assert large == small * times;
      QuotientExact(large, small, times);
    }
  }

  // ---------------------------------------------------------------- the loop

  function CheckedAdd(a: nat, b: nat): Option<nat> {
    if a + b <= USIZE_MAX then Some(a + b) else None
  }

  function CheckedMul(a: nat, b: nat): Option<nat> {
    if a * b <= USIZE_MAX then Some(a * b) else None
  }

  /** The loop computes the least bucket; none of the overflow exits nor the final bound test can
      refuse an admissible body. */
  method PaddedBlobLen(bodyLen: nat) returns (r: Option<nat>)
    ensures r == PaddedBlobLenOf(bodyLen)
    ensures r.None? <==> bodyLen > MAX_BODY_LEN
    ensures r.Some? ==> LeastBucket(bodyLen, r.value)
  {
    PaddedLenExact(bodyLen);
    if bodyLen > MAX_BODY_LEN {
      return None;
    }
    var partial := CheckedAdd(INTERNAL_FIXED_LEN, bodyLen);
    if partial.None? {
      return None;
    }
    var sum := CheckedAdd(partial.value, OUTER_OVERHEAD);
    if sum.None? {
      return None;
    }
    var required := sum.value;
    var bucket := MIN_BLOB_LEN;
    while bucket < required
      invariant MIN_BLOB_LEN <= bucket && bucket < 2 * (required + MIN_BLOB_LEN)
      invariant Doubled(bucket, required) == Doubled(MIN_BLOB_LEN, required)
      decreases required - bucket
    {
      var next := CheckedMul(bucket, 2);
      if next.None? {
        return None;
      }
      bucket := next.value;
    }
    if bucket > MAX_BLOB_LEN {
      return None;
    }
    r := Some(bucket);
  }
}
