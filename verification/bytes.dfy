/** Byte strings, their big-endian numbers, and the byte-lexicographic order. */
module ByteStrings {

  type byte = b: int | 0 <= b < 256

  type Bytes = seq<byte>

  type Bytes24 = b: Bytes | |b| == 24 witness Zeros(24)
  type Bytes32 = b: Bytes | |b| == 32 witness Zeros(32)
  type Bytes64 = b: Bytes | |b| == 64 witness Zeros(64)

  const LF: byte := 10
  const CR: byte := 13
  const DASH: byte := 45
  const DOT: byte := 46
  const UNDERSCORE: byte := 95

  const USIZE_MAX: nat := 0xFFFF_FFFF_FFFF_FFFF
  const ISIZE_MAX: nat := 0x7FFF_FFFF_FFFF_FFFF
  const U32_MAX: nat := 0xFFFF_FFFF

  function Zeros(n: nat): (z: Bytes)
    ensures |z| == n
    ensures forall i :: 0 <= i < n ==> z[i] == 0
  {
    seq<byte>(n, _ => 0)
  }

  predicate IsAscii(text: string) {
    forall i :: 0 <= i < |text| ==> text[i] as int < 128
  }

  /** The bytes of a literal. */
  function Ascii(text: string): (b: Bytes)
    requires IsAscii(text)
    ensures |b| == |text|
    ensures forall i :: 0 <= i < |b| ==> b[i] == text[i] as int
  {
    seq<byte>(|text|, i requires 0 <= i < |text| => text[i] as int)
  }

  /** Visible ASCII only: in particular neither line feed nor carriage return. */
  predicate Printable(b: Bytes) {
    forall i :: 0 <= i < |b| ==> 33 <= b[i] <= 126
  }

  function Min(a: int, b: int): int {
    if a <= b then a else b
  }

  function Max(a: int, b: int): int {
    if a <= b then b else a
  }

  /** `usize::saturating_sub`. */
  function SaturatingSub(a: nat, b: nat): nat {
    if a <= b then 0 else a - b
  }

  // ---------------------------------------------------------------- numbers

  function U32Be(n: nat): (b: Bytes)
    requires n <= U32_MAX
    ensures |b| == 4
  {
    [n / 0x100_0000, (n / 0x1_0000) % 0x100, (n / 0x100) % 0x100, n % 0x100]
  }

  function FromU32Be(b: Bytes): (n: nat)
    requires |b| == 4
    ensures n <= U32_MAX
  {
    ((b[0] as int * 0x100 + b[1] as int) * 0x100 + b[2] as int) * 0x100 + b[3] as int
  }

  lemma U32RoundTrip(n: nat)
    requires n <= U32_MAX
    ensures FromU32Be(U32Be(n)) == n
  {
    assert n / 0x1_0000 == (n / 0x100) / 0x100;
    assert n / 0x100_0000 == (n / 0x1_0000) / 0x100;
  }

  lemma U32Unique(b: Bytes)
    requires |b| == 4
    ensures U32Be(FromU32Be(b)) == b
  {
    var high: int := b[0] as int * 0x100 + b[1] as int;
    var upper: int := high * 0x100 + b[2] as int;
    assert FromU32Be(b) == upper * 0x100 + b[3] as int;
    assert FromU32Be(b) / 0x100 == upper && FromU32Be(b) % 0x100 == b[3];
    assert upper / 0x100 == high && upper % 0x100 == b[2];
    assert FromU32Be(b) / 0x1_0000 == high;
    assert FromU32Be(b) / 0x100_0000 == b[0];
  }

  // ---------------------------------------------------------------- order

  /** The order of byte slices: the first difference decides, a prefix comes first. */
  predicate LexLeq(a: Bytes, b: Bytes) {
    if a == [] then true
    else if b == [] then false
    else if a[0] != b[0] then a[0] < b[0]
    else LexLeq(a[1..], b[1..])
  }

  lemma {:induction false} LexTotal(a: Bytes, b: Bytes)
    ensures LexLeq(a, b) || LexLeq(b, a)
  {
    if a != [] && b != [] && a[0] == b[0] {
      LexTotal(a[1..], b[1..]);
    }
  }

  lemma {:induction false} LexAntisymmetric(a: Bytes, b: Bytes)
    requires LexLeq(a, b) && LexLeq(b, a)
    ensures a == b
  {
    if a != [] && b != [] {
      LexAntisymmetric(a[1..], b[1..]);
      assert a == [a[0]] + a[1..] && b == [b[0]] + b[1..];
    }
  }

  lemma {:induction false} LexTransitive(a: Bytes, b: Bytes, c: Bytes)
    requires LexLeq(a, b) && LexLeq(b, c)
    ensures LexLeq(a, c)
  {
    if a != [] && a[0] == b[0] && b[0] == c[0] {
      LexTransitive(a[1..], b[1..], c[1..]);
    }
  }

  /** `a` and `b` differ first at `k`, where `a` has the lesser byte. */
  ghost predicate LessAt(a: Bytes, b: Bytes, k: nat) {
    k < |a| && k < |b| && a[..k] == b[..k] && a[k] < b[k]
  }

  lemma SamePrefix(a: Bytes, b: Bytes, k: nat)
    requires k <= |a| && k <= |b| && a[..k] == b[..k]
    ensures forall i :: 0 <= i < k ==> a[i] == b[i]
  {
    assert forall i :: 0 <= i < k ==> a[i] == a[..k][i] && b[i] == b[..k][i];
  }

  /** The order in the words of the language reference: a prefix comes first, else the first difference decides. */
  lemma {:induction false} LexExact(a: Bytes, b: Bytes)
    ensures LexLeq(a, b) <==> a <= b || exists k: nat :: LessAt(a, b, k)
  {
    if a != [] && b != [] {
      if a[0] == b[0] {
        LexExact(a[1..], b[1..]);
        assert a == [a[0]] + a[1..] && b == [b[0]] + b[1..];
        forall k: nat | LessAt(a[1..], b[1..], k)
          ensures LessAt(a, b, k + 1)
        {
          assert a[..k + 1] == [a[0]] + a[1..][..k] && b[..k + 1] == [b[0]] + b[1..][..k];
        }
        forall k: nat | LessAt(a, b, k)
          ensures k > 0 && LessAt(a[1..], b[1..], k - 1)
        {
          assert a[1..][..k - 1] == a[..k][1..] && b[1..][..k - 1] == b[..k][1..];
        }
      } else {
        assert a[0] < b[0] ==> LessAt(a, b, 0);
        forall k: nat | LessAt(a, b, k)
          ensures k > 0 ==> a[0] == b[0]
        {
          SamePrefix(a, b, k);
        }
      }
    }
  }

  /** Big-endian numbers are ordered as their bytes are. */
  lemma U32BigEndian(m: nat, n: nat)
    requires m < n <= U32_MAX
    ensures LexLeq(U32Be(m), U32Be(n))
  {
    var a, b := U32Be(m), U32Be(n);
    U32RoundTrip(m);
    U32RoundTrip(n);
    LexExact(a, b);
    if a[0] != b[0] {
      assert LessAt(a, b, 0);
    } else if a[1] != b[1] {
      assert LessAt(a, b, 1);
    } else if a[2] != b[2] {
      assert LessAt(a, b, 2);
    } else {
      assert LessAt(a, b, 3);
    }
  }

  // ---------------------------------------------------------------- concatenation

  /** Concatenations whose left parts have equal lengths agree part by part. */
  lemma SplitEqual(a: Bytes, b: Bytes, c: Bytes, d: Bytes)
    requires a + b == c + d
    requires |a| == |c|
    ensures a == c && b == d
  {
    assert a == (a + b)[..|a|] && c == (c + d)[..|c|];
    assert b == (a + b)[|a|..] && d == (c + d)[|c|..];
  }
}
