/** Contacts, their names, and the file names that carry them. */
module Contacts {
  import opened Results
  import opened ByteStrings
  import opened Identity

  datatype Contact = Contact(alias: Bytes, profile: PublicProfile)

  predicate AliasByte(b: byte) {
    48 <= b <= 57 || 65 <= b <= 90 || 97 <= b <= 122 || b == 45 || b == 95
  }

  predicate ValidateAlias(alias: Bytes) {
    alias != [] && |alias| <= 64 && forall i :: 0 <= i < |alias| ==> AliasByte(alias[i])
  }

  const DIGITS: Bytes := Ascii("0123456789")
  const UPPER_CASE: Bytes := Ascii("ABCDEFGHIJKLMNOPQRSTUVWXYZ")
  const LOWER_CASE: Bytes := Ascii("abcdefghijklmnopqrstuvwxyz")

  predicate Consecutive(text: Bytes, first: byte) {
    forall i :: 0 <= i < |text| ==> text[i] == first as int + i
  }

  lemma AlphabetsAreConsecutive()
    ensures Consecutive(DIGITS, 48) && |DIGITS| == 10
    ensures Consecutive(UPPER_CASE, 65) && |UPPER_CASE| == 26
    ensures Consecutive(LOWER_CASE, 97) && |LOWER_CASE| == 26
  {
  }

  lemma InConsecutive(text: Bytes, first: byte, b: byte)
    requires Consecutive(text, first)
    ensures b in text <==> first as int <= b as int < first as int + |text|
  {
    if first as int <= b as int < first as int + |text| {
      assert text[b - first] == b;
    }
  }

  /** One to 64 letters, digits, dashes and underscores: neither a dot nor a path separator among them. */
  lemma ValidateAliasExact(alias: Bytes)
    ensures ValidateAlias(alias) <==>
            && 1 <= |alias| <= 64
            && forall b :: b in alias ==>
                 b in DIGITS || b in UPPER_CASE || b in LOWER_CASE || b == DASH || b == UNDERSCORE
    ensures ValidateAlias(alias) ==> DOT !in alias && 47 !in alias && 92 !in alias && 0 !in alias
  {
    AlphabetsAreConsecutive();
    forall b: byte
      ensures AliasByte(b) <==> b in DIGITS || b in UPPER_CASE || b in LOWER_CASE || b == DASH || b == UNDERSCORE
    {
      InConsecutive(DIGITS, 48, b);
      InConsecutive(UPPER_CASE, 65, b);
      InConsecutive(LOWER_CASE, 97, b);
    }
  }

  // ---------------------------------------------------------------- file names

  const CONTACT_EXTENSION: Bytes := Ascii("contact")

  function ContactFileName(alias: Bytes): Bytes {
    alias + [DOT] + CONTACT_EXTENSION
  }

  /** Position of the last dot, or the length when there is none. */
  function LastDot(name: Bytes): (i: nat)
    ensures i <= |name|
    ensures i < |name| ==> name[i] == DOT && forall k :: i < k < |name| ==> name[k] != DOT
    ensures i == |name| ==> DOT !in name
  {
    if name == [] then 0
    else if name[|name| - 1] == DOT then |name| - 1
    else
      var i := LastDot(name[..|name| - 1]);
      if i == |name| - 1 then |name| else i
  }

  /** Rust splits a file name at its last dot, unless that dot comes first or the name is `..`. */
  predicate SplitsAtDot(name: Bytes) {
    name != [DOT, DOT] && 0 < LastDot(name) < |name|
  }

  /** `Path::file_stem` of a path that ends in `name`. */
  function FileStem(name: Bytes): Bytes {
    if SplitsAtDot(name) then name[..LastDot(name)] else name
  }

  /** `Path::extension` of a path that ends in `name`. */
  function Extension(name: Bytes): Option<Bytes> {
    if SplitsAtDot(name) then Some(name[LastDot(name) + 1..]) else None
  }

  /** A name has an extension exactly when a dot splits it, with something in front of the dot and no dot behind
      it; the stem is what stands in front, and the whole name when there is no extension. */
  lemma FileNameSplits(name: Bytes, stem: Bytes, extension: Bytes)
    ensures Extension(name) == Some(extension) && FileStem(name) == stem <==>
            name == stem + [DOT] + extension && stem != [] && DOT !in extension && name != [DOT, DOT]
    ensures Extension(name) == None ==> FileStem(name) == name
  {
    if name == stem + [DOT] + extension && stem != [] && DOT !in extension && name != [DOT, DOT] {
      assert name[|stem|] == DOT && name[|stem| + 1..] == extension && name[..|stem|] == stem;
      forall k | |stem| < k < |name|
        ensures name[k] != DOT
      {
        assert name[k] == extension[k - |stem| - 1];
      }
    }
    if SplitsAtDot(name) {
      var i := LastDot(name);
      assert name == name[..i] + [DOT] + name[i + 1..];
    }
  }

  /** A directory entry that `all_contacts` looks at. */
  predicate IsContactName(name: Bytes) {
    Extension(name) == Some(CONTACT_EXTENSION)
  }

  /** Names and aliases determine each other. */
  lemma AliasNameBijection(alias: Bytes, name: Bytes)
    requires ValidateAlias(alias)
    ensures name == ContactFileName(alias) <==> IsContactName(name) && FileStem(name) == alias
  {
    if name == ContactFileName(alias) {
      assert name[|alias|] == DOT;
      assert name[|alias| + 1..] == CONTACT_EXTENSION;
      forall k | |alias| < k < |name|
        ensures name[k] != DOT
      {
        assert name[k] == CONTACT_EXTENSION[k - |alias| - 1];
      }
      assert LastDot(name) == |alias|;
      assert name[..|alias|] == alias;
    }
    if IsContactName(name) && FileStem(name) == alias {
      var i := LastDot(name);
      assert name == name[..i] + [name[i]] + name[i + 1..];
    }
  }

  lemma ContactFileNameInjective(a: Bytes, b: Bytes)
    requires ContactFileName(a) == ContactFileName(b)
    ensures a == b
  {
    assert |a| == |b|;
    assert ContactFileName(a)[..|a|] == a && ContactFileName(b)[..|b|] == b;
  }

  /** The order of file names is not the order of aliases: `a-b` is listed in front of `a`. */
  lemma FileNameOrderIsNotAliasOrder()
    ensures var a, ab := [97], [97, DASH, 98];
            && ValidateAlias(a) && ValidateAlias(ab)
            && LexLeq(a, ab) && !LexLeq(ab, a)
            && LexLeq(ContactFileName(ab), ContactFileName(a)) && !LexLeq(ContactFileName(a), ContactFileName(ab))
  {
    var na, nab := ContactFileName([97]), ContactFileName([97, DASH, 98]);
    assert na[0] == nab[0] && na[1..][0] == DOT && nab[1..][0] == DASH;
  }
}
