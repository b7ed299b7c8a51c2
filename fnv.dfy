/**
 * The default hash and equality callbacks of base.h: 64-bit FNV-1a over C
 * strings and over byte buffers, and C-string equality.
 *
 * A `const char *` key is Option<seq<bv8>>: None for NULL, otherwise the
 * bytes readable from the pointer. Both the hash and the comparison stop at
 * the first NUL (or at the end of the readable bytes, which stands in for
 * it). u64 arithmetic is bv64 arithmetic, so the multiplication wraps.
 */
module Fnv {
  import opened Wrappers
  import Probing

  const FNV_OFFSET_BASIS: bv64 := 0xCBF2_9CE4_8422_2325
  const FNV_PRIME: bv64 := 0x0000_0100_0000_01B3

  /** One FNV-1a round: xor the octet in, then multiply by the prime modulo 2^64. */
  function Step(h: bv64, octet: bv64): bv64
  {
    (h ^ octet) * FNV_PRIME
  }

  /** The rounds of base_hash_bytes over s, from hash value h. */
  function FoldBytes(h: bv64, s: seq<bv8>): bv64
    decreases |s|
  {
    if s == [] then h else FoldBytes(Step(h, s[0] as bv64), s[1..])
  }

  /** base_hash_bytes: FNV-1a over `len` bytes. */
  function HashBytes(s: seq<bv8>): (r: bv64)
    ensures s == [] ==> r == FNV_OFFSET_BASIS
  {
    FoldBytes(FNV_OFFSET_BASIS, s)
  }

  /** Hashing one more byte is one more round on the hash so far: the defining recurrence of FNV-1a. */
  lemma {:induction false} FoldBytesAppend(h: bv64, s: seq<bv8>, b: bv8)
    ensures FoldBytes(h, s + [b]) == Step(FoldBytes(h, s), b as bv64)
    decreases |s|
  {
    if s != [] {
      FoldBytesAppend(Step(h, s[0] as bv64), s[1..], b);
      FoldBytesAppendStep(h, s, b);
    } else {
      FoldBytesSingle(h, s + [b]);
      assert FoldBytes(h, s) == h;
    }
  }

  /** One round of the induction behind FoldBytesAppend: from the tail to the whole sequence. */
  lemma FoldBytesAppendStep(h: bv64, s: seq<bv8>, b: bv8)
    requires s != []
    requires FoldBytes(Step(h, s[0] as bv64), s[1..] + [b]) == Step(FoldBytes(Step(h, s[0] as bv64), s[1..]), b as bv64)
    ensures FoldBytes(h, s + [b]) == Step(FoldBytes(h, s), b as bv64)
  {
    var t := s + [b];
    assert t[0] == s[0] && t[1..] == s[1..] + [b];
    assert FoldBytes(h, t) == FoldBytes(Step(h, s[0] as bv64), s[1..] + [b]);
  }

  /** Over one byte, the fold is a single round. */
  lemma FoldBytesSingle(h: bv64, s: seq<bv8>)
    requires |s| == 1
    ensures FoldBytes(h, s) == Step(h, s[0] as bv64)
  {
    assert s[1..] == [];
  }

  lemma HashBytesAppend(s: seq<bv8>, b: bv8)
    ensures HashBytes(s + [b]) == Step(HashBytes(s), b as bv64)
  {
    FoldBytesAppend(FNV_OFFSET_BASIS, s, b);
  }

  /** The C string at a pointer: the bytes before the first NUL. */
  function CText(m: seq<bv8>): (r: seq<bv8>)
    ensures |r| <= |m| && r == m[..|r|]
    ensures forall k :: 0 <= k < |r| ==> r[k] != 0
    ensures |r| < |m| ==> m[|r|] == 0
  {
    if m == [] || m[0] == 0 then [] else [m[0]] + CText(m[1..])
  }

  /**
   * `(u64)(*p)` for a plain `char` on a platform where char is signed: a byte
   * of 0x80 or more is sign-extended, filling the upper 56 bits with ones.
   */
  function SignExtend(b: bv8): (r: bv64)
    ensures b < 0x80 ==> r == b as bv64
    ensures b >= 0x80 ==> r != b as bv64
  {
    if b < 0x80 then b as bv64 else (b as bv64) | 0xFFFF_FFFF_FFFF_FF00
  }

  /** The loop of base_hash_string as written, with sign-extended chars. */
  function FoldSigned(h: bv64, m: seq<bv8>): bv64
    decreases |m|
  {
    if m == [] || m[0] == 0 then h else FoldSigned(Step(h, SignExtend(m[0])), m[1..])
  }

  /** base_hash_string as written (signed char): NULL hashes to the offset basis. */
  function HashStringAsWritten(key: Option<seq<bv8>>): (r: bv64)
    ensures key.None? ==> r == FNV_OFFSET_BASIS
  {
    if key.None? then FNV_OFFSET_BASIS else FoldSigned(FNV_OFFSET_BASIS, key.value)
  }

  /** The loop of base_hash_string as intended: each char read as an unsigned byte. */
  function FoldUnsigned(h: bv64, m: seq<bv8>): bv64
    decreases |m|
  {
    if m == [] || m[0] == 0 then h else FoldUnsigned(Step(h, m[0] as bv64), m[1..])
  }

  /** base_hash_string as intended: FNV-1a of the string's bytes. */
  function HashString(key: Option<seq<bv8>>): (r: bv64)
    ensures key.None? ==> r == FNV_OFFSET_BASIS
  {
    if key.None? then FNV_OFFSET_BASIS else FoldUnsigned(FNV_OFFSET_BASIS, key.value)
  }

  lemma {:induction false} FoldUnsignedIsFoldBytes(h: bv64, m: seq<bv8>)
    ensures FoldUnsigned(h, m) == FoldBytes(h, CText(m))
    decreases |m|
  {
    if m != [] && m[0] != 0 {
      FoldUnsignedIsFoldBytes(Step(h, m[0] as bv64), m[1..]);
      assert ([m[0]] + CText(m[1..]))[1..] == CText(m[1..]);
    }
  }

  /** The intended string hash is base_hash_bytes over the string's bytes. */
  lemma HashStringIsHashBytes(m: seq<bv8>)
    ensures HashString(Some(m)) == HashBytes(CText(m))
  {
    FoldUnsignedIsFoldBytes(FNV_OFFSET_BASIS, m);
  }

  lemma {:induction false} FoldSignedAscii(h: bv64, m: seq<bv8>)
    requires forall k :: 0 <= k < |m| ==> m[k] < 0x80
    ensures FoldSigned(h, m) == FoldUnsigned(h, m)
    decreases |m|
  {
    if m != [] && m[0] != 0 {
      FoldSignedAscii(Step(h, m[0] as bv64), m[1..]);
    }
  }

  /** On 7-bit ASCII strings the source's hash and the intended one agree. */
  lemma AsWrittenAgreesOnAscii(key: Option<seq<bv8>>)
    requires key.Some? ==> forall k :: 0 <= k < |key.value| ==> key.value[k] < 0x80
    ensures HashStringAsWritten(key) == HashString(key)
  {
    if key.Some? {
      FoldSignedAscii(FNV_OFFSET_BASIS, key.value);
    }
  }

  /**
   * The one-byte string "\x80" hashes differently under the source's loop
   * (signed char) than under FNV-1a, i.e. than base_hash_bytes of the same byte.
   */
  lemma AsWrittenSignExtends()
    ensures HashStringAsWritten(Some([0x80])) != HashString(Some([0x80]))
    ensures HashString(Some([0x80])) == HashBytes([0x80])
  {
    var lo: bv64 := FNV_OFFSET_BASIS ^ 0x80;
    var hi: bv64 := FNV_OFFSET_BASIS ^ 0xFFFF_FFFF_FFFF_FF80;
    assert HashString(Some([0x80])) == lo * FNV_PRIME;
    assert HashStringAsWritten(Some([0x80])) == hi * FNV_PRIME;
    assert lo * FNV_PRIME == 0xAF64_3D4C_8602_915F;
    assert hi * FNV_PRIME == 0x509C_0CB3_79FD_EC5F;
    HashStringIsHashBytes([0x80]);
    assert CText([0x80]) == [0x80];
  }

  /** strcmp(a, b) == 0: byte by byte up to the NUL. */
  function StrEqual(a: seq<bv8>, b: seq<bv8>): (r: bool)
    ensures r <==> CText(a) == CText(b)
  {
    var aEnd := a == [] || a[0] == 0;
    var bEnd := b == [] || b[0] == 0;
    if aEnd || bEnd then aEnd && bEnd
    else a[0] == b[0] && StrEqual(a[1..], b[1..])
  }

  /**
   * base_key_equal_string: the same pointer, or two non-NULL strings with the
   * same bytes; NULL equals only NULL.
   */
  function KeyEqualString(a: Option<seq<bv8>>, b: Option<seq<bv8>>): (r: bool)
    ensures r <==> (a.None? && b.None?) || (a.Some? && b.Some? && CText(a.value) == CText(b.value))
  {
    if a == b then true
    else if a.None? || b.None? then false
    else StrEqual(a.value, b.value)
  }

  /** The string hash only looks at the bytes before the NUL. */
  lemma HashStringOfText(m: seq<bv8>, n: seq<bv8>)
    requires CText(m) == CText(n)
    ensures HashString(Some(m)) == HashString(Some(n))
  {
    HashStringIsHashBytes(m);
    HashStringIsHashBytes(n);
  }

  /**
   * base_hash_string with base_key_equal_string meets what the hash table
   * demands of its callbacks: an equivalence under which equal keys hash equally.
   */
  lemma StringCallbacksCoherent()
    ensures Probing.Coherent((k: Option<seq<bv8>>) => HashString(k) as nat, KeyEqualString)
  {
    forall a: Option<seq<bv8>>, b: Option<seq<bv8>> | KeyEqualString(a, b)
      ensures HashString(a) == HashString(b)
    {
      if a.Some? {
        HashStringOfText(a.value, b.value);
      }
    }
  }

  /** The hash as written also looks only at the bytes before the NUL. */
  lemma {:induction false} FoldSignedOfText(h: bv64, m: seq<bv8>, n: seq<bv8>)
    requires CText(m) == CText(n)
    ensures FoldSigned(h, m) == FoldSigned(h, n)
    decreases |m|
  {
    var mEnd := m == [] || m[0] == 0;
    var nEnd := n == [] || n[0] == 0;
    if !mEnd {
      assert CText(m) == [m[0]] + CText(m[1..]);
    }
    if !nEnd {
      assert CText(n) == [n[0]] + CText(n[1..]);
    }
    if !mEnd && !nEnd {
      assert m[0] == n[0] && CText(m[1..]) == CText(n[1..]);
      FoldSignedOfText(Step(h, SignExtend(m[0])), m[1..], n[1..]);
    }
  }

  /**
   * The callbacks the program installs, base_hash_string as written (signed
   * char) with base_key_equal_string, also meet the table's demand: the sign
   * extension changes hash values but not which keys hash equally.
   */
  lemma AsWrittenCallbacksCoherent()
    ensures Probing.Coherent((k: Option<seq<bv8>>) => HashStringAsWritten(k) as nat, KeyEqualString)
  {
    forall a: Option<seq<bv8>>, b: Option<seq<bv8>> | KeyEqualString(a, b)
      ensures HashStringAsWritten(a) == HashStringAsWritten(b)
    {
      if a.Some? {
        FoldSignedOfText(FNV_OFFSET_BASIS, a.value, b.value);
      }
    }
  }
}
