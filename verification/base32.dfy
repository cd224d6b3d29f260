/** Nix's base-32 form of a digest (`printHash32`), as `nar_hash_to_base32`
    computes it for the catalog's `sha256:<hex>` hash column.

    The digest is read as one little-endian bit string: bit `8i + j` is bit
    `j` of byte `i`, and bits past the last byte are zero. Digit group `n`
    is bits `[5n, 5n + 5)`; the groups are written from the highest down to
    group 0, each through the 32-letter alphabet. */
module Base32 {
  import opened Results
  import opened Text
  import Hex

  /** Digits and lower-case letters without `e`, `o`, `u` and `t`. */
  const Alphabet: string := "0123456789abcdfghijklmnpqrsvwxyz"

  /** The algorithm tag written in front of the digits. */
  const Tag: string := "sha256:"

  /** How many characters of the hash text are dropped, unchecked, before
      hex decoding. */
  const SkippedPrefix: nat := 7

  /** `FromHex` is the `hex::FromHexError` the function returns; `Panicked`
      stands for the inputs on which the Rust function panics instead of
      returning: a text shorter than the skipped prefix, or an empty digest,
      where `0 * 8 - 1` overflows in a debug build and, in a release build,
      wraps to a huge `n` whose `nar_hash[i]` is out of range. The debug
      build's `u8 << 8` is `Panicked` too, in `NarHashToBase32Debug`. */
  datatype EncodeError = FromHex(e: Hex.HexError) | Panicked

  lemma AlphabetLength()
    ensures |Alphabet| == 32
  {
  }

  /** Each letter sorts strictly after the one before it. */
  lemma AlphabetSorted()
    ensures |Alphabet| == 32
    ensures forall i :: 0 <= i < 31 ==> Alphabet[i] < Alphabet[i + 1]
  {
  }

  lemma AlphabetOmitsLookalikes()
    ensures forall i :: 0 <= i < |Alphabet| ==>
              Alphabet[i] != 'e' && Alphabet[i] != 'o' && Alphabet[i] != 'u' && Alphabet[i] != 't'
  {
  }

  lemma {:induction false} AlphabetIncreasing(i: nat, j: nat)
    requires i < j < 32
    ensures Alphabet[i] < Alphabet[j]
    decreases j - i
  {
    AlphabetSorted();
    if i + 1 < j {
      AlphabetIncreasing(i + 1, j);
    }
  }

  /** The 32 letters are pairwise distinct, so a digit value is recoverable
      from its letter. */
  lemma AlphabetInjective(a: bv8, b: bv8)
    requires a < 32 && b < 32 && a != b
    ensures Alphabet[a as int] != Alphabet[b as int]
  {
    AlphabetLength();
    if a < b {
      AlphabetIncreasing(a as int, b as int);
    } else {
      AlphabetIncreasing(b as int, a as int);
    }
  }

  /** Number of digits for a digest of `len` bytes: `(8 len - 1) / 5 + 1`,
      the least count of 5-bit groups that covers `8 len` bits. */
  function DigitCount(len: nat): (n: nat)
    requires len >= 1
    ensures 5 * (n - 1) < 8 * len <= 5 * n
  {
    (8 * len - 1) / 5 + 1
  }

  /** Bit `q` of a byte (bit 0 is the least significant), written with
      constant shifts. */
  function ByteBit(x: bv8, q: nat): (b: bv8)
    requires q < 8
    ensures b <= 1
  {
    if q == 0 then x & 1
    else if q == 1 then (x >> 1) & 1
    else if q == 2 then (x >> 2) & 1
    else if q == 3 then (x >> 3) & 1
    else if q == 4 then (x >> 4) & 1
    else if q == 5 then (x >> 5) & 1
    else if q == 6 then (x >> 6) & 1
    else (x >> 7) & 1
  }

  /** `x >> j`, written with one constant shift per amount. */
  function Shr(x: bv8, j: nat): bv8
    requires j < 8
  {
    if j == 0 then x
    else if j == 1 then x >> 1
    else if j == 2 then x >> 2
    else if j == 3 then x >> 3
    else if j == 4 then x >> 4
    else if j == 5 then x >> 5
    else if j == 6 then x >> 6
    else x >> 7
  }

  /** `x << s` for `s` up to 8, written with one constant shift per amount;
      a shift by 8 leaves nothing, as it does on a widened byte. */
  function Shl(x: bv8, s: nat): bv8
    requires s <= 8
  {
    if s == 0 then x
    else if s == 1 then x << 1
    else if s == 2 then x << 2
    else if s == 3 then x << 3
    else if s == 4 then x << 4
    else if s == 5 then x << 5
    else if s == 6 then x << 6
    else if s == 7 then x << 7
    else 0
  }

  /** Bit `k` of the digest: bit `k % 8` of byte `k / 8`, zero past the
      last byte. */
  function Bit(d: seq<bv8>, k: nat): (b: bv8)
    ensures b <= 1
  {
    if k / 8 < |d| then ByteBit(d[k / 8], k % 8) else 0
  }

  /** Digit group `n`: the value of bits `[5n, 5n + 5)`, lowest bit first. */
  function Group(d: seq<bv8>, n: nat): (g: bv8)
    ensures g < 32
  {
    Bit(d, 5 * n)
    | (Bit(d, 5 * n + 1) << 1)
    | (Bit(d, 5 * n + 2) << 2)
    | (Bit(d, 5 * n + 3) << 3)
    | (Bit(d, 5 * n + 4) << 4)
  }

  lemma GroupBit(d: seq<bv8>, n: nat, t: nat)
    requires t < 5
    ensures ByteBit(Group(d, n), t) == Bit(d, 5 * n + t)
  {
  }

  /** Every group the loop visits starts inside the digest: for
      `n <= (8L - 1) / 5` the byte index `5n / 8` is at most `L - 1`. */
  lemma GroupIndexInBounds(len: nat, n: nat)
    requires len >= 1 && n < DigitCount(len)
    ensures 5 * n / 8 < len
  {
  }

  /** Bit `k` of the 16-bit window with low byte `x` and high byte `y`. */
  function WindowBit(x: bv8, y: bv8, k: nat): (b: bv8)
    requires k < 16
  {
    if k < 8 then ByteBit(x, k) else ByteBit(y, k - 8)
  }

  /** The loop body's expression, with the high byte's shift taken as a
      shift of the widened byte (a shift by 8 leaves nothing), yields the
      five window bits from `j` up. */
  lemma WindowDigit(x: bv8, y: bv8, j: nat)
    requires j < 8
    ensures (Shr(x, j) | Shl(y, 8 - j)) & 0x1f
         == WindowBit(x, y, j)
          | (WindowBit(x, y, j + 1) << 1)
          | (WindowBit(x, y, j + 2) << 2)
          | (WindowBit(x, y, j + 3) << 3)
          | (WindowBit(x, y, j + 4) << 4)
  {
    if j == 0 {
    } else if j == 1 {
    } else if j == 2 {
    } else if j == 3 {
    } else if j == 4 {
    } else if j == 5 {
    } else if j == 6 {
    } else {
    }
  }

  /** The byte after byte `i`, zero past the end. */
  function NextByte(d: seq<bv8>, i: nat): bv8
  {
    if i + 1 < |d| then d[i + 1] else 0
  }

  /** Bits of group `n` are window bits of bytes `i = 5n / 8` and `i + 1`,
      counted from `j = 5n % 8`. */
  lemma GroupBitInWindow(d: seq<bv8>, n: nat, t: nat)
    requires 5 * n / 8 < |d| && t < 5
    ensures Bit(d, 5 * n + t) == WindowBit(d[5 * n / 8], NextByte(d, 5 * n / 8), 5 * n % 8 + t)
  {
    var i, j := 5 * n / 8, 5 * n % 8;
    var k := 5 * n + t;
    if j + t < 8 {
      assert k / 8 == i && k % 8 == j + t;
    } else {
      assert k / 8 == i + 1 && k % 8 == j + t - 8;
    }
  }

  /** The digit value the loop body computes for group `n`: `i = 5n / 8`,
      `j = 5n % 8`, and the next byte is read only when `i < L - 1`. The
      shift of the next byte by `8 - j` is taken as a shift of the widened
      byte, so a shift by 8 leaves nothing. */
  function DigitValue(d: seq<bv8>, n: nat): (v: bv8)
    requires 5 * n / 8 < |d|
    ensures v < 32
  {
    var i, j := 5 * n / 8, 5 * n % 8;
    var c := Shr(d[i], j) | (if i >= |d| - 1 then 0 else Shl(d[i + 1], 8 - j));
    c & 0x1f
  }

  /** Group `n` read off the window of bytes `5n / 8` and the one after. */
  lemma GroupInWindow(d: seq<bv8>, n: nat)
    requires 5 * n / 8 < |d|
    ensures var x, y, j := d[5 * n / 8], NextByte(d, 5 * n / 8), 5 * n % 8;
            (Group(d, n)
             == WindowBit(x, y, j)
              | (WindowBit(x, y, j + 1) << 1)
              | (WindowBit(x, y, j + 2) << 2)
              | (WindowBit(x, y, j + 3) << 3)
              | (WindowBit(x, y, j + 4) << 4))
  {
    var x, y, j := d[5 * n / 8], NextByte(d, 5 * n / 8), 5 * n % 8;
    var w0, w1, w2, w3, w4 := WindowBit(x, y, j), WindowBit(x, y, j + 1), WindowBit(x, y, j + 2),
                              WindowBit(x, y, j + 3), WindowBit(x, y, j + 4);
    GroupBitInWindow(d, n, 0);
    GroupBitInWindow(d, n, 1);
    GroupBitInWindow(d, n, 2);
    GroupBitInWindow(d, n, 3);
    GroupBitInWindow(d, n, 4);
    assert Group(d, n) == w0 | (w1 << 1) | (w2 << 2) | (w3 << 3) | (w4 << 4);
  }

  /** Past the last byte the next byte reads as zero, as the code's guard
      makes it. */
  lemma DigitValueInWindow(d: seq<bv8>, n: nat)
    requires 5 * n / 8 < |d|
    ensures var x, y, j := d[5 * n / 8], NextByte(d, 5 * n / 8), 5 * n % 8;
            DigitValue(d, n) == (Shr(x, j) | Shl(y, 8 - j)) & 0x1f
  {
  }

  /** The loop body's value is exactly digit group `n`. */
  lemma DigitValueIsGroup(d: seq<bv8>, n: nat)
    requires 5 * n / 8 < |d|
    ensures DigitValue(d, n) == Group(d, n)
  {
    var j := 5 * n % 8;
    GroupInWindow(d, n);
    DigitValueInWindow(d, n);
    WindowDigit(d[5 * n / 8], NextByte(d, 5 * n / 8), j);
    // One case per shift amount, so that every shift is by a constant.
    if j == 0 {
    } else if j == 1 {
    } else if j == 2 {
    } else if j == 3 {
    } else if j == 4 {
    } else if j == 5 {
    } else if j == 6 {
    } else {
    }
  }

  /** The base-32 digits of a non-empty digest: the loop counts `n` down
      from `N - 1` to `0` and pushes the letter of each digit value, so
      character `k` is the digit for `n = N - 1 - k`. */
  function EncodeDigest(d: seq<bv8>): (s: string)
    requires |d| >= 1
    ensures |s| == DigitCount(|d|)
  {
    var count := DigitCount(|d|);
    seq(count, k requires 0 <= k < count =>
      GroupIndexInBounds(|d|, count - 1 - k);
      Alphabet[DigitValue(d, count - 1 - k) as int])
  }

  /** Character `k` of the encoding is the letter of group `N - 1 - k`. */
  lemma EncodeDigestGroups(d: seq<bv8>)
    requires |d| >= 1
    ensures var s := EncodeDigest(d);
            forall k :: 0 <= k < |s| ==> s[k] == Alphabet[Group(d, |s| - 1 - k)]
  {
    var s := EncodeDigest(d);
    forall k | 0 <= k < |s|
      ensures s[k] == Alphabet[Group(d, |s| - 1 - k)]
    {
      EncodedLetter(d, |s| - 1 - k);
    }
  }

  /** The letter the encoding writes for group `n`. */
  lemma EncodedLetter(d: seq<bv8>, n: nat)
    requires |d| >= 1 && n < DigitCount(|d|)
    ensures EncodeDigest(d)[DigitCount(|d|) - 1 - n] == Alphabet[Group(d, n)]
  {
    GroupIndexInBounds(|d|, n);
    DigitValueIsGroup(d, n);
  }

  /** `nar_hash_to_base32`: drop the first seven characters, hex-decode the
      rest, and write `sha256:` and the digits. */
  function NarHashToBase32(s: string): (r: Result<string, EncodeError>)
    ensures |s| <= SkippedPrefix ==> r == Err(Panicked)
    ensures r.Ok? <==> |s| > SkippedPrefix && Hex.Decode(s[SkippedPrefix..]).Ok?
    ensures |s| >= SkippedPrefix && Hex.Decode(s[SkippedPrefix..]).Err? ==>
              r == Err(FromHex(Hex.Decode(s[SkippedPrefix..]).error))
    ensures r.Ok? ==> StartsWith(r.value, Tag)
    ensures r.Ok? ==> |r.value| == |Tag| + DigitCount((|s| - SkippedPrefix) / 2)
  {
    if |s| < SkippedPrefix then Err(Panicked)
    else
      match Hex.Decode(s[SkippedPrefix..])
      case Err(e) => Err(FromHex(e))
      case Ok(d) => if |d| == 0 then Err(Panicked) else Ok(Tag + EncodeDigest(d))
  }

  /** A SHA-256 hash, `sha256:` and 64 hex digits, becomes `sha256:` and
      52 base-32 digits. */
  lemma Sha256Length(s: string)
    requires |s| == SkippedPrefix + 64 && NarHashToBase32(s).Ok?
    ensures |NarHashToBase32(s).value| == |Tag| + 52
  {
    assert DigitCount(32) == 52;
  }

  /** On success the digits after the tag are the groups of the decoded
      digest, highest group first. */
  lemma NarHashDigits(s: string, d: seq<bv8>, r: string)
    requires |s| >= SkippedPrefix && Hex.Decode(s[SkippedPrefix..]) == Ok(d)
    requires NarHashToBase32(s) == Ok(r)
    ensures |r| == |Tag| + DigitCount(|d|)
    ensures forall k :: |Tag| <= k < |r| ==> r[k] == Alphabet[Group(d, |r| - 1 - k) as int]
  {
    NarHashText(s, d);
    TaggedGroups(d, r);
  }

  lemma TaggedGroups(d: seq<bv8>, r: string)
    requires |d| >= 1 && r == Tag + EncodeDigest(d)
    ensures |r| == |Tag| + DigitCount(|d|)
    ensures forall k :: |Tag| <= k < |r| ==> r[k] == Alphabet[Group(d, |r| - 1 - k) as int]
  {
    var e := EncodeDigest(d);
    EncodeDigestGroups(d);
    forall k | |Tag| <= k < |r|
      ensures r[k] == Alphabet[Group(d, |r| - 1 - k) as int]
    {
      assert r[k] == e[k - |Tag|];
    }
  }

  /** Every character after the tag is a letter of the alphabet. */
  lemma NarHashLetters(s: string, r: string)
    requires NarHashToBase32(s) == Ok(r)
    ensures StartsWith(r, Tag)
    ensures forall k :: |Tag| <= k < |r| ==> r[k] in Alphabet
  {
    var d := Hex.Decode(s[SkippedPrefix..]).value;
    NarHashDigits(s, d, r);
    AlphabetLength();
    forall k | |Tag| <= k < |r|
      ensures r[k] in Alphabet
    {
      assert r[k] == Alphabet[Group(d, |r| - 1 - k) as int];
    }
  }

  /** The skipped characters are never looked at: they need not even be
      `sha256:`. */
  lemma SkippedPrefixIgnored(s: string, s': string)
    requires |s| >= SkippedPrefix && |s'| >= SkippedPrefix
    requires s[SkippedPrefix..] == s'[SkippedPrefix..]
    ensures NarHashToBase32(s) == NarHashToBase32(s')
  {
  }

  /** Digests with the same encoding have the same groups. */
  lemma SameGroup(d: seq<bv8>, d': seq<bv8>, n: nat)
    requires 1 <= |d| == |d'| && EncodeDigest(d) == EncodeDigest(d')
    requires n < DigitCount(|d|)
    ensures Group(d, n) == Group(d', n)
  {
    EncodedLetter(d, n);
    EncodedLetter(d', n);
    if Group(d, n) != Group(d', n) {
      AlphabetInjective(Group(d, n), Group(d', n));
    }
  }

  /** Digests with equal groups have equal bits: bit `k` is bit `k % 5` of
      group `k / 5`. */
  lemma SameBit(d: seq<bv8>, d': seq<bv8>, k: nat)
    requires Group(d, k / 5) == Group(d', k / 5)
    ensures Bit(d, k) == Bit(d', k)
  {
    GroupBit(d, k / 5, k % 5);
    GroupBit(d', k / 5, k % 5);
    assert 5 * (k / 5) + k % 5 == k;
  }

  lemma ByteFromBits(x: bv8)
    ensures x == ByteBit(x, 0)
               | (ByteBit(x, 1) << 1)
               | (ByteBit(x, 2) << 2)
               | (ByteBit(x, 3) << 3)
               | (ByteBit(x, 4) << 4)
               | (ByteBit(x, 5) << 5)
               | (ByteBit(x, 6) << 6)
               | (ByteBit(x, 7) << 7)
  {
  }

  lemma DigestBit(d: seq<bv8>, p: nat, q: nat)
    requires p < |d| && q < 8
    ensures Bit(d, 8 * p + q) == ByteBit(d[p], q)
  {
    assert (8 * p + q) / 8 == p && (8 * p + q) % 8 == q;
  }

  /** Bytes whose eight digest bits agree are equal. */
  lemma SameByte(d: seq<bv8>, d': seq<bv8>, p: nat)
    requires p < |d| && p < |d'|
    requires forall k :: 8 * p <= k < 8 * p + 8 ==> Bit(d, k) == Bit(d', k)
    ensures d[p] == d'[p]
  {
    forall q | 0 <= q < 8
      ensures ByteBit(d[p], q) == ByteBit(d'[p], q)
    {
      DigestBit(d, p, q);
      DigestBit(d', p, q);
      assert Bit(d, 8 * p + q) == Bit(d', 8 * p + q);
    }
    ByteFromBits(d[p]);
    ByteFromBits(d'[p]);
  }

  /** Every bit of the digest lies in a group the encoding writes. */
  lemma BitInSomeGroup(len: nat, k: nat)
    requires 1 <= len && k < 8 * len
    ensures k / 5 < DigitCount(len)
  {
  }

  /** Equal-length digests with the same encoding are equal: every bit
      lies in one group, and equal encodings have equal groups. */
  lemma EncodeDigestInjective(d: seq<bv8>, d': seq<bv8>)
    requires 1 <= |d| == |d'|
    requires EncodeDigest(d) == EncodeDigest(d')
    ensures d == d'
  {
    forall p | 0 <= p < |d|
      ensures d[p] == d'[p]
    {
      forall k | 8 * p <= k < 8 * p + 8
        ensures Bit(d, k) == Bit(d', k)
      {
        BitInSomeGroup(|d|, k);
        SameGroup(d, d', k / 5);
        SameBit(d, d', k);
      }
      SameByte(d, d', p);
    }
  }

  /** The text for a decodable, non-empty digest. */
  lemma NarHashText(s: string, d: seq<bv8>)
    requires |s| >= SkippedPrefix && Hex.Decode(s[SkippedPrefix..]) == Ok(d)
    requires |d| >= 1
    ensures NarHashToBase32(s) == Ok(Tag + EncodeDigest(d))
  {
  }

  /** Digests of the same length with the same base-32 text are equal, so
      two different digests never share a text. */
  lemma NarHashInjective(s: string, s': string, d: seq<bv8>, d': seq<bv8>)
    requires |s| >= SkippedPrefix && Hex.Decode(s[SkippedPrefix..]) == Ok(d)
    requires |s'| >= SkippedPrefix && Hex.Decode(s'[SkippedPrefix..]) == Ok(d')
    requires 1 <= |d| == |d'|
    requires NarHashToBase32(s) == NarHashToBase32(s')
    ensures d == d'
  {
    NarHashText(s, d);
    NarHashText(s', d');
    var e, e' := EncodeDigest(d), EncodeDigest(d');
    assert e == (Tag + e)[|Tag|..] == (Tag + e')[|Tag|..] == e';
    EncodeDigestInjective(d, d');
  }

  // The code as written, built in release mode.

  /** Rust's `u8 << s` in a release build: the shift amount is reduced
      modulo 8, so a shift by 8 returns the byte unchanged (a debug build
      panics instead). */
  function ShlMasked(x: bv8, s: nat): bv8
    requires s <= 8
  {
    Shl(x, s % 8)
  }

  /** The loop body as written: `nar_hash[i + 1] << (8 - j)` on a `u8`. */
  function DigitValueAsWritten(d: seq<bv8>, n: nat): (v: bv8)
    requires 5 * n / 8 < |d|
    ensures v < 32
  {
    var i, j := 5 * n / 8, 5 * n % 8;
    var c := Shr(d[i], j) | (if i >= |d| - 1 then 0 else ShlMasked(d[i + 1], 8 - j));
    c & 0x1f
  }

  /** Off a byte boundary (`j` in 1..7), or on the last byte, the expression
      as written is digit group `n`. */
  lemma AsWrittenAgreesOffByteBoundary(d: seq<bv8>, n: nat)
    requires 5 * n / 8 < |d|
    requires 5 * n % 8 != 0 || 5 * n / 8 == |d| - 1
    ensures DigitValueAsWritten(d, n) == Group(d, n)
  {
    var i, j := 5 * n / 8, 5 * n % 8;
    DigitValueIsGroup(d, n);
    if i < |d| - 1 {
      MaskedShiftOffBoundary(d[i + 1], j);
    }
  }

  /** For `j` in 1..7 the masked shift by `8 - j` is the plain one. */
  lemma MaskedShiftOffBoundary(y: bv8, j: nat)
    requires 1 <= j <= 7
    ensures ShlMasked(y, 8 - j) == Shl(y, 8 - j)
  {
  }

  /** On a byte boundary before the last byte (`j = 0`, `i < L - 1`), the
      next byte is OR-ed in unshifted. */
  lemma AsWrittenAtByteBoundary(d: seq<bv8>, n: nat)
    requires 5 * n % 8 == 0 && 5 * n / 8 < |d| - 1
    ensures DigitValueAsWritten(d, n) == (d[5 * n / 8] | d[5 * n / 8 + 1]) & 0x1f
    ensures Group(d, n) == d[5 * n / 8] & 0x1f
  {
    DigitValueIsGroup(d, n);
  }

  /** The digits as written for a non-empty digest. */
  function EncodeDigestAsWritten(d: seq<bv8>): (s: string)
    requires |d| >= 1
    ensures |s| == DigitCount(|d|)
  {
    var count := DigitCount(|d|);
    seq(count, k requires 0 <= k < count =>
      GroupIndexInBounds(|d|, count - 1 - k);
      Alphabet[DigitValueAsWritten(d, count - 1 - k) as int])
  }

  /** `nar_hash_to_base32` as written, in a release build. */
  function NarHashToBase32AsWritten(s: string): (r: Result<string, EncodeError>)
    ensures r.Ok? <==> |s| > SkippedPrefix && Hex.Decode(s[SkippedPrefix..]).Ok?
  {
    if |s| < SkippedPrefix then Err(Panicked)
    else
      match Hex.Decode(s[SkippedPrefix..])
      case Err(e) => Err(FromHex(e))
      case Ok(d) =>
        if |d| == 0 then Err(Panicked)
        else
          Ok(Tag + EncodeDigestAsWritten(d))
  }

  /** The text the code as written produces for a decodable digest. */
  lemma NarHashTextAsWritten(s: string, d: seq<bv8>)
    requires |s| >= SkippedPrefix && Hex.Decode(s[SkippedPrefix..]) == Ok(d)
    requires |d| >= 1
    ensures NarHashToBase32AsWritten(s) == Ok(Tag + EncodeDigestAsWritten(d))
  {
  }

  /** The iteration for group `n` of a `len`-byte digest shifts a `u8` by 8:
      it starts on a byte boundary (`j = 0`) before the last byte. */
  predicate ShiftOverflows(len: nat, n: nat)
  {
    5 * n % 8 == 0 && 5 * n / 8 < len - 1
  }

  /** `nar_hash_to_base32` as written, in a debug build: arithmetic overflow
      checks make the loop panic on the first iteration whose shift
      overflows; otherwise it computes what the release build does. */
  function NarHashToBase32Debug(s: string): (r: Result<string, EncodeError>)
    ensures r.Ok? ==> r == NarHashToBase32AsWritten(s)
    ensures NarHashToBase32AsWritten(s).Err? ==> r == NarHashToBase32AsWritten(s)
  {
    match NarHashToBase32AsWritten(s)
    case Err(e) => Err(e)
    case Ok(text) =>
      var len := |Hex.Decode(s[SkippedPrefix..]).value|;
      if exists n: nat | n < DigitCount(len) :: ShiftOverflows(len, n) then Err(Panicked) else Ok(text)
  }

  /** A debug build answers only for a one-byte digest, and then agrees with
      the intended encoder; every longer digest, a SHA-256 digest among
      them, makes it panic. */
  lemma {:induction false} DebugPanicsUnlessOneByte(s: string)
    ensures NarHashToBase32Debug(s).Ok?
            <==> |s| > SkippedPrefix && Hex.Decode(s[SkippedPrefix..]).Ok?
                 && |Hex.Decode(s[SkippedPrefix..]).value| == 1
    ensures NarHashToBase32Debug(s).Ok? ==> NarHashToBase32Debug(s) == NarHashToBase32(s)
    ensures |s| > SkippedPrefix && Hex.Decode(s[SkippedPrefix..]).Ok?
            && |Hex.Decode(s[SkippedPrefix..]).value| >= 2
            ==> NarHashToBase32Debug(s) == Err(Panicked)
  {
    if |s| > SkippedPrefix && Hex.Decode(s[SkippedPrefix..]).Ok? {
      var d := Hex.Decode(s[SkippedPrefix..]).value;
      if |d| >= 2 {
        assert ShiftOverflows(|d|, 0);
      } else if |d| == 1 {
        assert forall n: nat :: !ShiftOverflows(1, n);
        OneByteAsWritten(d);
      }
    }
  }

  /** For a one-byte digest no iteration reads a next byte, so the code as
      written computes the intended digits. */
  lemma {:induction false} OneByteAsWritten(d: seq<bv8>)
    requires |d| == 1
    ensures EncodeDigestAsWritten(d) == EncodeDigest(d)
  {
    var a, e := EncodeDigestAsWritten(d), EncodeDigest(d);
    forall k | 0 <= k < |e|
      ensures a[k] == e[k]
    {
      GroupIndexInBounds(1, |e| - 1 - k);
      AsWrittenAgreesOffByteBoundary(d, |e| - 1 - k);
      DigitValueIsGroup(d, |e| - 1 - k);
    }
  }

  /** The last character of a concatenation with a non-empty tail. */
  lemma LastOfConcat<T>(a: seq<T>, b: seq<T>)
    requires |b| > 0
    ensures (a + b)[|a + b| - 1] == b[|b| - 1]
  {
  }

  /** For a digest of two or more bytes, the last digit (group 0, whose `j`
      is 0) is meant to be the letter of the low five bits of byte 0. */
  lemma IntendedLastDigit(d: seq<bv8>)
    requires |d| >= 2
    ensures var e := EncodeDigest(d); e[|e| - 1] == Alphabet[(d[0] & 0x1f) as int]
  {
    EncodeDigestGroups(d);
    AsWrittenAtByteBoundary(d, 0);
  }

  /** The code as written ORs byte 1 into that last digit. */
  lemma AsWrittenLastDigit(d: seq<bv8>)
    requires |d| >= 2
    ensures var e := EncodeDigestAsWritten(d); e[|e| - 1] == Alphabet[((d[0] | d[1]) & 0x1f) as int]
  {
    AsWrittenAtByteBoundary(d, 0);
  }

  /** The digest `00 01` (hash text `sha256:0001`): group 0 is bits 0..4 of
      byte 0, all zero, so the last digit is meant to be `0`; the code as
      written ORs byte 1 into it and writes `1`. */
  lemma AsWrittenCounterexample(s: string)
    requires s == "sha256:0001"
    ensures NarHashToBase32(s).Ok? && NarHashToBase32AsWritten(s).Ok?
    ensures var r := NarHashToBase32(s).value; |r| > 0 && r[|r| - 1] == '0'
    ensures var r := NarHashToBase32AsWritten(s).value; |r| > 0 && r[|r| - 1] == '1'
  {
    AlphabetStart();
    var d := CounterexampleDigest(s[SkippedPrefix..]);
    IntendedLastDigit(d);
    AsWrittenLastDigit(d);
    NarHashText(s, d);
    NarHashTextAsWritten(s, d);
    LastOfConcat(Tag, EncodeDigest(d));
    LastOfConcat(Tag, EncodeDigestAsWritten(d));
  }

  lemma AlphabetStart()
    ensures Alphabet[0] == '0' && Alphabet[1] == '1'
  {
  }

  /** The hex text `0001` decodes to the bytes `00 01`. */
  lemma CounterexampleDigest(h: string) returns (d: seq<bv8>)
    requires h == "0001"
    ensures Hex.Decode(h) == Ok(d)
    ensures |d| == 2 && d[0] == 0x00 && d[1] == 0x01
  {
    assert h[0] == '0' && h[1] == '0' && h[2] == '0' && h[3] == '1';
    var r := Hex.Decode(h);
    assert r.Ok? && |r.value| == 2;
    assert Hex.NibbleValue('0') == 0 && Hex.NibbleValue('1') == 1;
    assert r.value[0] == Hex.PairValue('0', '0') == 0;
    assert r.value[1] == Hex.PairValue('0', '1') == 1;
    d := r.value;
  }
}
