/** The `hex` crate's `decode` (two digits per byte, high nibble first,
    either letter case), which turns the catalog's digest text into bytes,
    and the lower-case `encode` it inverts. */
module Hex {
  import opened Results

  /** The errors `hex::decode` reports. */
  datatype HexError = OddLength | InvalidHexCharacter(c: char, index: nat)

  predicate IsHexDigit(c: char)
  {
    ('0' <= c <= '9') || ('a' <= c <= 'f') || ('A' <= c <= 'F')
  }

  function NibbleValue(c: char): (v: bv8)
    requires IsHexDigit(c)
    ensures v < 16
  {
    if c <= '9' then (c as int - 48) as bv8
    else if c >= 'a' then (c as int - 87) as bv8
    else (c as int - 55) as bv8
  }

  /** The byte a pair of hex digits denotes. */
  function PairValue(hi: char, lo: char): bv8
    requires IsHexDigit(hi) && IsHexDigit(lo)
  {
    (NibbleValue(hi) << 4) | NibbleValue(lo)
  }

  /** Decodes an even-length text pair by pair; `offset` is the position of
      `s` in the whole input, for the error report. The first character that
      is not a hex digit is the one reported. */
  function DecodePairs(s: string, offset: nat): (r: Result<seq<bv8>, HexError>)
    requires |s| % 2 == 0
    ensures r.Ok? <==> forall k :: 0 <= k < |s| ==> IsHexDigit(s[k])
    ensures r.Ok? ==> |r.value| == |s| / 2
    ensures r.Ok? ==> forall k :: 0 <= k < |r.value| ==> r.value[k] == PairValue(s[2 * k], s[2 * k + 1])
    ensures r.Err? ==> r.error.InvalidHexCharacter?
    ensures r.Err? ==> offset <= r.error.index < offset + |s|
    ensures r.Err? ==> s[r.error.index - offset] == r.error.c && !IsHexDigit(r.error.c)
    ensures r.Err? ==> forall k :: 0 <= k < r.error.index - offset ==> IsHexDigit(s[k])
    decreases |s|
  {
    if |s| == 0 then Ok([])
    else if !IsHexDigit(s[0]) then Err(InvalidHexCharacter(s[0], offset))
    else if !IsHexDigit(s[1]) then Err(InvalidHexCharacter(s[1], offset + 1))
    else
      match DecodePairs(s[2..], offset + 2)
      case Err(e) => Err(e)
      case Ok(rest) => Ok([PairValue(s[0], s[1])] + rest)
  }

  /** `hex::decode`: odd length is rejected before any digit is looked at. */
  function Decode(s: string): (r: Result<seq<bv8>, HexError>)
    ensures r.Ok? <==> |s| % 2 == 0 && forall k :: 0 <= k < |s| ==> IsHexDigit(s[k])
    ensures r.Ok? ==> |r.value| == |s| / 2
    ensures r.Ok? ==> forall k :: 0 <= k < |r.value| ==> r.value[k] == PairValue(s[2 * k], s[2 * k + 1])
    ensures |s| % 2 != 0 ==> r == Err(OddLength)
  {
    if |s| % 2 != 0 then Err(OddLength) else DecodePairs(s, 0)
  }

  /** The lower-case digit of a nibble. */
  function HexChar(v: bv8): (c: char)
    requires v < 16
    ensures IsHexDigit(c)
  {
    if v < 10 then (48 + v as int) as char else (87 + v as int) as char
  }

  lemma NibbleRoundTrip(v: bv8)
    requires v < 16
    ensures NibbleValue(HexChar(v)) == v
  {
  }

  /** `hex::encode`: two lower-case digits per byte, high nibble first. */
  function Encode(d: seq<bv8>): (s: string)
    ensures |s| == 2 * |d|
    ensures forall k :: 0 <= k < |d| ==> s[2 * k] == HexChar(d[k] >> 4) && s[2 * k + 1] == HexChar(d[k] & 0xf)
  {
    if |d| == 0 then ""
    else [HexChar(d[0] >> 4), HexChar(d[0] & 0xf)] + Encode(d[1..])
  }

  /** The two digits of a byte decode back to the byte. */
  lemma PairRoundTrip(x: bv8)
    ensures PairValue(HexChar(x >> 4), HexChar(x & 0xf)) == x
  {
    NibbleRoundTrip(x >> 4);
    NibbleRoundTrip(x & 0xf);
  }

  lemma EncodeIsHex(d: seq<bv8>)
    ensures forall k :: 0 <= k < |Encode(d)| ==> IsHexDigit(Encode(d)[k])
  {
    var s := Encode(d);
    forall k | 0 <= k < |s|
      ensures IsHexDigit(s[k])
    {
      var m := k / 2;
      if k == 2 * m {
        assert s[k] == HexChar(d[m] >> 4);
      } else {
        assert k == 2 * m + 1;
        assert s[k] == HexChar(d[m] & 0xf);
      }
    }
  }

  /** Decoding inverts encoding. */
  lemma DecodeEncode(d: seq<bv8>)
    ensures Decode(Encode(d)) == Ok(d)
  {
    var s := Encode(d);
    EncodeIsHex(d);
    var r := Decode(s).value;
    assert |r| == |d|;
    forall k | 0 <= k < |d|
      ensures r[k] == d[k]
    {
      assert r[k] == PairValue(s[2 * k], s[2 * k + 1]);
      assert s[2 * k] == HexChar(d[k] >> 4) && s[2 * k + 1] == HexChar(d[k] & 0xf);
      PairRoundTrip(d[k]);
    }
    assert r == d;
  }
}
