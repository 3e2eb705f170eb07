/** The two hexadecimal-digit helpers of the strict form decoder. */
module Hex {
  import opened Bytes

  /** `0`-`9`, `a`-`f` or `A`-`F`. */
  predicate IsHexDigit(b: U8) {
    (0x30 <= b <= 0x39) || (0x61 <= b <= 0x66) || (0x41 <= b <= 0x46)
  }

  /** The value of a hexadecimal digit; `None` for any other byte. */
  function FromHex(b: U8): (r: Option<U8>)
    ensures r.Some? <==> IsHexDigit(b)
    ensures r.Some? ==> r.value < 16
  {
    if 0x30 <= b <= 0x39 then Some(b - 0x30)
    else if 0x61 <= b <= 0x66 then Some(b - 0x61 + 10)
    else if 0x41 <= b <= 0x46 then Some(b - 0x41 + 10)
    else None
  }

  /** The upper-case digit for a nibble, as a form encoder writes it. */
  function UpperHex(v: U8): (b: U8)
    requires v < 16
    ensures IsHexDigit(b) && FromHex(b) == Some(v)
  {
    if v < 10 then 0x30 + v else 0x41 + (v - 10)
  }

  /** The lower-case digit for a nibble. */
  function LowerHex(v: U8): (b: U8)
    requires v < 16
    ensures IsHexDigit(b) && FromHex(b) == Some(v)
  {
    if v < 10 then 0x30 + v else 0x61 + (v - 10)
  }

  /** Every digit is the upper- or the lower-case spelling of its value, and the two
      spellings of a value agree, so digits are read case-insensitively. */
  lemma FromHexSpellings(b: U8)
    requires IsHexDigit(b)
    ensures b == UpperHex(FromHex(b).value) || b == LowerHex(FromHex(b).value)
  {
  }

  /** Two digits always combine into one byte: `16*h + l <= 255`. */
  lemma HexPairFitsByte(hi: U8, lo: U8)
    requires IsHexDigit(hi) && IsHexDigit(lo)
    ensures 0 <= FromHex(hi).value as int * 16 + FromHex(lo).value as int < 256
  {
  }

  /** None of the bytes the decoder and the splitter act on is a hexadecimal digit,
      so a complete escape never contains one of them. */
  lemma DelimitersAreNotHexDigits(b: U8)
    requires IsHexDigit(b)
    ensures b != PERCENT && b != AMPERSAND && b != EQUALS && b != PLUS && b != NUL
  {
  }
}
