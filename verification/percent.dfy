/** Percent-escapes in a form body: the pre-scan that rejects a malformed escape anywhere in
    the body, and the byte decoder applied to each key and value (section 2.1 of RFC 3986 for
    `%XY`, section 5.1 of the WHATWG URL Standard for `+` as space). */
module Percent {
  import opened Bytes
  import opened Hex

  /** Every `%` in `s` is followed, inside `s`, by two hexadecimal digits. */
  ghost predicate WellEscaped(s: seq<U8>) {
    forall j :: 0 <= j < |s| && s[j] == PERCENT ==>
      j + 2 < |s| && IsHexDigit(s[j + 1]) && IsHexDigit(s[j + 2])
  }

  /** The pre-scan, one step per position it visits: a valid escape is skipped as a whole,
      any other byte (a `+` included) one at a time; the first `%` without two hexadecimal
      digits after it makes the answer `true`. */
  predicate ScanFindsInvalid(s: seq<U8>)
    decreases |s|
  {
    if s == [] then false
    else if s[0] == PERCENT then
      if |s| <= 2 then true
      else if !IsHexDigit(s[1]) || !IsHexDigit(s[2]) then true
      else ScanFindsInvalid(s[3..])
    else ScanFindsInvalid(s[1..])
  }

  /** Dropping a prefix in which every `%` opens a complete escape changes nothing about
      whether the rest is well escaped, provided the prefix does not end inside an escape. */
  lemma WellEscapedDrop(s: seq<U8>, n: nat)
    requires n <= |s|
    requires forall j :: 0 <= j < n && s[j] == PERCENT ==>
      j + 2 < |s| && IsHexDigit(s[j + 1]) && IsHexDigit(s[j + 2])
    ensures WellEscaped(s) <==> WellEscaped(s[n..])
  {
    if WellEscaped(s[n..]) {
      forall j | 0 <= j < |s| && s[j] == PERCENT
        ensures j + 2 < |s| && IsHexDigit(s[j + 1]) && IsHexDigit(s[j + 2])
      {
        if n <= j {
          assert s[n..][j - n] == s[j];
        }
      }
    }
    if WellEscaped(s) {
      forall j | 0 <= j < |s[n..]| && s[n..][j] == PERCENT
        ensures j + 2 < |s[n..]| && IsHexDigit(s[n..][j + 1]) && IsHexDigit(s[n..][j + 2])
      {
        assert s[n + j] == PERCENT;
      }
    }
  }

  /** The pre-scan reports `true` exactly when some `%` in the body lacks two hexadecimal
      digits after it: its 3-byte skip never hides a bad `%`, because digits are not `%`. */
  lemma {:induction false} ScanFindsInvalidIff(s: seq<U8>)
    ensures ScanFindsInvalid(s) <==> !WellEscaped(s)
    decreases |s|
  {
    if s == [] {
    } else if s[0] == PERCENT {
      if |s| <= 2 || !IsHexDigit(s[1]) || !IsHexDigit(s[2]) {
        assert !WellEscaped(s);
      } else {
        DelimitersAreNotHexDigits(s[1]);
        DelimitersAreNotHexDigits(s[2]);
        WellEscapedDrop(s, 3);
        ScanFindsInvalidIff(s[3..]);
      }
    } else {
      WellEscapedDrop(s, 1);
      ScanFindsInvalidIff(s[1..]);
    }
  }

  /** A body with no `%` at all always passes the pre-scan; `+` is never an error. */
  lemma ScanAcceptsBodyWithoutPercent(s: seq<U8>)
    requires PERCENT !in s
    ensures !ScanFindsInvalid(s)
  {
    ScanFindsInvalidIff(s);
  }

  /** Concrete verdicts of the pre-scan: a trailing `%` or `%4` is invalid, the bytes of
      `%25` are not read again as an escape, `+` and plain bytes are fine. */
  lemma ScanExamples()
    ensures ScanFindsInvalid(Ascii("%"))
    ensures ScanFindsInvalid(Ascii("a%4"))
    ensures ScanFindsInvalid(Ascii("%zz"))
    ensures !ScanFindsInvalid(Ascii("%25"))
    ensures !ScanFindsInvalid(Ascii("%2525"))
    ensures !ScanFindsInvalid(Ascii("a+b"))
    ensures !ScanFindsInvalid([])
  {
    ScanFindsInvalidIff(Ascii("%2525"));
  }

  /** `percent_encoding_is_invalid`: the pre-scan loop, advancing by 3 over an escape and by 1
      over any other byte, returning at the first malformed `%`. */
  method PercentEncodingIsInvalid(bytes: seq<U8>) returns (invalid: bool)
    ensures invalid == ScanFindsInvalid(bytes)
    ensures invalid <==> !WellEscaped(bytes)
  {
    ScanFindsInvalidIff(bytes);
    var i := 0;
    while i < |bytes|
      invariant 0 <= i <= |bytes|
      invariant ScanFindsInvalid(bytes[i..]) == ScanFindsInvalid(bytes)
    {
      if bytes[i] == PERCENT {
        if i + 2 >= |bytes| {
          return true;
        }
        if !IsHexDigit(bytes[i + 1]) || !IsHexDigit(bytes[i + 2]) {
          return true;
        }
        assert bytes[i..][3..] == bytes[i + 3..];
        i := i + 3;
      } else {
        assert bytes[i..][1..] == bytes[i + 1..];
        i := i + 1;
      }
    }
    return false;
  }

  /** The byte decoder: `+` gives a space, `%XY` with two hexadecimal digits gives the byte
      `16*X + Y`, a `%` without them stays a literal `%`, and every other byte is copied.
      The result is never longer than the input. */
  function Decode(s: seq<U8>): (r: seq<U8>)
    ensures |r| <= |s|
    decreases |s|
  {
    if s == [] then []
    else if s[0] == PLUS then [SPACE] + Decode(s[1..])
    else if s[0] == PERCENT && |s| > 2 && FromHex(s[1]).Some? && FromHex(s[2]).Some? then
      [FromHex(s[1]).value * 16 + FromHex(s[2]).value] + Decode(s[3..])
    else [s[0]] + Decode(s[1..])
  }

  /** Whether decoding `s` ever takes the branch that emits a malformed `%` literally. */
  predicate TakesLiteralFallback(s: seq<U8>)
    decreases |s|
  {
    if s == [] then false
    else if s[0] == PERCENT then
      if |s| > 2 && FromHex(s[1]).Some? && FromHex(s[2]).Some? then TakesLiteralFallback(s[3..])
      else true
    else TakesLiteralFallback(s[1..])
  }

  /** The decoder falls back to a literal `%` on exactly the inputs the pre-scan rejects:
      both walk the same positions. */
  lemma {:induction false} FallbackIffScanFindsInvalid(s: seq<U8>)
    ensures TakesLiteralFallback(s) <==> ScanFindsInvalid(s)
    decreases |s|
  {
    if s == [] {
    } else if s[0] == PERCENT {
      if |s| > 2 && FromHex(s[1]).Some? && FromHex(s[2]).Some? {
        FallbackIffScanFindsInvalid(s[3..]);
      }
    } else {
      FallbackIffScanFindsInvalid(s[1..]);
    }
  }

  /** `percent_decode_bytes`: the decoding loop, pushing one byte per step. */
  method PercentDecodeBytes(input: seq<U8>) returns (out: seq<U8>)
    ensures out == Decode(input)
  {
    out := [];
    var i := 0;
    while i < |input|
      invariant 0 <= i <= |input|
      invariant out + Decode(input[i..]) == Decode(input)
    {
      DecodeSuffix(input, i);
      ghost var before := out;
      if input[i] == PLUS {
        out := out + [SPACE];
        i := i + 1;
      } else if input[i] == PERCENT {
        if i + 2 < |input| {
          var h, l := FromHex(input[i + 1]), FromHex(input[i + 2]);
          if h.Some? && l.Some? {
            out := out + [h.value * 16 + l.value];
            i := i + 3;
            AppendAssoc(before, out[|before|..], Decode(input[i..]));
            continue;
          }
        }
        out := out + [PERCENT];
        i := i + 1;
      } else {
        out := out + [input[i]];
        i := i + 1;
      }
      AppendAssoc(before, out[|before|..], Decode(input[i..]));
    }
  }

  /** Appending to the output and then the rest's decoding is the same as appending both. */
  lemma AppendAssoc(a: seq<U8>, b: seq<U8>, c: seq<U8>)
    ensures (a + b) + c == a + (b + c)
  {
  }

  /** One step of `Decode` on the suffix of `s` from position `i`. */
  lemma DecodeSuffix(s: seq<U8>, i: nat)
    requires i < |s|
    ensures s[i] == PLUS ==> Decode(s[i..]) == [SPACE] + Decode(s[i + 1..])
    ensures s[i] == PERCENT && i + 2 < |s| && FromHex(s[i + 1]).Some? && FromHex(s[i + 2]).Some? ==>
      Decode(s[i..]) == [FromHex(s[i + 1]).value * 16 + FromHex(s[i + 2]).value] + Decode(s[i + 3..])
    ensures s[i] != PLUS && !(s[i] == PERCENT && i + 2 < |s| && FromHex(s[i + 1]).Some? && FromHex(s[i + 2]).Some?) ==>
      Decode(s[i..]) == [s[i]] + Decode(s[i + 1..])
  {
    var rest := s[i..];
    assert rest[1..] == s[i + 1..];
    if i + 2 < |s| {
      assert rest[3..] == s[i + 3..];
    }
  }

  /** Bytes a form encoder leaves as they are: ASCII letters and digits, `*`, `-`, `.`, `_`
      (the application/x-www-form-urlencoded byte serializer of the WHATWG URL Standard). */
  predicate Unreserved(b: U8) {
    (0x30 <= b <= 0x39) || (0x41 <= b <= 0x5A) || (0x61 <= b <= 0x7A)
    || b == 0x2A || b == 0x2D || b == 0x2E || b == 0x5F
  }

  /** The encoding of one byte: space as `+`, an unreserved byte as itself, anything else
      as `%XY` with upper-case digits. */
  function EncodeByte(b: U8): (r: seq<U8>)
    ensures WellEscaped(r)
    ensures AMPERSAND !in r && EQUALS !in r
  {
    if b == SPACE then [PLUS]
    else if Unreserved(b) then [b]
    else [PERCENT, UpperHex(b / 16), UpperHex(b % 16)]
  }

  /** The form encoder, the inverse of `Decode` on the bytes it produces. Its output has no
      `&` or `=`, so it can stand between the delimiters of a body, and every `%` in it opens
      a complete escape. */
  function Encode(s: seq<U8>): (r: seq<U8>)
    ensures WellEscaped(r)
    ensures AMPERSAND !in r && EQUALS !in r
    decreases |s|
  {
    if s == [] then []
    else
      var r := EncodeByte(s[0]) + Encode(s[1..]);
      WellEscapedConcat(EncodeByte(s[0]), Encode(s[1..]));
      r
  }

  /** Concatenating two well-escaped byte strings gives a well-escaped one: an escape that
      is complete in the first part stays complete. */
  lemma WellEscapedConcat(a: seq<U8>, b: seq<U8>)
    requires WellEscaped(a) && WellEscaped(b)
    ensures WellEscaped(a + b)
  {
    var s := a + b;
    forall j | 0 <= j < |s| && s[j] == PERCENT
      ensures j + 2 < |s| && IsHexDigit(s[j + 1]) && IsHexDigit(s[j + 2])
    {
      if j >= |a| {
        assert b[j - |a|] == PERCENT;
      } else {
        assert a[j] == PERCENT;
      }
    }
  }

  /** Decoding the encoding of one byte followed by anything yields that byte first. */
  lemma DecodeEncodedByte(b: U8, rest: seq<U8>)
    ensures Decode(EncodeByte(b) + rest) == [b] + Decode(rest)
  {
    var s := EncodeByte(b) + rest;
    if b == SPACE || Unreserved(b) {
      assert s[1..] == rest;
    } else {
      var hi, lo := b / 16, b % 16;
      assert hi * 16 + lo == b;
      assert s == [PERCENT, UpperHex(hi), UpperHex(lo)] + rest;
      assert s[1] == UpperHex(hi) && s[2] == UpperHex(lo);
      assert s[3..] == rest;
    }
  }

  /** Round trip: decoding what the form encoder produced gives back the original bytes. */
  lemma {:induction false} DecodeEncode(s: seq<U8>)
    ensures Decode(Encode(s)) == s
    decreases |s|
  {
    if s != [] {
      DecodeEncodedByte(s[0], Encode(s[1..]));
      DecodeEncode(s[1..]);
      assert [s[0]] + s[1..] == s;
    }
  }

  /** Concrete decodings: `+` is a space and `%2B` a literal `+`. */
  lemma DecodePlusExamples()
    ensures Decode(Ascii("a+b")) == Ascii("a b")
    ensures Decode(Ascii("%2B")) == Ascii("+")
  {
  }

  /** Concrete decodings: digits of either case; a `%` without two digits is kept. */
  lemma DecodeEscapeExamples()
    ensures Decode(Ascii("%4a%4A")) == Ascii("JJ")
    ensures Decode(Ascii("1%")) == Ascii("1%")
    ensures Decode(Ascii("%z")) == Ascii("%z")
  {
  }

  /** A suffix of a well-escaped byte string is well escaped. */
  lemma WellEscapedSuffix(s: seq<U8>, m: nat)
    requires m <= |s| && WellEscaped(s)
    ensures WellEscaped(s[m..])
  {
    forall j | 0 <= j < |s[m..]| && s[m..][j] == PERCENT
      ensures j + 2 < |s[m..]| && IsHexDigit(s[m..][j + 1]) && IsHexDigit(s[m..][j + 2])
    {
      assert s[m + j] == PERCENT;
    }
  }

  /** Cutting a well-escaped byte string at a byte that is not a hexadecimal digit leaves
      both sides well escaped: no escape straddles the cut. */
  lemma WellEscapedCut(s: seq<U8>, k: nat)
    requires k < |s| && WellEscaped(s) && !IsHexDigit(s[k])
    ensures WellEscaped(s[..k]) && WellEscaped(s[k + 1..])
  {
    WellEscapedSuffix(s, k + 1);
    forall j | 0 <= j < |s[..k]| && s[..k][j] == PERCENT
      ensures j + 2 < |s[..k]| && IsHexDigit(s[..k][j + 1]) && IsHexDigit(s[..k][j + 2])
    {
      assert s[j] == PERCENT;
    }
  }

  /** A NUL byte in the input is still there after decoding: it is copied as it is, and it
      can never be one of the two digits of an escape. */
  lemma {:induction false} DecodeKeepsNul(s: seq<U8>)
    requires NUL in s
    ensures NUL in Decode(s)
    decreases |s|
  {
    if s[0] != NUL {
      if s[0] == PERCENT && |s| > 2 && FromHex(s[1]).Some? && FromHex(s[2]).Some? {
        assert s == s[..3] + s[3..];
        assert NUL in s[3..];
        DecodeKeepsNul(s[3..]);
      } else {
        assert s == [s[0]] + s[1..];
        DecodeKeepsNul(s[1..]);
      }
    }
  }
}
