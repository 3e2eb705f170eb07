/** UTF-8 as `String::from_utf8` accepts it: the well-formed byte sequences of section 4 of
    RFC 3629 (no overlong forms, no surrogates, nothing above U+10FFFF), decoded into a
    string of Unicode scalar values. */
module Utf8 {
  import opened Bytes

  /** A continuation byte, `10xxxxxx`. */
  predicate IsCont(b: U8) {
    0x80 <= b <= 0xBF
  }

  /** How many bytes the character led by `b` takes; 0 when `b` cannot lead one. */
  function Width(b: U8): (w: nat)
    ensures w <= 4
  {
    if b <= 0x7F then 1
    else if 0xC2 <= b <= 0xDF then 2
    else if 0xE0 <= b <= 0xEF then 3
    else if 0xF0 <= b <= 0xF4 then 4
    else 0
  }

  /** The range the second byte must lie in after the lead `b` (RFC 3629 narrows it after
      `E0`, `ED`, `F0` and `F4` to exclude overlong forms, surrogates and values above
      U+10FFFF). */
  function SecondLow(b: U8): U8 {
    if b == 0xE0 then 0xA0 else if b == 0xF0 then 0x90 else 0x80
  }

  function SecondHigh(b: U8): U8 {
    if b == 0xED then 0x9F else if b == 0xF4 then 0x8F else 0xBF
  }

  /** The length of the well-formed character at the start of `s`, or 0 when `s` does not
      start with one. */
  function LeadLen(s: seq<U8>): (n: nat)
    ensures n <= 4 && n <= |s|
    ensures n > 0 ==> n == Width(s[0])
  {
    if s == [] then 0
    else
      var w := Width(s[0]);
      if w == 0 || |s| < w then 0
      else if w == 1 then 1
      else if SecondLow(s[0]) <= s[1] <= SecondHigh(s[0])
        && (w < 3 || IsCont(s[2])) && (w < 4 || IsCont(s[3]))
      then w
      else 0
  }

  /** Well-formed UTF-8: a sequence of complete characters. */
  predicate IsUtf8(s: seq<U8>)
    decreases |s|
  {
    s == [] || (LeadLen(s) > 0 && IsUtf8(s[LeadLen(s)..]))
  }

  /** The 6 payload bits of a continuation byte. */
  function Low6(b: U8): int {
    b as int - 0x80
  }

  /** The scalar value of the character at the start of `s`. */
  function DecodeChar(s: seq<U8>): (c: char)
    requires LeadLen(s) > 0
  {
    var w := LeadLen(s);
    if w == 1 then s[0] as int as char
    else if w == 2 then ((s[0] as int - 0xC0) * 64 + Low6(s[1])) as char
    else if w == 3 then
      ((s[0] as int - 0xE0) * 4096 + Low6(s[1]) * 64 + Low6(s[2])) as char
    else
      ((s[0] as int - 0xF0) * 262144 + Low6(s[1]) * 4096 + Low6(s[2]) * 64 + Low6(s[3])) as char
  }

  /** `String::from_utf8`: the characters of `s`, or `None` when `s` is not well formed. */
  function FromUtf8(s: seq<U8>): (r: Option<string>)
    ensures r.Some? <==> IsUtf8(s)
    decreases |s|
  {
    if s == [] then Some([])
    else if LeadLen(s) == 0 then None
    else
      var rest := FromUtf8(s[LeadLen(s)..]);
      if rest.None? then None else Some([DecodeChar(s)] + rest.value)
  }

  /** The UTF-8 encoding of one character: the shortest form, as RFC 3629 requires. */
  function EncodeChar(c: char): (r: seq<U8>)
    ensures 1 <= |r| <= 4
  {
    var v := c as int;
    if v < 0x80 then [v as U8]
    else if v < 0x800 then [(0xC0 + v / 64) as U8, (0x80 + v % 64) as U8]
    else if v < 0x10000 then
      [(0xE0 + v / 4096) as U8, (0x80 + v / 64 % 64) as U8, (0x80 + v % 64) as U8]
    else
      [(0xF0 + v / 262144) as U8, (0x80 + v / 4096 % 64) as U8,
       (0x80 + v / 64 % 64) as U8, (0x80 + v % 64) as U8]
  }

  /** The UTF-8 encoding of a string. */
  function EncodeString(t: string): seq<U8>
    decreases |t|
  {
    if t == [] then [] else EncodeChar(t[0]) + EncodeString(t[1..])
  }

  /** The encoding of a character is one well-formed character, whatever follows it, and it
      decodes to that character. */
  lemma EncodeCharDecodes(c: char, rest: seq<U8>)
    ensures LeadLen(EncodeChar(c) + rest) == |EncodeChar(c)|
    ensures DecodeChar(EncodeChar(c) + rest) == c
  {
    var v := c as int;
    if v < 0x80 {
    } else if v < 0x800 {
      DecodeTwo(c, rest);
    } else if v < 0x10000 {
      DecodeThree(c, rest);
    } else {
      DecodeFour(c, rest);
    }
  }

  lemma DecodeTwo(c: char, rest: seq<U8>)
    requires 0x80 <= c as int < 0x800
    ensures LeadLen(EncodeChar(c) + rest) == 2 && DecodeChar(EncodeChar(c) + rest) == c
  {
    var v := c as int;
    assert v == v / 64 * 64 + v % 64;
  }

  lemma DecodeThree(c: char, rest: seq<U8>)
    requires 0x800 <= c as int < 0x10000
    ensures LeadLen(EncodeChar(c) + rest) == 3 && DecodeChar(EncodeChar(c) + rest) == c
  {
    var v := c as int;
    var q := v / 64;
    assert v == q * 64 + v % 64;
    assert q == q / 64 * 64 + q % 64;
    assert q / 64 == v / 4096;
  }

  lemma DecodeFour(c: char, rest: seq<U8>)
    requires 0x10000 <= c as int
    ensures LeadLen(EncodeChar(c) + rest) == 4 && DecodeChar(EncodeChar(c) + rest) == c
  {
    var v := c as int;
    var q := v / 64;
    var p := q / 64;
    assert v == q * 64 + v % 64;
    assert q == p * 64 + q % 64;
    assert p == p / 64 * 64 + p % 64;
    assert p == v / 4096;
    assert p / 64 == v / 262144;
  }

  /** A well-formed character is the encoding of what it decodes to: UTF-8 has exactly one
      spelling per character. */
  lemma DecodeCharEncodes(s: seq<U8>)
    requires LeadLen(s) > 0
    ensures EncodeChar(DecodeChar(s)) == s[..LeadLen(s)]
  {
    var w := LeadLen(s);
    if w == 1 {
      assert s[..1] == [s[0]];
    } else if w == 2 {
      EncodeTwo(s[0], s[1]);
      assert s[..2] == [s[0], s[1]];
    } else if w == 3 {
      EncodeThree(s[0], s[1], s[2]);
      assert s[..3] == [s[0], s[1], s[2]];
    } else {
      EncodeFour(s[0], s[1], s[2], s[3]);
      assert s[..4] == [s[0], s[1], s[2], s[3]];
    }
  }

  lemma EncodeTwo(b0: U8, b1: U8)
    requires 0xC2 <= b0 <= 0xDF && IsCont(b1)
    ensures EncodeChar(((b0 as int - 0xC0) * 64 + Low6(b1)) as char) == [b0, b1]
  {
    var v := (b0 as int - 0xC0) * 64 + Low6(b1);
    assert v / 64 == b0 as int - 0xC0 && v % 64 == Low6(b1);
  }

  lemma EncodeThree(b0: U8, b1: U8, b2: U8)
    requires 0xE0 <= b0 <= 0xEF && SecondLow(b0) <= b1 <= SecondHigh(b0) && IsCont(b2)
    ensures EncodeChar(((b0 as int - 0xE0) * 4096 + Low6(b1) * 64 + Low6(b2)) as char)
      == [b0, b1, b2]
  {
    var hi := b0 as int - 0xE0;
    var q := hi * 64 + Low6(b1);
    var v := q * 64 + Low6(b2);
    assert v / 64 == q && v % 64 == Low6(b2);
    assert q / 64 == hi && q % 64 == Low6(b1);
    assert v / 4096 == hi;
  }

  lemma EncodeFour(b0: U8, b1: U8, b2: U8, b3: U8)
    requires 0xF0 <= b0 <= 0xF4 && SecondLow(b0) <= b1 <= SecondHigh(b0)
    requires IsCont(b2) && IsCont(b3)
    ensures EncodeChar(((b0 as int - 0xF0) * 262144 + Low6(b1) * 4096 + Low6(b2) * 64
      + Low6(b3)) as char) == [b0, b1, b2, b3]
  {
    var hi := b0 as int - 0xF0;
    var p := hi * 64 + Low6(b1);
    var q := p * 64 + Low6(b2);
    var v := q * 64 + Low6(b3);
    assert v / 64 == q && v % 64 == Low6(b3);
    assert q / 64 == p && q % 64 == Low6(b2);
    assert p / 64 == hi && p % 64 == Low6(b1);
    assert v / 4096 == p;
    assert v / 262144 == hi;
  }

  /** Decoding an encoded string gives it back. */
  lemma {:induction false} FromUtf8Encode(t: string)
    ensures FromUtf8(EncodeString(t)) == Some(t)
    decreases |t|
  {
    if t != [] {
      var e := EncodeChar(t[0]);
      var rest := EncodeString(t[1..]);
      EncodeCharDecodes(t[0], rest);
      assert (e + rest)[|e|..] == rest;
      FromUtf8Encode(t[1..]);
      assert [t[0]] + t[1..] == t;
    }
  }

  /** Encoding a decoded string gives back the bytes: `FromUtf8` loses nothing. */
  lemma {:induction false} EncodeFromUtf8(s: seq<U8>, t: string)
    requires FromUtf8(s) == Some(t)
    ensures EncodeString(t) == s
    decreases |s|
  {
    if s != [] {
      var n := LeadLen(s);
      EncodeFromUtf8Step(s, t);
      EncodeFromUtf8(s[n..], t[1..]);
      Rejoin(s, n, EncodeString(t), EncodeString(t[1..]));
    }
  }

  /** Bytes cut at `n` and put back together. */
  lemma Rejoin(s: seq<U8>, n: nat, whole: seq<U8>, rest: seq<U8>)
    requires n <= |s|
    requires whole == s[..n] + rest
    requires rest == s[n..]
    ensures whole == s
  {
    assert s[..n] + s[n..] == s;
  }

  /** Re-encoding the first decoded character gives back its bytes. */
  lemma EncodeFromUtf8Step(s: seq<U8>, t: string)
    requires FromUtf8(s) == Some(t) && s != []
    ensures FromUtf8(s[LeadLen(s)..]) == Some(t[1..])
    ensures EncodeString(t) == s[..LeadLen(s)] + EncodeString(t[1..])
  {
    var c := DecodeChar(s);
    assert t == [c] + t[1..];
    EncodeStringCons(c, t[1..]);
    DecodeCharEncodes(s);
  }

  /** Encoding a string one character at a time. */
  lemma EncodeStringCons(c: char, t: string)
    ensures EncodeString([c] + t) == EncodeChar(c) + EncodeString(t)
  {
    assert ([c] + t)[1..] == t;
  }

  /** Well-formed UTF-8 is exactly the set of encodings of strings. */
  lemma IsUtf8Iff(s: seq<U8>)
    ensures IsUtf8(s) <==> exists t :: EncodeString(t) == s
  {
    if IsUtf8(s) {
      EncodeFromUtf8(s, FromUtf8(s).value);
    }
    if t :| EncodeString(t) == s {
      FromUtf8Encode(t);
    }
  }

  /** A character's bytes hold a zero byte exactly when the character is U+0000: every byte
      of a longer character has its high bit set. */
  lemma FirstCharNul(s: seq<U8>)
    requires LeadLen(s) > 0
    ensures NUL in s[..LeadLen(s)] <==> DecodeChar(s) == '\0'
  {
    var n := LeadLen(s);
    if n == 1 {
      assert s[..1] == [s[0]];
    } else {
      assert forall i :: 0 <= i < n ==> s[..n][i] >= 0x80;
    }
  }

  /** A well-formed byte string contains a zero byte exactly when its text contains U+0000. */
  lemma {:induction false} NulByteIffNulChar(s: seq<U8>)
    requires IsUtf8(s)
    ensures NUL in s <==> '\0' in FromUtf8(s).value
    decreases |s|
  {
    if s != [] {
      var n := LeadLen(s);
      FirstCharNul(s);
      NulByteIffNulChar(s[n..]);
      assert FromUtf8(s).value == [DecodeChar(s)] + FromUtf8(s[n..]).value;
      assert s == s[..n] + s[n..];
    }
  }

  /** The encoding of a string contains a zero byte exactly when the string contains U+0000. */
  lemma EncodedNul(t: string)
    ensures NUL in EncodeString(t) <==> '\0' in t
  {
    FromUtf8Encode(t);
    NulByteIffNulChar(EncodeString(t));
  }

  /** NUL is a well-formed character (U+0000), so UTF-8 validation alone lets it through. */
  lemma NulIsUtf8()
    ensures FromUtf8([NUL]) == Some(['\0'])
  {
    var none: seq<U8> := [];
    assert [NUL][1..] == none;
    assert FromUtf8(none) == Some([]);
    assert DecodeChar([NUL]) == '\0';
    assert ['\0'] + [] == ['\0'];
  }

  /** A lead byte not followed by its continuation bytes is rejected: `%E4llo` decodes to
      `E4 6C 6C 6F`, which is not UTF-8. */
  lemma TruncatedCharRejected()
    ensures FromUtf8([0xE4, 0x6C, 0x6C, 0x6F]) == None
  {
  }

  /** `C3 A9` (`%C3%A9`) is the single character U+00E9. */
  lemma TwoByteCharExample()
    ensures FromUtf8([0xC3, 0xA9]) == Some(['\U{E9}'])
  {
    var none: seq<U8> := [];
    assert [0xC3 as U8, 0xA9][2..] == none;
    assert FromUtf8(none) == Some([]);
    assert DecodeChar([0xC3, 0xA9]) == '\U{E9}';
    assert ['\U{E9}'] + [] == ['\U{E9}'];
  }

  /** An encoded surrogate (`ED A0 80`, U+D800) and an overlong slash (`C0 AF`) are
      rejected. */
  lemma IllFormedExamples()
    ensures FromUtf8([0xED, 0xA0, 0x80]) == None
    ensures FromUtf8([0xC0, 0xAF]) == None
  {
  }
}
