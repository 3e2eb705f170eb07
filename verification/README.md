# Strict form decoding, modelled in Dafny

This project models the strict `application/x-www-form-urlencoded` extractor of a small
subscription service (`StrictForm` in `src/strict_form.rs`). The extractor runs in five
steps:

1. It reads the request body, up to 16 KiB.
2. It refuses the body if any `%` lacks two hexadecimal digits after it.
3. It splits the body at `&` into segments, skipping empty ones. It splits each segment at
   its first `=` and percent-decodes the key and the value (`+` is a space).
4. It refuses more than 256 pairs.
5. It refuses any key or value that holds a NUL byte or is not well-formed UTF-8. It then
   collects the pairs into a map, where a later duplicate key replaces an earlier one, and
   hands the map to a deserializer.

Each refusal is one `Rejection`, sent back as a status code and a text body.

The project has six modules:

- `Bytes` (`bytes.dfy`): bytes as a `U8` newtype and the shared `Option`/`Result` types.
- `Hex` (`hex.dfy`): `is_hex_digit` and `from_hex`.
- `Percent` (`percent.dfy`): the pre-scan `percent_encoding_is_invalid`, the decoder
  `percent_decode_bytes`, and a form encoder as its inverse. The encoder is the byte
  serializer of the WHATWG URL Standard.
- `FormParse` (`form_parse.dfy`): `parse_raw_form`, the `&` splitter, and the serializer
  that inverts it.
- `Utf8` (`utf8.dfy`): `String::from_utf8`. It accepts the well-formed sequences of
  section 4 of RFC 3629 and decodes them into strings of Unicode scalar values; a UTF-8
  encoder is its inverse.
- `StrictForm` (`strict_form.dfy`):
  - the rejections and `into_response`;
  - the validation steps;
  - the conversion loop;
  - `from_request`.

Each Rust loop is a method with a `while` or `for` loop. Its `ensures` ties the result to a
specification function, and lemmas prove the promised properties about that function. The
specification function is recursive over the input for the loops that walk a sequence
(`ScanFindsInvalid`, `Decode`, `ParsePairs`); for the `=` search in one segment and for the
whole extractor it is a plain function (`ParsePair`, `Extract`).

| method | specification function |
|---|---|
| `PercentEncodingIsInvalid` | `ScanFindsInvalid` |
| `PercentDecodeBytes` | `Decode` |
| `ParseSegment` | `ParsePair` |
| `ParseRawForm` | `ParsePairs` |
| `FromRequest` | `Extract` |

Three parts of the source have no loop of their own and are modelled by a function alone.
The lemmas in the table below state their properties:

| source | function | lemmas |
|---|---|---|
| `is_hex_digit` (src/strict_form.rs:127-130) | `Hex.IsHexDigit` | `Hex.FromHex`, `Hex.DelimitersAreNotHexDigits` |
| the early returns of `from_request` (src/strict_form.rs:74-94) | `StrictForm.Validate` | `StrictForm.ValidateOutcome`, `StrictForm.NulRejected`, `StrictForm.ValidatedForm` |
| the conversion loop (src/strict_form.rs:84-94), as `FromRequest`'s loop invariant | `StrictForm.Collect` | `StrictForm.CollectOutcome`, `StrictForm.CollectLookup`, `StrictForm.CollectSize`, `StrictForm.CollectNulFree` |

## Model

| member | source | states |
|---|---|---|
| Hex.FromHex | src/strict_form.rs:188-196 | a byte has a value exactly when it is a hexadecimal digit, and that value is below 16 |
| Hex.UpperHex | src/strict_form.rs:188-196 | the upper-case digit written for a nibble reads back as that nibble |
| Hex.LowerHex | src/strict_form.rs:188-196 | the lower-case digit written for a nibble reads back as that nibble |
| Hex.FromHexSpellings | src/strict_form.rs:188-196 | every digit is the upper- or lower-case spelling of its value: digits are read case-insensitively |
| Hex.HexPairFitsByte | src/strict_form.rs:170-171 | `16*h + l` of two digits always fits in a byte |
| Hex.DelimitersAreNotHexDigits | src/strict_form.rs:127-130 | no hexadecimal digit is `%`, `&`, `=`, `+` or NUL |
| Percent.ScanFindsInvalidIff | src/strict_form.rs:108-125 | the pre-scan reports a problem exactly when some `%` in the body lacks two hexadecimal digits after it inside the buffer; the 3-byte skip hides no bad `%` |
| Percent.ScanAcceptsBodyWithoutPercent | src/strict_form.rs:108-125 | a body without `%` always passes; `+` is never an error |
| Percent.ScanExamples | src/strict_form.rs:112-121 | a trailing `%`, `%4` and `%zz` are invalid; `%25`, `%2525` (not re-read after the skip), `a+b` and the empty body are valid |
| Percent.PercentEncodingIsInvalid | src/strict_form.rs:108-125 | the scanning loop returns `true` exactly when the body is not well escaped |
| Percent.Decode | src/strict_form.rs:159-186 | the decoded bytes are never longer than the input |
| Percent.DecodeSuffix | src/strict_form.rs:162-183 | one decoding step: `+` gives 0x20, a complete `%XY` gives `16*X+Y` and skips three bytes, any other byte (a bad `%` included) is copied |
| Percent.FallbackIffScanFindsInvalid | src/strict_form.rs:168-177 | the decoder emits a literal `%` on exactly the inputs the pre-scan rejects |
| Percent.PercentDecodeBytes | src/strict_form.rs:159-186 | the decoding loop computes `Decode` of its input |
| Percent.DecodeEncodedByte | src/strict_form.rs:164-178 | decoding an encoded byte followed by anything gives that byte first |
| Percent.DecodeEncode | src/strict_form.rs:159-186 | round trip: decoding the encoding of any bytes gives them back |
| Percent.DecodePlusExamples | src/strict_form.rs:164-167 | `a+b` decodes to `a b` and `%2B` to `+` |
| Percent.DecodeEscapeExamples | src/strict_form.rs:168-177 | `%4a%4A` decodes to `JJ`; `1%` and `%z` keep their `%` |
| Percent.WellEscapedCut | src/strict_form.rs:134-147 | cutting a well-escaped body at a non-digit leaves both sides well escaped |
| Percent.DecodeKeepsNul | src/strict_form.rs:179-182 | a NUL byte in the input is still present after decoding |
| FormParse.IndexOf | src/strict_form.rs:138-144 | the index found holds the byte and no earlier index does; the length when the byte is absent |
| FormParse.IndexOfIsFirst | src/strict_form.rs:138-144 | the first position holding the byte is what the `=` search finds |
| FormParse.Split | src/strict_form.rs:134 | splitting yields at least one piece |
| FormParse.SplitAt | src/strict_form.rs:134 | with a separator present, the pieces are the bytes before it followed by the pieces of the rest |
| FormParse.SplitWithout | src/strict_form.rs:134 | with no separator, the whole input is the only piece |
| FormParse.JoinSplit | src/strict_form.rs:134 | joining the pieces with the separator gives back the input |
| FormParse.SplitJoin | src/strict_form.rs:134 | pieces without the separator come back unchanged from splitting their join |
| FormParse.IndexOfAfterPrefix | src/strict_form.rs:138-144 | in `p + [sep] + rest` with no `sep` in `p`, the first `sep` is right after `p` |
| FormParse.ParsePairParts | src/strict_form.rs:145-154 | a pair is the decoded bytes before the first `=` and the decoded bytes after it; with no `=` the value is empty |
| FormParse.ParseSegment | src/strict_form.rs:138-154 | the `=` search and decoding of one segment compute `ParsePair` |
| FormParse.ParseRawForm | src/strict_form.rs:132-157 | the loop over segments computes `ParsePairs`: one pair per non-empty segment, in order |
| FormParse.ParseSegmentsSkip | src/strict_form.rs:135-137 | an empty segment contributes no pair |
| FormParse.ParseSegmentsPush | src/strict_form.rs:138-154 | a non-empty segment contributes its own pair, ahead of those of later segments |
| FormParse.SkipEmptySegment | src/strict_form.rs:135-137 | skipping an empty segment keeps the loop's pairs on track |
| FormParse.PushSegmentPair | src/strict_form.rs:150-153 | pushing a segment's pair keeps the loop's pairs on track |
| FormParse.ParseSegmentsCons | src/strict_form.rs:134-155 | the pairs of a segment come before those of the segments after it |
| FormParse.ParsePairsAtAmpersand | src/strict_form.rs:134-155 | the pairs of a body are those of its first segment, then those of the rest after the `&` |
| FormParse.ParsePairsNoAmpersand | src/strict_form.rs:134-155 | a body without `&` gives the pair of the whole body, or none when it is empty |
| FormParse.EmptyBodyNoPairs | src/strict_form.rs:132-157 | an empty body yields no pairs |
| FormParse.ParseSegmentsLength | src/strict_form.rs:135-137 | there is exactly one pair per non-empty segment |
| FormParse.NonEmptySegmentBound | src/strict_form.rs:134 | `n` bytes have at most `(n+1)/2` non-empty `&`-separated pieces |
| FormParse.PairCountBound | src/strict_form.rs:132-157 | a body of `n` bytes yields at most `(n+1)/2` pairs |
| FormParse.SegmentsWellEscaped | src/strict_form.rs:134 | every segment of a well-escaped body is well escaped |
| FormParse.PartsWellEscaped | src/strict_form.rs:145-147 | the key and value bytes of a well-escaped segment are well escaped |
| FormParse.NoFallbackAfterScan | src/strict_form.rs:134-149 | once the pre-scan accepts a body, no key or value takes the literal-`%` fallback, because `&` and `=` are not hexadecimal digits |
| FormParse.NulInSegmentReachesPair | src/strict_form.rs:145-154 | a NUL byte in a segment ends up in its decoded key or value |
| FormParse.NulReachesAPair | src/strict_form.rs:132-157 | a NUL byte anywhere in the body ends up in the key or value of some pair |
| FormParse.SerializePassesScan | src/strict_form.rs:108-125 | a serialized form always passes the pre-scan |
| FormParse.ParseEncodedPair | src/strict_form.rs:145-154 | an encoded pair is a non-empty segment that parses back to the pair |
| FormParse.ParseEncodedPairs | src/strict_form.rs:134-155 | encoded segments parse back to the pairs |
| FormParse.ParseSerialize | src/strict_form.rs:132-157 | round trip: parsing a serialized form gives back exactly the pairs, in order, with duplicates and empty keys or values kept |
| Utf8.Width | src/strict_form.rs:91-92 | a character takes at most four bytes |
| Utf8.LeadLen | src/strict_form.rs:91-92 | the well-formed character at the start of the bytes has the length its lead byte announces, at most four and within the input |
| Utf8.FromUtf8 | src/strict_form.rs:91-92 | the conversion succeeds exactly on well-formed UTF-8 |
| Utf8.EncodeCharDecodes | src/strict_form.rs:91-92 | the encoding of a character is one well-formed character, whatever follows it, and decodes back to it |
| Utf8.DecodeCharEncodes | src/strict_form.rs:91-92 | a well-formed character is the encoding of its value: each character has exactly one spelling |
| Utf8.FromUtf8Encode | src/strict_form.rs:91-92 | round trip: converting an encoded string gives the string back |
| Utf8.EncodeFromUtf8 | src/strict_form.rs:91-92 | round trip: encoding a converted string gives the bytes back |
| Utf8.IsUtf8Iff | src/strict_form.rs:91-92 | well-formed UTF-8 is exactly the set of encodings of strings |
| Utf8.FirstCharNul | src/strict_form.rs:86-92 | a character's bytes hold a zero byte exactly when it is U+0000 |
| Utf8.NulByteIffNulChar | src/strict_form.rs:86-92 | well-formed bytes hold a zero byte exactly when their text holds U+0000 |
| Utf8.NulIsUtf8 | src/strict_form.rs:86-89 | a lone NUL is well-formed UTF-8, so the conversion alone would let it through |
| Utf8.TruncatedCharRejected | src/strict_form.rs:91-92 | `E4 6C 6C 6F` is not UTF-8 |
| Utf8.TwoByteCharExample | src/strict_form.rs:91-92 | `C3 A9` is U+00E9 |
| Utf8.IllFormedExamples | src/strict_form.rs:91-92 | an encoded surrogate and an overlong form are refused |
| StrictForm.Status | src/strict_form.rs:37-44 | 422 exactly for `InvalidUtf8`, 413 exactly for `PayloadTooLarge`, 400 for every other rejection |
| StrictForm.IntoResponse | src/strict_form.rs:35-52 | every rejection gets one of the three statuses; a structural error's body is its carried message |
| StrictForm.ResponsesTellRejectionsApart | src/strict_form.rs:37-49 | distinct rejections without data get distinct responses |
| StrictForm.StructureMessageCanMimic | src/strict_form.rs:46-49 | a structural error whose message is a variant's name reads exactly like that variant |
| StrictForm.ReadWholeBody | src/strict_form.rs:69-71 | the read succeeds exactly for a delivered body of at most 16384 bytes, unchanged; every failure is `ReadBody` |
| StrictForm.FromRequest | src/strict_form.rs:62-105 | the extractor, with its early returns and conversion loop, computes `Extract` |
| StrictForm.CollectStep | src/strict_form.rs:85-93 | one turn of the conversion loop: NUL or ill-formed UTF-8 fails with `InvalidUtf8`, otherwise the pair is inserted |
| StrictForm.AllAcceptableTail | src/strict_form.rs:85-93 | all pairs pass exactly when the first one does and so do the rest |
| StrictForm.CollectOutcome | src/strict_form.rs:84-94 | the conversion succeeds exactly when every pair has no NUL and is well-formed UTF-8; otherwise it fails with `InvalidUtf8` at the first bad pair |
| StrictForm.LastValueFront | src/strict_form.rs:84-94 | a later pair with the key takes precedence over the first pair |
| StrictForm.CollectLookup | src/strict_form.rs:84-94 | each key in the map holds the value of the last pair with that key; no other keys are added |
| StrictForm.CollectSize | src/strict_form.rs:84-94 | the map has no more entries than there were pairs |
| StrictForm.CollectNulFree | src/strict_form.rs:86-93 | no key or value in the collected map holds U+0000 |
| StrictForm.ValidateOutcome | src/strict_form.rs:74-94 | malformed escapes are refused first, before any counting; then more than 256 pairs; then any pair with NUL or ill-formed UTF-8; exactly 256 pairs pass the cap |
| StrictForm.NulRejected | src/strict_form.rs:86-89 | a NUL byte in an otherwise valid body, raw or as `%00`, gives `InvalidUtf8` |
| StrictForm.ValidatedForm | src/strict_form.rs:74-94 | an accepted form has at most 256 entries and no U+0000, and each key holds the value of its last pair |
| StrictForm.SerializedFormAccepted | src/strict_form.rs:74-94 | a form encoded from at most 256 text pairs without U+0000 is accepted; the map holds exactly the keys of those pairs, each with the value of its last pair |
| StrictForm.TooManySerializedPairs | src/strict_form.rs:78-81 | a well-formed form of more than 256 pairs gives `TooManyFields` |
| StrictForm.NeverPayloadTooLarge | src/strict_form.rs:69-71 | the extractor never answers `PayloadTooLarge`; a body over 16384 bytes gives `ReadBody` |
| StrictForm.ExtractSucceeds | src/strict_form.rs:62-105 | the extractor succeeds exactly when the body arrives within the limit, passes validation and is accepted by the deserializer; the result is the deserializer's |
| StrictForm.SinglePairBody | src/strict_form.rs:132-157 | a body of one `key=value` segment gives that one decoded pair |
| StrictForm.IllFormedPairRejected | src/strict_form.rs:91-92 | a well-escaped single-pair body whose key or value decodes to ill-formed UTF-8 gives `InvalidUtf8` |
| StrictForm.E4lloIllFormed | src/strict_form.rs:159-186 | the value of `name=%E4llo` decodes to `E4 6C 6C 6F`, which is not UTF-8 |

Some members have no counterpart in the source. They are reference definitions, used as
partners of the decoding functions. The round-trip lemmas in the table tie them to the source
(`Percent.DecodeEncode`, `FormParse.ParseSerialize`, `Utf8.FromUtf8Encode`,
`Utf8.EncodeFromUtf8`, `StrictForm.SerializedFormAccepted`):

- `Percent.WellEscaped`: every `%` is followed by two hexadecimal digits.
- `Percent.EncodeByte` and `Percent.Encode`: the form byte serializer of the WHATWG URL
  Standard. The output is well escaped and holds no `&` or `=`.
- `FormParse.Join`: the inverse of `FormParse.Split`.
- `FormParse.EncodePair`, `FormParse.EncodePairs` and `FormParse.Serialize`: a form
  serializer that writes one encoded `key=value` segment per pair.
- `Utf8.EncodeChar` and `Utf8.EncodeString`: the shortest-form UTF-8 encoder. `Utf8.EncodedNul`
  states that an encoded string holds a zero byte exactly when the string holds U+0000.
- `StrictForm.EncodeTextPairs`: text pairs encoded to UTF-8 pair by pair.
- `StrictForm.LastValue` and `StrictForm.LastTextValue`: the value of the last pair with a
  given key, over byte pairs and over text pairs. `StrictForm.LastValueEncoded` states that
  the two agree across `EncodeTextPairs`.

The rejection type has a `PayloadTooLarge` variant, mapped to 413 (src/strict_form.rs:39).
The bounded read's error is mapped to `ReadBody` (src/strict_form.rs:69-71), and no line of
the file constructs `PayloadTooLarge`. The model follows the code: the extractor never
answers `PayloadTooLarge` (`StrictForm.NeverPayloadTooLarge`), and 413 appears only in the
status mapping (`StrictForm.Status`).

## Left out

- The asynchronous body read is not modelled. `BodyRead` stands for its outcome: every byte
  the client sent, or a transport failure. Cancellation and timeouts are left out.
- The serde step (lines 96-101) is a parameter `deserialize: FormMap -> Result<T, string>`.
  It stands for serializing the map and parsing it into `T`; its failures become
  `InvalidFormStructure` with the message.
- `StrictForm.FromRequest` calls the serde step once. The separate error of serializing
  the map is not modelled, because serializing a `HashMap<String, String>` cannot fail.
- The `Debug` rendering is modelled only for the variants without data, whose text is the
  variant name (`StrictForm.DebugName`). `into_response` never formats the one variant with
  data.
- `FormMap` is a Dafny `map`, so the iteration order of the `HashMap` (and the field order of
  the serialized map) is not modelled. Only the final contents are.
- `FormParse.Split` stands for the library splitter `slice::split` that `parse_raw_form`
  iterates over. Its own loop is not part of this model.
- `Utf8.FromUtf8` stands for the library function `String::from_utf8`, as specified by
  section 4 of RFC 3629. Its implementation is not part of this model, and neither is the
  `contains` search used by the NUL check.
- The name and email validators, the request handlers, `configuration.rs`,
  `email_client.rs`, the application wiring and the tests are not part of this model.
- Allocation and capacity (`Vec::with_capacity`, `to_vec`) are left out.
