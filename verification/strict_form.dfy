/** The `StrictForm` extractor: reads a bounded request body, rejects malformed
    percent-encoding, splits the body into decoded pairs, caps their number, rejects NUL
    bytes and ill-formed UTF-8 in keys and values, collects the pairs into a map and hands
    it to a deserializer. Each failure is one `Rejection`, rendered as a status and a text
    body. */
module StrictForm {
  import opened Bytes
  import opened Percent
  import opened FormParse
  import opened Utf8

  /** The largest body the extractor reads, in bytes (16 KiB). */
  const MAX_BODY_BYTES: nat := 16 * 1024

  /** The largest number of pairs a body may hold. */
  const MAX_FIELDS: nat := 256

  /** Why a request was refused. */
  datatype Rejection =
    | ReadBody
    | PayloadTooLarge
    | InvalidPercentEncoding
    | InvalidUtf8
    | TooManyFields
    | InvalidFormStructure(message: string)

  /** An HTTP response: a status code and a text body. */
  datatype Response = Response(status: nat, body: string)

  const BAD_REQUEST: nat := 400
  const PAYLOAD_TOO_LARGE: nat := 413
  const UNPROCESSABLE_ENTITY: nat := 422

  /** The status of a rejection: ill-formed text is 422, an oversized payload 413, and
      everything else a plain 400. */
  function Status(r: Rejection): (code: nat)
    ensures code == UNPROCESSABLE_ENTITY <==> r.InvalidUtf8?
    ensures code == PAYLOAD_TOO_LARGE <==> r.PayloadTooLarge?
    ensures code == BAD_REQUEST <==> !r.InvalidUtf8? && !r.PayloadTooLarge?
  {
    match r
    case ReadBody => BAD_REQUEST
    case PayloadTooLarge => PAYLOAD_TOO_LARGE
    case InvalidPercentEncoding => BAD_REQUEST
    case InvalidUtf8 => UNPROCESSABLE_ENTITY
    case TooManyFields => BAD_REQUEST
    case InvalidFormStructure(_) => BAD_REQUEST
  }

  /** The derived `Debug` text of a rejection without data: the variant's name. */
  function DebugName(r: Rejection): string
    requires !r.InvalidFormStructure?
  {
    match r
    case ReadBody => "ReadBody"
    case PayloadTooLarge => "PayloadTooLarge"
    case InvalidPercentEncoding => "InvalidPercentEncoding"
    case InvalidUtf8 => "InvalidUtf8"
    case TooManyFields => "TooManyFields"
  }

  /** The response for a rejection: its status, and as body the deserializer's message for a
      structural error or the variant's name for any other. */
  function IntoResponse(r: Rejection): (resp: Response)
    ensures resp.status in {BAD_REQUEST, PAYLOAD_TOO_LARGE, UNPROCESSABLE_ENTITY}
    ensures resp.status == Status(r)
    ensures r.InvalidFormStructure? ==> resp.body == r.message
  {
    match r
    case InvalidFormStructure(s) => Response(Status(r), s)
    case _ => Response(Status(r), DebugName(r))
  }

  /** Distinct rejections without data give distinct responses. */
  lemma ResponsesTellRejectionsApart(r1: Rejection, r2: Rejection)
    requires !r1.InvalidFormStructure? && !r2.InvalidFormStructure?
    requires IntoResponse(r1) == IntoResponse(r2)
    ensures r1 == r2
  {
  }

  /** A structural error is sent as its message alone, so one whose message is a variant's
      name reads exactly like that variant. */
  lemma StructureMessageCanMimic()
    ensures IntoResponse(InvalidFormStructure("TooManyFields")) == IntoResponse(TooManyFields)
  {
  }

  /** The decoded form, as text keys and values. */
  type FormMap = map<string, string>

  /** A decoded pair the conversion loop keeps: no NUL byte, both sides well-formed UTF-8. */
  predicate Acceptable(p: RawPair) {
    NUL !in p.0 && NUL !in p.1 && IsUtf8(p.0) && IsUtf8(p.1)
  }

  predicate AllAcceptable(pairs: seq<RawPair>) {
    forall i :: 0 <= i < |pairs| ==> Acceptable(pairs[i])
  }

  /** The text of well-formed bytes. */
  function Text(b: seq<U8>): string
    requires IsUtf8(b)
  {
    FromUtf8(b).value
  }

  /** The conversion loop from the pair at the front on: a NUL byte or ill-formed UTF-8 in a
      key or value stops it with `InvalidUtf8`; otherwise each pair is inserted into the
      map, replacing any earlier value of the same key. */
  function Collect(pairs: seq<RawPair>, acc: FormMap): Result<FormMap, Rejection>
    decreases |pairs|
  {
    if pairs == [] then Success(acc)
    else
      var rawK := pairs[0].0;
      var rawV := pairs[0].1;
      if NUL in rawK || NUL in rawV then Failure(InvalidUtf8)
      else if FromUtf8(rawK).None? || FromUtf8(rawV).None? then Failure(InvalidUtf8)
      else Collect(pairs[1..], acc[FromUtf8(rawK).value := FromUtf8(rawV).value])
  }

  /** The validation steps, in order: the pre-scan, the split, the field cap and the
      conversion of every pair. */
  function Validate(whole: seq<U8>): Result<FormMap, Rejection> {
    if ScanFindsInvalid(whole) then Failure(InvalidPercentEncoding)
    else if |ParsePairs(whole)| > MAX_FIELDS then Failure(TooManyFields)
    else Collect(ParsePairs(whole), map[])
  }

  /** What reading the body gives: every byte the client sent, or a transport failure. */
  datatype BodyRead = Delivered(bytes: seq<U8>) | TransportError

  /** Reading the body with a limit: a failure, or a body over the limit, is `ReadBody`. */
  function ReadWholeBody(read: BodyRead): (r: Result<seq<U8>, Rejection>)
    ensures r.Success? <==> read.Delivered? && |read.bytes| <= MAX_BODY_BYTES
    ensures r.Success? ==> r.value == read.bytes
    ensures r.Failure? ==> r.error == ReadBody
  {
    match read
    case TransportError => Failure(ReadBody)
    case Delivered(bytes) =>
      if |bytes| > MAX_BODY_BYTES then Failure(ReadBody) else Success(bytes)
  }

  /** The whole extractor: read, validate, then deserialize the map; a deserializer error
      becomes `InvalidFormStructure` carrying its message. */
  function Extract<T>(read: BodyRead, deserialize: FormMap -> Result<T, string>)
    : Result<T, Rejection>
  {
    var whole := ReadWholeBody(read);
    if whole.Failure? then Failure(whole.error)
    else
      var form := Validate(whole.value);
      if form.Failure? then Failure(form.error)
      else
        var t := deserialize(form.value);
        if t.Failure? then Failure(InvalidFormStructure(t.error)) else Success(t.value)
  }

  /** `from_request`: the validation steps with their early returns and the loop that
      converts the pairs and fills the map. */
  method FromRequest<T>(read: BodyRead, deserialize: FormMap -> Result<T, string>)
    returns (res: Result<T, Rejection>)
    ensures res == Extract(read, deserialize)
  {
    var body := ReadWholeBody(read);
    if body.Failure? {
      return Failure(ReadBody);
    }
    var whole := body.value;

    var invalid := PercentEncodingIsInvalid(whole);
    if invalid {
      return Failure(InvalidPercentEncoding);
    }

    var parsed := ParseRawForm(whole);
    if |parsed| > MAX_FIELDS {
      return Failure(TooManyFields);
    }

    var formMap: FormMap := map[];
    for n := 0 to |parsed|
      invariant Collect(parsed[n..], formMap) == Collect(parsed, map[])
    {
      var rawK, rawV := parsed[n].0, parsed[n].1;
      CollectStep(parsed, n, formMap);
      if NUL in rawK || NUL in rawV {
        return Failure(InvalidUtf8);
      }
      var k := FromUtf8(rawK);
      if k.None? {
        return Failure(InvalidUtf8);
      }
      var v := FromUtf8(rawV);
      if v.None? {
        return Failure(InvalidUtf8);
      }
      formMap := formMap[k.value := v.value];
    }
    assert parsed[|parsed|..] == [];

    var t := deserialize(formMap);
    if t.Failure? {
      return Failure(InvalidFormStructure(t.error));
    }
    return Success(t.value);
  }

  /** One turn of the conversion loop, on the pairs from index `n`. */
  lemma CollectStep(pairs: seq<RawPair>, n: nat, acc: FormMap)
    requires n < |pairs|
    ensures (NUL in pairs[n].0 || NUL in pairs[n].1) ==>
      Collect(pairs[n..], acc) == Failure(InvalidUtf8)
    ensures (FromUtf8(pairs[n].0).None? || FromUtf8(pairs[n].1).None?) ==>
      Collect(pairs[n..], acc) == Failure(InvalidUtf8)
    ensures (NUL !in pairs[n].0 && NUL !in pairs[n].1 && FromUtf8(pairs[n].0).Some?
      && FromUtf8(pairs[n].1).Some?) ==>
      Collect(pairs[n..], acc) ==
      Collect(pairs[n + 1..], acc[FromUtf8(pairs[n].0).value := FromUtf8(pairs[n].1).value])
  {
    assert pairs[n..][0] == pairs[n];
    assert pairs[n..][1..] == pairs[n + 1..];
  }

  /** The pairs after the first all being acceptable. */
  lemma AllAcceptableTail(pairs: seq<RawPair>)
    requires pairs != []
    ensures AllAcceptable(pairs) <==> Acceptable(pairs[0]) && AllAcceptable(pairs[1..])
  {
    if Acceptable(pairs[0]) && AllAcceptable(pairs[1..]) {
      forall i | 0 <= i < |pairs|
        ensures Acceptable(pairs[i])
      {
        if i > 0 {
          assert pairs[i] == pairs[1..][i - 1];
        }
      }
    }
  }

  /** The conversion loop succeeds exactly when every pair is acceptable, and otherwise fails
      with `InvalidUtf8`: the first bad pair ends it. */
  lemma {:induction false} CollectOutcome(pairs: seq<RawPair>, acc: FormMap)
    ensures Collect(pairs, acc).Success? <==> AllAcceptable(pairs)
    ensures Collect(pairs, acc).Failure? ==> Collect(pairs, acc).error == InvalidUtf8
    decreases |pairs|
  {
    if pairs != [] {
      AllAcceptableTail(pairs);
      if Acceptable(pairs[0]) {
        CollectOutcome(pairs[1..], acc[Text(pairs[0].0) := Text(pairs[0].1)]);
      }
    }
  }

  /** The text of the value of the last pair whose key reads as `key`, if there is one. */
  function LastValue(pairs: seq<RawPair>, key: string): Option<string>
    requires AllAcceptable(pairs)
    decreases |pairs|
  {
    if pairs == [] then None
    else
      var last := pairs[|pairs| - 1];
      if Text(last.0) == key then Some(Text(last.1))
      else LastValue(pairs[..|pairs| - 1], key)
  }

  /** `LastValue` seen from the front: a later pair with the key wins over the first. */
  lemma {:induction false} LastValueFront(pairs: seq<RawPair>, key: string)
    requires pairs != [] && AllAcceptable(pairs)
    ensures AllAcceptable(pairs[1..])
    ensures LastValue(pairs[1..], key).Some? ==> LastValue(pairs, key) == LastValue(pairs[1..], key)
    ensures LastValue(pairs[1..], key).None? && Text(pairs[0].0) == key ==>
      LastValue(pairs, key) == Some(Text(pairs[0].1))
    ensures LastValue(pairs[1..], key).None? && Text(pairs[0].0) != key ==>
      LastValue(pairs, key).None?
    decreases |pairs|
  {
    AllAcceptableTail(pairs);
    var n := |pairs|;
    if n > 1 {
      var last := pairs[n - 1];
      var init := pairs[..n - 1];
      assert pairs[1..][..n - 2] == init[1..];
      assert pairs[1..][n - 2] == last;
      assert init[0] == pairs[0];
      if Text(last.0) != key {
        LastValueFront(init, key);
      }
    } else {
      var none: seq<RawPair> := [];
      assert pairs[1..] == none && pairs[..0] == none;
    }
  }

  /** Looking a key up in the collected map: the value of the last pair with that key, or
      the value already in the map when no pair has it. */
  lemma {:induction false} CollectLookup(pairs: seq<RawPair>, acc: FormMap, key: string)
    requires AllAcceptable(pairs)
    ensures Collect(pairs, acc).Success?
    ensures LastValue(pairs, key).Some? ==>
      key in Collect(pairs, acc).value
      && Collect(pairs, acc).value[key] == LastValue(pairs, key).value
    ensures LastValue(pairs, key).None? ==> (key in Collect(pairs, acc).value <==> key in acc)
    ensures LastValue(pairs, key).None? && key in acc ==>
      Collect(pairs, acc).value[key] == acc[key]
    decreases |pairs|
  {
    CollectOutcome(pairs, acc);
    if pairs != [] {
      LastValueFront(pairs, key);
      var next := acc[Text(pairs[0].0) := Text(pairs[0].1)];
      assert Collect(pairs, acc) == Collect(pairs[1..], next);
      CollectLookup(pairs[1..], next, key);
    }
  }

  /** The map never has more entries than there were pairs. */
  lemma {:induction false} CollectSize(pairs: seq<RawPair>, acc: FormMap)
    ensures Collect(pairs, acc).Success? ==> |Collect(pairs, acc).value| <= |acc| + |pairs|
    decreases |pairs|
  {
    if pairs != [] && Acceptable(pairs[0]) {
      var k := Text(pairs[0].0);
      var next := acc[k := Text(pairs[0].1)];
      assert next.Keys == acc.Keys + {k};
      CollectSize(pairs[1..], next);
    }
  }

  /** No key or value in a map without U+0000. */
  predicate NulFree(m: FormMap) {
    forall key :: key in m ==> '\0' !in key && '\0' !in m[key]
  }

  /** The collected map holds no U+0000 anywhere. */
  lemma {:induction false} CollectNulFree(pairs: seq<RawPair>, acc: FormMap)
    requires NulFree(acc)
    ensures Collect(pairs, acc).Success? ==> NulFree(Collect(pairs, acc).value)
    decreases |pairs|
  {
    if pairs != [] && Acceptable(pairs[0]) {
      NulByteIffNulChar(pairs[0].0);
      NulByteIffNulChar(pairs[0].1);
      CollectNulFree(pairs[1..], acc[Text(pairs[0].0) := Text(pairs[0].1)]);
    }
  }

  /** The outcome of validation, step by step: malformed escapes are refused first, before
      any counting; then more than `MAX_FIELDS` pairs; then any pair with a NUL byte or
      ill-formed UTF-8. Exactly 256 pairs pass the cap. */
  lemma ValidateOutcome(whole: seq<U8>)
    ensures Validate(whole) == Failure(InvalidPercentEncoding) <==> !WellEscaped(whole)
    ensures Validate(whole) == Failure(TooManyFields) <==>
      WellEscaped(whole) && |ParsePairs(whole)| > MAX_FIELDS
    ensures Validate(whole) == Failure(InvalidUtf8) <==>
      WellEscaped(whole) && |ParsePairs(whole)| <= MAX_FIELDS
      && !AllAcceptable(ParsePairs(whole))
    ensures Validate(whole).Success? <==>
      WellEscaped(whole) && |ParsePairs(whole)| <= MAX_FIELDS
      && AllAcceptable(ParsePairs(whole))
  {
    ScanFindsInvalidIff(whole);
    CollectOutcome(ParsePairs(whole), map[]);
  }

  /** A NUL byte anywhere in an otherwise valid body, raw or escaped as `%00`, is refused
      as `InvalidUtf8`. */
  lemma NulRejected(whole: seq<U8>)
    requires WellEscaped(whole) && |ParsePairs(whole)| <= MAX_FIELDS
    requires NUL in whole || exists p :: p in ParsePairs(whole) && (NUL in p.0 || NUL in p.1)
    ensures Validate(whole) == Failure(InvalidUtf8)
  {
    ValidateOutcome(whole);
    if NUL in whole {
      NulReachesAPair(whole);
    }
  }

  /** What a successful validation gives: at most `MAX_FIELDS` entries, no U+0000, and for
      each key the value of the last pair with that key. */
  lemma ValidatedForm(whole: seq<U8>, key: string)
    requires Validate(whole).Success?
    ensures |Validate(whole).value| <= MAX_FIELDS
    ensures NulFree(Validate(whole).value)
    ensures AllAcceptable(ParsePairs(whole))
    ensures key in Validate(whole).value <==> LastValue(ParsePairs(whole), key).Some?
    ensures key in Validate(whole).value ==>
      Validate(whole).value[key] == LastValue(ParsePairs(whole), key).value
  {
    var pairs := ParsePairs(whole);
    ValidateOutcome(whole);
    CollectSize(pairs, map[]);
    CollectNulFree(pairs, map[]);
    CollectLookup(pairs, map[], key);
  }

  /** Pairs of text, encoded to UTF-8 bytes. */
  function EncodeTextPairs(pairs: seq<(string, string)>): (raw: seq<RawPair>)
    ensures |raw| == |pairs|
    ensures forall i :: 0 <= i < |pairs| ==>
      raw[i] == (EncodeString(pairs[i].0), EncodeString(pairs[i].1))
    decreases |pairs|
  {
    if pairs == [] then []
    else [(EncodeString(pairs[0].0), EncodeString(pairs[0].1))] + EncodeTextPairs(pairs[1..])
  }

  /** The value of the last text pair whose key is `key`, if there is one. */
  function LastTextValue(pairs: seq<(string, string)>, key: string): Option<string>
    decreases |pairs|
  {
    if pairs == [] then None
    else if pairs[|pairs| - 1].0 == key then Some(pairs[|pairs| - 1].1)
    else LastTextValue(pairs[..|pairs| - 1], key)
  }

  /** Encoding text pairs to bytes and reading them back as text finds the same last value
      for every key. */
  lemma {:induction false} LastValueEncoded(pairs: seq<(string, string)>, key: string)
    requires AllAcceptable(EncodeTextPairs(pairs))
    ensures LastValue(EncodeTextPairs(pairs), key) == LastTextValue(pairs, key)
    decreases |pairs|
  {
    if pairs != [] {
      var init := pairs[..|pairs| - 1];
      EncodeTextPairsInit(pairs);
      LastValueEncoded(init, key);
      LastValueEncodedStep(pairs, key);
    }
  }

  /** Dropping the last text pair drops the last encoded pair. */
  lemma EncodeTextPairsInit(pairs: seq<(string, string)>)
    requires pairs != [] && AllAcceptable(EncodeTextPairs(pairs))
    ensures EncodeTextPairs(pairs)[..|pairs| - 1] == EncodeTextPairs(pairs[..|pairs| - 1])
    ensures AllAcceptable(EncodeTextPairs(pairs[..|pairs| - 1]))
  {
    var n := |pairs| - 1;
    var front := pairs[..n];
    var raw := EncodeTextPairs(pairs);
    var init := EncodeTextPairs(front);
    forall i | 0 <= i < n
      ensures raw[..n][i] == init[i] && Acceptable(init[i])
    {
      assert front[i] == pairs[i];
      assert init[i] == (EncodeString(front[i].0), EncodeString(front[i].1));
      assert raw[i] == (EncodeString(pairs[i].0), EncodeString(pairs[i].1));
    }
    assert raw[..n] == init;
  }

  /** One step of `LastValueEncoded`: the last pair decides, or the pairs before it do. */
  lemma LastValueEncodedStep(pairs: seq<(string, string)>, key: string)
    requires pairs != [] && AllAcceptable(EncodeTextPairs(pairs))
    requires AllAcceptable(EncodeTextPairs(pairs[..|pairs| - 1]))
    requires EncodeTextPairs(pairs)[..|pairs| - 1] == EncodeTextPairs(pairs[..|pairs| - 1])
    requires LastValue(EncodeTextPairs(pairs[..|pairs| - 1]), key)
      == LastTextValue(pairs[..|pairs| - 1], key)
    ensures LastValue(EncodeTextPairs(pairs), key) == LastTextValue(pairs, key)
  {
    var last := pairs[|pairs| - 1];
    FromUtf8Encode(last.0);
    FromUtf8Encode(last.1);
    assert EncodeTextPairs(pairs)[|pairs| - 1] == (EncodeString(last.0), EncodeString(last.1));
  }

  /** What validation gives on a body whose pairs are `raw`. */
  lemma ValueOf(whole: seq<U8>, raw: seq<RawPair>, key: string)
    requires Validate(whole).Success? && ParsePairs(whole) == raw
    ensures AllAcceptable(raw)
    ensures key in Validate(whole).value <==> LastValue(raw, key).Some?
    ensures key in Validate(whole).value ==> Validate(whole).value[key] == LastValue(raw, key).value
  {
    ValidatedForm(whole, key);
  }

  /** A form an encoder writes from at most 256 pairs of text without U+0000 is accepted,
      and the map holds, for each key, the value of its last pair. */
  lemma SerializedFormAccepted(pairs: seq<(string, string)>, key: string)
    requires |pairs| <= MAX_FIELDS
    requires forall i :: 0 <= i < |pairs| ==> '\0' !in pairs[i].0 && '\0' !in pairs[i].1
    ensures Validate(Serialize(EncodeTextPairs(pairs))).Success?
    ensures AllAcceptable(EncodeTextPairs(pairs))
    ensures key in Validate(Serialize(EncodeTextPairs(pairs))).value <==>
      LastTextValue(pairs, key).Some?
    ensures key in Validate(Serialize(EncodeTextPairs(pairs))).value ==>
      Validate(Serialize(EncodeTextPairs(pairs))).value[key] == LastTextValue(pairs, key).value
  {
    var raw := EncodeTextPairs(pairs);
    forall i | 0 <= i < |raw|
      ensures Acceptable(raw[i])
    {
      EncodedNul(pairs[i].0);
      EncodedNul(pairs[i].1);
      FromUtf8Encode(pairs[i].0);
      FromUtf8Encode(pairs[i].1);
    }
    SerializePassesScan(raw);
    ScanFindsInvalidIff(Serialize(raw));
    ParseSerialize(raw);
    ValidateOutcome(Serialize(raw));
    ValueOf(Serialize(raw), raw, key);
    LastValueEncoded(pairs, key);
  }

  /** A well-formed body of more than 256 pairs is refused as `TooManyFields`. */
  lemma TooManySerializedPairs(pairs: seq<RawPair>)
    requires |pairs| > MAX_FIELDS
    ensures Validate(Serialize(pairs)) == Failure(TooManyFields)
  {
    SerializePassesScan(pairs);
    ParseSerialize(pairs);
  }

  /** The extractor never answers `PayloadTooLarge`: an oversized body is `ReadBody`. */
  lemma NeverPayloadTooLarge<T>(read: BodyRead, deserialize: FormMap -> Result<T, string>)
    ensures Extract(read, deserialize) != Failure(PayloadTooLarge)
    ensures read.Delivered? && |read.bytes| > MAX_BODY_BYTES ==>
      Extract(read, deserialize) == Failure(ReadBody)
  {
    if read.Delivered? {
      CollectOutcome(ParsePairs(read.bytes), map[]);
    }
  }

  /** The extractor succeeds exactly when the body arrives within the limit, passes
      validation and the deserializer accepts the map; its result is the deserializer's. */
  lemma ExtractSucceeds<T>(read: BodyRead, deserialize: FormMap -> Result<T, string>)
    ensures Extract(read, deserialize).Success? <==>
      read.Delivered? && |read.bytes| <= MAX_BODY_BYTES
      && Validate(read.bytes).Success? && deserialize(Validate(read.bytes).value).Success?
    ensures Extract(read, deserialize).Success? ==>
      Extract(read, deserialize).value == deserialize(Validate(read.bytes).value).value
  {
  }

  /** A body holding a single `key=value` segment gives that one pair. */
  lemma SinglePairBody(key: seq<U8>, val: seq<U8>)
    requires AMPERSAND !in key && AMPERSAND !in val && EQUALS !in key
    ensures ParsePairs(key + [EQUALS] + val) == [(Decode(key), Decode(val))]
  {
    var whole := key + [EQUALS] + val;
    forall j | 0 <= j < |whole|
      ensures whole[j] != AMPERSAND
    {
      if j < |key| {
        assert whole[j] == key[j];
      } else if j > |key| {
        assert whole[j] == val[j - |key| - 1];
      }
    }
    IndexOfIsFirst(whole, AMPERSAND, |whole|);
    ParsePairsNoAmpersand(whole);
    IndexOfAfterPrefix(key, EQUALS, val);
    assert whole[..|key|] == key && whole[|key| + 1..] == val;
  }

  /** A well-escaped single-pair body whose key or value decodes to ill-formed UTF-8 is
      refused as `InvalidUtf8`. */
  lemma IllFormedPairRejected(key: seq<U8>, val: seq<U8>)
    requires AMPERSAND !in key && AMPERSAND !in val && EQUALS !in key
    requires WellEscaped(key + [EQUALS] + val)
    requires !IsUtf8(Decode(key)) || !IsUtf8(Decode(val))
    ensures Validate(key + [EQUALS] + val) == Failure(InvalidUtf8)
  {
    var whole := key + [EQUALS] + val;
    SinglePairBody(key, val);
    assert !Acceptable(ParsePairs(whole)[0]);
    ValidateOutcome(whole);
  }

  /** The value of `name=%E4llo` decodes to `E4 6C 6C 6F`, which is not UTF-8. */
  lemma E4lloIllFormed()
    ensures Decode([0x25, 0x45, 0x34, 0x6C, 0x6C, 0x6F]) == [0xE4, 0x6C, 0x6C, 0x6F]
    ensures !IsUtf8(Decode([0x25, 0x45, 0x34, 0x6C, 0x6C, 0x6F]))
  {
    var val: seq<U8> := [0x25, 0x45, 0x34, 0x6C, 0x6C, 0x6F];
    assert val[3..] == [0x6C, 0x6C, 0x6F];
    TruncatedCharRejected();
  }
}
