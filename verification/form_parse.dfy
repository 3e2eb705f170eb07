/** The structural splitter of the strict form decoder: the body is cut at every `&`, empty
    segments are skipped, and each remaining segment is cut at its first `=` into a key and
    a value, each decoded on its own. */
module FormParse {
  import opened Bytes
  import opened Hex
  import opened Percent

  /** A decoded key and value, still as bytes. */
  type RawPair = (seq<U8>, seq<U8>)

  /** The index of the first `b` in `s`, or `|s|` when there is none. */
  function IndexOf(s: seq<U8>, b: U8): (k: nat)
    ensures k <= |s|
    ensures k < |s| ==> s[k] == b
    ensures forall j :: 0 <= j < k ==> s[j] != b
    decreases |s|
  {
    if s == [] then 0
    else if s[0] == b then 0
    else 1 + IndexOf(s[1..], b)
  }

  /** The pieces of `s` between occurrences of `sep`, as a slice split yields them: one more
      piece than there are separators, empty pieces included. */
  function Split(s: seq<U8>, sep: U8): (r: seq<seq<U8>>)
    ensures |r| >= 1
    decreases |s|
  {
    var k := IndexOf(s, sep);
    if k == |s| then [s]
    else [s[..k]] + Split(s[k + 1..], sep)
  }

  /** Splitting at the first separator. */
  lemma SplitAt(s: seq<U8>, sep: U8)
    requires IndexOf(s, sep) < |s|
    ensures Split(s, sep) == [s[..IndexOf(s, sep)]] + Split(s[IndexOf(s, sep) + 1..], sep)
  {
  }

  /** Splitting bytes without the separator. */
  lemma SplitWithout(s: seq<U8>, sep: U8)
    requires IndexOf(s, sep) == |s|
    ensures Split(s, sep) == [s]
  {
  }

  /** The pieces put back together with `sep` between each two. */
  function Join(pieces: seq<seq<U8>>, sep: U8): seq<U8>
    requires |pieces| >= 1
    decreases |pieces|
  {
    if |pieces| == 1 then pieces[0]
    else pieces[0] + [sep] + Join(pieces[1..], sep)
  }

  /** Splitting loses nothing: joining the pieces again gives the original bytes. */
  lemma {:induction false} JoinSplit(s: seq<U8>, sep: U8)
    ensures Join(Split(s, sep), sep) == s
    decreases |s|
  {
    var k := IndexOf(s, sep);
    if k < |s| {
      JoinSplit(s[k + 1..], sep);
      assert s[..k] + [sep] + s[k + 1..] == s;
    }
  }

  /** Pieces without the separator come back unchanged from splitting their join. */
  lemma {:induction false} SplitJoin(pieces: seq<seq<U8>>, sep: U8)
    requires |pieces| >= 1
    requires forall i :: 0 <= i < |pieces| ==> sep !in pieces[i]
    ensures Split(Join(pieces, sep), sep) == pieces
    decreases |pieces|
  {
    var s := Join(pieces, sep);
    if |pieces| == 1 {
      assert IndexOf(s, sep) == |s|;
    } else {
      var p := pieces[0];
      var rest := Join(pieces[1..], sep);
      assert s == p + [sep] + rest;
      IndexOfAfterPrefix(p, sep, rest);
      assert s[..|p|] == p;
      assert s[|p| + 1..] == rest;
      SplitJoin(pieces[1..], sep);
      assert [pieces[0]] + pieces[1..] == pieces;
    }
  }

  /** The first `sep` of `p + [sep] + rest` is the one after `p` when `p` has none. */
  lemma IndexOfAfterPrefix(p: seq<U8>, sep: U8, rest: seq<U8>)
    requires sep !in p
    ensures IndexOf(p + [sep] + rest, sep) == |p|
  {
    var s := p + [sep] + rest;
    assert s[|p|] == sep;
    assert forall j :: 0 <= j < |p| ==> s[j] == p[j];
    IndexOfIsFirst(s, sep, |p|);
  }

  /** The bytes before the first `=` of a segment (all of it when there is no `=`). */
  function KeyPart(seg: seq<U8>): seq<U8> {
    seg[..IndexOf(seg, EQUALS)]
  }

  /** The bytes after the first `=` of a segment (none when there is no `=`). */
  function ValuePart(seg: seq<U8>): seq<U8> {
    var k := IndexOf(seg, EQUALS);
    if k < |seg| then seg[k + 1..] else []
  }

  /** One segment as a pair: split at the first `=` and decode both sides; with no `=` the
      whole segment is the key and the value is empty. */
  function ParsePair(seg: seq<U8>): RawPair {
    var k := IndexOf(seg, EQUALS);
    if k < |seg| then (Decode(seg[..k]), Decode(seg[k + 1..]))
    else (Decode(seg), [])
  }

  /** The key of a pair is the decoded bytes before the first `=`, the value the decoded
      bytes after it (empty when there is no `=`). */
  lemma ParsePairParts(seg: seq<U8>)
    ensures ParsePair(seg) == (Decode(KeyPart(seg)), Decode(ValuePart(seg)))
  {
    if IndexOf(seg, EQUALS) == |seg| {
      assert KeyPart(seg) == seg && ValuePart(seg) == [];
      assert Decode([]) == [];
    }
  }

  /** The pair of one segment, or none when the segment is empty. */
  function PairOf(seg: seq<U8>): seq<RawPair> {
    if seg == [] then [] else [ParsePair(seg)]
  }

  /** One pair per non-empty segment, in order. */
  function ParseSegments(segs: seq<seq<U8>>): seq<RawPair>
    decreases |segs|
  {
    if segs == [] then [] else PairOf(segs[0]) + ParseSegments(segs[1..])
  }

  /** The pairs of a body. */
  function ParsePairs(data: seq<U8>): seq<RawPair> {
    ParseSegments(Split(data, AMPERSAND))
  }

  /** One non-empty segment: the loop looking for the first `=`, then the decoding of the
      two sides (or of the whole segment, with an empty value, when there is no `=`). */
  method ParseSegment(pair: seq<U8>) returns (p: RawPair)
    ensures p == ParsePair(pair)
  {
    var eqIdx := |pair|;
    var i := 0;
    while i < |pair|
      invariant 0 <= i <= |pair|
      invariant forall j :: 0 <= j < i ==> pair[j] != EQUALS
    {
      if pair[i] == EQUALS {
        eqIdx := i;
        break;
      }
      i := i + 1;
    }
    IndexOfIsFirst(pair, EQUALS, eqIdx);
    if eqIdx < |pair| {
      var key := PercentDecodeBytes(pair[..eqIdx]);
      var val := PercentDecodeBytes(pair[eqIdx + 1..]);
      p := (key, val);
    } else {
      var key := PercentDecodeBytes(pair);
      p := (key, []);
    }
  }

  /** `parse_raw_form`: walks the `&`-separated segments of the body (`Split` stands for the
      slice splitter it iterates over) and pushes one decoded pair per non-empty segment. */
  method ParseRawForm(data: seq<U8>) returns (out: seq<RawPair>)
    ensures out == ParsePairs(data)
  {
    var segs := Split(data, AMPERSAND);
    out := [];
    for n := 0 to |segs|
      invariant out + ParseSegments(segs[n..]) == ParseSegments(segs)
    {
      var pair := segs[n];
      if pair == [] {
        SkipEmptySegment(out, segs, n);
        continue;
      }
      var p := ParseSegment(pair);
      PushSegmentPair(out, segs, n, p);
      out := out + [p];
    }
    assert segs[|segs|..] == [];
  }

  /** An empty segment adds no pair. */
  lemma SkipEmptySegment(out: seq<RawPair>, segs: seq<seq<U8>>, n: nat)
    requires n < |segs| && segs[n] == []
    requires out + ParseSegments(segs[n..]) == ParseSegments(segs)
    ensures out + ParseSegments(segs[n + 1..]) == ParseSegments(segs)
  {
    ParseSegmentsSkip(segs, n);
  }

  /** A non-empty segment adds its pair at the end. */
  lemma PushSegmentPair(out: seq<RawPair>, segs: seq<seq<U8>>, n: nat, p: RawPair)
    requires n < |segs| && segs[n] != [] && p == ParsePair(segs[n])
    requires out + ParseSegments(segs[n..]) == ParseSegments(segs)
    ensures (out + [p]) + ParseSegments(segs[n + 1..]) == ParseSegments(segs)
  {
    ParseSegmentsPush(segs, n);
    AppendOne(out, p, ParseSegments(segs[n..]), ParseSegments(segs[n + 1..]), ParseSegments(segs));
  }

  /** Moving the first pair still to come onto the end of the pairs already pushed. */
  lemma AppendOne(out: seq<RawPair>, p: RawPair, here: seq<RawPair>, later: seq<RawPair>,
                  all: seq<RawPair>)
    requires out + here == all && here == [p] + later
    ensures (out + [p]) + later == all
  {
  }

  /** The pairs of the segments from an empty one at index `n` on are those from `n + 1`. */
  lemma ParseSegmentsSkip(segs: seq<seq<U8>>, n: nat)
    requires n < |segs| && segs[n] == []
    ensures ParseSegments(segs[n..]) == ParseSegments(segs[n + 1..])
  {
    assert segs[n..][1..] == segs[n + 1..];
  }

  /** The pairs of the segments from a non-empty one at index `n` on start with its pair. */
  lemma ParseSegmentsPush(segs: seq<seq<U8>>, n: nat)
    requires n < |segs| && segs[n] != []
    ensures ParseSegments(segs[n..]) == [ParsePair(segs[n])] + ParseSegments(segs[n + 1..])
  {
    assert segs[n..][1..] == segs[n + 1..];
  }

  /** A position with `b` and no `b` before it is what `IndexOf` finds. */
  lemma IndexOfIsFirst(s: seq<U8>, b: U8, k: nat)
    requires k <= |s|
    requires k < |s| ==> s[k] == b
    requires forall j :: 0 <= j < k ==> s[j] != b
    ensures IndexOf(s, b) == k
  {
  }

  /** When the whole body is well escaped, so is every `&`-separated segment of it. */
  lemma {:induction false} SegmentsWellEscaped(data: seq<U8>)
    requires WellEscaped(data)
    ensures forall seg :: seg in Split(data, AMPERSAND) ==> WellEscaped(seg)
    decreases |data|
  {
    var k := IndexOf(data, AMPERSAND);
    if k < |data| {
      WellEscapedCut(data, k);
      SegmentsWellEscaped(data[k + 1..]);
    }
  }

  /** When a segment is well escaped, so are its key and value parts. */
  lemma PartsWellEscaped(seg: seq<U8>)
    requires WellEscaped(seg)
    ensures WellEscaped(KeyPart(seg)) && WellEscaped(ValuePart(seg))
  {
    var k := IndexOf(seg, EQUALS);
    if k < |seg| {
      WellEscapedCut(seg, k);
    } else {
      assert KeyPart(seg) == seg;
    }
  }

  /** Once the pre-scan accepts a body, decoding the key or the value of any of its segments
      never emits a malformed `%` literally: `&` and `=` are not hexadecimal digits, so no
      valid escape straddles a split point. */
  lemma NoFallbackAfterScan(data: seq<U8>)
    requires !ScanFindsInvalid(data)
    ensures forall seg :: seg in Split(data, AMPERSAND) ==>
      !TakesLiteralFallback(KeyPart(seg)) && !TakesLiteralFallback(ValuePart(seg))
  {
    ScanFindsInvalidIff(data);
    SegmentsWellEscaped(data);
    forall seg | seg in Split(data, AMPERSAND)
      ensures !TakesLiteralFallback(KeyPart(seg)) && !TakesLiteralFallback(ValuePart(seg))
    {
      PartsWellEscaped(seg);
      ScanFindsInvalidIff(KeyPart(seg));
      ScanFindsInvalidIff(ValuePart(seg));
      FallbackIffScanFindsInvalid(KeyPart(seg));
      FallbackIffScanFindsInvalid(ValuePart(seg));
    }
  }

  /** The pairs of a body with an `&`: those of the segment before it, then those of the
      bytes after it. */
  lemma ParsePairsAtAmpersand(data: seq<U8>)
    requires IndexOf(data, AMPERSAND) < |data|
    ensures ParsePairs(data) ==
      PairOf(data[..IndexOf(data, AMPERSAND)]) + ParsePairs(data[IndexOf(data, AMPERSAND) + 1..])
  {
    var k := IndexOf(data, AMPERSAND);
    SplitAt(data, AMPERSAND);
    ParseSegmentsCons(data[..k], Split(data[k + 1..], AMPERSAND));
  }

  /** The pairs of a body without `&`: the one of the whole body, if it is not empty. */
  lemma ParsePairsNoAmpersand(data: seq<U8>)
    requires IndexOf(data, AMPERSAND) == |data|
    ensures ParsePairs(data) == PairOf(data)
  {
    var none: seq<seq<U8>> := [];
    SplitWithout(data, AMPERSAND);
    ParseSegmentsCons(data, none);
    assert [data] + none == [data];
  }

  /** An empty body has no pairs. */
  lemma EmptyBodyNoPairs()
    ensures ParsePairs([]) == []
  {
    ParsePairsNoAmpersand([]);
  }

  /** `ParseSegments` on a segment followed by more segments. */
  lemma ParseSegmentsCons(seg: seq<U8>, rest: seq<seq<U8>>)
    ensures ParseSegments([seg] + rest) == PairOf(seg) + ParseSegments(rest)
  {
    assert ([seg] + rest)[1..] == rest;
  }

  /** The number of non-empty pieces. */
  function NonEmptyCount(segs: seq<seq<U8>>): nat
    decreases |segs|
  {
    if segs == [] then 0 else (if segs[0] == [] then 0 else 1) + NonEmptyCount(segs[1..])
  }

  /** Exactly one pair per non-empty segment. */
  lemma {:induction false} ParseSegmentsLength(segs: seq<seq<U8>>)
    ensures |ParseSegments(segs)| == NonEmptyCount(segs)
    decreases |segs|
  {
    if segs != [] {
      ParseSegmentsLength(segs[1..]);
    }
  }

  /** The `&`-separated pieces of `n` bytes include at most `(n + 1) / 2` non-empty ones. */
  lemma {:induction false} NonEmptySegmentBound(data: seq<U8>)
    ensures 2 * NonEmptyCount(Split(data, AMPERSAND)) <= |data| + 1
    decreases |data|
  {
    var k := IndexOf(data, AMPERSAND);
    if k < |data| {
      var rest := Split(data[k + 1..], AMPERSAND);
      SplitAt(data, AMPERSAND);
      assert ([data[..k]] + rest)[1..] == rest;
      NonEmptySegmentBound(data[k + 1..]);
    } else {
      SplitWithout(data, AMPERSAND);
    }
  }

  /** A body of `n` bytes has at most `(n + 1) / 2` pairs: each needs a byte of its own and
      there is an `&` between each two. */
  lemma PairCountBound(data: seq<U8>)
    ensures 2 * |ParsePairs(data)| <= |data| + 1
  {
    ParseSegmentsLength(Split(data, AMPERSAND));
    NonEmptySegmentBound(data);
  }

  /** A NUL byte in a segment ends up in its decoded key or value. */
  lemma NulInSegmentReachesPair(seg: seq<U8>)
    requires NUL in seg
    ensures NUL in ParsePair(seg).0 || NUL in ParsePair(seg).1
  {
    var key, val := KeyPart(seg), ValuePart(seg);
    ParsePairParts(seg);
    if IndexOf(seg, EQUALS) < |seg| {
      assert seg == key + [EQUALS] + val;
    } else {
      assert seg == key;
    }
    if NUL in key {
      DecodeKeepsNul(key);
    } else {
      DecodeKeepsNul(val);
    }
  }

  /** A NUL byte in the body ends up in the decoded key or value of some pair. */
  lemma {:induction false} NulReachesAPair(data: seq<U8>)
    requires NUL in data
    ensures exists p :: p in ParsePairs(data) && (NUL in p.0 || NUL in p.1)
    decreases |data|
  {
    var k := IndexOf(data, AMPERSAND);
    var first := if k < |data| then data[..k] else data;
    if k < |data| {
      ParsePairsAtAmpersand(data);
    } else {
      ParsePairsNoAmpersand(data);
    }
    if NUL in first {
      NulInSegmentReachesPair(first);
      assert ParsePair(first) in ParsePairs(data);
    } else {
      var j :| 0 <= j < |data| && data[j] == NUL;
      if k == |data| || j < k {
        assert false;
      }
      assert data[k + 1..][j - k - 1] == NUL;
      NulReachesAPair(data[k + 1..]);
      var p :| p in ParsePairs(data[k + 1..]) && (NUL in p.0 || NUL in p.1);
      assert p in ParsePairs(data);
    }
  }

  /** One pair as form text: encoded key, `=`, encoded value. */
  function EncodePair(p: RawPair): (seg: seq<U8>)
    ensures AMPERSAND !in seg && WellEscaped(seg)
  {
    WellEscapedConcat(Encode(p.0), [EQUALS]);
    WellEscapedConcat(Encode(p.0) + [EQUALS], Encode(p.1));
    Encode(p.0) + [EQUALS] + Encode(p.1)
  }

  /** The encoded segments of a sequence of pairs. */
  function EncodePairs(pairs: seq<RawPair>): (segs: seq<seq<U8>>)
    ensures |segs| == |pairs|
    ensures forall i :: 0 <= i < |segs| ==> segs[i] == EncodePair(pairs[i])
    decreases |pairs|
  {
    if pairs == [] then [] else [EncodePair(pairs[0])] + EncodePairs(pairs[1..])
  }

  /** A form body for a sequence of pairs, as an encoder writes it: the encoded pairs
      joined by `&`. The inverse of `ParsePairs`. */
  function Serialize(pairs: seq<RawPair>): seq<U8> {
    if pairs == [] then [] else Join(EncodePairs(pairs), AMPERSAND)
  }

  /** Joining well-escaped pieces with a plain separator gives a well-escaped body. */
  lemma {:induction false} JoinWellEscaped(pieces: seq<seq<U8>>, sep: U8)
    requires |pieces| >= 1 && sep != PERCENT
    requires forall i :: 0 <= i < |pieces| ==> WellEscaped(pieces[i])
    ensures WellEscaped(Join(pieces, sep))
    decreases |pieces|
  {
    if |pieces| > 1 {
      JoinWellEscaped(pieces[1..], sep);
      WellEscapedConcat(pieces[0], [sep]);
      WellEscapedConcat(pieces[0] + [sep], Join(pieces[1..], sep));
    }
  }

  /** A serialized body always passes the pre-scan. */
  lemma SerializePassesScan(pairs: seq<RawPair>)
    ensures !ScanFindsInvalid(Serialize(pairs))
  {
    if pairs != [] {
      JoinWellEscaped(EncodePairs(pairs), AMPERSAND);
    }
    ScanFindsInvalidIff(Serialize(pairs));
  }

  /** An encoded pair comes back as itself. */
  lemma ParseEncodedPair(p: RawPair)
    ensures EncodePair(p) != [] && ParsePair(EncodePair(p)) == p
  {
    var k, v := Encode(p.0), Encode(p.1);
    IndexOfAfterPrefix(k, EQUALS, v);
    var seg := k + [EQUALS] + v;
    assert seg[..|k|] == k && seg[|k| + 1..] == v;
    DecodeEncode(p.0);
    DecodeEncode(p.1);
  }

  /** Parsing encoded segments gives back the pairs. */
  lemma {:induction false} ParseEncodedPairs(pairs: seq<RawPair>)
    ensures ParseSegments(EncodePairs(pairs)) == pairs
    decreases |pairs|
  {
    if pairs != [] {
      var segs := EncodePairs(pairs);
      ParseEncodedPair(pairs[0]);
      assert segs == [EncodePair(pairs[0])] + EncodePairs(pairs[1..]);
      ParseSegmentsCons(EncodePair(pairs[0]), EncodePairs(pairs[1..]));
      ParseEncodedPairs(pairs[1..]);
      assert [pairs[0]] + pairs[1..] == pairs;
    }
  }

  /** Round trip of the whole splitter: parsing a serialized body gives back exactly the
      pairs, in order, duplicates and empty keys or values included. */
  lemma ParseSerialize(pairs: seq<RawPair>)
    ensures ParsePairs(Serialize(pairs)) == pairs
  {
    if pairs == [] {
      ParsePairsNoAmpersand([]);
    } else {
      SplitJoin(EncodePairs(pairs), AMPERSAND);
      ParseEncodedPairs(pairs);
    }
  }
}
