/** Undoing content encodings under an output limit. The codecs themselves are not modelled: one
    is whatever bytes it yields, in whatever pieces, and whether it fails at the end of them. */
module ContentDecode {
  import opened Basics
  import opened Utf8
  import opened Bodies
  import opened ContentEncodings

  const MAX_LAYERS: nat := 8

  datatype Codec = Gzip | Zlib | RawDeflate | Brotli | Zstd

  /** What reading a decoder to its end sees: pieces, none of them empty, then an end or an error. */
  datatype SourceData = Source(pieces: seq<seq<byte>>, fails: bool)
  type Source = s: SourceData | forall i :: 0 <= i < |s.pieces| ==> s.pieces[i] != []
    witness Source([], false)

  type Library = (Codec, seq<byte>) -> Source

  datatype Reading = Whole(bytes: seq<byte>) | Capped(bytes: seq<byte>) | Malformed

  // ---------------------------------------------------------------------------------------
  // One layer

  /** What a limited read comes to: the pieces do not matter, and neither does an error behind
      the limit. */
  function ReadOf(s: Source, limit: nat): Reading {
    var all := Join(s.pieces);
    if |all| > limit then Capped(all[..limit])
    else if s.fails then Malformed
    else Whole(all)
  }

  /** `read_content_limited`; `polls(k)` is what the k-th look at the cancellation flag sees. */
  method ReadContentLimited(s: Source, limit: nat, polls: nat -> bool, first: nat)
      returns (r: Outcome<Reading>, poll: nat)
    ensures r.Done? ==> r.value == ReadOf(s, limit)
    ensures var all := Join(s.pieces);
            && (r == Done(Whole(all)) <==> r.Done? && |all| <= limit && !s.fails)
            && (r == Done(Malformed) <==> r.Done? && |all| <= limit && s.fails)
            && (r.Done? && |all| > limit ==> r.value == Capped(all[..limit]))
    ensures r.Cancelled? ==> exists k: nat :: polls(k)
    ensures polls(first) ==> r.Cancelled?
  {
    hide Join;
    var bytes: seq<byte> := [];
    poll := first;
    var i := 0;
    JoinNothing();
    assert s.pieces[..0] == [];
    while true
      invariant 0 <= i <= |s.pieces| && bytes == Join(s.pieces[..i]) && |bytes| <= limit
      invariant poll == first || !polls(first)
      decreases |s.pieces| - i
    {
      if polls(poll) || polls(poll + 1) { return Cancelled, poll; }
      poll := poll + 2;
      if i == |s.pieces| {
        assert s.pieces[..i] == s.pieces;
        return Done(if s.fails then Malformed else Whole(bytes)), poll;
      }
      var read := s.pieces[i];
      var remaining := limit - |bytes|;
      var retained := Min(|read|, remaining);
      OnePieceMore(s.pieces, i);
      bytes := bytes + read[..retained];
      if |read| > remaining {
        Overflowing(s.pieces, i, limit);
        return Done(Capped(bytes)), poll;
      }
      assert read[..retained] == read;
      i := i + 1;
    }
  }

  lemma JoinNothing()
    ensures Join([]) == []
  {
  }

  lemma OnePieceMore(pieces: seq<seq<byte>>, i: nat)
    requires i < |pieces|
    ensures Join(pieces[..i + 1]) == Join(pieces[..i]) + pieces[i]
  {
    assert pieces[..i + 1] == pieces[..i] + [pieces[i]];
    JoinAppend(pieces[..i], [pieces[i]]);
    JoinOne(pieces[i]);
  }

  /** The piece that goes over the limit settles the first `limit` bytes. */
  lemma Overflowing(pieces: seq<seq<byte>>, i: nat, limit: nat)
    requires i < |pieces| && |Join(pieces[..i])| <= limit < |Join(pieces[..i])| + |pieces[i]|
    ensures |Join(pieces)| > limit
    ensures Join(pieces)[..limit] == Join(pieces[..i]) + pieces[i][..limit - |Join(pieces[..i])|]
  {
    OnePieceMore(pieces, i);
    assert pieces == pieces[..i + 1] + pieces[i + 1..];
    JoinAppend(pieces[..i + 1], pieces[i + 1..]);
    var a, b, c := Join(pieces[..i]), pieces[i], Join(pieces[i + 1..]);
    assert (a + b + c)[..limit] == a + b[..limit - |a|];
  }

  // ---------------------------------------------------------------------------------------
  // All layers

  function Normalized(encoding: string): string { if encoding == "x-gzip" then "gzip" else encoding }

  datatype DecodeError =
    | Stopped
    | TooManyLayers(layers: nat)
    | OutputLimit
    | Unsupported(encoding: string, reason: string)

  datatype Stage = Stage(bytes: seq<byte>, limited: bool) | Broken(error: DecodeError)

  /** Undoing one encoding. Deflate means the zlib format, or raw data where that fails. */
  function Undo(lib: Library, encoding: string, bytes: seq<byte>, limit: nat): (s: Stage)
    ensures s.Broken? ==> s.error.Unsupported? && s.error.encoding == Normalized(encoding)
  {
    var known := Known(lib, encoding, bytes, limit);
    if known.None? then Broken(Unsupported(Normalized(encoding), "unsupported"))
    else match known.value
      case Whole(b) => Stage(b, false)
      case Capped(b) => Stage(b, true)
      case Malformed => Broken(Unsupported(Normalized(encoding), "malformed"))
  }

  function Known(lib: Library, encoding: string, bytes: seq<byte>, limit: nat): Option<Reading> {
    if encoding == "gzip" || encoding == "x-gzip" then Some(ReadOf(lib(Gzip, bytes), limit))
    else if encoding == "deflate" then
      var zlib := ReadOf(lib(Zlib, bytes), limit);
      Some(if zlib.Malformed? then ReadOf(lib(RawDeflate, bytes), limit) else zlib)
    else if encoding == "br" then Some(ReadOf(lib(Brotli, bytes), limit))
    else if encoding == "zstd" then Some(ReadOf(lib(Zstd, bytes), limit))
    else None
  }

  /** The coding each name stands for (section 8.4.1 of RFC 9110, RFC 7932 and RFC 8878); where
      there are two, the second is for input the first cannot read. */
  const CODINGS: map<string, seq<Codec>> :=
    map["gzip" := [Gzip], "x-gzip" := [Gzip], "deflate" := [Zlib, RawDeflate], "br" := [Brotli], "zstd" := [Zstd]]

  /** The first coding of a row that can read the bytes, or else the last. */
  predicate Reads(lib: Library, row: seq<Codec>, bytes: seq<byte>, limit: nat, k: int) {
    && 0 <= k < |row| && (k == |row| - 1 || !ReadOf(lib(row[k], bytes), limit).Malformed?)
    && forall j :: 0 <= j < k ==> ReadOf(lib(row[j], bytes), limit).Malformed?
  }

  /** Each name is undone by its own coding, and other names not at all. */
  lemma NamesMeanCodings(lib: Library, encoding: string, bytes: seq<byte>, limit: nat)
    ensures encoding !in CODINGS ==> Undo(lib, encoding, bytes, limit) == Broken(Unsupported(encoding, "unsupported"))
    ensures encoding in CODINGS ==>
              exists k :: Reads(lib, CODINGS[encoding], bytes, limit, k) &&
                match ReadOf(lib(CODINGS[encoding][k], bytes), limit)
                case Whole(b) => Undo(lib, encoding, bytes, limit) == Stage(b, false)
                case Capped(b) => Undo(lib, encoding, bytes, limit) == Stage(b, true)
                case Malformed =>
                  Undo(lib, encoding, bytes, limit)
                  == Broken(Unsupported(if encoding == "x-gzip" then "gzip" else encoding, "malformed"))
  {
    hide ReadOf;
    if encoding in CODINGS {
      var row := CODINGS[encoding];
      var k := if encoding == "deflate" && ReadOf(lib(Zlib, bytes), limit).Malformed? then 1 else 0;
      assert Reads(lib, row, bytes, limit, k);
    }
  }

  /** The encodings are listed in the order they were applied, so they are undone from the last
      to the first (section 8.4 of RFC 9110). Only the innermost may run into the limit. */
  function UndoAll(lib: Library, encodings: seq<string>, bytes: seq<byte>, limit: nat): Stage {
    if encodings == [] then Stage(bytes, false)
    else
      var n := |encodings| - 1;
      var s := Undo(lib, encodings[n], bytes, limit);
      if s.Broken? then s
      else if s.limited then if n > 0 then Broken(OutputLimit) else s
      else UndoAll(lib, encodings[..n], s.bytes, limit)
  }

  /** What decoding comes to. */
  function DecodeOf(lib: Library, encodings: seq<string>, input: seq<byte>, limit: nat): Stage {
    if |encodings| > MAX_LAYERS then Broken(TooManyLayers(|encodings|))
    else if encodings == [] && |input| > limit then Stage(input[..limit], true)
    else UndoAll(lib, encodings, input, limit)
  }

  /** The encodings from the last to number `k` undone, each one to its end; `stages[i]` is what the
      body looked like with the first `i` of them still on it. */
  ghost predicate Undone(lib: Library, encodings: seq<string>, input: seq<byte>, limit: nat, k: int,
                         stages: seq<seq<byte>>)
  {
    && 0 <= k <= |encodings| && |stages| == |encodings| + 1 && stages[|encodings|] == input
    && forall i :: k <= i < |encodings| ==> Known(lib, encodings[i], stages[i + 1], limit) == Some(Whole(stages[i]))
  }

  /** What decoding comes to, in terms of the layers: all were undone; or the first listed was the
      first to run into the limit; or one further out did, is malformed or is not known. */
  lemma {:induction false} LayerByLayer(lib: Library, encodings: seq<string>, input: seq<byte>, limit: nat)
      returns (k: int, stages: seq<seq<byte>>)
    ensures Undone(lib, encodings, input, limit, k, stages)
    ensures var r := UndoAll(lib, encodings, input, limit);
            if k == 0 then r == Stage(stages[0], false)
            else
              match Known(lib, encodings[k - 1], stages[k], limit)
              case None => r == Broken(Unsupported(encodings[k - 1], "unsupported"))
              case Some(Whole(b)) => false
              case Some(Capped(b)) => r == if k == 1 then Stage(b, true) else Broken(OutputLimit)
              case Some(Malformed) =>
                r == Broken(Unsupported(if encodings[k - 1] == "x-gzip" then "gzip" else encodings[k - 1], "malformed"))
    decreases |encodings|
  {
    if encodings == [] {
      return 0, [input];
    }
    var n := |encodings| - 1;
    UnknownAsIs(lib, encodings[n], input, limit);
    hide Known, Undone;
    var known := Known(lib, encodings[n], input, limit);
    NoneUndone(lib, encodings, input, limit, seq(n + 1, _ => []) + [input]);
    if known.Some? && known.value.Whole? {
      k, stages := LayerByLayer(lib, encodings[..n], known.value.bytes, limit);
      UndoneShape(lib, encodings[..n], known.value.bytes, limit, k, stages);
      OneUndone(lib, encodings, input, limit, k, stages);
      stages := stages + [input];
    } else {
      k, stages := n + 1, seq(n + 1, _ => []) + [input];
    }
  }

  lemma NoneUndone(lib: Library, encodings: seq<string>, input: seq<byte>, limit: nat, stages: seq<seq<byte>>)
    requires |stages| == |encodings| + 1 && stages[|encodings|] == input
    ensures Undone(lib, encodings, input, limit, |encodings|, stages)
  {
  }

  lemma OneUndone(lib: Library, encodings: seq<string>, input: seq<byte>, limit: nat, k: int, stages: seq<seq<byte>>)
    requires encodings != [] && stages != []
    requires var n := |encodings| - 1;
             && Undone(lib, encodings[..n], stages[|stages| - 1], limit, k, stages)
             && Known(lib, encodings[n], input, limit) == Some(Whole(stages[|stages| - 1]))
    ensures Undone(lib, encodings, input, limit, k, stages + [input])
    ensures k > 0 ==>
              && k < |encodings| && (stages + [input])[k] == stages[k]
              && encodings[..|encodings| - 1][k - 1] == encodings[k - 1]
    ensures (stages + [input])[0] == stages[0]
  {
    hide Known;
    var n := |encodings| - 1;
    forall i | k <= i < |encodings|
      ensures Known(lib, encodings[i], (stages + [input])[i + 1], limit) == Some(Whole((stages + [input])[i]))
    {
      if i < n { assert encodings[..n][i] == encodings[i]; }
    }
  }

  lemma UndoneShape(lib: Library, encodings: seq<string>, input: seq<byte>, limit: nat, k: int, stages: seq<seq<byte>>)
    requires Undone(lib, encodings, input, limit, k, stages)
    ensures 0 <= k <= |encodings| && |stages| == |encodings| + 1 && stages[|encodings|] == input
  {
  }

  lemma UnknownAsIs(lib: Library, encoding: string, bytes: seq<byte>, limit: nat)
    ensures Known(lib, encoding, bytes, limit).None? ==> Normalized(encoding) == encoding
  {
  }

  datatype Decoded =
    | Decoded(bytes: seq<byte>, encodings: seq<string>, limited: bool, utf8: bool)
    | Refused(error: DecodeError)

  /** The encodings as they are reported. */
  function Reported(encodings: seq<string>): seq<string> {
    seq(|encodings|, i requires 0 <= i < |encodings| => Normalized(encodings[i]))
  }

  method UndoOne(lib: Library, encoding: string, bytes: seq<byte>, limit: nat, polls: nat -> bool, first: nat)
      returns (r: Outcome<Stage>, poll: nat)
    ensures r.Done? ==> r.value == Undo(lib, encoding, bytes, limit)
    ensures r.Cancelled? ==> exists k: nat :: polls(k)
  {
    hide ReadOf;
    var reading;
    if encoding == "gzip" || encoding == "x-gzip" {
      reading, poll := ReadContentLimited(lib(Gzip, bytes), limit, polls, first);
    } else if encoding == "deflate" {
      reading, poll := ReadContentLimited(lib(Zlib, bytes), limit, polls, first);
      if reading.Done? && reading.value.Malformed? {
        reading, poll := ReadContentLimited(lib(RawDeflate, bytes), limit, polls, poll);
      }
    } else if encoding == "br" {
      reading, poll := ReadContentLimited(lib(Brotli, bytes), limit, polls, first);
    } else if encoding == "zstd" {
      reading, poll := ReadContentLimited(lib(Zstd, bytes), limit, polls, first);
    } else {
      return Done(Broken(Unsupported(Normalized(encoding), "unsupported"))), first;
    }
    if reading.Cancelled? { return Cancelled, poll; }
    r := Done(match reading.value
              case Whole(b) => Stage(b, false)
              case Capped(b) => Stage(b, true)
              case Malformed => Broken(Unsupported(Normalized(encoding), "malformed")));
  }

  /** `decode_content_bytes`, from flattened input. */
  method DecodeContentBytes(lib: Library, fields: seq<Field>, input: seq<byte>, limit: nat, check: nat,
                            polls: nat -> bool)
      returns (r: Decoded)
    requires check >= 4
    ensures r == Refused(Stopped) ==> exists k: nat :: polls(k)
    ensures polls(0) ==> r == Refused(Stopped)
    ensures r != Refused(Stopped) ==>
              (|Encodings(fields)| > 8 <==> r == Refused(TooManyLayers(|Encodings(fields)|)))
    ensures r != Refused(Stopped) && Encodings(fields) == [] ==>
              var shown := input[..Min(|input|, limit)];
              r == Decoded(shown, [], |input| > limit, Octets(shown))
    ensures r != Refused(Stopped) ==>
              match DecodeOf(lib, Encodings(fields), input, limit)
              case Broken(error) => r == Refused(error)
              case Stage(bytes, limited) =>
                r == Decoded(bytes, Reported(Encodings(fields)), limited, Octets(bytes))
  {
    hide Undo, Octets, Encodings;
    if polls(0) { return Refused(Stopped); }
    var encodings := Encodings(fields);
    if |encodings| > MAX_LAYERS { return Refused(TooManyLayers(|encodings|)); }
    var current, limited, poll := input, false, 1;
    var n := |encodings|;
    assert encodings[..n] == encodings;
    while n > 0 && !limited
      invariant 0 <= n <= |encodings| && (limited ==> n == 0 && encodings != [])
      invariant UndoAll(lib, encodings, input, limit)
             == if limited then Stage(current, true) else UndoAll(lib, encodings[..n], current, limit)
    {
      if polls(poll) { return Refused(Stopped); }
      var stage;
      stage, poll := UndoOne(lib, encodings[n - 1], current, limit, polls, poll + 1);
      if stage.Cancelled? { return Refused(Stopped); }
      assert encodings[..n][..n - 1] == encodings[..n - 1];
      if stage.value.Broken? { return Refused(stage.value.error); }
      if stage.value.limited && n > 1 { return Refused(OutputLimit); }
      current, limited, n := stage.value.bytes, stage.value.limited, n - 1;
    }
    if encodings == [] && |current| > limit {
      current, limited := current[..limit], true;
    }
    var later: nat := poll;
    var valid := ValidateCancellable(current, check, (k: nat) => polls(later + k));
    if valid.Cancelled? { return Refused(Stopped); }
    r := Decoded(current, Reported(encodings), limited, valid.value);
  }

  // ---------------------------------------------------------------------------------------
  // Round trip

  predicate Supported(encoding: string) { encoding in CODINGS }

  type Encoder = (string, seq<byte>) -> seq<byte>

  /** The decoders give back what the encoders took, wherever it fits. */
  ghost predicate Inverts(lib: Library, encode: Encoder) {
    forall e: string, b: seq<byte>, limit: nat ::
      Supported(e) && |b| <= limit ==> Known(lib, e, encode(e, b), limit) == Some(Whole(b))
  }

  /** A body with encodings applied in the order they are listed. */
  function Encoded(encode: Encoder, encodings: seq<string>, body: seq<byte>): seq<byte> {
    if encodings == [] then body
    else encode(encodings[|encodings| - 1], Encoded(encode, encodings[..|encodings| - 1], body))
  }

  /** Decoding gives the body back when it and every encoding but the last fit the limit. */
  lemma {:induction false} RoundTrip(lib: Library, encode: Encoder, encodings: seq<string>, body: seq<byte>, limit: nat)
    requires Inverts(lib, encode) && |encodings| <= MAX_LAYERS && |body| <= limit
    requires forall i :: 0 <= i < |encodings| ==>
               Supported(encodings[i]) && |Encoded(encode, encodings[..i], body)| <= limit
    ensures DecodeOf(lib, encodings, Encoded(encode, encodings, body), limit) == Stage(body, false)
  {
    hide Known;
    if encodings != [] {
      var n := |encodings| - 1;
      var inner := Encoded(encode, encodings[..n], body);
      assert Known(lib, encodings[n], encode(encodings[n], inner), limit) == Some(Whole(inner));
      forall i | 0 <= i < n ensures |Encoded(encode, encodings[..n][..i], body)| <= limit {
        assert encodings[..n][..i] == encodings[..i];
      }
      RoundTrip(lib, encode, encodings[..n], body, limit);
    }
  }

  lemma SupportedIsPlain(encoding: string)
    requires Supported(encoding)
    ensures Plain(encoding)
  {
    Unspaced(encoding);
    assert LowerCase(encoding) == encoding;
  }

  /** A body sent with its encodings written into the header is decoded to itself. */
  lemma SentAndDecoded(lib: Library, encode: Encoder, encodings: seq<string>, body: seq<byte>, limit: nat)
    requires Inverts(lib, encode) && |encodings| <= MAX_LAYERS && |body| <= limit
    requires forall i :: 0 <= i < |encodings| ==>
               Supported(encodings[i]) && |Encoded(encode, encodings[..i], body)| <= limit
    ensures var fields := [Field("Content-Encoding", Written(encodings))];
            DecodeOf(lib, Encodings(fields), Encoded(encode, encodings, body), limit) == Stage(body, false)
  {
    hide Plain, Supported, Encoded, DecodeOf;
    forall i | 0 <= i < |encodings| ensures Plain(encodings[i]) { SupportedIsPlain(encodings[i]); }
    WrittenReads(encodings);
    OneField(Written(encodings));
    RoundTrip(lib, encode, encodings, body, limit);
  }

  /** What decoding yields never exceeds the limit, and is marked exactly when it was cut. */
  lemma {:induction false} WithinLimit(lib: Library, encodings: seq<string>, input: seq<byte>, limit: nat)
    ensures var r := DecodeOf(lib, encodings, input, limit);
            r.Stage? ==> |r.bytes| <= limit && (r.limited ==> |r.bytes| == limit)
  {
    if |encodings| <= MAX_LAYERS && encodings != [] {
      LayersWithinLimit(lib, encodings, input, limit);
    }
  }

  lemma {:induction false} LayersWithinLimit(lib: Library, encodings: seq<string>, bytes: seq<byte>, limit: nat)
    requires encodings != []
    ensures var r := UndoAll(lib, encodings, bytes, limit);
            r.Stage? ==> |r.bytes| <= limit && (r.limited ==> |r.bytes| == limit)
  {
    var n := |encodings| - 1;
    UndoneWithinLimit(lib, encodings[n], bytes, limit);
    var s := Undo(lib, encodings[n], bytes, limit);
    hide Undo;
    if s.Stage? && !s.limited && n > 0 {
      LayersWithinLimit(lib, encodings[..n], s.bytes, limit);
    }
  }

  lemma UndoneWithinLimit(lib: Library, encoding: string, bytes: seq<byte>, limit: nat)
    ensures var s := Undo(lib, encoding, bytes, limit);
            s.Stage? ==> |s.bytes| <= limit && (s.limited ==> |s.bytes| == limit)
  {
  }
}
