/** Measuring and capturing message metadata within byte limits. Sizes are measured first, charged
    to the budget, and the captured copy must come out at exactly the size that was charged. */
module HeaderCapture {
  import opened Basics
  import opened Utf8

  datatype Header = Header(name: seq<byte>, value: seq<byte>)

  function Decoded(h: Header): Header { Header(h.name, Lossy(h.value)) }

  function FieldBytes(h: Header): nat { |h.name| + |h.value| }

  function HeadersBytes(hs: seq<Header>): nat {
    if hs == [] then 0 else HeadersBytes(hs[..|hs| - 1]) + FieldBytes(hs[|hs| - 1])
  }

  /** First come, first served: a field that does not fit is skipped, later smaller ones may. */
  datatype Capture = Capture(headers: seq<Header>, bytes: nat, truncated: bool)

  function Captured(hs: seq<Header>, limit: nat): Capture {
    if hs == [] then Capture([], 0, false)
    else
      var before := Captured(hs[..|hs| - 1], limit);
      var field := Decoded(hs[|hs| - 1]);
      if before.bytes + FieldBytes(field) > limit then before.(truncated := true)
      else Capture(before.headers + [field], before.bytes + FieldBytes(field), before.truncated)
  }

  /** The measured size is the size of what is captured, and respects the limit. */
  lemma {:induction false} CapturedBytes(hs: seq<Header>, limit: nat)
    ensures HeadersBytes(Captured(hs, limit).headers) == Captured(hs, limit).bytes <= limit
    ensures !Captured(hs, limit).truncated <==> |Captured(hs, limit).headers| == |hs|
    ensures |Captured(hs, limit).headers| <= |hs|
  {
    if hs != [] {
      var before := Captured(hs[..|hs| - 1], limit);
      CapturedBytes(hs[..|hs| - 1], limit);
      var field := Decoded(hs[|hs| - 1]);
      assert (before.headers + [field])[..|before.headers|] == before.headers;
    }
  }

  /** The fields that `taken` marks, in their order: each with its own name, and its value lossily
      decoded. */
  function Picked(hs: seq<Header>, taken: seq<bool>): seq<Header>
    requires |taken| == |hs|
  {
    if hs == [] then []
    else
      var n := |hs| - 1;
      Picked(hs[..n], taken[..n]) + if taken[n] then [Header(hs[n].name, Lossy(hs[n].value))] else []
  }

  /** Each field in turn is taken exactly when it fits behind those taken before it. */
  ghost predicate FirstCome(hs: seq<Header>, taken: seq<bool>, limit: nat) {
    && |taken| == |hs|
    && forall j :: 0 <= j < |hs| ==>
         (taken[j] <==>
          HeadersBytes(Picked(hs[..j], taken[..j])) + |hs[j].name| + |Lossy(hs[j].value)| <= limit)
  }

  /** What is captured is what first come, first served picks. */
  lemma {:induction false} CaptureIsFirstCome(hs: seq<Header>, limit: nat) returns (taken: seq<bool>)
    ensures FirstCome(hs, taken, limit) && Captured(hs, limit).headers == Picked(hs, taken)
  {
    if hs == [] {
      return [];
    }
    hide Lossy, HeadersBytes;
    var n := |hs| - 1;
    var front, h := hs[..n], hs[n];
    var some := CaptureIsFirstCome(front, limit);
    CapturedBytes(front, limit);
    var fits := Captured(front, limit).bytes + FieldBytes(Decoded(h)) <= limit;
    assert front + [h] == hs;
    PickedMore(front, some, h, fits);
    hide Picked;
    FirstComeMore(front, some, h, fits, limit);
    taken := some + [fits];
  }

  lemma PickedMore(front: seq<Header>, some: seq<bool>, h: Header, fits: bool)
    requires |some| == |front|
    ensures Picked(front + [h], some + [fits])
         == Picked(front, some) + if fits then [Header(h.name, Lossy(h.value))] else []
  {
    hide Lossy;
    assert (front + [h])[..|front|] == front && (some + [fits])[..|front|] == some;
  }

  lemma FirstComeMore(front: seq<Header>, some: seq<bool>, h: Header, fits: bool, limit: nat)
    requires FirstCome(front, some, limit)
    requires fits <==> HeadersBytes(Picked(front, some)) + |h.name| + |Lossy(h.value)| <= limit
    ensures FirstCome(front + [h], some + [fits], limit)
  {
    hide Lossy, HeadersBytes, Picked;
    var hs, taken := front + [h], some + [fits];
    forall j | 0 <= j < |hs|
      ensures taken[j] <==>
              HeadersBytes(Picked(hs[..j], taken[..j])) + |hs[j].name| + |Lossy(hs[j].value)| <= limit
    {
      if j < |front| {
        assert hs[..j] == front[..j] && taken[..j] == some[..j] && hs[j] == front[j] && taken[j] == some[j];
      } else {
        assert hs[..j] == front && taken[..j] == some;
      }
    }
  }

  /** Capturing again with any limit between the measured size and the original limit, in
      particular with the measured size itself, keeps exactly the same fields. */
  lemma {:induction false} CaptureAgain(hs: seq<Header>, limit: nat, smaller: nat)
    requires Captured(hs, limit).bytes <= smaller <= limit
    ensures Captured(hs, smaller) == Captured(hs, limit)
  {
    if hs != [] {
      CaptureAgain(hs[..|hs| - 1], limit, smaller);
    }
  }

  method MeasureHeaders(hs: seq<Header>, limit: nat) returns (retained: nat, truncated: bool)
    ensures retained == Captured(hs, limit).bytes && truncated == Captured(hs, limit).truncated
  {
    retained, truncated := 0, false;
    assert hs[..0] == [];
    for i := 0 to |hs|
      invariant retained == Captured(hs[..i], limit).bytes && truncated == Captured(hs[..i], limit).truncated
    {
      assert hs[..i + 1][..i] == hs[..i];
      var valueBytes := LossyLen(hs[i].value);
      var fieldBytes := |hs[i].name| + valueBytes;
      if retained + fieldBytes > limit {
        truncated := true;
      } else {
        retained := retained + fieldBytes;
      }
    }
    assert hs[..|hs|] == hs;
  }

  method CaptureHeaders(hs: seq<Header>, limit: nat) returns (headers: seq<Header>, truncated: bool)
    ensures headers == Captured(hs, limit).headers && truncated == Captured(hs, limit).truncated
  {
    headers, truncated := [], false;
    var retained: nat := 0;
    assert hs[..0] == [];
    for i := 0 to |hs|
      invariant Captured(hs[..i], limit) == Capture(headers, retained, truncated)
    {
      assert hs[..i + 1][..i] == hs[..i];
      var value := Lossy(hs[i].value);
      var fieldBytes := |hs[i].name| + |value|;
      if retained + fieldBytes > limit {
        truncated := true;
        continue;
      }
      retained := retained + fieldBytes;
      headers := headers + [Header(hs[i].name, value)];
    }
    assert hs[..|hs|] == hs;
  }

  // ---------------------------------------------------------------------------------------
  // Requests

  const REQUEST_OVERHEAD: nat := 256
  const RESPONSE_OVERHEAD: nat := 64

  datatype RequestInput = RequestInput(
    originalUri: seq<byte>, effectiveUri: seq<byte>, localPath: Option<seq<byte>>, headers: seq<Header>)

  datatype Request = Request(
    originalUri: seq<byte>, effectiveUri: seq<byte>, localPath: Option<seq<byte>>, headers: seq<Header>)

  function RequestBytes(r: Request): nat {
    REQUEST_OVERHEAD + |r.originalUri| + |r.effectiveUri|
    + (if r.localPath.Some? then |r.localPath.value| else 0) + HeadersBytes(r.headers)
  }

  function ResponseBytes(headers: seq<Header>): nat { RESPONSE_OVERHEAD + HeadersBytes(headers) }

  predicate InputValid(i: RequestInput) {
    Utf8.Valid(i.originalUri) && Utf8.Valid(i.effectiveUri) && (i.localPath.Some? ==> Utf8.Valid(i.localPath.value))
  }

  method MeasureRequest(i: RequestInput, targetLimit: nat, headerLimit: nat)
      returns (bytes: nat, targetTruncated: bool, headersTruncated: bool)
    requires InputValid(i)
    ensures bytes == RequestBytes(RequestOf(i, targetLimit, headerLimit))
    ensures targetTruncated <==>
              |i.originalUri| > targetLimit || |i.effectiveUri| > targetLimit
              || (i.localPath.Some? && |i.localPath.value| > targetLimit)
    ensures headersTruncated == Captured(i.headers, headerLimit).truncated
  {
    var original, t1 := TruncatedLen(i.originalUri, targetLimit);
    var effective, t2 := TruncatedLen(i.effectiveUri, targetLimit);
    var local, t3 := 0, false;
    if i.localPath.Some? {
      local, t3 := TruncatedLen(i.localPath.value, targetLimit);
    }
    var headers, t4 := MeasureHeaders(i.headers, headerLimit);
    CapturedBytes(i.headers, headerLimit);
    bytes := REQUEST_OVERHEAD + original + effective + local + headers;
    targetTruncated, headersTruncated := t1 || t2 || t3, t4;
  }

  function RequestOf(i: RequestInput, targetLimit: nat, headerLimit: nat): Request {
    Request(Truncate(i.originalUri, targetLimit), Truncate(i.effectiveUri, targetLimit),
            if i.localPath.Some? then Some(Truncate(i.localPath.value, targetLimit)) else None,
            Captured(i.headers, headerLimit).headers)
  }

  /** `request_metadata` builds what was measured: the size charged is the size kept. */
  method CaptureRequest(i: RequestInput, targetLimit: nat, headerLimit: nat) returns (r: Request)
    requires InputValid(i)
    ensures r == RequestOf(i, targetLimit, headerLimit)
    ensures |r.originalUri| <= targetLimit && r.originalUri <= i.originalUri && Utf8.Valid(r.originalUri)
    ensures |r.effectiveUri| <= targetLimit && r.effectiveUri <= i.effectiveUri && Utf8.Valid(r.effectiveUri)
    ensures (r.localPath.Some? <==> i.localPath.Some?)
            && (r.localPath.Some? ==> r.localPath.value == Truncate(i.localPath.value, targetLimit))
    ensures |i.originalUri| <= targetLimit ==> r.originalUri == i.originalUri
    ensures |i.effectiveUri| <= targetLimit ==> r.effectiveUri == i.effectiveUri
    ensures HeadersBytes(r.headers) <= headerLimit && r.headers == Captured(i.headers, headerLimit).headers
  {
    TruncateFacts(i.originalUri, targetLimit);
    TruncateFacts(i.effectiveUri, targetLimit);
    CapturedBytes(i.headers, headerLimit);
    var original, t1 := TruncatedLen(i.originalUri, targetLimit);
    var effective, t2 := TruncatedLen(i.effectiveUri, targetLimit);
    var local: Option<seq<byte>> := None;
    if i.localPath.Some? {
      var n, t := TruncatedLen(i.localPath.value, targetLimit);
      local := Some(i.localPath.value[..n]);
    }
    var headers, t3 := CaptureHeaders(i.headers, headerLimit);
    r := Request(i.originalUri[..original], i.effectiveUri[..effective], local, headers);
  }
}
