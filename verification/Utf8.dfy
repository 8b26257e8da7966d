/** UTF-8 as the capture code sees it: the grammar of section 4 of RFC 3629, the scanner behind
    the standard library's validity check, lossy decoding, and the chunked validator of the
    decode service. */
module Utf8 {
  import opened Basics

  type byte = x: int | 0 <= x < 256

  const REPLACEMENT: seq<byte> := [0xEF, 0xBF, 0xBD]

  predicate IsTail(b: byte) { 0x80 <= b < 0xC0 }

  /** One `UTF8-char` of section 4 of RFC 3629, production by production. */
  predicate IsChar(s: seq<byte>) {
    || (|s| == 1 && s[0] < 0x80)
    || (|s| == 2 && 0xC2 <= s[0] <= 0xDF && IsTail(s[1]))
    || (|s| == 3 && IsTail(s[2]) &&
        (|| (s[0] == 0xE0 && 0xA0 <= s[1] <= 0xBF)
         || (0xE1 <= s[0] <= 0xEC && IsTail(s[1]))
         || (s[0] == 0xED && 0x80 <= s[1] <= 0x9F)
         || (0xEE <= s[0] <= 0xEF && IsTail(s[1]))))
    || (|s| == 4 && IsTail(s[2]) && IsTail(s[3]) &&
        (|| (s[0] == 0xF0 && 0x90 <= s[1] <= 0xBF)
         || (0xF1 <= s[0] <= 0xF3 && IsTail(s[1]))
         || (s[0] == 0xF4 && 0x80 <= s[1] <= 0x8F)))
  }

  /** `UTF8-octets` of that section: any concatenation of characters. */
  ghost predicate Octets(s: seq<byte>)
    decreases |s|
  {
    s == [] || exists n :: 1 <= n <= |s| && IsChar(s[..n]) && Octets(s[n..])
  }

  /** What a left-to-right scanner finds at the front of a byte string. */
  datatype Item = End | Char(len: nat) | Bad(len: nat) | Cut

  function Width(b: byte): nat {
    if b < 0x80 then 1
    else if 0xC2 <= b <= 0xDF then 2
    else if 0xE0 <= b <= 0xEF then 3
    else if 0xF0 <= b <= 0xF4 then 4
    else 0
  }

  predicate SecondOk(first: byte, second: byte) {
    if first == 0xE0 then 0xA0 <= second <= 0xBF
    else if first == 0xED then 0x80 <= second <= 0x9F
    else if first == 0xF0 then 0x90 <= second <= 0xBF
    else if first == 0xF4 then 0x80 <= second <= 0x8F
    else IsTail(second)
  }

  /** One step of the standard library's scanner: the length of the character found, or the
      length of the invalid piece, or the input ending inside a so far well-formed character. */
  function Scan(s: seq<byte>): (item: Item)
    ensures item.Char? || item.Bad? ==> 1 <= item.len <= |s| && item.len <= 4
    ensures item.End? <==> s == []
    ensures item.Cut? ==> 1 <= |s| <= 3
  {
    if s == [] then End
    else
      var w := Width(s[0]);
      if w == 0 then Bad(1)
      else if w == 1 then Char(1)
      else if |s| == 1 then Cut
      else if !SecondOk(s[0], s[1]) then Bad(1)
      else if w == 2 then Char(2)
      else if |s| == 2 then Cut
      else if !IsTail(s[2]) then Bad(2)
      else if w == 3 then Char(3)
      else if |s| == 3 then Cut
      else if !IsTail(s[3]) then Bad(3)
      else Char(4)
  }

  /** The standard library's answer to "is this UTF-8?": `Ok`, or how far it is valid and how
      long the offending piece is (`None` when the input merely stops too early). */
  datatype Check = Ok | Err(validUpTo: nat, errorLen: Option<nat>)

  function FromUtf8(s: seq<byte>): (c: Check)
    ensures c.Err? ==> c.validUpTo <= |s|
    ensures c.Err? && c.errorLen.Some? ==> 1 <= c.errorLen.value && c.validUpTo + c.errorLen.value <= |s|
    ensures c.Err? && c.errorLen.None? ==> 1 <= |s| - c.validUpTo <= 3
    decreases |s|
  {
    match Scan(s)
    case End => Ok
    case Bad(n) => Err(0, Some(n))
    case Cut => Err(0, None)
    case Char(n) =>
      match FromUtf8(s[n..])
      case Ok => Ok
      case Err(v, e) => Err(n + v, e)
  }

  /** Lossy decoding of a whole byte string: every invalid piece becomes U+FFFD. */
  function Lossy(s: seq<byte>): seq<byte>
    decreases |s|
  {
    match Scan(s)
    case End => []
    case Cut => REPLACEMENT
    case Char(n) => s[..n] + Lossy(s[n..])
    case Bad(n) => REPLACEMENT + Lossy(s[n..])
  }

  /** Validity as the scanner decides it; `ValidIsGrammar` ties it to the grammar. */
  predicate Valid(s: seq<byte>)
    decreases |s|
  {
    s == [] || (Scan(s).Char? && Valid(s[Scan(s).len..]))
  }

  // ---------------------------------------------------------------------------------------
  // The scanner against the grammar

  lemma ScanIsGrammar(s: seq<byte>, n: nat)
    requires 1 <= n <= |s|
    ensures IsChar(s[..n]) <==> Scan(s) == Char(n)
  {
    assert forall i :: 0 <= i < n ==> s[..n][i] == s[i];
  }

  /** Some character begins with these bytes. */
  ghost predicate Begins(s: seq<byte>) { exists c :: IsChar(c) && s <= c }

  /** A second byte every such first byte may have. */
  function SomeSecond(first: byte): (b: byte)
    ensures Width(first) >= 2 ==> SecondOk(first, b)
  {
    if first == 0xE0 then 0xA0 else if first == 0xF0 then 0x90 else 0x80
  }

  lemma Completable(s: seq<byte>)
    requires 1 <= |s| < Width(s[0])
    requires |s| >= 2 ==> SecondOk(s[0], s[1])
    requires |s| >= 3 ==> IsTail(s[2])
    ensures Begins(s)
  {
    var second := if |s| >= 2 then s[1] else SomeSecond(s[0]);
    var third := if |s| >= 3 then s[2] else 0x80;
    var w := Width(s[0]);
    var c := if w == 2 then [s[0], second] else if w == 3 then [s[0], second, third] else [s[0], second, third, 0x80];
    assert IsChar(c) && s <= c;
  }

  lemma CharFront(c: seq<byte>)
    requires IsChar(c)
    ensures |c| == Width(c[0]) && (|c| >= 2 ==> SecondOk(c[0], c[1]))
    ensures |c| >= 3 ==> IsTail(c[2])
    ensures |c| >= 4 ==> IsTail(c[3])
  {
  }

  lemma FrontOfChar(s: seq<byte>, k: nat, c: seq<byte>)
    requires IsChar(c) && 1 <= k <= |s| && s[..k] <= c
    ensures Scan(s).Bad? ==> k <= Scan(s).len
  {
    CharFront(c);
    assert forall i :: 0 <= i < k ==> c[i] == s[..k][i];
  }

  /** An invalid piece is the longest beginning of a character that stands there, or one byte if
      none does: the maximal subpart of section 3.9 of the Unicode Standard. What is cut off is the
      beginning of a character. */
  lemma BadIsMaximal(s: seq<byte>)
    ensures Scan(s).Bad? ==>
              && (Scan(s).len > 1 ==> Begins(s[..Scan(s).len]))
              && forall k :: Scan(s).len < k <= |s| ==> !Begins(s[..k])
    ensures Scan(s).Cut? ==> Begins(s) && forall n :: 1 <= n <= |s| ==> !IsChar(s[..n])
  {
    if Scan(s).Bad? {
      var n := Scan(s).len;
      if n > 1 { Completable(s[..n]); }
      forall k | n < k <= |s| ensures !Begins(s[..k]) {
        if c :| IsChar(c) && s[..k] <= c { FrontOfChar(s, k, c); }
      }
    }
    if Scan(s).Cut? {
      Completable(s);
      forall n | 1 <= n <= |s| ensures !IsChar(s[..n]) { ScanIsGrammar(s, n); }
    }
  }

  /** The scan-based definition of validity is the grammar's. */
  lemma {:induction false} ValidIsGrammar(s: seq<byte>)
    ensures Valid(s) <==> Octets(s)
    decreases |s|
  {
    if s != [] {
      forall n | 1 <= n <= |s| ensures IsChar(s[..n]) <==> Scan(s) == Char(n) { ScanIsGrammar(s, n); }
      if Scan(s).Char? {
        ValidIsGrammar(s[Scan(s).len..]);
        assert IsChar(s[..Scan(s).len]);
      }
    }
  }

  lemma {:induction false} CheckIsValid(s: seq<byte>)
    ensures FromUtf8(s).Ok? <==> Valid(s)
    decreases |s|
  {
    if Scan(s).Char? { CheckIsValid(s[Scan(s).len..]); }
  }

  /** Where the check fails, everything before is valid and the scanner is stuck right there. */
  lemma {:induction false} CheckPoint(s: seq<byte>)
    requires FromUtf8(s).Err?
    ensures var c := FromUtf8(s);
            Valid(s[..c.validUpTo]) &&
            Scan(s[c.validUpTo..]) == (match c.errorLen case Some(n) => Bad(n) case None => Cut)
    decreases |s|
  {
    hide Scan;
    var c := FromUtf8(s);
    if Scan(s).Char? {
      var n := Scan(s).len;
      var rest := FromUtf8(s[n..]);
      CheckPoint(s[n..]);
      assert s[n..][rest.validUpTo..] == s[c.validUpTo..];
      assert s[..c.validUpTo] == s[..n] + s[n..][..rest.validUpTo];
      ScanFront(s, n);
      ValidCons(s[..n], s[n..][..rest.validUpTo]);
    } else {
      assert s[0..] == s;
    }
  }

  lemma ScanFront(s: seq<byte>, n: nat)
    requires Scan(s) == Char(n)
    ensures Scan(s[..n]) == Char(n)
  {
    assert forall i :: 0 <= i < n ==> s[..n][i] == s[i];
  }

  lemma ValidCons(c: seq<byte>, rest: seq<byte>)
    requires Scan(c) == Char(|c|) && Valid(rest)
    ensures Valid(c + rest)
  {
    ScanStable(c, rest);
    assert (c + rest)[|c|..] == rest;
  }

  lemma ValidChar(s: seq<byte>)
    requires IsChar(s)
    ensures Valid(s)
  {
    assert s[..|s|] == s && s[|s|..] == [];
    assert Valid(s[|s|..]);
  }

  lemma ScanStable(a: seq<byte>, b: seq<byte>)
    ensures Scan(a).Char? || Scan(a).Bad? ==> Scan(a + b) == Scan(a)
  {
    assert forall i :: 0 <= i < |a| ==> (a + b)[i] == a[i];
  }

  lemma {:induction false} ValidConcat(a: seq<byte>, b: seq<byte>)
    requires Valid(a)
    ensures Valid(a + b) <==> Valid(b)
    decreases |a|
  {
    if a == [] {
      assert a + b == b;
    } else {
      var n := Scan(a).len;
      ScanStable(a, b);
      assert (a + b)[n..] == a[n..] + b;
      ValidConcat(a[n..], b);
    }
  }

  // ---------------------------------------------------------------------------------------
  // Character boundaries

  /** The standard library's `is_char_boundary`. */
  predicate IsBoundary(s: seq<byte>, i: nat) {
    i == 0 || i == |s| || (i < |s| && !IsTail(s[i]))
  }

  /** In a valid string the byte test finds exactly the places where it can be cut in two. */
  lemma {:induction false} BoundaryIsCut(s: seq<byte>, i: nat)
    requires Valid(s) && i <= |s|
    ensures IsBoundary(s, i) <==> Valid(s[..i]) && Valid(s[i..])
    decreases |s|
  {
    if i == 0 || i == |s| {
      assert s[..|s|] == s && s[0..] == s && s[..0] == [] && s[|s|..] == [];
    } else {
      var n := Scan(s).len;
      if i < n {
      } else {
        BoundaryIsCut(s[n..], i - n);
        assert s[n..][i - n..] == s[i..];
        assert s[..i] == s[..n] + s[n..][..i - n];
        ScanIsGrammar(s, n);
        ValidChar(s[..n]);
        ValidConcat(s[..n], s[n..][..i - n]);
      }
    }
  }

  /** Any four consecutive positions of a valid string hold a boundary. */
  lemma {:induction false} BoundaryNear(s: seq<byte>, i: nat) returns (j: nat)
    requires Valid(s) && 3 <= i <= |s|
    ensures i - 3 <= j <= i && IsBoundary(s, j)
    decreases |s|
  {
    var n := Scan(s).len;
    if i < n {
      j := 0;
    } else if i < n + 3 {
      j := n;
    } else {
      var k := BoundaryNear(s[n..], i - n);
      j := n + k;
    }
  }

  /** Largest boundary not above `limit`: the back-off loop shared by every truncation. */
  function Floor(s: seq<byte>, limit: nat): (end: nat)
    ensures end <= limit && end <= |s| && IsBoundary(s, end)
    ensures forall i :: end < i <= limit && i <= |s| ==> !IsBoundary(s, i)
    ensures |s| <= limit ==> end == |s|
    decreases limit
  {
    if |s| <= limit then |s|
    else if IsBoundary(s, limit) then limit
    else Floor(s, limit - 1)
  }

  function Truncate(s: seq<byte>, limit: nat): seq<byte> { s[..Floor(s, limit)] }

  lemma {:induction false} FloorUnique(s: seq<byte>, limit: nat, end: nat)
    requires end <= limit && end <= |s| && IsBoundary(s, end)
    requires forall i :: end < i <= limit && i <= |s| ==> !IsBoundary(s, i)
    ensures Floor(s, limit) == end
  {
    assert IsBoundary(s, Floor(s, limit));
  }

  /** Truncation keeps a string valid and loses at most three bytes of the room it has. */
  lemma TruncateFacts(s: seq<byte>, limit: nat)
    requires Valid(s)
    ensures Valid(Truncate(s, limit)) && |Truncate(s, limit)| <= limit
    ensures Truncate(s, limit) <= s
    ensures |s| > limit ==> |Truncate(s, limit)| + 3 >= limit
    ensures Truncate(s, limit) == s <==> |s| <= limit
  {
    BoundaryIsCut(s, Floor(s, limit));
    assert s[..|s|] == s;
    if |s| > limit >= 3 { var _ := BoundaryNear(s, limit); }
  }

  /** A string already longer than the limit decides its truncation. */
  lemma {:induction false} TruncateExtended(s: seq<byte>, more: seq<byte>, limit: nat)
    requires Valid(s) && |s| > limit
    ensures Truncate(s + more, limit) == Truncate(s, limit)
  {
    var end := Floor(s, limit);
    assert forall i :: 0 <= i <= limit ==> (IsBoundary(s + more, i) <==> IsBoundary(s, i));
    FloorUnique(s + more, limit, end);
    assert (s + more)[..end] == s[..end];
  }

  // ---------------------------------------------------------------------------------------
  // Lossy decoding

  lemma ReplacementIsChar()
    ensures IsChar(REPLACEMENT) && Valid(REPLACEMENT)
  {
    ValidChar(REPLACEMENT);
  }

  lemma {:induction false} LossyValid(s: seq<byte>)
    ensures Valid(Lossy(s))
    decreases |s|
  {
    ReplacementIsChar();
    match Scan(s)
    case End =>
    case Cut =>
    case Char(n) =>
      LossyValid(s[n..]);
      ScanIsGrammar(s, n);
      ValidChar(s[..n]);
      ValidConcat(s[..n], Lossy(s[n..]));
    case Bad(n) =>
      LossyValid(s[n..]);
      ValidConcat(REPLACEMENT, Lossy(s[n..]));
  }

  lemma Rejoin(a: seq<byte>, n: nat, rest: seq<byte>)
    requires n <= |a|
    ensures a[..n] + (a[n..] + rest) == a + rest
  {
  }

  lemma LossyChar(s: seq<byte>, n: nat, more: seq<byte>)
    requires Scan(s) == Char(n)
    ensures Lossy(s + more) == s[..n] + Lossy(s[n..] + more)
  {
    ScanStable(s, more);
    assert (s + more)[n..] == s[n..] + more;
    assert (s + more)[..n] == s[..n];
  }

  lemma LossyBad(s: seq<byte>, n: nat, more: seq<byte>)
    requires Scan(s) == Bad(n)
    ensures Lossy(s + more) == REPLACEMENT + Lossy(s[n..] + more)
  {
    ScanStable(s, more);
    assert (s + more)[n..] == s[n..] + more;
  }

  /** Lossy decoding leaves valid text alone, and a valid prefix never affects what follows. */
  lemma {:induction false} LossyOfValid(a: seq<byte>, b: seq<byte>)
    requires Valid(a)
    ensures Lossy(a + b) == a + Lossy(b)
    decreases |a|
  {
    if a == [] {
      assert a + b == b;
    } else {
      var n := Scan(a).len;
      LossyChar(a, n, b);
      LossyOfValid(a[n..], b);
      Rejoin(a, n, Lossy(b));
    }
  }

  /** Nothing but already valid text survives lossy decoding unchanged. */
  lemma {:induction false} LossyFixpoint(s: seq<byte>)
    ensures Lossy(s) == s <==> Valid(s)
  {
    LossyValid(s);
    if Valid(s) {
      LossyOfValid(s, []);
      assert s + [] == s;
    }
  }

  // ---------------------------------------------------------------------------------------
  // The chunked validator

  datatype Outcome<T> = Done(value: T) | Cancelled

  /** Backs off from `end` while it points at a tail byte, at most three times. */
  method BackOff(bytes: seq<byte>, start: nat, from: nat) returns (end: nat)
    requires start <= from < |bytes|
    ensures start <= end <= from
    ensures from - end <= 3
    ensures end == start || from - end == 3 || !IsTail(bytes[end])
    ensures forall i :: end < i <= from ==> IsTail(bytes[i])
  {
    end := from;
    for k := 0 to 3
      invariant start <= end <= from && from - end == k
      invariant forall i :: end < i <= from ==> IsTail(bytes[i])
    {
      if end == start || !IsTail(bytes[end]) { break; }
      end := end - 1;
    }
  }

  /** On valid input the bounded back-off always lands on a place where the text can be cut. */
  lemma {:induction false} BackOffLands(s: seq<byte>, from: nat, end: nat)
    requires Valid(s) && 4 <= from < |s|
    requires from - 3 <= end <= from
    requires from - end == 3 || !IsTail(s[end])
    requires forall i :: end < i <= from ==> IsTail(s[i])
    ensures end > 0 && Valid(s[..end]) && Valid(s[end..])
  {
    var _ := BoundaryNear(s, from);
    assert IsBoundary(s, end);
    BoundaryIsCut(s, end);
  }

  /** One round of the validator: the chunk it picks is valid if the rest is, and then only what
      follows the chunk remains to be checked. */
  lemma ChunkRound(s: seq<byte>, from: nat, end: nat)
    requires end <= from <= |s| && (from < |s| ==> 4 <= from <= end + 3)
    requires from == |s| ==> end == from
    requires from < |s| ==> from - end == 3 || !IsTail(s[end])
    requires forall i :: end < i <= from && i < |s| ==> IsTail(s[i])
    ensures Valid(s) && s != [] ==> end > 0 && Valid(s[..end])
    ensures Valid(s[..end]) ==> (Valid(s) <==> Valid(s[end..]))
  {
    if from < |s| {
      if Valid(s) { BackOffLands(s, from, end); }
    } else {
      assert s[..|s|] == s;
    }
    if Valid(s[..end]) {
      ValidConcat(s[..end], s[end..]);
      assert s[..end] + s[end..] == s;
    }
  }

  /** The same round in the coordinates of the whole input, with the library's verdict. */
  lemma ChunkVerdict(bytes: seq<byte>, start: nat, from: nat, end: nat)
    requires start <= end <= from <= |bytes| && start < |bytes|
    requires if from == |bytes| then end == from else start + 4 <= from <= end + 3
    requires from < |bytes| ==> from - end == 3 || !IsTail(bytes[end])
    requires forall i :: end < i <= from && i < |bytes| ==> IsTail(bytes[i])
    ensures end == start || FromUtf8(bytes[start..end]).Err? ==> !Valid(bytes[start..])
    ensures FromUtf8(bytes[start..end]).Ok? ==> (Valid(bytes[start..]) <==> Valid(bytes[end..]))
  {
    var s := bytes[start..];
    ChunkRound(s, from - start, end - start);
    assert s[..end - start] == bytes[start..end];
    assert s[end - start..] == bytes[end..];
    CheckIsValid(bytes[start..end]);
  }

  lemma NothingIsValid()
    ensures Valid([])
  {
  }

  function Mult(k: nat, step: nat): nat { k * step }

  lemma MultStep(k: nat, step: nat)
    ensures Mult(0, step) == 0 && Mult(k + 1, step) == Mult(k, step) + step
  {
  }

  lemma {:induction false} MultGrows(a: nat, b: nat, step: nat)
    requires a < b && step > 0
    ensures Mult(a, step) < Mult(b, step)
  {
    MultStep(b - 1, step);
    if a < b - 1 { MultGrows(a, b - 1, step); }
  }

  /** The validator: `polls(k)` is what the k-th read of the cancellation flag sees. Every
      answer it gives is exact, and it only withholds one when a poll saw a cancellation. It looks
      before it begins, and to call anything valid it has looked once for every `check` bytes. */
  method ValidateCancellable(bytes: seq<byte>, check: nat, polls: nat -> bool) returns (r: Outcome<bool>)
    requires check >= 4
    ensures r.Done? ==> (r.value <==> Octets(bytes))
    ensures r.Cancelled? ==> exists k: nat :: polls(k)
    ensures r.Done? ==> !polls(0)
    ensures r == Done(true) ==> forall k: nat :: Mult(k, check) <= |bytes| ==> !polls(k)
  {
    hide Valid, FromUtf8, Octets, Mult;
    ValidIsGrammar(bytes);
    NothingIsValid();
    var start := 0;
    var poll: nat := 0;
    MultStep(0, check);
    assert bytes[0..] == bytes;
    while start < |bytes|
      invariant start <= |bytes|
      invariant Valid(bytes) <==> Valid(bytes[start..])
      invariant start <= Mult(poll, check) && forall k: nat :: k < poll ==> !polls(k)
      decreases |bytes| - start
    {
      if polls(poll) { return Cancelled; }
      MultStep(poll, check);
      poll := poll + 1;
      var from := if start + check <= |bytes| then start + check else |bytes|;
      var end := from;
      if end < |bytes| {
        end := BackOff(bytes, start, from);
      }
      ChunkVerdict(bytes, start, from, end);
      if end == start || FromUtf8(bytes[start..end]).Err? { return Done(false); }
      start := end;
    }
    if polls(poll) { return Cancelled; }
    assert bytes[start..] == [];
    forall k: nat | Mult(k, check) <= |bytes| ensures !polls(k) {
      if k > poll { MultGrows(poll, k, check); }
    }
    return Done(true);
  }

  // ---------------------------------------------------------------------------------------
  // The measuring helpers of the publisher

  /** `lossy_utf8_len` measures lossy decoding without building it. */
  method LossyLen(bytes: seq<byte>) returns (length: nat)
    ensures length == |Lossy(bytes)|
  {
    length := 0;
    var rest := bytes;
    while true
      invariant |Lossy(bytes)| == length + |Lossy(rest)|
      decreases |rest|
    {
      var c := FromUtf8(rest);
      CheckIsValid(rest);
      match c {
        case Ok =>
          LossyFixpoint(rest);
          return length + |rest|;
        case Err(upTo, errorLen) =>
          CheckPoint(rest);
          assert rest == rest[..upTo] + rest[upTo..];
          LossyOfValid(rest[..upTo], rest[upTo..]);
          length := length + upTo + |REPLACEMENT|;
          if errorLen.None? { return; }
          rest := rest[upTo..][errorLen.value..];
      }
    }
  }

  /** `truncated_utf8_len`: the longest prefix within the limit that ends between characters. */
  method TruncatedLen(value: seq<byte>, limit: nat) returns (boundary: nat, truncated: bool)
    requires Valid(value)
    ensures boundary <= |value| && value[..boundary] == Truncate(value, limit)
    ensures truncated <==> |value| > limit
    ensures truncated <==> value[..boundary] != value
  {
    TruncateFacts(value, limit);
    if |value| <= limit { return |value|, false; }
    boundary := limit;
    while boundary > 0 && !IsBoundary(value, boundary)
      invariant boundary <= limit
      invariant forall i :: boundary < i <= limit ==> !IsBoundary(value, i)
    {
      boundary := boundary - 1;
    }
    FloorUnique(value, limit, boundary);
    truncated := true;
  }
}
