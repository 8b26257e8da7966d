/** The streaming renderer of `application/x-www-form-urlencoded` bodies and the whole-input
    definition it has to agree with: section 5.1 of the WHATWG URL Standard, printed one
    `name: value` pair a line. */
module FormDecode {
  import opened Basics
  import opened Utf8
  import opened LimitedText

  const AMP: byte := 0x26
  const EQUALS: byte := 0x3D
  const PERCENT: byte := 0x25
  const PLUS: byte := 0x2B
  const SPACE: byte := 0x20
  const NEWLINE: seq<byte> := [0x0A]
  const SEPARATOR: seq<byte> := [0x3A, 0x20]

  function HexValue(b: byte): (v: Option<nat>)
    ensures v.Some? ==> v.value < 16
  {
    if 0x30 <= b <= 0x39 then Some(b - 0x30)
    else if 0x61 <= b <= 0x66 then Some(b - 0x61 + 10)
    else if 0x41 <= b <= 0x46 then Some(b - 0x41 + 10)
    else None
  }

  /** The sixteen digits, "0123456789abcdef" and "0123456789ABCDEF". */
  const LOWER_DIGITS: seq<byte> :=
    [0x30, 0x31, 0x32, 0x33, 0x34, 0x35, 0x36, 0x37, 0x38, 0x39, 0x61, 0x62, 0x63, 0x64, 0x65, 0x66]
  const UPPER_DIGITS: seq<byte> :=
    [0x30, 0x31, 0x32, 0x33, 0x34, 0x35, 0x36, 0x37, 0x38, 0x39, 0x41, 0x42, 0x43, 0x44, 0x45, 0x46]

  predicate IsDigit(b: byte, v: nat) { v < 16 && (b == LOWER_DIGITS[v] || b == UPPER_DIGITS[v]) }

  /** Each digit has its place in the list as its value, in either case, and nothing else is one. */
  lemma HexDigits(b: byte)
    ensures forall v: nat :: HexValue(b) == Some(v) <==> IsDigit(b, v)
    ensures HexValue(b).None? <==> b !in LOWER_DIGITS && b !in UPPER_DIGITS
  {
    forall v: nat ensures HexValue(b) == Some(v) <==> IsDigit(b, v) {}
    if HexValue(b).Some? {
      var v := HexValue(b).value;
      assert b == LOWER_DIGITS[v] || b == UPPER_DIGITS[v];
    }
  }

  /** One decoded byte and how many input bytes it takes. */
  function DecodeFormByte(s: seq<byte>): (r: (byte, nat))
    requires s != []
    ensures 1 <= r.1 <= |s| && r.1 <= 3
    ensures r.1 == 3 <==> s[0] == PERCENT && |s| >= 3 && HexValue(s[1]).Some? && HexValue(s[2]).Some?
    ensures r.1 == 3 ==> HexValue(s[1]) == Some(r.0 / 16) && HexValue(s[2]) == Some(r.0 % 16)
    ensures r.1 != 3 ==> r.1 == 1 && (r.0 == s[0] || (s[0] == PLUS && r.0 == SPACE))
  {
    if s[0] == PLUS then (SPACE, 1)
    else if s[0] == PERCENT && |s| >= 3 then
      match (HexValue(s[1]), HexValue(s[2]))
      case (Some(high), Some(low)) => (16 * high + low, 3)
      case _ => (PERCENT, 1)
    else (s[0], 1)
  }

  // ---------------------------------------------------------------------------------------
  // The whole-input definition

  function PercentDecode(s: seq<byte>): seq<byte>
    decreases |s|
  {
    if s == [] then [] else var (b, n) := DecodeFormByte(s); [b] + PercentDecode(s[n..])
  }

  function Component(s: seq<byte>): seq<byte> { Lossy(PercentDecode(s)) }

  function Find(s: seq<byte>, b: byte): (k: nat)
    ensures k <= |s| && b !in s[..k]
    ensures k < |s| ==> s[k] == b
  {
    if s == [] || s[0] == b then 0 else 1 + Find(s[1..], b)
  }

  function Split(s: seq<byte>): (pieces: seq<seq<byte>>)
    decreases |s|
  {
    var k := Find(s, AMP);
    if k == |s| then [s] else [s[..k]] + Split(s[k + 1..])
  }

  function Pair(s: seq<byte>): seq<byte> {
    var k := Find(s, EQUALS);
    Component(s[..k]) + (SEPARATOR + (if k < |s| then Component(s[k + 1..]) else []))
  }

  function Lines(pieces: seq<seq<byte>>, separate: bool): seq<byte> {
    if pieces == [] then []
    else if pieces[0] == [] then Lines(pieces[1..], separate)
    else (if separate then NEWLINE else []) + (Pair(pieces[0]) + Lines(pieces[1..], true))
  }

  function FormText(input: seq<byte>): seq<byte> { Lines(Split(input), false) }

  // ---------------------------------------------------------------------------------------
  // Facts about the definition that follow the stream

  /** What is still to be printed of a piece when `buf` holds decoded bytes not yet printed. */
  function PairRest(buf: seq<byte>, s: seq<byte>, value: bool): seq<byte> {
    if value then Lossy(buf + PercentDecode(s))
    else Lossy(buf + PercentDecode(s[..Find(s, EQUALS)])) + AfterName(s)
  }

  function AfterName(s: seq<byte>): seq<byte> {
    var k := Find(s, EQUALS);
    SEPARATOR + (if k < |s| then Component(s[k + 1..]) else [])
  }

  lemma PairIsRest(s: seq<byte>)
    ensures PairRest([], s, false) == Pair(s)
    ensures PairRest([], s, true) == Component(s)
  {
    NoBuffer(PercentDecode(s));
    NoBuffer(PercentDecode(s[..Find(s, EQUALS)]));
  }

  lemma NoBuffer(s: seq<byte>)
    ensures [] + s == s && s + [] == s
  {
  }

  /** Looking past the end of a component never changes how its last bytes are decoded. */
  lemma DecodeLocal(c: seq<byte>, rest: seq<byte>)
    requires c != [] && (rest == [] || rest[0] == AMP || rest[0] == EQUALS)
    ensures DecodeFormByte(c + rest) == DecodeFormByte(c)
  {
    assert (c + rest)[0] == c[0];
    if |c| >= 3 {
      assert (c + rest)[1] == c[1] && (c + rest)[2] == c[2];
    } else if |c + rest| >= 3 && rest != [] {
      assert (c + rest)[|c|] == rest[0] && HexValue(rest[0]).None?;
    }
  }

  lemma {:induction false} FindSkips(s: seq<byte>, b: byte, n: nat)
    requires n <= Find(s, b)
    ensures Find(s[n..], b) == Find(s, b) - n
  {
    if n > 0 {
      FindSkips(s[1..], b, n - 1);
      assert s[1..][n - 1..] == s[n..];
    } else {
      assert s[0..] == s;
    }
  }

  /** One byte decoded from the front of the rest of a piece moves into the buffer. */
  lemma PairPush(buf: seq<byte>, s: seq<byte>, value: bool)
    requires s != [] && (value || s[0] != EQUALS)
    ensures var (b, n) := DecodeFormByte(s);
            PairRest(buf, s, value) == PairRest(buf + [b], s[n..], value)
  {
    hide Lossy, Component;
    var (b, n) := DecodeFormByte(s);
    if value {
      Assoc(buf, [b], PercentDecode(s[n..]));
    } else {
      var c := s[..Find(s, EQUALS)];
      NamePush(s);
      Assoc(buf, [b], PercentDecode(c[n..]));
    }
  }

  /** Decoding the first byte of a name does not move its end. */
  lemma NamePush(s: seq<byte>)
    requires s != [] && s[0] != EQUALS
    ensures var (k, n) := (Find(s, EQUALS), DecodeFormByte(s).1);
            && n <= k && k > 0 && DecodeFormByte(s[..k]) == DecodeFormByte(s)
            && s[n..][..Find(s[n..], EQUALS)] == s[..k][n..]
            && AfterName(s[n..]) == AfterName(s)
  {
    hide Component, PercentDecode, Find, DecodeFormByte;
    var k := Find(s, EQUALS);
    var n := DecodeFormByte(s).1;
    NameDecode(s, k);
    FindSkips(s, EQUALS, n);
    assert s[n..][..k - n] == s[..k][n..];
    if k < |s| { assert s[n..][k - n + 1..] == s[k + 1..]; }
  }

  lemma NameDecode(s: seq<byte>, k: nat)
    requires 0 < k <= |s| && (k < |s| ==> s[k] == EQUALS)
    ensures DecodeFormByte(s[..k]) == DecodeFormByte(s)
  {
    assert s[..k] + s[k..] == s;
    DecodeLocal(s[..k], s[k..]);
  }

  /** At the `=` the buffered name is complete. */
  lemma PairEquals(buf: seq<byte>, s: seq<byte>)
    requires s != [] && s[0] == EQUALS
    ensures PairRest(buf, s, false) == Lossy(buf) + (SEPARATOR + PairRest([], s[1..], true))
  {
    assert s[..0] == [];
    NoBuffer(buf);
    PairIsRest(s[1..]);
  }

  lemma PairEnd(buf: seq<byte>, value: bool)
    ensures PairRest(buf, [], value) == Lossy(buf) + (if value then [] else SEPARATOR)
  {
    NoBuffer(buf);
    NoBuffer(Lossy(buf));
    NoBuffer(SEPARATOR);
    var none: seq<byte> := [];
    assert none[..0] == none;
  }

  /** The piece that starts at `index` and where it stops. */
  lemma SplitAt(s: seq<byte>)
    ensures var k := Find(s, AMP);
            Split(s) == [s[..k]] + (if k < |s| then Split(s[k + 1..]) else [])
  {
    hide Find;
    var k := Find(s, AMP);
    if k == |s| {
      assert s[..k] == s && [s] + [] == [s];
    }
  }

  lemma LinesCons(piece: seq<byte>, rest: seq<seq<byte>>, separate: bool)
    ensures Lines([piece] + rest, separate)
         == if piece == [] then Lines(rest, separate)
            else (if separate then NEWLINE else []) + (Pair(piece) + Lines(rest, true))
  {
    assert ([piece] + rest)[1..] == rest;
  }

  /** What is still to be printed at a place where a piece may start. */
  function TextFrom(s: seq<byte>, separate: bool): seq<byte> { Lines(Split(s), separate) }

  lemma TextUnfold(s: seq<byte>, separate: bool)
    ensures TextFrom(s, separate)
         == if Find(s, AMP) == 0 then TextFrom(AfterPiece(s), separate)
            else (if separate then NEWLINE else []) + (Pair(s[..Find(s, AMP)]) + TextFrom(AfterPiece(s), true))
  {
    var k := Find(s, AMP);
    SplitAt(s);
    var rest := if k < |s| then Split(s[k + 1..]) else [];
    LinesCons(s[..k], rest, separate);
    NothingLeft(separate);
    NothingLeft(true);
  }

  function AfterPiece(s: seq<byte>): seq<byte> {
    var k := Find(s, AMP);
    if k < |s| then s[k + 1..] else []
  }

  lemma NothingLeft(separate: bool)
    ensures TextFrom([], separate) == []
  {
    SplitAt([]);
    LinesCons([], [], separate);
  }

  /** An empty piece prints nothing. */
  lemma AmpAt(input: seq<byte>, index: nat, separate: bool)
    requires index < |input| && input[index] == AMP
    ensures TextFrom(input[index..], separate) == TextFrom(input[index + 1..], separate)
  {
    TextUnfold(input[index..], separate);
    assert input[index..][1..] == input[index + 1..];
  }

  /** The piece that starts at `index`, where it stops, and what is left to print around it. */
  lemma PieceAt(input: seq<byte>, index: nat, separate: bool) returns (stop: nat, rest: seq<byte>)
    requires index < |input| && input[index] != AMP
    ensures index < stop <= |input| && (stop < |input| ==> input[stop] == AMP)
    ensures forall j :: index <= j < stop ==> input[j] != AMP
    ensures rest == TextFrom(input[if stop < |input| then stop + 1 else stop..], true)
    ensures TextFrom(input[index..], separate)
         == (if separate then NEWLINE else []) + (Pair(input[index..stop]) + rest)
  {
    hide TextFrom, Pair, Find, AfterPiece;
    var from := input[index..];
    stop := index + Find(from, AMP);
    TextUnfold(from, separate);
    PieceBounds(input, index);
    rest := TextFrom(AfterPiece(from), true);
  }

  lemma PieceBounds(input: seq<byte>, index: nat)
    requires index <= |input|
    ensures var k := Find(input[index..], AMP);
            && input[index..][..k] == input[index..index + k]
            && (forall j :: index <= j < index + k ==> input[j] != AMP)
            && AfterPiece(input[index..]) == input[if index + k < |input| then index + k + 1 else index + k..]
  {
    var from := input[index..];
    var k := Find(from, AMP);
    forall j | index <= j < index + k ensures input[j] != AMP { assert from[..k][j - index] == input[j]; }
    if index + k < |input| {
      assert from[k + 1..] == input[index + k + 1..];
    }
  }

  lemma AsciiValid()
    ensures Utf8.Valid(NEWLINE) && Utf8.Valid(SEPARATOR)
  {
    assert SEPARATOR[1..][1..] == [];
  }

  /** The rendered text is UTF-8, so cutting it at a boundary never splits a character. */
  lemma {:induction false} LinesValid(pieces: seq<seq<byte>>, separate: bool)
    ensures Utf8.Valid(Lines(pieces, separate))
  {
    hide Lossy, PercentDecode, Find, Pair;
    if pieces != [] {
      LinesValid(pieces[1..], separate);
      LinesValid(pieces[1..], true);
      AsciiValid();
      PairValid(pieces[0]);
      ValidConcat(Pair(pieces[0]), Lines(pieces[1..], true));
      ValidConcat(if separate then NEWLINE else [], Pair(pieces[0]) + Lines(pieces[1..], true));
    }
  }

  lemma PairValid(s: seq<byte>)
    ensures Utf8.Valid(Pair(s))
  {
    hide Lossy, PercentDecode, Find;
    var k := Find(s, EQUALS);
    var value := if k < |s| then Component(s[k + 1..]) else [];
    AsciiValid();
    LossyValid(PercentDecode(s[..k]));
    if k < |s| { LossyValid(PercentDecode(s[k + 1..])); }
    ValidConcat(SEPARATOR, value);
    ValidConcat(Component(s[..k]), SEPARATOR + value);
  }

  lemma FormTextValid(input: seq<byte>)
    ensures Utf8.Valid(FormText(input))
  {
    LinesValid(Split(input), false);
  }

  // ---------------------------------------------------------------------------------------
  // The streaming component decoder

  /** Printing `after` with `rest` pending promises what `before` with `pending` promised,
      whatever bytes come next. */
  ghost predicate Continues(before: seq<byte>, pending: seq<byte>, after: seq<byte>, rest: seq<byte>) {
    forall more: seq<byte> :: before + Lossy(pending + more) == after + Lossy(rest + more)
  }

  lemma ContinuesValid(before: seq<byte>, pending: seq<byte>, n: nat)
    requires n <= |pending| && Utf8.Valid(pending[..n])
    ensures Continues(before, pending, before + pending[..n], pending[n..])
  {
    forall more: seq<byte>
      ensures before + Lossy(pending + more) == before + pending[..n] + Lossy(pending[n..] + more)
    {
      assert pending + more == pending[..n] + (pending[n..] + more);
      LossyOfValid(pending[..n], pending[n..] + more);
    }
  }

  lemma ContinuesBad(before: seq<byte>, pending: seq<byte>, n: nat)
    requires Scan(pending) == Bad(n)
    ensures Continues(before, pending, before + REPLACEMENT, pending[n..])
  {
    forall more: seq<byte>
      ensures before + Lossy(pending + more) == before + REPLACEMENT + Lossy(pending[n..] + more)
    {
      LossyBad(pending, n, more);
    }
  }

  lemma ContinuesTrans(a: seq<byte>, p: seq<byte>, b: seq<byte>, q: seq<byte>, c: seq<byte>, r: seq<byte>)
    requires Continues(a, p, b, q) && Continues(b, q, c, r)
    ensures Continues(a, p, c, r)
  {
    forall more: seq<byte> ensures a + Lossy(p + more) == c + Lossy(r + more) {
      assert b + Lossy(q + more) == c + Lossy(r + more);
    }
  }

  lemma ContinuesPrefix(a: seq<byte>, p: seq<byte>, b: seq<byte>, q: seq<byte>)
    requires Continues(a, p, b, q)
    ensures forall more: seq<byte> :: b <= a + Lossy(p + more)
    ensures a + Lossy(p) == b + Lossy(q)
  {
    assert p + [] == p && q + [] == q;
    forall more: seq<byte> ensures b <= a + Lossy(p + more) {
      assert a + Lossy(p + more) == b + Lossy(q + more);
    }
  }

  /** `Continues` carries over to the rest of a piece. */
  lemma PairContinues(a: seq<byte>, p: seq<byte>, b: seq<byte>, q: seq<byte>, s: seq<byte>, value: bool)
    requires Continues(a, p, b, q)
    ensures a + PairRest(p, s, value) == b + PairRest(q, s, value)
  {
    var more := PercentDecode(if value then s else s[..Find(s, EQUALS)]);
    assert a + Lossy(p + more) == b + Lossy(q + more);
    Assoc(a, Lossy(p + more), AfterName(s));
    Assoc(b, Lossy(q + more), AfterName(s));
  }

  /** Pushing the next byte, when the output has room for what the push prints. */
  lemma PushStep(before: seq<byte>, buf: seq<byte>, s: seq<byte>, value: bool, after: seq<byte>, rest: seq<byte>)
    requires s != [] && (value || s[0] != EQUALS)
    requires Continues(before, buf + [DecodeFormByte(s).0], after, rest)
    ensures after + PairRest(rest, s[DecodeFormByte(s).1..], value) == before + PairRest(buf, s, value)
  {
    var (b, n) := DecodeFormByte(s);
    PairPush(buf, s, value);
    PairContinues(before, buf + [b], after, rest, s[n..], value);
  }

  /** Pushing the next byte, when it has not. */
  lemma PushFailed(before: seq<byte>, buf: seq<byte>, s: seq<byte>, value: bool, after: seq<byte>)
    requires s != [] && (value || s[0] != EQUALS)
    requires forall more: seq<byte> :: after <= before + Lossy(buf + [DecodeFormByte(s).0] + more)
    ensures after <= before + PairRest(buf, s, value)
  {
    var (b, n) := DecodeFormByte(s);
    PairPush(buf, s, value);
    var left := s[n..];
    var more := PercentDecode(if value then left else left[..Find(left, EQUALS)]);
    assert after <= before + Lossy(buf + [b] + more);
    Assoc(before, Lossy(buf + [b] + more), AfterName(left));
  }

  lemma DecodeAt(input: seq<byte>, index: nat, stop: nat)
    requires index < stop <= |input| && (stop < |input| ==> input[stop] == AMP)
    ensures DecodeFormByte(input[index..]) == DecodeFormByte(input[index..stop])
    ensures input[index..stop][DecodeFormByte(input[index..]).1..]
         == input[index + DecodeFormByte(input[index..]).1..stop]
  {
    assert input[index..] == input[index..stop] + input[stop..];
    DecodeLocal(input[index..stop], input[stop..]);
  }

  /** A valid front part of the pending bytes is printed. */
  lemma FlushGood(start: seq<byte>, all: seq<byte>, sofar: seq<byte>, rest: seq<byte>, n: nat)
    requires Continues(start, all, sofar, rest) && n <= |rest| && Utf8.Valid(rest[..n])
    ensures Continues(start, all, sofar + rest[..n], rest[n..])
    ensures forall more: seq<byte> :: sofar + rest[..n] <= start + Lossy(all + more)
    ensures start + Lossy(all) == sofar + rest[..n] + Lossy(rest[n..])
  {
    ContinuesValid(sofar, rest, n);
    ContinuesTrans(start, all, sofar, rest, sofar + rest[..n], rest[n..]);
    ContinuesPrefix(start, all, sofar + rest[..n], rest[n..]);
  }

  /** An invalid piece at the front is printed as U+FFFD. */
  lemma FlushBad(start: seq<byte>, all: seq<byte>, sofar: seq<byte>, rest: seq<byte>, n: nat)
    requires Continues(start, all, sofar, rest) && Scan(rest) == Bad(n)
    ensures Continues(start, all, sofar + REPLACEMENT, rest[n..])
    ensures forall more: seq<byte> :: sofar + REPLACEMENT <= start + Lossy(all + more)
    ensures start + Lossy(all) == sofar + REPLACEMENT + Lossy(rest[n..])
  {
    ContinuesBad(sofar, rest, n);
    ContinuesTrans(start, all, sofar, rest, sofar + REPLACEMENT, rest[n..]);
    ContinuesPrefix(start, all, sofar + REPLACEMENT, rest[n..]);
  }

  lemma DropDrop(s: seq<byte>, i: nat, j: nat)
    requires i + j <= |s|
    ensures s[i..][j..] == s[i + j..]
  {
  }

  class FormComponentDecoder {
    var bytes: seq<byte>

    constructor ()
      ensures bytes == []
    {
      bytes := [];
    }

    method Push(b: byte, output: LimitedString) returns (ok: bool)
      requires output.Open()
      modifies this, output
      ensures output.Inv() && (ok <==> output.Open())
      ensures ok ==> Continues(old(output.intended), old(bytes) + [b], output.intended, bytes)
      ensures !ok ==> forall more: seq<byte> ::
                output.intended <= old(output.intended) + Lossy(old(bytes) + [b] + more)
      ensures ok && |old(bytes)| < output.check ==> |bytes| < output.check
    {
      bytes := bytes + [b];
      ok := true;
      if |bytes| >= output.check {
        ok := Flush(false, output);
      }
    }

    method Finish(output: LimitedString) returns (ok: bool)
      requires output.Open()
      modifies this, output
      ensures output.Inv() && (ok <==> output.Open())
      ensures ok ==> bytes == [] && output.intended == old(output.intended) + Lossy(old(bytes))
      ensures !ok ==> output.intended <= old(output.intended) + Lossy(old(bytes))
    {
      ok := Flush(true, output);
    }

    method Flush(final: bool, output: LimitedString) returns (ok: bool)
      requires output.Open()
      modifies this, output
      ensures output.Inv() && (ok <==> output.Open())
      ensures ok && final ==> bytes == [] && output.intended == old(output.intended) + Lossy(old(bytes))
      ensures !ok && final ==> output.intended <= old(output.intended) + Lossy(old(bytes))
      ensures ok && !final ==> |bytes| <= 3 && Continues(old(output.intended), old(bytes), output.intended, bytes)
      ensures !ok && !final ==> forall more: seq<byte> ::
                output.intended <= old(output.intended) + Lossy(old(bytes) + more)
    {
      ghost var start := output.intended;
      var consumed := 0;
      var stop := false;
      assert bytes[0..] == bytes;
      while consumed < |bytes| && !stop
        invariant consumed <= |bytes| && bytes == old(bytes)
        invariant output.Open()
        invariant Flushed(final, start, bytes, output.intended, consumed)
        invariant stop ==> !final && |bytes| - consumed <= 3
        decreases |bytes| - consumed, !stop
        modifies output
      {
        consumed, stop, ok := Round(final, consumed, output, start);
        if !ok { return; }
      }
      FlushedEnd(final, start, bytes, output.intended, consumed);
      ok := true;
      if consumed > 0 {
        bytes := bytes[consumed..];
      }
    }

    /** One turn of the flush loop: `stop` is its `break`. */
    method Round(final: bool, consumed: nat, output: LimitedString, ghost start: seq<byte>)
        returns (next: nat, stop: bool, ok: bool)
      requires output.Open() && consumed < |bytes|
      requires Flushed(final, start, bytes, output.intended, consumed)
      modifies output
      ensures output.Inv() && (ok <==> output.Open())
      ensures ok ==> consumed <= next <= |bytes| && Flushed(final, start, bytes, output.intended, next)
      ensures ok && !stop ==> consumed < next
      ensures stop ==> !final && |bytes| - next <= 3
      ensures !ok && final ==> output.intended <= start + Lossy(bytes)
      ensures !ok && !final ==> forall more: seq<byte> :: output.intended <= start + Lossy(bytes + more)
    {
      hide Lossy, Utf8.Valid, Truncate, FromUtf8, Continues;
      stop := false;
      var c := FromUtf8(bytes[consumed..]);
      CheckIsValid(bytes[consumed..]);
      if c.Ok? {
        next := |bytes|;
        assert bytes[consumed..next] == bytes[consumed..];
        ok := WriteValid(consumed, next, output, start);
        return;
      }
      CheckPoint(bytes[consumed..]);
      var validEnd := consumed + c.validUpTo;
      next := validEnd;
      DropDrop(bytes, consumed, c.validUpTo);
      assert bytes[consumed..][..c.validUpTo] == bytes[consumed..validEnd];
      ok := WriteValid(consumed, validEnd, output, start);
      if !ok { return; }
      match c.errorLen {
        case Some(n) =>
          ok := WriteBad(validEnd, n, output, start);
          next := validEnd + n;
        case None =>
          if final {
            ok := WriteCut(validEnd, output, start);
            next := |bytes|;
          } else {
            stop := true;
          }
      }
    }

    /** Prints a valid stretch of the buffer, if there is one. */
    method WriteValid(from: nat, to: nat, output: LimitedString, ghost start: seq<byte>) returns (ok: bool)
      requires output.Open()
      requires from <= to <= |bytes| && Utf8.Valid(bytes[from..to])
      requires Continues(start, bytes, output.intended, bytes[from..])
      modifies output
      ensures output.Inv() && (ok <==> output.Open())
      ensures Continues(start, bytes, output.intended, bytes[to..])
      ensures output.intended <= start + Lossy(bytes)
      ensures forall more: seq<byte> :: output.intended <= start + Lossy(bytes + more)
    {
      hide Lossy, Utf8.Valid, Truncate, Continues;
      assert bytes[from..][..to - from] == bytes[from..to];
      DropDrop(bytes, from, to - from);
      FlushGood(start, bytes, output.intended, bytes[from..], to - from);
      ok := true;
      if from < to {
        ok := output.WriteStr(bytes[from..to]);
      } else {
        NoBuffer(output.intended);
      }
    }

    method WriteBad(from: nat, n: nat, output: LimitedString, ghost start: seq<byte>) returns (ok: bool)
      requires output.Open()
      requires from <= |bytes| && Scan(bytes[from..]) == Bad(n)
      requires Continues(start, bytes, output.intended, bytes[from..])
      modifies output
      ensures output.Inv() && (ok <==> output.Open())
      ensures Continues(start, bytes, output.intended, bytes[from + n..])
      ensures output.intended <= start + Lossy(bytes)
      ensures forall more: seq<byte> :: output.intended <= start + Lossy(bytes + more)
    {
      hide Lossy, Utf8.Valid, Truncate, Continues;
      ReplacementIsChar();
      FlushBad(start, bytes, output.intended, bytes[from..], n);
      DropDrop(bytes, from, n);
      ok := output.WriteStr(REPLACEMENT);
    }

    /** At the end of a component an unfinished character is one U+FFFD. */
    method WriteCut(from: nat, output: LimitedString, ghost start: seq<byte>) returns (ok: bool)
      requires output.Open()
      requires from <= |bytes| && Scan(bytes[from..]) == Cut
      requires Continues(start, bytes, output.intended, bytes[from..])
      modifies output
      ensures output.Inv() && (ok <==> output.Open())
      ensures output.intended == start + Lossy(bytes)
    {
      ReplacementIsChar();
      ContinuesPrefix(start, bytes, output.intended, bytes[from..]);
      ok := output.WriteStr(REPLACEMENT);
    }
  }

  /** Where the flush loop is: still on its way, or done with an unfinished last character. */
  ghost predicate Flushed(final: bool, start: seq<byte>, all: seq<byte>, printed: seq<byte>, consumed: nat)
    requires consumed <= |all|
  {
    || Continues(start, all, printed, all[consumed..])
    || (final && consumed == |all| && printed == start + Lossy(all))
  }

  lemma FlushedEnd(final: bool, start: seq<byte>, all: seq<byte>, printed: seq<byte>, consumed: nat)
    requires consumed <= |all| && Flushed(final, start, all, printed, consumed)
    ensures consumed == |all| ==> printed == start + Lossy(all)
  {
    if Continues(start, all, printed, all[consumed..]) && consumed == |all| {
      assert all[|all|..] == [];
      ContinuesPrefix(start, all, printed, all[|all|..]);
      NoBuffer(printed);
    }
  }

  // ---------------------------------------------------------------------------------------
  // The renderer

  /** However the input is buffered and flushed, the result is the whole-input text cut at the
      last character boundary that fits, and it is flagged exactly when something was cut. Only a
      cancelled call has no result: what a cancelled write leaves behind never passes for one. */
  method FormatForm(input: seq<byte>, limit: nat, check: nat, polls: Flag) returns (r: Outcome<Formatted>)
    requires check >= 4
    ensures r.Done? ==> r.value == Formatted(Truncate(FormText(input), limit), |FormText(input)| > limit)
    ensures r.Done? ==> (r.value.limited <==> r.value.text != FormText(input))
    ensures r.Cancelled? ==> exists k: nat :: polls(k)
    ensures polls(0) ==> r.Cancelled?
  {
    FormTextValid(input);
    TruncateFacts(FormText(input), limit);
    var output := new LimitedString(limit, check, polls);
    ghost var full := FormText(input);
    var stopped := Stream(input, output, full);
    if stopped { return Cancelled; }
    var seen := output.Look();
    if seen { return Cancelled; }
    TruncateFacts(output.intended, limit);
    if output.limited {
      TruncateExtended(output.intended, full[|output.intended|..], limit);
      assert output.intended + full[|output.intended|..] == full;
    }
    r := Done(Formatted(output.text, output.limited));
  }

  /** `checkpoint_form_scan`: a look at the flag now and then. */
  method CheckpointScan(index: nat, checkpoint: nat, output: LimitedString) returns (next: nat, stopped: bool)
    requires output.Open()
    modifies output`looks, output`cancelled
    ensures output.Inv() && (stopped <==> !output.Open())
  {
    next, stopped := checkpoint, false;
    if Minus(index, checkpoint) >= output.check {
      stopped := output.Look();
      next := index;
    }
  }

  /** The scan; a failed write ends it, and so does a look that sees the flag (`stopped`). */
  method Stream(input: seq<byte>, output: LimitedString, ghost full: seq<byte>) returns (stopped: bool)
    requires full == FormText(input)
    requires output.Open() && output.intended == []
    modifies output
    ensures output.Inv() && (stopped ==> output.cancelled)
    ensures if output.Open() then output.intended == full else output.intended <= full
  {
    var index, checkpoint := 0, 0;
    var pairCount := 0;
    var decoder := new FormComponentDecoder();
    assert input[0..] == input;
    while index < |input|
      invariant index <= |input|
      invariant fresh(decoder) && decoder.bytes == []
      invariant output.Open()
      invariant output.intended + TextFrom(input[index..], pairCount > 0) == full
      decreases |input| - index
    {
      var ok;
      index, pairCount, checkpoint, ok, stopped := StreamStep(input, index, pairCount, checkpoint, decoder, output);
      if !ok { return; }
    }
    stopped := false;
    NothingLeft(pairCount > 0);
    NoBuffer(output.intended);
  }

  /** The body of the outer loop: an empty piece is skipped, any other is printed. */
  method StreamStep(input: seq<byte>, start: nat, count: nat, last: nat,
                    decoder: FormComponentDecoder, output: LimitedString)
      returns (index: nat, pairCount: nat, checkpoint: nat, ok: bool, stopped: bool)
    requires start < |input| && decoder.bytes == []
    requires output.Open()
    modifies decoder, output
    ensures output.Inv() && (ok <==> output.Open()) && (stopped ==> output.cancelled)
    ensures ok ==> start < index <= |input| && decoder.bytes == []
    ensures var full := old(output.intended) + TextFrom(input[start..], count > 0);
            if ok then output.intended + TextFrom(input[index..], pairCount > 0) == full
            else output.intended <= full
  {
    hide TextFrom, Pair, Truncate, Utf8.Valid;
    index, pairCount, checkpoint, stopped := start, count, last, false;
    if input[index] == AMP {
      AmpAt(input, index, count > 0);
      index := index + 1;
      checkpoint, stopped := CheckpointScan(index, checkpoint, output);
      ok := !stopped;
      return;
    }
    ghost var stop, rest := PieceAt(input, index, count > 0);
    ok := Newline(count > 0, output, Pair(input[index..stop]) + rest);
    if !ok { return; }
    pairCount := pairCount + 1;
    index, checkpoint, ok, stopped := StreamPiece(input, index, stop, checkpoint, decoder, output, rest);
    if !ok { return; }
    if index < |input| {
      index := index + 1;
      checkpoint, stopped := CheckpointScan(index, checkpoint, output);
      ok := !stopped;
    }
  }

  /** The line break before every pair but the first. */
  method Newline(separate: bool, output: LimitedString, ghost rest: seq<byte>) returns (ok: bool)
    requires output.Open()
    modifies output
    ensures output.Inv() && (ok <==> output.Open())
    ensures ok ==> output.intended + rest == old(output.intended) + ((if separate then NEWLINE else []) + rest)
    ensures !ok ==> output.intended <= old(output.intended) + ((if separate then NEWLINE else []) + rest)
  {
    ok := true;
    if separate {
      Assoc(output.intended, NEWLINE, rest);
      AsciiValid();
      ok := output.WriteStr(NEWLINE);
    } else {
      NoBuffer(rest);
    }
  }

  /** The inner loop: one piece, from its first byte to the `&` or the end of the input. */
  method StreamPiece(input: seq<byte>, start: nat, ghost stop: nat, last: nat,
                     decoder: FormComponentDecoder, output: LimitedString, ghost rest: seq<byte>)
      returns (index: nat, checkpoint: nat, ok: bool, stopped: bool)
    requires start < stop <= |input| && (stop < |input| ==> input[stop] == AMP)
    requires forall j :: start <= j < stop ==> input[j] != AMP
    requires decoder.bytes == [] && output.Open()
    modifies decoder, output
    ensures output.Inv() && (ok <==> output.Open()) && (stopped ==> output.cancelled)
    ensures ok ==> index == stop && decoder.bytes == []
    ensures var target := old(output.intended) + (Pair(input[start..stop]) + rest);
            if ok then output.intended + rest == target else output.intended <= target
  {
    hide PairRest, Pair, Truncate, Utf8.Valid, Lossy;
    Assoc(output.intended, Pair(input[start..stop]), rest);
    ghost var target := output.intended + Pair(input[start..stop]);
    var value := false;
    index, checkpoint, stopped := start, last, false;
    PairIsRest(input[start..stop]);
    while index < |input| && input[index] != AMP
      invariant start <= index <= stop
      invariant output.Open() && !stopped
      invariant output.intended + PairRest(decoder.bytes, input[index..stop], value) == target
      decreases |input| - index
      modifies decoder, output
    {
      if !value && input[index] == EQUALS {
        PairEquals(decoder.bytes, input[index..stop]);
        DropSlice(input, index, 1, stop);
        ok := FinishName(decoder, output, PairRest([], input[index + 1..stop], true), target);
        if !ok { return; }
        value := true;
        index := index + 1;
      } else {
        index, ok := PushDecoded(input, index, stop, value, decoder, output);
        if !ok { return; }
      }
      checkpoint, stopped := CheckpointScan(index, checkpoint, output);
      if stopped {
        PieceStopped(output.intended, decoder.bytes, input[index..stop], value, target, rest);
        return index, checkpoint, false, true;
      }
    }
    assert input[index..stop] == [];
    PairEnd(decoder.bytes, value);
    if value {
      NoBuffer(Lossy(decoder.bytes));
      ok := decoder.Finish(output);
    } else {
      NoBuffer(SEPARATOR);
      ok := FinishName(decoder, output, [], target);
      NoBuffer(output.intended);
    }
  }

  lemma PieceStopped(printed: seq<byte>, buf: seq<byte>, s: seq<byte>, value: bool, target: seq<byte>, rest: seq<byte>)
    requires printed + PairRest(buf, s, value) == target
    ensures printed <= target + rest
  {
    hide PairRest;
    Assoc(printed, PairRest(buf, s, value), rest);
  }

  /** Decodes the byte at `index` and hands it to the decoder. */
  method PushDecoded(input: seq<byte>, index: nat, ghost stop: nat, value: bool,
                     decoder: FormComponentDecoder, output: LimitedString)
      returns (next: nat, ok: bool)
    requires index < stop <= |input| && (stop < |input| ==> input[stop] == AMP)
    requires value || input[index] != EQUALS
    requires output.Open()
    modifies decoder, output
    ensures output.Inv() && (ok <==> output.Open())
    ensures index < next <= stop
    ensures var target := old(output.intended + PairRest(decoder.bytes, input[index..stop], value));
            if ok then output.intended + PairRest(decoder.bytes, input[next..stop], value) == target
            else output.intended <= target
  {
    ghost var before, buf, s := output.intended, decoder.bytes, input[index..stop];
    DecodeAt(input, index, stop);
    var (b, n) := DecodeFormByte(input[index..]);
    next := index + n;
    ok := decoder.Push(b, output);
    if ok {
      PushStep(before, buf, s, value, output.intended, decoder.bytes);
    } else {
      PushFailed(before, buf, s, value, output.intended);
    }
  }

  lemma DropSlice(s: seq<byte>, i: nat, n: nat, j: nat)
    requires i + n <= j <= |s|
    ensures s[i..j][n..] == s[i + n..j]
  {
  }

  /** Prints the buffered name and the separator. */
  method FinishName(decoder: FormComponentDecoder, output: LimitedString,
                    ghost rest: seq<byte>, ghost target: seq<byte>)
      returns (ok: bool)
    requires output.Open()
    requires output.intended + (Lossy(decoder.bytes) + (SEPARATOR + rest)) == target
    modifies decoder, output
    ensures output.Inv() && (ok <==> output.Open())
    ensures ok ==> decoder.bytes == [] && output.intended + rest == target
    ensures !ok ==> output.intended <= target
  {
    ghost var before, name := output.intended, Lossy(decoder.bytes);
    Assoc(before, name, SEPARATOR + rest);
    Assoc(before + name, SEPARATOR, rest);
    ok := decoder.Finish(output);
    if !ok { return; }
    AsciiValid();
    ok := output.WriteStr(SEPARATOR);
  }
}
