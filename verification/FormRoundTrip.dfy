/** Writing forms, in any of the ways section 5.2 of the WHATWG URL Standard leaves open, and
    reading them back. */
module FormRoundTrip {
  import opened Basics
  import opened Utf8
  import opened FormDecode
  import opened Bodies

  /** The ways to write one byte: as it is, unless it has a meaning of its own; a space as a plus
      sign; any byte as a percent sign and two hexadecimal digits, each in either case. */
  predicate Spells(s: seq<byte>, b: byte) {
    || (s == [b] && b != 0x2B && b != 0x25 && b != 0x26 && b != 0x3D)
    || (s == [0x2B] && b == 0x20)
    || (|s| == 3 && s[0] == 0x25 && IsDigit(s[1], b / 16) && IsDigit(s[2], b % 16))
  }

  /** Some bytes, and a way to write each of them. */
  datatype Text = Text(raw: seq<byte>, spelt: seq<seq<byte>>)

  predicate Spelt(t: Text) { |t.spelt| == |t.raw| && forall i :: 0 <= i < |t.raw| ==> Spells(t.spelt[i], t.raw[i]) }

  function Rest(t: Text): Text
    requires t.raw != [] && t.spelt != []
  {
    Text(t.raw[1..], t.spelt[1..])
  }

  lemma SpellingReads(s: seq<byte>, b: byte, rest: seq<byte>)
    requires Spells(s, b)
    ensures s != [] && DecodeFormByte(s + rest) == (b, |s|) && (s + rest)[|s|..] == rest
  {
    var all := s + rest;
    assert all[0] == s[0];
    if |s| == 3 {
      assert all[1] == s[1] && all[2] == s[2];
      HexDigits(s[1]);
      HexDigits(s[2]);
    }
  }

  /** Decoding undoes every way of encoding, for all bytes. */
  lemma {:induction false} PercentRoundTrip(t: Text)
    requires Spelt(t)
    ensures PercentDecode(Join(t.spelt)) == t.raw
    decreases |t.raw|
  {
    if t.raw != [] {
      hide DecodeFormByte, Spells;
      assert Spells(t.spelt[0], t.raw[0]);
      PercentRoundTrip(Rest(t));
      SpellingReads(t.spelt[0], t.raw[0], Join(t.spelt[1..]));
    }
  }

  lemma SpellingUnmarked(s: seq<byte>, b: byte)
    requires Spells(s, b)
    ensures AMP !in s && EQUALS !in s
  {
    hide IsDigit;
    if |s| == 3 {
      HexDigits(s[1]);
      HexDigits(s[2]);
      assert s == [s[0], s[1], s[2]];
    }
  }

  lemma {:induction false} NoMarks(t: Text)
    requires Spelt(t)
    ensures AMP !in Join(t.spelt) && EQUALS !in Join(t.spelt)
    decreases |t.raw|
  {
    hide Spells;
    if t.raw != [] {
      SpellingUnmarked(t.spelt[0], t.raw[0]);
      NoMarks(Rest(t));
    }
  }

  // ---------------------------------------------------------------------------------------
  // Whole forms

  datatype Input = Input(name: Text, value: Text)

  predicate Entered(inputs: seq<Input>) {
    forall i :: 0 <= i < |inputs| ==> Spelt(inputs[i].name) && Spelt(inputs[i].value)
  }

  function Written(input: Input): seq<byte> { Join(input.name.spelt) + [0x3D] + Join(input.value.spelt) }

  function FormOf(inputs: seq<Input>): seq<byte> {
    if inputs == [] then []
    else if |inputs| == 1 then Written(inputs[0])
    else Written(inputs[0]) + [0x26] + FormOf(inputs[1..])
  }

  /** One line an input. */
  function Printed(inputs: seq<Input>, separate: bool): seq<byte> {
    if inputs == [] then []
    else
      var line := Lossy(inputs[0].name.raw) + ([0x3A, 0x20] + Lossy(inputs[0].value.raw));
      (if separate then [0x0A] else []) + (line + Printed(inputs[1..], true))
  }

  lemma {:induction false} FindFirst(a: seq<byte>, b: byte, rest: seq<byte>)
    requires b !in a
    ensures Find(a, b) == |a| && Find(a + [b] + rest, b) == |a|
  {
    var all := a + [b] + rest;
    if a != [] {
      FindFirst(a[1..], b, rest);
      assert all[1..] == a[1..] + [b] + rest && all[0] == a[0];
    }
  }

  lemma WrittenReads(input: Input)
    requires Spelt(input.name) && Spelt(input.value)
    ensures Pair(Written(input)) == Lossy(input.name.raw) + ([0x3A, 0x20] + Lossy(input.value.raw))
    ensures AMP !in Written(input) && Written(input) != []
  {
    hide Join, PercentDecode, Lossy, Spelt;
    var a, b := Join(input.name.spelt), Join(input.value.spelt);
    NoMarks(input.name);
    NoMarks(input.value);
    FindFirst(a, EQUALS, b);
    PercentRoundTrip(input.name);
    PercentRoundTrip(input.value);
    var s := Written(input);
    assert s[..|a|] == a && s[|a| + 1..] == b;
  }

  lemma SplitWritten(piece: seq<byte>, rest: seq<byte>)
    requires AMP !in piece
    ensures Split(piece) == [piece] && Split(piece + [AMP] + rest) == [piece] + Split(rest)
  {
    FindFirst(piece, AMP, rest);
    var all := piece + [AMP] + rest;
    assert all[..|piece|] == piece && all[|piece| + 1..] == rest;
  }

  /** Whatever was entered, and however it was written, is what is printed, input by input and in
      order; of text that is not UTF-8, its lossy decoding. */
  lemma {:induction false} FormRoundTrip(inputs: seq<Input>, separate: bool)
    requires Entered(inputs)
    ensures Lines(Split(FormOf(inputs)), separate) == Printed(inputs, separate)
    ensures !separate ==> FormText(FormOf(inputs)) == Printed(inputs, false)
  {
    hide Written, Pair, Split, Lines, Lossy, Spelt;
    if inputs == [] {
      NothingEntered(separate);
    } else {
      var piece, rest := Written(inputs[0]), FormOf(inputs[1..]);
      WrittenReads(inputs[0]);
      SplitWritten(piece, rest);
      if |inputs| == 1 {
        LinesCons(piece, [], separate);
        NoLines();
        assert inputs[1..] == [] && [piece] + [] == [piece];
      } else {
        FormRoundTrip(inputs[1..], true);
        LinesCons(piece, Split(rest), separate);
      }
    }
  }

  lemma NothingEntered(separate: bool)
    ensures Lines(Split([]), separate) == []
  {
    NothingLeft(separate);
  }

  lemma NoLines()
    ensures Lines([], true) == [] && Printed([], true) == []
  {
  }
}
