/** Which content encodings a message's headers list, in the order they were applied (sections 5.3
    and 8.4 of RFC 9110). */
module ContentEncodings {
  datatype Field = Field(name: string, value: string)

  // ---------------------------------------------------------------------------------------
  // Text

  function Lower(c: char): char { if 'A' <= c <= 'Z' then 'a' + (c - 'A') else c }

  function LowerCase(s: string): (r: string)
    ensures |r| == |s| && forall i :: 0 <= i < |s| ==> r[i] == Lower(s[i])
  {
    seq(|s|, i requires 0 <= i < |s| => Lower(s[i]))
  }

  /** The characters Unicode calls white space. */
  predicate IsSpace(c: char) {
    var n := c as int;
    || 0x09 <= n <= 0x0D || n == 0x20 || n == 0x85 || n == 0xA0 || n == 0x1680 || 0x2000 <= n <= 0x200A
    || n == 0x2028 || n == 0x2029 || n == 0x202F || n == 0x205F || n == 0x3000
  }

  /** The code points with the property White_Space in the Unicode Character Database. */
  const WHITE_SPACE: set<int> :=
    {0x09, 0x0A, 0x0B, 0x0C, 0x0D, 0x20, 0x85, 0xA0, 0x1680, 0x2000, 0x2001, 0x2002, 0x2003, 0x2004, 0x2005, 0x2006,
     0x2007, 0x2008, 0x2009, 0x200A, 0x2028, 0x2029, 0x202F, 0x205F, 0x3000}

  lemma SpacesAreListed(c: char)
    ensures IsSpace(c) <==> c as int in WHITE_SPACE
  {
  }

  /** The capital letters of ASCII, and no others, lie 32 places ahead of the small ones. */
  lemma LettersLower(c: char)
    ensures var n := c as int;
            Lower(c) as int == if 0x41 <= n <= 0x5A then n + 0x20 else n
  {
  }

  function Trim(s: string): (t: string)
    ensures t != "" ==> !IsSpace(t[0]) && !IsSpace(t[|t| - 1])
    ensures forall c :: c in t ==> c in s
  {
    if s == "" then ""
    else if IsSpace(s[0]) then Trim(s[1..])
    else if IsSpace(s[|s| - 1]) then Trim(s[..|s| - 1])
    else s
  }

  /** Trimming takes white space off both ends, and nothing else. */
  lemma {:induction false} TrimTakesSpace(s: string) returns (before: string, after: string)
    ensures s == before + Trim(s) + after
    ensures (forall c :: c in before ==> IsSpace(c)) && (forall c :: c in after ==> IsSpace(c))
  {
    hide IsSpace;
    before, after := "", "";
    if s != "" {
      if IsSpace(s[0]) {
        before, after := TrimTakesSpace(s[1..]);
        before := [s[0]] + before;
      } else if IsSpace(s[|s| - 1]) {
        before, after := TrimTakesSpace(s[..|s| - 1]);
        after := after + [s[|s| - 1]];
      }
    }
  }

  /** The pieces between commas, with one more character in front. */
  function Prefixed(c: char, pieces: seq<string>): seq<string>
    requires pieces != []
  {
    if c == ',' then [""] + pieces else [[c] + pieces[0]] + pieces[1..]
  }

  /** The pieces between commas. */
  function Pieces(s: string): (pieces: seq<string>)
    ensures pieces != [] && forall i :: 0 <= i < |pieces| ==> ',' !in pieces[i]
  {
    if s == "" then [""] else Prefixed(s[0], Pieces(s[1..]))
  }

  // ---------------------------------------------------------------------------------------
  // The list

  function Tidy(piece: string): string { LowerCase(Trim(piece)) }

  predicate Names(encoding: string) { encoding != "" && encoding != "identity" }

  function Kept(pieces: seq<string>): seq<string> {
    if pieces == [] then []
    else (if Names(Tidy(pieces[0])) then [Tidy(pieces[0])] else []) + Kept(pieces[1..])
  }

  function Listed(value: string): seq<string> { Kept(Pieces(value)) }

  predicate IsEncoding(f: Field) { LowerCase(f.name) == "content-encoding" }

  /** `content_encodings` */
  function Encodings(fields: seq<Field>): seq<string> {
    if fields == [] then []
    else
      var last := fields[|fields| - 1];
      Encodings(fields[..|fields| - 1]) + if IsEncoding(last) then Listed(last.value) else []
  }

  lemma KeptStep(piece: string, pieces: seq<string>)
    ensures Kept([piece] + pieces) == (if Names(Tidy(piece)) then [Tidy(piece)] else []) + Kept(pieces)
  {
    hide Tidy, Names;
    assert ([piece] + pieces)[1..] == pieces;
  }

  lemma {:induction false} KeptJoin(a: seq<string>, b: seq<string>)
    ensures Kept(a + b) == Kept(a) + Kept(b)
  {
    hide Kept, Tidy, Names;
    if a == [] {
      assert a + b == b;
      KeptNothing();
    } else {
      KeptJoin(a[1..], b);
      KeptStep(a[0], a[1..]);
      KeptStep(a[0], a[1..] + b);
      assert [a[0]] + a[1..] == a && [a[0]] + (a[1..] + b) == a + b;
    }
  }

  lemma KeptNothing()
    ensures Kept([]) == []
  {
  }

  lemma PiecesStep(c: char, s: string)
    ensures Pieces([c] + s) == Prefixed(c, Pieces(s))
  {
    hide Prefixed;
    assert ([c] + s)[1..] == s;
  }

  lemma PrefixedJoin(c: char, p: seq<string>, q: seq<string>)
    requires p != []
    ensures Prefixed(c, p + q) == Prefixed(c, p) + q
  {
    if c != ',' { assert (p + q)[1..] == p[1..] + q; }
  }

  lemma PiecesOfNone()
    ensures Pieces("") == [""]
  {
  }

  lemma {:induction false} PiecesJoin(a: string, b: string)
    ensures Pieces(a + "," + b) == Pieces(a) + Pieces(b)
  {
    hide Pieces, Prefixed;
    if a == "" {
      PiecesOfNone();
      PiecesStep(',', b);
      EmptyFirst(Pieces(b));
      assert a + "," + b == [','] + b;
    } else {
      var c, rest := a[0], a[1..];
      PiecesJoin(rest, b);
      PiecesStep(c, rest);
      PiecesStep(c, rest + "," + b);
      PrefixedJoin(c, Pieces(rest), Pieces(b));
      assert a + "," + b == [c] + (rest + "," + b) && a == [c] + rest;
    }
  }

  lemma EmptyFirst(pieces: seq<string>)
    requires pieces != []
    ensures Prefixed(',', pieces) == [""] + pieces
  {
  }

  /** White space in front of a list changes nothing. */
  lemma {:induction false} Padded(pad: string, value: string)
    requires forall c :: c in pad ==> IsSpace(c)
    ensures Listed(pad + value) == Listed(value)
  {
    hide Kept, Pieces, Prefixed, IsSpace;
    if pad == "" {
      assert pad + value == value;
    } else {
      var c, rest := pad[0], pad[1..] + value;
      assert c in pad && pad + value == [c] + rest;
      Padded(pad[1..], value);
      PiecesStep(c, rest);
      SpaceFirst(c, Pieces(rest));
    }
  }

  lemma SpaceFirst(c: char, pieces: seq<string>)
    requires IsSpace(c) && pieces != []
    ensures Kept(Prefixed(c, pieces)) == Kept(pieces)
  {
    hide Kept, Names;
    assert ([c] + pieces[0])[1..] == pieces[0];
    KeptStep([c] + pieces[0], pieces[1..]);
    KeptStep(pieces[0], pieces[1..]);
    assert [pieces[0]] + pieces[1..] == pieces;
  }

  /** Two lines of the field list what one line with a comma between them lists, wherever the
      lines stand and however they are spaced. */
  lemma CombinedLines(before: seq<Field>, a: Field, b: Field, pad: string)
    requires IsEncoding(a) && IsEncoding(b) && forall c :: c in pad ==> IsSpace(c)
    ensures Encodings(before + [a, b]) == Encodings(before + [Field(a.name, a.value + "," + (pad + b.value))])
  {
    var two, one := before + [a, b], Field(a.name, a.value + "," + (pad + b.value));
    assert two[..|two| - 1] == before + [a] && (before + [a])[..|before|] == before;
    assert (before + [one])[..|before|] == before;
    hide Listed, IsSpace, IsEncoding;
    ListedJoin(a.value, pad + b.value);
    Padded(pad, b.value);
  }

  // ---------------------------------------------------------------------------------------
  // Writing the list

  /** What can be listed as it stands. */
  predicate Plain(e: string) { Names(e) && Tidy(e) == e && ',' !in e }

  function Written(encodings: seq<string>): string {
    if encodings == [] then "" else if |encodings| == 1 then encodings[0]
    else Written(encodings[..|encodings| - 1]) + "," + encodings[|encodings| - 1]
  }

  lemma {:induction false} OnePiece(s: string)
    requires ',' !in s
    ensures Pieces(s) == [s]
  {
    if s != "" {
      OnePiece(s[1..]);
      assert [s[0]] + s[1..] == s;
    }
  }

  lemma OneListed(e: string)
    requires Plain(e)
    ensures Listed(e) == [e]
  {
    OnePiece(e);
    assert Kept([e]) == [e] + Kept([]);
  }

  lemma {:induction false} WrittenReads(encodings: seq<string>)
    requires forall i :: 0 <= i < |encodings| ==> Plain(encodings[i])
    ensures Listed(Written(encodings)) == encodings
  {
    hide Listed, Plain;
    if encodings == [] {
      NothingListed();
    } else {
      var front, last := encodings[..|encodings| - 1], encodings[|encodings| - 1];
      OneListed(last);
      if |encodings| > 1 {
        WrittenReads(front);
        ListedJoin(Written(front), last);
      }
    }
  }

  lemma ListedJoin(a: string, b: string)
    ensures Listed(a + "," + b) == Listed(a) + Listed(b)
  {
    hide Pieces, Kept;
    PiecesJoin(a, b);
    KeptJoin(Pieces(a), Pieces(b));
  }

  lemma NothingListed()
    ensures Listed("") == []
  {
    assert Kept([""]) == Kept([]);
  }

  lemma Unspaced(s: string)
    requires s == "" || (!IsSpace(s[0]) && !IsSpace(s[|s| - 1]))
    ensures Trim(s) == s
  {
  }

  lemma TidyIsPlain(piece: string)
    requires ',' !in piece && Names(Tidy(piece))
    ensures Plain(Tidy(piece))
  {
    var t := Trim(piece);
    var e := LowerCase(t);
    Unspaced(e);
    assert LowerCase(e) == e;
    forall i | 0 <= i < |e| ensures e[i] != ',' {
      assert t[i] in piece;
    }
  }

  lemma {:induction false} KeptArePlain(pieces: seq<string>)
    requires forall i :: 0 <= i < |pieces| ==> ',' !in pieces[i]
    ensures forall i :: 0 <= i < |Kept(pieces)| ==> Plain(Kept(pieces)[i])
  {
    if pieces != [] {
      KeptArePlain(pieces[1..]);
      if Names(Tidy(pieces[0])) { TidyIsPlain(pieces[0]); }
    }
  }

  /** Exactly the pieces that name a coding are listed. */
  lemma {:induction false} KeptAreAll(pieces: seq<string>, e: string)
    ensures e in Kept(pieces) <==> e != "" && e != "identity" && exists i :: 0 <= i < |pieces| && Tidy(pieces[i]) == e
  {
    hide Tidy;
    if pieces != [] {
      var rest := pieces[1..];
      KeptAreAll(rest, e);
      assert forall i :: 1 <= i < |pieces| ==> pieces[i] == rest[i - 1];
      if i :| 0 <= i < |rest| && Tidy(rest[i]) == e { assert pieces[i + 1] == rest[i]; }
    }
  }

  lemma {:induction false} EncodingsArePlain(fields: seq<Field>)
    ensures forall i :: 0 <= i < |Encodings(fields)| ==> Plain(Encodings(fields)[i])
  {
    if fields != [] {
      var last := fields[|fields| - 1];
      EncodingsArePlain(fields[..|fields| - 1]);
      KeptArePlain(Pieces(last.value));
    }
  }

  lemma OneField(value: string)
    ensures Encodings([Field("Content-Encoding", value)]) == Listed(value)
  {
    hide Listed;
    var line := Field("Content-Encoding", value);
    assert IsEncoding(line);
    assert [line][..0] == [] && Encodings([]) == [];
  }

  /** The field's name, letter by letter in either case. */
  predicate IsName(name: string) {
    |name| == 16 && forall i :: 0 <= i < 16 ==> name[i] == "content-encoding"[i] || name[i] == "CONTENT-ENCODING"[i]
  }

  /** Fields of that name add what they list, and no others do. */
  lemma FieldByField(before: seq<Field>, f: Field)
    ensures Encodings(before + [f]) == Encodings(before) + if IsName(f.name) then Listed(f.value) else []
  {
    hide Listed;
    assert (before + [f])[..|before|] == before;
    NameInAnyCase(f);
  }

  lemma NameInAnyCase(f: Field)
    ensures IsEncoding(f) <==> IsName(f.name)
  {
    var name, lower := f.name, "content-encoding";
    if |name| == 16 {
      forall i | 0 <= i < 16
        ensures Lower(name[i]) == lower[i] <==> name[i] == lower[i] || name[i] == "CONTENT-ENCODING"[i]
      {
        assert i == 0 || i == 1 || i == 2 || i == 3 || i == 4 || i == 5 || i == 6 || i == 7 || i == 8 || i == 9
            || i == 10 || i == 11 || i == 12 || i == 13 || i == 14 || i == 15;
      }
      if IsName(name) { assert LowerCase(name) == lower; }
    }
  }

  /** Whatever the headers look like, one tidy line lists the same: nothing empty, no identity,
      everything in lower case, the order kept. */
  lemma OneTidyLine(fields: seq<Field>)
    ensures Encodings([Field("Content-Encoding", Written(Encodings(fields)))]) == Encodings(fields)
  {
    EncodingsArePlain(fields);
    WrittenReads(Encodings(fields));
    OneField(Written(Encodings(fields)));
  }
}
