/** The names in the request tree: one prefix a kind, and decimal sequence numbers that read back. */
module RequestNames {
  import opened Basics

  const ORIGIN_PREFIX := "origin:"
  const SEGMENT_PREFIX := "segment:"
  const REQUEST_PREFIX := "request:"

  const U64_MAX: nat := 0xFFFF_FFFF_FFFF_FFFF

  datatype Entry = Entry(origin: string, segments: seq<string>, sequence: nat)

  function OriginIdentifier(origin: string): string { ORIGIN_PREFIX + origin }

  function SegmentIdentifier(segment: string): string { SEGMENT_PREFIX + segment }

  function RequestIdentifier(sequence: nat): string { REQUEST_PREFIX + Decimal(sequence) }

  function Decimal(n: nat): string {
    if n < 10 then [Digit(n)] else Decimal(n / 10) + [Digit(n % 10)]
  }

  function Digit(d: nat): char
    requires d < 10
  {
    '0' + d as char
  }

  /** Reading digits back; empty input and other characters are errors. */
  function ReadDigits(s: string): Option<nat> {
    if s == [] then None
    else
      var d := s[|s| - 1];
      if !('0' <= d <= '9') then None
      else if |s| == 1 then Some((d - '0') as nat)
      else
        var front := ReadDigits(s[..|s| - 1]);
        if front.None? then None else Some(front.value * 10 + (d - '0') as nat)
  }

  /** The standard library's reading of an unsigned 64-bit number: a plus sign may lead. */
  function ReadU64(s: string): Option<nat> {
    var r := ReadDigits(if s != [] && s[0] == '+' then s[1..] else s);
    if r.Some? && r.value <= U64_MAX then r else None
  }

  lemma {:induction false} DecimalReads(n: nat)
    ensures Decimal(n) != [] && Decimal(n)[0] != '+' && ReadDigits(Decimal(n)) == Some(n)
  {
    if n >= 10 {
      DecimalReads(n / 10);
      assert Decimal(n)[..|Decimal(n)| - 1] == Decimal(n / 10);
    }
  }

  lemma RequestIdentifiersDiffer(a: nat, b: nat)
    requires a != b
    ensures RequestIdentifier(a) != RequestIdentifier(b)
  {
    DecimalReads(a);
    DecimalReads(b);
    assert RequestIdentifier(a)[8..] == Decimal(a) && RequestIdentifier(b)[8..] == Decimal(b);
  }

  lemma PrefixedDiffer(prefix: string, a: string, b: string)
    requires a != b
    ensures prefix + a != prefix + b
  {
    assert (prefix + a)[|prefix|..] == a && (prefix + b)[|prefix|..] == b;
  }

  lemma KindsDiffer(segment: string, sequence: nat)
    ensures SegmentIdentifier(segment) != RequestIdentifier(sequence)
  {
    assert SegmentIdentifier(segment)[0] == 's' && RequestIdentifier(sequence)[0] == 'r';
  }

  /** `selected_request_sequence`: the request a tree path names, if it names one. */
  function SelectedSequence(path: seq<string>): Option<nat> {
    if path == [] then None
    else
      var name := path[|path| - 1];
      if REQUEST_PREFIX <= name then ReadU64(name[|REQUEST_PREFIX|..]) else None
  }

  function ZeroDigits(k: nat): string
    ensures |ZeroDigits(k)| == k && forall i :: 0 <= i < k ==> ZeroDigits(k)[i] == '0'
  {
    seq(k, _ => '0')
  }

  lemma DecimalMore(m: nat, d: nat)
    requires d < 10
    ensures Decimal(10 * m + d) == (if m == 0 then [] else Decimal(m)) + [Digit(d)]
  {
  }

  lemma LastDigit(s: string, n: nat)
    requires ReadDigits(s) == Some(n)
    ensures s != "" && '0' <= s[|s| - 1] <= '9'
    ensures var d := (s[|s| - 1] - '0') as nat;
            && d < 10 && Digit(d) == s[|s| - 1] && (|s| == 1 ==> n == d)
            && (|s| > 1 ==> ReadDigits(s[..|s| - 1]).Some? && n == 10 * ReadDigits(s[..|s| - 1]).value + d)
  {
  }

  /** What reads as a number is its decimal digits, with zeros ahead of them or none. */
  lemma {:induction false} DigitsAreDecimal(s: string, n: nat) returns (k: nat)
    requires ReadDigits(s) == Some(n)
    ensures s == ZeroDigits(k) + Decimal(n)
  {
    LastDigit(s, n);
    hide ReadDigits, Decimal, Digit;
    var d := (s[|s| - 1] - '0') as nat;
    if |s| == 1 {
      k := 0;
      DecimalMore(0, d);
      assert s == [] + [Digit(d)] && ZeroDigits(0) == [];
    } else {
      var front := s[..|s| - 1];
      var m := ReadDigits(front).value;
      var j := DigitsAreDecimal(front, m);
      assert s == front + [Digit(d)];
      DecimalMore(m, d);
      if m == 0 {
        k := j + 1;
        ZeroIsOneDigit();
        assert ZeroDigits(k) == ZeroDigits(j) + "0";
      } else {
        k := j;
        Assoc(ZeroDigits(j), Decimal(m), [Digit(d)]);
      }
    }
  }

  lemma ZeroIsOneDigit()
    ensures Decimal(0) == "0"
  {
  }

  lemma {:induction false} ZerosRead(k: nat, n: nat)
    ensures var s := ZeroDigits(k) + Decimal(n);
            s != "" && s[0] != '+' && ReadDigits(s) == Some(n)
  {
    DecimalReads(n);
    hide ReadDigits, Decimal;
    assert (ZeroDigits(k) + Decimal(n))[0] == if k > 0 then ZeroDigits(k)[0] else Decimal(n)[0];
    LeadingZeros(ZeroDigits(k), Decimal(n), n);
  }

  lemma {:induction false} LeadingZeros(zeros: string, s: string, n: nat)
    requires (forall i :: 0 <= i < |zeros| ==> zeros[i] == '0') && ReadDigits(s) == Some(n)
    ensures ReadDigits(zeros + s) == Some(n)
    decreases |s|
  {
    var all := zeros + s;
    assert all[|all| - 1] == s[|s| - 1];
    if |s| > 1 {
      assert all[..|all| - 1] == zeros + s[..|s| - 1];
      LeadingZeros(zeros, s[..|s| - 1], ReadDigits(s[..|s| - 1]).value);
    } else if zeros != "" {
      assert all[..|all| - 1] == zeros;
      AllZeros(zeros);
    } else {
      assert all == s;
    }
  }

  lemma {:induction false} AllZeros(zeros: string)
    requires zeros != "" && forall i :: 0 <= i < |zeros| ==> zeros[i] == '0'
    ensures ReadDigits(zeros) == Some(0)
  {
    if |zeros| > 1 { AllZeros(zeros[..|zeros| - 1]); }
  }

  /** A text that gives `n` in decimal: a plus sign and zeros may lead. */
  ghost predicate Gives(s: string, n: nat) {
    exists k :: s == ZeroDigits(k) + Decimal(n) || s == "+" + (ZeroDigits(k) + Decimal(n))
  }

  lemma ReadGives(s: string, n: nat)
    requires ReadU64(s) == Some(n)
    ensures n < 0x1_0000_0000_0000_0000 && Gives(s, n)
  {
    hide ReadDigits, Decimal;
    var body := if s != [] && s[0] == '+' then s[1..] else s;
    var k := DigitsAreDecimal(body, n);
    if body != s { assert s == "+" + body; }
  }

  lemma GivesRead(s: string, n: nat)
    requires n < 0x1_0000_0000_0000_0000 && Gives(s, n)
    ensures ReadU64(s) == Some(n)
  {
    var k :| s == ZeroDigits(k) + Decimal(n) || s == "+" + (ZeroDigits(k) + Decimal(n));
    var body := ZeroDigits(k) + Decimal(n);
    hide ReadDigits, Decimal, ZeroDigits;
    ZerosRead(k, n);
    if s != body { assert s[1..] == body; }
  }

  /** Exactly which paths name a request: those that end in its number, within 64 bits. */
  lemma SelectedExact(path: seq<string>, n: nat)
    ensures SelectedSequence(path) == Some(n) <==>
              path != [] && n < 0x1_0000_0000_0000_0000
              && "request:" <= path[|path| - 1] && Gives(path[|path| - 1][8..], n)
  {
    hide ReadU64, Gives;
    if path != [] {
      var s := path[|path| - 1];
      if "request:" <= s {
        if ReadU64(s[8..]) == Some(n) { ReadGives(s[8..], n); }
        if n < 0x1_0000_0000_0000_0000 && Gives(s[8..], n) { GivesRead(s[8..], n); }
      }
    }
  }

  function ParentSegments(segments: seq<string>): seq<string> {
    if segments == [] then [] else segments[..|segments| - 1]
  }

  function BranchNames(segments: seq<string>): seq<string> {
    if segments == [] then []
    else BranchNames(segments[..|segments| - 1]) + [SegmentIdentifier(segments[|segments| - 1])]
  }

  function ParentPath(e: Entry): seq<string> {
    [OriginIdentifier(e.origin)] + BranchNames(ParentSegments(e.segments))
  }

  function RequestPath(e: Entry): seq<string> { ParentPath(e) + [RequestIdentifier(e.sequence)] }

  /** What a request is called at its place: its last segment. */
  function Label(e: Entry): string { if e.segments == [] then "/" else e.segments[|e.segments| - 1] }

  /** How deep in the tree a request is: below its origin, and one level for each segment but the
      last, which names the request itself. */
  function Levels(e: Entry): nat { if |e.segments| <= 1 then 1 else |e.segments| }

  /** A request's path, name by name. */
  lemma PathShape(e: Entry)
    ensures var p := RequestPath(e);
            && |p| == Levels(e) + 1 && p[0] == "origin:" + e.origin
            && (forall k :: 1 <= k < Levels(e) ==> p[k] == "segment:" + e.segments[k - 1])
            && p[Levels(e)] == "request:" + Decimal(e.sequence)
  {
    var middle := ParentSegments(e.segments);
    BranchCount(middle);
    forall k | 1 <= k < Levels(e) ensures RequestPath(e)[k] == "segment:" + e.segments[k - 1] {
      BranchNameAt(middle, k - 1);
    }
  }

  /** The same origin, and the same segments up to the last. */
  predicate SameFolder(a: Entry, b: Entry) {
    && a.origin == b.origin && Levels(a) == Levels(b)
    && forall k :: 0 <= k < Levels(a) - 1 ==> a.segments[k] == b.segments[k]
  }

  /** Two requests hang under one node exactly when they differ in nothing but the last segment. */
  lemma SharedParent(a: Entry, b: Entry)
    ensures ParentPath(a) == ParentPath(b) <==> SameFolder(a, b)
  {
    PathShape(a);
    PathShape(b);
    var p, q := RequestPath(a), RequestPath(b);
    assert p[..Levels(a)] == ParentPath(a) && q[..Levels(b)] == ParentPath(b);
    if ParentPath(a) == ParentPath(b) {
      assert p[0] == q[0];
      assert p[0][7..] == a.origin && q[0][7..] == b.origin;
      forall k | 0 <= k < Levels(a) - 1 ensures a.segments[k] == b.segments[k] {
        assert ParentPath(a)[k + 1] == ParentPath(b)[k + 1];
        assert p[k + 1][8..] == a.segments[k] && q[k + 1][8..] == b.segments[k];
      }
    }
    if SameFolder(a, b) {
      forall k | 0 <= k < Levels(a) ensures ParentPath(a)[k] == ParentPath(b)[k] {
        assert ParentPath(a)[k] == p[k] && ParentPath(b)[k] == q[k];
      }
    }
  }

  /** Selecting a request's own path selects that request. */
  lemma SelectedIsOwn(e: Entry)
    requires e.sequence <= U64_MAX
    ensures SelectedSequence(RequestPath(e)) == Some(e.sequence)
  {
    DecimalReads(e.sequence);
    var name := RequestIdentifier(e.sequence);
    assert name[|REQUEST_PREFIX|..] == Decimal(e.sequence);
  }

  /** Selecting a branch selects no request. */
  lemma SelectedBranch(e: Entry, k: nat)
    requires k <= |ParentPath(e)|
    ensures SelectedSequence(ParentPath(e)[..k]) == None
  {
    if k > 0 {
      var name := ParentPath(e)[k - 1];
      if k > 1 { BranchNameAt(ParentSegments(e.segments), k - 2); }
      assert name[0] != 'r';
    }
  }

  lemma {:induction false} BranchNameAt(segments: seq<string>, k: nat)
    requires k < |BranchNames(segments)|
    ensures |BranchNames(segments)| == |segments| && BranchNames(segments)[k] == SegmentIdentifier(segments[k])
  {
    if segments != [] {
      BranchCount(segments);
      if k < |segments| - 1 { BranchNameAt(segments[..|segments| - 1], k); }
    }
  }

  lemma {:induction false} BranchCount(segments: seq<string>)
    ensures |BranchNames(segments)| == |segments|
  {
    if segments != [] { BranchCount(segments[..|segments| - 1]); }
  }
}
