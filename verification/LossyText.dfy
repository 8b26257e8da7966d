/** Lossy decoding, piece by piece, in the terms of the Unicode Standard alone. */
module LossyText {
  import opened Basics
  import opened Utf8
  import opened Bodies

  /** What stands at the front of `s` up to `n`: a character, or else a maximal subpart: the
      longest beginning of a character that stands there, or a single byte (section 3.9 of the
      Unicode Standard, "U+FFFD Substitution of Maximal Subparts"). */
  ghost predicate Stands(s: seq<byte>, n: nat) {
    && 1 <= n <= |s|
    && (IsChar(s[..n]) ||
        (&& (forall k :: 1 <= k <= |s| ==> !IsChar(s[..k]))
         && (n == 1 || Utf8.Begins(s[..n]))
         && forall k :: n < k <= |s| ==> !Utf8.Begins(s[..k])))
  }

  /** Cut up into what stands in it. */
  ghost predicate Pieces(s: seq<byte>, pieces: seq<seq<byte>>)
    decreases |pieces|
  {
    if pieces == [] then s == []
    else
      var n := |pieces[0]|;
      Stands(s, n) && s[..n] == pieces[0] && Pieces(s[n..], pieces[1..])
  }

  /** Characters stay, and each other piece becomes U+FFFD. */
  function Replaced(pieces: seq<seq<byte>>): (r: seq<seq<byte>>)
    ensures |r| == |pieces|
  {
    seq(|pieces|, i requires 0 <= i < |pieces| => if IsChar(pieces[i]) then pieces[i] else [0xEF, 0xBF, 0xBD])
  }

  lemma ScanStands(s: seq<byte>) returns (n: nat)
    requires s != []
    ensures Stands(s, n)
    ensures Lossy(s) == (if IsChar(s[..n]) then s[..n] else [0xEF, 0xBF, 0xBD]) + Lossy(s[n..])
  {
    BadIsMaximal(s);
    forall k | 1 <= k <= |s| ensures IsChar(s[..k]) <==> Scan(s) == Char(k) { ScanIsGrammar(s, k); }
    hide Scan, IsChar, Utf8.Begins;
    match Scan(s)
    case Char(k) => n := k;
    case Bad(k) => n := k;
    case Cut =>
      n := |s|;
      assert s[..n] == s && s[n..] == [];
      LossyNothing();
  }

  lemma LossyNothing()
    ensures Lossy([]) == []
  {
  }

  /** Lossy decoding cuts its input up into characters and maximal subparts, and replaces these. */
  lemma {:induction false} LossyIsSubstitution(s: seq<byte>) returns (pieces: seq<seq<byte>>)
    ensures Join(pieces) == s && Pieces(s, pieces) && Lossy(s) == Join(Replaced(pieces))
    decreases |s|
  {
    hide Lossy, Stands, IsChar;
    if s == [] {
      LossyNothing();
      return [];
    }
    var n := ScanStands(s);
    StandsWithin(s, n);
    var rest := LossyIsSubstitution(s[n..]);
    pieces := [s[..n]] + rest;
    assert pieces[1..] == rest && Replaced(pieces)[1..] == Replaced(rest);
    assert s[..n] + s[n..] == s;
  }

  lemma StandsWithin(s: seq<byte>, n: nat)
    requires Stands(s, n)
    ensures 1 <= n <= |s|
  {
  }
}
