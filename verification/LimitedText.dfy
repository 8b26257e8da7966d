/** The output limiter of the decode service: text is collected up to a byte limit, never inside
    a character, and the first write that does not fit, or is cancelled, is reported. */
module LimitedText {
  import opened Utf8

  /** What looks at the cancellation flag see: once set, it stays set. */
  type Flag = polls: nat -> bool | forall i: nat, j: nat :: i <= j && polls(i) ==> polls(j)
    witness k => false

  datatype Formatted = Formatted(text: seq<byte>, limited: bool)

  class LimitedString {
    const limit: nat
    const check: nat
    const polls: Flag
    var text: seq<byte>
    var limited: bool
    /** How often the flag was looked at, and whether a look saw it set. */
    var looks: nat
    ghost var cancelled: bool
    /** Everything the writers asked for, the write that failed included. */
    ghost var intended: seq<byte>

    ghost predicate Inv()
      reads this
    {
      && check >= 4
      && Utf8.Valid(intended)
      && (cancelled ==> polls(looks))
      && (!cancelled ==> text == Truncate(intended, limit) && (limited <==> |intended| > limit))
    }

    /** Nothing has failed yet. */
    ghost predicate Open()
      reads this
    {
      Inv() && !limited && !cancelled
    }

    constructor (limit: nat, check: nat, polls: Flag)
      requires check >= 4
      ensures Open() && intended == [] && this.limit == limit && this.check == check && this.polls == polls
    {
      this.limit := limit;
      this.check := check;
      this.polls := polls;
      text, limited, looks, intended, cancelled := [], false, 0, [], false;
    }

    /** A look at the cancellation flag. */
    method Look() returns (seen: bool)
      requires cancelled ==> polls(looks)
      modifies this`looks, this`cancelled
      ensures cancelled ==> polls(looks)
      ensures cancelled <==> old(cancelled) || seen
      ensures seen == polls(old(looks))
    {
      seen := polls(looks);
      cancelled := cancelled || seen;
      looks := looks + 1;
    }

    /** `write_str`. Callers stop at the first failure. */
    method WriteStr(t: seq<byte>) returns (ok: bool)
      requires Open() && Utf8.Valid(t)
      modifies this
      ensures Inv() && intended == old(intended) + t
      ensures ok <==> Open()
    {
      hide Utf8.Valid, Truncate, IsBoundary;
      ValidConcat(intended, t);
      Room(intended, t, limit);
      var end := CutPoint(t, limit - |text|);
      ok := Copy(t, end);
      intended := intended + t;
      if !ok { return; }
      if end < |t| {
        limited := true;
      }
      ok := end >= |t|;
    }

    /** The copy loop: pieces of at most `check` bytes, with a look at the flag before each. */
    method Copy(t: seq<byte>, end: nat) returns (ok: bool)
      requires Utf8.Valid(t) && end <= |t| && IsBoundary(t, end) && check >= 4 && !cancelled
      modifies this`text, this`looks, this`cancelled
      ensures ok <==> !cancelled
      ensures cancelled ==> polls(looks)
      ensures ok ==> text == old(text) + t[..end]
    {
      hide Utf8.Valid, IsBoundary;
      var start := 0;
      assert text == old(text) + t[..0];
      while start < end
        invariant start <= end
        invariant text == old(text) + t[..start] && !cancelled
      {
        var seen := Look();
        if seen { return false; }
        var upTo := if start + check <= end then start + check else end;
        upTo := BackOffInside(t, start, upTo, end);
        AppendSlice(old(text), t, start, upTo);
        text := text + t[start..upTo];
        start := upTo;
      }
      ok := true;
    }

    /** The copy loop's own back-off: it never gives up all of its progress. */
    method BackOffInside(t: seq<byte>, start: nat, from: nat, end: nat) returns (upTo: nat)
      requires Utf8.Valid(t) && start < from <= end <= |t| && IsBoundary(t, end)
      requires from == end || from >= start + 4
      ensures start < upTo <= from
    {
      if from >= start + 4 { var _ := BoundaryNear(t, from); }
      upTo := from;
      while !IsBoundary(t, upTo)
        decreases upTo
        invariant start < upTo <= from
        invariant forall i :: upTo < i <= from ==> !IsBoundary(t, i)
      {
        upTo := upTo - 1;
      }
    }
  }

  /** `capped_text`: a write's failure is dropped, and a last look tells a cancelled one from one
      that did not fit. */
  method CappedText(input: seq<byte>, limit: nat, check: nat, polls: Flag) returns (r: Outcome<Formatted>)
    requires check >= 4 && Utf8.Valid(input)
    ensures r.Done? ==> r.value == Formatted(Truncate(input, limit), |input| > limit)
    ensures r.Cancelled? ==> exists k: nat :: polls(k)
    ensures polls(0) ==> r.Cancelled?
  {
    var output := new LimitedString(limit, check, polls);
    var _ := output.WriteStr(input);
    assert [] + input == input;
    var seen := output.Look();
    if seen { return Cancelled; }
    r := Done(Formatted(output.text, output.limited));
  }

  /** What a write does to the truncation of everything written. */
  lemma Room(intended: seq<byte>, t: seq<byte>, limit: nat)
    requires Utf8.Valid(intended) && Utf8.Valid(t) && |intended| <= limit
    ensures var end := Floor(t, limit - |intended|);
            && end <= |t| && IsBoundary(t, end) && Truncate(intended, limit) == intended
            && Truncate(intended + t, limit) == intended + t[..end]
            && (|intended + t| > limit <==> end < |t|)
  {
    TruncateFacts(intended, limit);
    TruncateAppended(intended, t, limit);
  }

  lemma AppendSlice(before: seq<byte>, t: seq<byte>, start: nat, end: nat)
    requires start <= end <= |t|
    ensures before + t[..start] + t[start..end] == before + t[..end]
  {
  }

  /** Truncating after appending is appending a truncation. */
  lemma {:induction false} TruncateAppended(text: seq<byte>, t: seq<byte>, limit: nat)
    requires Utf8.Valid(t) && |text| <= limit
    ensures Truncate(text + t, limit) == text + Truncate(t, limit - |text|)
    ensures |text + t| > limit <==> Floor(t, limit - |text|) < |t|
  {
    var s, end := text + t, Floor(t, limit - |text|);
    if t == [] {
      assert s == text;
    } else {
      assert forall i :: 0 <= i <= |t| ==> (IsBoundary(s, |text| + i) <==> IsBoundary(t, i)) by {
        assert forall i :: 0 <= i < |t| ==> s[|text| + i] == t[i];
      }
      forall i | |text| + end < i <= limit && i <= |s| ensures !IsBoundary(s, i) {
        assert !IsBoundary(t, i - |text|);
      }
      assert IsBoundary(s, |text| + end);
      FloorUnique(s, limit, |text| + end);
      assert s[..|text| + end] == text + t[..end];
    }
  }

  /** `append_suffix`: the notice is always kept if it fits at all, at the cost of the text. */
  method AppendSuffix(text: seq<byte>, suffix: seq<byte>, limit: nat) returns (r: seq<byte>)
    requires Utf8.Valid(text) && Utf8.Valid(suffix)
    ensures |r| <= limit && Utf8.Valid(r)
    ensures |suffix| >= limit ==> r == Truncate(suffix, limit)
    ensures |suffix| < limit ==> r == Truncate(text, limit - |suffix|) + suffix
    ensures |text| + |suffix| <= limit ==> r == text + suffix
  {
    TruncateFacts(suffix, limit);
    if |suffix| >= limit {
      var end := CutPoint(suffix, limit);
      return suffix[..end];
    }
    var maxText := limit - |suffix|;
    TruncateFacts(text, maxText);
    r := text;
    if |text| > maxText {
      var end := CutPoint(text, maxText);
      r := r[..end];
    }
    ValidConcat(r, suffix);
    r := r + suffix;
  }

  method CutPoint(t: seq<byte>, room: nat) returns (end: nat)
    ensures end == Floor(t, room)
  {
    end := if |t| <= room then |t| else room;
    while !IsBoundary(t, end)
      invariant end <= room && end <= |t|
      invariant forall i :: end < i <= room && i <= |t| ==> !IsBoundary(t, i)
      decreases end
    {
      end := end - 1;
    }
    FloorUnique(t, room, end);
  }
}
