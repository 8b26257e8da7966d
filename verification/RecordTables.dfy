/** Sequence-to-revision tables, the lists they come from, and the announcements that empty them. */
module RecordTables {
  import opened ChangeFeed
  import opened FeedLog

  datatype Stamp = Stamp(sequence: nat, revision: nat)

  predicate Rising(s: seq<Stamp>) { forall i, j :: 0 <= i < j < |s| ==> s[i].sequence < s[j].sequence }

  function TableFrom(s: seq<Stamp>): Table
    requires Rising(s)
  {
    map i | 0 <= i < |s| :: s[i].sequence := s[i].revision
  }

  function Without<T>(s: seq<T>, k: nat): seq<T>
    requires k < |s|
  {
    s[..k] + s[k + 1..]
  }

  function With<T>(s: seq<T>, k: nat, x: T): seq<T>
    requires k <= |s|
  {
    s[..k] + [x] + s[k..]
  }

  lemma TableAt(s: seq<Stamp>, i: nat)
    requires Rising(s) && i < |s|
    ensures s[i].sequence in TableFrom(s) && TableFrom(s)[s[i].sequence] == s[i].revision
  {
  }

  lemma TableKey(s: seq<Stamp>, q: nat) returns (i: nat)
    requires Rising(s) && q in TableFrom(s)
    ensures i < |s| && s[i].sequence == q
  {
    i :| 0 <= i < |s| && s[i].sequence == q;
  }

  lemma RisingWithout(s: seq<Stamp>, k: nat)
    requires Rising(s) && k < |s|
    ensures Rising(Without(s, k))
  {
  }

  lemma TableWithout(s: seq<Stamp>, k: nat)
    requires Rising(s) && k < |s|
    ensures Rising(Without(s, k)) && TableFrom(Without(s, k)) == TableFrom(s) - {s[k].sequence}
  {
    hide TableFrom;
    RisingWithout(s, k);
    var w := Without(s, k);
    var t, u := TableFrom(s) - {s[k].sequence}, TableFrom(w);
    forall q | q in t ensures q in u {
      var i := TableKey(s, q);
      TableAt(w, if i < k then i else i - 1);
    }
    forall q | q in u ensures q in t && t[q] == u[q] {
      var i := TableKey(w, q);
      TableAt(w, i);
      TableAt(s, if i < k then i else i + 1);
    }
  }

  lemma RisingUpdate(s: seq<Stamp>, k: nat, revision: nat)
    requires Rising(s) && k < |s|
    ensures Rising(s[k := Stamp(s[k].sequence, revision)])
  {
  }

  lemma TableUpdate(s: seq<Stamp>, k: nat, revision: nat)
    requires Rising(s) && k < |s|
    ensures var w := s[k := Stamp(s[k].sequence, revision)];
            && Rising(w) && TableFrom(w) == TableFrom(s)[s[k].sequence := revision]
  {
    hide TableFrom;
    var w := s[k := Stamp(s[k].sequence, revision)];
    RisingUpdate(s, k, revision);
    TableWithout(s, k);
    TableAt(s, k);
    TableWithout(w, k);
    TableAt(w, k);
    assert Without(w, k) == Without(s, k);
    var q, t, u := s[k].sequence, TableFrom(s), TableFrom(w);
    assert u == (u - {q})[q := revision] == (t - {q})[q := revision] == t[q := revision];
  }

  /** The log once `gone` have been removed from the store, one change each, in that order. */
  function Removing(log: seq<Change>, gone: seq<Stamp>, kind: Kind): seq<Change> {
    if gone == [] then log
    else
      var last := gone[|gone| - 1];
      var l := Removing(log, gone[..|gone| - 1], kind);
      l + [Change(|l| + 1, last.sequence, last.revision, kind)]
  }

  lemma NothingRemoved(log: seq<Change>, kind: Kind)
    ensures Removing(log, [], kind) == log
  {
  }

  lemma RemovingOne(log: seq<Change>, gone: seq<Stamp>, s: Stamp, kind: Kind)
    ensures var l := Removing(log, gone, kind);
            Removing(log, gone + [s], kind) == l + [Change(|l| + 1, s.sequence, s.revision, kind)]
  {
    assert (gone + [s])[..|gone|] == gone;
  }
}
