/** What a log of changes says about the records it speaks of. */
module FeedLog {
  import opened Basics
  import opened ChangeFeed

  type Table = map<nat, nat>

  /** One change applied to a sequence-to-revision table. A change that does not fit (an update
      that skips a revision, a removal of something absent, a second admission) breaks the fold. */
  function Apply(t: Option<Table>, c: Change): Option<Table> {
    if t.None? then None
    else match c.kind
      case Admitted => if c.sequence in t.value then None else Some(t.value[c.sequence := c.revision])
      case RecordUpdated =>
        if c.sequence in t.value && c.revision == t.value[c.sequence] + 1
        then Some(t.value[c.sequence := c.revision]) else None
      case _ =>
        if c.sequence in t.value && c.revision == t.value[c.sequence]
        then Some(t.value - {c.sequence}) else None
  }

  function Replay(log: seq<Change>): Option<Table> {
    if log == [] then Some(map[]) else Apply(Replay(log[..|log| - 1]), log[|log| - 1])
  }

  lemma ReplaySnoc(log: seq<Change>, c: Change)
    ensures Replay(log + [c]) == Apply(Replay(log), c)
  {
    assert (log + [c])[..|log|] == log;
  }

  lemma {:induction false} ReplayPrefix(log: seq<Change>, k: nat)
    requires Replay(log).Some? && k <= |log|
    ensures Replay(log[..k]).Some?
  {
    if k < |log| {
      ReplayPrefix(log[..|log| - 1], k);
      assert log[..|log| - 1][..k] == log[..k];
    } else {
      assert log[..k] == log;
    }
  }

  /** Position of the last change about `sequence`, or none. */
  function LastOf(log: seq<Change>, sequence: nat): (r: Option<nat>)
    ensures r.Some? ==> r.value < |log| && log[r.value].sequence == sequence
    ensures r.Some? ==> forall j :: r.value < j < |log| ==> log[j].sequence != sequence
    ensures r.None? ==> forall j :: 0 <= j < |log| ==> log[j].sequence != sequence
  {
    if log == [] then None
    else if log[|log| - 1].sequence == sequence then Some(|log| - 1)
    else
      var r := LastOf(log[..|log| - 1], sequence);
      assert forall j :: 0 <= j < |log| - 1 ==> log[j] == log[..|log| - 1][j];
      r
  }

  /** The table remembers the last change about a record, unless it removed it. */
  lemma {:induction false} TableIsLast(log: seq<Change>, sequence: nat)
    requires Replay(log).Some?
    ensures var last := LastOf(log, sequence);
            if last.Some? && !log[last.value].kind.Removal()
            then sequence in Replay(log).value && Replay(log).value[sequence] == log[last.value].revision
            else sequence !in Replay(log).value
  {
    if log != [] {
      var front := log[..|log| - 1];
      assert Replay(front).Some?;
      TableIsLast(front, sequence);
      assert forall j :: 0 <= j < |front| ==> log[j] == front[j];
    }
  }

  /** The shape of every record's own log: admitted first, then updates whose revisions rise by
      exactly one, then one removal with the revision last seen, and nothing until readmitted. */
  lemma LogShape(log: seq<Change>, k: nat)
    requires Replay(log).Some? && k < |log|
    ensures var c := log[k];
            var before := LastOf(log[..k], c.sequence);
            var live := before.Some? && !log[before.value].kind.Removal();
            && (c.kind.Admitted? <==> !live)
            && (c.kind.RecordUpdated? ==> c.revision == log[before.value].revision + 1)
            && (c.kind.Removal() ==> c.revision == log[before.value].revision)
  {
    ReplayPrefix(log, k);
    ReplayPrefix(log, k + 1);
    TableIsLast(log[..k], log[k].sequence);
    assert log[..k + 1] == log[..k] + [log[k]];
    ReplaySnoc(log[..k], log[k]);
  }
}
