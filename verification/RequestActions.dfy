/** The application's glue between the store and the request tree: a tree cached by the store's
    revision, and deletion of whatever a tree path stands for. */
module RequestActions {
  import opened HeaderCapture
  import opened RecordTables
  import opened Records
  import opened CaptureStore
  import opened RequestNames
  import opened TreeFold
  import opened RequestTree
  import TreeIndex

  class App {
    const store: Store
    const hasher: TreeIndex.Hasher
    /** Origin and path segments of a request's URL; URL parsing is not modelled. */
    const locate: Request -> (string, seq<string>)
    var tree: RequestTreeModel
    var treeRevision: nat

    function EntryOf(c: CaptureRecord): Entry {
      Entry(locate(c.request).0, locate(c.request).1, c.sequence)
    }

    /** The requests in the store, oldest first. A record's request never changes. */
    function EntriesOf(cs: seq<CaptureRecord>): (r: seq<Entry>)
      ensures |r| == |cs| && forall i :: 0 <= i < |cs| ==> r[i] == EntryOf(cs[i])
    {
      seq(|cs|, i requires 0 <= i < |cs| => EntryOf(cs[i]))
    }

    /** The cached tree may be stale, but it is never stale under the store's own revision. */
    ghost predicate Valid()
      reads this, store, store.universe, store.feed, store.captures, tree
    {
      && store.Valid() && tree.Valid() && tree.hasher == hasher && treeRevision <= store.revision
      && (treeRevision == store.revision ==> tree.entries == EntriesOf(store.captures))
    }

    constructor (store: Store, hasher: TreeIndex.Hasher, locate: Request -> (string, seq<string>))
      requires store.Valid() && store.captures == [] && store.revision == 0
      ensures Valid() && this.store == store && fresh(tree)
    {
      hide RequestTreeModel.Valid, Store.Valid, Grow;
      this.store, this.hasher, this.locate, treeRevision := store, hasher, locate, 0;
      tree := new RequestTreeModel.FromRequests(hasher, []);
      new;
      assert EntriesOf([]) == [];
    }

    /** The cached tree is the tree of the store's requests, node for node, and indexed. */
    ghost predicate Current()
      reads this, store, store.captures, tree
    {
      && treeRevision == store.revision && tree.hasher == hasher && tree.Valid()
      && tree.entries == EntriesOf(store.captures)
      && tree.roots == Grow(EntriesOf(store.captures)).roots && tree.nodes == Grow(EntriesOf(store.captures)).nodes
    }

    /** `ensure_request_tree_model`: afterwards the tree is the one built from the store now. */
    method EnsureTree()
      requires Valid()
      modifies this
      ensures Valid() && Current()
      ensures tree == old(tree) || fresh(tree)
    {
      hide RequestTreeModel.Valid, Store.Linked, DistinctSequences, Grow;
      tree.IsGrown();
      if store.revision == treeRevision { return; }
      store.Known(store.captures);
      EntriesDistinct(store.captures);
      tree := new RequestTreeModel.FromRequests(hasher, EntriesOf(store.captures));
      treeRevision := store.revision;
    }

    lemma EntriesDistinct(cs: seq<CaptureRecord>)
      requires Sorted(cs)
      ensures DistinctSequences(EntriesOf(cs))
    {
    }

    /** `add_capture`: the record is in the store, in place of any of its sequence, but for the
        oldest that retention drops. */
    method AddCapture(record: CaptureRecord) returns (evicted: bool, ghost cut: nat)
      requires Valid() && record.feed == store.feed && (record in store.universe || !record.feedBound)
      modifies store, store.feed, record`captureDisabled, record`feedBound,
               store.captures`captureDisabled, store.captures`feedBound
      ensures Valid() && store.revision > old(store.revision)
      ensures forall d ::
                d in store.captures <==>
                d.sequence >= cut && (d == record || (d in old(store.captures) && d.sequence != record.sequence))
      ensures !evicted ==> cut == 0
      ensures store.Within(|store.captures|, store.retainedBytes)
    {
      hide RequestTreeModel.Valid, Store.Linked, Total, Sizes, Stamps, Removing, Bytes;
      ghost var all, displaced, k;
      evicted, all, displaced, k := store.Insert(record);
      cut := CutAt(all, k);
    }

    /** Dropping the oldest leaves exactly those from some sequence on. */
    lemma CutAt(all: seq<CaptureRecord>, k: nat) returns (cut: nat)
      requires Sorted(all) && k <= |all|
      ensures forall d :: d in all[k..] <==> d in all && d.sequence >= cut
      ensures k == 0 ==> cut == 0
    {
      cut := if k == 0 then 0 else all[k - 1].sequence + 1;
      forall d ensures d in all[k..] <==> d in all && d.sequence >= cut {
        if d in all && d.sequence >= cut {
          var i :| 0 <= i < |all| && all[i] == d;
          assert i >= k;
          assert all[k..][i - k] == d;
        }
      }
    }

    /** `delete_selected_requests`: removes exactly the requests whose own path extends the
        selected one, and leaves the tree of what remains. */
    method DeleteSelected(selected: seq<string>) returns (removed: nat, ghost gone: seq<CaptureRecord>)
      requires Valid()
      modifies this, store, store.feed, store.captures`captureDisabled, store.captures`feedBound
      ensures Valid()
      ensures forall d :: d in store.captures <==>
                d in old(store.captures) && !(selected != [] && selected <= RequestPath(EntryOf(d)))
      ensures forall d :: d in gone <==>
                d in old(store.captures) && selected != [] && selected <= RequestPath(EntryOf(d))
      ensures Sorted(gone) && removed == |gone|
      ensures removed > 0 ==> Current()
    {
      hide RequestTreeModel.Valid, Store.Linked, Total, Sizes, Stamps, Removing, Extending, Grow;
      if selected == [] { return 0, []; }
      EnsureTree();
      var sequences := tree.SequencesUnder(selected);
      ghost var cs := store.captures;
      store.Known(cs);
      removed, gone := store.RemoveSequences(sequences);
      Selected(cs, selected, sequences, tree.entries);
      if removed > 0 {
        EnsureTree();
      }
    }

    lemma Selected(cs: seq<CaptureRecord>, selected: seq<string>, sequences: seq<nat>, entries: seq<Entry>)
      requires Sorted(cs) && entries == EntriesOf(cs)
      requires forall q :: q in sequences <==> Extending(entries, selected, q)
      ensures forall d :: d in cs ==> (d.sequence in sequences <==> selected <= RequestPath(EntryOf(d)))
    {
      forall d | d in cs ensures d.sequence in sequences <==> selected <= RequestPath(EntryOf(d)) {
        var i :| 0 <= i < |cs| && cs[i] == d;
        assert entries[i] == EntryOf(d);
        if k :| 0 <= k < |entries| && entries[k].sequence == d.sequence {
          assert cs[k].sequence == cs[i].sequence;
        }
      }
    }

    /** `clear_requests` */
    method ClearRequests() returns (removed: nat)
      requires Valid()
      modifies store, store.feed, store.captures`captureDisabled, store.captures`feedBound
      ensures Valid() && store.captures == []
    {
      hide RequestTreeModel.Valid, Store.Linked, Total;
      removed := store.Clear();
    }

    /** `evict_oldest_capture` */
    method EvictOldestCapture() returns (evicted: bool)
      requires Valid()
      modifies store, store.feed, store.captures`captureDisabled, store.captures`feedBound
      ensures Valid() && evicted == (old(store.captures) != [])
    {
      hide RequestTreeModel.Valid, Store.Linked, Total;
      var r := store.EvictOldest();
      evicted := r.Some?;
    }
  }
}
