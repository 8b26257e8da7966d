/** Finding the entries a rewritten configuration lost, and putting them back. */
module SettingsMerge {
  import opened Basics
  import opened YamlValues

  datatype Segment = Key(key: string) | Index(index: nat)

  /** An entry of the previous value that the current one lacks: where, and what. */
  datatype Miss = Miss(path: seq<Segment>, key: string, value: Value)

  // ---------------------------------------------------------------------------------------
  // Inserting

  /** `insert_config_entry`: walks down the path and inserts at its end; nothing when the path
      leads nowhere or does not end in a mapping. */
  function InsertAt(v: Value, path: seq<Segment>, key: string, value: Value): Option<Value>
    decreases path
  {
    if path == [] then
      if v.Mapping? then Some(Mapping(Insert(v.entries, key, value))) else None
    else if path[0].Key? then
      if !v.Mapping? || Find(v.entries, path[0].key).None? then None
      else
        var i := Find(v.entries, path[0].key).value;
        var child := InsertAt(v.entries[i].value, path[1..], key, value);
        if child.None? then None else Some(Mapping(v.entries[i := Entry(path[0].key, child.value)]))
    else
      if !v.Sequence? || path[0].index >= |v.items| then None
      else
        var i := path[0].index;
        var child := InsertAt(v.items[i], path[1..], key, value);
        if child.None? then None else Some(Sequence(v.items[i := child.value]))
  }

  function InsertAll(v: Value, misses: seq<Miss>): Option<Value> {
    if misses == [] then Some(v)
    else
      var m := misses[|misses| - 1];
      var before := InsertAll(v, misses[..|misses| - 1]);
      if before.None? then None else InsertAt(before.value, m.path, m.key, m.value)
  }

  lemma {:induction false} InsertAllJoin(v: Value, a: seq<Miss>, b: seq<Miss>)
    requires InsertAll(v, a).Some?
    ensures InsertAll(v, a + b) == InsertAll(InsertAll(v, a).value, b)
  {
    if b == [] {
      assert a + b == a;
    } else {
      assert (a + b)[..|a + b| - 1] == a + b[..|b| - 1];
      InsertAllJoin(v, a, b[..|b| - 1]);
    }
  }

  /** Misses seen from one level up. */
  function Under(s: Segment, misses: seq<Miss>): (r: seq<Miss>)
    ensures |r| == |misses|
    ensures forall k :: 0 <= k < |misses| ==> r[k] == Miss([s] + misses[k].path, misses[k].key, misses[k].value)
  {
    seq(|misses|, k requires 0 <= k < |misses| => Miss([s] + misses[k].path, misses[k].key, misses[k].value))
  }

  lemma UnderSnoc(s: Segment, misses: seq<Miss>)
    requires misses != []
    ensures var front, m := misses[..|misses| - 1], misses[|misses| - 1];
            Under(s, misses) == Under(s, front) + [Miss([s] + m.path, m.key, m.value)]
  {
  }

  lemma InsertAllSnoc(v: Value, front: seq<Miss>, m: Miss)
    requires InsertAll(v, front).Some?
    ensures InsertAll(v, front + [m]) == InsertAt(InsertAll(v, front).value, m.path, m.key, m.value)
  {
    assert (front + [m])[..|front|] == front;
  }

  lemma UpdateTwice<T>(s: seq<T>, i: nat, a: T, b: T)
    requires i < |s|
    ensures s[i := a][i := b] == s[i := b]
  {
  }

  lemma InsertBelowKey(entries: seq<Entry>, i: nat, path: seq<Segment>, key: string, value: Value)
    requires Unique(entries) && i < |entries|
    ensures var k, child := entries[i].key, InsertAt(entries[i].value, path, key, value);
            InsertAt(Mapping(entries), [Key(k)] + path, key, value) ==
            if child.None? then None else Some(Mapping(entries[i := Entry(k, child.value)]))
  {
    FindAt(entries, i);
    assert ([Key(entries[i].key)] + path)[1..] == path;
  }

  lemma InsertBelowIndex(items: seq<Value>, i: nat, path: seq<Segment>, key: string, value: Value)
    requires i < |items|
    ensures var child := InsertAt(items[i], path, key, value);
            InsertAt(Sequence(items), [Index(i)] + path, key, value) ==
            if child.None? then None else Some(Sequence(items[i := child.value]))
  {
    assert ([Index(i)] + path)[1..] == path;
  }

  /** Inserting below a key is inserting into that key's value. */
  lemma {:induction false} InsertAllUnderKey(entries: seq<Entry>, i: nat, misses: seq<Miss>)
    requires Unique(entries) && i < |entries| && InsertAll(entries[i].value, misses).Some?
    ensures InsertAll(Mapping(entries), Under(Key(entries[i].key), misses))
         == Some(Mapping(entries[i := Entry(entries[i].key, InsertAll(entries[i].value, misses).value)]))
  {
    var k := entries[i].key;
    if misses == [] {
      assert entries[i := Entry(k, entries[i].value)] == entries;
    } else {
      hide InsertAt;
      var front, m := misses[..|misses| - 1], misses[|misses| - 1];
      InsertAllUnderKey(entries, i, front);
      var child := InsertAll(entries[i].value, front).value;
      var some := entries[i := Entry(k, child)];
      UnderSnoc(Key(k), misses);
      InsertAllSnoc(Mapping(entries), Under(Key(k), front), Miss([Key(k)] + m.path, m.key, m.value));
      InsertBelowKey(some, i, m.path, m.key, m.value);
      UpdateTwice(entries, i, Entry(k, child), Entry(k, InsertAll(entries[i].value, misses).value));
    }
  }

  lemma {:induction false} InsertAllUnderIndex(items: seq<Value>, i: nat, misses: seq<Miss>)
    requires i < |items| && InsertAll(items[i], misses).Some?
    ensures InsertAll(Sequence(items), Under(Index(i), misses))
         == Some(Sequence(items[i := InsertAll(items[i], misses).value]))
  {
    if misses == [] {
      assert items[i := items[i]] == items;
    } else {
      hide InsertAt;
      var front, m := misses[..|misses| - 1], misses[|misses| - 1];
      InsertAllUnderIndex(items, i, front);
      var child := InsertAll(items[i], front).value;
      var some := items[i := child];
      UnderSnoc(Index(i), misses);
      InsertAllSnoc(Sequence(items), Under(Index(i), front), Miss([Index(i)] + m.path, m.key, m.value));
      InsertBelowIndex(some, i, m.path, m.key, m.value);
      UpdateTwice(items, i, child, InsertAll(items[i], misses).value);
    }
  }

  // ---------------------------------------------------------------------------------------
  // Collecting

  function Size(v: Value): nat {
    match v case Scalar(_) => 0 case Sequence(items) => |items| case Mapping(entries) => |entries|
  }

  /** The misses of `c` against `p`, in the order of `p`. */
  function Missing(c: Value, p: Value): seq<Miss>
    decreases p, Size(p) + 1
  {
    if c.Mapping? && p.Mapping? then MissingKeys(c.entries, p, |p.entries|)
    else if c.Sequence? && p.Sequence? then MissingItems(c.items, p, Min(|p.items|, |c.items|))
    else []
  }

  function MissingKeys(c: seq<Entry>, p: Value, n: nat): seq<Miss>
    requires p.Mapping? && n <= |p.entries|
    decreases p, n
  {
    if n == 0 then []
    else
      var e := p.entries[n - 1];
      var i := Find(c, e.key);
      MissingKeys(c, p, n - 1) +
      if i.Some? then Under(Key(e.key), Missing(c[i.value].value, e.value)) else [Miss([], e.key, e.value)]
  }

  function MissingItems(c: seq<Value>, p: Value, n: nat): seq<Miss>
    requires p.Sequence? && n <= |p.items| && n <= |c|
    decreases p, n
  {
    if n == 0 then [] else MissingItems(c, p, n - 1) + Under(Index(n - 1), Missing(c[n - 1], p.items[n - 1]))
  }

  /** Misses under a path already walked. */
  function Below(path: seq<Segment>, misses: seq<Miss>): (r: seq<Miss>)
    ensures |r| == |misses|
    ensures forall k :: 0 <= k < |misses| ==> r[k] == Miss(path + misses[k].path, misses[k].key, misses[k].value)
  {
    seq(|misses|, k requires 0 <= k < |misses| => Miss(path + misses[k].path, misses[k].key, misses[k].value))
  }

  lemma BelowUnder(path: seq<Segment>, s: Segment, misses: seq<Miss>)
    ensures Below(path + [s], misses) == Below(path, Under(s, misses))
  {
    forall k | 0 <= k < |misses| ensures path + [s] + misses[k].path == path + ([s] + misses[k].path) {}
  }

  lemma BelowJoin(path: seq<Segment>, a: seq<Miss>, b: seq<Miss>)
    ensures Below(path, a + b) == Below(path, a) + Below(path, b)
  {
  }

  lemma BelowOne(path: seq<Segment>, key: string, value: Value)
    ensures Below(path, [Miss([], key, value)]) == [Miss(path, key, value)]
  {
    assert path + [] == path;
  }

  lemma KeyStep(c: seq<Entry>, p: Value, n: nat, path: seq<Segment>)
    requires p.Mapping? && n < |p.entries|
    ensures var e, i := p.entries[n], Find(c, p.entries[n].key);
            Below(path, MissingKeys(c, p, n + 1)) ==
            Below(path, MissingKeys(c, p, n)) +
            if i.Some? then Below(path + [Key(e.key)], Missing(c[i.value].value, e.value))
            else [Miss(path, e.key, e.value)]
  {
    hide Below, Under;
    var e, i := p.entries[n], Find(c, p.entries[n].key);
    if i.Some? {
      var misses := Missing(c[i.value].value, e.value);
      BelowUnder(path, Key(e.key), misses);
      BelowJoin(path, MissingKeys(c, p, n), Under(Key(e.key), misses));
    } else {
      BelowOne(path, e.key, e.value);
      BelowJoin(path, MissingKeys(c, p, n), [Miss([], e.key, e.value)]);
    }
  }

  lemma IndexStep(c: seq<Value>, p: Value, n: nat, path: seq<Segment>)
    requires p.Sequence? && n < |p.items| && n < |c|
    ensures Below(path, MissingItems(c, p, n + 1)) ==
            Below(path, MissingItems(c, p, n)) + Below(path + [Index(n)], Missing(c[n], p.items[n]))
  {
    hide Below, Under;
    BelowUnder(path, Index(n), Missing(c[n], p.items[n]));
    BelowJoin(path, MissingItems(c, p, n), Under(Index(n), Missing(c[n], p.items[n])));
  }

  /** `collect_missing_entries` */
  method CollectMissing(current: Value, previous: Value, path: seq<Segment>, missing: seq<Miss>)
      returns (more: seq<Miss>)
    ensures more == missing + Below(path, Missing(current, previous))
    decreases previous
  {
    hide Below, MissingKeys, MissingItems;
    more := missing;
    NothingMissing(current, previous, path);
    if current.Mapping? && previous.Mapping? {
      var n := 0;
      while n < |previous.entries|
        invariant 0 <= n <= |previous.entries|
        invariant more == missing + Below(path, MissingKeys(current.entries, previous, n))
      {
        var e := previous.entries[n];
        var i := Find(current.entries, e.key);
        KeyStep(current.entries, previous, n, path);
        if i.Some? {
          more := CollectMissing(current.entries[i.value].value, e.value, path + [Key(e.key)], more);
        } else {
          more := more + [Miss(path, e.key, e.value)];
        }
        n := n + 1;
      }
    } else if current.Sequence? && previous.Sequence? {
      var n := 0;
      while n < Min(|previous.items|, |current.items|)
        invariant 0 <= n <= Min(|previous.items|, |current.items|)
        invariant more == missing + Below(path, MissingItems(current.items, previous, n))
      {
        IndexStep(current.items, previous, n, path);
        more := CollectMissing(current.items[n], previous.items[n], path + [Index(n)], more);
        n := n + 1;
      }
    }
  }

  lemma NothingMissing(c: Value, p: Value, path: seq<Segment>)
    ensures Below(path, []) == []
    ensures c.Mapping? && p.Mapping? ==> MissingKeys(c.entries, p, 0) == []
    ensures c.Sequence? && p.Sequence? ==> MissingItems(c.items, p, 0) == []
  {
  }

  // ---------------------------------------------------------------------------------------
  // The batch

  /** The recursive merge: what both have is merged, what only one has is kept. */
  function Merge(c: Value, p: Value): Value
    decreases p, Size(p) + 1
  {
    if c.Mapping? && p.Mapping? then Mapping(MergeKeys(c.entries, p, |p.entries|))
    else if c.Sequence? && p.Sequence? then Sequence(MergeItems(c.items, p, Min(|p.items|, |c.items|)))
    else c
  }

  /** `c` once the first `n` entries of `p` have been seen to. */
  function MergeKeys(c: seq<Entry>, p: Value, n: nat): seq<Entry>
    requires p.Mapping? && n <= |p.entries|
    decreases p, n
  {
    if n == 0 then c
    else
      var e, i := p.entries[n - 1], Find(c, p.entries[n - 1].key);
      Insert(MergeKeys(c, p, n - 1), e.key, if i.Some? then Merge(c[i.value].value, e.value) else e.value)
  }

  function MergeItems(c: seq<Value>, p: Value, n: nat): (r: seq<Value>)
    requires p.Sequence? && n <= |p.items| && n <= |c|
    ensures |r| == |c| && forall k :: n <= k < |c| ==> r[k] == c[k]
    decreases p, n
  {
    if n == 0 then c else MergeItems(c, p, n - 1)[n - 1 := Merge(c[n - 1], p.items[n - 1])]
  }

  /** Before its turn, a key of `p` is in the merge exactly as it is in `c`. */
  lemma {:induction false} MergeKeysPending(c: seq<Entry>, p: Value, n: nat, key: string)
    requires p.Mapping? && n <= |p.entries| && Unique(c)
    requires forall j :: 0 <= j < n ==> p.entries[j].key != key
    ensures var es := MergeKeys(c, p, n);
            && Unique(es) && (Find(es, key).Some? <==> Find(c, key).Some?)
            && (Find(es, key).Some? ==> es[Find(es, key).value].value == c[Find(c, key).value].value)
  {
    hide Merge, Find, Insert;
    if n > 0 {
      MergeKeysPending(c, p, n - 1, key);
      var e, i := p.entries[n - 1], Find(c, p.entries[n - 1].key);
      InsertFinds(MergeKeys(c, p, n - 1), e.key, if i.Some? then Merge(c[i.value].value, e.value) else e.value, key);
    }
  }

  /** Every collected entry can be inserted, and all of them together make the merge. */
  lemma {:induction false} BatchIsMerge(c: Value, p: Value)
    requires WellFormed(c) && WellFormed(p)
    ensures InsertAll(c, Missing(c, p)) == Some(Merge(c, p))
    decreases p, Size(p) + 1
  {
    if c.Mapping? && p.Mapping? {
      BatchKeys(c.entries, p, |p.entries|);
    } else if c.Sequence? && p.Sequence? {
      BatchItems(c.items, p, Min(|p.items|, |c.items|));
    }
  }

  lemma {:induction false} BatchKeys(c: seq<Entry>, p: Value, n: nat)
    requires WellFormed(Mapping(c)) && p.Mapping? && WellFormed(p) && n <= |p.entries|
    ensures InsertAll(Mapping(c), MissingKeys(c, p, n)) == Some(Mapping(MergeKeys(c, p, n)))
    decreases p, n
  {
    hide InsertAll, Missing, Merge, MissingKeys, MergeKeys;
    if n == 0 {
      NoMisses(c, p);
    } else {
      BatchKeys(c, p, n - 1);
      var e, i := p.entries[n - 1], Find(c, p.entries[n - 1].key);
      if i.Some? {
        BatchIsMerge(c[i.value].value, e.value);
        BatchOldKey(c, p, n, i.value);
      } else {
        BatchNewKey(c, p, n);
      }
    }
  }

  lemma BatchOldKey(c: seq<Entry>, p: Value, n: nat, i: nat)
    requires Unique(c) && p.Mapping? && Unique(p.entries) && 0 < n <= |p.entries|
    requires InsertAll(Mapping(c), MissingKeys(c, p, n - 1)) == Some(Mapping(MergeKeys(c, p, n - 1)))
    requires i < |c| && Find(c, p.entries[n - 1].key) == Some(i)
    requires InsertAll(c[i].value, Missing(c[i].value, p.entries[n - 1].value))
          == Some(Merge(c[i].value, p.entries[n - 1].value))
    ensures InsertAll(Mapping(c), MissingKeys(c, p, n)) == Some(Mapping(MergeKeys(c, p, n)))
  {
    hide InsertAll, Missing, Merge, Under, Insert;
    var e, es := p.entries[n - 1], MergeKeys(c, p, n - 1);
    var misses, merged := Missing(c[i].value, e.value), Merge(c[i].value, e.value);
    MergeKeysPending(c, p, n - 1, e.key);
    InsertAllUnderKey(es, Find(es, e.key).value, misses);
    InsertAllJoin(Mapping(c), MissingKeys(c, p, n - 1), Under(Key(e.key), misses));
    InsertOver(es, e.key, merged);
    assert MissingKeys(c, p, n) == MissingKeys(c, p, n - 1) + Under(Key(e.key), misses);
    assert MergeKeys(c, p, n) == Insert(es, e.key, merged);
  }

  lemma BatchNewKey(c: seq<Entry>, p: Value, n: nat)
    requires p.Mapping? && 0 < n <= |p.entries| && Find(c, p.entries[n - 1].key).None?
    requires InsertAll(Mapping(c), MissingKeys(c, p, n - 1)) == Some(Mapping(MergeKeys(c, p, n - 1)))
    ensures InsertAll(Mapping(c), MissingKeys(c, p, n)) == Some(Mapping(MergeKeys(c, p, n)))
  {
    hide InsertAll, Missing, Merge, Insert;
    var e, es := p.entries[n - 1], MergeKeys(c, p, n - 1);
    InsertAllSnoc(Mapping(c), MissingKeys(c, p, n - 1), Miss([], e.key, e.value));
    InsertHere(es, e.key, e.value);
    assert MissingKeys(c, p, n) == MissingKeys(c, p, n - 1) + [Miss([], e.key, e.value)];
    assert MergeKeys(c, p, n) == Insert(es, e.key, e.value);
  }

  lemma NoMisses(c: seq<Entry>, p: Value)
    requires p.Mapping?
    ensures InsertAll(Mapping(c), MissingKeys(c, p, 0)) == Some(Mapping(MergeKeys(c, p, 0)))
  {
  }

  lemma InsertHere(es: seq<Entry>, key: string, value: Value)
    ensures InsertAt(Mapping(es), [], key, value) == Some(Mapping(Insert(es, key, value)))
  {
  }

  lemma InsertOver(es: seq<Entry>, key: string, value: Value)
    requires Find(es, key).Some?
    ensures Insert(es, key, value) == es[Find(es, key).value := Entry(key, value)]
  {
  }

  lemma {:induction false} BatchItems(c: seq<Value>, p: Value, n: nat)
    requires WellFormed(Sequence(c)) && p.Sequence? && WellFormed(p) && n <= |p.items| && n <= |c|
    ensures InsertAll(Sequence(c), MissingItems(c, p, n)) == Some(Sequence(MergeItems(c, p, n)))
    decreases p, n
  {
    if n > 0 {
      BatchItems(c, p, n - 1);
      var some, misses := MergeItems(c, p, n - 1), Missing(c[n - 1], p.items[n - 1]);
      BatchIsMerge(c[n - 1], p.items[n - 1]);
      InsertAllUnderIndex(some, n - 1, misses);
      InsertAllJoin(Sequence(c), MissingItems(c, p, n - 1), Under(Index(n - 1), misses));
    }
  }

  // ---------------------------------------------------------------------------------------
  // What the merge means

  /** The merge without any order: keys of both, and what both have is merged. */
  function MergeMeaning(a: Meaning, b: Meaning): Meaning
    decreases b
  {
    if a.Table? && b.Table? then
      Table(map k | k in a.entries.Keys + b.entries.Keys ::
        if k !in b.entries then a.entries[k]
        else if k !in a.entries then b.entries[k]
        else MergeMeaning(a.entries[k], b.entries[k]))
    else if a.List? && b.List? then
      List(seq(|a.items|, i requires 0 <= i < |a.items| =>
        if i < |b.items| then MergeMeaning(a.items[i], b.items[i]) else a.items[i]))
    else a
  }

  function MergedKeys(t: map<string, Meaning>, p: seq<Entry>, n: nat): map<string, Meaning>
    requires n <= |p| && forall i :: 0 <= i < |p| ==> WellFormed(p[i].value)
  {
    if n == 0 then t
    else
      var e := p[n - 1];
      var m := MeaningOf(e.value);
      MergedKeys(t, p, n - 1)[e.key := if e.key in t then MergeMeaning(t[e.key], m) else m]
  }

  lemma {:induction false} MergedAt(t: map<string, Meaning>, p: seq<Entry>, n: nat, j: nat)
    requires j < n <= |p| && Unique(p) && forall i :: 0 <= i < |p| ==> WellFormed(p[i].value)
    ensures var k, m, r := p[j].key, MeaningOf(p[j].value), MergedKeys(t, p, n);
            k in r && r[k] == if k in t then MergeMeaning(t[k], m) else m
  {
    hide MergeMeaning, MeaningOf;
    if j < n - 1 { MergedAt(t, p, n - 1, j); }
  }

  lemma {:induction false} MergedOff(t: map<string, Meaning>, p: seq<Entry>, n: nat, k: string)
    requires n <= |p| && forall i :: 0 <= i < |p| ==> WellFormed(p[i].value)
    requires forall i :: 0 <= i < n ==> p[i].key != k
    ensures var r := MergedKeys(t, p, n); (k in r <==> k in t) && (k in r ==> r[k] == t[k])
  {
    hide MergeMeaning, MeaningOf;
    if n > 0 { MergedOff(t, p, n - 1, k); }
  }

  lemma MergedAll(c: Meaning, p: seq<Entry>)
    requires c.Table? && WellFormed(Mapping(p))
    ensures Table(MergedKeys(c.entries, p, |p|)) == MergeMeaning(c, MeaningOf(Mapping(p)))
  {
    hide MergedKeys, MeaningOf;
    var r, b := MergedKeys(c.entries, p, |p|), MeaningOf(Mapping(p));
    var m := MergeMeaning(c, b);
    MappingIsTable(p);
    forall k
      ensures k in r <==> k in m.entries
      ensures k in r && k in m.entries ==> r[k] == m.entries[k]
    {
      MappingMeans(p, k);
      if Find(p, k).Some? {
        MergedAt(c.entries, p, |p|, Find(p, k).value);
      } else {
        MergedOff(c.entries, p, |p|, k);
      }
    }
    assert r == m.entries;
  }

  lemma MappingIsTable(p: seq<Entry>)
    requires WellFormed(Mapping(p))
    ensures MeaningOf(Mapping(p)).Table?
  {
  }

  lemma {:induction false} MergeMeans(c: Value, p: Value)
    requires WellFormed(c) && WellFormed(p)
    ensures WellFormed(Merge(c, p)) && MeaningOf(Merge(c, p)) == MergeMeaning(MeaningOf(c), MeaningOf(p))
    decreases p, Size(p) + 1
  {
    if c.Mapping? && p.Mapping? {
      MergeKeysMean(c.entries, p, |p.entries|);
      MergedAll(MeaningOf(c), p.entries);
    } else if c.Sequence? && p.Sequence? {
      MergeItemsMean(c.items, p, Min(|p.items|, |c.items|));
    }
  }

  lemma {:induction false} MergeKeysMean(c: seq<Entry>, p: Value, n: nat)
    requires WellFormed(Mapping(c)) && p.Mapping? && WellFormed(p) && n <= |p.entries|
    ensures WellFormed(Mapping(MergeKeys(c, p, n)))
    ensures MeaningOf(Mapping(MergeKeys(c, p, n))).entries
         == MergedKeys(MeaningOf(Mapping(c)).entries, p.entries, n)
    decreases p, n
  {
    hide MeaningOf, MergeMeaning, Merge, Insert;
    if n > 0 {
      MergeKeysMean(c, p, n - 1);
      var e, i := p.entries[n - 1], Find(c, p.entries[n - 1].key);
      MappingMeans(c, e.key);
      if i.Some? { MergeMeans(c[i.value].value, e.value); }
      InsertMeans(MergeKeys(c, p, n - 1), e.key, if i.Some? then Merge(c[i.value].value, e.value) else e.value);
    }
  }

  lemma {:induction false} MergeItemsMean(c: seq<Value>, p: Value, n: nat)
    requires WellFormed(Sequence(c)) && p.Sequence? && WellFormed(p) && n <= |p.items| && n <= |c|
    ensures WellFormed(Sequence(MergeItems(c, p, n)))
    ensures forall i :: 0 <= i < n ==>
              MeaningOf(MergeItems(c, p, n)[i]) == MergeMeaning(MeaningOf(c[i]), MeaningOf(p.items[i]))
    decreases p, n
  {
    hide MeaningOf, MergeMeaning, Merge;
    if n > 0 {
      MergeItemsMean(c, p, n - 1);
      MergeMeans(c[n - 1], p.items[n - 1]);
    }
  }
}
