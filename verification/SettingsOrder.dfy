/** Putting the entries of a mapping into the order a previous value had them in. */
module SettingsOrder {
  import opened Basics
  import opened YamlValues

  /** The keys of `p` that are in `keys`, in the order of `p`. */
  function Shared(p: seq<Entry>, keys: set<string>): seq<string> {
    if p == [] then []
    else
      var k := p[|p| - 1].key;
      Shared(p[..|p| - 1], keys) + if k in keys then [k] else []
  }

  /** Mappings start with what they share with `p`, in the order of `p`, all the way down. */
  predicate Follows(v: Value, p: Value)
    decreases p
  {
    if v.Mapping? && p.Mapping? then
      var shared := Shared(p.entries, Keys(v.entries));
      && |shared| <= |v.entries|
      && forall i :: 0 <= i < |shared| ==>
           && v.entries[i].key == shared[i]
           && Find(p.entries, shared[i]).Some?
           && Follows(v.entries[i].value, p.entries[Find(p.entries, shared[i]).value].value)
    else if v.Sequence? && p.Sequence? then
      forall i :: 0 <= i < |v.items| && i < |p.items| ==> Follows(v.items[i], p.items[i])
    else true
  }

  function Dict(entries: seq<Entry>): map<string, Meaning>
    requires WellFormed(Mapping(entries))
  {
    MeaningOf(Mapping(entries)).entries
  }

  /** Taking an entry out moves the last one into its place. */
  function SwapRemove(entries: seq<Entry>, i: nat): seq<Entry>
    requires i < |entries|
  {
    entries[i := entries[|entries| - 1]][..|entries| - 1]
  }

  lemma SwapRemoveFormed(entries: seq<Entry>, i: nat)
    requires WellFormed(Mapping(entries)) && i < |entries|
    ensures WellFormed(Mapping(SwapRemove(entries, i)))
  {
    var less, n := SwapRemove(entries, i), |entries| - 1;
    assert forall j :: 0 <= j < n ==> less[j] == if j == i then entries[n] else entries[j];
  }

  lemma UniqueKeys(entries: seq<Entry>)
    requires WellFormed(Mapping(entries))
    ensures Unique(entries)
  {
  }

  lemma InsertDict(entries: seq<Entry>, key: string, value: Value)
    requires WellFormed(Mapping(entries)) && WellFormed(value)
    ensures WellFormed(Mapping(Insert(entries, key, value)))
    ensures Dict(Insert(entries, key, value)) == Dict(entries)[key := MeaningOf(value)]
  {
    InsertMeans(entries, key, value);
  }

  lemma DictHas(entries: seq<Entry>, k: string)
    requires WellFormed(Mapping(entries))
    ensures k in Dict(entries) <==> Find(entries, k).Some?
    ensures Find(entries, k).Some? ==> Dict(entries)[k] == MeaningOf(entries[Find(entries, k).value].value)
  {
    MappingMeans(entries, k);
  }

  lemma SwapRemoveMeans(entries: seq<Entry>, i: nat)
    requires WellFormed(Mapping(entries)) && i < |entries|
    ensures WellFormed(Mapping(SwapRemove(entries, i)))
    ensures Dict(SwapRemove(entries, i)) == Dict(entries) - {entries[i].key}
  {
    SwapRemoveFormed(entries, i);
    var less, gone := SwapRemove(entries, i), entries[i].key;
    hide SwapRemove, Dict;
    forall k
      ensures k in Dict(less) <==> k in Dict(entries) && k != gone
      ensures k in Dict(less) ==> Dict(less)[k] == Dict(entries)[k]
    {
      SwapRemoveAt(entries, i, k);
    }
  }

  lemma SwapRemoveAt(entries: seq<Entry>, i: nat, k: string)
    requires WellFormed(Mapping(entries)) && i < |entries| && WellFormed(Mapping(SwapRemove(entries, i)))
    ensures var less := SwapRemove(entries, i);
            && (k in Dict(less) <==> k in Dict(entries) && k != entries[i].key)
            && (k in Dict(less) ==> Dict(less)[k] == Dict(entries)[k])
  {
    hide Dict, SwapRemove, MeaningOf;
    DictHas(SwapRemove(entries, i), k);
    DictHas(entries, k);
    SwapRemoveFinds(entries, i, k);
  }

  lemma SwapRemoveFinds(entries: seq<Entry>, i: nat, k: string)
    requires Unique(entries) && i < |entries|
    ensures var less := SwapRemove(entries, i);
            && Unique(less)
            && (Find(less, k).Some? <==> k != entries[i].key && Find(entries, k).Some?)
            && (Find(less, k).Some? ==> less[Find(less, k).value] == entries[Find(entries, k).value])
  {
    var less := SwapRemove(entries, i);
    var n := |entries| - 1;
    assert forall j :: 0 <= j < n ==> less[j] == if j == i then entries[n] else entries[j];
    assert Unique(less);
    if k != entries[i].key && Find(entries, k).Some? {
      var j := Find(entries, k).value;
      FindAt(less, if j == n then i else j);
    }
  }

  lemma JoinFinds(a: seq<Entry>, b: seq<Entry>, k: string)
    requires Unique(a + b)
    ensures Find(a + b, k).Some? <==> Find(a, k).Some? || Find(b, k).Some?
    ensures Find(a, k).Some? ==> Find(a + b, k) == Find(a, k)
    ensures Find(b, k).Some? ==> Find(a + b, k) == Some(|a| + Find(b, k).value)
  {
    hide Find;
    if Find(a, k).Some? { FindAt(a + b, Find(a, k).value); }
    if Find(b, k).Some? { FindAt(a + b, |a| + Find(b, k).value); }
    if Find(a + b, k).Some? {
      var i := Find(a + b, k).value;
      assert (a + b)[i] == if i < |a| then a[i] else b[i - |a|];
    }
  }

  lemma JoinFormed(a: seq<Entry>, b: seq<Entry>)
    requires WellFormed(Mapping(a)) && WellFormed(Mapping(b)) && Dict(a).Keys !! Dict(b).Keys
    ensures WellFormed(Mapping(a + b))
  {
    forall i, j | 0 <= i < |a| && 0 <= j < |b| ensures a[i].key != b[j].key {
      DictHas(a, a[i].key);
      DictHas(b, a[i].key);
    }
  }

  lemma JoinMeans(a: seq<Entry>, b: seq<Entry>)
    requires WellFormed(Mapping(a)) && WellFormed(Mapping(b)) && Dict(a).Keys !! Dict(b).Keys
    ensures WellFormed(Mapping(a + b)) && Dict(a + b) == Dict(a) + Dict(b)
  {
    JoinFormed(a, b);
    hide Dict, WellFormed;
    forall k
      ensures k in Dict(a + b) <==> k in Dict(a) || k in Dict(b)
      ensures k in Dict(a) ==> Dict(a + b)[k] == Dict(a)[k]
      ensures k in Dict(b) ==> Dict(a + b)[k] == Dict(b)[k]
    {
      JoinAt(a, b, k);
    }
    SumOfMaps(Dict(a + b), Dict(a), Dict(b));
  }

  lemma SumOfMaps(t: map<string, Meaning>, a: map<string, Meaning>, b: map<string, Meaning>)
    requires forall k :: k in t <==> k in a || k in b
    requires forall k :: k in a ==> t[k] == a[k]
    requires forall k :: k in b ==> t[k] == b[k]
    ensures t == a + b
  {
  }

  lemma JoinAt(a: seq<Entry>, b: seq<Entry>, k: string)
    requires WellFormed(Mapping(a)) && WellFormed(Mapping(b)) && WellFormed(Mapping(a + b))
    ensures k in Dict(a + b) <==> k in Dict(a) || k in Dict(b)
    ensures k in Dict(a) ==> Dict(a + b)[k] == Dict(a)[k]
    ensures k in Dict(b) ==> Dict(a + b)[k] == Dict(b)[k]
  {
    hide Dict, MeaningOf, WellFormed;
    DictHas(a, k);
    DictHas(b, k);
    DictHas(a + b, k);
    UniqueKeys(a + b);
    JoinFinds(a, b, k);
  }

  /** While a mapping is being sorted: what is done follows `p`, and with what is left it still
      means `t`. */
  ghost predicate Sorting(t: map<string, Meaning>, p: seq<Entry>, n: nat, done: seq<Entry>, left: seq<Entry>)
    requires n <= |p|
  {
    && WellFormed(Mapping(done)) && WellFormed(Mapping(left))
    && Dict(done).Keys !! Dict(left).Keys && t == Dict(done) + Dict(left)
    && Titles(done) == Shared(p[..n], t.Keys)
    && (forall i :: 0 <= i < |done| ==>
          var j := Find(p, done[i].key); j.Some? && j.value < n && Follows(done[i].value, p[j.value].value))
  }

  function Titles(entries: seq<Entry>): seq<string> {
    seq(|entries|, i requires 0 <= i < |entries| => entries[i].key)
  }

  lemma SharedStep(p: seq<Entry>, n: nat, keys: set<string>)
    requires n < |p|
    ensures Shared(p[..n + 1], keys) == Shared(p[..n], keys) + if p[n].key in keys then [p[n].key] else []
  {
    assert p[..n + 1][..n] == p[..n];
  }

  lemma NotDoneYet(t: map<string, Meaning>, p: seq<Entry>, n: nat, done: seq<Entry>, left: seq<Entry>)
    requires n < |p| && Unique(p) && Sorting(t, p, n, done, left)
    ensures Find(done, p[n].key).None? && p[n].key !in Dict(done)
    ensures p[n].key in t <==> Find(left, p[n].key).Some?
  {
    var k := p[n].key;
    FindAt(p, n);
    MappingMeans(done, k);
    MappingMeans(left, k);
  }

  lemma SortFound(t: map<string, Meaning>, p: seq<Entry>, n: nat, done: seq<Entry>, left: seq<Entry>, i: nat, c: Value)
    requires n < |p| && Unique(p) && Sorting(t, p, n, done, left)
    requires i < |left| && left[i].key == p[n].key && WellFormed(c)
    requires MeaningOf(c) == MeaningOf(left[i].value) && Follows(c, p[n].value)
    ensures Sorting(t, p, n + 1, Insert(done, p[n].key, c), SwapRemove(left, i))
  {
    hide MeaningOf, WellFormed, Shared, SwapRemove, Follows, Dict;
    var k := p[n].key;
    var done', left' := done + [Entry(k, c)], SwapRemove(left, i);
    UniqueKeys(left);
    NotDoneYet(t, p, n, done, left);
    FindAt(left, i);
    FindAt(p, n);
    DictHas(left, k);
    InsertDict(done, k, c);
    SwapRemoveMeans(left, i);
    SharedStep(p, n, t.Keys);
    MovedAcross(t, Dict(done), Dict(left), k, MeaningOf(c));
    assert Dict(done') == Dict(done)[k := MeaningOf(c)];
    assert Titles(done') == Titles(done) + [k];
  }

  lemma MovedAcross(t: map<string, Meaning>, a: map<string, Meaning>, b: map<string, Meaning>, k: string, m: Meaning)
    requires a.Keys !! b.Keys && t == a + b && k in b && b[k] == m
    ensures a[k := m].Keys !! (b - {k}).Keys && t == a[k := m] + (b - {k}) && k in t
  {
  }

  lemma SortSkipped(t: map<string, Meaning>, p: seq<Entry>, n: nat, done: seq<Entry>, left: seq<Entry>)
    requires n < |p| && Unique(p) && Sorting(t, p, n, done, left) && Find(left, p[n].key).None?
    ensures Sorting(t, p, n + 1, done, left)
  {
    NotDoneYet(t, p, n, done, left);
    SharedStep(p, n, t.Keys);
  }

  lemma SortBegins(v: Value, p: seq<Entry>)
    requires v.Mapping? && WellFormed(v)
    ensures Sorting(Dict(v.entries), p, 0, [], v.entries)
  {
  }

  /** What is left once `p` has been gone through is appended as it is. */
  lemma SortEnds(t: map<string, Meaning>, p: seq<Entry>, done: seq<Entry>, left: seq<Entry>)
    requires Sorting(t, p, |p|, done, left) && WellFormed(Mapping(p))
    ensures WellFormed(Mapping(done + left)) && Dict(done + left) == t && Follows(Mapping(done + left), Mapping(p))
  {
    JoinMeans(done, left);
    assert p[..|p|] == p;
    var out := done + left;
    forall k ensures k in Keys(out) <==> k in t {
      DictHas(out, k);
    }
    assert Keys(out) == t.Keys;
    assert forall i :: 0 <= i < |done| ==> Titles(done)[i] == done[i].key && out[i] == done[i];
  }

  lemma DictIsMeaning(a: seq<Entry>, b: seq<Entry>)
    requires WellFormed(Mapping(a)) && WellFormed(Mapping(b)) && Dict(a) == Dict(b)
    ensures MeaningOf(Mapping(a)) == MeaningOf(Mapping(b))
  {
  }

  /** `reorder_mappings_like_previous`: changes the order of entries and nothing else. */
  method Reorder(value: Value, previous: Value) returns (out: Value)
    requires WellFormed(value) && WellFormed(previous)
    ensures WellFormed(out) && MeaningOf(out) == MeaningOf(value) && Follows(out, previous)
    decreases previous
  {
    if value.Mapping? && previous.Mapping? {
      var entries := ReorderMapping(value.entries, previous);
      DictIsMeaning(entries, value.entries);
      out := Mapping(entries);
    } else if value.Sequence? && previous.Sequence? {
      var items := value.items;
      var i := 0;
      while i < |items| && i < |previous.items|
        invariant 0 <= i <= |items| == |value.items|
        invariant forall k :: 0 <= k < |items| ==>
                    WellFormed(items[k]) && MeaningOf(items[k]) == MeaningOf(value.items[k])
        invariant forall k :: i <= k < |items| ==> items[k] == value.items[k]
        invariant forall k :: 0 <= k < i && k < |previous.items| ==> Follows(items[k], previous.items[k])
      {
        var item := Reorder(items[i], previous.items[i]);
        items := items[i := item];
        i := i + 1;
      }
      out := Sequence(items);
    } else {
      out := value;
    }
  }

  method ReorderMapping(current: seq<Entry>, previous: Value) returns (ordered: seq<Entry>)
    requires WellFormed(Mapping(current)) && previous.Mapping? && WellFormed(previous)
    ensures WellFormed(Mapping(ordered)) && Dict(ordered) == Dict(current) && Follows(Mapping(ordered), previous)
    decreases previous, 0
  {
    hide Sorting, Follows, Dict, MeaningOf;
    var p := previous.entries;
    ghost var t := Dict(current);
    var left := current;
    ordered := [];
    SortBegins(Mapping(current), p);
    var n := 0;
    while n < |p|
      invariant 0 <= n <= |p| && WellFormed(Mapping(left)) && Sorting(t, p, n, ordered, left)
    {
      var i := Find(left, p[n].key);
      if i.Some? {
        var child := Reorder(left[i.value].value, p[n].value);
        SortFound(t, p, n, ordered, left, i.value, child);
        SwapRemoveFormed(left, i.value);
        ordered := Insert(ordered, p[n].key, child);
        left := SwapRemove(left, i.value);
      } else {
        SortSkipped(t, p, n, ordered, left);
      }
      n := n + 1;
    }
    SortEnds(t, p, ordered, left);
    ghost var sorted := ordered;
    n := 0;
    while n < |left|
      invariant 0 <= n <= |left| && ordered == sorted + left[..n]
    {
      UniqueKeys(sorted + left);
      StillNew(sorted, left, n);
      ordered := Insert(ordered, left[n].key, left[n].value);
      assert left[..n + 1] == left[..n] + [left[n]];
      n := n + 1;
    }
    assert left[..n] == left;
  }

  lemma StillNew(sorted: seq<Entry>, left: seq<Entry>, n: nat)
    requires Unique(sorted + left) && n < |left|
    ensures Insert(sorted + left[..n], left[n].key, left[n].value) == sorted + left[..n] + [left[n]]
  {
    var all, some := sorted + left, sorted + left[..n];
    assert forall i :: 0 <= i < |some| ==> some[i] == all[i];
    assert all[|some|] == left[n];
    assert forall i :: 0 <= i < |some| ==> all[i].key != all[|some|].key;
  }
}
