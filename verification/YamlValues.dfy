/** Configuration values: scalars, sequences, and mappings that keep the order of their entries.
    What a value means does not depend on that order. */
module YamlValues {
  import opened Basics

  datatype Value = Scalar(text: string) | Sequence(items: seq<Value>) | Mapping(entries: seq<Entry>)
  datatype Entry = Entry(key: string, value: Value)

  datatype Meaning = Leaf(text: string) | List(items: seq<Meaning>) | Table(entries: map<string, Meaning>)

  predicate Unique(entries: seq<Entry>) {
    forall i, j :: 0 <= i < j < |entries| ==> entries[i].key != entries[j].key
  }

  /** No key twice in any mapping. */
  predicate WellFormed(v: Value) {
    match v
    case Scalar(_) => true
    case Sequence(items) => forall i :: 0 <= i < |items| ==> WellFormed(items[i])
    case Mapping(entries) => Unique(entries) && forall i :: 0 <= i < |entries| ==> WellFormed(entries[i].value)
  }

  /** Where a key is. */
  function Find(entries: seq<Entry>, key: string): (r: Option<nat>)
    ensures r.Some? ==> r.value < |entries| && entries[r.value].key == key
    ensures r.None? ==> forall i :: 0 <= i < |entries| ==> entries[i].key != key
  {
    if entries == [] then None
    else if entries[|entries| - 1].key == key then Some(|entries| - 1)
    else Find(entries[..|entries| - 1], key)
  }

  function Keys(entries: seq<Entry>): set<string> { set i | 0 <= i < |entries| :: entries[i].key }

  function MeaningOf(v: Value): Meaning
    requires WellFormed(v)
    decreases v
  {
    match v
    case Scalar(text) => Leaf(text)
    case Sequence(items) => List(seq(|items|, i requires 0 <= i < |items| => MeaningOf(items[i])))
    case Mapping(entries) =>
      Table(map k | k in Keys(entries) :: MeaningOf(entries[Find(entries, k).value].value))
  }

  lemma FindAt(entries: seq<Entry>, i: nat)
    requires Unique(entries) && i < |entries|
    ensures Find(entries, entries[i].key) == Some(i)
  {
  }

  /** Replaces the value in place, or appends a new entry. */
  function Insert(entries: seq<Entry>, key: string, value: Value): seq<Entry> {
    var i := Find(entries, key);
    if i.Some? then entries[i.value := Entry(key, value)] else entries + [Entry(key, value)]
  }

  lemma MappingMeans(entries: seq<Entry>, key: string)
    requires WellFormed(Mapping(entries))
    ensures key in MeaningOf(Mapping(entries)).entries <==> Find(entries, key).Some?
    ensures Find(entries, key).Some? ==>
              MeaningOf(Mapping(entries)).entries[key] == MeaningOf(entries[Find(entries, key).value].value)
  {
    if Find(entries, key).Some? {
      assert entries[Find(entries, key).value].key in Keys(entries);
    }
  }

  lemma InsertMeans(entries: seq<Entry>, key: string, value: Value)
    requires WellFormed(Mapping(entries)) && WellFormed(value)
    ensures WellFormed(Mapping(Insert(entries, key, value)))
    ensures MeaningOf(Mapping(Insert(entries, key, value))).entries
         == MeaningOf(Mapping(entries)).entries[key := MeaningOf(value)]
  {
    var more := Insert(entries, key, value);
    assert WellFormed(Mapping(more));
    var a, b := MeaningOf(Mapping(more)).entries, MeaningOf(Mapping(entries)).entries[key := MeaningOf(value)];
    forall k ensures k in a <==> k in b {
      MappingMeans(more, k);
      MappingMeans(entries, k);
      InsertFinds(entries, key, value, k);
    }
    forall k | k in a ensures a[k] == b[k] {
      MappingMeans(more, k);
      MappingMeans(entries, k);
      InsertFinds(entries, key, value, k);
    }
  }

  lemma InsertFinds(entries: seq<Entry>, key: string, value: Value, k: string)
    requires Unique(entries)
    ensures var more := Insert(entries, key, value);
            && Unique(more)
            && (Find(more, k).Some? <==> k == key || Find(entries, k).Some?)
            && (Find(more, k).Some? ==>
                  more[Find(more, k).value].value ==
                  if k == key then value else entries[Find(entries, k).value].value)
  {
    var more := Insert(entries, key, value);
    assert Unique(more);
    var i := Find(entries, key);
    if i.Some? {
      FindAt(more, i.value);
    } else {
      FindAt(more, |entries|);
    }
    if k != key && Find(entries, k).Some? {
      FindAt(more, Find(entries, k).value);
    }
  }

  lemma ItemMeans(items: seq<Value>, i: nat, value: Value)
    requires WellFormed(Sequence(items)) && WellFormed(value) && i < |items|
    ensures WellFormed(Sequence(items[i := value]))
    ensures MeaningOf(Sequence(items[i := value])).items == MeaningOf(Sequence(items)).items[i := MeaningOf(value)]
  {
  }
}
