/**
 The table seen as a finite map from names to numbers. A valid table answers
 every search as that map does, `Insert` is a map update, and any sequence of
 inserts into a new table yields the map of the last number inserted per name.
 */
module HashTableMap {
  import opened Wrappers
  import opened HashTable
  import opened HashTableProofs

  /** The number stored under a key the table holds. */
  ghost function NumberOf(t: Table, key: string): string
    requires key in Keys(t)
  {
    var i, j :| 0 <= i < |t.data| && 0 <= j < |t.data[i]| && t.data[i][j].key == key;
    t.data[i][j].value.number
  }

  /** The name-to-number map a table stands for. */
  ghost function Contents(t: Table): map<string, string> {
    map k | k in Keys(t) :: NumberOf(t, k)
  }

  /** A valid table answers every search as its map does. */
  lemma SearchIsLookup(t: Table, key: string)
    requires Valid(t)
    ensures Search(t, key) == if key in Contents(t) then Some(Contact(key, Contents(t)[key])) else None
  {
    SearchFindsStoredKeys(t, key);
    if key in Keys(t) {
      var h := Hash(key, t.size);
      var i, j :| 0 <= i < |t.data| && 0 <= j < |t.data[i]| && t.data[i][j].key == key
        && NumberOf(t, key) == t.data[i][j].value.number;
      assert i == h;
      var p := IndexOf(t.data[h], key).value;
      assert j == p by {
        assert UniqueKeys(t.data[h]);
      }
    }
  }

  /** `insert(k, n)` is the map update `k := n`. */
  lemma InsertIsUpdate(t: Table, key: string, number: string)
    requires Valid(t)
    ensures Contents(Insert(t, key, number)) == Contents(t)[key := number]
  {
    var t' := Insert(t, key, number);
    InsertPreservesValid(t, key, number);
    forall k | k in Keys(t')
      ensures Contents(t')[k] == Contents(t)[key := number][k]
    {
      SearchIsLookup(t', k);
      SearchIsLookup(t, k);
      if k == key {
        InsertThenSearch(t, key, number);
      } else {
        InsertKeepsOtherSearches(t, key, k, number);
      }
    }
  }

  /** The contacts `entries` inserted one after another, first to last. */
  function InsertAll(t: Table, entries: seq<(string, string)>): (t': Table)
    requires WellFormed(t)
    ensures WellFormed(t') && t'.size == t.size
    decreases |entries|
  {
    if |entries| == 0 then t
    else InsertAll(Insert(t, entries[0].0, entries[0].1), entries[1..])
  }

  /** The same entries applied to a map, a later entry overriding an earlier one. */
  function UpdateAll(m: map<string, string>, entries: seq<(string, string)>): map<string, string>
    decreases |entries|
  {
    if |entries| == 0 then m
    else UpdateAll(m[entries[0].0 := entries[0].1], entries[1..])
  }

  /** The names occurring in `entries`. */
  function EntryKeys(entries: seq<(string, string)>): set<string> {
    set e | e in entries :: e.0
  }

  /** The names of `entries` are the first entry's name and the names of the rest. */
  lemma EntryKeysCons(entries: seq<(string, string)>)
    requires |entries| > 0
    ensures EntryKeys(entries) == {entries[0].0} + EntryKeys(entries[1..])
  {
    assert entries == [entries[0]] + entries[1..];
    assert forall e :: e in entries <==> e == entries[0] || e in entries[1..];
  }

  /** Any sequence of inserts keeps the invariant and stores exactly the inserted names besides those already there. */
  lemma {:induction false} InsertAllKeys(t: Table, entries: seq<(string, string)>)
    requires Valid(t)
    ensures Valid(InsertAll(t, entries))
    ensures Keys(InsertAll(t, entries)) == Keys(t) + EntryKeys(entries)
    decreases |entries|
  {
    if |entries| > 0 {
      var (k, n) := entries[0];
      InsertPreservesValid(t, k, n);
      InsertAllKeys(Insert(t, k, n), entries[1..]);
      EntryKeysCons(entries);
    }
  }

  /** Inserting into a valid table keeps one entry per stored name. */
  lemma InsertKeepsOneEntryPerKey(t: Table, key: string, number: string)
    requires Valid(t)
    ensures Count(Insert(t, key, number)) == |Keys(Insert(t, key, number))|
  {
    InsertPreservesValid(t, key, number);
    ValidCount(Insert(t, key, number));
  }

  /** Any sequence of inserts into a valid table keeps one entry per stored name. */
  lemma InsertAllCount(t: Table, entries: seq<(string, string)>)
    requires Valid(t)
    ensures Count(InsertAll(t, entries)) == |Keys(InsertAll(t, entries))|
  {
    InsertAllKeys(t, entries);
    ValidCount(InsertAll(t, entries));
  }

  /** Any sequence of inserts ends with the map the same sequence of updates gives. */
  lemma {:induction false} InsertAllContents(t: Table, entries: seq<(string, string)>)
    requires Valid(t)
    ensures Contents(InsertAll(t, entries)) == UpdateAll(Contents(t), entries)
    decreases |entries|
  {
    if |entries| > 0 {
      var (k, n) := entries[0];
      InsertPreservesValid(t, k, n);
      InsertIsUpdate(t, k, n);
      InsertAllContents(Insert(t, k, n), entries[1..]);
    }
  }

  /**
   A table built from empty by inserts holds one entry per distinct inserted
   name; a name never inserted is not found; any other name finds the last
   number inserted for it.
   */
  lemma BuiltTable(size: nat, entries: seq<(string, string)>, key: string)
    requires size > 0
    ensures Valid(InsertAll(New(size), entries))
    ensures Count(InsertAll(New(size), entries)) == |EntryKeys(entries)|
    ensures key !in EntryKeys(entries) ==> Search(InsertAll(New(size), entries), key) == None
    ensures Search(InsertAll(New(size), entries), key) ==
      if key in UpdateAll(map[], entries) then Some(Contact(key, UpdateAll(map[], entries)[key])) else None
  {
    var t := New(size);
    NewIsValid(size);
    assert Contents(t) == map[];
    InsertAllKeys(t, entries);
    InsertAllCount(t, entries);
    InsertAllContents(t, entries);
    SearchIsLookup(InsertAll(t, entries), key);
    SearchFindsStoredKeys(InsertAll(t, entries), key);
  }
}
