/**
 The demonstration run at the end of hash_table.py, as lemmas over a table
 of 10 buckets:
 five contacts, a search, a colliding name, an update and a miss.
 */
module Demo {
  import opened Wrappers
  import opened HashTable
  import opened HashTableProofs
  import opened HashTableMap

  /** The five contacts inserted first, in order. */
  function FirstContacts(): seq<(string, string)> {
    [ ("Juan", "505-123-1111"), ("Jose", "505-123-2222"), ("Maria", "505-123-3333"),
      ("Nataly", "505-123-4444"), ("Gabriel", "505-123-5555") ]
  }

  /**
   The weighted sum accumulated from position `i` on, starting from `acc`: the
   character loop of the hash as a function, which evaluates on literal names.
   */
  function WeightedSumFrom(s: string, i: nat, acc: int): int
    requires i <= |s|
    decreases |s| - i
  {
    if i == |s| then acc else WeightedSumFrom(s, i + 1, acc + (i + 1) * (s[i] as int))
  }

  /** Accumulating from position `i` adds the terms of the positions from `i` on. */
  lemma {:induction false} WeightedSumFromIsWeightedSum(s: string, i: nat, acc: int)
    requires i <= |s|
    ensures WeightedSumFrom(s, i, acc) == acc + WeightedSum(s) - WeightedSum(s[..i])
    decreases |s| - i
  {
    if i < |s| {
      WeightedSumFromIsWeightedSum(s, i + 1, acc + (i + 1) * (s[i] as int));
      assert s[..i + 1][..i] == s[..i];
    } else {
      assert s[..i] == s;
    }
  }

  /** The buckets of the demonstration's names in a table of 10. */
  lemma DemoHashes()
    ensures Hash("Juan", 10) == 9
    ensures Hash("Jose", 10) == 5
    ensures Hash("Maria", 10) == 8
    ensures Hash("Nataly", 10) == 4
    ensures Hash("Gabriel", 10) == 2
    ensures Hash("Naty", 10) == 4
    ensures Hash("Diego", 10) == 8
  {
    WeightedSumFromIsWeightedSum("Juan", 0, 0);
    WeightedSumFromIsWeightedSum("Jose", 0, 0);
    WeightedSumFromIsWeightedSum("Maria", 0, 0);
    WeightedSumFromIsWeightedSum("Nataly", 0, 0);
    WeightedSumFromIsWeightedSum("Gabriel", 0, 0);
    WeightedSumFromIsWeightedSum("Naty", 0, 0);
    WeightedSumFromIsWeightedSum("Diego", 0, 0);
  }

  /** The demonstration's table after its first five inserts. */
  function AfterFirstContacts(): (t: Table)
    ensures WellFormed(t)
  {
    InsertAll(New(10), FirstContacts())
  }

  /** The five inserts, written out one after another. */
  lemma AfterFirstContactsUnrolled()
    ensures AfterFirstContacts() ==
      Insert(Insert(Insert(Insert(Insert(New(10),
        "Juan", "505-123-1111"), "Jose", "505-123-2222"), "Maria", "505-123-3333"),
        "Nataly", "505-123-4444"), "Gabriel", "505-123-5555")
  {
    var es := FirstContacts();
    assert es[1..][1..][1..][1..][1..] == [];
  }

  /** After the first five inserts, buckets 4, 5 and 8 hold Nataly, Jose and Maria alone. */
  lemma FirstContactsBuckets()
    ensures AfterFirstContacts().data[4] == [NewNode("Nataly", "505-123-4444")]
    ensures AfterFirstContacts().data[5] == [NewNode("Jose", "505-123-2222")]
    ensures AfterFirstContacts().data[8] == [NewNode("Maria", "505-123-3333")]
  {
    DemoHashes();
    AfterFirstContactsUnrolled();
    var t0 := New(10);
    var t1 := Insert(t0, "Juan", "505-123-1111");
    var t2 := Insert(t1, "Jose", "505-123-2222");
    var t3 := Insert(t2, "Maria", "505-123-3333");
    var t4 := Insert(t3, "Nataly", "505-123-4444");
    assert t3.data[4] == [];
    assert t1.data[5] == [];
    assert t2.data[8] == [];
  }

  /** The first five inserts are five distinct names: a valid table of five entries. */
  lemma FirstContactsCount()
    ensures Valid(AfterFirstContacts())
    ensures Count(AfterFirstContacts()) == 5
  {
    DemoHashes();
    AfterFirstContactsUnrolled();
    var t0 := New(10);
    NewIsValid(10);
    var t1 := Insert(t0, "Juan", "505-123-1111");
    var t2 := Insert(t1, "Jose", "505-123-2222");
    var t3 := Insert(t2, "Maria", "505-123-3333");
    var t4 := Insert(t3, "Nataly", "505-123-4444");
    NewCountStep(t0, "Juan", "505-123-1111");
    NewCountStep(t1, "Jose", "505-123-2222");
    NewCountStep(t2, "Maria", "505-123-3333");
    NewCountStep(t3, "Nataly", "505-123-4444");
    NewCountStep(t4, "Gabriel", "505-123-5555");
  }

  /**
   "Nataly" is found; "Naty" lands in the bucket of "Nataly" and is linked
   after it; both stay searchable.
   */
  lemma DemoCollision()
    ensures
      var t5 := AfterFirstContacts();
      var t6 := Insert(t5, "Naty", "505-999-0000");
      && Search(t5, "Nataly") == Some(Contact("Nataly", "505-123-4444"))
      && t6.data[4] == [NewNode("Nataly", "505-123-4444"), NewNode("Naty", "505-999-0000")]
      && Search(t6, "Nataly") == Some(Contact("Nataly", "505-123-4444"))
      && Search(t6, "Naty") == Some(Contact("Naty", "505-999-0000"))
  {
    DemoHashes();
    FirstContactsBuckets();
    FirstContactsCount();
    var t5 := AfterFirstContacts();
    assert "Nataly" != "Naty" by {
      assert |"Nataly"| != |"Naty"|;
    }
    LinkAfter(t5, NewNode("Nataly", "505-123-4444"), "Naty", "505-999-0000");
    SingleNodeSearch(t5, NewNode("Nataly", "505-123-4444"));
    InsertThenSearch(t5, "Naty", "505-999-0000");
    InsertKeepsOtherSearches(t5, "Naty", "Nataly", "505-999-0000");
  }

  /** A key new to a one-node bucket is linked after that node. */
  lemma LinkAfter(t: Table, head: Node, key: string, number: string)
    requires WellFormed(t)
    requires t.data[Hash(key, t.size)] == [head] && head.key != key
    ensures Insert(t, key, number).data[Hash(key, t.size)] == [head, NewNode(key, number)]
  {
    assert IndexOf([head], key) == None;
  }

  /** The only node of the bucket its key hashes to is found by searching that key. */
  lemma SingleNodeSearch(t: Table, n: Node)
    requires WellFormed(t)
    requires t.data[Hash(n.key, t.size)] == [n]
    ensures Search(t, n.key) == Some(n.value)
  {
    assert IndexOf([n], n.key) == Some(0);
  }

  /** Updating "Jose" makes its search return the new number; "Diego" is not found. */
  lemma DemoUpdateAndMiss()
    ensures
      var t6 := Insert(AfterFirstContacts(), "Naty", "505-999-0000");
      var t7 := Insert(t6, "Jose", "505-777-7777");
      && Search(t7, "Jose") == Some(Contact("Jose", "505-777-7777"))
      && Search(t7, "Diego") == None
  {
    DemoHashes();
    FirstContactsBuckets();
    FirstContactsCount();
    var t5 := AfterFirstContacts();
    var t6 := Insert(t5, "Naty", "505-999-0000");
    InsertPreservesValid(t5, "Naty", "505-999-0000");
    InsertThenSearch(t6, "Jose", "505-777-7777");
    assert Search(t5, "Diego") == None;
    InsertKeepsOtherSearches(t5, "Naty", "Diego", "505-999-0000");
    InsertKeepsOtherSearches(t6, "Jose", "Diego", "505-777-7777");
  }

  /** Six distinct names were inserted and "Jose" twice: the update adds no entry. */
  lemma DemoCount()
    ensures
      var t6 := Insert(AfterFirstContacts(), "Naty", "505-999-0000");
      var t7 := Insert(t6, "Jose", "505-777-7777");
      Count(t7) == Count(t6) == 6
  {
    DemoHashes();
    FirstContactsBuckets();
    FirstContactsCount();
    var t5 := AfterFirstContacts();
    var t6 := Insert(t5, "Naty", "505-999-0000");
    NewCountStep(t5, "Naty", "505-999-0000");
    assert t6.data[5] == [NewNode("Jose", "505-123-2222")];
    assert t6.data[5][0] in t6.data[5];
    KeysInOwnBucket(t6, "Jose");
    InsertCount(t6, "Jose", "505-777-7777");
  }

  /** An insert whose key is absent from its bucket adds one entry and keeps the invariant. */
  lemma NewCountStep(t: Table, key: string, number: string)
    requires Valid(t)
    requires key !in ChainKeys(t.data[Hash(key, t.size)])
    ensures Valid(Insert(t, key, number))
    ensures Count(Insert(t, key, number)) == Count(t) + 1
  {
    KeysInOwnBucket(t, key);
    InsertPreservesValid(t, key, number);
    InsertCount(t, key, number);
  }
}
