/**
 The table's operations written as the original's loops: an accumulating
 loop over the characters for the hash, and a cursor walking a chain for
 search and insert. Each is proved to compute the functional definition.
 */
module HashTableLoops {
  import opened Wrappers
  import opened HashTable

  /** Accumulates (i + 1) * code point character by character, then reduces modulo `size`. */
  method HashFunction(key: string, size: nat) returns (idx: nat)
    requires size > 0
    ensures idx < size
    ensures idx == Hash(key, size)
    ensures |key| == 0 ==> idx == 0
  {
    var total: nat := 0;
    var i := 0;
    while i < |key|
      invariant 0 <= i <= |key|
      invariant total == WeightedSum(key[..i])
    {
      assert key[..i + 1][..i] == key[..i];
      total := total + (i + 1) * (key[i] as int);
      i := i + 1;
    }
    assert key[..i] == key;
    idx := total % size;
  }

  /** Follows the chain at the key's bucket and returns the first matching record. */
  method SearchWalk(t: Table, key: string) returns (r: Option<Contact>)
    requires WellFormed(t)
    ensures r == Search(t, key)
  {
    var idx := HashFunction(key, t.size);
    var chain := t.data[idx];
    var cur := 0;
    while cur < |chain|
      invariant 0 <= cur <= |chain|
      invariant forall m :: 0 <= m < cur ==> chain[m].key != key
    {
      if chain[cur].key == key {
        return Some(chain[cur].value);
      }
      cur := cur + 1;
    }
    return None;
  }

  /**
   Creates the head of an empty bucket; otherwise follows the chain, updates
   the number of the first matching node, or links a new node after the last.
   */
  method InsertWalk(t: Table, key: string, number: string) returns (t': Table)
    requires WellFormed(t)
    ensures t' == Insert(t, key, number)
  {
    var idx := HashFunction(key, t.size);
    var chain := t.data[idx];
    if |chain| == 0 {
      return t.(data := t.data[idx := [NewNode(key, number)]]);
    }
    var cur := 0;
    while cur < |chain|
      invariant 0 <= cur <= |chain|
      invariant forall m :: 0 <= m < cur ==> chain[m].key != key
    {
      if chain[cur].key == key {
        return t.(data := t.data[idx := chain[cur := SetNumber(chain[cur], number)]]);
      }
      cur := cur + 1;
    }
    return t.(data := t.data[idx := chain + [NewNode(key, number)]]);
  }
}
