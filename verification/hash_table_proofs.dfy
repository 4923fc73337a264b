/**
 What the table promises: the invariant `Valid` holds of every table built by
 `New` and `Insert`, search finds exactly the stored keys, an insert is seen
 by the next search of its key and by no other, and the table as a whole
 behaves as a finite map from names to numbers.
 */
module HashTableProofs {
  import opened Wrappers
  import opened HashTable

  /** The empty-key hash is a sum of no terms, so it is bucket 0. */
  lemma EmptyKeyHashesToZero(size: nat)
    requires size > 0
    ensures Hash("", size) == 0
  {
  }

  /** A new table has `size` empty buckets and satisfies the invariant. */
  lemma NewIsValid(size: nat)
    requires size > 0
    ensures Valid(New(size))
    ensures Keys(New(size)) == {}
    ensures Count(New(size)) == 0
  {
    AllEmptyLength(New(size).data);
  }

  lemma {:induction false} AllEmptyLength(data: seq<Chain>)
    requires forall i :: 0 <= i < |data| ==> data[i] == []
    ensures TotalLength(data) == 0
  {
    if |data| > 0 {
      AllEmptyLength(data[..|data| - 1]);
    }
  }

  /** Replacing one chain changes the node count by the difference of the chain lengths. */
  lemma {:induction false} TotalLengthUpdate(data: seq<Chain>, i: nat, c: Chain)
    requires i < |data|
    ensures TotalLength(data[i := c]) == TotalLength(data) - |data[i]| + |c|
  {
    var last := |data| - 1;
    if i == last {
      assert data[i := c][..last] == data[..last];
    } else {
      assert data[i := c][..last] == data[..last][i := c];
      TotalLengthUpdate(data[..last], i, c);
    }
  }

  /** Membership of a key in a chain, by position. */
  lemma ChainKeysAt(chain: Chain, key: string)
    ensures key in ChainKeys(chain) <==> IndexOf(chain, key).Some?
  {
    if IndexOf(chain, key).Some? {
      assert chain[IndexOf(chain, key).value] in chain;
    }
  }

  /** Appending a node adds its key to the chain's keys. */
  lemma AppendKeys(chain: Chain, n: Node)
    ensures ChainKeys(chain + [n]) == ChainKeys(chain) + {n.key}
  {
    var r := chain + [n];
    assert r[|chain|] in r;
    assert forall x :: x in r ==> x in chain || x == n;
    assert forall x :: x in chain ==> x in r;
  }

  /** Replacing a node by one with the same key keeps the chain's keys. */
  lemma ReplaceKeys(chain: Chain, j: nat, n: Node)
    requires j < |chain| && n.key == chain[j].key
    ensures ChainKeys(chain[j := n]) == ChainKeys(chain)
  {
    var r := chain[j := n];
    forall x | x in r
      ensures x.key in ChainKeys(chain)
    {
      var m :| 0 <= m < |r| && r[m] == x;
      assert chain[m] in chain;
    }
    forall x | x in chain
      ensures x.key in ChainKeys(r)
    {
      var m :| 0 <= m < |chain| && chain[m] == x;
      assert r[m] in r;
    }
  }

  /**
   Inserting into a chain adds exactly `key` to its keys, grows it by one node
   exactly when the key was new, and keeps keys unique and names equal to keys.
   */
  lemma InsertChainFacts(chain: Chain, key: string, number: string)
    ensures ChainKeys(InsertChain(chain, key, number)) == ChainKeys(chain) + {key}
    ensures |InsertChain(chain, key, number)| == |chain| + (if key in ChainKeys(chain) then 0 else 1)
    ensures UniqueKeys(chain) ==> UniqueKeys(InsertChain(chain, key, number))
    ensures NamesMatch(chain) ==> NamesMatch(InsertChain(chain, key, number))
  {
    ChainKeysAt(chain, key);
    match IndexOf(chain, key)
    case None =>
      AppendKeys(chain, NewNode(key, number));
    case Some(j) =>
      ReplaceKeys(chain, j, SetNumber(chain[j], number));
  }

  /**
   Inserting a key the chain already holds changes the number of that node
   only: same length, same keys in the same order, every other node untouched.
   */
  lemma InsertExistingKeepsShape(chain: Chain, key: string, number: string)
    requires UniqueKeys(chain)
    requires key in ChainKeys(chain)
    ensures |InsertChain(chain, key, number)| == |chain|
    ensures forall m :: 0 <= m < |chain| ==>
      var n := InsertChain(chain, key, number)[m];
      && n.key == chain[m].key
      && n.value.name == chain[m].value.name
      && (chain[m].key != key ==> n == chain[m])
      && (chain[m].key == key ==> n.value.number == number)
  {
    ChainKeysAt(chain, key);
  }

  /** The node found by position is the node found by the search walk, and it carries the new number. */
  lemma SearchChainAfterInsert(chain: Chain, key: string, number: string)
    ensures SearchChain(InsertChain(chain, key, number), key).Some?
    ensures SearchChain(InsertChain(chain, key, number), key).value.number == number
    ensures NamesMatch(chain) ==>
      SearchChain(InsertChain(chain, key, number), key) == Some(Contact(key, number))
  {
    var r := InsertChain(chain, key, number);
    match IndexOf(chain, key)
    case None =>
      assert r[|chain|].key == key;
      assert IndexOf(r, key) == Some(|chain|);
    case Some(j) =>
      assert r[j].key == key;
      assert IndexOf(r, key) == Some(j);
  }

  /** Linking a node with another key after the last does not change what the walk finds. */
  lemma SearchAppendOther(chain: Chain, n: Node, other: string)
    requires n.key != other
    ensures SearchChain(chain + [n], other) == SearchChain(chain, other)
  {
    var r := chain + [n];
    match IndexOf(chain, other)
    case None =>
      assert forall m :: 0 <= m < |r| ==> r[m].key != other;
    case Some(j) =>
      assert r[j].key == other;
      assert forall m :: 0 <= m < j ==> r[m].key != other;
      assert IndexOf(r, other) == Some(j);
  }

  /** Replacing a node by one with the same, other key does not change what the walk finds. */
  lemma SearchReplaceOther(chain: Chain, j: nat, n: Node, other: string)
    requires j < |chain| && n.key == chain[j].key && n.key != other
    ensures SearchChain(chain[j := n], other) == SearchChain(chain, other)
  {
    var r := chain[j := n];
    match IndexOf(chain, other)
    case None =>
      assert forall m :: 0 <= m < |r| ==> r[m].key != other;
    case Some(p) =>
      assert r[p].key == other;
      assert forall m :: 0 <= m < p ==> r[m].key != other;
      assert IndexOf(r, other) == Some(p);
  }

  /** Inserting `key` does not change what the walk finds for another key. */
  lemma SearchChainOtherKey(chain: Chain, key: string, other: string, number: string)
    requires other != key
    ensures SearchChain(InsertChain(chain, key, number), other) == SearchChain(chain, other)
  {
    match IndexOf(chain, key)
    case None =>
      SearchAppendOther(chain, NewNode(key, number), other);
    case Some(j) =>
      SearchReplaceOther(chain, j, SetNumber(chain[j], number), other);
  }

  /** In a valid table a key is stored iff it is in the chain of the bucket it hashes to. */
  lemma KeysInOwnBucket(t: Table, key: string)
    requires Valid(t)
    ensures key in Keys(t) <==> key in ChainKeys(t.data[Hash(key, t.size)])
  {
    var h := Hash(key, t.size);
    if key in Keys(t) {
      var i, j :| 0 <= i < |t.data| && 0 <= j < |t.data[i]| && t.data[i][j].key == key;
      assert i == h;
      assert t.data[i][j] in t.data[h];
    }
    if key in ChainKeys(t.data[h]) {
      var n :| n in t.data[h] && n.key == key;
      var j :| 0 <= j < |t.data[h]| && t.data[h][j] == n;
      assert t.data[h][j].key in Keys(t);
    }
  }

  /** In a valid table no key is held by two nodes, in the same bucket or in different ones. */
  lemma ValidKeysUnique(t: Table)
    requires Valid(t)
    ensures forall i, j, i', j' ::
      (0 <= i < |t.data| && 0 <= j < |t.data[i]| && 0 <= i' < |t.data| && 0 <= j' < |t.data[i']| &&
       t.data[i][j].key == t.data[i'][j'].key) ==> i == i' && j == j'
  {
    forall i, j, i', j' |
      0 <= i < |t.data| && 0 <= j < |t.data[i]| && 0 <= i' < |t.data| && 0 <= j' < |t.data[i']| &&
      t.data[i][j].key == t.data[i'][j'].key
      ensures i == i' && j == j'
    {
      assert Hash(t.data[i][j].key, t.size) == i;
      assert Hash(t.data[i'][j'].key, t.size) == i';
      assert UniqueKeys(t.data[i]);
    }
  }

  /** After `Insert` every node still sits in the bucket its key hashes to. */
  lemma InsertKeepsPlaced(t: Table, key: string, number: string)
    requires Valid(t)
    ensures Placed(Insert(t, key, number))
  {
    var t' := Insert(t, key, number);
    var h := Hash(key, t.size);
    InsertChainFacts(t.data[h], key, number);
    forall i, j | 0 <= i < |t'.data| && 0 <= j < |t'.data[i]|
      ensures Hash(t'.data[i][j].key, t'.size) == i
    {
      if i == h {
        var k := t'.data[i][j].key;
        assert t'.data[i][j] in t'.data[i];
        assert k in ChainKeys(t.data[h]) + {key};
        if k != key {
          var n :| n in t.data[h] && n.key == k;
          var m :| 0 <= m < |t.data[h]| && t.data[h][m] == n;
          assert Hash(t.data[h][m].key, t.size) == h;
        }
      }
    }
  }

  /** A key held by some bucket's chain is a stored key. */
  lemma InBucketInKeys(t: Table, i: nat, key: string)
    requires i < |t.data| && key in ChainKeys(t.data[i])
    ensures key in Keys(t)
  {
    var n :| n in t.data[i] && n.key == key;
    var m :| 0 <= m < |t.data[i]| && t.data[i][m] == n;
    assert t.data[i][m].key in Keys(t);
  }

  /** A stored key is held by the chain of some bucket. */
  lemma BucketOf(t: Table, key: string) returns (i: nat)
    requires key in Keys(t)
    ensures i < |t.data| && key in ChainKeys(t.data[i])
  {
    var i', j :| 0 <= i' < |t.data| && 0 <= j < |t.data[i']| && t.data[i'][j].key == key;
    assert t.data[i'][j] in t.data[i'];
    i := i';
  }

  /** `Insert` adds exactly its key to the stored keys. */
  lemma InsertKeys(t: Table, key: string, number: string)
    requires WellFormed(t)
    ensures Keys(Insert(t, key, number)) == Keys(t) + {key}
  {
    var t' := Insert(t, key, number);
    var h := Hash(key, t.size);
    InsertChainFacts(t.data[h], key, number);
    forall k | k in Keys(t')
      ensures k in Keys(t) + {key}
    {
      var i := BucketOf(t', k);
      if i == h {
        if k != key {
          InBucketInKeys(t, h, k);
        }
      } else {
        InBucketInKeys(t, i, k);
      }
    }
    forall k | k in Keys(t) + {key}
      ensures k in Keys(t')
    {
      if k == key {
        InBucketInKeys(t', h, key);
      } else {
        var i := BucketOf(t, k);
        InBucketInKeys(t', i, k);
      }
    }
  }

  /** `Insert` keeps the invariant and adds exactly its key to the stored keys. */
  lemma InsertPreservesValid(t: Table, key: string, number: string)
    requires Valid(t)
    ensures Valid(Insert(t, key, number))
    ensures Keys(Insert(t, key, number)) == Keys(t) + {key}
  {
    InsertChainFacts(t.data[Hash(key, t.size)], key, number);
    InsertKeepsPlaced(t, key, number);
    InsertKeys(t, key, number);
  }

  /** In a valid table, search finds a record exactly for the stored keys, filed under its own name. */
  lemma SearchFindsStoredKeys(t: Table, key: string)
    requires Valid(t)
    ensures Search(t, key).Some? <==> key in Keys(t)
    ensures Search(t, key).Some? ==> Search(t, key).value.name == key
  {
    var chain := t.data[Hash(key, t.size)];
    KeysInOwnBucket(t, key);
    ChainKeysAt(chain, key);
  }

  /** After `insert(k, n)`, `search(k)` returns a record with number `n`, named `k` in a valid table. */
  lemma InsertThenSearch(t: Table, key: string, number: string)
    requires WellFormed(t)
    ensures Search(Insert(t, key, number), key).Some?
    ensures Search(Insert(t, key, number), key).value.number == number
    ensures Valid(t) ==> Search(Insert(t, key, number), key) == Some(Contact(key, number))
  {
    SearchChainAfterInsert(t.data[Hash(key, t.size)], key, number);
  }

  /** After `insert(k, n)`, searching any other key gives what it gave before, colliding or not. */
  lemma InsertKeepsOtherSearches(t: Table, key: string, other: string, number: string)
    requires WellFormed(t)
    requires other != key
    ensures Search(Insert(t, key, number), other) == Search(t, other)
  {
    if Hash(other, t.size) == Hash(key, t.size) {
      SearchChainOtherKey(t.data[Hash(key, t.size)], key, other, number);
    }
  }

  /** An update leaves the entry count unchanged; a new key adds exactly one entry. */
  lemma InsertCount(t: Table, key: string, number: string)
    requires Valid(t)
    ensures Count(Insert(t, key, number)) == Count(t) + (if key in Keys(t) then 0 else 1)
  {
    var h := Hash(key, t.size);
    KeysInOwnBucket(t, key);
    InsertChainFacts(t.data[h], key, number);
    TotalLengthUpdate(t.data, h, InsertChain(t.data[h], key, number));
  }

  /** The keys stored in buckets `0` to `n - 1`. */
  function KeysBelow(t: Table, n: nat): set<string>
    requires n <= |t.data|
  {
    set i, j | 0 <= i < n && 0 <= j < |t.data[i]| :: t.data[i][j].key
  }

  /** In a chain without repeated keys the last key is not among the earlier ones. */
  lemma LastKeyIsNew(chain: Chain)
    requires UniqueKeys(chain) && |chain| > 0
    ensures chain[|chain| - 1].key !in ChainKeys(chain[..|chain| - 1])
  {
    var prefix := chain[..|chain| - 1];
    forall x | x in prefix
      ensures x.key != chain[|chain| - 1].key
    {
      var m :| 0 <= m < |prefix| && prefix[m] == x;
      assert chain[m] == x;
    }
  }

  /** A chain with unique keys has as many keys as nodes. */
  lemma {:induction false} ChainKeysCount(chain: Chain)
    requires UniqueKeys(chain)
    ensures |ChainKeys(chain)| == |chain|
  {
    if |chain| > 0 {
      var last := chain[|chain| - 1];
      var prefix := chain[..|chain| - 1];
      assert UniqueKeys(prefix);
      ChainKeysCount(prefix);
      LastKeyIsNew(chain);
      assert prefix + [last] == chain;
      AppendKeys(prefix, last);
      assert |ChainKeys(prefix) + {last.key}| == |ChainKeys(prefix)| + 1;
    }
  }

  /** The keys below bucket `n` are those below `n - 1` and those of bucket `n - 1`. */
  lemma KeysBelowStep(t: Table, n: nat)
    requires 0 < n <= |t.data|
    ensures KeysBelow(t, n) == KeysBelow(t, n - 1) + ChainKeys(t.data[n - 1])
  {
    var chain := t.data[n - 1];
    forall k | k in KeysBelow(t, n)
      ensures k in KeysBelow(t, n - 1) + ChainKeys(chain)
    {
      var i, j :| 0 <= i < n && 0 <= j < |t.data[i]| && t.data[i][j].key == k;
      if i == n - 1 {
        assert t.data[i][j] in chain;
      } else {
        assert t.data[i][j].key in KeysBelow(t, n - 1);
      }
    }
    forall k | k in ChainKeys(chain)
      ensures k in KeysBelow(t, n)
    {
      var node :| node in chain && node.key == k;
      var m :| 0 <= m < |chain| && chain[m] == node;
      assert t.data[n - 1][m].key in KeysBelow(t, n);
    }
  }

  /** In a valid table bucket `n - 1` shares no key with the buckets below it. */
  lemma KeysBelowDisjoint(t: Table, n: nat)
    requires Valid(t)
    requires 0 < n <= |t.data|
    ensures KeysBelow(t, n - 1) !! ChainKeys(t.data[n - 1])
  {
    var chain := t.data[n - 1];
    forall node | node in chain
      ensures node.key !in KeysBelow(t, n - 1)
    {
      var m :| 0 <= m < |chain| && chain[m] == node;
      assert Hash(t.data[n - 1][m].key, t.size) == n - 1;
      forall i, j | 0 <= i < n - 1 && 0 <= j < |t.data[i]|
        ensures t.data[i][j].key != node.key
      {
        assert Hash(t.data[i][j].key, t.size) == i;
      }
    }
  }

  /** In a valid table the first `n` buckets hold as many distinct keys as nodes. */
  lemma {:induction false} KeysBelowCount(t: Table, n: nat)
    requires Valid(t)
    requires n <= |t.data|
    ensures |KeysBelow(t, n)| == TotalLength(t.data[..n])
  {
    if n > 0 {
      KeysBelowCount(t, n - 1);
      ChainKeysCount(t.data[n - 1]);
      KeysBelowStep(t, n);
      KeysBelowDisjoint(t, n);
      assert t.data[..n][..n - 1] == t.data[..n - 1];
    }
  }

  /** A valid table holds exactly one entry per stored key. */
  lemma ValidCount(t: Table)
    requires Valid(t)
    ensures Count(t) == |Keys(t)|
  {
    KeysBelowCount(t, |t.data|);
    assert t.data[..|t.data|] == t.data;
    assert KeysBelow(t, |t.data|) == Keys(t);
  }
}
