/**
 A fixed-size, separate-chaining hash table from a contact name to a contact
 record. Each bucket's linked chain of nodes is modelled as a sequence
 in chain order: following `next` is moving to the next element, and linking a
 new node after the last one is appending to the sequence. An empty sequence
 is a bucket whose head is `None`.
 */
module HashTable {
  import opened Wrappers

  /** A contact: the name it is filed under and its phone number. */
  datatype Contact = Contact(name: string, number: string)

  /** One link of a chain: the key it is stored under and its record. */
  datatype Node = Node(key: string, value: Contact)

  /** The nodes of one bucket, head first. */
  type Chain = seq<Node>

  /** `size` buckets; `data[i]` is the chain at index `i`. */
  datatype Table = Table(size: nat, data: seq<Chain>)

  /** The bucket count the constructor uses when none is given. */
  const DefaultSize: nat := 10

  /** The table has a usable bucket count and one chain per bucket. */
  predicate WellFormed(t: Table) {
    t.size > 0 && |t.data| == t.size
  }

  /** Sum of (position + 1) * code point over the key, positions counted from 0. */
  function WeightedSum(key: string): nat {
    if |key| == 0 then 0
    else WeightedSum(key[..|key| - 1]) + |key| * (key[|key| - 1] as int)
  }

  /** The bucket index of `key`. */
  function Hash(key: string, size: nat): (idx: nat)
    requires size > 0
    ensures idx < size
  {
    WeightedSum(key) % size
  }

  /** A table of `size` empty buckets, 10 unless given. */
  function New(size: nat := DefaultSize): (t: Table)
    requires size > 0
    ensures WellFormed(t) && t.size == size
    ensures forall i :: 0 <= i < size ==> t.data[i] == []
  {
    Table(size, seq(size, _ => []))
  }

  /** The node created for a key seen for the first time: its record carries the key as name. */
  function NewNode(key: string, number: string): Node {
    Node(key, Contact(key, number))
  }

  /** The node with its record's number overwritten, everything else kept. */
  function SetNumber(n: Node, number: string): Node {
    n.(value := n.value.(number := number))
  }

  /** Position of the first node whose key is exactly `key`, if any. */
  function IndexOf(chain: Chain, key: string): (r: Option<nat>)
    ensures r.Some? ==> r.value < |chain| && chain[r.value].key == key
    ensures r.Some? ==> forall j :: 0 <= j < r.value ==> chain[j].key != key
    ensures r.None? ==> forall j :: 0 <= j < |chain| ==> chain[j].key != key
  {
    if |chain| == 0 then None
    else if chain[0].key == key then Some(0)
    else match IndexOf(chain[1..], key)
      case None => None
      case Some(j) => Some(j + 1)
  }

  /** Walks the chain from its head and returns the record of the first matching node. */
  function SearchChain(chain: Chain, key: string): (r: Option<Contact>)
    ensures IndexOf(chain, key).None? ==> r == None
    ensures IndexOf(chain, key).Some? ==> r == Some(chain[IndexOf(chain, key).value].value)
  {
    if |chain| == 0 then None
    else if chain[0].key == key then Some(chain[0].value)
    else SearchChain(chain[1..], key)
  }

  /**
   Walks the chain from its head: the first node with the key gets the new
   number; with no such node a new one is linked after the last (or becomes
   the head of an empty bucket).
   */
  function InsertChain(chain: Chain, key: string, number: string): (r: Chain)
    ensures IndexOf(chain, key).None? ==> r == chain + [NewNode(key, number)]
    ensures IndexOf(chain, key).Some? ==>
      var j := IndexOf(chain, key).value;
      r == chain[j := SetNumber(chain[j], number)]
  {
    if |chain| == 0 then [NewNode(key, number)]
    else if chain[0].key == key then [SetNumber(chain[0], number)] + chain[1..]
    else [chain[0]] + InsertChain(chain[1..], key, number)
  }

  /** Add or update: only the bucket `key` hashes to is touched. */
  function Insert(t: Table, key: string, number: string): (t': Table)
    requires WellFormed(t)
    ensures WellFormed(t') && t'.size == t.size
    ensures t'.data[Hash(key, t.size)] == InsertChain(t.data[Hash(key, t.size)], key, number)
    ensures forall i :: 0 <= i < t.size && i != Hash(key, t.size) ==> t'.data[i] == t.data[i]
  {
    var idx := Hash(key, t.size);
    t.(data := t.data[idx := InsertChain(t.data[idx], key, number)])
  }

  /** The record filed under `key` in the bucket it hashes to, or `None`. */
  function Search(t: Table, key: string): (r: Option<Contact>)
    requires WellFormed(t)
    ensures r.Some? ==> exists n :: n in t.data[Hash(key, t.size)] && n.key == key && n.value == r.value
    ensures r.None? ==> forall n :: n in t.data[Hash(key, t.size)] ==> n.key != key
  {
    SearchChain(t.data[Hash(key, t.size)], key)
  }

  /** No key occurs twice in the chain. */
  predicate UniqueKeys(chain: Chain) {
    forall j, k :: 0 <= j < k < |chain| ==> chain[j].key != chain[k].key
  }

  /** Every record's name is the key of the node holding it. */
  predicate NamesMatch(chain: Chain) {
    forall j :: 0 <= j < |chain| ==> chain[j].value.name == chain[j].key
  }

  /** Every node of bucket `i` is there because its key hashes to `i`. */
  predicate Placed(t: Table)
    requires WellFormed(t)
  {
    forall i, j :: 0 <= i < |t.data| && 0 <= j < |t.data[i]| ==> Hash(t.data[i][j].key, t.size) == i
  }

  /** The invariant every table built by `New` and `Insert` keeps. */
  predicate Valid(t: Table) {
    && WellFormed(t)
    && Placed(t)
    && (forall i :: 0 <= i < |t.data| ==> UniqueKeys(t.data[i]) && NamesMatch(t.data[i]))
  }

  /** The keys stored in one chain. */
  function ChainKeys(chain: Chain): set<string> {
    set n | n in chain :: n.key
  }

  /** The keys stored anywhere in the table. */
  function Keys(t: Table): set<string> {
    set i, j | 0 <= i < |t.data| && 0 <= j < |t.data[i]| :: t.data[i][j].key
  }

  /** The number of nodes over all buckets. */
  function TotalLength(data: seq<Chain>): nat {
    if |data| == 0 then 0 else TotalLength(data[..|data| - 1]) + |data[|data| - 1]|
  }

  /** The number of entries the table holds. */
  function Count(t: Table): nat {
    TotalLength(t.data)
  }
}
