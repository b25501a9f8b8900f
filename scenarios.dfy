/**
 * Uses of prefix_tree that exercise its promises together: what insert then
 * lookup gives, overwriting, strict prefixes, and findNode after insert.
 */
module TrieScenarios {
  import opened Optional
  import opened TrieShape
  import opened Trie

  /**
   * insert followed by lookup: the inserted key finds its value, and any other
   * key finds what it found before the insert.
   */
  method InsertThenLookup<K(==, !new), V>(t: PrefixTree<K, V>, k: seq<K>, v: V, other: seq<K>)
      returns (r: Option<V>, s: Option<V>)
    requires t.Valid()
    modifies t.Repr
    ensures t.Valid() && r == Some(v)
    ensures s == if other == k then Some(v) else old(Get(t.Contents(), other))
  {
    t.Insert(k, v);
    r := t.Lookup(k);
    s := t.Lookup(other);
  }

  /** A second insert at the same key overwrites the first value. */
  method InsertTwice<K(==, !new), V>(t: PrefixTree<K, V>, k: seq<K>, v: V, w: V) returns (r: Option<V>)
    requires t.Valid()
    modifies t.Repr
    ensures t.Valid() && r == Some(w)
    ensures t.Contents() == old(t.Contents())[k := w]
  {
    ghost var before := t.Contents();
    t.Insert(k, v);
    t.Insert(k, w);
    assert before[k := v][k := w] == before[k := w];
    r := t.Lookup(k);
  }

  /**
   * After inserting k into an empty tree, a strict prefix of k has a node, so
   * findNode succeeds on it, but the node holds no value, so lookup finds nothing.
   */
  method StrictPrefix<K(==, !new), V>(k: seq<K>, v: V, j: nat) returns (n: Node?<K, V>, r: Option<V>)
    requires j < |k|
    ensures n != null && r == None
  {
    var t := new PrefixTree<K, V>();
    t.Insert(k, v);
    assert k[..j] in Prefixes(k);
    n := t.FindNode(k[..j]);
    r := t.Lookup(k[..j]);
  }

  /** After insert, findNode succeeds on every prefix of the inserted key. */
  method FindAfterInsert<K(==, !new), V>(t: PrefixTree<K, V>, k: seq<K>, v: V, j: nat) returns (n: Node?<K, V>)
    requires t.Valid() && j <= |k|
    modifies t.Repr
    ensures t.Valid() && n != null && n == t.PointAt(k[..j])
  {
    t.Insert(k, v);
    assert k[..j] in Prefixes(k);
    n := t.FindNode(k[..j]);
  }

  /**
   * Points taken before an insert remain valid after it: insert only adds nodes, so
   * the point of a path that had one, the root's included, is the same afterwards.
   */
  method PointsSurviveInsert<K(==, !new), V>(t: PrefixTree<K, V>, at: seq<K>, k: seq<K>, v: V)
      returns (n: Node?<K, V>, m: Node?<K, V>, r: Node<K, V>, s: Node<K, V>)
    requires t.Valid()
    modifies t.Repr
    ensures t.Valid() && (n != null ==> m == n) && s == r
  {
    n := t.FindNode(at);
    r := t.RootPoint();
    t.Insert(k, v);
    m := t.FindNode(at);
    s := t.RootPoint();
  }
}
