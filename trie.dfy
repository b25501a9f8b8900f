/**
 * A model of hobbes' generic prefix tree (include/hobbes/util/trie.H).
 *
 * A tree is a graph of heap-allocated nodes; each node holds a finite map from a
 * key element to a child node and an optional value. The tree's abstract value is
 * a finite map from key sequences to values, Contents(); the ghost map nodeAt
 * names the node that stands for each key sequence (path) that has one.
 */
module Trie {
  import opened Optional
  import opened TrieShape

  /** prefix_tree_node: a child per key element, and an optional value. */
  class Node<K(==, !new), V> {
    var children: map<K, Node<K, V>>
    var value: Option<V>
    /** The key sequence this node stands for, fixed when it is created. */
    ghost const path: seq<K>

    /** `new node_t` for the node of path: no children and no value. */
    constructor (ghost path: seq<K>)
      ensures children == map[] && value == None && this.path == path
    {
      this.path := path;
      children := map[];
      value := None;
    }

    /**
     * prefix_tree_node::values: append this node's value, if it holds one, and then
     * the values of each child's subtree, children in the child map's order. The node
     * stands for path at of tree t; ps reports the key of each value appended.
     */
    method Values(ghost t: PrefixTree<K, V>, ghost at: seq<K>, vs: seq<V>) returns (vs': seq<V>, ghost ps: seq<seq<K>>)
      requires t.Valid() && at in t.nodeAt && t.nodeAt[at] == this
      ensures |vs'| == |vs| + |ps| && vs'[..|vs|] == vs
      ensures forall i | 0 <= i < |ps| :: ps[i] in t.Contents() && t.Contents()[ps[i]] == vs'[|vs| + i]
      ensures forall q | q in t.Contents() && Extends(q, at) :: q in ps
      ensures forall i | 0 <= i < |ps| :: Extends(ps[i], at)
      ensures Distinct(ps) && AncestorsFirst(ps) && Contiguous(ps)
      decreases Below(t.nodeAt, at)
    {
      ghost var m := t.Contents();
      ghost var kids := t.kidsAt;
      assert kids[at] == children;
      CollectedStart(m, at, vs);
      vs', ps := vs, [];
      if value.Some? {
        vs', ps := vs' + [value.value], [at];
      }
      ghost var keys := children.Keys;
      var rest := children.Keys;
      ghost var done: set<K> := {};
      while rest != {}
        invariant rest !! done && rest + done == keys
        invariant Collected(m, at, vs, vs', ps, done)
        decreases rest
      {
        var c :| c in rest;
        var child := children[c];
        assert kids[at][c] == t.nodeAt[at + [c]];
        BelowShrinks(t.nodeAt, at, c);
        var more;
        ghost var cps;
        more, cps := child.Values(t, at + [c], vs');
        CollectedChild(m, at, vs, vs', ps, done, c, more, cps);
        ps, vs' := ps + cps, more;
        MoveOne(rest, done, keys, c);
        rest, done := rest - {c}, done + {c};
      }
      CollectedAll(t.nodeAt, kids, t.root, m, at, vs, vs', ps);
    }
  }

  /** prefix_tree: a root node and the nodes reachable from it. */
  class PrefixTree<K(==, !new), V> {
    var root: Node<K, V>
    /** The node that stands for each path that has one. */
    ghost var nodeAt: map<seq<K>, Node<K, V>>
    /** The child map of each path's node, as a value. */
    ghost var kidsAt: map<seq<K>, map<K, Node<K, V>>>
    /** The optional value of each path's node, as a value. */
    ghost var valAt: map<seq<K>, Option<V>>
    ghost var Repr: set<object>

    /** Every path's node belongs to the tree's representation. */
    ghost predicate NodesInRepr()
      reads this
    {
      forall p | p in nodeAt :: nodeAt[p] in Repr
    }

    /**
     * The nodes and their child maps have the shape of a tree rooted at root, and
     * kidsAt and valAt hold each path's node's child map and value.
     */
    ghost predicate Valid()
      reads this, Repr
    {
      && this in Repr && NodesInRepr() && Shaped(nodeAt, kidsAt, root) && valAt.Keys == nodeAt.Keys
      && forall p | p in nodeAt :: nodeAt[p].path == p && p in kidsAt && p in valAt && nodeAt[p].children == kidsAt[p] && nodeAt[p].value == valAt[p]
    }

    /** The abstract value: each path whose node holds a value, mapped to that value. */
    ghost function Contents(): (m: map<seq<K>, V>)
      reads this
    {
      Stored(valAt)
    }

    /** The point (node) that stands for path p, or null when no node does. */
    ghost function PointAt(p: seq<K>): (n: Node?<K, V>)
      reads this
    {
      if p in nodeAt then nodeAt[p] else null
    }

    /** prefix_tree(): a lone root node with no value. */
    constructor ()
      ensures Valid() && fresh(Repr)
      ensures nodeAt.Keys == {[]} && Contents() == map[]
    {
      var n := new Node([]);
      root := n;
      nodeAt := map[[] := n];
      kidsAt := map[[] := map[]];
      valAt := map[[] := None];
      Repr := {this, n};
    }

    /**
     * findNode: walk the path from the root without changing anything; the node
     * for the path, or null once a key element has no child.
     */
    method FindNode(k: seq<K>) returns (n: Node?<K, V>)
      requires Valid()
      ensures n == PointAt(k)
    {
      ghost var kids := kidsAt;
      n := root;
      var i := 0;
      while i < |k|
        invariant 0 <= i <= |k|
        invariant k[..i] in nodeAt && n == nodeAt[k[..i]]
      {
        assert kids[k[..i]] == n.children;
        assert k[..i + 1] == k[..i] + [k[i]];
        if k[i] !in n.children {
          AbsentPrefix(nodeAt, kids, root, k, i + 1);
          return null;
        }
        assert kids[k[..i]][k[i]] == nodeAt[k[..i] + [k[i]]];
        n := n.children[k[i]];
        i := i + 1;
      }
      assert k[..i] == k;
    }

    /**
     * One step of makeNode's walk where key c has no child under r, the node for p:
     * `r->children[c]` becomes a fresh node with no children and no value.
     */
    method AddChild(r: Node<K, V>, ghost p: seq<K>, c: K) returns (nr: Node<K, V>)
      requires Valid() && p in nodeAt && nodeAt[p] == r && c !in r.children
      modifies this, r
      ensures Valid() && fresh(nr) && Repr == old(Repr) + {nr}
      ensures p + [c] !in old(nodeAt) && nodeAt == old(nodeAt)[p + [c] := nr]
      ensures valAt == old(valAt)[p + [c] := None]
    {
      assert p + [c] !in nodeAt by {
        assert kidsAt[p] == r.children;
      }
      nr := new Node(p + [c]);
      r.children := r.children[c := nr];
      nodeAt, kidsAt := nodeAt[p + [c] := nr], kidsAt[p := kidsAt[p][c := nr]][p + [c] := map[]];
      valAt, Repr := valAt[p + [c] := None], Repr + {nr};
      assert Parent(nr.path) == p;
      AddChildValid(nr);
    }

    /**
     * What AddChild does to the heap keeps the tree valid: only the parent's child
     * map and the representation change, and the new node, whose path is its
     * parent's path followed by one key element, is the node of that path.
     */
    twostate lemma AddChildValid(new nr: Node<K, V>)
      requires old(Valid()) && fresh(nr) && nr.path != [] && nr.children == map[] && nr.value == None
      requires var p, c := Parent(nr.path), Last(nr.path);
        && p in old(nodeAt) && nr.path !in old(nodeAt)
        && old(nodeAt[p]).children == old(nodeAt[p].children)[c := nr]
        && old(nodeAt[p]).value == old(nodeAt[p].value)
        && unchanged(old(Repr) - {this, old(nodeAt[p])})
        && root == old(root) && Repr == old(Repr) + {nr}
        && nodeAt == old(nodeAt)[nr.path := nr] && valAt == old(valAt)[nr.path := None]
        && kidsAt == old(kidsAt)[p := old(kidsAt)[p][c := nr]][nr.path := map[]]
      ensures Valid()
    {
      ghost var p, c := Parent(nr.path), Last(nr.path);
      assert nr.path == p + [c];
      ghost var nodes, kids := old(nodeAt), old(kidsAt);
      ghost var r := nodes[p];
      assert c !in kids[p];
      forall q | q in nodeAt
        ensures nodeAt[q].children == kidsAt[q] && nodeAt[q].value == valAt[q]
      {
        if q != p && q != p + [c] {
          assert nodes[q] in old(Repr) && nodes[q] != r && nodes[q].path == q;
        }
      }
      AddChildShaped(nodes, kids, root, p, c, nr);
    }

    /**
     * One step of makeNode's walk, `r->children[c]` followed by creating the child
     * when it is missing: the node for p + [c], which has a node afterwards. The
     * contents do not change.
     */
    method ChildOrNew(r: Node<K, V>, ghost p: seq<K>, c: K) returns (nr: Node<K, V>)
      requires Valid() && p in nodeAt && nodeAt[p] == r
      modifies this, r
      ensures Valid() && forall o | o in Repr :: o in old(Repr) || fresh(o)
      ensures p + [c] in nodeAt && nr == nodeAt[p + [c]]
      ensures p + [c] in old(nodeAt) ==> nr == old(nodeAt[p + [c]])
      ensures nodeAt == old(nodeAt)[p + [c] := nr]
      ensures nodeAt.Keys == old(nodeAt.Keys) + {p + [c]}
      ensures Contents() == old(Contents())
    {
      assert kidsAt[p] == r.children;
      if c in r.children {
        assert kidsAt[p][c] == nodeAt[p + [c]];
        nr := r.children[c];
        assert nodeAt == nodeAt[p + [c] := nr];
      } else {
        StoredNewPath(valAt, p + [c]);
        nr := AddChild(r, p, c);
      }
    }

    /**
     * makeNode: walk the path from the root, creating each missing node as an empty
     * child, and return the node for the whole path. The new paths are exactly the
     * prefixes of k that had no node, and the contents do not change.
     */
    method MakeNode(k: seq<K>) returns (r: Node<K, V>)
      requires Valid()
      modifies Repr
      ensures Valid() && fresh(Repr - old(Repr))
      ensures k in nodeAt && r == nodeAt[k]
      ensures nodeAt.Keys == old(nodeAt.Keys) + Prefixes(k)
      ensures forall q | q in old(nodeAt) :: nodeAt[q] == old(nodeAt[q])
      ensures Contents() == old(Contents())
    {
      r := root;
      var i := 0;
      assert Prefixes(k[..0]) == {[]} by {
        assert k[..0][..0] in Prefixes(k[..0]);
      }
      while i < |k|
        invariant 0 <= i <= |k|
        invariant Valid()
        invariant forall o | o in Repr :: o in old(Repr) || fresh(o)
        invariant k[..i] in nodeAt && r == nodeAt[k[..i]]
        invariant nodeAt.Keys == old(nodeAt.Keys) + Prefixes(k[..i])
        invariant forall q | q in old(nodeAt) :: q in nodeAt && nodeAt[q] == old(nodeAt[q])
        invariant Contents() == old(Contents())
      {
        ghost var before := nodeAt;
        r := ChildOrNew(r, k[..i], k[i]);
        PrefixesExtend(old(nodeAt.Keys), before.Keys, nodeAt.Keys, k, i);
        KeepsEntries(old(nodeAt), before, nodeAt, k[..i] + [k[i]], r);
        i := i + 1;
      }
      assert k[..i] == k;
    }

    /** `*makeNode(k) = v`: the node for path k now holds v, and nothing else changes. */
    method SetValue(r: Node<K, V>, ghost k: seq<K>, v: V)
      requires Valid() && k in nodeAt && nodeAt[k] == r
      modifies this, r
      ensures Valid() && Repr == old(Repr) && nodeAt == old(nodeAt)
      ensures Contents() == old(Contents())[k := v]
    {
      StoredSet(valAt, k, v);
      r.value := Some(v);
      valAt := valAt[k := Some(v)];
      assert Valid() by {
        forall p | p in nodeAt
          ensures nodeAt[p].value == valAt[p]
        {
          if p != k {
            assert nodeAt[p].path != nodeAt[k].path;
          }
        }
      }
    }

    /** insert: store v at the node for k, creating the path to it as needed. */
    method Insert(k: seq<K>, v: V)
      requires Valid()
      modifies Repr
      ensures Valid() && fresh(Repr - old(Repr))
      ensures Contents() == old(Contents())[k := v]
      ensures nodeAt.Keys == old(nodeAt.Keys) + Prefixes(k)
      ensures forall q | q in old(nodeAt) :: nodeAt[q] == old(nodeAt[q])
    {
      var r := MakeNode(k);
      SetValue(r, k, v);
    }

    /** lookup: the value stored for k, or None when k has no node or its node holds no value. */
    method Lookup(k: seq<K>) returns (r: Option<V>)
      requires Valid()
      ensures r == Get(Contents(), k)
    {
      var n := FindNode(k);
      if n == null {
        r := None;
      } else {
        r := n.value;
      }
    }

    /**
     * The three ways lookup finds nothing: k has no node, k's node holds no value
     * (a strict prefix of an inserted key is one such node), and no other way.
     */
    lemma LookupNone(k: seq<K>)
      requires Valid()
      ensures k !in Contents() <==> k !in nodeAt || nodeAt[k].value == None
    {
      if k in nodeAt {
        assert nodeAt[k].value == valAt[k];
      }
    }

    /**
     * values(vs): append to vs every stored value, each exactly once, in pre-order:
     * a node's own value first, then each child's subtree as one block. ks reports
     * the key of each value appended.
     */
    method ValuesInto(vs: seq<V>) returns (vs': seq<V>, ghost ks: seq<seq<K>>)
      requires Valid()
      ensures |vs'| == |vs| + |ks| && vs'[..|vs|] == vs && |ks| == |Contents()|
      ensures forall i | 0 <= i < |ks| :: ks[i] in Contents() && Contents()[ks[i]] == vs'[|vs| + i]
      ensures forall k | k in Contents() :: k in ks
      ensures forall k | k in Contents() :: Contents()[k] in vs'[|vs|..]
      ensures Distinct(ks) && AncestorsFirst(ks) && Contiguous(ks)
    {
      vs', ks := root.Values(this, [], vs);
      assert (set k | k in ks) == Contents().Keys;
      DistinctCard(ks);
      forall k | k in Contents() ensures Contents()[k] in vs'[|vs|..] {
        var i :| 0 <= i < |ks| && ks[i] == k;
        assert vs'[|vs|..][i] == vs'[|vs| + i];
      }
    }

    /** values(): the same walk into a new, empty sequence. */
    method Values() returns (vs: seq<V>, ghost ks: seq<seq<K>>)
      requires Valid()
      ensures |vs| == |ks| == |Contents()|
      ensures forall i | 0 <= i < |ks| :: ks[i] in Contents() && Contents()[ks[i]] == vs[i]
      ensures forall k | k in Contents() :: k in ks
      ensures forall k | k in Contents() :: Contents()[k] in vs
      ensures Distinct(ks) && AncestorsFirst(ks) && Contiguous(ks)
    {
      vs, ks := ValuesInto([]);
      assert vs[0..] == vs;
    }

    /** rootPoint: the point where an incremental search starts, the empty path's node. */
    method RootPoint() returns (n: Node<K, V>)
      requires Valid()
      ensures n == PointAt([])
    {
      n := root;
    }

    /**
     * moveTo: from the point for path at, the point for at extended by c, or null
     * when that path has no node.
     */
    method MoveTo(c: K, base: Node<K, V>, ghost at: seq<K>) returns (n: Node?<K, V>)
      requires Valid() && at in nodeAt && nodeAt[at] == base
      ensures n == PointAt(at + [c])
    {
      assert kidsAt[at] == base.children;
      if c in base.children {
        assert kidsAt[at][c] == nodeAt[at + [c]];
        n := base.children[c];
      } else {
        n := null;
      }
    }

    /** valueAt: the value stored at the point for path at, if any. */
    method ValueAt(base: Node<K, V>, ghost at: seq<K>) returns (r: Option<V>)
      requires Valid() && at in nodeAt && nodeAt[at] == base
      ensures r == Get(Contents(), at)
    {
      r := base.value;
    }

    /**
     * The child map of the point for path at says where moveTo goes: c is a child
     * key exactly when at + [c] has a point, and the child is that point.
     */
    lemma ChildPoint(at: seq<K>, c: K)
      requires Valid() && at in nodeAt
      ensures c in nodeAt[at].children <==> PointAt(at + [c]) != null
      ensures c in nodeAt[at].children ==> nodeAt[at].children[c] == PointAt(at + [c])
    {
      assert kidsAt[at] == nodeAt[at].children;
      if c in kidsAt[at] {
        assert kidsAt[at][c] == nodeAt[at + [c]];
      }
    }

    /**
     * keysAt: append to ks each key element under which the point base has a child,
     * each exactly once, in the child map's order.
     */
    method KeysAt(ks: seq<K>, base: Node<K, V>) returns (ks': seq<K>)
      ensures |ks'| == |ks| + |base.children| && ks'[..|ks|] == ks
      ensures forall c | c in base.children :: c in ks'[|ks|..]
      ensures forall i | |ks| <= i < |ks'| :: ks'[i] in base.children
      ensures Distinct(ks'[|ks|..])
    {
      var added: seq<K> := [];
      var rest := base.children.Keys;
      while rest != {}
        invariant rest <= base.children.Keys && |added| + |rest| == |base.children|
        invariant forall c | c in base.children && c !in rest :: c in added
        invariant forall i | 0 <= i < |added| :: added[i] in base.children && added[i] !in rest
        invariant Distinct(added)
        decreases rest
      {
        var c :| c in rest;
        added := added + [c];
        rest := rest - {c};
      }
      ks' := ks + added;
      assert ks'[..|ks|] == ks && ks'[|ks|..] == added;
    }

    /**
     * keyPointsAt: append to kps each key element under which the point base has a
     * child, paired with the point moveTo reaches from base by that key, each key
     * exactly once, in the child map's order.
     */
    method KeyPointsAt(kps: seq<(K, Node<K, V>)>, base: Node<K, V>) returns (kps': seq<(K, Node<K, V>)>)
      ensures |kps'| == |kps| + |base.children| && kps'[..|kps|] == kps
      ensures forall c | c in base.children :: (c, base.children[c]) in kps'[|kps|..]
      ensures forall i | |kps| <= i < |kps'| :: kps'[i].0 in base.children && kps'[i].1 == base.children[kps'[i].0]
      ensures forall i, j | |kps| <= i < j < |kps'| :: kps'[i].0 != kps'[j].0
    {
      var added: seq<(K, Node<K, V>)> := [];
      var rest := base.children.Keys;
      while rest != {}
        invariant rest <= base.children.Keys && |added| + |rest| == |base.children|
        invariant forall c | c in base.children && c !in rest :: (c, base.children[c]) in added
        invariant forall i | 0 <= i < |added| ::
                    added[i].0 in base.children && added[i].0 !in rest && added[i].1 == base.children[added[i].0]
        invariant forall i, j | 0 <= i < j < |added| :: added[i].0 != added[j].0
        decreases rest
      {
        var c :| c in rest;
        added := added + [(c, base.children[c])];
        rest := rest - {c};
      }
      kps' := kps + added;
      assert kps'[..|kps|] == kps && kps'[|kps|..] == added;
    }
  }

  /**
   * An incremental search: from rootPoint, moveTo along each key element of k, stopping
   * at null, then valueAt. It finds exactly what lookup finds.
   */
  method IncrementalLookup<K(==, !new), V>(t: PrefixTree<K, V>, k: seq<K>) returns (r: Option<V>)
    requires t.Valid()
    ensures r == Get(t.Contents(), k)
  {
    var n: Node?<K, V> := t.RootPoint();
    var i := 0;
    while i < |k| && n != null
      invariant 0 <= i <= |k|
      invariant n == t.PointAt(k[..i])
    {
      n := t.MoveTo(k[i], n, k[..i]);
      assert k[..i + 1] == k[..i] + [k[i]];
      i := i + 1;
    }
    if n == null {
      AbsentPrefix(t.nodeAt, t.kidsAt, t.root, k, i);
      r := None;
    } else {
      assert k[..i] == k;
      r := t.ValueAt(n, k);
    }
  }
}
