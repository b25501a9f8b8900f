/**
 * The shape of a prefix tree, stated on values: which key sequence (path) has a node,
 * and what each node's child map is. The heap-based tree in module Trie is valid
 * exactly when its ghost path map and its nodes' child maps have this shape, so every
 * structural argument about it is made here, on maps and sequences alone.
 */
module TrieShape {

  import opened Optional

  /** The values held at the paths of vals that hold one: a tree's abstract contents. */
  ghost function Stored<K, V>(vals: map<seq<K>, Option<V>>): (m: map<seq<K>, V>)
  {
    map p | p in vals && vals[p].Some? :: vals[p].value
  }

  /** A new path without a value adds nothing to the contents. */
  lemma StoredNewPath<K, V>(vals: map<seq<K>, Option<V>>, p: seq<K>)
    requires p !in vals
    ensures Stored(vals[p := None]) == Stored(vals)
  {
    assert Stored(vals[p := None]).Keys == Stored(vals).Keys;
  }

  /** Giving path p the value v makes the contents hold v at p and changes nothing else. */
  lemma StoredSet<K, V>(vals: map<seq<K>, Option<V>>, p: seq<K>, v: V)
    ensures Stored(vals[p := Some(v)]) == Stored(vals)[p := v]
  {
    assert Stored(vals[p := Some(v)]).Keys == Stored(vals)[p := v].Keys;
  }

  /** The key sequences p[..0], p[..1], ..., p[..|p|]: every prefix of p, the empty one included. */
  ghost function Prefixes<K>(p: seq<K>): (ps: set<seq<K>>)
  {
    set i | 0 <= i <= |p| :: p[..i]
  }

  /** The prefixes of k[..i + 1] are those of k[..i] and k[..i + 1] itself. */
  lemma PrefixesStep<K>(k: seq<K>, i: nat)
    requires i < |k|
    ensures Prefixes(k[..i + 1]) == Prefixes(k[..i]) + {k[..i + 1]}
  {
    var next := k[..i + 1];
    forall j | 0 <= j <= i ensures k[..i][..j] == k[..j] == next[..j] { }
    assert next[..i + 1] == next;
  }

  /**
   * One more step along k: a set that held done and the first i + 1 prefixes of
   * k, and gains k[..i] + [k[i]], holds done and the first i + 2 prefixes.
   */
  lemma PrefixesExtend<K>(done: set<seq<K>>, before: set<seq<K>>, after: set<seq<K>>, k: seq<K>, i: nat)
    requires i < |k| && before == done + Prefixes(k[..i]) && after == before + {k[..i] + [k[i]]}
    ensures k[..i] + [k[i]] == k[..i + 1] && after == done + Prefixes(k[..i + 1])
  {
    assert k[..i] + [k[i]] == k[..i + 1];
    PrefixesStep(k, i);
  }

  /** A non-empty path without its last key element. */
  function Parent<K>(p: seq<K>): (q: seq<K>)
    requires p != []
  {
    p[..|p| - 1]
  }

  /** The last key element of a non-empty path. */
  function Last<K>(p: seq<K>): (c: K)
    requires p != []
  {
    p[|p| - 1]
  }

  /** Proof helper: moving one element c from rest to done keeps the two a partition of all. */
  lemma MoveOne<T>(rest: set<T>, done: set<T>, all: set<T>, c: T)
    requires c in rest && rest !! done && rest + done == all
    ensures rest - {c} !! done + {c} && (rest - {c}) + (done + {c}) == all
  {
  }

  /**
   * Proof helper: a map that agrees with base on base's keys still does after
   * setting key to val, when key either is new or already held val.
   */
  lemma KeepsEntries<A, B>(base: map<A, B>, before: map<A, B>, after: map<A, B>, key: A, val: B)
    requires forall q | q in base :: q in before && before[q] == base[q]
    requires after == before[key := val] && (key in before ==> val == before[key])
    ensures forall q | q in base :: q in after && after[q] == base[q]
  {
  }

  /** q continues p: p is a prefix of q (possibly q itself). */
  predicate Extends<K(==)>(q: seq<K>, p: seq<K>)
  {
    |p| <= |q| && q[..|p|] == p
  }

  /** The elements of s are pairwise distinct. */
  predicate Distinct<T(==)>(s: seq<T>)
  {
    forall i, j | 0 <= i < j < |s| :: s[i] != s[j]
  }

  /** No key of ps is followed, later in ps, by one of its own prefixes: ancestors come first. */
  predicate AncestorsFirst<K(==)>(ps: seq<seq<K>>)
  {
    forall i, j | 0 <= i < j < |ps| :: !Extends(ps[i], ps[j])
  }

  /**
   * The keys of ps that continue any path q form one unbroken block: between two
   * keys under q there is no key outside q's subtree.
   */
  ghost predicate Contiguous<K(!new)>(ps: seq<seq<K>>)
  {
    forall i, j, l, q | 0 <= i < j < l < |ps| && Extends(ps[i], q) && Extends(ps[l], q) :: Extends(ps[j], q)
  }

  /** Continuing is transitive: what continues at continues every prefix of at. */
  lemma ExtendsTrans<K>(z: seq<K>, at: seq<K>, q: seq<K>)
    requires Extends(z, at) && Extends(at, q)
    ensures Extends(z, q)
  {
    assert z[..|q|] == z[..|at|][..|q|];
  }

  /**
   * A key x that is at itself or under a child of at in done and a key y under the
   * child c of at, c not in done, have no common prefix longer than at.
   */
  lemma CommonAbove<K>(x: seq<K>, y: seq<K>, q: seq<K>, at: seq<K>, c: K, done: set<K>)
    requires Extends(x, q) && Extends(y, q) && Extends(y, at + [c]) && c !in done
    requires x == at || (|x| > |at| && Extends(x, at) && x[|at|] in done)
    ensures Extends(at, q)
  {
    assert y[..|at| + 1] == at + [c];
    assert y[..|at|] == at by {
      assert y[..|at|] == y[..|at| + 1][..|at|];
    }
    assert y[|at|] == c by {
      assert y[|at|] == y[..|at| + 1][|at|];
    }
    if x != at {
      assert x[|at|] != y[|at|];
      assert forall i | 0 <= i < |q| :: x[i] == q[i] == y[i] by {
        forall i | 0 <= i < |q| ensures x[i] == q[i] == y[i] {
          assert x[i] == x[..|q|][i] && y[i] == y[..|q|][i];
        }
      }
    }
    assert |q| <= |at|;
    assert at[..|q|] == y[..|at|][..|q|] == y[..|q|];
  }

  /**
   * Appending the keys collected under the child c of at (not yet done) to keys
   * collected under at and its done children keeps every subtree's keys together.
   */
  lemma AppendContiguous<K(!new)>(ps: seq<seq<K>>, cps: seq<seq<K>>, at: seq<K>, c: K, done: set<K>)
    requires Contiguous(ps) && Under(ps, at, done)
    requires Contiguous(cps) && forall j | 0 <= j < |cps| :: Extends(cps[j], at + [c])
    requires c !in done
    ensures Contiguous(ps + cps)
  {
    var all := ps + cps;
    assert Extends(at + [c], at) by {
      assert (at + [c])[..|at|] == at;
    }
    forall i, j, l, q | 0 <= i < j < l < |all| && Extends(all[i], q) && Extends(all[l], q)
      ensures Extends(all[j], q)
    {
      if l < |ps| {
        assert all[i] == ps[i] && all[j] == ps[j] && all[l] == ps[l];
      } else if |ps| <= i {
        assert all[i] == cps[i - |ps|] && all[j] == cps[j - |ps|] && all[l] == cps[l - |ps|];
      } else {
        assert all[i] == ps[i] && all[l] == cps[l - |ps|];
        CommonAbove(ps[i], cps[l - |ps|], q, at, c, done);
        if j < |ps| {
          assert all[j] == ps[j];
          if ps[j] != at {
            ExtendsTrans(ps[j], at, q);
          }
        } else {
          assert all[j] == cps[j - |ps|];
          ExtendsTrans(cps[j - |ps|], at + [c], at);
          ExtendsTrans(cps[j - |ps|], at, q);
        }
      }
    }
  }

  /** Each key of ps is at itself or lies under a child of at whose key element is in done. */
  predicate Under<K(==)>(ps: seq<seq<K>>, at: seq<K>, done: set<K>)
  {
    forall i | 0 <= i < |ps| :: ps[i] == at || (|ps[i]| > |at| && Extends(ps[i], at) && ps[i][|at|] in done)
  }

  /**
   * nodeAt gives the node of every path that has one and kids the child map of each
   * such node. The root is the empty path's node; a node has a child under key c
   * exactly when its path extended by c has a node, that child.
   */
  ghost predicate Shaped<K(!new), N>(nodeAt: map<seq<K>, N>, kids: map<seq<K>, map<K, N>>, root: N)
  {
    && nodeAt.Keys == kids.Keys
    && [] in nodeAt && nodeAt[[]] == root
    && (forall p, c {:trigger kids[p][c]} | p in kids && c in kids[p] ::
          p + [c] in nodeAt && kids[p][c] == nodeAt[p + [c]])
    && (forall p, c {:trigger p + [c] in nodeAt} | p + [c] in nodeAt :: p in kids && c in kids[p])
  }

  /** The paths that have a node and continue p: the subtree below p. */
  ghost function Below<K, N>(nodeAt: map<seq<K>, N>, p: seq<K>): (qs: set<seq<K>>)
  {
    set q | q in nodeAt && Extends(q, p)
  }

  /** Every prefix of a path that has a node has a node too, whose child under the next key is the next prefix's node. */
  lemma {:induction false} PrefixHasNode<K(!new), N>(nodeAt: map<seq<K>, N>, kids: map<seq<K>, map<K, N>>, root: N, p: seq<K>, i: nat)
    requires Shaped(nodeAt, kids, root) && p in nodeAt && i < |p|
    ensures p[..i] in nodeAt && p[..i + 1] in nodeAt && p[i] in kids[p[..i]]
    ensures kids[p[..i]][p[i]] == nodeAt[p[..i + 1]]
    decreases |p| - i
  {
    var q := p[..|p| - 1];
    assert q + [p[|p| - 1]] == p;
    if i == |p| - 1 {
      assert p[..i] == q && p[..i + 1] == p;
    } else {
      PrefixHasNode(nodeAt, kids, root, q, i);
      assert q[..i] == p[..i] && q[i] == p[i] && q[..i + 1] == p[..i + 1];
    }
  }

  /** A path one of whose prefixes has no node has no node either. */
  lemma AbsentPrefix<K(!new), N>(nodeAt: map<seq<K>, N>, kids: map<seq<K>, map<K, N>>, root: N, p: seq<K>, i: nat)
    requires Shaped(nodeAt, kids, root) && i <= |p| && p[..i] !in nodeAt
    ensures p !in nodeAt
  {
    assert p[..|p|] == p;
    if p in nodeAt && i < |p| {
      PrefixHasNode(nodeAt, kids, root, p, i);
    }
  }

  /**
   * Giving the node of path p a new child n under a key c it has no child for keeps
   * the shape: p + [c] is a new path whose node is n, with no children.
   */
  lemma AddChildShaped<K(!new), N>(nodeAt: map<seq<K>, N>, kids: map<seq<K>, map<K, N>>, root: N, p: seq<K>, c: K, n: N)
    requires Shaped(nodeAt, kids, root) && p in nodeAt && c !in kids[p]
    ensures p + [c] !in nodeAt
    ensures Shaped(nodeAt[p + [c] := n], kids[p := kids[p][c := n]][p + [c] := map[]], root)
  {
    var next := p + [c];
    var nodeAt', kids' := nodeAt[next := n], kids[p := kids[p][c := n]][next := map[]];
    assert next !in nodeAt;
    assert next != [] && p != next;
    forall q, d | q in kids' && d in kids'[q]
      ensures q + [d] in nodeAt' && kids'[q][d] == nodeAt'[q + [d]]
    {
      if q == p {
        if d != c {
          assert kids[q][d] == nodeAt[q + [d]];
        }
      } else if q != next {
        assert kids[q][d] == nodeAt[q + [d]];
      }
    }
    forall q, d | q + [d] in nodeAt'
      ensures q in kids' && d in kids'[q]
    {
      if q + [d] != next {
        assert q + [d] in nodeAt;
      } else {
        assert q == p && d == c by {
          assert (q + [d])[..|q|] == q && (q + [d])[|q|] == d;
          assert next[..|p|] == p && next[|p|] == c;
        }
      }
    }
  }

  /** The subtree below a child's path is strictly smaller than the subtree below its parent's. */
  lemma BelowShrinks<K(!new), N>(nodeAt: map<seq<K>, N>, at: seq<K>, c: K)
    requires at in nodeAt
    ensures Below(nodeAt, at + [c]) < Below(nodeAt, at)
  {
    forall q | q in Below(nodeAt, at + [c]) ensures q in Below(nodeAt, at) {
      assert q[..|at|] == q[..|at| + 1][..|at|];
    }
    assert at in Below(nodeAt, at);
  }

  /** A sequence without repetitions has as many elements as the set of its elements. */
  lemma {:induction false} DistinctCard<T>(s: seq<T>)
    requires Distinct(s)
    ensures |set x | x in s| == |s|
  {
    if s != [] {
      var init := s[..|s| - 1];
      assert Distinct(init);
      DistinctCard(init);
      assert (set x | x in s) == (set x | x in init) + {s[|s| - 1]};
      assert s[|s| - 1] !in (set x | x in init);
    }
  }

  /**
   * Appending the keys collected under the child c of at (c not yet done) to the keys
   * collected so far keeps them distinct, under at, and ancestors first.
   */
  lemma AppendSubtree<K>(ps: seq<seq<K>>, cps: seq<seq<K>>, at: seq<K>, c: K, done: set<K>)
    requires Distinct(ps) && AncestorsFirst(ps) && Under(ps, at, done)
    requires Distinct(cps) && AncestorsFirst(cps) && forall j | 0 <= j < |cps| :: Extends(cps[j], at + [c])
    requires c !in done
    ensures Distinct(ps + cps) && AncestorsFirst(ps + cps) && Under(ps + cps, at, done + {c})
  {
    var all := ps + cps;
    forall j | 0 <= j < |cps|
      ensures |cps[j]| > |at| && Extends(cps[j], at) && cps[j][|at|] == c
    {
      assert cps[j][..|at| + 1] == at + [c];
      assert cps[j][..|at|] == cps[j][..|at| + 1][..|at|];
    }
    forall i, j | 0 <= i < |ps| && 0 <= j < |cps|
      ensures ps[i] != cps[j] && !Extends(ps[i], cps[j])
    {
    }
    assert forall i | 0 <= i < |all| :: all[i] == if i < |ps| then ps[i] else cps[i - |ps|];
  }

  /**
   * The values vs1 appended to vs for keys ps, followed by the values vs2 appended
   * to vs1 for keys cps, are the values appended to vs for keys ps + cps; each is
   * what m holds for its key.
   */
  lemma AppendValues<K, V>(m: map<seq<K>, V>, vs: seq<V>, vs1: seq<V>, ps: seq<seq<K>>, vs2: seq<V>, cps: seq<seq<K>>)
    requires |vs1| == |vs| + |ps| && vs1[..|vs|] == vs
    requires forall i | 0 <= i < |ps| :: ps[i] in m && m[ps[i]] == vs1[|vs| + i]
    requires |vs2| == |vs1| + |cps| && vs2[..|vs1|] == vs1
    requires forall i | 0 <= i < |cps| :: cps[i] in m && m[cps[i]] == vs2[|vs1| + i]
    ensures |vs2| == |vs| + |ps + cps| && vs2[..|vs|] == vs
    ensures forall i | 0 <= i < |ps + cps| :: (ps + cps)[i] in m && m[(ps + cps)[i]] == vs2[|vs| + i]
  {
    assert vs2[..|vs|] == vs2[..|vs1|][..|vs|];
    forall i | 0 <= i < |ps + cps|
      ensures (ps + cps)[i] in m && m[(ps + cps)[i]] == vs2[|vs| + i]
    {
      if i < |ps| {
        assert vs2[|vs| + i] == vs2[..|vs1|][|vs| + i];
      }
    }
  }

  /**
   * The keys of m under at whose first key element below at is in done are all in ps,
   * and those under at + [c] are in cps: then those whose element is in done + {c}
   * are in ps + cps.
   */
  lemma CollectedStep<K, V>(m: map<seq<K>, V>, at: seq<K>, c: K, done: set<K>, ps: seq<seq<K>>, cps: seq<seq<K>>)
    requires forall q | q in m && |q| > |at| && Extends(q, at) && q[|at|] in done :: q in ps
    requires forall q | q in m && Extends(q, at + [c]) :: q in cps
    ensures forall q | q in m && |q| > |at| && Extends(q, at) && q[|at|] in done + {c} :: q in ps + cps
  {
    forall q | q in m && |q| > |at| && Extends(q, at) && q[|at|] == c
      ensures q in cps
    {
      assert q[..|at| + 1] == q[..|at|] + [q[|at|]];
    }
  }

  /**
   * The state of a walk over the subtree at path at, partway through at's children:
   * vs' is vs followed by the values m holds for the keys ps, in that order; ps holds
   * at itself when m has it and every key of m under a child of at whose key element
   * is in done, and nothing else; no key repeats and ancestors come first.
   */
  ghost predicate Collected<K(!new), V>(m: map<seq<K>, V>, at: seq<K>, vs: seq<V>, vs': seq<V>, ps: seq<seq<K>>, done: set<K>)
  {
    && |vs'| == |vs| + |ps| && vs'[..|vs|] == vs
    && (forall i | 0 <= i < |ps| :: ps[i] in m && m[ps[i]] == vs'[|vs| + i])
    && (at in m ==> at in ps)
    && (forall q | q in m && |q| > |at| && Extends(q, at) && q[|at|] in done :: q in ps)
    && Under(ps, at, done) && Distinct(ps) && AncestorsFirst(ps) && Contiguous(ps)
  }

  /** A walk starts with the value at at itself, if m has one. */
  lemma CollectedStart<K(!new), V>(m: map<seq<K>, V>, at: seq<K>, vs: seq<V>)
    ensures at in m ==> Collected(m, at, vs, vs + [m[at]], [at], {})
    ensures at !in m ==> Collected(m, at, vs, vs, [], {})
  {
  }

  /**
   * Appending the walk of the subtree at at + [c] (c a child not yet done) keeps a
   * walk of at's subtree: c is then done.
   */
  lemma CollectedChild<K(!new), V>(m: map<seq<K>, V>, at: seq<K>, vs: seq<V>, vs1: seq<V>, ps: seq<seq<K>>, done: set<K>,
                             c: K, vs2: seq<V>, cps: seq<seq<K>>)
    requires Collected(m, at, vs, vs1, ps, done) && c !in done
    requires |vs2| == |vs1| + |cps| && vs2[..|vs1|] == vs1
    requires forall i | 0 <= i < |cps| :: cps[i] in m && m[cps[i]] == vs2[|vs1| + i]
    requires forall q | q in m && Extends(q, at + [c]) :: q in cps
    requires forall i | 0 <= i < |cps| :: Extends(cps[i], at + [c])
    requires Distinct(cps) && AncestorsFirst(cps) && Contiguous(cps)
    ensures Collected(m, at, vs, vs2, ps + cps, done + {c})
  {
    AppendSubtree(ps, cps, at, c, done);
    AppendContiguous(ps, cps, at, c, done);
    AppendValues(m, vs, vs1, ps, vs2, cps);
    CollectedStep(m, at, c, done, ps, cps);
  }

  /**
   * A walk over all of at's children (m's keys all having nodes) has collected every
   * key of m that continues at, and only those.
   */
  lemma CollectedAll<K(!new), N, V>(nodeAt: map<seq<K>, N>, kids: map<seq<K>, map<K, N>>, root: N, m: map<seq<K>, V>,
                                    at: seq<K>, vs: seq<V>, vs': seq<V>, ps: seq<seq<K>>)
    requires Shaped(nodeAt, kids, root) && at in nodeAt && m.Keys <= nodeAt.Keys
    requires Collected(m, at, vs, vs', ps, kids[at].Keys)
    ensures |vs'| == |vs| + |ps| && vs'[..|vs|] == vs
    ensures forall i | 0 <= i < |ps| :: ps[i] in m && m[ps[i]] == vs'[|vs| + i]
    ensures forall q | q in m && Extends(q, at) :: q in ps
    ensures forall i | 0 <= i < |ps| :: Extends(ps[i], at)
    ensures Distinct(ps) && AncestorsFirst(ps) && Contiguous(ps)
  {
    forall q | q in m && Extends(q, at) && q != at
      ensures |q| > |at| && q[|at|] in kids[at]
    {
      assert q[..|at|] == at;
      PrefixHasNode(nodeAt, kids, root, q, |at|);
    }
  }
}
