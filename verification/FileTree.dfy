/** The in-memory file tree (src/drivers/fs/fs_emulated.c, fs_general.c): nodes with
    parent pointers and fixed child arrays, as a store of records by address. */
module FileTree {

  type Ptr = nat
  const NULL: Ptr := 0
  const MAX_CHILDREN: nat := 64

  datatype Kind = File | Dir

  /** children[64] and child_count; only the first `count` slots are children. The
      size of a file is the length of its data. */
  datatype Node = Node(name: string, kind: Kind, parent: Ptr, permissions: nat, owner: nat,
                       data: seq<int>, slots: seq<Ptr>, count: nat)

  type Store = map<Ptr, Node>

  function Children(n: Node): seq<Ptr>
    requires n.count <= |n.slots|
  {
    n.slots[..n.count]
  }

  // ----- The tree invariant -----

  predicate Sized(n: Node) {
    |n.slots| == MAX_CHILDREN && n.count <= MAX_CHILDREN && (n.kind == File ==> n.count == 0)
  }

  /** Every child of p is stored and points back at p; no child is listed twice. */
  ghost predicate ChildrenAgree(s: Store, p: Ptr)
    requires p in s && Sized(s[p])
  {
    NoRepeats(Children(s[p])) && forall c :: c in Children(s[p]) ==> c in s && s[c].parent == p
  }

  ghost predicate ParentStored(s: Store, c: Ptr)
    requires c in s
  {
    s[c].parent != NULL ==> s[c].parent in s && Sized(s[s[c].parent])
  }

  ghost predicate Listed(s: Store, c: Ptr)
    requires c in s && ParentStored(s, c)
  {
    s[c].parent != NULL ==> c in Children(s[s[c].parent])
  }

  /** Parent pointers and child arrays agree, except that nodes in `loose` may be
      missing from their parent's array; depths grow downwards, so no cycles. */
  ghost predicate Tree(s: Store, depth: map<Ptr, nat>, loose: set<Ptr>) {
    && NULL !in s
    && (forall p {:trigger Sized(s[p])} :: p in s ==> Sized(s[p]))
    && (forall p {:trigger ChildrenAgree(s, p)} :: p in s ==> ChildrenAgree(s, p))
    && (forall c {:trigger ParentStored(s, c)} :: c in s ==> ParentStored(s, c))
    && (forall c {:trigger Listed(s, c)} :: c in s && c !in loose ==> Listed(s, c))
    && (forall c {:trigger Deeper(s, depth, c)} :: c in s ==> Deeper(s, depth, c))
  }

  /** c is deeper than its parent. */
  ghost predicate Deeper(s: Store, depth: map<Ptr, nat>, c: Ptr)
    requires c in s
  {
    c in depth && (s[c].parent != NULL ==> s[c].parent in depth && depth[s[c].parent] < depth[c])
  }

  lemma NodeOk(s: Store, depth: map<Ptr, nat>, loose: set<Ptr>, p: Ptr)
    requires Tree(s, depth, loose) && p in s
    ensures Sized(s[p]) && ChildrenAgree(s, p) && ParentStored(s, p) && Deeper(s, depth, p)
    ensures p !in loose ==> Listed(s, p)
  {
    assert Sized(s[p]) && ChildrenAgree(s, p) && ParentStored(s, p) && Deeper(s, depth, p);
    assert p !in loose ==> Listed(s, p);
  }

  /** d lies in the subtree of n: n is reached from d through parent pointers. */
  predicate Under(s: Store, depth: map<Ptr, nat>, n: Ptr, d: Ptr)
    decreases if d in depth then depth[d] else 0
  {
    d == n ||
    (d in s && d in depth && s[d].parent in depth && depth[s[d].parent] < depth[d] &&
     s[d].parent != NULL && Under(s, depth, n, s[d].parent))
  }

  /** Below n every node is in its parent's array. */
  ghost predicate AllListed(s: Store, depth: map<Ptr, nat>, loose: set<Ptr>, n: Ptr) {
    forall x :: x in loose && Under(s, depth, n, x) ==> x == n
  }

  // ----- fs_remove_child -----

  function IndexOf(a: seq<Ptr>, c: Ptr): (i: nat)
    ensures i <= |a|
    ensures i < |a| ==> a[i] == c
    ensures forall j :: 0 <= j < i ==> a[j] != c
  {
    if a == [] || a[0] == c then 0 else 1 + IndexOf(a[1..], c)
  }

  /** The child array after the in-place shift: the first occurrence of c is gone
      and the last slot keeps its old value. */
  function Detach(n: Node, c: Ptr): Node
    requires n.count <= |n.slots|
  {
    var i := IndexOf(Children(n), c);
    if i == n.count then n else
    n.(slots := n.slots[..i] + n.slots[i + 1..n.count] + [n.slots[n.count - 1]] + n.slots[n.count..],
       count := n.count - 1)
  }

  lemma DetachChildren(n: Node, c: Ptr)
    requires Sized(n)
    ensures Sized(Detach(n, c))
    ensures c !in Children(n) ==> Detach(n, c) == n
    ensures c in Children(n) ==>
      var i := IndexOf(Children(n), c);
      i < n.count && Children(Detach(n, c)) == Children(n)[..i] + Children(n)[i + 1..]
  {
  }

  predicate NoRepeats(a: seq<Ptr>) {
    forall i, j :: 0 <= i < j < |a| ==> a[i] != a[j]
  }

  lemma WithoutOne(a: seq<Ptr>, i: nat)
    requires NoRepeats(a) && i < |a|
    ensures NoRepeats(a[..i] + a[i + 1..])
    ensures forall x :: x in a[..i] + a[i + 1..] <==> x in a && x != a[i]
  {
    var k := a[..i] + a[i + 1..];
    forall x
      ensures x in k <==> x in a && x != a[i]
    {
      if x in a && x != a[i] {
        var j :| 0 <= j < |a| && a[j] == x;
        assert k[if j < i then j else j - 1] == x;
      }
    }
  }

  lemma DetachMembers(n: Node, c: Ptr)
    requires Sized(n) && NoRepeats(Children(n))
    ensures NoRepeats(Children(Detach(n, c)))
    ensures forall x :: x in Children(Detach(n, c)) <==> x in Children(n) && x != c
  {
    DetachChildren(n, c);
    if c in Children(n) {
      WithoutOne(Children(n), IndexOf(Children(n), c));
    }
  }

  // ----- fs_delete -----

  /** t is s without the subtree of n, and with n gone from its parent's children. */
  ghost predicate Pruned(s: Store, depth: map<Ptr, nat>, n: Ptr, t: Store)
    requires n in s
  {
    && (forall d :: d in t <==> d in s && !Under(s, depth, n, d))
    && (forall d :: d in t && d != s[n].parent ==> t[d] == s[d])
    && (s[n].parent in t ==> Sized(s[s[n].parent]) && t[s[n].parent] == Detach(s[s[n].parent], n))
  }

  /** That says all there is to say about t. */
  lemma PrunedUnique(s: Store, depth: map<Ptr, nat>, n: Ptr, t: Store, u: Store)
    requires n in s && Pruned(s, depth, n, t) && Pruned(s, depth, n, u)
    ensures t == u
  {
    assert t.Keys == u.Keys;
  }

  lemma {:induction false} UnderDeeper(s: Store, depth: map<Ptr, nat>, n: Ptr, d: Ptr)
    requires Under(s, depth, n, d) && n in depth && d in depth
    ensures depth[n] <= depth[d]
    ensures n != d ==> depth[n] < depth[d]
    decreases depth[d]
  {
    if d != n {
      UnderDeeper(s, depth, n, s[d].parent);
    }
  }

  lemma {:induction false} UnderTrans(s: Store, depth: map<Ptr, nat>, a: Ptr, b: Ptr, c: Ptr)
    requires Under(s, depth, a, b) && Under(s, depth, b, c)
    ensures Under(s, depth, a, c)
    decreases if c in depth then depth[c] else 0
  {
    if b != c {
      UnderTrans(s, depth, a, b, s[c].parent);
    }
  }

  /** Reaching n from d only reads d's ancestors. */
  lemma {:induction false} UnderStable(s: Store, t: Store, depth: map<Ptr, nat>, n: Ptr, d: Ptr)
    requires forall x :: x in t ==> x in s && t[x].parent == s[x].parent
    requires forall x :: x in t && s[x].parent in s && s[x].parent != NULL ==> s[x].parent in t
    requires d in t
    ensures Under(s, depth, n, d) <==> Under(t, depth, n, d)
    decreases if d in depth then depth[d] else 0
  {
    var p := s[d].parent;
    if d != n && d in depth && p in depth && depth[p] < depth[d] && p != NULL {
      if p in t {
        UnderStable(s, t, depth, n, p);
      }
    }
  }

  lemma PrunedChildren(s: Store, depth: map<Ptr, nat>, loose: set<Ptr>, n: Ptr, t: Store, d: Ptr)
    requires Tree(s, depth, loose) && n in s && Pruned(s, depth, n, t) && d in t
    ensures Sized(t[d]) && ChildrenAgree(t, d)
  {
    NodeOk(s, depth, loose, d);
    DetachChildren(s[d], n);
    DetachMembers(s[d], n);
    forall c | c in Children(t[d])
      ensures c in t && t[c].parent == d
    {
      assert c in s && s[c].parent == d;
      assert !Under(s, depth, n, c);
    }
  }

  lemma PrunedParents(s: Store, depth: map<Ptr, nat>, loose: set<Ptr>, n: Ptr, t: Store, c: Ptr)
    requires Tree(s, depth, loose) && n in s && Pruned(s, depth, n, t) && c in t
    ensures ParentStored(t, c) && Deeper(t, depth, c)
    ensures c !in loose - {n} ==> Listed(t, c)
  {
    NodeOk(s, depth, loose, c);
    var p := s[c].parent;
    if p != NULL {
      NodeOk(s, depth, loose, p);
      assert !Under(s, depth, n, p);
      DetachMembers(s[p], n);
      DetachChildren(s[p], n);
    }
  }

  /** Pruning keeps the tree; whoever was loose outside the subtree still is. */
  lemma PrunedTree(s: Store, depth: map<Ptr, nat>, loose: set<Ptr>, n: Ptr, t: Store)
    requires Tree(s, depth, loose) && n in s && Pruned(s, depth, n, t)
    ensures Tree(t, depth, loose - {n})
  {
    forall d | d in t
      ensures Sized(t[d]) && ChildrenAgree(t, d)
    {
      PrunedChildren(s, depth, loose, n, t, d);
    }
    forall c | c in t
      ensures ParentStored(t, c) && Deeper(t, depth, c)
      ensures c !in loose - {n} ==> Listed(t, c)
    {
      PrunedParents(s, depth, loose, n, t, c);
    }
  }

  /** Whoever is strictly under n is under one of its listed children. */
  lemma {:induction false} UnderSomeChild(s: Store, depth: map<Ptr, nat>, loose: set<Ptr>, n: Ptr, d: Ptr) returns (c: Ptr)
    requires Tree(s, depth, loose) && n in s && d in s
    requires AllListed(s, depth, loose, n)
    requires Under(s, depth, n, d) && d != n
    ensures Sized(s[n]) && c in Children(s[n]) && Under(s, depth, c, d)
    decreases if d in depth then depth[d] else 0
  {
    NodeOk(s, depth, loose, d);
    NodeOk(s, depth, loose, n);
    if s[d].parent == n {
      c := d;
    } else {
      c := UnderSomeChild(s, depth, loose, n, s[d].parent);
    }
  }

  /** s0 after the first k children of n have been deleted. */
  ghost predicate Drained(s0: Store, depth: map<Ptr, nat>, n: Ptr, t: Store, k: nat)
    requires n in s0 && Sized(s0[n]) && k <= s0[n].count
  {
    && (forall d :: d in t <==> d in s0 && forall i :: 0 <= i < k ==> !Under(s0, depth, Children(s0[n])[i], d))
    && n in t && Sized(t[n])
    && t[n] == s0[n].(slots := t[n].slots, count := t[n].count)
    && Children(t[n]) == Children(s0[n])[k..]
    && (forall d :: d in t && d != n ==> t[d] == s0[d])
  }

  /** Partway through the drain, "under" still means what it meant at the start. */
  lemma DrainUnder(s0: Store, depth: map<Ptr, nat>, loose: set<Ptr>, n: Ptr, t: Store, k: nat, c: Ptr, d: Ptr)
    requires Tree(t, depth, loose) && n in s0 && Sized(s0[n]) && k <= s0[n].count
    requires Drained(s0, depth, n, t, k) && d in t
    ensures Under(t, depth, c, d) <==> Under(s0, depth, c, d)
  {
    ReadsAncestors(t, depth, loose);
    forall x | x in t ensures x in s0 && t[x].parent == s0[x].parent {
      if x != n { assert t[x] == s0[x]; }
    }
    UnderStable(s0, t, depth, c, d);
  }

  lemma NextChild(s0: Store, depth: map<Ptr, nat>, loose: set<Ptr>, n: Ptr, t: Store, k: nat)
    requires Tree(t, depth, loose) && n in s0 && Sized(s0[n])
    requires k < s0[n].count && Drained(s0, depth, n, t, k)
    ensures var c := Children(s0[n])[k];
      t[n].count > 0 && t[n].slots[0] == c && Children(t[n])[0] == c &&
      c in t && t[c].parent == n && n in depth && c in depth && depth[n] < depth[c] && !Under(t, depth, c, n)
  {
    var c := Children(s0[n])[k];
    assert Children(t[n])[0] == c;
    assert c in Children(t[n]);
    NodeOk(t, depth, loose, n);
    NodeOk(t, depth, loose, c);
    if Under(t, depth, c, n) { UnderDeeper(t, depth, c, n); }
  }

  /** The drained node after one more child. */
  lemma DrainStepNode(m: Node, n: Node, rest: seq<Ptr>, c: Ptr)
    requires Sized(n) && Children(n) == [c] + rest
    requires m == Detach(n, c)
    ensures Sized(m) && Children(m) == rest && m == n.(slots := m.slots, count := m.count)
  {
    DetachChildren(n, c);
    assert Children(n)[0] == c && IndexOf(Children(n), c) == 0;
  }

  /** Who is left after one more child. */
  lemma DrainStepLeft(s0: Store, depth: map<Ptr, nat>, loose: set<Ptr>, n: Ptr, t: Store, k: nat, t': Store, d: Ptr)
    requires Tree(t, depth, loose) && n in s0 && Sized(s0[n])
    requires k < s0[n].count && Drained(s0, depth, n, t, k)
    requires d in t' <==> d in t && !Under(t, depth, Children(s0[n])[k], d)
    ensures d in t' <==> d in s0 && forall i :: 0 <= i < k + 1 ==> !Under(s0, depth, Children(s0[n])[i], d)
  {
    if d in t { DrainUnder(s0, depth, loose, n, t, k, Children(s0[n])[k], d); }
  }

  lemma {:induction false} DrainStep(s0: Store, depth: map<Ptr, nat>, loose: set<Ptr>, n: Ptr, t: Store, k: nat, t': Store)
    requires Tree(t, depth, loose) && n in s0 && Sized(s0[n])
    requires k < s0[n].count && Drained(s0, depth, n, t, k)
    requires Children(s0[n])[k] in t && Pruned(t, depth, Children(s0[n])[k], t')
    ensures Drained(s0, depth, n, t', k + 1)
  {
    var c, rest := Children(s0[n])[k], Children(s0[n])[k + 1..];
    NextChild(s0, depth, loose, n, t, k);
    assert Children(t[n]) == [c] + rest;
    DrainStepNode(t'[n], t[n], rest, c);
    forall d
      ensures d in t' <==> d in s0 && forall i :: 0 <= i < k + 1 ==> !Under(s0, depth, Children(s0[n])[i], d)
    {
      DrainStepLeft(s0, depth, loose, n, t, k, t', d);
    }
  }

  lemma ChildUnder(s: Store, depth: map<Ptr, nat>, loose: set<Ptr>, n: Ptr, c: Ptr)
    requires Tree(s, depth, loose) && n in s && Sized(s[n]) && c in Children(s[n])
    ensures c in s && Under(s, depth, n, c)
  {
    NodeOk(s, depth, loose, n);
    NodeOk(s, depth, loose, c);
  }

  /** The loose nodes stay clear of the child about to be deleted. */
  lemma {:induction false} DrainLoose(s0: Store, depth: map<Ptr, nat>, loose: set<Ptr>, n: Ptr, t: Store, k: nat)
    requires Tree(s0, depth, loose) && Tree(t, depth, loose) && n in s0 && Sized(s0[n])
    requires k < s0[n].count && Drained(s0, depth, n, t, k)
    requires AllListed(s0, depth, loose, n)
    ensures forall x :: x in loose ==> !Under(t, depth, Children(s0[n])[k], x)
  {
    var c := Children(s0[n])[k];
    NextChild(s0, depth, loose, n, t, k);
    ChildUnder(s0, depth, loose, n, c);
    forall x | x in loose
      ensures !Under(t, depth, c, x)
    {
      if Under(t, depth, c, x) {
        UnderInside(t, depth, loose, c, x);
        DrainUnder(s0, depth, loose, n, t, k, c, x);
        UnderTrans(s0, depth, n, c, x);
      }
    }
  }

  lemma ReadsAncestors(t: Store, depth: map<Ptr, nat>, loose: set<Ptr>)
    requires Tree(t, depth, loose)
    ensures forall x :: x in t && t[x].parent != NULL ==> t[x].parent in t
  {
    forall x | x in t && t[x].parent != NULL
      ensures t[x].parent in t
    {
      NodeOk(t, depth, loose, x);
    }
  }

  lemma UnderInside(t: Store, depth: map<Ptr, nat>, loose: set<Ptr>, n: Ptr, d: Ptr)
    requires Tree(t, depth, loose) && n in t && Under(t, depth, n, d)
    ensures d in t
  {
  }

  lemma {:induction false} DrainEnd(s0: Store, depth: map<Ptr, nat>, loose: set<Ptr>, n: Ptr, t: Store)
    requires Tree(s0, depth, loose) && n in s0
    requires AllListed(s0, depth, loose, n)
    requires Drained(s0, depth, n, t, s0[n].count)
    ensures forall d :: d in t <==> d in s0 && (d == n || !Under(s0, depth, n, d))
  {
    NodeOk(s0, depth, loose, n);
    forall d | d in s0
      ensures d in t <==> d == n || !Under(s0, depth, n, d)
    {
      if Under(s0, depth, n, d) && d != n {
        var c := UnderSomeChild(s0, depth, loose, n, d);
        var i :| 0 <= i < s0[n].count && Children(s0[n])[i] == c;
      } else if !Under(s0, depth, n, d) {
        forall i | 0 <= i < s0[n].count
          ensures !Under(s0, depth, Children(s0[n])[i], d)
        {
          var c := Children(s0[n])[i];
          assert c in Children(s0[n]);
          ChildUnder(s0, depth, loose, n, c);
          if Under(s0, depth, c, d) { UnderTrans(s0, depth, n, c, d); }
        }
      }
    }
  }

  lemma DetachedTree(s: Store, depth: map<Ptr, nat>, n: Ptr, s1: Store)
    requires Tree(s, depth, {}) && n in s && s[n].parent != NULL && s[n].parent in s && Sized(s[s[n].parent])
    requires s1 == s[s[n].parent := Detach(s[s[n].parent], n)]
    ensures Tree(s1, depth, {n})
  {
    var p := s[n].parent;
    NodeOk(s, depth, {}, p);
    DetachChildren(s[p], n);
    DetachMembers(s[p], n);
    forall d | d in s1
      ensures Sized(s1[d]) && ChildrenAgree(s1, d) && ParentStored(s1, d) && Deeper(s1, depth, d)
      ensures d != n ==> Listed(s1, d)
    {
      NodeOk(s, depth, {}, d);
      assert s1[d].parent == s[d].parent;
    }
  }

  lemma DrainNothing(s0: Store, depth: map<Ptr, nat>, n: Ptr)
    requires n in s0 && Sized(s0[n])
    ensures Drained(s0, depth, n, s0, 0)
  {
    assert Children(s0[n])[0..] == Children(s0[n]);
  }

  /** `if (n->parent) fs_remove_child(n->parent, n)` */
  function Unlinked(t: Store, n: Ptr): Store
    requires n in t && (t[n].parent != NULL ==> t[n].parent in t && Sized(t[t[n].parent]))
  {
    var p := t[n].parent;
    if p == NULL || t[p].kind != Dir then t else t[p := Detach(t[p], n)]
  }

  ghost predicate Bounded(s: Store, depth: map<Ptr, nat>, height: nat) {
    forall p :: p in s && p in depth ==> depth[p] < height
  }

  /** With the children gone, detaching and freeing n completes the pruning. */
  lemma {:induction false} FinishDelete(s0: Store, depth: map<Ptr, nat>, loose: set<Ptr>, n: Ptr, t: Store)
    requires Tree(s0, depth, loose) && Tree(t, depth, loose) && n in s0
    requires AllListed(s0, depth, loose, n)
    requires Drained(s0, depth, n, t, s0[n].count)
    ensures t[n].count == 0 && t[n].parent != n
    ensures t[n].parent != NULL ==> t[n].parent in t && Sized(t[t[n].parent])
    ensures Pruned(s0, depth, n, Unlinked(t, n) - {n})
  {
    DrainEnd(s0, depth, loose, n, t);
    NodeOk(s0, depth, loose, n);
    assert |Children(t[n])| == 0;
    NodeOk(t, depth, loose, n);
    var p := s0[n].parent;
    if p != NULL { NodeOk(t, depth, loose, p); }
    UnlinkedAt(s0, t, n, p);
    PrunedFrom(s0, depth, n, t, Unlinked(t, n) - {n});
  }

  lemma PrunedFrom(s0: Store, depth: map<Ptr, nat>, n: Ptr, t: Store, u: Store)
    requires n in s0 && u.Keys == t.Keys - {n}
    requires forall d :: d in t <==> d in s0 && (d == n || !Under(s0, depth, n, d))
    requires forall d :: d in u && d != s0[n].parent ==> u[d] == s0[d]
    requires s0[n].parent in u ==>
      s0[n].parent in s0 && Sized(s0[s0[n].parent]) && u[s0[n].parent] == Detach(s0[s0[n].parent], n)
    ensures Pruned(s0, depth, n, u)
  {
  }

  lemma UnlinkedAt(s0: Store, t: Store, n: Ptr, p: Ptr)
    requires n in t && t[n].parent == p && p != n
    requires p != NULL ==> p in t && Sized(t[p])
    requires NULL !in t
    requires forall d :: d in t && d != n ==> d in s0 && t[d] == s0[d]
    ensures (Unlinked(t, n) - {n}).Keys == t.Keys - {n}
    ensures forall d :: d in t && d != n && d != p ==> (Unlinked(t, n) - {n})[d] == s0[d]
    ensures p in t ==> Sized(s0[p]) && (Unlinked(t, n) - {n})[p] == Detach(s0[p], n)
  {
    if p != NULL {
      DetachChildren(s0[p], n);
    }
  }

  lemma UnderDetached(s: Store, depth: map<Ptr, nat>, n: Ptr, s1: Store)
    requires Tree(s, depth, {}) && n in s && s[n].parent != NULL && s[n].parent in s && Sized(s[s[n].parent])
    requires s1 == s[s[n].parent := Detach(s[s[n].parent], n)]
    ensures forall d :: d in s ==> (Under(s1, depth, n, d) <==> Under(s, depth, n, d))
  {
    ReadsAncestors(s, depth, {});
    forall d | d in s
      ensures Under(s1, depth, n, d) <==> Under(s, depth, n, d)
    {
      UnderStable(s, s1, depth, n, d);
    }
  }

  /** Detaching first, as rm does, changes nothing about the result. */
  lemma {:induction false} DetachThenPrune(s: Store, depth: map<Ptr, nat>, n: Ptr, s1: Store, t: Store)
    requires Tree(s, depth, {}) && n in s && s[n].parent != NULL && s[n].parent in s && Sized(s[s[n].parent])
    requires s1 == s[s[n].parent := Detach(s[s[n].parent], n)] && Pruned(s1, depth, n, t)
    ensures Pruned(s, depth, n, t)
  {
    var p := s[n].parent;
    UnderDetached(s, depth, n, s1);
    NodeOk(s, depth, {}, p);
    DetachMembers(s[p], n);
    DetachChildren(s[p], n);
    DetachChildren(Detach(s[p], n), n);
  }

  /** In a drained tree nothing is left under n but n. */
  lemma NoneBelow(s0: Store, depth: map<Ptr, nat>, loose: set<Ptr>, n: Ptr, t: Store)
    requires Tree(s0, depth, loose) && Tree(t, depth, loose) && n in s0 && AllListed(s0, depth, loose, n)
    requires Sized(s0[n]) && Drained(s0, depth, n, t, s0[n].count)
    ensures forall d :: Under(t, depth, n, d) ==> d == n
  {
    DrainEnd(s0, depth, loose, n, t);
    forall d | Under(t, depth, n, d)
      ensures d == n
    {
      UnderInside(t, depth, loose, n, d);
      DrainUnder(s0, depth, loose, n, t, s0[n].count, n, d);
    }
  }

  // ----- emulated_fs_delete -----

  /** In t the subtree that n has in s0 is as it is there. */
  ghost predicate Intact(s0: Store, depth: map<Ptr, nat>, n: Ptr, t: Store) {
    forall d {:trigger Under(s0, depth, n, d)} :: Under(s0, depth, n, d) ==> d in s0 && d in t && t[d] == s0[d]
  }

  /** u is t without the nodes under n. */
  ghost predicate Razed(s0: Store, depth: map<Ptr, nat>, n: Ptr, t: Store, u: Store) {
    && (forall d :: d in u <==> d in t && !Under(s0, depth, n, d))
    && (forall d :: d in u ==> u[d] == t[d])
  }

  /** u is t without the nodes under the first k children of n. */
  ghost predicate Freed(s0: Store, depth: map<Ptr, nat>, n: Ptr, t: Store, u: Store, k: nat)
    requires n in s0 && Sized(s0[n]) && k <= s0[n].count
  {
    && (forall d :: d in u <==> d in t && forall i :: 0 <= i < k ==> !Under(s0, depth, Children(s0[n])[i], d))
    && (forall d :: d in u ==> u[d] == t[d])
  }

  lemma FreedStep(s0: Store, depth: map<Ptr, nat>, n: Ptr, t: Store, u: Store, u': Store, k: nat)
    requires n in s0 && Sized(s0[n]) && k < s0[n].count
    requires Freed(s0, depth, n, t, u, k) && Razed(s0, depth, Children(s0[n])[k], u, u')
    ensures Freed(s0, depth, n, t, u', k + 1)
  {
  }

  /** A child, and that it is deeper than its parent. */
  lemma ChildAt(s: Store, depth: map<Ptr, nat>, loose: set<Ptr>, n: Ptr, k: nat)
    requires Tree(s, depth, loose) && n in s && Sized(s[n]) && k < s[n].count
    ensures var c := Children(s[n])[k];
      c in s && c != NULL && s[c].parent == n && n in depth && c in depth && depth[n] < depth[c] &&
      c == s[n].slots[k] && Under(s, depth, n, c) && !Under(s, depth, c, n)
  {
    var c := Children(s[n])[k];
    assert c in Children(s[n]);
    NodeOk(s, depth, loose, n);
    NodeOk(s, depth, loose, c);
    if Under(s, depth, c, n) { UnderDeeper(s, depth, c, n); }
  }

  /** The subtrees of different children have no node in common. */
  lemma {:induction false} SiblingsApart(s: Store, depth: map<Ptr, nat>, loose: set<Ptr>, n: Ptr, b: Ptr, c: Ptr, d: Ptr)
    requires Tree(s, depth, loose) && n in s && b in s && c in s && s[b].parent == s[c].parent == n && n != NULL
    requires Under(s, depth, b, d) && Under(s, depth, c, d)
    ensures b == c
    decreases if d in depth then depth[d] else 0
  {
    NodeOk(s, depth, loose, b);
    NodeOk(s, depth, loose, c);
    if b != c {
      if d == b {
        UnderDeeper(s, depth, c, n);
      } else if d == c {
        UnderDeeper(s, depth, b, n);
      } else {
        SiblingsApart(s, depth, loose, n, b, c, s[d].parent);
      }
    }
  }

  /** When k children are gone the next one's subtree, and n itself, are still there. */
  lemma ChildIntact(s0: Store, depth: map<Ptr, nat>, loose: set<Ptr>, n: Ptr, t: Store, u: Store, k: nat)
    requires Tree(s0, depth, loose) && n in s0 && Sized(s0[n]) && k < s0[n].count
    requires Intact(s0, depth, n, t) && AllListed(s0, depth, loose, n) && Freed(s0, depth, n, t, u, k)
    ensures var c := s0[n].slots[k];
      c == Children(s0[n])[k] && c in s0 && c != NULL && n in depth && c in depth && depth[n] < depth[c] &&
      Intact(s0, depth, c, u) && AllListed(s0, depth, loose, c) && !Under(s0, depth, c, n)
  {
    var c := s0[n].slots[k];
    ChildAt(s0, depth, loose, n, k);
    forall d | Under(s0, depth, c, d)
      ensures Under(s0, depth, n, d) && d in s0 && d in u && u[d] == s0[d]
    {
      UnderTrans(s0, depth, n, c, d);
      forall i | 0 <= i < k
        ensures !Under(s0, depth, Children(s0[n])[i], d)
      {
        NotUnderOther(s0, depth, loose, n, i, k, d);
      }
    }
    NodeOk(s0, depth, loose, c);
    forall x | x in loose
      ensures !Under(s0, depth, c, x)
    {
      if Under(s0, depth, c, x) { UnderTrans(s0, depth, n, c, x); }
    }
  }

  lemma NotUnderOther(s: Store, depth: map<Ptr, nat>, loose: set<Ptr>, n: Ptr, i: nat, k: nat, d: Ptr)
    requires Tree(s, depth, loose) && n in s && Sized(s[n]) && i < k < s[n].count
    requires Under(s, depth, Children(s[n])[k], d)
    ensures !Under(s, depth, Children(s[n])[i], d)
  {
    var b, c := Children(s[n])[i], Children(s[n])[k];
    ChildAt(s, depth, loose, n, i);
    ChildAt(s, depth, loose, n, k);
    NodeOk(s, depth, loose, n);
    assert b != c;
    if Under(s, depth, b, d) { SiblingsApart(s, depth, loose, n, b, c, d); }
  }

  /** With all children freed, freeing n clears its subtree. */
  lemma RazedAll(s0: Store, depth: map<Ptr, nat>, loose: set<Ptr>, n: Ptr, t: Store, u: Store)
    requires Tree(s0, depth, loose) && n in s0 && Sized(s0[n]) && AllListed(s0, depth, loose, n)
    requires Intact(s0, depth, n, t) && Freed(s0, depth, n, t, u, s0[n].count)
    ensures n in u && u[n] == s0[n] && Razed(s0, depth, n, t, u - {n})
  {
    forall i | 0 <= i < s0[n].count
      ensures !Under(s0, depth, Children(s0[n])[i], n)
    {
      ChildAt(s0, depth, loose, n, i);
    }
    assert Under(s0, depth, n, n);
    forall d | d in t && d != n
      ensures d in u <==> !Under(s0, depth, n, d)
    {
      RazedBelow(s0, depth, loose, n, d);
    }
  }

  lemma RazedBelow(s0: Store, depth: map<Ptr, nat>, loose: set<Ptr>, n: Ptr, d: Ptr)
    requires Tree(s0, depth, loose) && n in s0 && Sized(s0[n]) && AllListed(s0, depth, loose, n) && d != n
    ensures Under(s0, depth, n, d) <==> exists i :: 0 <= i < s0[n].count && Under(s0, depth, Children(s0[n])[i], d)
  {
    if Under(s0, depth, n, d) {
      var c := UnderSomeChild(s0, depth, loose, n, d);
      var i :| 0 <= i < s0[n].count && Children(s0[n])[i] == c;
    }
    if exists i :: 0 <= i < s0[n].count && Under(s0, depth, Children(s0[n])[i], d) {
      var i :| 0 <= i < s0[n].count && Under(s0, depth, Children(s0[n])[i], d);
      ChildAt(s0, depth, loose, n, i);
      UnderTrans(s0, depth, n, Children(s0[n])[i], d);
    }
  }

  // ----- fs_add_child -----

  // 0777 with the default umask 0022 taken out.
  const DEFAULT_PERMISSIONS: nat := 7 * 64 + 5 * 8 + 5

  function FreshDir(name: string, parent: Ptr, owner: nat): Node {
    Node(name, Dir, parent, DEFAULT_PERMISSIONS, owner, [], seq(MAX_CHILDREN, _ => NULL), 0)
  }

  /** A fresh, childless node c entered as the last child of p. */
  function WithChild(s: Store, p: Ptr, c: Ptr, node: Node): Store
    requires p in s && s[p].count < |s[p].slots|
  {
    s[c := node.(parent := p)][p := s[p].(slots := s[p].slots[s[p].count := c], count := s[p].count + 1)]
  }

  predicate Addable(s: Store, p: Ptr, c: Ptr, node: Node) {
    && p in s && Sized(s[p]) && s[p].kind == Dir && s[p].count < MAX_CHILDREN
    && c !in s && c != NULL && Sized(node) && node.count == 0
  }

  lemma WithChildAt(s: Store, p: Ptr, c: Ptr, node: Node)
    requires Addable(s, p, c, node)
    ensures var t := WithChild(s, p, c, node);
      Sized(t[p]) && Children(t[p]) == Children(s[p]) + [c] && Children(t[c]) == []
  {
  }

  lemma WithChildTree(s: Store, depth: map<Ptr, nat>, p: Ptr, c: Ptr, node: Node)
    requires Tree(s, depth, {}) && Addable(s, p, c, node) && p in depth
    ensures Tree(WithChild(s, p, c, node), depth[c := depth[p] + 1], {})
  {
    var t, depth' := WithChild(s, p, c, node), depth[c := depth[p] + 1];
    WithChildAt(s, p, c, node);
    NodeOk(s, depth, {}, p);
    assert c in Children(t[p]);
    forall d | d in t
      ensures Sized(t[d]) && ChildrenAgree(t, d) && ParentStored(t, d) && Listed(t, d) && Deeper(t, depth', d)
    {
      if d != c { OldNodeOk(s, depth, p, c, node, d); }
    }
  }

  lemma OldNodeOk(s: Store, depth: map<Ptr, nat>, p: Ptr, c: Ptr, node: Node, d: Ptr)
    requires Tree(s, depth, {}) && Addable(s, p, c, node) && p in depth && d in s
    ensures var t := WithChild(s, p, c, node);
      Sized(t[d]) && ChildrenAgree(t, d) && ParentStored(t, d) && Listed(t, d) &&
      Deeper(t, depth[c := depth[p] + 1], d)
  {
    WithChildAt(s, p, c, node);
    NodeOk(s, depth, {}, d);
    if s[d].parent != NULL { NodeOk(s, depth, {}, s[d].parent); }
    if s[d].parent == p { assert d in Children(s[p]); }
  }

  /** Slots k.. below i have taken their right neighbour's value. */
  ghost predicate Shifting(a: seq<Ptr>, b: seq<Ptr>, count: nat, k: nat, i: nat)
    requires count <= |a|
  {
    |b| == |a| &&
    forall m {:trigger b[m]} :: 0 <= m < |a| ==> b[m] == if k <= m < i && m + 1 < count then a[m + 1] else a[m]
  }

  /** Slot i, when all before it are done; the match is the first from k on. */
  lemma ShiftStep(n: Node, b: seq<Ptr>, c: Ptr, i: nat)
    requires Sized(n) && i < n.count && Shifting(n.slots, b, n.count, IndexOf(Children(n), c), i)
    ensures var k := IndexOf(Children(n), c);
      (k < i || b[i] == c <==> k < i + 1) &&
      Shifting(n.slots, if k < i + 1 && i < n.count - 1 then b[i := b[i + 1]] else b, n.count, k, i + 1)
  {
    var k := IndexOf(Children(n), c);
    assert b[i] == n.slots[i] == Children(n)[i];
    if k < i + 1 && i < n.count - 1 { assert b[i + 1] == n.slots[i + 1]; }
  }

  lemma ShiftDone(n: Node, b: seq<Ptr>, c: Ptr)
    requires Sized(n) && Shifting(n.slots, b, n.count, IndexOf(Children(n), c), n.count)
    ensures c in Children(n) <==> IndexOf(Children(n), c) < n.count
    ensures Detach(n, c) == if c in Children(n) then n.(slots := b, count := n.count - 1) else n.(slots := b)
  {
    var k := IndexOf(Children(n), c);
    if k == n.count {
      assert b == n.slots;
    } else {
      var d := Detach(n, c).slots;
      forall m | 0 <= m < |b|
        ensures b[m] == d[m]
      {
      }
    }
  }

  // ----- The file system -----

  class FileSystem {
    var nodes: Store
    var root: Ptr
    ghost var depth: map<Ptr, nat>
    ghost var height: nat

    ghost predicate Valid(loose: set<Ptr>)
      reads this
    {
      Tree(nodes, depth, loose) && Bounded(nodes, depth, height)
    }

    /** The record malloc and memset leave at `node`, an address not in use. */
    method FsCreateDirNode(name: string, parent: Ptr, owner: nat, node: Ptr)
      requires node !in nodes && node != NULL
      modifies this`nodes, this`depth, this`height
      ensures nodes == old(nodes)[node := FreshDir(name, parent, owner)]
      ensures var n := nodes[node];
        n.kind == Dir && n.name == name && n.parent == parent && n.owner == owner && n.permissions == 0x1ED &&
        n.data == [] && n.count == 0
      ensures depth == old(depth)[node := if parent in old(depth) then old(depth)[parent] + 1 else 0]
      ensures height >= old(height) && depth[node] < height
    {
      nodes := nodes[node := FreshDir(name, parent, owner)];
      depth := depth[node := if parent in depth then depth[parent] + 1 else 0];
      height := if depth[node] < height then height else depth[node] + 1;
    }

    method FsAddChild(dir: Ptr, child: Ptr)
      requires dir in nodes && child in nodes && dir != child && Sized(nodes[dir])
      requires nodes[dir].kind == Dir ==> nodes[dir].count < MAX_CHILDREN
      modifies this`nodes
      ensures nodes == if old(nodes)[dir].kind != Dir then old(nodes)
                       else WithChild(old(nodes), dir, child, old(nodes)[child])
    {
      if nodes[dir].kind != Dir { return; }
      var d := nodes[dir];
      nodes := nodes[dir := d.(slots := d.slots[d.count := child], count := d.count + 1)];
      nodes := nodes[child := nodes[child].(parent := dir)];
    }

    /** Lines 35-43 of fs_general.c: shift the children after the first match down. */
    method FsRemoveChild(parent: Ptr, child: Ptr)
      requires parent != NULL ==> parent in nodes && Sized(nodes[parent])
      modifies this`nodes
      ensures parent == NULL || child == NULL ==> nodes == old(nodes)
      ensures parent != NULL && child != NULL ==>
        nodes == if old(nodes)[parent].kind == Dir
                 then old(nodes)[parent := Detach(old(nodes)[parent], child)] else old(nodes)
    {
      if parent == NULL || child == NULL || nodes[parent].kind != Dir { return; }
      var n := nodes[parent];
      ghost var k := IndexOf(Children(n), child);
      var found := false;
      ghost var slots := n.slots;
      var i := 0;
      while i < n.count
        invariant i <= n.count
        invariant nodes == old(nodes)[parent := n.(slots := slots)]
        invariant found <==> k < i
        invariant Shifting(n.slots, slots, n.count, k, i)
      {
        var here := nodes[parent].slots;
        ShiftStep(n, slots, child, i);
        if here[i] == child { found := true; }
        if found && i < n.count - 1 {
          slots := slots[i := slots[i + 1]];
          nodes := nodes[parent := n.(slots := here[i := here[i + 1]])];
        }
        i := i + 1;
      }
      ShiftDone(n, slots, child);
      if found {
        nodes := nodes[parent := nodes[parent].(count := n.count - 1)];
      }
    }

    /** Frees the nodes of a subtree and touches nothing else, not even the array the
        node itself is listed in. s0 is a tree in which that subtree is as it is now. */
    method EmulatedFsDelete(n: Ptr, ghost s0: Store, ghost loose: set<Ptr>)
      requires n != NULL ==> n in s0 && Tree(s0, depth, loose) && Bounded(s0, depth, height)
      requires n != NULL ==> Intact(s0, depth, n, nodes) && AllListed(s0, depth, loose, n)
      modifies this`nodes
      ensures n == NULL ==> nodes == old(nodes)
      ensures n != NULL ==> Razed(s0, depth, n, old(nodes), nodes)
      decreases if n in depth then height - depth[n] else 0, 1
    {
      if n == NULL { return; }
      ghost var t := nodes;
      NodeOk(s0, depth, loose, n);
      assert Under(s0, depth, n, n);
      if nodes[n].kind == Dir {
        FreeChildren(n, s0, loose);
        RazedAll(s0, depth, loose, n, t, nodes);
        nodes := nodes[n := nodes[n].(count := 0)];
      } else {
        RazedAll(s0, depth, loose, n, t, nodes);
        nodes := nodes[n := nodes[n].(data := [])];
      }
      nodes := nodes - {n};
    }

    /** The for loop of lines 128-130: the freed children stay in the array. */
    method FreeChildren(n: Ptr, ghost s0: Store, ghost loose: set<Ptr>)
      requires n in s0 && Tree(s0, depth, loose) && Bounded(s0, depth, height)
      requires Intact(s0, depth, n, nodes) && AllListed(s0, depth, loose, n)
      modifies this`nodes
      ensures Sized(s0[n]) && Freed(s0, depth, n, old(nodes), nodes, s0[n].count)
      decreases if n in depth then height - depth[n] else 0, 0
    {
      ghost var t := nodes;
      NodeOk(s0, depth, loose, n);
      assert Under(s0, depth, n, n);
      var i: nat := 0;
      while i < nodes[n].count
        invariant i <= s0[n].count && n in nodes && nodes[n] == s0[n]
        invariant Freed(s0, depth, n, t, nodes, i)
      {
        ChildIntact(s0, depth, loose, n, t, nodes, i);
        ghost var u := nodes;
        EmulatedFsDelete(nodes[n].slots[i], s0, loose);
        FreedStep(s0, depth, n, t, u, nodes, i);
        i := i + 1;
      }
    }

    /** Deletes exactly the subtree of n. Each round deletes the first child, whose
        own deletion takes it out of n's array, so the loop ends. */
    method FsDelete(n: Ptr, ghost loose: set<Ptr>)
      requires n != NULL ==> n in nodes && Valid(loose)
      requires n != NULL ==> AllListed(nodes, depth, loose, n)
      modifies this`nodes
      ensures n == NULL ==> nodes == old(nodes)
      ensures n != NULL ==> Pruned(old(nodes), depth, n, nodes) && Valid(loose - {n})
      decreases if n in depth then height - depth[n] else 0, 2
    {
      if n == NULL { return; }
      ghost var s0 := nodes;
      NodeOk(s0, depth, loose, n);
      DrainNothing(s0, depth, n);
      if nodes[n].kind == Dir {
        DrainChildren(n, loose);
      }
      FinishDelete(s0, depth, loose, n, nodes);
      NoneBelow(s0, depth, loose, n, nodes);
      UnlinkAndFree(n, loose);
      PrunedTree(s0, depth, loose, n, nodes);
    }

    /** Lines 56-60. */
    method UnlinkAndFree(n: Ptr, ghost loose: set<Ptr>)
      requires n in nodes && n != NULL && nodes[n].count == 0 && nodes[n].parent != n
      requires Valid(loose) && forall d :: Under(nodes, depth, n, d) ==> d == n
      requires nodes[n].parent != NULL ==> nodes[n].parent in nodes && Sized(nodes[nodes[n].parent])
      modifies this`nodes
      ensures nodes == Unlinked(old(nodes), n) - {n}
    {
      ghost var s0 := nodes;
      if nodes[n].parent != NULL {
        FsRemoveChild(nodes[n].parent, n);
      }
      EmulatedFsDelete(n, s0, loose);
    }

    /** The while loop of lines 51-53. */
    method DrainChildren(n: Ptr, ghost loose: set<Ptr>)
      requires Valid(loose) && n in nodes
      requires AllListed(nodes, depth, loose, n)
      modifies this`nodes
      ensures Valid(loose) && Drained(old(nodes), depth, n, nodes, old(nodes)[n].count)
      decreases if n in depth then height - depth[n] else 0, 1
    {
      ghost var s0 := nodes;
      ghost var k := 0;
      DrainNothing(s0, depth, n);
      while nodes[n].count > 0
        invariant n in nodes && Valid(loose) && k <= s0[n].count
        invariant Drained(s0, depth, n, nodes, k)
        decreases s0[n].count - k
      {
        NodeOk(nodes, depth, loose, n);
        DrainOne(n, loose, s0, k);
        k := k + 1;
      }
    }

    /** `fs_delete(node->children[0]);` when k children are gone. */
    method DrainOne(n: Ptr, ghost loose: set<Ptr>, ghost s0: Store, ghost k: nat)
      requires Tree(s0, depth, loose) && Valid(loose) && n in s0 && n in nodes
      requires k < s0[n].count && Drained(s0, depth, n, nodes, k)
      requires AllListed(s0, depth, loose, n)
      modifies this`nodes
      ensures Valid(loose) && Drained(s0, depth, n, nodes, k + 1)
      decreases if n in depth then height - depth[n] else 0, 0
    {
      NextChild(s0, depth, loose, n, nodes, k);
      NodeOk(nodes, depth, loose, n);
      DrainLoose(s0, depth, loose, n, nodes, k);
      ghost var t := nodes;
      FsDelete(nodes[n].slots[0], loose);
      DrainStep(s0, depth, loose, n, t, k, nodes);
    }

    /** `rm` (lines 232-243 of commands.c) once the path is resolved and the question
        answered yes: detaching before deleting leaves what deleting alone leaves. */
    method Remove(n: Ptr) returns (removed: bool)
      requires Valid({}) && n in nodes
      modifies this`nodes
      ensures Valid({})
      ensures removed <==> old(nodes)[n].parent != NULL
      ensures removed ==> Pruned(old(nodes), depth, n, nodes)
      ensures !removed ==> nodes == old(nodes)
    {
      var parent := nodes[n].parent;
      if parent == NULL { return false; }
      ghost var s := nodes;
      NodeOk(s, depth, {}, n);
      NodeOk(s, depth, {}, parent);
      DetachChildren(s[parent], n);
      FsRemoveChild(parent, n);
      DetachedTree(s, depth, n, nodes);
      FsDelete(n, {n});
      DetachThenPrune(s, depth, n, s[parent := Detach(s[parent], n)], nodes);
      return true;
    }
  }
}
