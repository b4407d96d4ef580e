/** The node structure of the tree map: an owning binary tree with integer keys
    and no parent links, the specification functions that give it meaning, and
    the recursive helpers of the map (insertion, removal, the minimum node and
    the pre-order value search) as functions on tree values. */
module Trees {
  import opened Results

  /** A node owns its key, its value and at most two children; `Leaf` is the
      null child pointer. */
  datatype Tree<V> = Leaf | Node(left: Tree<V>, key: int, value: V, right: Tree<V>)

  // ---------------------------------------------------------------------------
  // Specification functions

  /** Every key held by some node of `t`. */
  ghost function Keys<V>(t: Tree<V>): set<int>
  {
    match t
    case Leaf => {}
    case Node(lt, k, _, rt) => Keys(lt) + {k} + Keys(rt)
  }

  /** Every value held by some node of `t`. */
  ghost function Values<V>(t: Tree<V>): set<V>
  {
    match t
    case Leaf => {}
    case Node(lt, _, v, rt) => Values(lt) + {v} + Values(rt)
  }

  /** The number of nodes in `t`. */
  ghost function Count<V>(t: Tree<V>): nat
  {
    match t
    case Leaf => 0
    case Node(lt, _, _, rt) => Count(lt) + 1 + Count(rt)
  }

  /** Strict binary-search-tree ordering: every key in a left subtree is
      smaller than its node's key, every key in a right subtree larger. It
      implies the weaker `Ordered`. */
  ghost predicate IsBST<V>(t: Tree<V>)
    ensures IsBST(t) ==> Ordered(t)
  {
    match t
    case Leaf => true
    case Node(lt, k, _, rt) =>
      IsBST(lt) && IsBST(rt) &&
      (forall x :: x in Keys(lt) ==> x < k) &&
      (forall x :: x in Keys(rt) ==> k < x)
  }

  /** The order the descent relies on: every key in a left subtree is smaller
      than its node's key, and no key in a right subtree is smaller. A key may
      then be held twice, the lower copy in the right subtree, which is what
      the as-written removal leaves behind. */
  ghost predicate Ordered<V>(t: Tree<V>)
  {
    match t
    case Leaf => true
    case Node(lt, k, _, rt) =>
      Ordered(lt) && Ordered(rt) &&
      (forall x :: x in Keys(lt) ==> x < k) &&
      (forall x :: x in Keys(rt) ==> k <= x)
  }

  /** What the map associates with `x`: the value of the node that the
      descent from the root (equal: stop, less: left, greater: right) reaches. */
  ghost function Lookup<V>(t: Tree<V>, x: int): Option<V>
  {
    match t
    case Leaf => None
    case Node(lt, k, v, rt) =>
      if x == k then Some(v) else if x < k then Lookup(lt, x) else Lookup(rt, x)
  }

  /** The subtree whose root is the node the descent for `x` stops at, or
      `Leaf` when the descent falls off the tree. */
  ghost function MatchedNode<V>(t: Tree<V>, x: int): (m: Tree<V>)
    ensures m.Node? <==> Lookup(t, x).Some?
    ensures m.Node? ==> m.key == x && Lookup(t, x) == Some(m.value)
  {
    match t
    case Leaf => Leaf
    case Node(lt, k, _, rt) =>
      if x == k then t else if x < k then MatchedNode(lt, x) else MatchedNode(rt, x)
  }

  ghost predicate HasTwoChildren<V>(t: Tree<V>)
  {
    t.Node? && t.left.Node? && t.right.Node?
  }

  /** The key at the end of the right spine of `t`. */
  ghost function RightmostKey<V>(t: Tree<V>): (m: int)
    requires t.Node?
    ensures m in Keys(t)
    ensures Ordered(t) ==> forall x :: x in Keys(t) ==> x <= m
  {
    if t.right.Node? then RightmostKey(t.right) else t.key
  }

  // ---------------------------------------------------------------------------
  // Facts about the specification functions

  /** Whatever the descent finds is a key of the tree, on any tree. */
  lemma {:induction false} LookupFindsKey<V>(t: Tree<V>, x: int)
    ensures Lookup(t, x).Some? ==> x in Keys(t)
    ensures Lookup(t, x).Some? ==> Lookup(t, x).value in Values(t)
  {
    match t
    case Leaf =>
    case Node(lt, k, _, rt) =>
      if x < k {
        LookupFindsKey(lt, x);
      } else if x > k {
        LookupFindsKey(rt, x);
      }
  }

  /** On an ordered tree the descent finds `x` exactly when `x` is a key. */
  lemma {:induction false} LookupIsMembership<V>(t: Tree<V>, x: int)
    requires Ordered(t)
    ensures Lookup(t, x).Some? <==> x in Keys(t)
  {
    LookupFindsKey(t, x);
    match t
    case Leaf =>
    case Node(lt, k, _, rt) =>
      if x < k {
        LookupIsMembership(lt, x);
      } else if x > k {
        LookupIsMembership(rt, x);
      }
  }

  /** On a BST no key is held twice, so the node count is the key count. */
  lemma {:induction false} CountIsKeyCount<V>(t: Tree<V>)
    ensures IsBST(t) ==> |Keys(t)| == Count(t)
  {
    match t
    case Leaf =>
    case Node(lt, k, _, rt) =>
      CountIsKeyCount(lt);
      CountIsKeyCount(rt);
      if IsBST(t) {
        assert k !in Keys(lt) && k !in Keys(rt);
        assert Keys(lt) !! Keys(rt) by {
          forall x | x in Keys(lt) ensures x !in Keys(rt) {
            assert x < k;
          }
        }
        assert |Keys(lt) + {k}| == |Keys(lt)| + 1;
      }
  }

  /** On a BST every stored value is reachable by looking up its key. */
  lemma {:induction false} ValuesAreLookups<V>(t: Tree<V>, v: V)
    ensures IsBST(t) ==> (v in Values(t) <==> exists x :: x in Keys(t) && Lookup(t, x) == Some(v))
  {
    match t
    case Leaf =>
    case Node(lt, k, w, rt) =>
      if IsBST(t) && v in Values(t) {
        if v == w {
          assert Lookup(t, k) == Some(v);
        } else if v in Values(lt) {
          ValuesAreLookups(lt, v);
          var x :| x in Keys(lt) && Lookup(lt, x) == Some(v);
          assert x < k && Lookup(t, x) == Some(v);
        } else {
          ValuesAreLookups(rt, v);
          var x :| x in Keys(rt) && Lookup(rt, x) == Some(v);
          assert x > k && Lookup(t, x) == Some(v);
        }
      }
      if exists x :: x in Keys(t) && Lookup(t, x) == Some(v) {
        var x :| x in Keys(t) && Lookup(t, x) == Some(v);
        LookupFindsKey(t, x);
      }
  }

  // ---------------------------------------------------------------------------
  // The recursive helpers of the map

  /** `MinKey(Node*)`: follows left children to the node holding the least key. */
  function MinNode<V>(t: Tree<V>): (m: Tree<V>)
    requires t.Node?
    ensures m.Node? && m.left.Leaf? && m.key in Keys(t)
    ensures Ordered(t) ==> forall x :: x in Keys(t) ==> m.key <= x
    ensures Ordered(t) ==> Lookup(t, m.key) == Some(m.value)
  {
    if t.left.Node? then MinNode(t.left) else t
  }

  /** `PreOrderRecur`: does some node hold `v`? Node, then left, then right. */
  function PreOrderRecur<V(==)>(t: Tree<V>, v: V): (found: bool)
    ensures found <==> v in Values(t)
  {
    match t
    case Leaf => false
    case Node(lt, _, w, rt) =>
      if v == w then true
      else if PreOrderRecur(lt, v) then true
      else PreOrderRecur(rt, v)
  }

  /** The recursive `Insert` helper: descends to the empty slot for `k` and puts
      a new node there; an equal key on the way is a duplicate. */
  function InsertAt<V>(t: Tree<V>, k: int, v: V): (r: Result<Tree<V>>)
    ensures r.Err? <==> Lookup(t, k).Some?
    ensures r.Err? ==> r.error == DuplicateKey
    ensures r.Ok? ==> Keys(r.value) == Keys(t) + {k} && Count(r.value) == Count(t) + 1
    ensures r.Ok? ==> Values(r.value) == Values(t) + {v}
    ensures r.Ok? ==> forall x :: Lookup(r.value, x) == if x == k then Some(v) else Lookup(t, x)
    ensures r.Ok? && IsBST(t) ==> IsBST(r.value)
    ensures r.Ok? && Ordered(t) ==> Ordered(r.value)
  {
    match t
    case Leaf => Ok(Node(Leaf, k, v, Leaf))
    case Node(lt, key, w, rt) =>
      if k < key then
        match InsertAt(lt, k, v)
        case Err(e) => Err(e)
        case Ok(lt') => Ok(Node(lt', key, w, rt))
      else if k > key then
        match InsertAt(rt, k, v)
        case Err(e) => Err(e)
        case Ok(rt') => Ok(Node(lt, key, w, rt'))
      else
        Err(DuplicateKey)
  }

  /** The recursive `Remove` helper AS WRITTEN. A matched node with at most one
      child is replaced by that child; a matched node with two children has its
      key and value overwritten by those of the right subtree's minimum node,
      which itself stays where it is. */
  function RemoveAt<V>(t: Tree<V>, k: int): (r: Tree<V>)
    ensures MatchedNode(t, k).Leaf? ==> r == t
    ensures Count(r) == if MatchedNode(t, k).Node? && !HasTwoChildren(MatchedNode(t, k))
                        then Count(t) - 1 else Count(t)
  {
    match t
    case Leaf => Leaf
    case Node(lt, key, w, rt) =>
      if k < key then Node(RemoveAt(lt, k), key, w, rt)
      else if k > key then Node(lt, key, w, RemoveAt(rt, k))
      else if lt.Node? && rt.Node? then
        var m := MinNode(rt);
        Node(lt, m.key, m.value, rt)
      else if lt.Node? then lt
      else rt
  }

  /** Removal with the successor node taken out as well: the two-children case
      copies the successor's key and value up and then removes the successor
      from the right subtree. */
  function RemoveIntended<V>(t: Tree<V>, k: int): (r: Tree<V>)
    ensures IsBST(t) ==> IsBST(r) && Keys(r) == Keys(t) - {k}
    ensures IsBST(t) ==> Count(r) == if k in Keys(t) then Count(t) - 1 else Count(t)
    ensures Keys(r) <= Keys(t)
    ensures Ordered(t) ==> Ordered(r)
  {
    match t
    case Leaf => Leaf
    case Node(lt, key, w, rt) =>
      if k < key then Node(RemoveIntended(lt, k), key, w, rt)
      else if k > key then Node(lt, key, w, RemoveIntended(rt, k))
      else if lt.Node? && rt.Node? then
        var m := MinNode(rt);
        Node(lt, m.key, m.value, RemoveIntended(rt, m.key))
      else if lt.Node? then lt
      else rt
  }

  // ---------------------------------------------------------------------------
  // Removal lemmas

  /** As written, removal of `k` from a BST leaves exactly the other keys. */
  lemma {:induction false} RemoveAtKeys<V>(t: Tree<V>, k: int)
    requires IsBST(t)
    ensures Keys(RemoveAt(t, k)) == Keys(t) - {k}
  {
    match t
    case Leaf =>
    case Node(lt, key, w, rt) =>
      if k < key {
        RemoveAtKeys(lt, k);
      } else if k > key {
        RemoveAtKeys(rt, k);
      }
  }

  /** As written, on any tree, removal of `k` loses no key but `k` and adds
      none. */
  lemma {:induction false} RemoveAtKeysBound<V>(t: Tree<V>, k: int)
    ensures Keys(t) - {k} <= Keys(RemoveAt(t, k))
    ensures Keys(RemoveAt(t, k)) <= Keys(t)
  {
    match t
    case Leaf =>
    case Node(lt, key, w, rt) =>
      if k < key {
        RemoveAtKeysBound(lt, k);
      } else if k > key {
        RemoveAtKeysBound(rt, k);
      } else if lt.Node? && rt.Node? {
        assert MinNode(rt).key in Keys(rt);
      }
  }

  /** As written, removal keeps an ordered tree ordered, in the two-children
      case too: the successor copied up is the least key of the right
      subtree, so the copy left below it is not smaller. */
  lemma {:induction false} RemoveAtKeepsOrdered<V>(t: Tree<V>, k: int)
    requires Ordered(t)
    ensures Ordered(RemoveAt(t, k))
  {
    match t
    case Leaf =>
    case Node(lt, key, w, rt) =>
      if k < key {
        RemoveAtKeepsOrdered(lt, k);
        RemoveAtKeysBound(lt, k);
      } else if k > key {
        RemoveAtKeepsOrdered(rt, k);
        RemoveAtKeysBound(rt, k);
      } else if lt.Node? && rt.Node? {
        var m := MinNode(rt);
        assert key <= m.key;
      }
  }

  /** As written, removal of `k` leaves every other key's lookup unchanged on
      an ordered tree. On a BST it is exactly deletion of `k` from the
      key-to-value association the descent computes: `k` then finds nothing,
      in both the splice case and the two-children case. */
  lemma {:induction false} RemoveAtLookup<V>(t: Tree<V>, k: int, x: int)
    requires Ordered(t)
    ensures x != k ==> Lookup(RemoveAt(t, k), x) == Lookup(t, x)
    ensures IsBST(t) ==> Lookup(RemoveAt(t, k), x) == if x == k then None else Lookup(t, x)
  {
    match t
    case Leaf =>
    case Node(lt, key, w, rt) =>
      if k < key {
        RemoveAtLookup(lt, k, x);
      } else if k > key {
        RemoveAtLookup(rt, k, x);
      } else {
        LookupFindsKey(lt, x);
        LookupFindsKey(rt, x);
        if lt.Node? && rt.Node? {
          var m := MinNode(rt);
          assert key <= m.key;
          if IsBST(t) {
            assert key < m.key;
          }
        }
      }
  }

  /** As written, when the matched node has at most one child it is spliced
      out and the result is again a BST. */
  lemma {:induction false} RemoveAtSpliceKeepsOrder<V>(t: Tree<V>, k: int)
    requires IsBST(t)
    requires !HasTwoChildren(MatchedNode(t, k))
    ensures IsBST(RemoveAt(t, k))
  {
    match t
    case Leaf =>
    case Node(lt, key, w, rt) =>
      if k < key {
        RemoveAtSpliceKeepsOrder(lt, k);
        RemoveAtKeys(lt, k);
      } else if k > key {
        RemoveAtSpliceKeepsOrder(rt, k);
        RemoveAtKeys(rt, k);
      }
  }

  /** As written, when the matched node has two children nothing is unlinked:
      the node count is unchanged while one key fewer is held, so the
      successor key is held twice and strict BST order is lost. */
  lemma {:induction false} RemoveAtLeavesSuccessor<V>(t: Tree<V>, k: int)
    requires IsBST(t)
    requires HasTwoChildren(MatchedNode(t, k))
    ensures Count(RemoveAt(t, k)) == Count(t)
    ensures |Keys(RemoveAt(t, k))| + 1 == Count(RemoveAt(t, k))
    ensures !IsBST(RemoveAt(t, k))
  {
    var u := RemoveAt(t, k);
    LookupIsMembership(t, k);
    RemoveAtKeys(t, k);
    CountIsKeyCount(t);
    CountIsKeyCount(u);
  }

  /** The corrected removal leaves every other key's lookup unchanged on an
      ordered tree, and on a BST it is deletion of `k` from the association
      too. */
  lemma {:induction false} RemoveIntendedLookup<V>(t: Tree<V>, k: int, x: int)
    requires Ordered(t)
    ensures x != k ==> Lookup(RemoveIntended(t, k), x) == Lookup(t, x)
    ensures IsBST(t) ==> Lookup(RemoveIntended(t, k), x) == if x == k then None else Lookup(t, x)
  {
    match t
    case Leaf =>
    case Node(lt, key, w, rt) =>
      if k < key {
        RemoveIntendedLookup(lt, k, x);
      } else if k > key {
        RemoveIntendedLookup(rt, k, x);
      } else {
        LookupFindsKey(lt, x);
        LookupFindsKey(rt, x);
        if lt.Node? && rt.Node? {
          var m := MinNode(rt);
          assert key <= m.key;
          if IsBST(t) {
            assert key < m.key;
          }
          RemoveIntendedLookup(rt, m.key, x);
        }
      }
  }
}
