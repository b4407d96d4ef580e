/** The tree map itself: an ordered map from integer keys to values, held as an
    unbalanced binary search tree together with a `size_t` entry counter. */
module Treemaps {
  import opened Results
  import opened Trees

  /** One more than the largest `size_t` on a 64-bit target: the counter
      wraps modulo this. */
  const SizeLimit: nat := 0x1_0000_0000_0000_0000

  type SizeT = n: nat | n < SizeLimit

  class Treemap<V(==)> {
    var root: Tree<V>
    var size: SizeT

    /** A well-formed map: strict BST order, so each key is held once (the
        comment on `Insert`, treemap.h:23, rules out duplicates), and a counter
        equal to the number of key-value mappings (treemap.h:16). */
    ghost predicate WellFormed()
      reads this
    {
      IsBST(root) && size == Count(root)
    }

    constructor ()
      ensures root == Leaf && size == 0
      ensures WellFormed() && Ordered(root)
    {
      root := Leaf;
      size := 0;
    }

    /** `Size()`: the number of key-value mappings. */
    function Size(): (n: SizeT)
      reads this
      ensures WellFormed() ==> n == |Keys(root)|
    {
      CountIsKeyCount(root);
      size
    }

    /** `Empty()`: whether the counter is zero. */
    function Empty(): (e: bool)
      reads this
      ensures e <==> Size() == 0
      ensures WellFormed() ==> (e <==> Keys(root) == {})
    {
      CountIsKeyCount(root);
      size == 0
    }

    /** `Insert`: adds the pair, or throws "Duplicate Key" when the descent
        meets an equal key, in which case nothing has changed. */
    method Insert(k: int, v: V) returns (r: Outcome)
      modifies this
      ensures old(Lookup(root, k)).Some? ==>
                r == Fail(DuplicateKey) && root == old(root) && size == old(size)
      ensures old(Lookup(root, k)).None? ==>
                r == Pass && root == InsertAt(old(root), k, v).value &&
                size == if old(size) == SizeLimit - 1 then 0 else old(size) + 1
      ensures old(Ordered(root)) ==> (r.Pass? <==> k !in old(Keys(root)))
      ensures r.Pass? ==> Keys(root) == old(Keys(root)) + {k}
      ensures forall x :: Lookup(root, x) == if r.Pass? && x == k then Some(v) else old(Lookup(root, x))
      ensures old(IsBST(root)) ==> IsBST(root)
      ensures old(Ordered(root)) ==> Ordered(root)
      ensures old(WellFormed()) && old(size) + 1 < SizeLimit ==> WellFormed()
    {
      if Ordered(root) {
        LookupIsMembership(root, k);
      }
      match InsertAt(root, k, v)
      case Err(e) =>
        r := Fail(e);
      case Ok(t) =>
        root := t;
        size := if size == SizeLimit - 1 then 0 else size + 1;
        r := Pass;
    }

    /** `Remove`, as written: silent on an empty tree, throws "Invalid Key"
        when `ContainsKey` fails, otherwise rewrites the tree with `RemoveAt`
        and decrements the counter. */
    method Remove(k: int) returns (r: Outcome)
      modifies this
      ensures old(root).Leaf? ==> r == Pass && root == old(root) && size == old(size)
      ensures old(root).Node? && old(Lookup(root, k)).None? ==>
                r == Fail(InvalidKey) && root == old(root) && size == old(size)
      ensures old(Lookup(root, k)).Some? ==>
                r == Pass && root == RemoveAt(old(root), k) &&
                size == if old(size) == 0 then SizeLimit - 1 else old(size) - 1
      ensures old(Ordered(root)) ==>
                (r == Fail(InvalidKey) <==> old(root).Node? && k !in old(Keys(root)))
      ensures old(Keys(root)) - {k} <= Keys(root) && Keys(root) <= old(Keys(root))
      ensures old(Ordered(root)) ==> Ordered(root)
      ensures old(Ordered(root)) ==> forall x :: x != k ==> Lookup(root, x) == old(Lookup(root, x))
      ensures old(IsBST(root)) ==> Keys(root) == old(Keys(root)) - {k}
      ensures old(IsBST(root)) ==>
                forall x :: Lookup(root, x) == if x == k then None else old(Lookup(root, x))
      ensures old(WellFormed()) && !HasTwoChildren(MatchedNode(old(root), k)) ==> WellFormed()
      ensures old(WellFormed()) && HasTwoChildren(MatchedNode(old(root), k)) ==>
                !IsBST(root) && size + 1 == Count(root)
    {
      if root.Leaf? {
        return Pass;
      }
      var present := ContainsKey(k);
      if !present {
        return Fail(InvalidKey);
      }
      RemoveAtKeysBound(root, k);
      if Ordered(root) {
        RemoveAtKeepsOrdered(root, k);
        forall x ensures x != k ==> Lookup(RemoveAt(root, k), x) == Lookup(root, x) {
          RemoveAtLookup(root, k, x);
        }
        LookupIsMembership(root, k);
      }
      if IsBST(root) {
        RemoveAtKeys(root, k);
        forall x ensures Lookup(RemoveAt(root, k), x) == if x == k then None else Lookup(root, x) {
          RemoveAtLookup(root, k, x);
        }
        if HasTwoChildren(MatchedNode(root, k)) {
          RemoveAtLeavesSuccessor(root, k);
        } else {
          RemoveAtSpliceKeepsOrder(root, k);
        }
      }
      root := RemoveAt(root, k);
      size := if size == 0 then SizeLimit - 1 else size - 1;
      r := Pass;
    }

    /** Removal with the successor node unlinked too (`RemoveIntended`): the
        same errors as `Remove`, and it keeps the map well formed. */
    method RemoveWithSuccessor(k: int) returns (r: Outcome)
      modifies this
      ensures old(root).Leaf? ==> r == Pass && root == old(root) && size == old(size)
      ensures old(root).Node? && old(Lookup(root, k)).None? ==>
                r == Fail(InvalidKey) && root == old(root) && size == old(size)
      ensures old(Lookup(root, k)).Some? ==>
                r == Pass && root == RemoveIntended(old(root), k) &&
                size == if old(size) == 0 then SizeLimit - 1 else old(size) - 1
      ensures old(IsBST(root)) ==> Keys(root) == old(Keys(root)) - {k}
      ensures old(IsBST(root)) ==>
                forall x :: Lookup(root, x) == if x == k then None else old(Lookup(root, x))
      ensures old(Ordered(root)) ==>
                (r == Fail(InvalidKey) <==> old(root).Node? && k !in old(Keys(root)))
      ensures Keys(root) <= old(Keys(root))
      ensures old(Ordered(root)) ==> Ordered(root)
      ensures old(Ordered(root)) ==> forall x :: x != k ==> Lookup(root, x) == old(Lookup(root, x))
      ensures old(WellFormed()) ==> WellFormed()
    {
      if root.Leaf? {
        return Pass;
      }
      var present := ContainsKey(k);
      if !present {
        return Fail(InvalidKey);
      }
      if Ordered(root) {
        forall x ensures x != k ==> Lookup(RemoveIntended(root, k), x) == Lookup(root, x) {
          RemoveIntendedLookup(root, k, x);
        }
        LookupIsMembership(root, k);
      }
      if IsBST(root) {
        forall x ensures Lookup(RemoveIntended(root, k), x) == if x == k then None else Lookup(root, x) {
          RemoveIntendedLookup(root, k, x);
        }
      }
      root := RemoveIntended(root, k);
      size := if size == 0 then SizeLimit - 1 else size - 1;
      r := Pass;
    }

    /** `Get`: throws "Empty tree" when the counter is zero, "Invalid Key" when
        `ContainsKey` fails, and otherwise descends to the key's node. */
    method Get(k: int) returns (r: Result<V>)
      ensures size == 0 ==> r == Err(EmptyTree)
      ensures size != 0 && Lookup(root, k).None? ==> r == Err(InvalidKey)
      ensures size != 0 && Lookup(root, k).Some? ==> r == Ok(Lookup(root, k).value)
      ensures r.Ok? ==> k in Keys(root) && r.value in Values(root)
      ensures size != 0 && Ordered(root) ==> (r.Ok? <==> k in Keys(root))
      ensures WellFormed() ==> (r.Ok? <==> k in Keys(root))
    {
      if size == 0 {
        return Err(EmptyTree);
      }
      var present := ContainsKey(k);
      if !present {
        return Err(InvalidKey);
      }
      LookupFindsKey(root, k);
      var n := root;
      while n.Node?
        invariant Lookup(n, k) == Lookup(root, k)
        decreases n
      {
        if k == n.key {
          return Ok(n.value);
        } else if k < n.key {
          n := n.left;
        } else {
          n := n.right;
        }
      }
      assert false;
    }

    /** `FloorKey`: the greatest key not above `k`. Throws "Empty tree" when the
        counter is zero and "No Floor" when `k` is below `MinKey()`. */
    method FloorKey(k: int) returns (r: Result<int>)
      requires size == 0 || root.Node?
      ensures r == Err(EmptyTree) <==> size == 0
      ensures size != 0 ==> (r == Err(NoFloor) <==> k < MinNode(root).key)
      ensures r.Err? ==> r == Err(EmptyTree) || r == Err(NoFloor)
      ensures r.Ok? ==> r.value in Keys(root) && r.value <= k
      ensures r.Ok? && Ordered(root) ==> forall x :: x in Keys(root) && x <= k ==> x <= r.value
      ensures Ordered(root) && size != 0 ==> (r.Ok? <==> exists x :: x in Keys(root) && x <= k)
    {
      if size == 0 {
        return Err(EmptyTree);
      }
      var least := MinKey();
      if k < least.value {
        return Err(NoFloor);
      }
      if k == least.value {
        return Ok(k);
      }
      var n := root;
      var floor: Option<int> := None;
      while n.Node?
        invariant Keys(n) <= Keys(root)
        invariant floor.None? ==> n.Node? && MinNode(n).key == least.value
        invariant floor.Some? ==> floor.value in Keys(root) && floor.value < k
        invariant Ordered(root) ==> Ordered(n)
        invariant Ordered(root) && floor.Some? ==> forall y :: y in Keys(n) ==> floor.value <= y
        invariant Ordered(root) ==> forall x :: x in Keys(root) && x <= k && (floor.None? || floor.value < x) ==> x in Keys(n)
        decreases n
      {
        if n.key == k {
          return Ok(n.key);
        } else if k < n.key {
          ghost var parent := n;
          n := n.left;
          if Ordered(root) {
            forall x | x in Keys(root) && x <= k && (floor.None? || floor.value < x)
              ensures x in Keys(n)
            {
              assert x in Keys(parent) && x < parent.key;
            }
          }
        } else {
          ghost var parent, below := n, floor;
          floor := Some(n.key);
          n := n.right;
          if Ordered(root) {
            assert below.Some? ==> below.value <= parent.key;
            forall x | x in Keys(root) && x <= k && floor.value < x
              ensures x in Keys(n)
            {
              assert x in Keys(parent) && parent.key < x;
            }
          }
        }
      }
      return Ok(floor.value);
    }

    /** `CeilKey`: the least key not below `k`. Throws "Empty tree" when the
        counter is zero and "No Ceil" when `k` is above `MaxKey()`. */
    method CeilKey(k: int) returns (r: Result<int>)
      requires size == 0 || root.Node?
      ensures r == Err(EmptyTree) <==> size == 0
      ensures size != 0 ==> (r == Err(NoCeil) <==> RightmostKey(root) < k)
      ensures r.Err? ==> r == Err(EmptyTree) || r == Err(NoCeil)
      ensures r.Ok? ==> r.value in Keys(root) && k <= r.value
      ensures r.Ok? && Ordered(root) ==> forall x :: x in Keys(root) && k <= x ==> r.value <= x
      ensures Ordered(root) && size != 0 ==> (r.Ok? <==> exists x :: x in Keys(root) && k <= x)
    {
      if size == 0 {
        return Err(EmptyTree);
      }
      var greatest := MaxKey();
      if k > greatest.value {
        return Err(NoCeil);
      }
      if k == greatest.value {
        return Ok(k);
      }
      var n := root;
      var ceil: Option<int> := None;
      while n.Node?
        invariant Keys(n) <= Keys(root)
        invariant ceil.None? ==> n.Node? && RightmostKey(n) == greatest.value
        invariant ceil.Some? ==> ceil.value in Keys(root) && k < ceil.value
        invariant Ordered(root) ==> Ordered(n)
        invariant Ordered(root) && ceil.Some? ==> forall y :: y in Keys(n) ==> y < ceil.value
        invariant Ordered(root) ==> forall x :: x in Keys(root) && k <= x && (ceil.None? || x < ceil.value) ==> x in Keys(n)
        decreases n
      {
        if n.key == k {
          return Ok(n.key);
        } else if k > n.key {
          ghost var parent := n;
          n := n.right;
          if Ordered(root) {
            forall x | x in Keys(root) && k <= x && (ceil.None? || x < ceil.value)
              ensures x in Keys(n)
            {
              assert x in Keys(parent) && parent.key < x;
            }
          }
        } else {
          ghost var parent, above := n, ceil;
          ceil := Some(n.key);
          n := n.left;
          if Ordered(root) {
            assert above.Some? ==> parent.key < above.value;
            forall x | x in Keys(root) && k <= x && x < ceil.value
              ensures x in Keys(n)
            {
              assert x in Keys(parent) && x < parent.key;
            }
          }
        }
      }
      return Ok(ceil.value);
    }

    /** `ContainsKey`: the descent from the root, never throws. */
    method ContainsKey(k: int) returns (found: bool)
      ensures found <==> Lookup(root, k).Some?
      ensures Ordered(root) ==> (found <==> k in Keys(root))
    {
      if Ordered(root) {
        LookupIsMembership(root, k);
      }
      var n := root;
      while n.Node?
        invariant Lookup(n, k) == Lookup(root, k)
        decreases n
      {
        if k == n.key {
          return true;
        }
        if k < n.key {
          n := n.left;
        } else {
          n := n.right;
        }
      }
      return false;
    }

    /** `ContainsValue`: a pre-order search of every node, never throws. */
    function ContainsValue(v: V): (found: bool)
      reads this
      ensures found <==> v in Values(root)
      ensures IsBST(root) ==> (found <==> exists x :: x in Keys(root) && Lookup(root, x) == Some(v))
    {
      ValuesAreLookups(root, v);
      PreOrderRecur(root, v)
    }

    /** `MaxKey`: throws "Empty tree" when the counter is zero, otherwise
        follows right children to the end. */
    method MaxKey() returns (r: Result<int>)
      requires size == 0 || root.Node?
      ensures r.Err? <==> size == 0
      ensures r.Err? ==> r.error == EmptyTree
      ensures r.Ok? ==> r.value == RightmostKey(root) && r.value in Keys(root)
      ensures r.Ok? && Ordered(root) ==> forall x :: x in Keys(root) ==> x <= r.value
    {
      if size == 0 {
        return Err(EmptyTree);
      }
      var n := root;
      while n.right.Node?
        invariant n.Node? && RightmostKey(n) == RightmostKey(root)
        decreases n
      {
        n := n.right;
      }
      return Ok(n.key);
    }

    /** `MinKey`: throws "Empty tree" when the counter is zero, otherwise the
        key of `MinNode(root)`. */
    function MinKey(): (r: Result<int>)
      reads this
      requires size == 0 || root.Node?
      ensures r.Err? <==> size == 0
      ensures r.Err? ==> r.error == EmptyTree
      ensures r.Ok? ==> r.value in Keys(root)
      ensures r.Ok? && Ordered(root) ==> forall x :: x in Keys(root) ==> r.value <= x
    {
      if size == 0 then Err(EmptyTree) else Ok(MinNode(root).key)
    }
  }
}
