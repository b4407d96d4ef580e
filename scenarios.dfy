/** Client scenarios: the unit-test fixtures of the tree map, restated as
    methods whose postconditions follow from the contracts of `Treemap` alone,
    and a trace of the two-children removal defect. */
module Scenarios {
  import opened Results
  import opened Trees
  import opened Treemaps

  /** A fresh map is empty and `Get` on it reports the empty tree. */
  method EmptyMap() returns (empty: bool, count: nat, got: Result<int>)
    ensures empty && count == 0 && got == Err(EmptyTree)
  {
    var m := new Treemap<int>();
    empty := m.Empty();
    count := m.Size();
    got := m.Get(42);
  }

  /** Two insertions: not empty, two entries, least 23, greatest 42, and 23
      maps to 'A'. */
  method OneKey() returns (empty: bool, count: nat, least: Result<int>, greatest: Result<int>, got: Result<char>)
    ensures !empty && count == 2
    ensures least == Ok(23) && greatest == Ok(42) && got == Ok('A')
  {
    var m := new Treemap<char>();
    var r := m.Insert(23, 'A');
    r := m.Insert(42, 'B');
    empty := m.Empty();
    count := m.Size();
    least := m.MinKey();
    greatest := m.MaxKey();
    got := m.Get(23);
  }

  /** Removing the root of a two-node chain splices its only child in. */
  method RemoveRoot() returns (removed: Outcome, empty: bool, count: nat, greatest: Result<int>, got: Result<char>)
    ensures removed == Pass && !empty && count == 1
    ensures greatest == Ok(42) && got == Ok('B')
  {
    var m := new Treemap<char>();
    var r := m.Insert(23, 'A');
    r := m.Insert(42, 'B');
    assert m.root == Node(Leaf, 23, 'A', Node(Leaf, 42, 'B', Leaf));
    removed := m.Remove(23);
    empty := m.Empty();
    count := m.Size();
    greatest := m.MaxKey();
    got := m.Get(42);
  }

  /** Membership by key and by value. */
  method Contains() returns (has23: bool, has56: bool, holdsB: bool, holds23: bool)
    ensures has23 && !has56 && holdsB && !holds23
  {
    var m := new Treemap<char>();
    var r := m.Insert(23, 'A');
    r := m.Insert(42, 'B');
    has23 := m.ContainsKey(23);
    has56 := m.ContainsKey(56);
    holdsB := m.ContainsValue('B');
    holds23 := m.ContainsValue(23 as char);
  }

  /** The keys of the floor and ceiling fixture. */
  const FixtureKeys: set<int> := {51, 43, 93, 18, 54, 99, 2, 42, 74}

  /** The nine-key map of the floor and ceiling fixture. */
  method NineKeys() returns (m: Treemap<char>)
    ensures fresh(m) && m.WellFormed()
    ensures Keys(m.root) == FixtureKeys
  {
    m := new Treemap<char>();
    var keys := [51, 43, 93, 18, 54, 99, 2, 42, 74];
    var values := "ABCDEFGHI";
    for i := 0 to |keys|
      invariant m.WellFormed() && m.size == i
      invariant forall x :: x in Keys(m.root) <==> x in keys[..i]
    {
      var r := m.Insert(keys[i], values[i]);
      assert keys[..i + 1] == keys[..i] + [keys[i]];
    }
    assert keys[..|keys|] == keys;
    forall x ensures x in Keys(m.root) <==> x in FixtureKeys {
      assert x in keys <==> x in FixtureKeys;
    }
  }

  /** Floor and ceiling over nine keys, and the two range errors. */
  method FloorCeil() returns (floor25: Result<int>, ceil25: Result<int>, ceil100: Result<int>, floor1: Result<int>)
    ensures floor25 == Ok(18) && ceil25 == Ok(42)
    ensures ceil100 == Err(NoCeil) && floor1 == Err(NoFloor)
  {
    var m := NineKeys();
    floor25 := FloorOfFixture(m, 25, 18);
    ceil25 := CeilOfFixture(m, 25, 42);
    ceil100 := CeilAboveFixture(m, 100);
    floor1 := FloorBelowFixture(m, 1);
  }

  /** On the fixture map, the floor of `k` is `f` when `f` is the greatest
      fixture key not above `k`. */
  method FloorOfFixture(m: Treemap<char>, k: int, f: int) returns (r: Result<int>)
    requires m.WellFormed() && Keys(m.root) == FixtureKeys
    requires f in FixtureKeys && f <= k
    requires forall x :: x in FixtureKeys && x <= k ==> x <= f
    ensures r == Ok(f)
  {
    r := m.FloorKey(k);
  }

  /** On the fixture map, the ceiling of `k` is `c` when `c` is the least
      fixture key not below `k`. */
  method CeilOfFixture(m: Treemap<char>, k: int, c: int) returns (r: Result<int>)
    requires m.WellFormed() && Keys(m.root) == FixtureKeys
    requires c in FixtureKeys && k <= c
    requires forall x :: x in FixtureKeys && k <= x ==> c <= x
    ensures r == Ok(c)
  {
    r := m.CeilKey(k);
  }

  /** On the fixture map, `k` above every fixture key has no ceiling. */
  method CeilAboveFixture(m: Treemap<char>, k: int) returns (r: Result<int>)
    requires m.WellFormed() && Keys(m.root) == FixtureKeys
    requires forall x :: x in FixtureKeys ==> x < k
    ensures r == Err(NoCeil)
  {
    r := m.CeilKey(k);
  }

  /** On the fixture map, `k` below every fixture key has no floor. */
  method FloorBelowFixture(m: Treemap<char>, k: int) returns (r: Result<int>)
    requires m.WellFormed() && Keys(m.root) == FixtureKeys
    requires forall x :: x in FixtureKeys ==> k < x
    ensures r == Err(NoFloor)
  {
    r := m.FloorKey(k);
  }

  /** Every error the map raises: empty `Get`, duplicate `Insert`, absent
      `Remove`, absent `Get`. */
  method Exceptions() returns (getEmpty: Result<char>, dup: Outcome, gone: Outcome, getAbsent: Result<char>)
    ensures getEmpty == Err(EmptyTree) && dup == Fail(DuplicateKey)
    ensures gone == Fail(InvalidKey) && getAbsent == Err(InvalidKey)
  {
    var m := new Treemap<char>();
    getEmpty := m.Get(42);
    var r := m.Insert(51, 'A');
    r := m.Insert(43, 'B');
    r := m.Insert(93, 'C');
    r := m.Insert(18, 'D');
    r := m.Insert(54, 'E');
    dup := m.Insert(18, 'D');
    gone := m.Remove(25);
    getAbsent := m.Get(52);
  }

  /** The two-children removal leaves the successor node behind: after
      inserting 2, 1, 3 and removing 2, key 3 is held twice and the counter
      says 2 for 3 nodes. Removing 3 then rewrites the root with itself each
      time, so the counter reaches 0 (`Empty()` holds over three nodes) and
      then wraps to the largest 64-bit `size_t`. */
  method SuccessorLeftBehind() returns (afterFirst: nat, emptyWithNodes: bool, wrapped: nat, ghost nodes: nat)
    ensures afterFirst == 2 && emptyWithNodes && wrapped == SizeLimit - 1 && nodes == 3
  {
    var m := ThreeNodes();
    RemoveRootOfThree(m);
    afterFirst := m.Size();
    RemoveDuplicatedRoot(m);
    RemoveDuplicatedRoot(m);
    emptyWithNodes := m.Empty();
    RemoveDuplicatedRoot(m);
    wrapped := m.Size();
    nodes := Count(m.root);
  }

  /** The queries still answer by key after the defect: the tree left by
      removing 2 from `ThreeNodes()` is not a BST but is still ordered, so the
      floor of 5 is 3, key 3 is found and key 2 is not. */
  method QueriesAfterDefect() returns (floor5: Result<int>, has3: bool, has2: bool)
    ensures floor5 == Ok(3) && has3 && !has2
  {
    var m := ThreeNodes();
    RemoveRootOfThree(m);
    assert Keys(m.root) == {1, 3};
    floor5 := m.FloorKey(5);
    has3 := m.ContainsKey(3);
    has2 := m.ContainsKey(2);
  }

  /** The tree left behind by removing 2 from `ThreeNodes()`. */
  ghost function SuccessorTwice(): Tree<char>
  {
    Node(Node(Leaf, 1, 'a', Leaf), 3, 'c', Node(Leaf, 3, 'c', Leaf))
  }

  /** Removing 2, which has two children, copies 3 up and keeps its node. */
  method RemoveRootOfThree(m: Treemap<char>)
    requires m.root == Node(Node(Leaf, 1, 'a', Leaf), 2, 'b', Node(Leaf, 3, 'c', Leaf)) && m.size == 3
    modifies m
    ensures m.root == SuccessorTwice() && m.size == 2
  {
    assert Lookup(m.root, 2) == Some('b');
    assert RemoveAt(m.root, 2) == SuccessorTwice();
    var r := m.Remove(2);
  }

  /** Removing 3 from that tree matches the root, which has two children, and
      rewrites it with the right subtree's minimum, 3 again: the tree is
      unchanged and only the counter moves. */
  method RemoveDuplicatedRoot(m: Treemap<char>)
    requires m.root == SuccessorTwice()
    modifies m
    ensures m.root == SuccessorTwice()
    ensures m.size == if old(m.size) == 0 then SizeLimit - 1 else old(m.size) - 1
  {
    assert Lookup(m.root, 3) == Some('c') && RemoveAt(m.root, 3) == m.root;
    var r := m.Remove(3);
  }

  /** Keys 2, 1, 3 inserted in that order: a root with two leaf children. */
  method ThreeNodes() returns (m: Treemap<char>)
    ensures fresh(m) && m.size == 3
    ensures m.root == Node(Node(Leaf, 1, 'a', Leaf), 2, 'b', Node(Leaf, 3, 'c', Leaf))
  {
    m := new Treemap<char>();
    var r := m.Insert(2, 'b');
    assert m.root == Node(Leaf, 2, 'b', Leaf);
    r := m.Insert(1, 'a');
    assert m.root == Node(Node(Leaf, 1, 'a', Leaf), 2, 'b', Leaf);
    r := m.Insert(3, 'c');
  }
}
