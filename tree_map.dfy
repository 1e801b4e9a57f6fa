/**
 * MyTreeMap: a map from integer keys to values kept as an unbalanced
 * binary search tree of heap nodes whose fields are updated in place.
 *
 * Every node carries, as ghost state, the set of objects of its subtree
 * (`Repr`) and the abstract tree it stands for (`T`); the map's operations
 * are proved against the functions of module BinaryTree on that tree.
 */
module TreeMap {
  import opened Results
  import opened BinaryTree

  class Node<V> {
    var key: int
    var value: V
    var left: Node?<V>
    var right: Node?<V>

    ghost var T: Tree<V>
    ghost var Repr: set<object>

    /** The subtree is finite, acyclic and unshared, and `T` is its abstract value. */
    ghost predicate Valid()
      reads this, Repr
      ensures Valid() ==> this in Repr
      decreases Repr
    {
      this in Repr &&
      (left != null ==>
        left in Repr && left.Repr <= Repr && this !in left.Repr && left.Valid()) &&
      (right != null ==>
        right in Repr && right.Repr <= Repr && this !in right.Repr && right.Valid()) &&
      (left != null && right != null ==> left.Repr !! right.Repr) &&
      T == Branch(TreeOf(left), key, value, TreeOf(right))
    }

    /** A detached node with no children. */
    constructor (key: int, value: V)
      ensures Valid() && fresh(Repr)
      ensures this.key == key && this.value == value && left == null && right == null
      ensures T == Branch(Leaf, key, value, Leaf)
    {
      this.key := key;
      this.value := value;
      left := null;
      right := null;
      T := Branch(Leaf, key, value, Leaf);
      Repr := {this};
    }
  }

  /** The abstract tree of a possibly-null subtree. */
  ghost function TreeOf<V>(n: Node?<V>): Tree<V>
    reads n
  {
    if n == null then Leaf else n.T
  }

  /** The objects of a possibly-null subtree. */
  ghost function ReprOf<V>(n: Node?<V>): set<object>
    reads n
  {
    if n == null then {} else n.Repr
  }

  ghost predicate ValidOrNull<V>(n: Node?<V>)
    reads n, ReprOf(n)
  {
    n != null ==> n.Valid()
  }

  /** Null-safe equality of two keys or two values. */
  function Equals<V(==)>(target: Option<V>, obj: Option<V>): (r: bool)
    ensures r <==> target == obj
  {
    if target.None? then obj.None? else obj.Some? && target.value == obj.value
  }

  /** The height of a subtree: 0 when empty, else one more than its higher child. */
  function HeightHelper<V>(node: Node?<V>): (h: nat)
    requires ValidOrNull(node)
    reads node, ReprOf(node)
    ensures h == Height(TreeOf(node))
    decreases ReprOf(node)
  {
    if node == null then 0
    else
      var left := HeightHelper(node.left);
      var right := HeightHelper(node.right);
      (if left < right then right else left) + 1
  }

  /** The value search as written, which skips the right child whenever a left child exists. */
  function ContainsValueHelp<V(==)>(root: Node<V>, tg: V): (r: bool)
    requires root.Valid()
    reads root.Repr
    ensures r == SearchValueAsWritten(root.T, tg)
    ensures r ==> tg in Values(root.T)
    decreases root.Repr
  {
    if tg == root.value then true
    else if root.left != null then ContainsValueHelp(root.left, tg)
    else if root.right != null then ContainsValueHelp(root.right, tg)
    else false
  }

  /** A full search that visits both children: true exactly when some node holds `tg`. */
  function ContainsValueFull<V(==)>(node: Node?<V>, tg: V): (r: bool)
    requires ValidOrNull(node)
    reads node, ReprOf(node)
    ensures r <==> tg in Values(TreeOf(node))
    decreases ReprOf(node)
  {
    if node == null then false
    else tg == node.value || ContainsValueFull(node.left, tg) || ContainsValueFull(node.right, tg)
  }

  /** A key added to an insertion-ordered set, as LinkedHashSet.add does. */
  function AddKey(s: seq<int>, k: int): seq<int>
  {
    if k in s then s else s + [k]
  }

  /** The keys of `ks` added one after the other to `s`. */
  function AddKeys(s: seq<int>, ks: seq<int>): seq<int>
    decreases |ks|
  {
    if ks == [] then s else AddKeys(AddKey(s, ks[0]), ks[1..])
  }

  /** Adding keys that are pairwise distinct and new appends them in order. */
  lemma {:induction false} AddKeysFresh(s: seq<int>, ks: seq<int>)
    requires StrictlyIncreasing(ks)
    requires forall i :: 0 <= i < |ks| ==> ks[i] !in s
    ensures AddKeys(s, ks) == s + ks
    decreases |ks|
  {
    if ks != [] {
      assert AddKey(s, ks[0]) == s + [ks[0]];
      forall i | 0 <= i < |ks[1..]| ensures ks[1..][i] !in s + [ks[0]] {
        assert ks[1..][i] == ks[i + 1];
      }
      AddKeysFresh(s + [ks[0]], ks[1..]);
      assert s + [ks[0]] + ks[1..] == s + ks;
    }
  }

  lemma {:induction false} AddKeysMembers(s: seq<int>, ks: seq<int>)
    ensures forall x :: x in AddKeys(s, ks) <==> x in s || x in ks
    decreases |ks|
  {
    if ks != [] {
      AddKeysMembers(AddKey(s, ks[0]), ks[1..]);
      assert forall x :: x in ks <==> x == ks[0] || x in ks[1..];
    }
  }

  lemma {:induction false} AddKeysAppend(s: seq<int>, a: seq<int>, b: seq<int>)
    ensures AddKeys(s, a + b) == AddKeys(AddKeys(s, a), b)
    decreases |a|
  {
    if a != [] {
      assert (a + b)[0] == a[0] && (a + b)[1..] == a[1..] + b;
      AddKeysAppend(AddKey(s, a[0]), a[1..], b);
    } else {
      assert a + b == b;
    }
  }

  /** The trees of a stack of possibly-null nodes, as the values() walk holds them. */
  ghost predicate StackMatches<V>(stack: seq<Node?<V>>, trees: seq<Tree<V>>)
    reads set i | 0 <= i < |stack| && stack[i] != null :: stack[i]
    reads set i, o | 0 <= i < |stack| && stack[i] != null && o in stack[i].Repr :: o
  {
    |stack| == |trees| &&
    forall i :: 0 <= i < |stack| ==>
      (stack[i] == null ==> trees[i] == Leaf) &&
      (stack[i] != null ==> stack[i].Valid() && stack[i].T == trees[i])
  }

  /** Popping the top of a matched stack leaves a matched stack. */
  lemma StackMatchesPop<V>(stack: seq<Node?<V>>, trees: seq<Tree<V>>)
    requires stack != [] && StackMatches(stack, trees)
    ensures StackMatches(stack[1..], trees[1..])
  {
    forall i | 0 <= i < |stack| - 1
      ensures (stack[1..][i] == null ==> trees[1..][i] == Leaf) &&
        (stack[1..][i] != null ==> stack[1..][i].Valid() && stack[1..][i].T == trees[1..][i])
    {
      assert stack[1..][i] == stack[i + 1] && trees[1..][i] == trees[i + 1];
    }
  }

  /** Pushing a subtree together with its abstract value keeps a stack matched. */
  lemma StackMatchesPush<V>(n: Node?<V>, stack: seq<Node?<V>>, trees: seq<Tree<V>>)
    requires ValidOrNull(n) && StackMatches(stack, trees)
    ensures StackMatches([n] + stack, [TreeOf(n)] + trees)
  {
    var s', t' := [n] + stack, [TreeOf(n)] + trees;
    forall i | 0 <= i < |s'|
      ensures (s'[i] == null ==> t'[i] == Leaf) &&
        (s'[i] != null ==> s'[i].Valid() && s'[i].T == t'[i])
    {
      if i > 0 {
        assert s'[i] == stack[i - 1] && t'[i] == trees[i - 1];
      }
    }
  }

  /** The values of all trees on a stack. */
  ghost function StackValues<V>(trees: seq<Tree<V>>): set<V>
    decreases |trees|
  {
    if trees == [] then {} else Values(trees[0]) + StackValues(trees[1..])
  }

  /** Work left on a stack: each node is popped once and each empty slot once. */
  function StackWork<V>(trees: seq<Tree<V>>): nat
    decreases |trees|
  {
    if trees == [] then 0 else 2 * Size(trees[0]) + 1 + StackWork(trees[1..])
  }

  class MyTreeMap<V(==)> {
    var size: int
    var root: Node?<V>

    ghost var Repr: set<object>

    /** The node graph is a proper tree owned by this map. */
    ghost predicate WellFormed()
      reads this, Repr
      ensures WellFormed() ==> this in Repr
    {
      this in Repr &&
      (root != null ==>
        root in Repr && root.Repr <= Repr && this !in root.Repr && root.Valid())
    }

    /** The abstract tree the map holds. */
    ghost function Abs(): Tree<V>
      reads this, root
    {
      TreeOf(root)
    }

    /** The map's invariant: a search tree whose `size` counts its nodes. */
    ghost predicate Valid()
      reads this, Repr
    {
      WellFormed() && Ordered(Abs()) && size == BinaryTree.Size(Abs())
    }

    constructor ()
      ensures Valid() && fresh(Repr)
      ensures root == null && size == 0
    {
      size := 0;
      root := null;
      Repr := {this};
    }

    method Clear()
      requires WellFormed()
      modifies this
      ensures Valid() && fresh(Repr - old(Repr))
      ensures root == null && size == 0 && Abs() == Leaf
    {
      size := 0;
      root := null;
      Repr := {this};
    }

    /**
     * The node whose key equals `target`, or null. The descent takes at
     * most `Height` steps.
     */
    method FindNode(target: Option<int>) returns (r: Result<Node?<V>>, ghost steps: nat)
      requires WellFormed()
      ensures target.None? <==> r == Err(NullPointerException)
      ensures target.Some? ==> r.Ok?
      ensures target.Some? ==> (r.value == null <==> Lookup(Abs(), target.value).None?)
      ensures target.Some? && r.value != null ==>
        r.value in Repr && r.value.key == target.value &&
        Lookup(Abs(), target.value) == Some(r.value.value)
      ensures target.Some? ==> steps <= BinaryTree.Height(Abs())
    {
      if target.None? {
        return Err(NullPointerException), 0;
      }
      var k := target.value;
      var start := root;
      steps := 0;
      while start != null
        invariant ValidOrNull(start) && ReprOf(start) <= Repr
        invariant Lookup(TreeOf(start), k) == Lookup(Abs(), k)
        invariant steps + BinaryTree.Height(TreeOf(start)) <= BinaryTree.Height(Abs())
        decreases BinaryTree.Height(TreeOf(start))
      {
        if k == start.key {
          return Ok(start), steps;
        } else if k < start.key {
          start := start.left;
        } else {
          start := start.right;
        }
        steps := steps + 1;
      }
      return Ok(null), steps;
    }

    method ContainsKey(target: Option<int>) returns (r: Result<bool>)
      requires WellFormed()
      ensures target.None? ==> r == Err(NullPointerException)
      ensures target.Some? ==> r == Ok(Lookup(Abs(), target.value).Some?)
      ensures Valid() && target.Some? ==> r == Ok(target.value in Keys(Abs()))
    {
      var found, _ := FindNode(target);
      if found.Err? {
        return Err(found.error);
      }
      if Valid() && target.Some? {
        LookupFindsKeys(Abs(), target.value);
      }
      return Ok(found.value != null);
    }

    method Get(key: Option<int>) returns (r: Result<Option<V>>)
      requires WellFormed()
      ensures key.None? ==> r == Err(NullPointerException)
      ensures key.Some? ==> r == Ok(Lookup(Abs(), key.value))
      ensures Valid() && key.Some? ==>
        r == Ok(if key.value in Contents(Abs()) then Some(Contents(Abs())[key.value]) else None)
    {
      var found, _ := FindNode(key);
      if found.Err? {
        return Err(found.error);
      }
      if Valid() && key.Some? {
        LookupContents(Abs(), key.value);
      }
      if found.value == null {
        return Ok(None);
      }
      return Ok(Some(found.value.value));
    }

    /**
     * containsValue as written: a null target or an empty map dereferences
     * null; otherwise the one-sided search of ContainsValueHelp.
     */
    method ContainsValue(target: Option<V>) returns (r: Result<bool>)
      requires WellFormed()
      ensures target.None? || root == null <==> r == Err(NullPointerException)
      ensures target.Some? && root != null ==> r == Ok(SearchValueAsWritten(Abs(), target.value))
      ensures r == Ok(true) ==> target.Some? && target.value in BinaryTree.Values(Abs())
    {
      if target.None? || root == null {
        return Err(NullPointerException);
      }
      return Ok(ContainsValueHelp(root, target.value));
    }

    /** containsValue with a full traversal, answering false on an empty map. */
    method ContainsValueCorrected(target: Option<V>) returns (r: Result<bool>)
      requires WellFormed()
      ensures target.None? ==> r == Err(NullPointerException)
      ensures target.Some? ==> r == Ok(target.value in BinaryTree.Values(Abs()))
      ensures Valid() && target.Some? ==> r == Ok(target.value in MapValues(Contents(Abs())))
    {
      if target.None? {
        return Err(NullPointerException);
      }
      if Valid() {
        ValuesContents(Abs());
      }
      return Ok(ContainsValueFull(root, target.value));
    }

    method EntrySet() returns (r: Result<()>)
      ensures r == Err(UnsupportedOperationException)
    {
      return Err(UnsupportedOperationException);
    }

    method Remove(key: Option<int>) returns (r: Result<Option<V>>)
      ensures r == Err(UnsupportedOperationException)
    {
      return Err(UnsupportedOperationException);
    }

    method IsEmpty() returns (r: bool)
      ensures r <==> size == 0
      ensures Valid() ==> (r <==> Abs() == Leaf)
    {
      return size == 0;
    }

    method Size() returns (n: int)
      ensures n == size
      ensures Valid() ==> n == |Keys(Abs())| && n == BinaryTree.Size(Abs())
    {
      if Valid() {
        SizeIsKeyCount(Abs());
      }
      return size;
    }

    /**
     * The keys of the in-order walk, each kept at its first occurrence; on
     * a search tree they are all keys, in strictly ascending order.
     */
    method KeySet() returns (keys: seq<int>)
      requires WellFormed()
      ensures forall k :: k in keys <==> k in Keys(Abs())
      ensures Ordered(Abs()) ==> keys == InOrder(Abs()) && StrictlyIncreasing(keys)
      ensures Valid() ==> |keys| == size
    {
      keys := KeySetHelp([], root);
      InOrderKeys(Abs());
      AddKeysMembers([], InOrder(Abs()));
      if Ordered(Abs()) {
        InOrderAscending(Abs());
        AddKeysFresh([], InOrder(Abs()));
      }
    }

    /** Adds the keys of the subtree at `start`, in in-order, to the insertion-ordered set `inorder`. */
    method KeySetHelp(inorder: seq<int>, start: Node?<V>) returns (r: seq<int>)
      requires ValidOrNull(start)
      ensures r == AddKeys(inorder, InOrder(TreeOf(start)))
      decreases ReprOf(start)
    {
      if start == null {
        return inorder;
      }
      r := KeySetHelp(inorder, start.left);
      r := AddKey(r, start.key);
      r := KeySetHelp(r, start.right);
      AddKeysAppend(inorder, InOrder(TreeOf(start.left)), [start.key]);
      AddKeysAppend(inorder, InOrder(TreeOf(start.left)) + [start.key], InOrder(TreeOf(start.right)));
    }

    /**
     * The set of values at reachable nodes, by a walk over an explicit
     * stack that pops each node once and each null slot once.
     */
    method Values() returns (s: set<V>, ghost pops: nat)
      requires WellFormed()
      ensures s == BinaryTree.Values(Abs())
      ensures pops == 2 * BinaryTree.Size(Abs()) + 1
    {
      s := {};
      pops := 0;
      var stack: seq<Node?<V>> := [root];
      ghost var trees: seq<Tree<V>> := [Abs()];
      assert StackWork(trees) == 2 * BinaryTree.Size(Abs()) + 1 + StackWork(trees[1..]);
      while stack != []
        invariant StackMatches(stack, trees)
        invariant s + StackValues(trees) == BinaryTree.Values(Abs())
        invariant pops + StackWork(trees) == 2 * BinaryTree.Size(Abs()) + 1
        decreases StackWork(trees)
      {
        var node := stack[0];
        pops := pops + 1;
        assert StackValues(trees) == BinaryTree.Values(trees[0]) + StackValues(trees[1..]);
        assert StackWork(trees) == 2 * BinaryTree.Size(trees[0]) + 1 + StackWork(trees[1..]);
        StackMatchesPop(stack, trees);
        if node == null {
          stack, trees := stack[1..], trees[1..];
          continue;
        }
        s := s + {node.value};
        ghost var rest := trees[1..];
        StackMatchesPush(node.left, stack[1..], rest);
        StackMatchesPush(node.right, [node.left] + stack[1..], [TreeOf(node.left)] + rest);
        assert [node.right] + ([node.left] + stack[1..]) == [node.right, node.left] + stack[1..];
        assert [TreeOf(node.right)] + ([TreeOf(node.left)] + rest) == [TreeOf(node.right), TreeOf(node.left)] + rest;
        stack := [node.right, node.left] + stack[1..];
        trees := [TreeOf(node.right), TreeOf(node.left)] + rest;
        assert trees[1..] == [TreeOf(node.left)] + rest;
        assert trees[1..][1..] == rest;
        assert StackWork(trees) == 2 * BinaryTree.Size(TreeOf(node.right)) + 1
          + 2 * BinaryTree.Size(TreeOf(node.left)) + 1 + StackWork(rest);
      }
    }

    method Height() returns (h: nat)
      requires WellFormed()
      ensures h == BinaryTree.Height(Abs())
      ensures h <= BinaryTree.Size(Abs())
    {
      HeightAtMostSize(Abs());
      return HeightHelper(root);
    }

    /**
     * Put into the subtree at `node`: overwrite the value at an equal key
     * and return the old one, or hang a new leaf at the empty slot where the
     * descent ends and count it in `size`.
     */
    method PutHelper(node: Node<V>, key: int, value: V) returns (prev: Option<V>)
      requires node.Valid() && this !in node.Repr
      modifies node.Repr, this`size
      ensures node.Valid() && fresh(node.Repr - old(node.Repr))
      ensures node.T == Insert(old(node.T), key, value)
      ensures prev == Lookup(old(node.T), key)
      ensures size == old(size) + (if prev.None? then 1 else 0)
      decreases node.Repr
    {
      if key < node.key {
        if node.left == null {
          var n := new Node(key, value);
          node.left := n;
          size := size + 1;
          prev := None;
        } else {
          prev := PutHelper(node.left, key, value);
        }
        node.Repr := node.Repr + node.left.Repr;
      } else if key > node.key {
        if node.right == null {
          var n := new Node(key, value);
          node.right := n;
          size := size + 1;
          prev := None;
        } else {
          prev := PutHelper(node.right, key, value);
        }
        node.Repr := node.Repr + node.right.Repr;
      } else {
        prev := Some(node.value);
        node.value := value;
      }
      node.T := Branch(TreeOf(node.left), node.key, node.value, TreeOf(node.right));
    }

    /**
     * put: a null key throws before anything changes; an empty map gets
     * the key as its root; otherwise PutHelper from the root. Returns the
     * previous value of the key, if any.
     */
    method Put(key: Option<int>, value: V) returns (r: Result<Option<V>>)
      requires WellFormed()
      modifies Repr
      ensures WellFormed() && fresh(Repr - old(Repr))
      ensures key.None? ==> r == Err(NullPointerException) && unchanged(this) && unchanged(old(Repr))
      ensures key.Some? ==> r == Ok(Lookup(old(Abs()), key.value))
      ensures key.Some? ==> Abs() == Insert(old(Abs()), key.value, value)
      ensures key.Some? ==> size == old(size) + (if r.value.None? then 1 else 0)
      ensures key.Some? && r.value.Some? ==> SameShape(old(Abs()), Abs())
      ensures key.Some? && r.value.None? ==>
        Extends(old(Abs()), Abs()) && BinaryTree.Size(Abs()) == BinaryTree.Size(old(Abs())) + 1
      ensures key.Some? && old(root) == null ==>
        root != null && root.key == key.value && root.value == value && size == old(size) + 1
      ensures old(Valid()) ==> Valid()
    {
      if key.None? {
        return Err(NullPointerException);
      }
      var k := key.value;
      ghost var before := Abs();
      if root == null {
        root := new Node(k, value);
        size := size + 1;
        Repr := Repr + root.Repr;
        r := Ok(None);
      } else {
        var prev := PutHelper(root, k, value);
        Repr := Repr + root.Repr;
        r := Ok(prev);
      }
      SizeInsert(before, k, value);
      if Lookup(before, k).Some? {
        InsertFoundKeepsShape(before, k, value);
      } else {
        InsertMissingAddsLeaf(before, k, value);
      }
      if Ordered(before) {
        InsertOrdered(before, k, value);
      }
    }

    /**
     * putAll over the entries of another map in its iteration order. A null
     * key throws, and the entries before it stay put.
     */
    method PutAll(entries: seq<(Option<int>, V)>) returns (r: Result<()>)
      requires WellFormed()
      modifies Repr
      ensures WellFormed() && fresh(Repr - old(Repr))
      ensures Abs() == PutEntries(old(Abs()), entries).0
      ensures r == if PutEntries(old(Abs()), entries).1 then Err(NullPointerException) else Ok(())
      ensures size - BinaryTree.Size(Abs()) == old(size) - BinaryTree.Size(old(Abs()))
      ensures old(Valid()) ==> Valid()
    {
      var i := 0;
      while i < |entries|
        invariant 0 <= i <= |entries|
        invariant WellFormed() && fresh(Repr - old(Repr))
        invariant PutEntries(Abs(), entries[i..]) == PutEntries(old(Abs()), entries)
        invariant size - BinaryTree.Size(Abs()) == old(size) - BinaryTree.Size(old(Abs()))
        invariant old(Valid()) ==> Valid()
        decreases |entries| - i
      {
        assert entries[i..][1..] == entries[i + 1..];
        ghost var before := Abs();
        var prev := Put(entries[i].0, entries[i].1);
        if entries[i].0.Some? {
          SizeInsert(before, entries[i].0.value, entries[i].1);
        }
        if prev.Err? {
          return Err(prev.error);
        }
        i := i + 1;
      }
      return Ok(());
    }

    /** A detached node, for building trees by hand. */
    method MakeNode(key: int, value: V) returns (n: Node<V>)
      ensures fresh(n) && n.Valid() && fresh(n.Repr)
      ensures n.T == Branch(Leaf, key, value, Leaf)
    {
      n := new Node(key, value);
    }

    /**
     * Installs `node` as the root and `size` as the count, as given: the
     * search-tree invariant and the count are not checked.
     */
    method SetTree(node: Node?<V>, size: int)
      requires ValidOrNull(node) && this !in ReprOf(node)
      modifies this
      ensures WellFormed() && root == node && this.size == size
      ensures Abs() == TreeOf(node)
    {
      root := node;
      this.size := size;
      Repr := {this} + ReprOf(node);
    }
  }
}
