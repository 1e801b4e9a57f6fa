/**
 * The abstract value of a MyTreeMap: the shape, keys and values of its
 * node graph as an inductive tree, with the operations of the map stated
 * as functions on it and their properties proved as lemmas.
 *
 * Keys are integers; Java's `compareTo` becomes `<`, `==` and `>` on `int`.
 */
module BinaryTree {
  import opened Results

  datatype Tree<V> = Leaf | Branch(left: Tree<V>, key: int, value: V, right: Tree<V>)

  /** The keys stored anywhere in `t`. */
  function Keys<V>(t: Tree<V>): set<int>
  {
    match t
    case Leaf => {}
    case Branch(l, k, _, r) => Keys(l) + {k} + Keys(r)
  }

  /** The values stored anywhere in `t`. */
  ghost function Values<V>(t: Tree<V>): set<V>
  {
    match t
    case Leaf => {}
    case Branch(l, _, v, r) => Values(l) + {v} + Values(r)
  }

  /** The number of nodes of `t`. */
  function Size<V>(t: Tree<V>): nat
  {
    match t
    case Leaf => 0
    case Branch(l, _, _, r) => Size(l) + 1 + Size(r)
  }

  /** The number of nodes on the longest root-to-leaf path. */
  function Height<V>(t: Tree<V>): nat
  {
    match t
    case Leaf => 0
    case Branch(l, _, _, r) => if Height(l) < Height(r) then Height(r) + 1 else Height(l) + 1
  }

  /** The binary-search-tree invariant: smaller keys to the left, larger to the right. */
  predicate Ordered<V>(t: Tree<V>)
  {
    match t
    case Leaf => true
    case Branch(l, k, _, r) =>
      Ordered(l) && Ordered(r) &&
      (forall x :: x in Keys(l) ==> x < k) &&
      (forall x :: x in Keys(r) ==> k < x)
  }

  /** The key-to-value mapping that the tree represents. */
  ghost function Contents<V>(t: Tree<V>): map<int, V>
  {
    match t
    case Leaf => map[]
    case Branch(l, k, v, r) => (Contents(l) + Contents(r))[k := v]
  }

  /** The values a map associates with its keys. */
  ghost function MapValues<V>(m: map<int, V>): set<V>
  {
    set k | k in m :: m[k]
  }

  /** The compare-driven descent: the value at the first node whose key equals `k`. */
  function Lookup<V>(t: Tree<V>, k: int): Option<V>
  {
    match t
    case Leaf => None
    case Branch(l, x, v, r) =>
      if k < x then Lookup(l, k)
      else if k > x then Lookup(r, k)
      else Some(v)
  }

  /**
   * The tree after `put(k, v)`: descend as Lookup does; at an equal key
   * overwrite the value, at an empty slot hang a new leaf.
   */
  function Insert<V>(t: Tree<V>, k: int, v: V): Tree<V>
  {
    match t
    case Leaf => Branch(Leaf, k, v, Leaf)
    case Branch(l, x, y, r) =>
      if k < x then Branch(Insert(l, k, v), x, y, r)
      else if k > x then Branch(l, x, y, Insert(r, k, v))
      else Branch(l, x, v, r)
  }

  /** Keys in in-order: left subtree, then the node, then the right subtree. */
  function InOrder<V>(t: Tree<V>): seq<int>
  {
    match t
    case Leaf => []
    case Branch(l, k, _, r) => InOrder(l) + [k] + InOrder(r)
  }

  predicate StrictlyIncreasing(s: seq<int>)
  {
    forall i, j :: 0 <= i < j < |s| ==> s[i] < s[j]
  }

  /** Two trees with the same nodes in the same places holding the same keys. */
  predicate SameShape<V>(a: Tree<V>, b: Tree<V>)
  {
    match a
    case Leaf => b.Leaf?
    case Branch(l, k, _, r) => b.Branch? && b.key == k && SameShape(l, b.left) && SameShape(r, b.right)
  }

  /**
   * `b` keeps every node of `a` in place with its key and value, and may
   * have further nodes hanging where `a` has empty slots.
   */
  ghost predicate Extends<V>(a: Tree<V>, b: Tree<V>)
  {
    match a
    case Leaf => true
    case Branch(l, k, v, r) =>
      b.Branch? && b.key == k && b.value == v && Extends(l, b.left) && Extends(r, b.right)
  }

  /** Every left child is empty: the tree is a chain hanging to the right. */
  predicate RightChain<V>(t: Tree<V>)
  {
    match t
    case Leaf => true
    case Branch(l, _, _, r) => l.Leaf? && RightChain(r)
  }

  /**
   * The traversal of `containsValueHelp` as written: it looks at the
   * node's value, then into the left child if there is one, and into the
   * right child only when there is no left child.
   */
  function SearchValueAsWritten<V(==)>(t: Tree<V>, target: V): bool
    requires t.Branch?
  {
    if target == t.value then true
    else if t.left.Branch? then SearchValueAsWritten(t.left, target)
    else if t.right.Branch? then SearchValueAsWritten(t.right, target)
    else false
  }

  /**
   * `putAll` over a sequence of entries: put them one after the other; a
   * null key throws, leaving the puts before it applied. The flag says
   * whether that happened.
   */
  function PutEntries<V>(t: Tree<V>, entries: seq<(Option<int>, V)>): (Tree<V>, bool)
    decreases |entries|
  {
    if entries == [] then (t, false)
    else if entries[0].0.None? then (t, true)
    else PutEntries(Insert(t, entries[0].0.value, entries[0].1), entries[1..])
  }

  // ---------------------------------------------------------------------
  // Lookup and Insert

  /** Put-then-get: the descent finds the value just put, and nothing else moves. */
  lemma {:induction false} LookupInsert<V>(t: Tree<V>, k: int, v: V, j: int)
    ensures Lookup(Insert(t, k, v), j) == if j == k then Some(v) else Lookup(t, j)
  {
    match t
    case Leaf =>
    case Branch(l, x, y, r) =>
      if k < x {
        if j < x { LookupInsert(l, k, v, j); }
      } else if k > x {
        if j > x { LookupInsert(r, k, v, j); }
      }
  }

  lemma {:induction false} KeysInsert<V>(t: Tree<V>, k: int, v: V)
    ensures Keys(Insert(t, k, v)) == Keys(t) + {k}
  {
    match t
    case Leaf =>
    case Branch(l, x, y, r) =>
      if k < x { KeysInsert(l, k, v); }
      else if k > x { KeysInsert(r, k, v); }
  }

  /** Insertion keeps the binary-search-tree invariant. */
  lemma {:induction false} InsertOrdered<V>(t: Tree<V>, k: int, v: V)
    requires Ordered(t)
    ensures Ordered(Insert(t, k, v))
  {
    match t
    case Leaf =>
    case Branch(l, x, y, r) =>
      if k < x { InsertOrdered(l, k, v); KeysInsert(l, k, v); }
      else if k > x { InsertOrdered(r, k, v); KeysInsert(r, k, v); }
  }

  /** On a search tree, the descent finds a key exactly when the key is stored. */
  lemma {:induction false} LookupFindsKeys<V>(t: Tree<V>, k: int)
    requires Ordered(t)
    ensures Lookup(t, k).Some? <==> k in Keys(t)
  {
    match t
    case Leaf =>
    case Branch(l, x, y, r) =>
      if k < x { LookupFindsKeys(l, k); }
      else if k > x { LookupFindsKeys(r, k); }
  }

  lemma {:induction false} ContentsKeys<V>(t: Tree<V>)
    ensures Contents(t).Keys == Keys(t)
  {
    match t
    case Leaf =>
    case Branch(l, k, v, r) => ContentsKeys(l); ContentsKeys(r);
  }

  /** On a search tree, the descent agrees with the map the tree represents. */
  lemma {:induction false} LookupContents<V>(t: Tree<V>, k: int)
    requires Ordered(t)
    ensures Lookup(t, k) == if k in Contents(t) then Some(Contents(t)[k]) else None
  {
    match t
    case Leaf =>
    case Branch(l, x, y, r) =>
      ContentsKeys(l);
      ContentsKeys(r);
      if k < x {
        LookupContents(l, k);
        assert k !in Keys(r);
      } else if k > x {
        LookupContents(r, k);
      }
  }

  /** On a search tree, `put(k, v)` is the map update `m[k := v]`. */
  lemma InsertContents<V>(t: Tree<V>, k: int, v: V)
    requires Ordered(t)
    ensures Contents(Insert(t, k, v)) == Contents(t)[k := v]
  {
    var t' := Insert(t, k, v);
    InsertOrdered(t, k, v);
    KeysInsert(t, k, v);
    ContentsKeys(t);
    ContentsKeys(t');
    forall j | j in Keys(t')
      ensures Contents(t')[j] == Contents(t)[k := v][j]
    {
      LookupInsert(t, k, v, j);
      LookupContents(t', j);
      LookupContents(t, j);
    }
  }

  /** Put adds one node exactly when the key was not found. */
  lemma {:induction false} SizeInsert<V>(t: Tree<V>, k: int, v: V)
    ensures Size(Insert(t, k, v)) == Size(t) + (if Lookup(t, k).None? then 1 else 0)
  {
    match t
    case Leaf =>
    case Branch(l, x, y, r) =>
      if k < x { SizeInsert(l, k, v); }
      else if k > x { SizeInsert(r, k, v); }
  }

  /**
   * Put of a key that is found keeps the tree's shape and keys and only
   * replaces that node's value.
   */
  lemma {:induction false} InsertFoundKeepsShape<V>(t: Tree<V>, k: int, v: V)
    requires Lookup(t, k).Some?
    ensures SameShape(t, Insert(t, k, v))
    ensures Keys(Insert(t, k, v)) == Keys(t)
  {
    match t
    case Branch(l, x, y, r) =>
      SameShapeRefl(l);
      SameShapeRefl(r);
      if k < x { InsertFoundKeepsShape(l, k, v); }
      else if k > x { InsertFoundKeepsShape(r, k, v); }
  }

  lemma {:induction false} SameShapeRefl<V>(t: Tree<V>)
    ensures SameShape(t, t)
  {
    match t
    case Leaf =>
    case Branch(l, _, _, r) => SameShapeRefl(l); SameShapeRefl(r);
  }

  /**
   * Put of a key that is not found keeps every existing node in place and
   * adds exactly one node, so the new node is a leaf.
   */
  lemma {:induction false} InsertMissingAddsLeaf<V>(t: Tree<V>, k: int, v: V)
    requires Lookup(t, k).None?
    ensures Extends(t, Insert(t, k, v))
    ensures Size(Insert(t, k, v)) == Size(t) + 1
  {
    SizeInsert(t, k, v);
    match t
    case Leaf =>
    case Branch(l, x, y, r) =>
      ExtendsRefl(l);
      ExtendsRefl(r);
      if k < x { InsertMissingAddsLeaf(l, k, v); }
      else { InsertMissingAddsLeaf(r, k, v); }
  }

  lemma {:induction false} ExtendsRefl<V>(t: Tree<V>)
    ensures Extends(t, t)
  {
    match t
    case Leaf =>
    case Branch(l, _, _, r) => ExtendsRefl(l); ExtendsRefl(r);
  }

  /** On a search tree the node count is the number of distinct keys. */
  lemma {:induction false} SizeIsKeyCount<V>(t: Tree<V>)
    requires Ordered(t)
    ensures Size(t) == |Keys(t)|
  {
    match t
    case Leaf =>
    case Branch(l, k, _, r) =>
      SizeIsKeyCount(l);
      SizeIsKeyCount(r);
      assert Keys(l) !! Keys(r) by {
        forall x | x in Keys(l) ensures x !in Keys(r) { }
      }
      assert k !in Keys(l) + Keys(r);
      assert |Keys(l) + Keys(r)| == |Keys(l)| + |Keys(r)|;
  }

  // ---------------------------------------------------------------------
  // In-order keys

  lemma {:induction false} InOrderKeys<V>(t: Tree<V>)
    ensures |InOrder(t)| == Size(t)
    ensures forall x :: x in InOrder(t) <==> x in Keys(t)
  {
    match t
    case Leaf =>
    case Branch(l, k, _, r) => InOrderKeys(l); InOrderKeys(r);
  }

  /** The in-order keys of a search tree are strictly ascending. */
  lemma {:induction false} InOrderAscending<V>(t: Tree<V>)
    requires Ordered(t)
    ensures StrictlyIncreasing(InOrder(t))
  {
    match t
    case Leaf =>
    case Branch(l, k, _, r) =>
      InOrderAscending(l);
      InOrderAscending(r);
      InOrderKeys(l);
      InOrderKeys(r);
      var a, b := InOrder(l), InOrder(r);
      var s := a + [k] + b;
      forall i, j | 0 <= i < j < |s| ensures s[i] < s[j] {
        if j < |a| {
        } else if i < |a| {
          assert s[i] in Keys(l);
          if j > |a| { assert s[j] == b[j - |a| - 1]; assert s[j] in Keys(r); }
        } else if i == |a| {
          assert s[j] == b[j - |a| - 1];
          assert s[j] in Keys(r);
        } else {
          assert s[i] == b[i - |a| - 1] && s[j] == b[j - |a| - 1];
        }
      }
  }

  /** Conversely, a tree whose in-order keys ascend strictly is a search tree. */
  lemma {:induction false} AscendingInOrderIsOrdered<V>(t: Tree<V>)
    requires StrictlyIncreasing(InOrder(t))
    ensures Ordered(t)
  {
    match t
    case Leaf =>
    case Branch(l, k, _, r) =>
      var a, b := InOrder(l), InOrder(r);
      var s := a + [k] + b;
      assert StrictlyIncreasing(a) by {
        forall i, j | 0 <= i < j < |a| ensures a[i] < a[j] { assert a[i] == s[i] && a[j] == s[j]; }
      }
      assert StrictlyIncreasing(b) by {
        forall i, j | 0 <= i < j < |b| ensures b[i] < b[j] {
          assert b[i] == s[|a| + 1 + i] && b[j] == s[|a| + 1 + j];
        }
      }
      AscendingInOrderIsOrdered(l);
      AscendingInOrderIsOrdered(r);
      InOrderKeys(l);
      InOrderKeys(r);
      forall x | x in Keys(l) ensures x < k {
        var i :| 0 <= i < |a| && a[i] == x;
        assert s[i] == x && s[|a|] == k;
      }
      forall x | x in Keys(r) ensures k < x {
        var i :| 0 <= i < |b| && b[i] == x;
        assert s[|a| + 1 + i] == x && s[|a|] == k;
      }
  }

  // ---------------------------------------------------------------------
  // Values

  /** On a search tree, the stored values are the values of the represented map. */
  lemma {:induction false} ValuesContents<V>(t: Tree<V>)
    requires Ordered(t)
    ensures Values(t) == MapValues(Contents(t))
  {
    match t
    case Leaf =>
    case Branch(l, k, v, r) =>
      ValuesContents(l);
      ValuesContents(r);
      ContentsKeys(l);
      ContentsKeys(r);
      var ml, mr := Contents(l), Contents(r);
      var m := (ml + mr)[k := v];
      forall y | y in Values(t) ensures y in MapValues(m) {
        if y in Values(l) {
          var x := KeyOfValue(ml, y);
          assert x !in Keys(r) && x != k;
          assert m[x] == y;
        } else if y in Values(r) {
          var x := KeyOfValue(mr, y);
          assert m[x] == y;
        } else {
          assert m[k] == y;
        }
      }
      forall y | y in MapValues(m) ensures y in Values(t) {
        var x := KeyOfValue(m, y);
        if x == k {
        } else if x in mr {
          assert mr[x] == y;
        } else {
          assert ml[x] == y;
        }
      }
  }

  lemma KeyOfValue<V>(m: map<int, V>, y: V) returns (x: int)
    requires y in MapValues(m)
    ensures x in m && m[x] == y
  {
    x :| x in m && m[x] == y;
  }

  // ---------------------------------------------------------------------
  // containsValueHelp

  /** A `true` answer of the as-written search is always right. */
  lemma {:induction false} SearchValueAsWrittenSound<V>(t: Tree<V>, target: V)
    requires t.Branch?
    ensures SearchValueAsWritten(t, target) ==> target in Values(t)
  {
    if target != t.value {
      if t.left.Branch? { SearchValueAsWrittenSound(t.left, target); }
      else if t.right.Branch? { SearchValueAsWrittenSound(t.right, target); }
    }
  }

  /**
   * A `false` answer can be wrong: after put(2, 20), put(1, 10), put(3, 30)
   * the value 30 sits in the right subtree, which is never searched because
   * a left child exists.
   */
  lemma ContainsValueMissesRightSubtree()
    ensures var t := PutEntries(Leaf, [(Some(2), 20), (Some(1), 10), (Some(3), 30)]).0;
            Ordered(t) && 30 in Values(t) && !SearchValueAsWritten(t, 30)
  {
  }

  // ---------------------------------------------------------------------
  // putAll

  /** putAll keeps the search-tree invariant, whether or not it stops at a null key. */
  lemma {:induction false} PutEntriesOrdered<V>(t: Tree<V>, entries: seq<(Option<int>, V)>)
    requires Ordered(t)
    ensures Ordered(PutEntries(t, entries).0)
    decreases |entries|
  {
    if entries != [] && entries[0].0.Some? {
      InsertOrdered(t, entries[0].0.value, entries[0].1);
      PutEntriesOrdered(Insert(t, entries[0].0.value, entries[0].1), entries[1..]);
    }
  }

  /**
   * After a putAll without null keys each key holds the value of its last
   * entry; keys without an entry keep their value.
   */
  lemma {:induction false} PutEntriesLastWins<V>(t: Tree<V>, entries: seq<(Option<int>, V)>, k: int)
    requires forall i :: 0 <= i < |entries| ==> entries[i].0.Some?
    ensures !PutEntries(t, entries).1
    ensures Lookup(PutEntries(t, entries).0, k) ==
            if exists i :: 0 <= i < |entries| && entries[i].0 == Some(k)
            then Some(entries[LastIndexOf(entries, k)].1)
            else Lookup(t, k)
    decreases |entries|
  {
    if entries != [] {
      var k0, v0 := entries[0].0.value, entries[0].1;
      var rest := entries[1..];
      PutEntriesLastWins(Insert(t, k0, v0), rest, k);
      LookupInsert(t, k0, v0, k);
      if exists i :: 0 <= i < |rest| && rest[i].0 == Some(k) {
        var i :| 0 <= i < |rest| && rest[i].0 == Some(k);
        assert entries[i + 1].0 == Some(k);
      } else if exists i :: 0 <= i < |entries| && entries[i].0 == Some(k) {
        var i :| 0 <= i < |entries| && entries[i].0 == Some(k);
        assert i == 0 || rest[i - 1] == entries[i];
      }
    }
  }

  /** The index of the last entry whose key is `k`. */
  function LastIndexOf<V>(entries: seq<(Option<int>, V)>, k: int): (i: nat)
    requires exists i :: 0 <= i < |entries| && entries[i].0 == Some(k)
    ensures i < |entries| && entries[i].0 == Some(k)
    ensures forall j :: i < j < |entries| ==> entries[j].0 != Some(k)
    decreases |entries|
  {
    var n := |entries| - 1;
    if entries[n].0 == Some(k) then n
    else
      assert exists i :: 0 <= i < |entries[..n]| && entries[..n][i].0 == Some(k) by {
        var i :| 0 <= i < |entries| && entries[i].0 == Some(k);
        assert i < n && entries[..n][i] == entries[i];
      }
      LastIndexOf(entries[..n], k)
  }

  // ---------------------------------------------------------------------
  // Height

  lemma {:induction false} HeightAtMostSize<V>(t: Tree<V>)
    ensures Height(t) <= Size(t)
  {
    match t
    case Leaf =>
    case Branch(l, _, _, r) => HeightAtMostSize(l); HeightAtMostSize(r);
  }

  lemma {:induction false} RightChainHeight<V>(t: Tree<V>)
    requires RightChain(t)
    ensures Height(t) == Size(t)
  {
    match t
    case Leaf =>
    case Branch(l, _, _, r) => RightChainHeight(r);
  }

  /** A key above every stored key is hung at the bottom of the right spine. */
  lemma {:induction false} InsertAboveAllKeepsChain<V>(t: Tree<V>, k: int, v: V)
    requires RightChain(t)
    requires forall x :: x in Keys(t) ==> x < k
    ensures RightChain(Insert(t, k, v))
    ensures Size(Insert(t, k, v)) == Size(t) + 1
  {
    match t
    case Leaf =>
    case Branch(l, x, y, r) =>
      assert x in Keys(t);
      InsertAboveAllKeepsChain(r, k, v);
  }

  lemma {:induction false} AscendingPutsChain<V>(t: Tree<V>, entries: seq<(Option<int>, V)>)
    requires RightChain(t)
    requires forall i :: 0 <= i < |entries| ==> entries[i].0.Some?
    requires forall i, j :: 0 <= i < j < |entries| ==> entries[i].0.value < entries[j].0.value
    requires forall x, i :: x in Keys(t) && 0 <= i < |entries| ==> x < entries[i].0.value
    ensures RightChain(PutEntries(t, entries).0)
    ensures Size(PutEntries(t, entries).0) == Size(t) + |entries|
    decreases |entries|
  {
    if entries != [] {
      var k, v := entries[0].0.value, entries[0].1;
      InsertAboveAllKeepsChain(t, k, v);
      KeysInsert(t, k, v);
      AscendingPutsChain(Insert(t, k, v), entries[1..]);
    }
  }

  /**
   * No rebalancing: putting n keys in strictly increasing order into an
   * empty map builds a chain of height n.
   */
  lemma AscendingPutsDegenerate<V>(entries: seq<(Option<int>, V)>)
    requires forall i :: 0 <= i < |entries| ==> entries[i].0.Some?
    requires forall i, j :: 0 <= i < j < |entries| ==> entries[i].0.value < entries[j].0.value
    ensures Height(PutEntries(Leaf, entries).0) == |entries|
  {
    AscendingPutsChain(Leaf, entries);
    RightChainHeight(PutEntries(Leaf, entries).0);
  }
}
